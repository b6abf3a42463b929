/** Two places where `arcaliveArchive.py` does not do what its design says,
    both because `main` assigns `current_url`, `last_saved_link` and
    `downloaded_css` without a `global` declaration: its assignments make
    locals, and `save_article` keeps reading the module-level values `None`,
    `None` and `[]`.

    The rest of the model follows the evident intent (the loop's state is
    shared with `save_article`); this module models the code as written and
    states the discrepancies. */
module AsWritten {
  import opened Wrappers
  import opened Paths
  import opened Dom
  import opened Web
  import opened Progress
  import opened Mirror
  import opened Crawl

  // ---------------------------------------------------------------------
  // the stylesheet set never grows

  /** One pass of the stylesheet loop as written. The membership test runs
      against the module-level empty list, so every stylesheet is fetched.
      On a 200 answer with a non-empty basename the file is written and the
      link relinked, and then `.add` on a list raises; the bare `except`
      swallows it, so the checkpoint that follows is never written. */
  function SheetStepAsWritten(input: SheetInput): (r: (StyleLink, seq<Effect>))
    ensures input.NoHref? ==> r == (input.link, [])
    ensures input.WithHref? ==> |r.1| > 0 && r.1[0] == Request(input.url, StylesheetTimeout)
    ensures r.0 == input.link || (input.WithHref? && r.0 == SharedLinkTo(input.name))
    ensures forall e | e in r.1 :: !e.SaveProgress?
  {
    match input
    case NoHref(link) => (link, [])
    case WithHref(link, url, name, reply) =>
      if Succeeded(reply) && name != "" then
        (SharedLinkTo(name), [Request(url, StylesheetTimeout), WriteStylesheet(name, reply.body)])
      else (link, [Request(url, StylesheetTimeout)])
  }

  /** The stylesheet loop as written: no state passes from link to link. */
  function SheetsLoopAsWritten(inputs: seq<SheetInput>): (r: (seq<StyleLink>, seq<Effect>))
    ensures |r.0| == |inputs|
    ensures forall e | e in r.1 :: !e.SaveProgress?
    decreases |inputs|
  {
    if |inputs| == 0 then ([], [])
    else
      var first := SheetStepAsWritten(inputs[0]);
      var rest := SheetsLoopAsWritten(inputs[1..]);
      ([first.0] + rest.0, first.1 + rest.1)
  }

  /** The stylesheet loop of `save_article` as written. */
  function MirrorStylesheetsAsWritten(env: Env, links: seq<StyleLink>): (r: (seq<StyleLink>, seq<Effect>))
    ensures |r.0| == |links|
    ensures forall e | e in r.1 :: !e.SaveProgress?
  {
    SheetsLoopAsWritten(SheetInputs(env, links))
  }

  /** As written, every article that links a stylesheet fetches it and
      writes it over the shared copy again, and records no checkpoint: the
      pass consults no set of downloaded stylesheets, so a second article
      with the same link does exactly the same. */
  lemma SharedStylesheetFetchedTwice(env: Env, link: StyleLink)
    requires Present(link.href)
    requires Succeeded(env.fetch(StylesheetUrl(env, link), StylesheetTimeout)) && SheetName(env, link) != ""
    ensures MirrorStylesheetsAsWritten(env, [link]).1
              == [Request(StylesheetUrl(env, link), StylesheetTimeout),
                  WriteStylesheet(SheetName(env, link), env.fetch(StylesheetUrl(env, link), StylesheetTimeout).body)]
  {
    var input := SheetInputOf(env, link);
    assert SheetInputs(env, [link]) == [input];
    assert input.reply == env.fetch(StylesheetUrl(env, link), StylesheetTimeout);
    SheetsLoopAsWrittenSingle(input);
  }

  /** The loop over one link is that link's pass. */
  lemma SheetsLoopAsWrittenSingle(input: SheetInput)
    ensures SheetsLoopAsWritten([input]).1 == SheetStepAsWritten(input).1
  {
    assert [input][1..] == [];
    assert SheetsLoopAsWritten([]) == ([], []);
  }

  /** As intended, a stylesheet the first article downloads is not fetched
      by the second: the second article relinks it with no effect at all. */
  lemma SharedStylesheetFetchedOnce(env: Env, listingUrl: string, lastSaved: Option<string>, css: set<string>,
                                    link: StyleLink)
    requires Present(link.href)
    requires Succeeded(env.fetch(StylesheetUrl(env, link), StylesheetTimeout)) && SheetName(env, link) != ""
    ensures var first := MirrorStylesheets(env, listingUrl, lastSaved, css, [link]);
            var second := MirrorStylesheets(env, listingUrl, lastSaved, first.css, [link]);
            && SheetName(env, link) in first.css
            && second.effects == []
            && second.links == [SharedLinkTo(SheetName(env, link))]
  {
    var input := SheetInputOf(env, link);
    assert SheetInputs(env, [link]) == [input];
    var first := SheetsLoop(listingUrl, lastSaved, css, [input]);
    assert SheetName(env, link) in first.css by {
      assert input.reply == env.fetch(StylesheetUrl(env, link), StylesheetTimeout);
      assert Fetched(input) && input.name == SheetName(env, link);
      var step := SheetStep(listingUrl, lastSaved, css, input);
      SheetStepShares(listingUrl, lastSaved, css, input);
      assert [input][1..] == [];
      assert first.css == SheetsLoop(listingUrl, lastSaved, step.css, []).css == step.css;
    }
    assert SheetsLoop(listingUrl, lastSaved, first.css, [input]) == SheetsOutcome([SharedLinkTo(input.name)], first.css, []) by {
      assert [input][1..] == [];
    }
  }

  // ---------------------------------------------------------------------
  // the article checkpoint records no listing URL

  /** The checkpoint `save_article` writes as written: `last_url` is the
      module-level `None` and `downloaded_css` the module-level empty list;
      only the article id is right. It is the record of no checkpoint the
      loop state could write, and no start URL lets a run resume from it. */
  function ArticleCheckpointAsWritten(article: ArticleRef): (stored: StoredProgress)
    ensures forall p: Progress, order: seq<string> | Elements(order) == p.downloadedCss :: Serialize(p, order) != stored
    ensures forall startUrl: string :: Start(Some(stored), startUrl) == Failure(NullListingUrl)
  {
    var stored := StoredProgress(Null, Value(ArticleId(article.link)), Value([]));
    NullUrlNeverSerialized(stored);
    NullUrlNeverStarts(stored);
    stored
  }

  /** Every checkpoint the loop state writes stores a listing URL, so a
      record with a null one is none of them. */
  lemma NullUrlNeverSerialized(stored: StoredProgress)
    requires stored.lastUrl.Null?
    ensures forall p: Progress, order: seq<string> | Elements(order) == p.downloadedCss :: Serialize(p, order) != stored
  {
    forall p: Progress, order: seq<string> | Elements(order) == p.downloadedCss
      ensures Serialize(p, order) != stored
    {
      assert Serialize(p, order).lastUrl.Value?;
    }
  }

  /** A record with a null listing URL and a stored stylesheet list fails
      to start, whatever the start URL, for want of a listing URL. */
  lemma NullUrlNeverStarts(stored: StoredProgress)
    requires stored.lastUrl.Null? && stored.downloadedCss.Value?
    ensures forall startUrl: string :: Start(Some(stored), startUrl) == Failure(NullListingUrl)
  {
    forall startUrl: string
      ensures Start(Some(stored), startUrl) == Failure(NullListingUrl)
    {
      var r := Start(Some(stored), startUrl);
      assert r.Failure? && Resume(Some(stored), startUrl) == Failure(r.error);
    }
  }

  /** A run that stops after archiving an article and before the next turn
      writes its own checkpoint (the last page had articles and no next-page
      control, or the program was interrupted) leaves a file it cannot
      resume from: `progress.get("last_url", start_url)` yields `None`. */
  lemma ArticleCheckpointBlocksResume(article: ArticleRef, startUrl: string)
    ensures Start(Some(ArticleCheckpointAsWritten(article)), startUrl) == Failure(NullListingUrl)
  {
  }

  /** As intended, the checkpoint an article leaves resumes the crawl on the
      listing page being archived, after that article, with the stylesheet
      set as it stands. */
  lemma ArticleCheckpointResumes(env: Env, listingUrl: string, lastSaved: Option<string>, css: set<string>,
                                 article: ArticleRef, order: seq<string>, startUrl: string)
    requires Elements(order) == SaveArticle(env, listingUrl, lastSaved, css, article).css
    ensures var r := SaveArticle(env, listingUrl, lastSaved, css, article);
            var saved := Progress(listingUrl, Some(ArticleId(article.link)), r.css);
            && r.effects[|r.effects| - 1] == SaveProgress(saved)
            && Start(Some(Serialize(saved, order)), startUrl)
                 == Success(CrawlState(listingUrl, Some(ArticleId(article.link)), r.css, 0))
  {
    var r := SaveArticle(env, listingUrl, lastSaved, css, article);
    CheckpointResumes(CrawlState(listingUrl, Some(ArticleId(article.link)), r.css, 0), order, startUrl);
  }
}
