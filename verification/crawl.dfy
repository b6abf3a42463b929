/** `main`: resume from the progress file, then walk the listing pages of
    the channel one after another, archiving every admissible article, until
    `EmptyPageLimit` pages in a row yield none or no next page is found. */
module Crawl {
  import opened Wrappers
  import opened Dom
  import opened Web
  import opened Paths
  import opened Progress
  import opened Extractor
  import opened Navigator
  import opened Mirror

  /** Consecutive listing pages without an article after which the crawl
      gives up. */
  const EmptyPageLimit: nat := 100

  /** The loop's variables: the listing page being crawled, the id of the
      last archived article, the stylesheets already downloaded, and how
      many pages in a row have yielded no article. */
  datatype CrawlState = CrawlState(currentUrl: string, lastSaved: Option<string>, css: set<string>, emptyCount: nat)

  datatype StopReason = EmptyPageLimitReached | NoNextPage

  /** One turn of the loop either moves on to the next listing page or
      stops, in the state the loop leaves. */
  datatype Outcome = Next(state: CrawlState) | Stop(reason: StopReason, state: CrawlState)

  datatype Turn = Turn(outcome: Outcome, effects: seq<Effect>)

  /** What archiving the articles of one page leaves behind. */
  datatype Batch = Batch(lastSaved: Option<string>, css: set<string>, effects: seq<Effect>)

  /** The checkpoint of a loop state, as written at the top of each turn. */
  function Checkpoint(s: CrawlState): Progress {
    Progress(s.currentUrl, s.lastSaved, s.css)
  }

  /** How the loop archives one article, given the listing URL, the last
      saved id and the stylesheet set. */
  type Saver = (string, Option<string>, set<string>, ArticleRef) -> Archived

  /** `save_article` in the archiver's environment. */
  function ArticleSaver(env: Env): Saver {
    (listingUrl: string, lastSaved: Option<string>, css: set<string>, article: ArticleRef) =>
      SaveArticle(env, listingUrl, lastSaved, css, article)
  }

  /** Archiving any article with `save` keeps the stylesheet books. */
  ghost predicate KeepsBooks(save: Saver) {
    forall listingUrl: string, lastSaved: Option<string>, css: set<string>, article: ArticleRef ::
      CssLedger(css, save(listingUrl, lastSaved, css, article).css, save(listingUrl, lastSaved, css, article).effects)
  }

  /** `save_article` keeps the stylesheet books. */
  lemma ArticleSaverKeepsBooks(env: Env)
    ensures KeepsBooks(ArticleSaver(env))
  {
    forall listingUrl: string, lastSaved: Option<string>, css: set<string>, article: ArticleRef
      ensures CssLedger(css, ArticleSaver(env)(listingUrl, lastSaved, css, article).css,
                        ArticleSaver(env)(listingUrl, lastSaved, css, article).effects)
    {
      SaveArticleCheckpoints(env, listingUrl, lastSaved, css, article);
    }
  }

  /** The inner loop: each article archived in order, the id of each
      archived article becoming the last saved one. */
  function ArchiveArticles(save: Saver, listingUrl: string, lastSaved: Option<string>, css: set<string>,
                           articles: seq<ArticleRef>): (r: Batch)
    ensures |articles| == 0 ==> r == Batch(lastSaved, css, [])
    ensures |articles| > 0 ==> r.lastSaved == Some(ArticleId(articles[|articles| - 1].link))
    decreases |articles|
  {
    if |articles| == 0 then Batch(lastSaved, css, [])
    else
      var first := save(listingUrl, lastSaved, css, articles[0]);
      var rest := ArchiveArticles(save, listingUrl, Some(ArticleId(articles[0].link)), first.css, articles[1..]);
      assert |articles| > 1 ==> articles[1..][|articles[1..]| - 1] == articles[|articles| - 1];
      Batch(rest.lastSaved, rest.css, first.effects + rest.effects)
  }

  /** The inner loop keeps the stylesheet books. */
  lemma {:induction false} ArchiveArticlesLedger(save: Saver, listingUrl: string, lastSaved: Option<string>,
                                                 css: set<string>, articles: seq<ArticleRef>)
    requires KeepsBooks(save)
    ensures var r := ArchiveArticles(save, listingUrl, lastSaved, css, articles);
            CssLedger(css, r.css, r.effects)
    decreases |articles|
  {
    if |articles| == 0 {
      assert StylesheetWrites([]) == [];
      assert Elements([]) == {};
    } else {
      var first := save(listingUrl, lastSaved, css, articles[0]);
      var rest := ArchiveArticles(save, listingUrl, Some(ArticleId(articles[0].link)), first.css, articles[1..]);
      ArchiveArticlesLedger(save, listingUrl, Some(ArticleId(articles[0].link)), first.css, articles[1..]);
      CssLedgerAppend(css, first.css, rest.css, first.effects, rest.effects);
    }
  }

  /** The page whose pagination `find_next_page_url` reads: the browser is
      still on the listing page when it had no article, and on the last
      archived article otherwise. */
  function PaginationAfter(env: Env, listing: ListingPage, articles: seq<ArticleRef>): (p: Pagination)
    ensures |articles| == 0 ==> p == listing.pagination
    ensures |articles| > 0 ==> p == env.render(articles[|articles| - 1].link).pagination
  {
    if |articles| == 0 then listing.pagination else env.render(articles[|articles| - 1].link).pagination
  }

  /** One turn of the `while True` loop in `main`: checkpoint the state,
      parse the listing page, count an empty page or archive the articles,
      then follow the next-page control if one is found (an empty URL is
      falsy in Python and stops the crawl too). */
  function CrawlStep(env: Env, save: Saver, s: CrawlState): (r: Turn)
    ensures |r.effects| > 0 && r.effects[0] == SaveProgress(Checkpoint(s))
  {
    var listing := env.listing(s.currentUrl);
    var articles := ParsePage(listing.rows);
    var checkpoint := [SaveProgress(Checkpoint(s))];
    if |articles| == 0 && s.emptyCount + 1 >= EmptyPageLimit then
      Turn(Stop(EmptyPageLimitReached, s.(emptyCount := s.emptyCount + 1)), checkpoint)
    else
      var batch := ArchiveArticles(save, s.currentUrl, s.lastSaved, s.css, articles);
      var count := if |articles| == 0 then s.emptyCount + 1 else 0;
      var s' := CrawlState(s.currentUrl, batch.lastSaved, batch.css, count);
      var next := FindNextPageUrl(env, PaginationAfter(env, listing, articles));
      if Present(next) then Turn(Next(s'.(currentUrl := next.value)), checkpoint + batch.effects)
      else Turn(Stop(NoNextPage, s'), checkpoint + batch.effects)
  }

  /** The articles of the page `s` is on. */
  function PageArticles(env: Env, s: CrawlState): seq<ArticleRef> {
    ParsePage(env.listing(s.currentUrl).rows)
  }

  /** The empty-page counter: an empty page adds one, and the crawl stops
      on reaching the limit; a page with articles resets it. A state the
      loop continues from is always below the limit. */
  lemma CrawlStepCounts(env: Env, save: Saver, s: CrawlState)
    requires s.emptyCount < EmptyPageLimit
    ensures var r := CrawlStep(env, save, s);
            && (|PageArticles(env, s)| == 0 ==> r.outcome.state.emptyCount == s.emptyCount + 1)
            && (|PageArticles(env, s)| > 0 ==> r.outcome.state.emptyCount == 0)
            && (r.outcome == Stop(EmptyPageLimitReached, r.outcome.state) <==>
                  |PageArticles(env, s)| == 0 && s.emptyCount + 1 == EmptyPageLimit)
            && (r.outcome.Next? ==> r.outcome.state.emptyCount < EmptyPageLimit)
  {
  }

  /** After a page with articles, the last saved id is that of the page's
      last article, and the crawl stays on the page until it moves on. */
  lemma CrawlStepRemembers(env: Env, save: Saver, s: CrawlState)
    requires |PageArticles(env, s)| > 0
    ensures var r := CrawlStep(env, save, s);
            var articles := PageArticles(env, s);
            r.outcome.state.lastSaved == Some(ArticleId(articles[|articles| - 1].link))
  {
  }

  /** An empty page archives nothing: the turn writes only its checkpoint
      and leaves the last saved id and the stylesheet set as they were. */
  lemma CrawlStepEmptyPage(env: Env, save: Saver, s: CrawlState)
    requires |PageArticles(env, s)| == 0
    ensures var r := CrawlStep(env, save, s);
            && r.effects == [SaveProgress(Checkpoint(s))]
            && r.outcome.state.lastSaved == s.lastSaved && r.outcome.state.css == s.css
  {
  }

  /** Unless the empty-page limit stops it, a turn moves on exactly when
      the next-page search finds a non-empty URL, and then to that URL. */
  lemma CrawlStepFollows(env: Env, save: Saver, s: CrawlState)
    ensures var r := CrawlStep(env, save, s);
            var articles := PageArticles(env, s);
            var next := FindNextPageUrl(env, PaginationAfter(env, env.listing(s.currentUrl), articles));
            && (r.outcome.Next? <==> (|articles| > 0 || s.emptyCount + 1 < EmptyPageLimit) && Present(next))
            && (r.outcome.Next? ==> r.outcome.state.currentUrl == next.value)
  {
  }

  /** One turn keeps the stylesheet books. */
  lemma CrawlStepLedger(env: Env, save: Saver, s: CrawlState)
    requires KeepsBooks(save)
    ensures var r := CrawlStep(env, save, s);
            CssLedger(s.css, r.outcome.state.css, r.effects)
  {
    var articles := ParsePage(env.listing(s.currentUrl).rows);
    CssLedgerCheckpoint(Checkpoint(s));
    if !(|articles| == 0 && s.emptyCount + 1 >= EmptyPageLimit) {
      var batch := ArchiveArticles(save, s.currentUrl, s.lastSaved, s.css, articles);
      ArchiveArticlesLedger(save, s.currentUrl, s.lastSaved, s.css, articles);
      CssLedgerAppend(s.css, s.css, batch.css, [SaveProgress(Checkpoint(s))], batch.effects);
    }
  }

  /** How a run ended: `stop` is None when the turn budget ran out first. */
  datatype RunResult = RunResult(final: CrawlState, stop: Option<StopReason>, effects: seq<Effect>)

  /** A loop driven by `step`, for at most `fuel` turns. A run records
      its first turn's effects before anything else, and it stops for a
      reason only after taking a turn. */
  function RunWith(step: CrawlState -> Turn, s: CrawlState, fuel: nat): (r: RunResult)
    ensures fuel > 0 ==> step(s).effects <= r.effects
    ensures r.stop.Some? ==> fuel > 0
    decreases fuel
  {
    if fuel == 0 then RunResult(s, None, [])
    else
      var turn := step(s);
      match turn.outcome
      case Stop(reason, s') => RunResult(s', Some(reason), turn.effects)
      case Next(s') =>
        var rest := RunWith(step, s', fuel - 1);
        RunResult(rest.final, rest.stop, turn.effects + rest.effects)
  }

  /** When every turn keeps the stylesheet books, so does the loop. */
  lemma {:induction false} RunWithLedger(step: CrawlState -> Turn, s: CrawlState, fuel: nat)
    requires forall t: CrawlState :: CssLedger(t.css, step(t).outcome.state.css, step(t).effects)
    ensures var r := RunWith(step, s, fuel);
            CssLedger(s.css, r.final.css, r.effects)
    decreases fuel
  {
    if fuel == 0 {
      assert StylesheetWrites([]) == [];
      assert Elements([]) == {};
    } else {
      var turn := step(s);
      if turn.outcome.Next? {
        var rest := RunWith(step, turn.outcome.state, fuel - 1);
        RunWithLedger(step, turn.outcome.state, fuel - 1);
        CssLedgerAppend(s.css, turn.outcome.state.css, rest.final.css, turn.effects, rest.effects);
      }
    }
  }

  /** A turn of `main`'s loop in the archiver's environment. */
  function Turns(env: Env): CrawlState -> Turn {
    (t: CrawlState) => CrawlStep(env, ArticleSaver(env), t)
  }

  /** The loop of `main`, for at most `fuel` turns. */
  function Run(env: Env, s: CrawlState, fuel: nat): (r: RunResult)
    ensures fuel > 0 ==> |r.effects| > 0 && r.effects[0] == SaveProgress(Checkpoint(s))
    ensures fuel == 0 ==> r == RunResult(s, None, [])
  {
    RunWith(Turns(env), s, fuel)
  }

  /** A whole run keeps the stylesheet books: no stylesheet is written
      twice, none the run started with is written at all, and every
      checkpoint records a set between the starting set and the final one,
      growing in order. */
  lemma RunLedger(env: Env, s: CrawlState, fuel: nat)
    ensures var r := Run(env, s, fuel);
            CssLedger(s.css, r.final.css, r.effects)
  {
    var save := ArticleSaver(env);
    ArticleSaverKeepsBooks(env);
    forall t: CrawlState
      ensures CssLedger(t.css, CrawlStep(env, save, t).outcome.state.css, CrawlStep(env, save, t).effects)
    {
      CrawlStepLedger(env, save, t);
    }
    RunWithLedger(Turns(env), s, fuel);
  }

  /** On every page it is given, `step` counts one more empty page: it
      either moves on with the counter one higher and still below the
      limit, or stops, and stops for emptiness only at the limit. */
  ghost predicate CountsEveryPage(step: CrawlState -> Turn) {
    forall t: CrawlState | t.emptyCount < EmptyPageLimit ::
      && (step(t).outcome.Next? ==>
            step(t).outcome.state.emptyCount == t.emptyCount + 1 && step(t).outcome.state.emptyCount < EmptyPageLimit)
      && (step(t).outcome == Stop(EmptyPageLimitReached, step(t).outcome.state) ==>
            step(t).outcome.state.emptyCount == EmptyPageLimit)
  }

  /** A loop whose every turn counts an empty page stops within the
      remaining budget of empty pages. */
  lemma {:induction false} RunWithStops(step: CrawlState -> Turn, s: CrawlState, fuel: nat)
    requires CountsEveryPage(step)
    requires s.emptyCount < EmptyPageLimit
    requires fuel >= EmptyPageLimit - s.emptyCount
    ensures RunWith(step, s, fuel).stop.Some?
    ensures RunWith(step, s, fuel).stop == Some(EmptyPageLimitReached) ==>
              RunWith(step, s, fuel).final.emptyCount == EmptyPageLimit
    decreases fuel
  {
    var turn := step(s);
    if turn.outcome.Next? {
      RunWithStops(step, turn.outcome.state, fuel - 1);
    }
  }

  /** On a channel whose listing pages never show an article, every turn
      counts one more empty page. */
  lemma EmptyChannelCounts(env: Env)
    requires forall url :: ParsePage(env.listing(url).rows) == []
    ensures CountsEveryPage(Turns(env))
  {
    var save := ArticleSaver(env);
    forall t: CrawlState | t.emptyCount < EmptyPageLimit
      ensures && (Turns(env)(t).outcome.Next? ==>
                    Turns(env)(t).outcome.state.emptyCount == t.emptyCount + 1
                    && Turns(env)(t).outcome.state.emptyCount < EmptyPageLimit)
              && (Turns(env)(t).outcome == Stop(EmptyPageLimitReached, Turns(env)(t).outcome.state) ==>
                    Turns(env)(t).outcome.state.emptyCount == EmptyPageLimit)
    {
      assert PageArticles(env, t) == [];
      CrawlStepCounts(env, save, t);
    }
  }

  /** A channel where no listing page has an admissible article: the
      counter climbs one page at a time, so a run with enough turns stops,
      and when it stops because of the empty-page limit the counter is at
      the limit. */
  lemma EmptyChannelStops(env: Env, s: CrawlState, fuel: nat)
    requires forall url :: ParsePage(env.listing(url).rows) == []
    requires s.emptyCount < EmptyPageLimit
    requires fuel >= EmptyPageLimit - s.emptyCount
    ensures var r := Run(env, s, fuel);
            r.stop == Some(EmptyPageLimitReached) || r.stop == Some(NoNextPage)
    ensures Run(env, s, fuel).stop == Some(EmptyPageLimitReached) ==>
              Run(env, s, fuel).final.emptyCount == EmptyPageLimit
  {
    var r := RunWith(Turns(env), s, fuel);
    assert r.stop.Some? && (r.stop == Some(EmptyPageLimitReached) ==> r.final.emptyCount == EmptyPageLimit) by {
      EmptyChannelCounts(env);
      RunWithStops(Turns(env), s, fuel);
    }
    assert r.stop.value == EmptyPageLimitReached || r.stop.value == NoNextPage;
    assert Run(env, s, fuel) == r;
  }

  /** On every page below the limit, `step` writes one checkpoint and
      counts one more empty page: it moves on while the counter stays below
      the limit, and stops for emptiness when it reaches it. */
  ghost predicate FollowsEmptyPages(step: CrawlState -> Turn) {
    forall t: CrawlState | t.emptyCount < EmptyPageLimit :: FollowsEmptyPage(step, t)
  }

  /** The turn `step` takes on `t` writes one checkpoint and counts one
      more empty page, moving on below the limit and stopping at it. */
  predicate FollowsEmptyPage(step: CrawlState -> Turn, t: CrawlState) {
    && |step(t).effects| == 1
    && (t.emptyCount + 1 < EmptyPageLimit ==>
          step(t).outcome.Next? && step(t).outcome.state.emptyCount == t.emptyCount + 1)
    && (t.emptyCount + 1 == EmptyPageLimit ==>
          step(t).outcome == Stop(EmptyPageLimitReached, step(t).outcome.state)
          && step(t).outcome.state.emptyCount == EmptyPageLimit)
  }

  /** A loop that follows empty pages takes exactly the remaining budget of
      empty pages, one checkpoint each, and then stops for emptiness; with
      less fuel it is still running. */
  lemma {:induction false} RunWithExactly(step: CrawlState -> Turn, s: CrawlState, fuel: nat)
    requires FollowsEmptyPages(step)
    requires s.emptyCount < EmptyPageLimit
    ensures var r := RunWith(step, s, fuel);
            && (fuel >= EmptyPageLimit - s.emptyCount ==>
                  && r.stop == Some(EmptyPageLimitReached)
                  && r.final.emptyCount == EmptyPageLimit
                  && |r.effects| == EmptyPageLimit - s.emptyCount)
            && (fuel < EmptyPageLimit - s.emptyCount ==> r.stop == None && |r.effects| == fuel)
    decreases fuel
  {
    if fuel > 0 {
      assert FollowsEmptyPage(step, s);
      if s.emptyCount + 1 < EmptyPageLimit {
        RunWithExactly(step, step(s).outcome.state, fuel - 1);
      }
    }
  }

  /** On a channel whose listing pages never show an article and always
      offer a next page, every turn writes one checkpoint and moves on until
      the limit. */
  lemma EmptyChannelFollows(env: Env)
    requires forall url :: ParsePage(env.listing(url).rows) == []
    requires forall url :: Present(FindNextPageUrl(env, env.listing(url).pagination))
    ensures FollowsEmptyPages(Turns(env))
  {
    var save := ArticleSaver(env);
    forall t: CrawlState | t.emptyCount < EmptyPageLimit
      ensures FollowsEmptyPage(Turns(env), t)
    {
      assert PageArticles(env, t) == [];
      assert Present(FindNextPageUrl(env, PaginationAfter(env, env.listing(t.currentUrl), [])));
      CrawlStepEmptyPage(env, save, t);
      CrawlStepCounts(env, save, t);
      CrawlStepFollows(env, save, t);
    }
  }

  /** A channel whose listing pages never show an article but always offer
      a next page: the crawl parses exactly as many pages as remain before
      the limit, writing one checkpoint per page, and then stops for
      emptiness; one turn fewer and it has not stopped yet. */
  lemma EmptyChannelPagesCounted(env: Env, s: CrawlState, fuel: nat)
    requires forall url :: ParsePage(env.listing(url).rows) == []
    requires forall url :: Present(FindNextPageUrl(env, env.listing(url).pagination))
    requires s.emptyCount < EmptyPageLimit
    ensures fuel >= EmptyPageLimit - s.emptyCount ==>
              && Run(env, s, fuel).stop == Some(EmptyPageLimitReached)
              && |Run(env, s, fuel).effects| == EmptyPageLimit - s.emptyCount
    ensures fuel < EmptyPageLimit - s.emptyCount ==>
              Run(env, s, fuel).stop == None && |Run(env, s, fuel).effects| == fuel
  {
    var r := RunWith(Turns(env), s, fuel);
    assert (fuel >= EmptyPageLimit - s.emptyCount ==>
              r.stop == Some(EmptyPageLimitReached) && |r.effects| == EmptyPageLimit - s.emptyCount)
           && (fuel < EmptyPageLimit - s.emptyCount ==> r.stop == None && |r.effects| == fuel) by {
      EmptyChannelFollows(env);
      RunWithExactly(Turns(env), s, fuel);
    }
    assert Run(env, s, fuel) == r;
  }

  /** The start of `main`: load the progress file and resume from it, with
      the counter at zero; a file whose `last_url` or `downloaded_css` is
      null cannot be resumed from. `startUrl` is the listing URL for the
      current time. */
  function Start(file: Option<StoredProgress>, startUrl: string): (r: Result<CrawlState, ResumeError>)
    ensures r.Failure? <==> file.Some? && (file.value.lastUrl.Null? || file.value.downloadedCss.Null?)
    ensures r.Failure? ==> Resume(file, startUrl) == Failure(r.error)
    ensures r.Success? ==> Resume(file, startUrl) == Success(Checkpoint(r.value)) && r.value.emptyCount == 0
  {
    match Resume(file, startUrl)
    case Failure(e) => Failure(e)
    case Success(p) => Success(CrawlState(p.lastUrl, p.lastLinkNumber, p.downloadedCss, 0))
  }

  /** Stopping after any turn and restarting from the checkpoint that turn
      wrote resumes the crawl on the same page with the same last saved
      article and stylesheet set. */
  lemma CheckpointResumes(s: CrawlState, order: seq<string>, startUrl: string)
    requires Elements(order) == s.css
    ensures Start(Some(Serialize(Checkpoint(s), order)), startUrl) == Success(s.(emptyCount := 0))
  {
    ResumeRoundTrip(Checkpoint(s), order, startUrl);
  }
}
