/** `save_article`: mirror an article's images, stylesheets and videos into
    local files and relink them in the document.

    Every fetch is one `env.fetch` outcome; a failed fetch (an exception or
    a status other than 200) leaves the element as it was and writes
    nothing. Stylesheets are shared between articles through the set of
    basenames already downloaded, which is threaded through explicitly. */
module Mirror {
  import opened Wrappers
  import opened Text
  import opened Paths
  import opened Dom
  import opened Web
  import opened Progress
  import opened Traces

  /** Fetching `url` for a media file: the request, then, on a 200
      answer, the write of the body under `name` in the article
      directory. */
  function Download(url: string, timeout: nat, dir: string, name: string, reply: FetchOutcome): (effects: seq<Effect>)
    ensures |effects| > 0 && effects[0] == Request(url, timeout)
    ensures Succeeded(reply) ==> ArticleFileNames(effects) == [name]
    ensures !Succeeded(reply) ==> ArticleFileNames(effects) == []
    ensures MediaOnly(effects) && FilesIn(effects, dir)
  {
    if Succeeded(reply) then
      ArticleFileNamesOfDownload(url, timeout, dir, name, reply.body);
      [Request(url, timeout), WriteArticleFile(dir, name, reply.body)]
    else
      ArticleFileNamesOfRequest(url, timeout);
      [Request(url, timeout)]
  }

  // =====================================================================
  // images

  /** The image's `src` resolved against the article URL. */
  function ImageUrl(env: Env, pageUrl: string, img: Img): string
    requires Present(img.src)
  {
    UrlJoin(env, pageUrl, img.src.value)
  }

  /** The image has a `src` and fetching it answers 200. */
  predicate ImageSucceeds(env: Env, pageUrl: string, img: Img) {
    Present(img.src) && Succeeded(env.fetch(ImageUrl(env, pageUrl, img), ImageTimeout))
  }

  /** `img_<idx><ext>`, the extension taken from the resolved URL without
      its query, `.jpg` when it has none. */
  function ImageLocalName(env: Env, pageUrl: string, idx: nat, img: Img): string
    requires Present(img.src)
  {
    ImageFileName(idx, ExtOr(ImageUrl(env, pageUrl, img), DefaultImageExt))
  }

  /** One pass of the image loop, for the image at position `idx`. */
  function MirrorImage(env: Env, pageUrl: string, dir: string, idx: nat, img: Img): (r: (Img, seq<Effect>))
    ensures ImageSucceeds(env, pageUrl, img) ==>
              r.0 == Img(Some(ImageLocalName(env, pageUrl, idx, img)))
              && ArticleFileNames(r.1) == [ImageLocalName(env, pageUrl, idx, img)]
    ensures !ImageSucceeds(env, pageUrl, img) ==> r.0 == img && ArticleFileNames(r.1) == []
    ensures !Present(img.src) ==> r.1 == []
    ensures MediaOnly(r.1) && FilesIn(r.1, dir)
  {
    if !Present(img.src) then (img, [])
    else
      var url := ImageUrl(env, pageUrl, img);
      var reply := env.fetch(url, ImageTimeout);
      var name := ImageLocalName(env, pageUrl, idx, img);
      (if Succeeded(reply) then Img(Some(name)) else img, Download(url, ImageTimeout, dir, name, reply))
  }

  /** The position an image file name reads back as, if it is one. */
  function ImageTag(name: string): Option<nat> {
    match ParseImageFileName(name)
    case None => None
    case Some(p) => Some(p.0)
  }

  /** A single file tagged with `idx` is distinct and tagged within
      `[idx, idx + 1)`. */
  lemma SingleTaggedName(names: seq<string>, n: string, tag: string -> Option<nat>, idx: nat)
    requires names == [n] && tag(n) == Some(idx)
    ensures Distinct(names) && TaggedIn(names, tag, idx, idx + 1)
  {
  }

  /** The image at position `idx` writes at most one file, and that file
      reads back as an image file of position `idx`. */
  lemma MirrorImageNames(env: Env, pageUrl: string, dir: string, idx: nat, img: Img)
    ensures var names := ArticleFileNames(MirrorImage(env, pageUrl, dir, idx, img).1);
            Distinct(names) && TaggedIn(names, ImageTag, idx, idx + 1)
  {
    var names := ArticleFileNames(MirrorImage(env, pageUrl, dir, idx, img).1);
    if ImageSucceeds(env, pageUrl, img) {
      var n := ImageLocalName(env, pageUrl, idx, img);
      assert ImageTag(n) == Some(idx) by {
        ImageFileNameRoundTrip(idx, ExtOr(ImageUrl(env, pageUrl, img), DefaultImageExt));
      }
      SingleTaggedName(names, n, ImageTag, idx);
    }
  }

  /** The image step of `save_article` for a fixed article. */
  function ImageStep(env: Env, pageUrl: string, dir: string): (nat, Img) -> (Img, seq<Effect>) {
    (idx: nat, img: Img) => MirrorImage(env, pageUrl, dir, idx, img)
  }

  /** The image loop of `save_article` over every `img` of the document. */
  function MirrorImages(env: Env, pageUrl: string, dir: string, imgs: seq<Img>): (r: (seq<Img>, seq<Effect>))
    ensures |r.0| == |imgs|
  {
    ForEach(ImageStep(env, pageUrl, dir), imgs)
  }

  /** A successful image is relinked to the file just written for it. */
  lemma ImagesRelinked(env: Env, pageUrl: string, dir: string, imgs: seq<Img>)
    ensures var r := MirrorImages(env, pageUrl, dir, imgs);
            forall k | 0 <= k < |imgs| && ImageSucceeds(env, pageUrl, imgs[k]) ::
              r.0[k] == Img(Some(ImageLocalName(env, pageUrl, k, imgs[k])))
              && ImageLocalName(env, pageUrl, k, imgs[k]) in ArticleFileNames(r.1)
  {
    var step := ImageStep(env, pageUrl, dir);
    var r := MirrorImages(env, pageUrl, dir, imgs);
    forall k | 0 <= k < |imgs| && ImageSucceeds(env, pageUrl, imgs[k])
      ensures r.0[k] == Img(Some(ImageLocalName(env, pageUrl, k, imgs[k])))
      ensures ImageLocalName(env, pageUrl, k, imgs[k]) in ArticleFileNames(r.1)
    {
      ForEachFromElement(step, imgs, 0, k);
      ForEachFromKeepsFiles(step, imgs, 0, k);
      assert step(k, imgs[k]) == MirrorImage(env, pageUrl, dir, k, imgs[k]);
    }
  }

  /** An image without a `src`, or whose fetch fails, is left as it was,
      and no image file of its position is written. */
  lemma ImagesKept(env: Env, pageUrl: string, dir: string, imgs: seq<Img>)
    ensures var r := MirrorImages(env, pageUrl, dir, imgs);
            forall k | 0 <= k < |imgs| && !ImageSucceeds(env, pageUrl, imgs[k]) :: r.0[k] == imgs[k]
    ensures var r := MirrorImages(env, pageUrl, dir, imgs);
            forall k, n | 0 <= k < |imgs| && !ImageSucceeds(env, pageUrl, imgs[k]) && n in ArticleFileNames(r.1) ::
              ImageTag(n) != Some(k)
  {
    var step := ImageStep(env, pageUrl, dir);
    var r := MirrorImages(env, pageUrl, dir, imgs);
    forall k | 0 <= k < |imgs| && !ImageSucceeds(env, pageUrl, imgs[k])
      ensures r.0[k] == imgs[k]
    {
      ForEachFromElement(step, imgs, 0, k);
    }
    forall k | 0 <= k < |imgs|
      ensures TaggedIn(ArticleFileNames(step(k, imgs[k]).1), ImageTag, k, k + 1)
    {
      MirrorImageNames(env, pageUrl, dir, k, imgs[k]);
    }
    forall k, n | 0 <= k < |imgs| && !ImageSucceeds(env, pageUrl, imgs[k]) && n in ArticleFileNames(r.1)
      ensures ImageTag(n) != Some(k)
    {
      ForEachFromTagOrigin(step, imgs, 0, ImageTag, n);
      assert ArticleFileNames(step(k, imgs[k]).1) == [];
    }
  }

  /** No two images write the same file, and every file written is an
      image file of a position in the document. */
  lemma ImageFilesDistinct(env: Env, pageUrl: string, dir: string, imgs: seq<Img>)
    ensures var names := ArticleFileNames(MirrorImages(env, pageUrl, dir, imgs).1);
            Distinct(names) && TaggedIn(names, ImageTag, 0, |imgs|)
  {
    var step := ImageStep(env, pageUrl, dir);
    forall k | 0 <= k < |imgs|
      ensures var names := ArticleFileNames(step(k, imgs[k]).1);
              Distinct(names) && TaggedIn(names, ImageTag, k, k + 1)
    {
      MirrorImageNames(env, pageUrl, dir, k, imgs[k]);
    }
    ForEachFromDistinct(step, imgs, 0, ImageTag);
  }

  // =====================================================================
  // stylesheets

  /** The stylesheet's `href` resolved against the channel URL. */
  function StylesheetUrl(env: Env, link: StyleLink): string
    requires Present(link.href)
  {
    UrlJoin(env, ChannelUrl, link.href.value)
  }

  /** The shared basename of the stylesheet a link refers to. */
  function SheetName(env: Env, link: StyleLink): string
    requires Present(link.href)
  {
    StylesheetName(StylesheetUrl(env, link))
  }

  /** The link after the stylesheet loop: pointing at the shared copy
      `../css/<name>`. */
  function SharedLink(env: Env, link: StyleLink): StyleLink
    requires Present(link.href)
  {
    StyleLink(Some(SharedStylesheetHref(SheetName(env, link))))
  }

  /** What the loop needs to know about one stylesheet link: the link
      itself and, when it has an `href`, the URL it resolves to, the
      basename of that URL, and the server's answer to fetching it. */
  datatype SheetInput =
    | NoHref(link: StyleLink)
    | WithHref(link: StyleLink, url: string, name: string, reply: FetchOutcome)

  /** The input of a link in the archiver's environment. */
  function SheetInputOf(env: Env, link: StyleLink): (input: SheetInput)
    ensures input.link == link
    ensures input.WithHref? <==> Present(link.href)
    ensures input.WithHref? ==> input.url == StylesheetUrl(env, link) && input.name == SheetName(env, link)
  {
    if !Present(link.href) then NoHref(link)
    else
      var url := StylesheetUrl(env, link);
      WithHref(link, url, StylesheetName(url), env.fetch(url, StylesheetTimeout))
  }

  /** The recorded basename is the one the recorded URL has. */
  predicate WellNamed(input: SheetInput) {
    input.WithHref? ==> input.name == StylesheetName(input.url)
  }

  /** Fetching the link's stylesheet answers 200 and its basename is not
      empty, so a copy can be written to the shared directory. */
  predicate Fetched(input: SheetInput) {
    input.WithHref? && Succeeded(input.reply) && input.name != ""
  }

  /** The basenames of the inputs whose stylesheet can be fetched and
      written. */
  function FetchedNames(inputs: seq<SheetInput>): (names: set<string>)
    ensures forall k | 0 <= k < |inputs| && Fetched(inputs[k]) :: inputs[k].name in names
    ensures forall n | n in names :: exists k :: 0 <= k < |inputs| && Fetched(inputs[k]) && inputs[k].name == n
  {
    set k | 0 <= k < |inputs| && Fetched(inputs[k]) :: inputs[k].name
  }

  /** The result of handling one stylesheet link: the link as relinked, the
      set of shared basenames, and the effects. */
  datatype SheetOutcome = SheetOutcome(link: StyleLink, css: set<string>, effects: seq<Effect>)

  /** The link pointing at the shared copy `../css/<name>`. */
  function SharedLinkTo(name: string): StyleLink {
    StyleLink(Some(SharedStylesheetHref(name)))
  }

  /** One pass of the stylesheet loop. A link without an `href` is skipped.
      A basename already shared is relinked without a fetch. Otherwise the
      stylesheet is fetched; on a 200 answer with a non-empty basename it
      is written to the shared directory, the link is relinked, the
      basename joins the set, and a checkpoint records the set together
      with `listingUrl` and `lastSaved`. An empty basename names the shared
      directory itself: opening it for writing fails, and the link stays
      as it was. */
  function SheetStep(listingUrl: string, lastSaved: Option<string>, css: set<string>, input: SheetInput): (r: SheetOutcome)
    ensures input.NoHref? ==> r == SheetOutcome(input.link, css, [])
    ensures input.WithHref? && input.name in css ==> r == SheetOutcome(SharedLinkTo(input.name), css, [])
    ensures input.WithHref? && input.name !in css ==>
              |r.effects| > 0 && r.effects[0] == Request(input.url, StylesheetTimeout)
    ensures input.WithHref? && input.name !in css && Fetched(input) ==>
              r == SheetOutcome(SharedLinkTo(input.name), css + {input.name},
                                [Request(input.url, StylesheetTimeout), WriteStylesheet(input.name, input.reply.body),
                                 SaveProgress(Progress(listingUrl, lastSaved, css + {input.name}))])
    ensures input.WithHref? && input.name !in css && !Fetched(input) ==>
              r == SheetOutcome(input.link, css, [Request(input.url, StylesheetTimeout)])
  {
    match input
    case NoHref(link) => SheetOutcome(link, css, [])
    case WithHref(link, url, name, reply) =>
      if name in css then SheetOutcome(SharedLinkTo(name), css, [])
      else if Succeeded(reply) && name != "" then
        var css' := css + {name};
        SheetOutcome(SharedLinkTo(name), css',
                     [Request(url, StylesheetTimeout), WriteStylesheet(name, reply.body),
                      SaveProgress(Progress(listingUrl, lastSaved, css'))])
      else SheetOutcome(link, css, [Request(url, StylesheetTimeout)])
  }

  /** A pass leaves the link as it was or points it at the shared copy of
      a stylesheet that is in the set afterwards; a basename shared before
      is always relinked. */
  lemma SheetStepRelinks(listingUrl: string, lastSaved: Option<string>, css: set<string>, input: SheetInput)
    ensures var r := SheetStep(listingUrl, lastSaved, css, input);
            && (r.link == input.link || (input.WithHref? && r.link == SharedLinkTo(input.name) && input.name in r.css))
            && (input.WithHref? && input.name in css ==> r.link == SharedLinkTo(input.name))
  {
  }

  /** A pass grows the set by exactly the stylesheets it writes, none of
      which was shared before, and writes each at most once. */
  lemma SheetStepGrows(listingUrl: string, lastSaved: Option<string>, css: set<string>, input: SheetInput)
    ensures var r := SheetStep(listingUrl, lastSaved, css, input);
            && r.css == css + Elements(StylesheetWrites(r.effects))
            && (forall n | n in StylesheetWrites(r.effects) :: n !in css)
            && Distinct(StylesheetWrites(r.effects))
  {
    if input.WithHref? && input.name !in css {
      var url, name, reply := input.url, input.name, input.reply;
      if Succeeded(reply) && name != "" {
        StylesheetDownloadTrace(url, StylesheetTimeout, name, reply.body, Progress(listingUrl, lastSaved, css + {name}), css);
        assert Elements([name]) == {name};
      } else {
        StylesheetFailureTrace(url, StylesheetTimeout, css, listingUrl, lastSaved);
      }
    }
    assert Elements([]) == {};
  }

  /** A pass writes no article file, and its only checkpoint records the
      grown set with `listingUrl` and `lastSaved`. */
  lemma SheetStepSaves(listingUrl: string, lastSaved: Option<string>, css: set<string>, input: SheetInput)
    ensures var r := SheetStep(listingUrl, lastSaved, css, input);
            && ArticleFileNames(r.effects) == []
            && SavesGrowFrom(css, r.effects) && SavesWithin(r.effects, r.css)
            && SavesAt(r.effects, listingUrl, lastSaved)
  {
    if input.WithHref? && input.name !in css {
      var url, name, reply := input.url, input.name, input.reply;
      if Succeeded(reply) && name != "" {
        StylesheetDownloadTrace(url, StylesheetTimeout, name, reply.body, Progress(listingUrl, lastSaved, css + {name}), css);
      } else {
        StylesheetFailureTrace(url, StylesheetTimeout, css, listingUrl, lastSaved);
      }
    }
  }

  /** A pass requests nothing but the link's own URL, and that only when
      its basename is not yet shared. */
  lemma SheetStepRequests(listingUrl: string, lastSaved: Option<string>, css: set<string>, input: SheetInput)
    ensures var r := SheetStep(listingUrl, lastSaved, css, input);
            forall e | e in r.effects && e.Request? :: input.WithHref? && e.url == input.url && input.name !in css
  {
  }

  /** The stylesheet loop after its last link: the links as relinked, the
      final set and the effects. */
  datatype SheetsOutcome = SheetsOutcome(links: seq<StyleLink>, css: set<string>, effects: seq<Effect>)

  /** The stylesheet loop over prepared inputs, threading the set of
      shared basenames from link to link. */
  function SheetsLoop(listingUrl: string, lastSaved: Option<string>, css: set<string>, inputs: seq<SheetInput>): (r: SheetsOutcome)
    ensures |r.links| == |inputs|
    decreases |inputs|
  {
    if |inputs| == 0 then SheetsOutcome([], css, [])
    else
      var first := SheetStep(listingUrl, lastSaved, css, inputs[0]);
      var rest := SheetsLoop(listingUrl, lastSaved, first.css, inputs[1..]);
      SheetsOutcome([first.link] + rest.links, rest.css, first.effects + rest.effects)
  }

  /** The loop grows the set by exactly the stylesheets it writes, none of
      which was shared before, and never writes a stylesheet twice. */
  lemma {:induction false} SheetsLoopGrows(listingUrl: string, lastSaved: Option<string>, css: set<string>, inputs: seq<SheetInput>)
    ensures var r := SheetsLoop(listingUrl, lastSaved, css, inputs);
            && r.css == css + Elements(StylesheetWrites(r.effects))
            && (forall n | n in StylesheetWrites(r.effects) :: n !in css)
            && Distinct(StylesheetWrites(r.effects))
    decreases |inputs|
  {
    if |inputs| == 0 {
      assert Elements([]) == {};
    } else {
      var first := SheetStep(listingUrl, lastSaved, css, inputs[0]);
      var rest := SheetsLoop(listingUrl, lastSaved, first.css, inputs[1..]);
      SheetStepGrows(listingUrl, lastSaved, css, inputs[0]);
      SheetsLoopGrows(listingUrl, lastSaved, first.css, inputs[1..]);
      var a := StylesheetWrites(first.effects);
      var b := StylesheetWrites(rest.effects);
      StylesheetWritesAppend(first.effects, rest.effects);
      ElementsAppend(a, b);
      forall x, y | 0 <= x < |a| && 0 <= y < |b|
        ensures a[x] != b[y]
      {
        assert a[x] in a && b[y] in b;
        assert a[x] in first.css;
      }
      DistinctAppend(a, b);
    }
  }

  /** The loop writes no article file; reading its checkpoints in order,
      each records a set containing `css` and every earlier checkpoint's
      set, within the final set, together with `listingUrl` and
      `lastSaved`. */
  lemma {:induction false} SheetsLoopSaves(listingUrl: string, lastSaved: Option<string>, css: set<string>, inputs: seq<SheetInput>)
    ensures var r := SheetsLoop(listingUrl, lastSaved, css, inputs);
            && ArticleFileNames(r.effects) == []
            && SavesGrowFrom(css, r.effects) && SavesWithin(r.effects, r.css)
            && SavesAt(r.effects, listingUrl, lastSaved)
    decreases |inputs|
  {
    if |inputs| > 0 {
      var first := SheetStep(listingUrl, lastSaved, css, inputs[0]);
      var rest := SheetsLoop(listingUrl, lastSaved, first.css, inputs[1..]);
      SheetStepSaves(listingUrl, lastSaved, css, inputs[0]);
      SheetStepGrows(listingUrl, lastSaved, css, inputs[0]);
      SheetsLoopSaves(listingUrl, lastSaved, first.css, inputs[1..]);
      SheetsLoopGrows(listingUrl, lastSaved, first.css, inputs[1..]);
      ArticleFileNamesAppend(first.effects, rest.effects);
      SavesGrowAppend(css, first.effects, first.css, rest.effects);
    }
  }

  /** The loop never requests a stylesheet whose basename was shared when
      it started. */
  lemma {:induction false} SheetsLoopRequests(listingUrl: string, lastSaved: Option<string>, css: set<string>, inputs: seq<SheetInput>)
    requires forall k | 0 <= k < |inputs| :: WellNamed(inputs[k])
    ensures var r := SheetsLoop(listingUrl, lastSaved, css, inputs);
            forall e | e in r.effects && e.Request? :: StylesheetName(e.url) !in css
    decreases |inputs|
  {
    if |inputs| > 0 {
      var first := SheetStep(listingUrl, lastSaved, css, inputs[0]);
      SheetStepRequests(listingUrl, lastSaved, css, inputs[0]);
      SheetStepGrows(listingUrl, lastSaved, css, inputs[0]);
      assert forall k | 0 <= k < |inputs[1..]| :: inputs[1..][k] == inputs[k + 1];
      SheetsLoopRequests(listingUrl, lastSaved, first.css, inputs[1..]);
    }
  }

  /** The link at position `k` is left as it was or points at the shared
      copy of a stylesheet in the final set; one whose basename was shared
      when the loop started is always relinked. */
  lemma {:induction false} SheetsLoopRelinks(listingUrl: string, lastSaved: Option<string>, css: set<string>,
                                             inputs: seq<SheetInput>, k: nat)
    requires k < |inputs|
    ensures var r := SheetsLoop(listingUrl, lastSaved, css, inputs);
            && (r.links[k] == inputs[k].link
                || (inputs[k].WithHref? && r.links[k] == SharedLinkTo(inputs[k].name) && inputs[k].name in r.css))
            && (inputs[k].WithHref? && inputs[k].name in css ==> r.links[k] == SharedLinkTo(inputs[k].name))
    decreases |inputs|
  {
    var first := SheetStep(listingUrl, lastSaved, css, inputs[0]);
    SheetStepGrows(listingUrl, lastSaved, css, inputs[0]);
    SheetsLoopGrows(listingUrl, lastSaved, first.css, inputs[1..]);
    if k == 0 {
      SheetStepRelinks(listingUrl, lastSaved, css, inputs[0]);
    } else {
      SheetsLoopRelinks(listingUrl, lastSaved, first.css, inputs[1..], k - 1);
      assert inputs[1..][k - 1] == inputs[k];
    }
  }

  /** The fetchable basenames of a list are those of its first input and
      of the rest. */
  lemma FetchedNamesCons(inputs: seq<SheetInput>)
    requires |inputs| > 0
    ensures FetchedNames(inputs) == (if Fetched(inputs[0]) then {inputs[0].name} else {}) + FetchedNames(inputs[1..])
  {
    var head := if Fetched(inputs[0]) then {inputs[0].name} else {};
    forall n | n in FetchedNames(inputs)
      ensures n in head + FetchedNames(inputs[1..])
    {
      var k :| 0 <= k < |inputs| && Fetched(inputs[k]) && inputs[k].name == n;
      if k > 0 {
        assert inputs[1..][k - 1] == inputs[k];
      }
    }
    forall n | n in FetchedNames(inputs[1..])
      ensures n in FetchedNames(inputs)
    {
      var k :| 0 <= k < |inputs[1..]| && Fetched(inputs[1..][k]) && inputs[1..][k].name == n;
      assert inputs[1..][k] == inputs[k + 1];
    }
  }

  /** A pass adds to the set exactly the basename of a stylesheet it can
      fetch and write; a basename already shared stays shared. */
  lemma SheetStepShares(listingUrl: string, lastSaved: Option<string>, css: set<string>, input: SheetInput)
    ensures SheetStep(listingUrl, lastSaved, css, input).css == css + (if Fetched(input) then {input.name} else {})
  {
  }

  /** The set after the loop is the set it started from together with the
      basename of every stylesheet that can be fetched and written. */
  lemma {:induction false} SheetsLoopShares(listingUrl: string, lastSaved: Option<string>, css: set<string>, inputs: seq<SheetInput>)
    ensures SheetsLoop(listingUrl, lastSaved, css, inputs).css == css + FetchedNames(inputs)
    decreases |inputs|
  {
    if |inputs| == 0 {
      assert FetchedNames(inputs) == {};
    } else {
      var first := SheetStep(listingUrl, lastSaved, css, inputs[0]);
      SheetStepShares(listingUrl, lastSaved, css, inputs[0]);
      SheetsLoopShares(listingUrl, lastSaved, first.css, inputs[1..]);
      FetchedNamesCons(inputs);
    }
  }

  /** The link at position `k` ends pointing at the shared copy exactly
      when it has an `href` and its basename was shared before the loop,
      was fetched for an earlier link, or is fetched for this one; any
      other link is left as it was. */
  lemma {:induction false} SheetsLoopLinks(listingUrl: string, lastSaved: Option<string>, css: set<string>,
                                           inputs: seq<SheetInput>, k: nat)
    requires k < |inputs|
    ensures SheetsLoop(listingUrl, lastSaved, css, inputs).links[k] ==
              if inputs[k].WithHref? && (inputs[k].name in css + FetchedNames(inputs[..k]) || Fetched(inputs[k]))
              then SharedLinkTo(inputs[k].name) else inputs[k].link
    decreases |inputs|
  {
    var first := SheetStep(listingUrl, lastSaved, css, inputs[0]);
    if k == 0 {
      assert FetchedNames(inputs[..0]) == {};
    } else {
      var rest := SheetsLoop(listingUrl, lastSaved, first.css, inputs[1..]);
      assert SheetsLoop(listingUrl, lastSaved, css, inputs).links[k] == rest.links[k - 1];
      assert css + FetchedNames(inputs[..k]) == first.css + FetchedNames(inputs[1..][..k - 1]) by {
        SheetStepShares(listingUrl, lastSaved, css, inputs[0]);
        FetchedNamesCons(inputs[..k]);
        assert inputs[..k][0] == inputs[0] && inputs[..k][1..] == inputs[1..][..k - 1];
      }
      assert inputs[1..][k - 1] == inputs[k];
      SheetsLoopLinks(listingUrl, lastSaved, first.css, inputs[1..], k - 1);
    }
  }

  /** The inputs of a document's stylesheet links. */
  function SheetInputs(env: Env, links: seq<StyleLink>): (inputs: seq<SheetInput>)
    ensures |inputs| == |links|
    ensures forall k | 0 <= k < |links| :: inputs[k] == SheetInputOf(env, links[k])
  {
    seq(|links|, k requires 0 <= k < |links| => SheetInputOf(env, links[k]))
  }

  /** The stylesheet loop of `save_article` over every
      `link[rel='stylesheet']` of the document. */
  function MirrorStylesheets(env: Env, listingUrl: string, lastSaved: Option<string>, css: set<string>,
                             links: seq<StyleLink>): (r: SheetsOutcome)
    ensures |r.links| == |links|
  {
    SheetsLoop(listingUrl, lastSaved, css, SheetInputs(env, links))
  }

  /** The set grows by exactly the stylesheets the loop writes, none of
      which was shared before, and no stylesheet is written twice. */
  lemma StylesheetsGrow(env: Env, listingUrl: string, lastSaved: Option<string>, css: set<string>, links: seq<StyleLink>)
    ensures var r := MirrorStylesheets(env, listingUrl, lastSaved, css, links);
            && r.css == css + Elements(StylesheetWrites(r.effects))
            && (forall n | n in StylesheetWrites(r.effects) :: n !in css)
            && Distinct(StylesheetWrites(r.effects))
  {
    SheetsLoopGrows(listingUrl, lastSaved, css, SheetInputs(env, links));
  }

  /** The loop writes no article file, and its checkpoints record growing
      sets within the final one, each with `listingUrl` and `lastSaved`. */
  lemma StylesheetsSave(env: Env, listingUrl: string, lastSaved: Option<string>, css: set<string>, links: seq<StyleLink>)
    ensures var r := MirrorStylesheets(env, listingUrl, lastSaved, css, links);
            && ArticleFileNames(r.effects) == []
            && SavesGrowFrom(css, r.effects) && SavesWithin(r.effects, r.css)
            && SavesAt(r.effects, listingUrl, lastSaved)
  {
    SheetsLoopSaves(listingUrl, lastSaved, css, SheetInputs(env, links));
  }

  /** A stylesheet whose basename is already shared is never fetched
      again. */
  lemma StylesheetsNotRefetched(env: Env, listingUrl: string, lastSaved: Option<string>, css: set<string>, links: seq<StyleLink>)
    ensures var r := MirrorStylesheets(env, listingUrl, lastSaved, css, links);
            forall e | e in r.effects && e.Request? :: StylesheetName(e.url) !in css
  {
    var inputs := SheetInputs(env, links);
    forall k | 0 <= k < |inputs|
      ensures WellNamed(inputs[k])
    {
      assert inputs[k] == SheetInputOf(env, links[k]);
    }
    SheetsLoopRequests(listingUrl, lastSaved, css, inputs);
  }

  /** Each link is left as it was or points at the shared copy of a
      stylesheet in the final set, so no relinked reference dangles; a link
      whose basename was already shared is always relinked. */
  lemma StylesheetsRelinked(env: Env, listingUrl: string, lastSaved: Option<string>, css: set<string>, links: seq<StyleLink>)
    ensures var r := MirrorStylesheets(env, listingUrl, lastSaved, css, links);
            forall k | 0 <= k < |links| ::
              && (r.links[k] == links[k]
                  || (Present(links[k].href) && r.links[k] == SharedLink(env, links[k]) && SheetName(env, links[k]) in r.css))
              && (Present(links[k].href) && SheetName(env, links[k]) in css ==> r.links[k] == SharedLink(env, links[k]))
    ensures var r := MirrorStylesheets(env, listingUrl, lastSaved, css, links);
            var inputs := SheetInputs(env, links);
            && r.css == css + FetchedNames(inputs)
            && forall k | 0 <= k < |links| ::
                 r.links[k] == if Present(links[k].href)
                                  && (SheetName(env, links[k]) in css + FetchedNames(inputs[..k]) || Fetched(inputs[k]))
                               then SharedLink(env, links[k]) else links[k]
  {
    var inputs := SheetInputs(env, links);
    var r := MirrorStylesheets(env, listingUrl, lastSaved, css, links);
    SheetsLoopShares(listingUrl, lastSaved, css, inputs);
    forall k | 0 <= k < |links|
      ensures r.links[k] == links[k]
              || (Present(links[k].href) && r.links[k] == SharedLink(env, links[k]) && SheetName(env, links[k]) in r.css)
      ensures Present(links[k].href) && SheetName(env, links[k]) in css ==> r.links[k] == SharedLink(env, links[k])
      ensures r.links[k] == if Present(links[k].href)
                                && (SheetName(env, links[k]) in css + FetchedNames(inputs[..k]) || Fetched(inputs[k]))
                             then SharedLink(env, links[k]) else links[k]
    {
      SheetsLoopRelinks(listingUrl, lastSaved, css, inputs, k);
      SheetsLoopLinks(listingUrl, lastSaved, css, inputs, k);
      assert inputs[k] == SheetInputOf(env, links[k]);
    }
  }

  // =====================================================================
  // videos

  /** The non-empty `src` values of a video's `<source>` children, in
      order. */
  function SourceUrls(sources: seq<Option<string>>): (urls: seq<string>)
    ensures forall j | 0 <= j < |urls| :: urls[j] != ""
    ensures forall k | 0 <= k < |sources| && Present(sources[k]) :: sources[k].value in urls
    ensures forall u | u in urls :: Some(u) in sources
    ensures |sources| == 1 ==> urls == (if Present(sources[0]) then [sources[0].value] else [])
  {
    if |sources| == 0 then []
    else
      var rest := SourceUrls(sources[1..]);
      assert forall u | Some(u) in sources[1..] :: Some(u) in sources;
      assert forall k | 1 <= k < |sources| :: sources[k] == sources[1..][k - 1];
      (if Present(sources[0]) then [sources[0].value] else []) + rest
  }

  /** Collecting the URLs of two lists of `src` values one after the
      other gives the URLs of the first, then those of the second. */
  lemma {:induction false} SourceUrlsAppend(a: seq<Option<string>>, b: seq<Option<string>>)
    ensures SourceUrls(a + b) == SourceUrls(a) + SourceUrls(b)
    decreases |a|
  {
    if |a| == 0 {
      assert a + b == b;
    } else {
      var head := if Present(a[0]) then [a[0].value] else [];
      var tail := SourceUrls(a[1..] + b);
      assert SourceUrls(a + b) == head + tail by {
        assert (a + b)[0] == a[0] && (a + b)[1..] == a[1..] + b;
      }
      assert head + tail == SourceUrls(a) + SourceUrls(b) by {
        SourceUrlsAppend(a[1..], b);
        assert SourceUrls(a) == head + SourceUrls(a[1..]);
        assert head + (SourceUrls(a[1..]) + SourceUrls(b)) == (head + SourceUrls(a[1..])) + SourceUrls(b);
      }
    }
  }

  /** The URLs the video loop tries for one video: its own `src` when it
      has one, then the non-empty `src` of each `<source>`, in document
      order. */
  function Candidates(v: Video): (urls: seq<string>)
    ensures forall j | 0 <= j < |urls| :: urls[j] != ""
    ensures Present(v.src) ==> |urls| > 0 && urls[0] == v.src.value
    ensures forall u | u in urls :: Some(u) == v.src || Some(u) in v.sources
    ensures forall k | 0 <= k < |v.sources| && Present(v.sources[k]) :: v.sources[k].value in urls
    ensures urls == SourceUrls([v.src] + v.sources)
  {
    SourceUrlsAppend([v.src], v.sources);
    (if Present(v.src) then [v.src.value] else []) + SourceUrls(v.sources)
  }

  /** What the loop needs to know about one candidate: the URL as written
      in the document, the URL it resolves to, the file name a download is
      saved under, and the server's answer to fetching it. */
  datatype Candidate = Candidate(url: string, resolved: string, name: string, reply: FetchOutcome)

  /** The video with a downloaded candidate relinked. Its own `src` is set
      to the new file whenever the video had one to begin with, and every
      `<source>` whose current `src` equals the candidate's URL is set to
      it. */
  function Relink(cur: Video, hadOwnSrc: bool, url: string, name: string): (v: Video)
    ensures |v.sources| == |cur.sources|
    ensures hadOwnSrc ==> v.src == Some(name)
    ensures !hadOwnSrc ==> v.src == cur.src
    ensures forall k | 0 <= k < |cur.sources| ::
              v.sources[k] == (if cur.sources[k] == Some(url) then Some(name) else cur.sources[k])
  {
    Video(if hadOwnSrc then Some(name) else cur.src,
          seq(|cur.sources|, k requires 0 <= k < |cur.sources| =>
                if cur.sources[k] == Some(url) then Some(name) else cur.sources[k]))
  }

  /** One pass of the candidate loop: fetch the candidate; on a 200 answer
      write it under its file name and relink the video. */
  function CandidateStep(dir: string, hadOwnSrc: bool, cur: Video, c: Candidate): (r: (Video, seq<Effect>))
    ensures Succeeded(c.reply) ==> r.0 == Relink(cur, hadOwnSrc, c.url, c.name) && ArticleFileNames(r.1) == [c.name]
    ensures !Succeeded(c.reply) ==> r.0 == cur && ArticleFileNames(r.1) == []
    ensures MediaOnly(r.1) && FilesIn(r.1, dir)
  {
    (if Succeeded(c.reply) then Relink(cur, hadOwnSrc, c.url, c.name) else cur,
     Download(c.resolved, VideoTimeout, dir, c.name, c.reply))
  }

  /** The candidate loop from candidate `j` on. */
  function CandidatesFrom(dir: string, hadOwnSrc: bool, cur: Video, cs: seq<Candidate>, j: nat): (r: (Video, seq<Effect>))
    requires j <= |cs|
    decreases |cs| - j
  {
    if j == |cs| then (cur, [])
    else
      var first := CandidateStep(dir, hadOwnSrc, cur, cs[j]);
      var rest := CandidatesFrom(dir, hadOwnSrc, first.0, cs, j + 1);
      (rest.0, first.1 + rest.1)
  }

  /** Without a successful download from candidate `j` on, the video is
      left as it was and no file is written. */
  lemma {:induction false} CandidatesWithoutSuccess(dir: string, hadOwnSrc: bool, cur: Video, cs: seq<Candidate>, j: nat)
    requires j <= |cs|
    requires forall k | j <= k < |cs| :: !Succeeded(cs[k].reply)
    ensures CandidatesFrom(dir, hadOwnSrc, cur, cs, j).0 == cur
    ensures ArticleFileNames(CandidatesFrom(dir, hadOwnSrc, cur, cs, j).1) == []
    decreases |cs| - j
  {
    if j < |cs| {
      var first := CandidateStep(dir, hadOwnSrc, cur, cs[j]);
      CandidatesWithoutSuccess(dir, hadOwnSrc, cur, cs, j + 1);
      ArticleFileNamesAppend(first.1, CandidatesFrom(dir, hadOwnSrc, first.0, cs, j + 1).1);
    }
  }

  /** The candidate loop only fetches and writes article files, all into
      `dir`. */
  lemma {:induction false} CandidatesMediaOnly(dir: string, hadOwnSrc: bool, cur: Video, cs: seq<Candidate>, j: nat)
    requires j <= |cs|
    ensures MediaOnly(CandidatesFrom(dir, hadOwnSrc, cur, cs, j).1)
    ensures FilesIn(CandidatesFrom(dir, hadOwnSrc, cur, cs, j).1, dir)
    decreases |cs| - j
  {
    if j < |cs| {
      var first := CandidateStep(dir, hadOwnSrc, cur, cs[j]);
      CandidatesMediaOnly(dir, hadOwnSrc, first.0, cs, j + 1);
    }
  }

  /** When the video had its own `src`, that `src` ends up naming the file
      of the last candidate that downloaded, whichever element the
      candidate came from. */
  lemma {:induction false} CandidatesLastSuccess(dir: string, cur: Video, cs: seq<Candidate>, j: nat, m: nat)
    requires j <= m < |cs|
    requires Succeeded(cs[m].reply)
    requires forall k | m < k < |cs| :: !Succeeded(cs[k].reply)
    ensures CandidatesFrom(dir, true, cur, cs, j).0.src == Some(cs[m].name)
    decreases |cs| - j
  {
    var first := CandidateStep(dir, true, cur, cs[j]);
    if j < m {
      CandidatesLastSuccess(dir, first.0, cs, j + 1, m);
    } else {
      CandidatesWithoutSuccess(dir, true, first.0, cs, j + 1);
    }
  }

  /** The video keeps its number of `<source>` children; without its own
      `src` to begin with, its `src` is left as it was; and a `<source>`
      without a usable `src` is never touched. */
  lemma {:induction false} CandidatesKeepShape(dir: string, hadOwnSrc: bool, cur: Video, cs: seq<Candidate>, j: nat)
    requires j <= |cs|
    requires forall k | j <= k < |cs| :: cs[k].url != ""
    ensures var v := CandidatesFrom(dir, hadOwnSrc, cur, cs, j).0;
            && |v.sources| == |cur.sources|
            && (!hadOwnSrc ==> v.src == cur.src)
            && (forall k | 0 <= k < |cur.sources| && !Present(cur.sources[k]) :: v.sources[k] == cur.sources[k])
    decreases |cs| - j
  {
    if j < |cs| {
      var first := CandidateStep(dir, hadOwnSrc, cur, cs[j]);
      CandidatesKeepShape(dir, hadOwnSrc, first.0, cs, j + 1);
    }
  }

  /** The position a video file name reads back as, if it is one. */
  function VideoTag(name: string): Option<nat> {
    match ParseVideoFileName(name)
    case None => None
    case Some(p) => Some(p.0)
  }

  /** The candidate position a video file name reads back as, if it is
      one. */
  function CandidateTag(name: string): Option<nat> {
    match ParseVideoFileName(name)
    case None => None
    case Some(p) => Some(p.1)
  }

  /** Putting at most one file tagged `idx` and `j` in front of distinct
      files tagged `idx` and later positions keeps them distinct. */
  lemma PrependTagged(a: seq<string>, n: string, b: seq<string>, outer: string -> Option<nat>,
                      inner: string -> Option<nat>, idx: nat, j: nat, hi: nat)
    requires a == [] || a == [n]
    requires outer(n) == Some(idx) && inner(n) == Some(j) && j < hi
    requires Distinct(b) && TaggedIn(b, outer, idx, idx + 1) && TaggedIn(b, inner, j + 1, hi)
    ensures Distinct(a + b) && TaggedIn(a + b, outer, idx, idx + 1) && TaggedIn(a + b, inner, j, hi)
  {
    forall x, y | 0 <= x < |a| && 0 <= y < |b|
      ensures a[x] != b[y]
    {
      assert b[y] in b;
    }
    DistinctAppend(a, b);
  }

  /** When every candidate's file name carries the tag `idx` under `outer`
      and its own position under `inner`, the files written from candidate
      `j` on are distinct and all carry the tag `idx`. (`outer` and `inner`
      are `VideoTag` and `CandidateTag`.) */
  lemma {:induction false} CandidatesNames(dir: string, hadOwnSrc: bool, cur: Video, cs: seq<Candidate>, j: nat, idx: nat,
                                           outer: string -> Option<nat>, inner: string -> Option<nat>)
    requires j <= |cs|
    requires forall k | j <= k < |cs| :: outer(cs[k].name) == Some(idx) && inner(cs[k].name) == Some(k)
    ensures var names := ArticleFileNames(CandidatesFrom(dir, hadOwnSrc, cur, cs, j).1);
            && Distinct(names) && TaggedIn(names, outer, idx, idx + 1) && TaggedIn(names, inner, j, |cs|)
    decreases |cs| - j
  {
    if j < |cs| {
      var first := CandidateStep(dir, hadOwnSrc, cur, cs[j]);
      var rest := CandidatesFrom(dir, hadOwnSrc, first.0, cs, j + 1);
      var a := ArticleFileNames(first.1);
      var b := ArticleFileNames(rest.1);
      assert ArticleFileNames(CandidatesFrom(dir, hadOwnSrc, cur, cs, j).1) == a + b by {
        ArticleFileNamesAppend(first.1, rest.1);
      }
      assert Distinct(b) && TaggedIn(b, outer, idx, idx + 1) && TaggedIn(b, inner, j + 1, |cs|) by {
        CandidatesNames(dir, hadOwnSrc, first.0, cs, j + 1, idx, outer, inner);
      }
      PrependTagged(a, cs[j].name, b, outer, inner, idx, j, |cs|);
    }
  }

  /** When every candidate's file name carries its own position under
      `inner`, each file the loop writes from candidate `j` on carries the
      position of a candidate whose fetch answered 200. */
  lemma {:induction false} CandidatesFileOrigin(dir: string, hadOwnSrc: bool, cur: Video, cs: seq<Candidate>, j: nat,
                                                inner: string -> Option<nat>)
    requires j <= |cs|
    requires forall k | j <= k < |cs| :: inner(cs[k].name) == Some(k)
    ensures forall n | n in ArticleFileNames(CandidatesFrom(dir, hadOwnSrc, cur, cs, j).1) ::
              inner(n).Some? && j <= inner(n).value < |cs| && Succeeded(cs[inner(n).value].reply)
    decreases |cs| - j
  {
    if j < |cs| {
      var first := CandidateStep(dir, hadOwnSrc, cur, cs[j]);
      var rest := CandidatesFrom(dir, hadOwnSrc, first.0, cs, j + 1);
      assert ArticleFileNames(CandidatesFrom(dir, hadOwnSrc, cur, cs, j).1) == ArticleFileNames(first.1) + ArticleFileNames(rest.1) by {
        ArticleFileNamesAppend(first.1, rest.1);
      }
      CandidatesFileOrigin(dir, hadOwnSrc, first.0, cs, j + 1, inner);
    }
  }

  /** Candidate `j` of video `idx`: resolved against the article URL, saved
      as `video_<idx>_<j><ext>` with the extension of the resolved URL
      without its query, `.mp4` when it has none. */
  function CandidateOf(env: Env, pageUrl: string, idx: nat, j: nat, url: string): Candidate {
    var resolved := UrlJoin(env, pageUrl, url);
    Candidate(url, resolved, VideoFileName(idx, j, ExtOr(resolved, DefaultVideoExt)), env.fetch(resolved, VideoTimeout))
  }

  /** The candidates of video `idx`, in the order the loop tries them. */
  function CandidatesOf(env: Env, pageUrl: string, idx: nat, v: Video): (cs: seq<Candidate>)
    ensures |cs| == |Candidates(v)|
    ensures forall j | 0 <= j < |cs| :: cs[j] == CandidateOf(env, pageUrl, idx, j, Candidates(v)[j])
  {
    var urls := Candidates(v);
    seq(|urls|, j requires 0 <= j < |urls| => CandidateOf(env, pageUrl, idx, j, urls[j]))
  }

  /** One pass of the video loop, for the video at position `idx`. Whether
      the video has its own `src` is decided once, before its candidates
      are tried. */
  function MirrorVideo(env: Env, pageUrl: string, dir: string, idx: nat, v: Video): (Video, seq<Effect>) {
    CandidatesFrom(dir, Present(v.src), v, CandidatesOf(env, pageUrl, idx, v), 0)
  }

  /** A video none of whose candidates downloads is left as it was, and no
      file is written for it. */
  lemma VideoWithoutDownload(env: Env, pageUrl: string, dir: string, idx: nat, v: Video)
    requires forall j | 0 <= j < |Candidates(v)| ::
               !Succeeded(env.fetch(UrlJoin(env, pageUrl, Candidates(v)[j]), VideoTimeout))
    ensures MirrorVideo(env, pageUrl, dir, idx, v).0 == v
    ensures ArticleFileNames(MirrorVideo(env, pageUrl, dir, idx, v).1) == []
  {
    var cs := CandidatesOf(env, pageUrl, idx, v);
    forall k | 0 <= k < |cs|
      ensures !Succeeded(cs[k].reply)
    {
      assert cs[k] == CandidateOf(env, pageUrl, idx, k, Candidates(v)[k]);
    }
    CandidatesWithoutSuccess(dir, Present(v.src), v, cs, 0);
  }

  /** A video with its own `src` ends up with that `src` naming the file of
      its last candidate that downloaded: every later download overwrites
      the `src` again, even one that came from a `<source>` child. */
  lemma VideoSrcNamesLastDownload(env: Env, pageUrl: string, dir: string, idx: nat, v: Video, m: nat)
    requires Present(v.src)
    requires m < |Candidates(v)|
    requires Succeeded(env.fetch(UrlJoin(env, pageUrl, Candidates(v)[m]), VideoTimeout))
    requires forall k | m < k < |Candidates(v)| ::
               !Succeeded(env.fetch(UrlJoin(env, pageUrl, Candidates(v)[k]), VideoTimeout))
    ensures MirrorVideo(env, pageUrl, dir, idx, v).0.src ==
              Some(VideoFileName(idx, m, ExtOr(UrlJoin(env, pageUrl, Candidates(v)[m]), DefaultVideoExt)))
  {
    var cs := CandidatesOf(env, pageUrl, idx, v);
    forall k | m < k < |cs|
      ensures !Succeeded(cs[k].reply)
    {
      assert cs[k] == CandidateOf(env, pageUrl, idx, k, Candidates(v)[k]);
    }
    assert cs[m] == CandidateOf(env, pageUrl, idx, m, Candidates(v)[m]);
    CandidatesLastSuccess(dir, v, cs, 0, m);
  }

  /** A video keeps its number of `<source>` children, a video without its
      own `src` keeps its `src`, and a `<source>` without a usable `src` is
      never touched. */
  lemma VideoKeepsShape(env: Env, pageUrl: string, dir: string, idx: nat, v: Video)
    ensures var w := MirrorVideo(env, pageUrl, dir, idx, v).0;
            && |w.sources| == |v.sources|
            && (!Present(v.src) ==> w.src == v.src)
            && (forall k | 0 <= k < |v.sources| && !Present(v.sources[k]) :: w.sources[k] == v.sources[k])
  {
    var cs := CandidatesOf(env, pageUrl, idx, v);
    forall k | 0 <= k < |cs|
      ensures cs[k].url != ""
    {
      assert cs[k] == CandidateOf(env, pageUrl, idx, k, Candidates(v)[k]);
    }
    CandidatesKeepShape(dir, Present(v.src), v, cs, 0);
  }

  /** The files written for video `idx` are distinct and all read back as
      files of video `idx`. */
  lemma MirrorVideoNames(env: Env, pageUrl: string, dir: string, idx: nat, v: Video)
    ensures var names := ArticleFileNames(MirrorVideo(env, pageUrl, dir, idx, v).1);
            Distinct(names) && TaggedIn(names, VideoTag, idx, idx + 1)
  {
    var cs := CandidatesOf(env, pageUrl, idx, v);
    forall k | 0 <= k < |cs|
      ensures VideoTag(cs[k].name) == Some(idx) && CandidateTag(cs[k].name) == Some(k)
    {
      var c := CandidateOf(env, pageUrl, idx, k, Candidates(v)[k]);
      assert cs[k] == c;
      VideoFileNameRoundTrip(idx, k, ExtOr(c.resolved, DefaultVideoExt));
    }
    CandidatesNames(dir, Present(v.src), v, cs, 0, idx, VideoTag, CandidateTag);
  }

  /** The fetch of candidate `j` of a video answers 200. */
  predicate CandidateSucceeds(env: Env, pageUrl: string, v: Video, j: nat)
    requires j < |Candidates(v)|
  {
    Succeeded(env.fetch(UrlJoin(env, pageUrl, Candidates(v)[j]), VideoTimeout))
  }

  /** Every file written for a video is the download of one of its
      candidates whose fetch answered 200, named after that candidate's
      position. */
  lemma MirrorVideoFileOrigin(env: Env, pageUrl: string, dir: string, idx: nat, v: Video)
    ensures forall n | n in ArticleFileNames(MirrorVideo(env, pageUrl, dir, idx, v).1) ::
              CandidateTag(n).Some? && CandidateTag(n).value < |Candidates(v)|
              && CandidateSucceeds(env, pageUrl, v, CandidateTag(n).value)
  {
    var cs := CandidatesOf(env, pageUrl, idx, v);
    forall k | 0 <= k < |cs|
      ensures CandidateTag(cs[k].name) == Some(k)
    {
      var c := CandidateOf(env, pageUrl, idx, k, Candidates(v)[k]);
      assert cs[k] == c;
      VideoFileNameRoundTrip(idx, k, ExtOr(c.resolved, DefaultVideoExt));
    }
    CandidatesFileOrigin(dir, Present(v.src), v, cs, 0, CandidateTag);
    forall k | 0 <= k < |cs|
      ensures Succeeded(cs[k].reply) == CandidateSucceeds(env, pageUrl, v, k)
    {
      assert cs[k] == CandidateOf(env, pageUrl, idx, k, Candidates(v)[k]);
    }
  }

  /** The video step of `save_article` for a fixed article. */
  function VideoStep(env: Env, pageUrl: string, dir: string): (nat, Video) -> (Video, seq<Effect>) {
    (idx: nat, v: Video) => MirrorVideo(env, pageUrl, dir, idx, v)
  }

  /** The video loop of `save_article` over every `video` of the
      document. */
  function MirrorVideos(env: Env, pageUrl: string, dir: string, videos: seq<Video>): (r: (seq<Video>, seq<Effect>))
    ensures |r.0| == |videos|
  {
    ForEach(VideoStep(env, pageUrl, dir), videos)
  }

  /** Each video of the document ends as its own pass leaves it. */
  lemma VideosEach(env: Env, pageUrl: string, dir: string, videos: seq<Video>)
    ensures forall k | 0 <= k < |videos| ::
              MirrorVideos(env, pageUrl, dir, videos).0[k] == MirrorVideo(env, pageUrl, dir, k, videos[k]).0
  {
    var step := VideoStep(env, pageUrl, dir);
    var r := ForEachFrom(step, videos, 0);
    assert MirrorVideos(env, pageUrl, dir, videos) == r;
    forall k | 0 <= k < |videos|
      ensures r.0[k] == MirrorVideo(env, pageUrl, dir, k, videos[k]).0
    {
      assert r.0[k - 0] == step(k, videos[k]).0 by {
        ForEachFromElement(step, videos, 0, k);
      }
    }
  }

  /** No two video candidates write the same file, and every file written
      reads back as a file of a video of the document. */
  lemma VideoFilesDistinct(env: Env, pageUrl: string, dir: string, videos: seq<Video>)
    ensures var names := ArticleFileNames(MirrorVideos(env, pageUrl, dir, videos).1);
            Distinct(names) && TaggedIn(names, VideoTag, 0, |videos|)
  {
    var step := VideoStep(env, pageUrl, dir);
    forall k | 0 <= k < |videos|
      ensures var names := ArticleFileNames(step(k, videos[k]).1);
              Distinct(names) && TaggedIn(names, VideoTag, k, k + 1)
    {
      MirrorVideoNames(env, pageUrl, dir, k, videos[k]);
    }
    ForEachFromDistinct(step, videos, 0, VideoTag);
  }

  /** Every video file written is the download of a candidate, of a video
      of the document, whose fetch answered 200: no file is written for a
      candidate whose fetch fails. */
  lemma VideoFilesFromDownloads(env: Env, pageUrl: string, dir: string, videos: seq<Video>)
    ensures var names := ArticleFileNames(MirrorVideos(env, pageUrl, dir, videos).1);
            forall n | n in names ::
              && VideoTag(n).Some? && VideoTag(n).value < |videos|
              && CandidateTag(n).Some? && CandidateTag(n).value < |Candidates(videos[VideoTag(n).value])|
              && CandidateSucceeds(env, pageUrl, videos[VideoTag(n).value], CandidateTag(n).value)
    ensures var names := ArticleFileNames(MirrorVideos(env, pageUrl, dir, videos).1);
            forall idx, j, n | 0 <= idx < |videos| && 0 <= j < |Candidates(videos[idx])|
                               && !CandidateSucceeds(env, pageUrl, videos[idx], j) && n in names ::
              !(VideoTag(n) == Some(idx) && CandidateTag(n) == Some(j))
  {
    var step := VideoStep(env, pageUrl, dir);
    var names := ArticleFileNames(MirrorVideos(env, pageUrl, dir, videos).1);
    forall k | 0 <= k < |videos|
      ensures TaggedIn(ArticleFileNames(step(k, videos[k]).1), VideoTag, k, k + 1)
    {
      MirrorVideoNames(env, pageUrl, dir, k, videos[k]);
    }
    forall n | n in names
      ensures && VideoTag(n).Some? && VideoTag(n).value < |videos|
              && CandidateTag(n).Some? && CandidateTag(n).value < |Candidates(videos[VideoTag(n).value])|
              && CandidateSucceeds(env, pageUrl, videos[VideoTag(n).value], CandidateTag(n).value)
    {
      ForEachFromTagOrigin(step, videos, 0, VideoTag, n);
      var idx := VideoTag(n).value;
      MirrorVideoFileOrigin(env, pageUrl, dir, idx, videos[idx]);
    }
  }

  // =====================================================================
  // the whole article

  /** The directory every article directory is created in. */
  const SaveDir := "articles"

  /** `os.path.join(SAVE_DIR, f"{link_number}_{safe_title}")`. */
  function ArticleDir(env: Env, article: ArticleRef): string {
    SaveDir + "/" + ArticleDirName(env.isAlnum, article.link, article.title)
  }

  /** The file every article's document is written to. */
  const IndexFile := "index.html"

  /** Image and video file names are told apart by their first letter,
      and neither kind is ever named `index.html`. */
  lemma MediaTagsDisjoint(n: string)
    ensures !(ImageTag(n).Some? && VideoTag(n).Some?)
    ensures ImageTag(IndexFile).None? && VideoTag(IndexFile).None?
  {
    if ImageTag(n).Some? {
      assert n[..4] == "img_" && n[0] == n[..4][0];
    }
    if VideoTag(n).Some? {
      assert n[..6] == "video_" && n[0] == n[..6][0];
    }
    assert IndexFile[..4] != "img_" by { assert IndexFile[1] == 'n'; }
    assert IndexFile[..6] != "video_" by { assert IndexFile[0] == 'i'; }
  }

  /** What archiving one article leaves: its directory, the document as
      written, the set of shared stylesheet basenames, and the effects. */
  datatype Archived = Archived(dir: string, doc: Document, css: set<string>, effects: seq<Effect>)

  /** `save_article` for the article `article`, while the crawl is on the
      listing page `listingUrl` and `lastSaved` is the id of the article
      archived before it. The browser renders the article; its images,
      stylesheets and videos are mirrored in that order; the document is
      written as `index.html`; and a checkpoint records `listingUrl`, this
      article's id and the grown stylesheet set. */
  function SaveArticle(env: Env, listingUrl: string, lastSaved: Option<string>, css: set<string>,
                       article: ArticleRef): (r: Archived)
    ensures r.dir == ArticleDir(env, article)
    ensures r.doc.images == MirrorImages(env, article.link, r.dir, env.render(article.link).images).0
    ensures r.doc.stylesheets == MirrorStylesheets(env, listingUrl, lastSaved, css, env.render(article.link).stylesheets).links
    ensures r.doc.videos == MirrorVideos(env, article.link, r.dir, env.render(article.link).videos).0
    ensures |r.doc.images| == |env.render(article.link).images|
    ensures |r.doc.stylesheets| == |env.render(article.link).stylesheets|
    ensures |r.doc.videos| == |env.render(article.link).videos|
    ensures r.doc.pagination == env.render(article.link).pagination
    ensures |r.effects| >= 2
    ensures r.effects[|r.effects| - 2] == WriteIndex(r.dir, r.doc)
    ensures r.effects[|r.effects| - 1] == SaveProgress(Progress(listingUrl, Some(ArticleId(article.link)), r.css))
  {
    var doc := env.render(article.link);
    var dir := ArticleDir(env, article);
    var images := MirrorImages(env, article.link, dir, doc.images);
    var sheets := MirrorStylesheets(env, listingUrl, lastSaved, css, doc.stylesheets);
    var videos := MirrorVideos(env, article.link, dir, doc.videos);
    var doc' := doc.(images := images.0, stylesheets := sheets.links, videos := videos.0);
    var tail := [WriteIndex(dir, doc'), SaveProgress(Progress(listingUrl, Some(ArticleId(article.link)), sheets.css))];
    Archived(dir, doc', sheets.css, images.1 + sheets.effects + videos.1 + tail)
  }

  /** Every media file an article writes goes into the article's own
      directory, where its document is written too. */
  lemma SaveArticleWritesInDir(env: Env, listingUrl: string, lastSaved: Option<string>, css: set<string>,
                               article: ArticleRef)
    ensures var r := SaveArticle(env, listingUrl, lastSaved, css, article);
            r.dir == ArticleDir(env, article)
            && (forall e | e in r.effects && e.WriteArticleFile? :: e.dir == r.dir)
  {
    var doc := env.render(article.link);
    var dir := ArticleDir(env, article);
    var images := MirrorImages(env, article.link, dir, doc.images);
    var sheets := MirrorStylesheets(env, listingUrl, lastSaved, css, doc.stylesheets);
    var videos := MirrorVideos(env, article.link, dir, doc.videos);
    var doc' := doc.(images := images.0, stylesheets := sheets.links, videos := videos.0);
    var tail := [WriteIndex(dir, doc'), SaveProgress(Progress(listingUrl, Some(ArticleId(article.link)), sheets.css))];
    var r := SaveArticle(env, listingUrl, lastSaved, css, article);
    assert r.dir == dir && r.effects == images.1 + sheets.effects + videos.1 + tail;
    assert FilesIn(r.effects, dir) by {
      MediaLoopsInDir(env, article.link, dir, doc);
      StylesheetsWriteNoArticleFile(env, listingUrl, lastSaved, css, doc.stylesheets, dir);
      ArticleFilesIn(images.1, sheets.effects, videos.1, tail, dir);
    }
  }

  /** The stylesheet loop writes no file into an article directory. */
  lemma StylesheetsWriteNoArticleFile(env: Env, listingUrl: string, lastSaved: Option<string>, css: set<string>,
                                      links: seq<StyleLink>, dir: string)
    ensures FilesIn(MirrorStylesheets(env, listingUrl, lastSaved, css, links).effects, dir)
  {
    StylesheetsSave(env, listingUrl, lastSaved, css, links);
    NoFilesIn(MirrorStylesheets(env, listingUrl, lastSaved, css, links).effects, dir);
  }

  /** An article's four parts writing into `dir` make a whole that does. */
  lemma ArticleFilesIn(a: seq<Effect>, b: seq<Effect>, c: seq<Effect>, tail: seq<Effect>, dir: string)
    requires FilesIn(a, dir) && FilesIn(b, dir) && FilesIn(c, dir) && FilesIn(tail, dir)
    ensures FilesIn(a + b + c + tail, dir)
  {
  }

  /** The media files of one article, assembled: distinct image files,
      no article file from the stylesheets, distinct video files, then the
      document and the checkpoint. */
  lemma ArticleFilesAssemble(a: seq<Effect>, b: seq<Effect>, c: seq<Effect>, tail: seq<Effect>, na: nat, nc: nat)
    requires Distinct(ArticleFileNames(a)) && TaggedIn(ArticleFileNames(a), ImageTag, 0, na)
    requires ArticleFileNames(b) == []
    requires Distinct(ArticleFileNames(c)) && TaggedIn(ArticleFileNames(c), VideoTag, 0, nc)
    requires ArticleFileNames(tail) == []
    ensures Distinct(ArticleFileNames(a + b + c + tail))
    ensures IndexFile !in ArticleFileNames(a + b + c + tail)
  {
    var x := ArticleFileNames(a);
    var z := ArticleFileNames(c);
    assert ArticleFileNames(a + b + c + tail) == x + z by {
      ArticleFileNamesAppend(a, b);
      assert ArticleFileNames(a + b) == x;
      ArticleFileNamesAppend(a + b, c);
      ArticleFileNamesAppend(a + b + c, tail);
    }
    assert Distinct(x + z) by {
      forall i, j | 0 <= i < |x| && 0 <= j < |z|
        ensures x[i] != z[j]
      {
        assert x[i] in x && z[j] in z;
        MediaTagsDisjoint(x[i]);
      }
      DistinctAppend(x, z);
    }
    assert IndexFile !in x + z by {
      MediaTagsDisjoint(IndexFile);
    }
  }

  /** The two effects that close an article write no media file, and the
      checkpoint among them stays within the final set. */
  lemma ArticleTail(dir: string, doc: Document, p: Progress)
    ensures var tail := [WriteIndex(dir, doc), SaveProgress(p)];
            && ArticleFileNames(tail) == [] && StylesheetWrites(tail) == []
            && SavesWithin(tail, p.downloadedCss) && SavesGrowFrom(p.downloadedCss, tail)
  {
    var tail := [WriteIndex(dir, doc), SaveProgress(p)];
    assert tail[1..] == [SaveProgress(p)];
    assert tail[1..][1..] == [];
  }

  /** The image and video loops only fetch and write article files. */
  lemma MediaLoopsOnlyMedia(env: Env, pageUrl: string, dir: string, doc: Document)
    ensures MediaOnly(MirrorImages(env, pageUrl, dir, doc.images).1)
    ensures MediaOnly(MirrorVideos(env, pageUrl, dir, doc.videos).1)
  {
    ForEachFromMediaOnly(ImageStep(env, pageUrl, dir), doc.images, 0);
    var step := VideoStep(env, pageUrl, dir);
    forall k | 0 <= k < |doc.videos|
      ensures MediaOnly(step(k, doc.videos[k]).1)
    {
      var v := doc.videos[k];
      CandidatesMediaOnly(dir, Present(v.src), v, CandidatesOf(env, pageUrl, k, v), 0);
    }
    ForEachFromMediaOnly(step, doc.videos, 0);
  }

  /** ... and write them all into the article directory `dir`. */
  lemma MediaLoopsInDir(env: Env, pageUrl: string, dir: string, doc: Document)
    ensures FilesIn(MirrorImages(env, pageUrl, dir, doc.images).1, dir)
    ensures FilesIn(MirrorVideos(env, pageUrl, dir, doc.videos).1, dir)
  {
    ForEachFromFilesIn(ImageStep(env, pageUrl, dir), doc.images, 0, dir);
    var step := VideoStep(env, pageUrl, dir);
    forall k | 0 <= k < |doc.videos|
      ensures FilesIn(step(k, doc.videos[k]).1, dir)
    {
      var v := doc.videos[k];
      CandidatesMediaOnly(dir, Present(v.src), v, CandidatesOf(env, pageUrl, k, v), 0);
    }
    ForEachFromFilesIn(step, doc.videos, 0, dir);
  }

  /** Archiving an article writes no media file twice, and none of them is
      named `index.html`. */
  lemma SaveArticleFiles(env: Env, listingUrl: string, lastSaved: Option<string>, css: set<string>, article: ArticleRef)
    ensures var names := ArticleFileNames(SaveArticle(env, listingUrl, lastSaved, css, article).effects);
            Distinct(names) && IndexFile !in names
  {
    var doc := env.render(article.link);
    var dir := ArticleDir(env, article);
    var images := MirrorImages(env, article.link, dir, doc.images);
    var sheets := MirrorStylesheets(env, listingUrl, lastSaved, css, doc.stylesheets);
    var videos := MirrorVideos(env, article.link, dir, doc.videos);
    var doc' := doc.(images := images.0, stylesheets := sheets.links, videos := videos.0);
    var p := Progress(listingUrl, Some(ArticleId(article.link)), sheets.css);
    ImageFilesDistinct(env, article.link, dir, doc.images);
    StylesheetsSave(env, listingUrl, lastSaved, css, doc.stylesheets);
    VideoFilesDistinct(env, article.link, dir, doc.videos);
    ArticleTail(dir, doc', p);
    ArticleFilesAssemble(images.1, sheets.effects, videos.1, [WriteIndex(dir, doc'), SaveProgress(p)],
                         |doc.images|, |doc.videos|);
  }

  /** The stylesheets an article writes are those its stylesheet loop
      writes: the media parts and the closing part write none. */
  lemma ArticleWritesAssemble(a: seq<Effect>, b: seq<Effect>, c: seq<Effect>, tail: seq<Effect>)
    requires MediaOnly(a) && MediaOnly(c) && StylesheetWrites(tail) == []
    ensures StylesheetWrites(a + b + c + tail) == StylesheetWrites(b)
  {
    MediaOnlyTrace(a, {}, {});
    MediaOnlyTrace(c, {}, {});
    StylesheetWritesAppend(a, b);
    StylesheetWritesAppend(a + b, c);
    StylesheetWritesAppend(a + b + c, tail);
  }

  /** The checkpoints of an article, put together from its four parts:
      media, stylesheets, media, and the closing index and checkpoint,
      grow from the set the article started from. */
  lemma ArticleSavesAssemble(a: seq<Effect>, b: seq<Effect>, c: seq<Effect>, tail: seq<Effect>,
                             css: set<string>, css': set<string>)
    requires MediaOnly(a) && MediaOnly(c) && css <= css'
    requires SavesGrowFrom(css, b) && SavesWithin(b, css')
    requires SavesGrowFrom(css', tail)
    ensures SavesGrowFrom(css, a + b + c + tail)
  {
    var ct := c + tail;
    var bct := b + ct;
    assert SavesGrowFrom(css', ct) by {
      MediaOnlyTrace(c, css', css');
      SavesGrowAppend(css', c, css', tail);
    }
    assert SavesGrowFrom(css, bct) by {
      SavesGrowAppend(css, b, css', ct);
    }
    assert SavesGrowFrom(css, a + bct) by {
      MediaOnlyTrace(a, css, css);
      SavesGrowAppend(css, a, css, bct);
    }
    assert a + b + c + tail == a + bct;
  }

  /** ... and stay within the set it ends with. */
  lemma ArticleSavesWithin(a: seq<Effect>, b: seq<Effect>, c: seq<Effect>, tail: seq<Effect>, css': set<string>)
    requires MediaOnly(a) && MediaOnly(c)
    requires SavesWithin(b, css') && SavesWithin(tail, css')
    ensures SavesWithin(a + b + c + tail, css')
  {
    MediaOnlyTrace(a, css', css');
    MediaOnlyTrace(c, css', css');
  }

  /** Archiving an article keeps the stylesheet books: the set grows by
      exactly the stylesheets it writes, each written once and none it
      already held, and its checkpoints, read in order, record growing sets
      from the set it started with to the set it ends with. */
  lemma SaveArticleCheckpoints(env: Env, listingUrl: string, lastSaved: Option<string>, css: set<string>, article: ArticleRef)
    ensures var r := SaveArticle(env, listingUrl, lastSaved, css, article);
            CssLedger(css, r.css, r.effects)
  {
    var doc := env.render(article.link);
    var dir := ArticleDir(env, article);
    var images := MirrorImages(env, article.link, dir, doc.images);
    var sheets := MirrorStylesheets(env, listingUrl, lastSaved, css, doc.stylesheets);
    var videos := MirrorVideos(env, article.link, dir, doc.videos);
    var doc' := doc.(images := images.0, stylesheets := sheets.links, videos := videos.0);
    var p := Progress(listingUrl, Some(ArticleId(article.link)), sheets.css);
    MediaLoopsOnlyMedia(env, article.link, dir, doc);
    StylesheetsSave(env, listingUrl, lastSaved, css, doc.stylesheets);
    StylesheetsGrow(env, listingUrl, lastSaved, css, doc.stylesheets);
    ArticleTail(dir, doc', p);
    ArticleWritesAssemble(images.1, sheets.effects, videos.1, [WriteIndex(dir, doc'), SaveProgress(p)]);
    ArticleSavesAssemble(images.1, sheets.effects, videos.1, [WriteIndex(dir, doc'), SaveProgress(p)], css, sheets.css);
    ArticleSavesWithin(images.1, sheets.effects, videos.1, [WriteIndex(dir, doc'), SaveProgress(p)], sheets.css);
  }
}
