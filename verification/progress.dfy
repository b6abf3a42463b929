/** The resumption checkpoint and the observable effects of a crawl.

    A `Progress` is what `save_progress` records; `StoredProgress` is the
    JSON object in the progress file, whose keys may be missing or null;
    `Effect` lists everything the archiver does to the outside world, in
    order: HTTP requests, file writes and checkpoint writes. */
module Progress {
  import opened Wrappers
  import opened Dom
  import opened Web

  /** The checkpoint: the listing URL to resume at, the id of the last
      archived article, and the basenames of the stylesheets already in the
      shared stylesheet directory. */
  datatype Progress = Progress(lastUrl: string, lastLinkNumber: Option<string>, downloadedCss: set<string>)

  datatype Effect =
    | Request(url: string, timeout: nat)
    | WriteArticleFile(dir: string, name: string, body: seq<byte>)
    | WriteStylesheet(name: string, body: seq<byte>)
    | WriteIndex(dir: string, doc: Document)
    | SaveProgress(record: Progress)

  // ---------------------------------------------------------------------
  // effect traces

  /** The article file `e` writes, if any. */
  function ArticleFileOf(e: Effect): seq<string> {
    if e.WriteArticleFile? then [e.name] else []
  }

  /** The names of the files written into article directories, in order. */
  function ArticleFileNames(effects: seq<Effect>): (names: seq<string>)
    ensures |names| <= |effects|
  {
    if |effects| == 0 then []
    else ArticleFileOf(effects[0]) + ArticleFileNames(effects[1..])
  }

  lemma {:induction false} ArticleFileNamesAppend(a: seq<Effect>, b: seq<Effect>)
    ensures ArticleFileNames(a + b) == ArticleFileNames(a) + ArticleFileNames(b)
  {
    if |a| == 0 {
      assert a + b == b;
    } else {
      var head, ta, tb := ArticleFileOf(a[0]), ArticleFileNames(a[1..]), ArticleFileNames(b);
      assert ArticleFileNames(a + b) == head + ArticleFileNames(a[1..] + b) by {
        assert (a + b)[0] == a[0];
        assert (a + b)[1..] == a[1..] + b;
      }
      assert ArticleFileNames(a[1..] + b) == ta + tb by {
        ArticleFileNamesAppend(a[1..], b);
      }
      assert ArticleFileNames(a) == head + ta;
      assert head + (ta + tb) == (head + ta) + tb;
    }
  }

  /** A request alone writes no file. */
  lemma ArticleFileNamesOfRequest(url: string, timeout: nat)
    ensures ArticleFileNames([Request(url, timeout)]) == []
  {
    assert [Request(url, timeout)][1..] == [];
  }

  /** A request followed by the write of its answer names one file. */
  lemma ArticleFileNamesOfDownload(url: string, timeout: nat, dir: string, name: string, body: seq<byte>)
    ensures ArticleFileNames([Request(url, timeout), WriteArticleFile(dir, name, body)]) == [name]
  {
    var effects := [Request(url, timeout), WriteArticleFile(dir, name, body)];
    assert effects[1..] == [WriteArticleFile(dir, name, body)];
    assert effects[1..][1..] == [];
  }

  /** The stylesheet `e` writes, if any. */
  function StylesheetOf(e: Effect): seq<string> {
    if e.WriteStylesheet? then [e.name] else []
  }

  /** The names of the stylesheets written into the shared directory, in
      order. */
  function StylesheetWrites(effects: seq<Effect>): (names: seq<string>)
    ensures |names| <= |effects|
  {
    if |effects| == 0 then []
    else StylesheetOf(effects[0]) + StylesheetWrites(effects[1..])
  }

  lemma {:induction false} StylesheetWritesAppend(a: seq<Effect>, b: seq<Effect>)
    ensures StylesheetWrites(a + b) == StylesheetWrites(a) + StylesheetWrites(b)
  {
    if |a| == 0 {
      assert a + b == b;
    } else {
      var head, ta, tb := StylesheetOf(a[0]), StylesheetWrites(a[1..]), StylesheetWrites(b);
      assert StylesheetWrites(a + b) == head + StylesheetWrites(a[1..] + b) by {
        assert (a + b)[0] == a[0];
        assert (a + b)[1..] == a[1..] + b;
      }
      assert StylesheetWrites(a[1..] + b) == ta + tb by {
        StylesheetWritesAppend(a[1..], b);
      }
      assert StylesheetWrites(a) == head + ta;
      assert head + (ta + tb) == (head + ta) + tb;
    }
  }

  /** A stylesheet fetch that failed: one request, nothing written. */
  lemma StylesheetFailureTrace(url: string, timeout: nat, base: set<string>, lastUrl: string, lastLinkNumber: Option<string>)
    ensures var effects := [Request(url, timeout)];
            && StylesheetWrites(effects) == [] && ArticleFileNames(effects) == []
            && SavesGrowFrom(base, effects)
            && SavesWithin(effects, base) && SavesAt(effects, lastUrl, lastLinkNumber)
  {
    assert [Request(url, timeout)][1..] == [];
  }

  /** A stylesheet download: the request, the write into the shared
      directory, and the checkpoint `p`. */
  lemma StylesheetDownloadTrace(url: string, timeout: nat, name: string, body: seq<byte>, p: Progress, base: set<string>)
    requires base <= p.downloadedCss
    ensures var effects := [Request(url, timeout), WriteStylesheet(name, body), SaveProgress(p)];
            && StylesheetWrites(effects) == [name] && ArticleFileNames(effects) == []
            && SavesGrowFrom(base, effects)
            && SavesWithin(effects, p.downloadedCss) && SavesAt(effects, p.lastUrl, p.lastLinkNumber)
  {
    var last := [SaveProgress(p)];
    assert last[1..] == [];
    assert StylesheetWrites(last) == [] && ArticleFileNames(last) == [] && SavesGrowFrom(p.downloadedCss, last);
    var tail := [WriteStylesheet(name, body)] + last;
    assert tail[1..] == last;
    var effects := [Request(url, timeout)] + tail;
    assert effects[1..] == tail;
  }

  /** `names` never repeats a name. */
  predicate Distinct(names: seq<string>) {
    forall i, j | 0 <= i < j < |names| :: names[i] != names[j]
  }

  lemma DistinctAppend(a: seq<string>, b: seq<string>)
    requires Distinct(a) && Distinct(b)
    requires forall i, j | 0 <= i < |a| && 0 <= j < |b| :: a[i] != b[j]
    ensures Distinct(a + b)
  {
    var ab := a + b;
    forall i, j | 0 <= i < j < |ab|
      ensures ab[i] != ab[j]
    {
      if j < |a| {
        assert ab[i] == a[i] && ab[j] == a[j];
      } else if i >= |a| {
        assert ab[i] == b[i - |a|] && ab[j] == b[j - |a|];
      } else {
        assert ab[i] == a[i] && ab[j] == b[j - |a|];
      }
    }
  }

  /** Reading the checkpoints of `effects` in order, each records a
      stylesheet set that contains `base` and the set of every earlier
      checkpoint. */
  predicate SavesGrowFrom(base: set<string>, effects: seq<Effect>)
    decreases |effects|
  {
    if |effects| == 0 then true
    else if effects[0].SaveProgress? then
      base <= effects[0].record.downloadedCss
      && SavesGrowFrom(effects[0].record.downloadedCss, effects[1..])
    else SavesGrowFrom(base, effects[1..])
  }

  /** Every checkpoint in `effects` records a subset of `top`. */
  predicate SavesWithin(effects: seq<Effect>, top: set<string>) {
    forall e | e in effects && e.SaveProgress? :: e.record.downloadedCss <= top
  }

  /** Every checkpoint in `effects` records the listing URL `lastUrl` and
      the article id `lastLinkNumber`. */
  predicate SavesAt(effects: seq<Effect>, lastUrl: string, lastLinkNumber: Option<string>) {
    forall e | e in effects && e.SaveProgress? ::
      e.record.lastUrl == lastUrl && e.record.lastLinkNumber == lastLinkNumber
  }

  /** `effects` only fetches and writes article files. */
  predicate MediaOnly(effects: seq<Effect>) {
    forall e | e in effects :: e.Request? || e.WriteArticleFile?
  }

  /** Every article file `effects` writes goes into the directory `dir`. */
  predicate FilesIn(effects: seq<Effect>, dir: string) {
    forall e | e in effects && e.WriteArticleFile? :: e.dir == dir
  }

  /** Effects that name no article file write none, so they write none
      outside any directory. */
  lemma {:induction false} NoFilesIn(effects: seq<Effect>, dir: string)
    requires ArticleFileNames(effects) == []
    ensures FilesIn(effects, dir)
    decreases |effects|
  {
    if |effects| > 0 {
      assert ArticleFileOf(effects[0]) == [];
      assert forall e | e in effects[1..] :: e in effects;
      NoFilesIn(effects[1..], dir);
      assert forall e | e in effects :: e == effects[0] || e in effects[1..];
    }
  }

  /** Media effects write no stylesheet and hold no checkpoint. */
  lemma {:induction false} MediaOnlyTrace(effects: seq<Effect>, base: set<string>, top: set<string>)
    requires MediaOnly(effects)
    ensures StylesheetWrites(effects) == []
    ensures SavesGrowFrom(base, effects) && SavesWithin(effects, top)
    decreases |effects|
  {
    if |effects| > 0 {
      assert effects[0] in effects;
      assert forall e | e in effects[1..] :: e in effects;
      MediaOnlyTrace(effects[1..], base, top);
    }
  }

  /** Growth from a larger set implies growth from a smaller one. */
  lemma {:induction false} SavesGrowWeaken(a: set<string>, b: set<string>, effects: seq<Effect>)
    requires a <= b && SavesGrowFrom(b, effects)
    ensures SavesGrowFrom(a, effects)
    decreases |effects|
  {
    if |effects| > 0 && !effects[0].SaveProgress? {
      SavesGrowWeaken(a, b, effects[1..]);
    }
  }

  /** Two growing traces compose when the first stays within the set the
      second starts from. */
  lemma {:induction false} SavesGrowAppend(a: set<string>, e1: seq<Effect>, b: set<string>, e2: seq<Effect>)
    requires SavesGrowFrom(a, e1) && SavesWithin(e1, b) && a <= b
    requires SavesGrowFrom(b, e2)
    ensures SavesGrowFrom(a, e1 + e2)
    decreases |e1|
  {
    if |e1| == 0 {
      assert e1 + e2 == e2;
      SavesGrowWeaken(a, b, e2);
    } else {
      assert (e1 + e2)[0] == e1[0];
      assert (e1 + e2)[1..] == e1[1..] + e2;
      assert SavesWithin(e1[1..], b) by {
        forall e | e in e1[1..] ensures e in e1 { }
      }
      if e1[0].SaveProgress? {
        assert e1[0] in e1;
        SavesGrowAppend(e1[0].record.downloadedCss, e1[1..], b, e2);
      } else {
        SavesGrowAppend(a, e1[1..], b, e2);
      }
    }
  }

  /** The stylesheet bookkeeping of a stretch of effects that took the set
      of downloaded stylesheets from `before` to `after`: the set grew by
      exactly the stylesheets written, each written once and none already
      held, and the checkpoints, in order, record growing sets between
      `before` and `after`. */
  predicate CssLedger(before: set<string>, after: set<string>, effects: seq<Effect>) {
    && after == before + Elements(StylesheetWrites(effects))
    && Distinct(StylesheetWrites(effects))
    && (forall n | n in StylesheetWrites(effects) :: n !in before)
    && SavesGrowFrom(before, effects)
    && SavesWithin(effects, after)
  }

  /** A lone checkpoint of the current set keeps the books. */
  lemma CssLedgerCheckpoint(p: Progress)
    ensures CssLedger(p.downloadedCss, p.downloadedCss, [SaveProgress(p)])
  {
    var e := [SaveProgress(p)];
    assert e[1..] == [];
    assert StylesheetWrites(e) == [];
    assert Elements([]) == {};
  }

  /** Two stretches that keep the books, one after the other, keep them. */
  lemma CssLedgerAppend(c0: set<string>, c1: set<string>, c2: set<string>, e1: seq<Effect>, e2: seq<Effect>)
    requires CssLedger(c0, c1, e1) && CssLedger(c1, c2, e2)
    ensures CssLedger(c0, c2, e1 + e2)
  {
    var w1, w2 := StylesheetWrites(e1), StylesheetWrites(e2);
    StylesheetWritesAppend(e1, e2);
    ElementsAppend(w1, w2);
    forall i, j | 0 <= i < |w1| && 0 <= j < |w2|
      ensures w1[i] != w2[j]
    {
      assert w1[i] in w1 && w2[j] in w2;
    }
    DistinctAppend(w1, w2);
    SavesGrowAppend(c0, e1, c1, e2);
  }

  // ---------------------------------------------------------------------
  // the progress file

  /** A value under one key of the progress file's JSON object: the key is
      absent, holds null, or holds a value. */
  datatype JsonValue<T> = Missing | Null | Value(value: T)

  /** The progress file: `last_url`, `last_link_number` and
      `downloaded_css`, a list of basenames. */
  datatype StoredProgress = StoredProgress(lastUrl: JsonValue<string>, lastLinkNumber: JsonValue<string>,
                                           downloadedCss: JsonValue<seq<string>>)

  /** The elements of a stored list. */
  function Elements(xs: seq<string>): set<string> {
    set x | x in xs
  }

  lemma ElementsAppend(a: seq<string>, b: seq<string>)
    ensures Elements(a + b) == Elements(a) + Elements(b)
  {
  }

  /** `save_progress`: all three keys, with `list(downloaded_css)` in
      `order`, an arbitrary listing of the set. */
  function Serialize(p: Progress, order: seq<string>): (stored: StoredProgress)
    requires Elements(order) == p.downloadedCss
    ensures stored.lastUrl.Value? && stored.downloadedCss.Value?
    ensures p.lastLinkNumber.None? <==> stored.lastLinkNumber.Null?
  {
    StoredProgress(
      Value(p.lastUrl),
      match p.lastLinkNumber
        case None => Null
        case Some(id) => Value(id),
      Value(order))
  }

  /** `load_progress`: the stored object with a missing `downloaded_css`
      filled in as the empty list, or, without a progress file, an object
      holding only `last_link_number: null` and an empty `downloaded_css`.
      A `downloaded_css` that is present but null is kept. */
  function LoadProgress(file: Option<StoredProgress>): (data: StoredProgress)
    ensures !data.downloadedCss.Missing?
    ensures file.None? ==> data == StoredProgress(Missing, Null, Value([]))
    ensures file.Some? ==>
              data.lastUrl == file.value.lastUrl && data.lastLinkNumber == file.value.lastLinkNumber
    ensures file.Some? && !file.value.downloadedCss.Missing? ==> data == file.value
    ensures file.Some? && file.value.downloadedCss.Missing? ==> data.downloadedCss == Value([])
  {
    match file
    case None => StoredProgress(Missing, Null, Value([]))
    case Some(stored) =>
      if stored.downloadedCss.Missing? then stored.(downloadedCss := Value([])) else stored
  }

  /** Why a run cannot resume. `set(None)` raises on a null
      `downloaded_css` before the browser is pointed anywhere; a null
      `last_url` is then passed to the browser, which cannot navigate to
      None. */
  datatype ResumeError = NullStylesheetList | NullListingUrl

  /** The start of `main`: `progress.get("last_url", start_url)`,
      `progress.get("last_link_number", None)` and
      `set(progress.get("downloaded_css", []))` on the loaded object. */
  function Resume(file: Option<StoredProgress>, startUrl: string): (r: Result<Progress, ResumeError>)
    ensures file.None? ==> r == Success(Progress(startUrl, None, {}))
    ensures r.Failure? <==> file.Some? && (file.value.lastUrl.Null? || file.value.downloadedCss.Null?)
    ensures r.Failure? ==>
              (r.error == NullStylesheetList <==> file.value.downloadedCss.Null?)
    ensures r.Success? && file.Some? && file.value.lastUrl.Value? ==> r.value.lastUrl == file.value.lastUrl.value
    ensures r.Success? && file.Some? && file.value.lastUrl.Missing? ==> r.value.lastUrl == startUrl
    ensures r.Success? && file.Some? && file.value.lastLinkNumber.Value? ==>
              r.value.lastLinkNumber == Some(file.value.lastLinkNumber.value)
    ensures r.Success? && file.Some? && !file.value.lastLinkNumber.Value? ==> r.value.lastLinkNumber == None
    ensures r.Success? && file.Some? && file.value.downloadedCss.Value? ==>
              r.value.downloadedCss == Elements(file.value.downloadedCss.value)
    ensures r.Success? && file.Some? && file.value.downloadedCss.Missing? ==> r.value.downloadedCss == {}
  {
    var data := LoadProgress(file);
    var last := if data.lastLinkNumber.Value? then Some(data.lastLinkNumber.value) else None;
    if data.downloadedCss.Null? then Failure(NullStylesheetList)
    else
      var css := Elements(data.downloadedCss.value);
      assert data.downloadedCss.value == [] ==> css == {};
      match data.lastUrl
      case Null => Failure(NullListingUrl)
      case Missing => Success(Progress(startUrl, last, css))
      case Value(url) => Success(Progress(url, last, css))
  }

  /** Resuming from a saved checkpoint restores exactly the saved record,
      whatever order the stylesheet list was written in. */
  lemma ResumeRoundTrip(p: Progress, order: seq<string>, startUrl: string)
    requires Elements(order) == p.downloadedCss
    ensures Resume(Some(Serialize(p, order)), startUrl) == Success(p)
  {
  }
}
