/** Names the archiver derives from URLs and titles: the article id, the
    sanitised directory title, file extensions, stylesheet basenames and the
    positional names of mirrored media files.

    Paths are POSIX paths: `os.path.splitext` and `os.path.basename` are
    modelled as `posixpath` defines them, with '/' as the only separator. */
module Paths {
  import opened Wrappers
  import opened Text

  /** `make_safe_filename` truncates to this many characters. */
  const MaxNameLength: nat := 50

  /** Default extensions when the URL path has none. */
  const DefaultImageExt := ".jpg"
  const DefaultVideoExt := ".mp4"

  // ---------------------------------------------------------------------
  // make_safe_filename

  /** The characters `make_safe_filename` keeps. `isAlnum` stands for
      Python's Unicode-aware `str.isalnum`. */
  predicate KeepChar(isAlnum: char -> bool, c: char) {
    isAlnum(c) || c == ' ' || c == '_' || c == '-'
  }

  /** The filtering generator of `make_safe_filename`, before truncation. */
  function KeptChars(isAlnum: char -> bool, s: string): (r: string)
    ensures |r| <= |s|
    ensures forall i | 0 <= i < |r| :: KeepChar(isAlnum, r[i])
    ensures forall c :: c in r <==> c in s && KeepChar(isAlnum, c)
  {
    if |s| == 0 then []
    else (if KeepChar(isAlnum, s[0]) then [s[0]] else []) + KeptChars(isAlnum, s[1..])
  }

  /** Filtering works piecewise, so kept characters stay in input order. */
  lemma {:induction false} KeptCharsAppend(isAlnum: char -> bool, a: string, b: string)
    ensures KeptChars(isAlnum, a + b) == KeptChars(isAlnum, a) + KeptChars(isAlnum, b)
  {
    if |a| > 0 {
      assert (a + b)[1..] == a[1..] + b;
      KeptCharsAppend(isAlnum, a[1..], b);
    } else {
      assert a + b == b;
    }
  }

  /** A string made only of kept characters passes the filter unchanged. */
  lemma {:induction false} KeptCharsOfKept(isAlnum: char -> bool, s: string)
    requires forall i | 0 <= i < |s| :: KeepChar(isAlnum, s[i])
    ensures KeptChars(isAlnum, s) == s
  {
    if |s| > 0 {
      KeptCharsOfKept(isAlnum, s[1..]);
      assert [s[0]] + s[1..] == s;
    }
  }

  /** `make_safe_filename(s)`: the first 50 kept characters of `s`. */
  function SafeFilename(isAlnum: char -> bool, s: string): (r: string)
    ensures |r| <= MaxNameLength
    ensures forall i | 0 <= i < |r| :: KeepChar(isAlnum, r[i])
    ensures r <= KeptChars(isAlnum, s)
    ensures |r| == MaxNameLength || r == KeptChars(isAlnum, s)
  {
    var kept := KeptChars(isAlnum, s);
    if |kept| <= MaxNameLength then kept else kept[..MaxNameLength]
  }

  /** Sanitising an already sanitised name changes nothing. */
  lemma SafeFilenameIdempotent(isAlnum: char -> bool, s: string)
    ensures SafeFilename(isAlnum, SafeFilename(isAlnum, s)) == SafeFilename(isAlnum, s)
  {
    KeptCharsOfKept(isAlnum, SafeFilename(isAlnum, s));
  }

  // ---------------------------------------------------------------------
  // article id

  /** `link.rstrip("/").split("/")[-1].split("?")[0]`: the last path
      segment of the link, without its query. */
  function ArticleId(link: string): (id: string)
    ensures '/' !in id && '?' !in id
  {
    FirstSegment(LastSegment(RStripChar(link, '/'), '/'), '?')
  }

  /** Stripping the trailing slashes of `<prefix>/<tail>` followed by
      slashes gives back `<prefix>/<tail>`, when `tail` is non-empty and
      holds no slash. */
  lemma StripSlashesOfPath(prefix: string, tail: string, slashes: string)
    requires tail != [] && '/' !in tail
    requires forall i | 0 <= i < |slashes| :: slashes[i] == '/'
    ensures RStripChar(prefix + "/" + tail + slashes, '/') == prefix + "/" + tail
  {
    var trimmed := prefix + "/" + tail;
    assert trimmed[|trimmed| - 1] == tail[|tail| - 1];
    assert tail[|tail| - 1] in tail;
    RStripCharUnique(trimmed, '/', trimmed);
    RStripCharPadding(trimmed, '/', slashes);
  }

  /** The last segment of `<prefix><sep><tail>` is `tail` when `tail` holds
      no separator. */
  lemma LastSegmentOfPath(prefix: string, sep: char, tail: string)
    requires sep !in tail
    ensures LastSegment(prefix + [sep] + tail, sep) == tail
  {
    var path := prefix + [sep] + tail;
    assert path[|path| - |tail|..] == tail;
    assert path[|path| - |tail| - 1] == sep;
    LastSegmentUnique(path, sep, tail);
  }

  /** The first segment of `<head><rest>` is `head` when `head` holds no
      separator and `rest` is empty or starts with one. */
  lemma FirstSegmentOfPrefix(head: string, sep: char, rest: string)
    requires sep !in head
    requires rest == [] || rest[0] == sep
    ensures FirstSegment(head + rest, sep) == head
  {
    var s := head + rest;
    assert s[..|head|] == head;
    if |rest| > 0 {
      assert s[|head|] == rest[0];
    }
    FirstSegmentUnique(s, sep, head);
  }

  /** The id of `<prefix>/<id><query>` followed by any number of slashes is
      `id`, when the id is non-empty and the query, if any, starts with
      '?' and holds no '/'. */
  lemma ArticleIdOfLink(prefix: string, id: string, query: string, slashes: string)
    requires id != [] && '/' !in id && '?' !in id
    requires (query == [] || query[0] == '?') && '/' !in query
    requires forall i | 0 <= i < |slashes| :: slashes[i] == '/'
    ensures ArticleId(prefix + "/" + id + query + slashes) == id
  {
    var tail := id + query;
    assert prefix + "/" + id + query + slashes == prefix + "/" + tail + slashes;
    StripSlashesOfPath(prefix, tail, slashes);
    LastSegmentOfPath(prefix, '/', tail);
    FirstSegmentOfPrefix(id, '?', query);
  }

  /** Trailing slashes on the link do not change the article id. */
  lemma ArticleIdIgnoresTrailingSlashes(link: string, slashes: string)
    requires forall i | 0 <= i < |slashes| :: slashes[i] == '/'
    ensures ArticleId(link + slashes) == ArticleId(link)
  {
    RStripCharPadding(link, '/', slashes);
  }

  /** The article directory `<id>_<safe title>` under the save directory:
      the id, an underscore, then the safe title. When '/' is not
      alphanumeric the name is a single path component. */
  function ArticleDirName(isAlnum: char -> bool, link: string, title: string): (name: string)
    ensures var id := ArticleId(link);
            && |name| == |id| + 1 + |SafeFilename(isAlnum, title)|
            && name[..|id|] == id && name[|id|] == '_'
            && name[|id| + 1..] == SafeFilename(isAlnum, title)
    ensures !isAlnum('/') ==> '/' !in name
  {
    var id, safe := ArticleId(link), SafeFilename(isAlnum, title);
    SafeFilenameNoSlash(isAlnum, title);
    JoinedParts(id, safe);
    id + "_" + safe
  }

  /** A safe name holds no '/' unless '/' counts as alphanumeric. */
  lemma SafeFilenameNoSlash(isAlnum: char -> bool, title: string)
    ensures !isAlnum('/') ==> '/' !in SafeFilename(isAlnum, title)
  {
  }

  /** `<a>_<b>` splits back into `a`, the underscore and `b`. */
  lemma JoinedParts(a: string, b: string)
    ensures var s := a + "_" + b;
            |s| == |a| + 1 + |b| && s[..|a|] == a && s[|a|] == '_' && s[|a| + 1..] == b
            && ('/' in s <==> '/' in a || '/' in b)
  {
    var s := a + "_" + b;
    assert s[..|a|] == a;
    assert s[|a| + 1..] == b;
  }

  /** The article id reads back from the directory name as the part before
      its first underscore, when the id holds none. */
  lemma ArticleDirNameId(isAlnum: char -> bool, link: string, title: string)
    requires '_' !in ArticleId(link)
    ensures FirstSegment(ArticleDirName(isAlnum, link, title), '_') == ArticleId(link)
  {
    JoinedFirstSegment(ArticleId(link), SafeFilename(isAlnum, title));
  }

  /** The part of `<a>_<b>` before its first underscore is `a`, when `a`
      holds none. */
  lemma JoinedFirstSegment(a: string, b: string)
    requires '_' !in a
    ensures FirstSegment(a + "_" + b, '_') == a
  {
    assert a + "_" + b == a + ("_" + b);
    FirstSegmentOfPrefix(a, '_', "_" + b);
  }

  // ---------------------------------------------------------------------
  // extensions and basenames

  /** A file extension as `splitext` reports a non-empty one. */
  predicate IsExtension(e: string) {
    |e| > 0 && e[0] == '.'
  }

  /** Every character of `s` is a dot. */
  predicate OnlyDots(s: string) {
    forall i | 0 <= i < |s| :: s[i] == '.'
  }

  /** No dot of `base` has a character other than '.' before it, so
      `splitext` finds no extension in it. */
  predicate NoExtension(base: string) {
    forall k, d | 0 <= k < d < |base| && base[d] == '.' :: base[k] == '.'
  }

  /** When `dot` is the last dot of `base`, `base` has no extension exactly
      when only dots come before that dot. */
  lemma LastDotDecides(base: string, dot: nat)
    requires dot < |base| && base[dot] == '.' && '.' !in base[dot + 1..]
    ensures NoExtension(base) <==> OnlyDots(base[..dot])
  {
    if OnlyDots(base[..dot]) {
      forall k, d | 0 <= k < d < |base| && base[d] == '.'
        ensures base[k] == '.'
      {
        assert base[..dot][k] == base[k];
      }
    } else {
      var k :| 0 <= k < dot && base[..dot][k] != '.';
      assert base[k] != '.';
    }
  }

  /** A suffix of a suffix of `s` is a suffix of `s`. */
  lemma SuffixOfSuffix(s: string, mid: string, t: string)
    requires EndsWith(s, mid) && EndsWith(mid, t)
    ensures EndsWith(s, t)
  {
  }

  /** The extension `splitext` reports for a path component `base`. */
  function ComponentExt(base: string): (ext: string)
    ensures ext == [] || IsExtension(ext)
    ensures EndsWith(base, ext)
    ensures |ext| > 0 ==> '.' !in ext[1..]
    ensures ext == [] <==> NoExtension(base)
  {
    var tail := LastSegment(base, '.');
    if |tail| == |base| then
      assert tail == base;
      []
    else
      var dot := |base| - |tail| - 1;
      assert base[dot + 1..] == tail;
      LastDotDecides(base, dot);
      if OnlyDots(base[..dot]) then []
      else base[dot..]
  }

  /** `os.path.splitext(p)[1]` on POSIX: from the last '.' of the last
      path component, provided a character other than '.' comes before that
      dot in the component; otherwise empty. */
  function SplitExt(p: string): (ext: string)
    ensures ext == [] || IsExtension(ext)
    ensures EndsWith(p, ext)
    ensures '/' !in ext
    ensures |ext| > 0 ==> '.' !in ext[1..]
    ensures ext == [] <==> NoExtension(LastSegment(p, '/'))
  {
    var base := LastSegment(p, '/');
    var ext := ComponentExt(base);
    SuffixOfSuffix(p, base, ext);
    SuffixLacks(base, ext, '/');
    ext
  }

  /** `ComponentExt` finds the extension whenever the component has a dot
      with a non-dot character before it: the text from its last dot. */
  lemma ComponentExtFindsExtension(base: string, dot: nat, k: nat)
    requires dot < |base| && base[dot] == '.'
    requires '.' !in base[dot + 1..]
    requires k < dot && base[k] != '.'
    ensures ComponentExt(base) == base[dot..]
  {
    var tail := base[dot + 1..];
    assert LastSegment(base, '.') == tail by {
      assert |base| - |tail| == dot + 1;
      LastSegmentUnique(base, '.', tail);
    }
    assert !OnlyDots(base[..dot]) by {
      assert base[..dot][k] != '.';
    }
  }

  /** The same for a whole path: `SplitExt` reports the text from the last
      dot of the last component when a non-dot character precedes it. */
  lemma SplitExtFindsExtension(p: string, dot: nat, k: nat)
    requires dot < |LastSegment(p, '/')|
    requires LastSegment(p, '/')[dot] == '.'
    requires '.' !in LastSegment(p, '/')[dot + 1..]
    requires k < dot && LastSegment(p, '/')[k] != '.'
    ensures SplitExt(p) == LastSegment(p, '/')[dot..]
  {
    ComponentExtFindsExtension(LastSegment(p, '/'), dot, k);
  }

  /** `os.path.splitext(url.split("?")[0])[1] or default`. */
  function ExtOr(url: string, default: string): (ext: string)
    ensures IsExtension(default) ==> IsExtension(ext)
    ensures '?' !in default ==> '?' !in ext
    ensures SplitExt(FirstSegment(url, '?')) != [] ==> ext == SplitExt(FirstSegment(url, '?'))
    ensures SplitExt(FirstSegment(url, '?')) == [] ==> ext == default
  {
    var e := SplitExt(FirstSegment(url, '?'));
    SuffixLacks(FirstSegment(url, '?'), e, '?');
    if e == [] then default else e
  }

  /** `os.path.basename(url.split("?")[0])`: the stylesheet's shared name,
      a single path component with no query. */
  function StylesheetName(url: string): (name: string)
    ensures '/' !in name && '?' !in name
  {
    LastSegment(FirstSegment(url, '?'), '/')
  }

  /** The shared name of `<dir>/<name>` followed by a query (or nothing)
      is `name`, whatever the directory and the query. */
  lemma StylesheetNameOfUrl(dir: string, name: string, query: string)
    requires '/' !in name && '?' !in name && '?' !in dir
    requires query == [] || query[0] == '?'
    ensures StylesheetName(dir + "/" + name + query) == name
  {
    var path := dir + "/" + name;
    assert '?' !in path;
    FirstSegmentOfPrefix(path, '?', query);
    LastSegmentOfPath(dir, '/', name);
  }

  /** `s` with every backslash replaced by '/', as `str.replace("\\", "/")`
      does. */
  function Slashed(s: string): (r: string)
    ensures |r| == |s|
  {
    seq(|s|, i requires 0 <= i < |s| => if s[i] == '\\' then '/' else s[i])
  }

  /** `os.path.join("..", "css", name).replace("\\", "/")`: the shared
      stylesheet reference written into an article's HTML. The replacement
      reaches into the name, whose backslashes become '/'. */
  function SharedStylesheetHref(name: string): string {
    "../css/" + Slashed(name)
  }

  /** A name without backslashes is referenced as it is. */
  lemma SharedStylesheetHrefPlain(name: string)
    requires '\\' !in name
    ensures SharedStylesheetHref(name) == "../css/" + name
  {
    var t := Slashed(name);
    assert t == name by {
      forall i | 0 <= i < |name|
        ensures t[i] == name[i]
      {
        assert name[i] != '\\';
      }
    }
  }

  /** The example of a backslash in a stylesheet's basename: `a\b.css` is
      referenced as `../css/a/b.css`. */
  lemma SharedStylesheetHrefBackslash()
    ensures SharedStylesheetHref("a\\b.css") == "../css/" + "a/b.css"
  {
    var name, plain := "a\\b.css", "a/b.css";
    var t := Slashed(name);
    assert t == plain by {
      forall i | 0 <= i < |name|
        ensures t[i] == plain[i]
      {
        assert name[i] == (if i == 1 then '\\' else plain[i]);
      }
    }
  }

  // ---------------------------------------------------------------------
  // positional media file names and their inverses

  function ImageFileName(idx: nat, ext: string): string {
    "img_" + Digits(idx) + ext
  }

  function VideoFileName(idx: nat, sub: nat, ext: string): string {
    "video_" + Digits(idx) + "_" + Digits(sub) + ext
  }

  /** The run of decimal digits that starts `s`. */
  function LeadingDigits(s: string): (r: string)
    ensures r <= s
    ensures forall i | 0 <= i < |r| :: IsDigit(r[i])
    ensures |r| < |s| ==> !IsDigit(s[|r|])
  {
    if |s| > 0 && IsDigit(s[0]) then [s[0]] + LeadingDigits(s[1..]) else []
  }

  /** The properties promised by `LeadingDigits` determine its result. */
  lemma {:induction false} LeadingDigitsUnique(s: string, t: string)
    requires t <= s
    requires forall i | 0 <= i < |t| :: IsDigit(t[i])
    requires |t| < |s| ==> !IsDigit(s[|t|])
    ensures LeadingDigits(s) == t
  {
    if |t| > 0 {
      assert s[0] == t[0];
      LeadingDigitsUnique(s[1..], t[1..]);
      assert [t[0]] + t[1..] == t;
    }
  }

  /** A numeral followed by text that does not start with a digit splits
      back into the two. */
  lemma LeadingDigitsOfNumeral(n: nat, rest: string)
    requires rest == [] || !IsDigit(rest[0])
    ensures LeadingDigits(Digits(n) + rest) == Digits(n)
  {
    var d := Digits(n);
    if |rest| > 0 {
      assert (d + rest)[|d|] == rest[0];
    }
    LeadingDigitsUnique(d + rest, d);
  }

  /** Reads a leading numeral off `s`: its value and the text after it. */
  function ParseNumeral(s: string): Option<(nat, string)> {
    var digits := LeadingDigits(s);
    if |digits| == 0 then None else Some((DigitsValue(digits), s[|digits|..]))
  }

  /** `ParseNumeral` undoes `Digits` when the text after the numeral does
      not start with a digit. */
  lemma ParseNumeralOfDigits(n: nat, rest: string)
    requires rest == [] || !IsDigit(rest[0])
    ensures ParseNumeral(Digits(n) + rest) == Some((n, rest))
  {
    LeadingDigitsOfNumeral(n, rest);
    DigitsRoundTrip(n);
    assert (Digits(n) + rest)[|Digits(n)|..] == rest;
  }

  /** Reads `img_<idx><ext>` back into its index and extension. */
  function ParseImageFileName(name: string): Option<(nat, string)> {
    if |name| >= 4 && name[..4] == "img_" then ParseNumeral(name[4..]) else None
  }

  /** Reads `video_<idx>_<sub><ext>` back into its indices and extension. */
  function ParseVideoFileName(name: string): Option<(nat, nat, string)> {
    if |name| >= 6 && name[..6] == "video_" then
      match ParseNumeral(name[6..])
      case None => None
      case Some((idx, rest)) =>
        if |rest| > 0 && rest[0] == '_' then
          match ParseNumeral(rest[1..])
          case None => None
          case Some((sub, ext)) => Some((idx, sub, ext))
        else None
    else None
  }

  /** An image file name determines the image's position and extension. */
  lemma ImageFileNameRoundTrip(idx: nat, ext: string)
    requires ext == [] || IsExtension(ext)
    ensures ParseImageFileName(ImageFileName(idx, ext)) == Some((idx, ext))
  {
    var name := ImageFileName(idx, ext);
    assert name[..4] == "img_" && name[4..] == Digits(idx) + ext;
    ParseNumeralOfDigits(idx, ext);
  }

  /** The part of a video file name after `video_<idx>`. */
  lemma VideoFileNameHead(idx: nat, sub: nat, ext: string)
    ensures var name := VideoFileName(idx, sub, ext);
            |name| >= 6 && name[..6] == "video_"
            && ParseNumeral(name[6..]) == Some((idx, "_" + (Digits(sub) + ext)))
  {
    var rest := "_" + (Digits(sub) + ext);
    var name := VideoFileName(idx, sub, ext);
    assert name == "video_" + (Digits(idx) + rest);
    assert name[6..] == Digits(idx) + rest;
    ParseNumeralOfDigits(idx, rest);
  }

  /** The part of a video file name after `video_<idx>_`. */
  lemma VideoFileNameTail(sub: nat, ext: string)
    requires ext == [] || IsExtension(ext)
    ensures var rest := "_" + (Digits(sub) + ext);
            |rest| > 0 && rest[0] == '_' && ParseNumeral(rest[1..]) == Some((sub, ext))
  {
    var rest := "_" + (Digits(sub) + ext);
    assert rest[1..] == Digits(sub) + ext;
    ParseNumeralOfDigits(sub, ext);
  }

  /** A video file name determines the video, the candidate and the
      extension. */
  lemma VideoFileNameRoundTrip(idx: nat, sub: nat, ext: string)
    requires ext == [] || IsExtension(ext)
    ensures ParseVideoFileName(VideoFileName(idx, sub, ext)) == Some((idx, sub, ext))
  {
    VideoFileNameHead(idx, sub, ext);
    VideoFileNameTail(sub, ext);
  }

  /** Two images at different positions never share a file name. */
  lemma ImageFileNameInjective(i: nat, e: string, j: nat, f: string)
    requires IsExtension(e) && IsExtension(f)
    requires ImageFileName(i, e) == ImageFileName(j, f)
    ensures i == j && e == f
  {
    ImageFileNameRoundTrip(i, e);
    ImageFileNameRoundTrip(j, f);
  }

  /** Two video candidates at different (video, candidate) positions never
      share a file name. */
  lemma VideoFileNameInjective(i: nat, s: nat, e: string, j: nat, t: nat, f: string)
    requires IsExtension(e) && IsExtension(f)
    requires VideoFileName(i, s, e) == VideoFileName(j, t, f)
    ensures i == j && s == t && e == f
  {
    VideoFileNameRoundTrip(i, s, e);
    VideoFileNameRoundTrip(j, t, f);
  }

  /** An image file and a video file never share a name. */
  lemma ImageAndVideoNamesDiffer(i: nat, e: string, j: nat, t: nat, f: string)
    ensures ImageFileName(i, e) != VideoFileName(j, t, f)
  {
    assert ImageFileName(i, e)[0] == 'i';
    assert VideoFileName(j, t, f)[0] == 'v';
  }
}
