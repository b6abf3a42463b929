/** The Python string operations the archiver relies on, as pure functions
    whose contracts characterise them independently of how they recurse. */
module Text {

  // ---------------------------------------------------------------------
  // rstrip / split

  /** `s.rstrip(c)` for a single character `c`: drop every trailing `c`. */
  function RStripChar(s: string, c: char): (r: string)
    ensures r <= s
    ensures r == [] || r[|r| - 1] != c
    ensures forall i | |r| <= i < |s| :: s[i] == c
  {
    if |s| > 0 && s[|s| - 1] == c then RStripChar(s[..|s| - 1], c) else s
  }

  /** The three properties promised by `RStripChar` determine its result. */
  lemma RStripCharUnique(s: string, c: char, t: string)
    requires t <= s
    requires t == [] || t[|t| - 1] != c
    requires forall i | |t| <= i < |s| :: s[i] == c
    ensures t == RStripChar(s, c)
  {
  }

  /** Appending more copies of `c` does not change `s.rstrip(c)`. */
  lemma RStripCharPadding(s: string, c: char, pad: string)
    requires forall i | 0 <= i < |pad| :: pad[i] == c
    ensures RStripChar(s + pad, c) == RStripChar(s, c)
  {
    var r := RStripChar(s, c);
    assert r <= s + pad;
    forall i | |r| <= i < |s + pad|
      ensures (s + pad)[i] == c
    {
      if i >= |s| {
        assert (s + pad)[i] == pad[i - |s|];
      }
    }
    RStripCharUnique(s + pad, c, r);
  }

  /** `s.split(sep)[-1]`: the text after the last `sep`, or all of `s`
      when `sep` does not occur. */
  function LastSegment(s: string, sep: char): (r: string)
    ensures |r| <= |s| && r == s[|s| - |r|..]
    ensures sep !in r
    ensures |r| < |s| ==> s[|s| - |r| - 1] == sep
  {
    if |s| == 0 then s
    else if s[|s| - 1] == sep then []
    else
      var init := s[..|s| - 1];
      var r := LastSegment(init, sep) + [s[|s| - 1]];
      assert init[|init| - (|r| - 1)..] + [s[|s| - 1]] == s[|s| - |r|..];
      r
  }

  /** The properties promised by `LastSegment` determine its result. */
  lemma LastSegmentUnique(s: string, sep: char, t: string)
    requires |t| <= |s| && t == s[|s| - |t|..]
    requires sep !in t
    requires |t| < |s| ==> s[|s| - |t| - 1] == sep
    ensures t == LastSegment(s, sep)
  {
  }

  /** `s.split(sep)[0]`: the text before the first `sep`, or all of `s`
      when `sep` does not occur. */
  function FirstSegment(s: string, sep: char): (r: string)
    ensures r <= s
    ensures sep !in r
    ensures |r| < |s| ==> s[|r|] == sep
  {
    if |s| == 0 then s
    else if s[0] == sep then []
    else [s[0]] + FirstSegment(s[1..], sep)
  }

  /** The properties promised by `FirstSegment` determine its result. */
  lemma FirstSegmentUnique(s: string, sep: char, t: string)
    requires t <= s
    requires sep !in t
    requires |t| < |s| ==> s[|t|] == sep
    ensures t == FirstSegment(s, sep)
  {
  }

  /** `t` is a suffix of `s`. */
  predicate EndsWith(s: string, t: string) {
    |t| <= |s| && t == s[|s| - |t|..]
  }

  /** A suffix lacks every character its string lacks. */
  lemma SuffixLacks(s: string, t: string, c: char)
    requires EndsWith(s, t)
    ensures c !in s ==> c !in t
  {
    if c in t {
      var i :| 0 <= i < |t| && t[i] == c;
      assert s[|s| - |t| + i] == c;
    }
  }

  // ---------------------------------------------------------------------
  // substring search

  /** `sub` occurs in `s` starting at index `i`. */
  predicate OccursAt(s: string, sub: string, i: nat) {
    i + |sub| <= |s| && s[i..i + |sub|] == sub
  }

  /** Python's `sub in s`, searched left to right. */
  function Contains(s: string, sub: string): bool
    decreases |s|
  {
    if sub <= s then true
    else if |s| == 0 then false
    else Contains(s[1..], sub)
  }

  /** An occurrence in `s[1..]` is an occurrence in `s` one place on. */
  lemma OccursShift(s: string, sub: string, i: nat)
    requires |s| > 0
    ensures OccursAt(s[1..], sub, i) <==> OccursAt(s, sub, i + 1)
  {
    if i + 1 + |sub| <= |s| {
      assert s[1..][i..i + |sub|] == s[i + 1..i + 1 + |sub|];
    }
  }

  /** An occurrence at index 0 is a prefix. */
  lemma OccursAtStart(s: string, sub: string)
    ensures OccursAt(s, sub, 0) <==> sub <= s
  {
  }

  /** `Contains` holds exactly when `sub` occurs somewhere in `s`. */
  lemma {:induction false} ContainsIff(s: string, sub: string)
    ensures Contains(s, sub) <==> exists i: nat :: OccursAt(s, sub, i)
    decreases |s|
  {
    OccursAtStart(s, sub);
    if sub <= s {
      assert OccursAt(s, sub, 0);
    } else if |s| == 0 {
    } else {
      assert Contains(s, sub) == Contains(s[1..], sub);
      ContainsIff(s[1..], sub);
      if i: nat :| OccursAt(s[1..], sub, i) {
        OccursShift(s, sub, i);
      }
      if i: nat :| OccursAt(s, sub, i) {
        assert i > 0;
        OccursShift(s, sub, i - 1);
      }
    }
  }

  // ---------------------------------------------------------------------
  // strip()

  /** The characters Python's argument-less `str.strip()` removes. */
  predicate IsSpace(c: char) {
    || c == ' '
    || '\t' <= c <= '\r'
    || '\U{1C}' <= c <= '\U{1F}'
    || c == '\U{85}' || c == '\U{A0}' || c == '\U{1680}'
    || '\U{2000}' <= c <= '\U{200A}'
    || c == '\U{2028}' || c == '\U{2029}' || c == '\U{202F}'
    || c == '\U{205F}' || c == '\U{3000}'
  }

  /** `s.lstrip()`. */
  function LStripSpace(s: string): (r: string)
    ensures |r| <= |s| && r == s[|s| - |r|..]
    ensures r == [] || !IsSpace(r[0])
    ensures forall i | 0 <= i < |s| - |r| :: IsSpace(s[i])
  {
    if |s| > 0 && IsSpace(s[0]) then LStripSpace(s[1..]) else s
  }

  /** `s.rstrip()`. */
  function RStripSpace(s: string): (r: string)
    ensures r <= s
    ensures r == [] || !IsSpace(r[|r| - 1])
    ensures forall i | |r| <= i < |s| :: IsSpace(s[i])
  {
    if |s| > 0 && IsSpace(s[|s| - 1]) then RStripSpace(s[..|s| - 1]) else s
  }

  /** Every character of `s` is whitespace. */
  predicate AllSpace(s: string) {
    forall i | 0 <= i < |s| :: IsSpace(s[i])
  }

  /** `piece` is `s` with a run of whitespace cut from its front and one
      from its back, and nothing else removed. */
  ghost predicate TrimmedFrom(s: string, piece: string) {
    exists i: nat :: OccursAt(s, piece, i) && AllSpace(s[..i]) && AllSpace(s[i + |piece|..])
  }

  /** Stripping both ends cuts whitespace from the front and the back of
      `s` and nothing else. */
  lemma StripTrims(s: string)
    ensures TrimmedFrom(s, LStripSpace(RStripSpace(s)))
  {
    var inner := RStripSpace(s);
    var r := LStripSpace(inner);
    var start := |inner| - |r|;
    assert r == s[start..start + |r|] by {
      assert inner == s[..|inner|];
      assert s[..|inner|][start..] == s[start..|inner|];
    }
    assert AllSpace(s[..start]) by {
      forall i | 0 <= i < start
        ensures IsSpace(s[..start][i])
      {
        assert s[..start][i] == inner[i];
      }
    }
    assert AllSpace(s[start + |r|..]) by {
      assert start + |r| == |inner|;
      forall i | 0 <= i < |s| - |inner|
        ensures IsSpace(s[|inner|..][i])
      {
        assert s[|inner|..][i] == s[|inner| + i];
      }
    }
    assert OccursAt(s, r, start);
  }

  /** Stripping both ends leaves nothing exactly when `s` is all
      whitespace. */
  lemma StripAllSpace(s: string)
    ensures LStripSpace(RStripSpace(s)) == [] <==> AllSpace(s)
  {
    var inner := RStripSpace(s);
    var r := LStripSpace(inner);
    if r == [] {
      assert inner == [];
    } else {
      var start := |inner| - |r|;
      assert s[start] == inner[start] == r[0];
    }
  }

  /** The piece left by stripping both ends neither starts nor ends with
      whitespace. */
  lemma StripEnds(s: string)
    ensures var r := LStripSpace(RStripSpace(s));
            r == [] || (!IsSpace(r[0]) && !IsSpace(r[|r| - 1]))
  {
    var inner := RStripSpace(s);
    var r := LStripSpace(inner);
    if r != [] {
      assert r[|r| - 1] == inner[|inner| - 1];
    }
  }

  /** `s.strip()`: `s` with its leading and trailing whitespace cut off;
      what is left neither starts nor ends with whitespace, and is empty
      exactly when `s` is all whitespace. */
  function Strip(s: string): (r: string)
    ensures TrimmedFrom(s, r)
    ensures r == [] || (!IsSpace(r[0]) && !IsSpace(r[|r| - 1]))
    ensures r == [] <==> AllSpace(s)
  {
    var r := LStripSpace(RStripSpace(s));
    StripTrims(s);
    StripEnds(s);
    StripAllSpace(s);
    r
  }

  /** A piece surrounded only by whitespace, itself empty, leaves `s` all
      whitespace. */
  lemma EmptyPieceAllSpace(s: string, i: nat)
    requires i <= |s| && AllSpace(s[..i]) && AllSpace(s[i..])
    ensures AllSpace(s)
  {
    forall k | 0 <= k < |s|
      ensures IsSpace(s[k])
    {
      if k < i {
        assert s[..i][k] == s[k];
      } else {
        assert s[i..][k - i] == s[k];
      }
    }
  }

  /** Two pieces of `s` preceded only by whitespace and starting with a
      non-whitespace character start at the same place. */
  lemma SameStart(s: string, a: string, i: nat, b: string, j: nat)
    requires OccursAt(s, a, i) && AllSpace(s[..i]) && a != [] && !IsSpace(a[0])
    requires OccursAt(s, b, j) && AllSpace(s[..j]) && b != [] && !IsSpace(b[0])
    ensures i == j
  {
    assert a[0] == s[i] && b[0] == s[j];
  }

  /** Two pieces of `s` followed only by whitespace and ending with a
      non-whitespace character end at the same place. */
  lemma SameEnd(s: string, a: string, i: nat, b: string, j: nat)
    requires OccursAt(s, a, i) && AllSpace(s[i + |a|..]) && a != [] && !IsSpace(a[|a| - 1])
    requires OccursAt(s, b, j) && AllSpace(s[j + |b|..]) && b != [] && !IsSpace(b[|b| - 1])
    ensures i + |a| == j + |b|
  {
    assert a[|a| - 1] == s[i + |a| - 1] && b[|b| - 1] == s[j + |b| - 1];
  }

  /** A piece of `s` with a non-whitespace first character leaves `s`
      not all whitespace. */
  lemma PieceNotAllSpace(s: string, a: string, i: nat)
    requires OccursAt(s, a, i) && a != [] && !IsSpace(a[0])
    ensures !AllSpace(s)
  {
    assert s[i] == a[0];
  }

  /** Two pieces cut from `s` by trimming whitespace at both ends, neither
      starting nor ending with whitespace, are the same. */
  lemma SameTrimmed(s: string, a: string, b: string)
    requires TrimmedFrom(s, a) && TrimmedFrom(s, b)
    requires a == [] || (!IsSpace(a[0]) && !IsSpace(a[|a| - 1]))
    requires b == [] || (!IsSpace(b[0]) && !IsSpace(b[|b| - 1]))
    ensures a == b
  {
    var i: nat :| OccursAt(s, a, i) && AllSpace(s[..i]) && AllSpace(s[i + |a|..]);
    var j: nat :| OccursAt(s, b, j) && AllSpace(s[..j]) && AllSpace(s[j + |b|..]);
    if a == [] {
      EmptyPieceAllSpace(s, i);
      if b != [] {
        PieceNotAllSpace(s, b, j);
      }
    } else if b == [] {
      EmptyPieceAllSpace(s, j);
      PieceNotAllSpace(s, a, i);
    } else {
      SameStart(s, a, i, b, j);
      SameEnd(s, a, i, b, j);
      assert a == s[i..i + |a|] == b;
    }
  }

  /** A piece cut from `s` by trimming whitespace at both ends, and
      neither starting nor ending with whitespace, is `s.strip()`: there is
      only one. */
  lemma StripUnique(s: string, t: string)
    requires TrimmedFrom(s, t)
    requires t == [] || (!IsSpace(t[0]) && !IsSpace(t[|t| - 1]))
    ensures t == Strip(s)
  {
    SameTrimmed(s, t, Strip(s));
  }

  // ---------------------------------------------------------------------
  // decimal numerals

  predicate IsDigit(c: char) {
    '0' <= c <= '9'
  }

  function DigitChar(d: nat): (c: char)
    requires d < 10
    ensures IsDigit(c)
  {
    (48 + d) as char
  }

  /** Python's `str(n)` for a non-negative integer: decimal digits,
      without leading zeros. */
  function Digits(n: nat): (r: string)
    ensures |r| > 0
    ensures forall i | 0 <= i < |r| :: IsDigit(r[i])
    ensures r[0] == '0' ==> n == 0
  {
    if n < 10 then [DigitChar(n)] else Digits(n / 10) + [DigitChar(n % 10)]
  }

  /** The number a string of decimal digits denotes. */
  function DigitsValue(s: string): nat
    requires forall i | 0 <= i < |s| :: IsDigit(s[i])
  {
    if |s| == 0 then 0
    else
      var last := s[|s| - 1];
      assert IsDigit(last);
      10 * DigitsValue(s[..|s| - 1]) + (last as int - '0' as int)
  }

  /** Reading back the numeral `str(n)` gives `n`. */
  lemma {:induction false} DigitsRoundTrip(n: nat)
    ensures DigitsValue(Digits(n)) == n
  {
    if n >= 10 {
      DigitsRoundTrip(n / 10);
      var d := Digits(n / 10);
      assert (d + [DigitChar(n % 10)])[..|d|] == d;
    }
  }

  /** Distinct numbers have distinct numerals. */
  lemma DigitsInjective(a: nat, b: nat)
    requires Digits(a) == Digits(b)
    ensures a == b
  {
    DigitsRoundTrip(a);
    DigitsRoundTrip(b);
  }
}
