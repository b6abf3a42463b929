/** The loops of `save_article` share one shape: each element of a list is
    handled on its own, with its position, yielding the element to put back
    into the document and the effects of handling it. `ForEach` is that
    shape over an arbitrary step; its lemmas relate the whole loop to the
    single steps, so the properties of one step carry over to the loop. */
module Traces {
  import opened Wrappers
  import opened Progress

  /** Running `step` over `xs` from position `i` on: the elements it
      returns, in order, and the effects of every step, in order. */
  function ForEachFrom<T>(step: (nat, T) -> (T, seq<Effect>), xs: seq<T>, i: nat): (r: (seq<T>, seq<Effect>))
    requires i <= |xs|
    ensures |r.0| == |xs| - i
    decreases |xs| - i
  {
    if i == |xs| then ([], [])
    else
      var first := step(i, xs[i]);
      var rest := ForEachFrom(step, xs, i + 1);
      ([first.0] + rest.0, first.1 + rest.1)
  }

  /** Running `step` over all of `xs`. */
  function ForEach<T>(step: (nat, T) -> (T, seq<Effect>), xs: seq<T>): (r: (seq<T>, seq<Effect>))
    ensures |r.0| == |xs|
  {
    ForEachFrom(step, xs, 0)
  }

  /** The element at position `k` is replaced by what its own step
      returns. */
  lemma {:induction false} ForEachFromElement<T>(step: (nat, T) -> (T, seq<Effect>), xs: seq<T>, i: nat, k: nat)
    requires i <= k < |xs|
    ensures ForEachFrom(step, xs, i).0[k - i] == step(k, xs[k]).0
    decreases |xs| - i
  {
    if i < k {
      ForEachFromElement(step, xs, i + 1, k);
      assert ForEachFrom(step, xs, i).0[1..] == ForEachFrom(step, xs, i + 1).0;
    }
  }

  /** Every file the step at position `k` writes is written by the loop. */
  lemma {:induction false} ForEachFromKeepsFiles<T>(step: (nat, T) -> (T, seq<Effect>), xs: seq<T>, i: nat, k: nat)
    requires i <= k < |xs|
    ensures forall n | n in ArticleFileNames(step(k, xs[k]).1) :: n in ArticleFileNames(ForEachFrom(step, xs, i).1)
    decreases |xs| - i
  {
    ArticleFileNamesAppend(step(i, xs[i]).1, ForEachFrom(step, xs, i + 1).1);
    if i < k {
      ForEachFromKeepsFiles(step, xs, i + 1, k);
    }
  }

  /** Every name in `names` carries a tag in `[lo, hi)`. */
  predicate TaggedIn(names: seq<string>, tag: string -> Option<nat>, lo: nat, hi: nat) {
    forall n | n in names :: tag(n).Some? && lo <= tag(n).value < hi
  }

  /** When every step writes distinct files tagged with its own position,
      the whole loop writes distinct files, tagged with positions of `xs`. */
  lemma {:induction false} ForEachFromDistinct<T>(step: (nat, T) -> (T, seq<Effect>), xs: seq<T>, i: nat,
                                                  tag: string -> Option<nat>)
    requires i <= |xs|
    requires forall k | i <= k < |xs| ::
               Distinct(ArticleFileNames(step(k, xs[k]).1)) && TaggedIn(ArticleFileNames(step(k, xs[k]).1), tag, k, k + 1)
    ensures TaggedIn(ArticleFileNames(ForEachFrom(step, xs, i).1), tag, i, |xs|)
    ensures Distinct(ArticleFileNames(ForEachFrom(step, xs, i).1))
    decreases |xs| - i
  {
    if i < |xs| {
      var a := ArticleFileNames(step(i, xs[i]).1);
      var b := ArticleFileNames(ForEachFrom(step, xs, i + 1).1);
      ForEachFromDistinct(step, xs, i + 1, tag);
      ArticleFileNamesAppend(step(i, xs[i]).1, ForEachFrom(step, xs, i + 1).1);
      forall x, y | 0 <= x < |a| && 0 <= y < |b|
        ensures a[x] != b[y]
      {
        assert a[x] in a && b[y] in b;
      }
      DistinctAppend(a, b);
    }
  }

  /** When every step tags its files with its own position, a file of the
      loop tagged `k` was written by the step at position `k`. */
  lemma {:induction false} ForEachFromTagOrigin<T>(step: (nat, T) -> (T, seq<Effect>), xs: seq<T>, i: nat,
                                                   tag: string -> Option<nat>, n: string)
    requires i <= |xs|
    requires forall k | i <= k < |xs| :: TaggedIn(ArticleFileNames(step(k, xs[k]).1), tag, k, k + 1)
    requires n in ArticleFileNames(ForEachFrom(step, xs, i).1)
    ensures tag(n).Some? && i <= tag(n).value < |xs|
    ensures n in ArticleFileNames(step(tag(n).value, xs[tag(n).value]).1)
    decreases |xs| - i
  {
    ArticleFileNamesAppend(step(i, xs[i]).1, ForEachFrom(step, xs, i + 1).1);
    if n !in ArticleFileNames(step(i, xs[i]).1) {
      ForEachFromTagOrigin(step, xs, i + 1, tag, n);
    }
  }

  /** When every step only fetches and writes article files, so does the
      loop. */
  lemma {:induction false} ForEachFromMediaOnly<T>(step: (nat, T) -> (T, seq<Effect>), xs: seq<T>, i: nat)
    requires i <= |xs|
    requires forall k | i <= k < |xs| :: MediaOnly(step(k, xs[k]).1)
    ensures MediaOnly(ForEachFrom(step, xs, i).1)
    decreases |xs| - i
  {
    if i < |xs| {
      ForEachFromMediaOnly(step, xs, i + 1);
    }
  }

  /** When every step writes its article files into `dir`, so does the
      loop. */
  lemma {:induction false} ForEachFromFilesIn<T>(step: (nat, T) -> (T, seq<Effect>), xs: seq<T>, i: nat, dir: string)
    requires i <= |xs|
    requires forall k | i <= k < |xs| :: FilesIn(step(k, xs[k]).1, dir)
    ensures FilesIn(ForEachFrom(step, xs, i).1, dir)
    decreases |xs| - i
  {
    if i < |xs| {
      ForEachFromFilesIn(step, xs, i + 1, dir);
    }
  }
}
