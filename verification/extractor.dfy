/** `parse_page`: the admissible articles of one listing page. */
module Extractor {
  import opened Wrappers
  import opened Text
  import opened Dom

  /** The access-restriction markers, Japanese and Korean: "(no permission)". */
  const RestrictedMarkerJa := "(\U{6A29}\U{9650}\U{306A}\U{3057})"
  const RestrictedMarkerKo := "(\U{AD8C}\U{D55C} \U{C5C6}\U{C74C})"

  /** The title cell's text carries one of the access-restriction markers. */
  predicate Restricted(cellText: string) {
    Contains(cellText, RestrictedMarkerJa) || Contains(cellText, RestrictedMarkerKo)
  }

  /** A row becomes an article: it is not a notice, its title cell and the
      cell's `.title` child exist, and the cell text has no restriction
      marker. A missing cell or child is the lookup failure the source
      skips. */
  predicate Admissible(row: Row) {
    && !row.notice
    && row.titleCell.Some?
    && !Restricted(row.titleCell.value.text)
    && row.titleCell.value.title.Some?
  }

  /** The article an admissible row yields: its link and its stripped
      `.title` text. */
  function ArticleOf(row: Row): ArticleRef
    requires Admissible(row)
  {
    ArticleRef(row.href, Strip(row.titleCell.value.title.value))
  }

  /** `parse_page`: the articles of the admissible rows. Every article comes
      from an admissible row and every admissible row yields one. */
  function ParsePage(rows: seq<Row>): (articles: seq<ArticleRef>)
    ensures |articles| <= |rows|
    ensures forall a | a in articles ::
              exists i | 0 <= i < |rows| :: Admissible(rows[i]) && ArticleOf(rows[i]) == a
    ensures forall i | 0 <= i < |rows| && Admissible(rows[i]) :: ArticleOf(rows[i]) in articles
  {
    if |rows| == 0 then []
    else
      var rest := ParsePage(rows[1..]);
      KeepMapCons(rows, rest, Admissible, ArticleOf);
      (if Admissible(rows[0]) then [ArticleOf(rows[0])] else []) + rest
  }

  /** The step of a filter-and-map over a list: if `rest` holds exactly
      the images under `f` of the kept elements after the first, putting the
      first element's image (if kept) in front holds exactly those of all
      elements. */
  lemma KeepMapCons<R, A>(rows: seq<R>, rest: seq<A>, keep: R -> bool, f: R --> A)
    requires |rows| > 0 && |rest| <= |rows| - 1
    requires forall r | keep(r) :: f.requires(r)
    requires forall a | a in rest ::
               exists i | 0 <= i < |rows[1..]| :: keep(rows[1..][i]) && f(rows[1..][i]) == a
    requires forall i | 0 <= i < |rows[1..]| && keep(rows[1..][i]) :: f(rows[1..][i]) in rest
    ensures var out := (if keep(rows[0]) then [f(rows[0])] else []) + rest;
            && |out| <= |rows|
            && (forall a | a in out :: exists i | 0 <= i < |rows| :: keep(rows[i]) && f(rows[i]) == a)
            && (forall i | 0 <= i < |rows| && keep(rows[i]) :: f(rows[i]) in out)
  {
    var out := (if keep(rows[0]) then [f(rows[0])] else []) + rest;
    forall a | a in out
      ensures exists i | 0 <= i < |rows| :: keep(rows[i]) && f(rows[i]) == a
    {
      if a in rest {
        var j :| 0 <= j < |rows[1..]| && keep(rows[1..][j]) && f(rows[1..][j]) == a;
        assert rows[1..][j] == rows[j + 1];
      } else {
        assert keep(rows[0]) && f(rows[0]) == a;
      }
    }
    forall i | 0 <= i < |rows| && keep(rows[i])
      ensures f(rows[i]) in out
    {
      if i > 0 {
        assert rows[1..][i - 1] == rows[i];
      }
    }
  }

  /** Parsing is piecewise: the articles of two runs of rows are the
      articles of the first followed by those of the second, so articles
      keep the order of their rows. */
  lemma {:induction false} ParsePageAppend(a: seq<Row>, b: seq<Row>)
    ensures ParsePage(a + b) == ParsePage(a) + ParsePage(b)
  {
    if |a| == 0 {
      assert a + b == b;
    } else {
      assert (a + b)[0] == a[0];
      assert (a + b)[1..] == a[1..] + b;
      ParsePageAppend(a[1..], b);
    }
  }

  /** A single row yields its article when admissible and nothing
      otherwise. */
  lemma ParsePageSingle(row: Row)
    ensures Admissible(row) ==> ParsePage([row]) == [ArticleOf(row)]
    ensures !Admissible(row) ==> ParsePage([row]) == []
  {
    assert [row][1..] == [];
  }

  /** A row that is skipped (a notice, a failed lookup or a restricted
      title) does not affect the articles of the rows around it. */
  lemma SkippedRowIsLocal(before: seq<Row>, row: Row, after: seq<Row>)
    requires !Admissible(row)
    ensures ParsePage(before + [row] + after) == ParsePage(before) + ParsePage(after)
  {
    ParsePageAppend(before + [row], after);
    ParsePageAppend(before, [row]);
    ParsePageSingle(row);
  }

  /** A title cell whose text contains either marker is excluded; one
      without them is admitted as long as the row is otherwise well
      formed. */
  lemma RestrictionMarkers(row: Row)
    requires !row.notice && row.titleCell.Some? && row.titleCell.value.title.Some?
    ensures Admissible(row) <==>
              !(exists i: nat :: OccursAt(row.titleCell.value.text, RestrictedMarkerJa, i))
              && !(exists i: nat :: OccursAt(row.titleCell.value.text, RestrictedMarkerKo, i))
  {
    ContainsIff(row.titleCell.value.text, RestrictedMarkerJa);
    ContainsIff(row.titleCell.value.text, RestrictedMarkerKo);
  }
}
