/**
 * The exploded skills table: one row per (job posting, extracted skill) pair,
 * and the row selection that every step of the dashboard is built from.
 */
module Table {
  import opened Wrappers

  /** The selector value that stands for "no filter on this column". */
  const All: string := "All"

  /**
   * One row of the table: columns `extracted_skills`, `location` and
   * `companyName`. Any cell may be missing.
   */
  datatype Row = Row(skill: Option<string>, location: Option<string>, company: Option<string>)

  /** The two columns the dashboard filters on. */
  datatype Column = Location | Company

  function Cell(r: Row, col: Column): Option<string> {
    match col
    case Location => r.location
    case Company => r.company
  }

  /** One column of the table, top to bottom, missing cells included. */
  function ColumnOf(rows: seq<Row>, col: Column): seq<Option<string>> {
    seq(|rows|, i requires 0 <= i < |rows| => Cell(rows[i], col))
  }

  predicate HasSkill(r: Row) {
    r.skill.Some?
  }

  /** The boolean mask `column == value`: a missing cell never equals a value. */
  function ColumnIs(col: Column, value: string): Row -> bool {
    r => Cell(r, col) == Some(value)
  }

  /**
   * Boolean-mask selection `df[mask]`: the rows that satisfy `keep`, in
   * table order. Defined from the last row so that it follows a scan.
   */
  function Where(rows: seq<Row>, keep: Row -> bool): (w: seq<Row>)
    ensures |w| <= |rows|
    ensures forall i :: 0 <= i < |w| ==> keep(w[i])
    decreases |rows|
  {
    if rows == [] then []
    else
      var last := rows[|rows| - 1];
      Where(rows[..|rows| - 1], keep) + (if keep(last) then [last] else [])
  }

  /** `a` is `b` with some elements deleted: an order-preserving subsequence. */
  predicate IsSubsequence<T(==)>(a: seq<T>, b: seq<T>)
    decreases |b|
  {
    if a == [] then true
    else if b == [] then false
    else
      (a[|a| - 1] == b[|b| - 1] && IsSubsequence(a[..|a| - 1], b[..|b| - 1]))
      || IsSubsequence(a, b[..|b| - 1])
  }

  /** Scanning one more row extends the selection by that row or by nothing. */
  lemma WhereSnoc(rows: seq<Row>, keep: Row -> bool, i: nat)
    requires i < |rows|
    ensures Where(rows[..i + 1], keep) == Where(rows[..i], keep) + (if keep(rows[i]) then [rows[i]] else [])
  {
    assert rows[..i + 1][..i] == rows[..i];
  }

  /** A row is selected exactly when it is in the table and satisfies the mask. */
  lemma {:induction false} WhereMembership(rows: seq<Row>, keep: Row -> bool)
    ensures forall r :: r in Where(rows, keep) <==> r in rows && keep(r)
    decreases |rows|
  {
    if rows != [] {
      var init := rows[..|rows| - 1];
      WhereMembership(init, keep);
      assert rows == init + [rows[|rows| - 1]];
    }
  }

  /**
   * A selected row occurs exactly as often as in the table, and a row that
   * fails the mask not at all: the mask never merges duplicate rows.
   */
  lemma {:induction false} WhereMultiset(rows: seq<Row>, keep: Row -> bool)
    ensures forall x :: multiset(Where(rows, keep))[x] == if keep(x) then multiset(rows)[x] else 0
    decreases |rows|
  {
    if rows != [] {
      var init := rows[..|rows| - 1];
      WhereMultiset(init, keep);
      assert rows == init + [rows[|rows| - 1]];
    }
  }

  /** The selection keeps the table's order: it is a subsequence of the table. */
  lemma {:induction false} WhereIsSubsequence(rows: seq<Row>, keep: Row -> bool)
    ensures IsSubsequence(Where(rows, keep), rows)
    decreases |rows|
  {
    if rows != [] {
      var init := rows[..|rows| - 1];
      var last := rows[|rows| - 1];
      var w := Where(init, keep);
      WhereIsSubsequence(init, keep);
      if keep(last) {
        assert (w + [last])[..|w|] == w;
      } else {
        assert Where(rows, keep) == w;
        SubsequenceExtend(w, init, last);
        assert init + [last] == rows;
      }
    }
  }

  lemma SubsequenceExtend<T>(a: seq<T>, b: seq<T>, x: T)
    requires IsSubsequence(a, b)
    ensures IsSubsequence(a, b + [x])
  {
    assert (b + [x])[..|b|] == b;
  }

  /** A mask that every row of the table satisfies selects the whole table. */
  lemma {:induction false} WhereAllKept(rows: seq<Row>, keep: Row -> bool)
    requires forall i :: 0 <= i < |rows| ==> keep(rows[i])
    ensures Where(rows, keep) == rows
    decreases |rows|
  {
    if rows != [] {
      WhereAllKept(rows[..|rows| - 1], keep);
      assert rows[..|rows| - 1] + [rows[|rows| - 1]] == rows;
    }
  }

  /** Masks that agree on every row select the same rows. */
  lemma {:induction false} WhereCongruent(rows: seq<Row>, p: Row -> bool, q: Row -> bool)
    requires forall r :: p(r) == q(r)
    ensures Where(rows, p) == Where(rows, q)
    decreases |rows|
  {
    if rows != [] {
      WhereCongruent(rows[..|rows| - 1], p, q);
    }
  }

  /** Masking twice in a row is masking once with the conjunction of the two masks. */
  lemma {:induction false} WhereWhere(rows: seq<Row>, first: Row -> bool, second: Row -> bool, both: Row -> bool)
    requires forall r :: both(r) == (first(r) && second(r))
    ensures Where(Where(rows, first), second) == Where(rows, both)
    decreases |rows|
  {
    if rows != [] {
      var init := rows[..|rows| - 1];
      var last := rows[|rows| - 1];
      var w := Where(init, first);
      WhereWhere(init, first, second, both);
      if first(last) {
        assert Where(rows, first) == w + [last];
        assert (w + [last])[..|w|] == w;
        assert Where(w + [last], second) == Where(w, second) + (if second(last) then [last] else []);
      } else {
        assert Where(rows, first) == w;
      }
    }
  }
}
