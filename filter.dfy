/**
 * The sidebar filters (skills_viz_app.py lines 39-45): an exact-equality
 * filter on location and one on company, applied one after the other; the
 * selection "All" leaves the table as it is.
 */
module Filter {
  import opened Wrappers
  import opened Table

  /** Whether a row passes both filters: the conjunction the two masks amount to. */
  predicate Keeps(loc: string, comp: string, r: Row) {
    && (loc == All || r.location == Some(loc))
    && (comp == All || r.company == Some(comp))
  }

  function Matches(loc: string, comp: string): Row -> bool {
    r => Keeps(loc, comp, r)
  }

  /** The filtered table: the rows that pass both filters, in table order. */
  function Select(rows: seq<Row>, loc: string, comp: string): (filtered: seq<Row>)
    ensures |filtered| <= |rows|
    ensures forall i :: 0 <= i < |filtered| ==> Keeps(loc, comp, filtered[i])
  {
    Where(rows, Matches(loc, comp))
  }

  /** `df[df[col] == value]`: one boolean mask, evaluated row by row. */
  method Mask(rows: seq<Row>, col: Column, value: string) returns (kept: seq<Row>)
    ensures kept == Where(rows, ColumnIs(col, value))
  {
    kept := [];
    for i := 0 to |rows|
      invariant kept == Where(rows[..i], ColumnIs(col, value))
    {
      WhereSnoc(rows, ColumnIs(col, value), i);
      if Cell(rows[i], col) == Some(value) {
        kept := kept + [rows[i]];
      }
    }
    assert rows[..|rows|] == rows;
  }

  /**
   * The script's filtering: start from a copy of the table, mask by location
   * unless "All" is selected, then mask by company unless "All" is selected.
   */
  method ApplyFilters(df: seq<Row>, loc: string, comp: string) returns (filtered: seq<Row>)
    ensures filtered == Select(df, loc, comp)
  {
    filtered := df;
    if loc != All {
      filtered := Mask(filtered, Location, loc);
    }
    if comp != All {
      filtered := Mask(filtered, Company, comp);
    }
    var both := Matches(loc, comp);
    if loc != All && comp != All {
      WhereWhere(df, ColumnIs(Location, loc), ColumnIs(Company, comp), both);
    } else if loc != All {
      WhereCongruent(df, ColumnIs(Location, loc), both);
    } else if comp != All {
      WhereCongruent(df, ColumnIs(Company, comp), both);
    } else {
      WhereAllKept(df, both);
    }
  }

  /** With "All" selected twice, the filtered table is the cleaned table itself. */
  lemma SelectAllIsIdentity(rows: seq<Row>)
    ensures Select(rows, All, All) == rows
  {
    WhereAllKept(rows, Matches(All, All));
  }

  /**
   * The filtered table holds exactly the rows that pass both filters, in their
   * original order, each as many times as the table holds it.
   */
  lemma SelectExactly(rows: seq<Row>, loc: string, comp: string)
    ensures IsSubsequence(Select(rows, loc, comp), rows)
    ensures forall r :: r in Select(rows, loc, comp) <==> r in rows && Keeps(loc, comp, r)
    ensures forall r :: multiset(Select(rows, loc, comp))[r] == if Keeps(loc, comp, r) then multiset(rows)[r] else 0
  {
    WhereIsSubsequence(rows, Matches(loc, comp));
    WhereMembership(rows, Matches(loc, comp));
    WhereMultiset(rows, Matches(loc, comp));
  }

  /** A row whose location is missing never passes a concrete location filter. */
  lemma MissingLocationNeverMatches(rows: seq<Row>, loc: string, comp: string, r: Row)
    requires loc != All && r.location.None?
    ensures r !in Select(rows, loc, comp)
  {
    SelectExactly(rows, loc, comp);
  }
}
