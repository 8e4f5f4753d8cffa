/**
 * Cleaning the loaded table (skills_viz_app.py lines 19-20): rows without a
 * skill are dropped, then a missing company name becomes "Unknown".
 */
module Clean {
  import opened Wrappers
  import opened Table

  const Unknown: string := "Unknown"

  /** `fillna("Unknown")` applied to the company cell of one row. */
  function FillCompany(r: Row): (f: Row)
    ensures f.skill == r.skill && f.location == r.location
    ensures f.company.Some?
    ensures r.company.Some? ==> f.company == r.company
    ensures r.company.None? ==> f.company == Some(Unknown)
  {
    r.(company := Some(r.company.GetOr(Unknown)))
  }

  function FillCompanies(rows: seq<Row>): seq<Row> {
    seq(|rows|, i requires 0 <= i < |rows| => FillCompany(rows[i]))
  }

  /** The table once both cleaning statements have run. */
  function Cleaned(raw: seq<Row>): (df: seq<Row>)
    ensures |df| <= |raw|
    ensures forall i :: 0 <= i < |df| ==> df[i].skill.Some? && df[i].company.Some?
  {
    FillCompanies(Where(raw, HasSkill))
  }

  /**
   * The two statements of the script: `dropna(subset=['extracted_skills'])`
   * builds a new table, then the company column is overwritten in place.
   */
  method Clean(raw: seq<Row>) returns (df: seq<Row>)
    ensures df == Cleaned(raw)
  {
    var kept: seq<Row> := [];
    for i := 0 to |raw|
      invariant kept == Where(raw[..i], HasSkill)
    {
      WhereSnoc(raw, HasSkill, i);
      if raw[i].skill.Some? {
        kept := kept + [raw[i]];
      }
    }
    assert raw[..|raw|] == raw;
    df := kept;
    for i := 0 to |df|
      invariant |df| == |kept|
      invariant forall j :: 0 <= j < i ==> df[j] == FillCompany(kept[j])
      invariant forall j :: i <= j < |df| ==> df[j] == kept[j]
    {
      df := df[i := FillCompany(df[i])];
    }
  }

  /**
   * After cleaning, no row misses its skill or its company; every row that had
   * a skill is still there (its company filled), and one whose company was
   * present is there unchanged.
   */
  lemma CleanedRows(raw: seq<Row>)
    ensures forall r :: r in Cleaned(raw) ==> r.skill.Some? && r.company.Some?
    ensures forall r :: r in raw && r.skill.Some? ==> FillCompany(r) in Cleaned(raw)
    ensures forall r :: r in raw && r.skill.Some? && r.company.Some? ==> r in Cleaned(raw)
    ensures forall r :: r in raw && r.skill.None? ==> r !in Cleaned(raw)
  {
    var kept := Where(raw, HasSkill);
    WhereMembership(raw, HasSkill);
    forall r | r in Cleaned(raw)
      ensures r.skill.Some? && r.company.Some?
    {
      var i :| 0 <= i < |Cleaned(raw)| && Cleaned(raw)[i] == r;
      assert kept[i] in kept;
    }
    forall r | r in raw && r.skill.Some?
      ensures FillCompany(r) in Cleaned(raw)
    {
      var i :| 0 <= i < |kept| && kept[i] == r;
      assert Cleaned(raw)[i] == FillCompany(r);
    }
    forall r | r in raw && r.skill.Some? && r.company.Some?
      ensures r in Cleaned(raw)
    {
      assert FillCompany(r) == r;
    }
  }

  /**
   * Filling first and dropping second gives the same table, so the cleaned
   * table lists the rows with a skill in their original order.
   */
  lemma {:induction false} CleanedInOrder(raw: seq<Row>)
    ensures Cleaned(raw) == Where(FillCompanies(raw), HasSkill)
    ensures IsSubsequence(Cleaned(raw), FillCompanies(raw))
    ensures |Cleaned(raw)| == |Where(raw, HasSkill)|
    decreases |raw|
  {
    if raw != [] {
      var init := raw[..|raw| - 1];
      var last := raw[|raw| - 1];
      CleanedInOrder(init);
      assert FillCompanies(raw)[..|raw| - 1] == FillCompanies(init);
      var kept := Where(init, HasSkill);
      if HasSkill(last) {
        assert FillCompanies(kept + [last]) == FillCompanies(kept) + [FillCompany(last)];
      }
    }
    WhereIsSubsequence(FillCompanies(raw), HasSkill);
  }
}
