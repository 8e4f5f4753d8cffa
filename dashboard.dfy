/**
 * One run of the dashboard script (skills_viz_app.py lines 19-58 and 84) for a
 * given table and a given state of the sidebar widgets.
 */
module Dashboard {
  import opened Wrappers
  import opened Table
  import Clean
  import Options
  import Filter
  import Rank
  import Labels

  /**
   * Cleans the table, builds both selectors, applies the selected filters,
   * ranks the skills and names the download. The slider bounds `top_n` to
   * 5..50.
   */
  method Run(raw: seq<Row>, selectedLocation: string, selectedCompany: string, topN: nat)
    returns (locations: seq<string>, companies: seq<string>, topSkills: seq<Rank.SkillCount>, fileName: string)
    requires 5 <= topN <= 50
    ensures |locations| > 0 && locations[0] == All && Options.StrictlyAscending(locations[1..])
    ensures |companies| > 0 && companies[0] == All && Options.StrictlyAscending(companies[1..])
    ensures forall v :: v in locations[1..] <==> Some(v) in ColumnOf(Clean.Cleaned(raw), Location)
    ensures forall v :: v in companies[1..] <==> Some(v) in ColumnOf(Clean.Cleaned(raw), Company)
    ensures topSkills == Rank.TopSkills(Filter.Select(Clean.Cleaned(raw), selectedLocation, selectedCompany), topN)
    ensures fileName == Labels.DownloadName(selectedLocation, selectedCompany)
  {
    var df := Clean.Clean(raw);
    Clean.CleanedRows(raw);
    assert forall i :: 0 <= i < |df| ==> df[i] in df;
    locations := Options.LocationOptions(df);
    companies := Options.CompanyOptions(df);
    var filtered := Filter.ApplyFilters(df, selectedLocation, selectedCompany);
    topSkills := Rank.TopSkills(filtered, topN);
    var locLabel := Labels.LocationLabel(selectedLocation);
    var compLabel := Labels.CompanyLabel(selectedCompany);
    fileName := Labels.FileName(locLabel, compLabel);
  }

  /**
   * Four postings filtered on location "Remote": Python twice, SQL once.
   */
  lemma RemoteScenario()
    ensures Rank.TopSkills(Filter.Select(ScenarioRows(), "Remote", All), 5)
      == [Rank.SkillCount("Python", 2), Rank.SkillCount("SQL", 1)]
  {
    ScenarioFilter();
    ScenarioTally();
    var t := Rank.Tally(ScenarioRows()[..3]);
    assert Rank.SortByCount(t[1..]) == [Rank.SkillCount("SQL", 1)];
    assert Rank.SortByCount(t) == t;
  }

  lemma ScenarioFilter()
    ensures Filter.Select(ScenarioRows(), "Remote", All) == ScenarioRows()[..3]
  {
    var rows := ScenarioRows();
    var keep := Filter.Matches("Remote", All);
    assert rows[..3][..2] == rows[..2] && rows[..2][..1] == rows[..1] && rows[..1][..0] == [];
    assert rows[..4] == rows;
    assert Where(rows[..1], keep) == [rows[0]];
    assert Where(rows[..2], keep) == rows[..2];
    assert Where(rows[..3], keep) == rows[..3];
  }

  lemma ScenarioTally()
    ensures Rank.Tally(ScenarioRows()[..3]) == [Rank.SkillCount("Python", 2), Rank.SkillCount("SQL", 1)]
  {
    var f := ScenarioRows()[..3];
    assert f[..2][..1] == f[..1] && f[..1][..0] == [] && f[..3] == f;
    assert Rank.SkillOrder(f[..1]) == ["Python"];
    assert Rank.SkillOrder(f[..2]) == ["Python", "SQL"];
    assert Rank.SkillOrder(f) == ["Python", "SQL"];
    assert Rank.Count(f[..2], "Python") == 1;
    assert Rank.Count(f, "Python") == 2;
    assert Rank.Count(f[..2], "SQL") == 1;
    assert Rank.Count(f, "SQL") == 1;
  }

  /**
   * The same four postings through the whole chain: cleaning changes nothing,
   * both filters are "All", and with top_n 2 Python leads with three rows.
   */
  lemma AllScenario()
    ensures Rank.TopSkills(Filter.Select(Clean.Cleaned(ScenarioRows()), All, All), 2)
      == [Rank.SkillCount("Python", 3), Rank.SkillCount("SQL", 1)]
  {
    var rows := ScenarioRows();
    WhereAllKept(rows, HasSkill);
    assert Clean.FillCompanies(rows) == rows;
    Filter.SelectAllIsIdentity(rows);
    ScenarioFullTally();
    var t := Rank.Tally(rows);
    assert Rank.SortByCount(t[1..]) == [Rank.SkillCount("SQL", 1)];
    assert Rank.SortByCount(t) == t;
  }

  lemma ScenarioFullTally()
    ensures Rank.Tally(ScenarioRows()) == [Rank.SkillCount("Python", 3), Rank.SkillCount("SQL", 1)]
  {
    var f := ScenarioRows();
    assert f[..3][..2] == f[..2] && f[..2][..1] == f[..1] && f[..1][..0] == [] && f[..4] == f;
    assert Rank.SkillOrder(f[..1]) == ["Python"];
    assert Rank.SkillOrder(f[..2]) == ["Python", "SQL"];
    assert Rank.SkillOrder(f[..3]) == ["Python", "SQL"];
    assert Rank.SkillOrder(f) == ["Python", "SQL"];
    assert Rank.Count(f[..2], "Python") == 1;
    assert Rank.Count(f[..3], "Python") == 2;
    assert Rank.Count(f, "Python") == 3;
    assert Rank.Count(f[..2], "SQL") == 1;
    assert Rank.Count(f[..3], "SQL") == 1;
    assert Rank.Count(f, "SQL") == 1;
  }

  function ScenarioRows(): seq<Row> {
    [ Row(Some("Python"), Some("Remote"), Some("A")),
      Row(Some("SQL"), Some("Remote"), Some("A")),
      Row(Some("Python"), Some("Remote"), Some("B")),
      Row(Some("Python"), Some("NYC"), Some("A")) ]
  }
}
