/**
 * The human-readable labels of the current selection (skills_viz_app.py lines
 * 57-58) and the name of the downloaded file (line 84).
 */
module Labels {
  import opened Table

  const AllLocations: string := "All Locations"
  const AllCompanies: string := "All Companies"

  /**
   * The selection itself, or `allText` when nothing is selected; so the label
   * reads `allText` exactly when "All" or `allText` itself is selected.
   */
  function Label(selection: string, allText: string): (text: string)
    ensures text == allText <==> selection == All || selection == allText
    ensures selection != All ==> text == selection
  {
    if selection != All then selection else allText
  }

  /** `loc_label`: never the sentinel, "All Locations" exactly for "All" or that text. */
  function LocationLabel(selectedLocation: string): (text: string)
    ensures text != All
    ensures text == AllLocations <==> selectedLocation == All || selectedLocation == AllLocations
  {
    Label(selectedLocation, AllLocations)
  }

  /** `comp_label`: never the sentinel, "All Companies" exactly for "All" or that text. */
  function CompanyLabel(selectedCompany: string): (text: string)
    ensures text != All
    ensures text == AllCompanies <==> selectedCompany == All || selectedCompany == AllCompanies
  {
    Label(selectedCompany, AllCompanies)
  }

  /**
   * The label reads "All Locations" / "All Companies" exactly when "All" is
   * selected or a value of that very name is; otherwise it is the selection.
   */
  lemma LabelMeaning(selection: string, allText: string)
    requires allText != All
    ensures Label(selection, allText) == allText <==> selection == All || selection == allText
    ensures Label(selection, allText) != All
    ensures selection != All ==> Label(selection, allText) == selection
  {
  }

  /** Two selections share a label only when one is "All" and the other is the "all" text. */
  lemma LabelCollision(a: string, b: string, allText: string)
    requires a != b && Label(a, allText) == Label(b, allText)
    ensures (a == All && b == allText) || (a == allText && b == All)
  {
  }

  /**
   * The f-string `f"skills_{loc_label}_{comp_label}.csv"`: the prefix
   * "skills_", the location label, an underscore, the company label and the
   * extension ".csv", in that order and nothing else.
   */
  function FileName(locLabel: string, compLabel: string): (name: string)
    ensures |name| == |locLabel| + |compLabel| + 12
    ensures name[..7] == "skills_" && name[|name| - 4..] == ".csv"
    ensures name[7..7 + |locLabel|] == locLabel && name[7 + |locLabel|] == '_'
    ensures name[8 + |locLabel|..|name| - 4] == compLabel
  {
    "skills_" + locLabel + "_" + compLabel + ".csv"
  }

  /**
   * The download name for a pair of selections: the selections themselves
   * when neither is "All", the two "all" texts when both are.
   */
  function DownloadName(selectedLocation: string, selectedCompany: string): (name: string)
    ensures selectedLocation != All && selectedCompany != All ==>
      name == "skills_" + selectedLocation + "_" + selectedCompany + ".csv"
    ensures selectedLocation == All && selectedCompany == All ==>
      name == "skills_All Locations_All Companies.csv"
  {
    FileName(LocationLabel(selectedLocation), CompanyLabel(selectedCompany))
  }

  /** Position of the first underscore in `s`, or `|s|` when there is none. */
  function FirstUnderscore(s: string): (k: nat)
    ensures k <= |s|
  {
    if s == [] then 0 else if s[0] == '_' then 0 else 1 + FirstUnderscore(s[1..])
  }

  lemma {:induction false} FirstUnderscoreAfter(a: string, rest: string)
    requires '_' !in a
    ensures FirstUnderscore(a + "_" + rest) == |a|
  {
    if a != [] {
      assert (a + "_" + rest)[1..] == a[1..] + "_" + rest;
      FirstUnderscoreAfter(a[1..], rest);
    }
  }

  /**
   * The file name has the shape `skills_<location>_<company>.csv`, and when the
   * location label has no underscore both labels can be read back from it.
   */
  lemma FileNameInjective(a: string, b: string, c: string, d: string)
    requires '_' !in a && '_' !in c
    requires FileName(a, b) == FileName(c, d)
    ensures a == c && b == d
  {
    var f := FileName(a, b);
    var x := a + "_" + b;
    var y := c + "_" + d;
    assert f == "skills_" + x + ".csv";
    assert f == "skills_" + y + ".csv";
    assert x == f[7..|f| - 4];
    assert y == f[7..|f| - 4];
    FirstUnderscoreAfter(a, b);
    FirstUnderscoreAfter(c, d);
    assert a == x[..|a|] && c == y[..|c|];
    assert b == x[|a| + 1..] && d == y[|c| + 1..];
  }

  /**
   * Two selection pairs give the same download name only when they select the
   * same rows: each location is the same, or one is "All" and the other the
   * text "All Locations", and likewise for the companies. This needs the
   * locations to have no underscore.
   */
  lemma DownloadNameInjective(l1: string, c1: string, l2: string, c2: string)
    requires '_' !in l1 && '_' !in l2
    requires DownloadName(l1, c1) == DownloadName(l2, c2)
    ensures l1 == l2 || (l1 == All && l2 == AllLocations) || (l1 == AllLocations && l2 == All)
    ensures c1 == c2 || (c1 == All && c2 == AllCompanies) || (c1 == AllCompanies && c2 == All)
  {
    assert '_' !in AllLocations;
    FileNameInjective(LocationLabel(l1), CompanyLabel(c1), LocationLabel(l2), CompanyLabel(c2));
    if l1 != l2 {
      LabelCollision(l1, l2, AllLocations);
    }
    if c1 != c2 {
      LabelCollision(c1, c2, AllCompanies);
    }
  }

  /** Which is not so when the location label contains an underscore. */
  lemma FileNameAmbiguous()
    ensures FileName("a_b", "c") == FileName("a", "b_c")
  {
  }
}
