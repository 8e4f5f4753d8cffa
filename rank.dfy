/**
 * Skill ranking (skills_viz_app.py lines 48-54):
 * `value_counts().head(top_n)` over the skill column of the filtered table.
 * `value_counts` ignores missing cells, counts each distinct skill and sorts
 * by count, largest first; `head` keeps the first `top_n` entries.
 */
module Rank {
  import opened Wrappers
  import opened Table

  /** One line of the result: a skill and the number of rows that name it. */
  datatype SkillCount = SkillCount(skill: string, count: nat)

  /** The mask `extracted_skills == s`. */
  function SkillIs(s: string): Row -> bool {
    (r: Row) => r.skill == Some(s)
  }

  /** The number of rows whose skill is `s`, counted row by row. */
  function Count(rows: seq<Row>, s: string): (n: nat)
    ensures n <= |rows|
    decreases |rows|
  {
    if rows == [] then 0
    else Count(rows[..|rows| - 1], s) + (if rows[|rows| - 1].skill == Some(s) then 1 else 0)
  }

  /**
   * The count is the size of the selection by the mask `extracted_skills == s`,
   * the group size that `value_counts` reports for `s`.
   */
  lemma {:induction false} CountIsMaskSize(rows: seq<Row>, s: string)
    ensures Count(rows, s) == |Where(rows, SkillIs(s))|
    decreases |rows|
  {
    if rows != [] {
      CountIsMaskSize(rows[..|rows| - 1], s);
    }
  }

  /** The distinct skills of the table, as a set. */
  function Skills(rows: seq<Row>): set<string> {
    set i | 0 <= i < |rows| && rows[i].skill.Some? :: rows[i].skill.value
  }

  predicate NoDuplicates(ds: seq<string>) {
    forall i, j :: 0 <= i < j < |ds| ==> ds[i] != ds[j]
  }

  /**
   * The distinct skills in order of first occurrence, each once: exactly the
   * skills with a positive count, as many as there are distinct skills.
   */
  function SkillOrder(rows: seq<Row>): (ds: seq<string>)
    ensures NoDuplicates(ds)
    ensures forall s :: s in ds <==> Count(rows, s) > 0
    ensures forall s :: s in ds <==> s in Skills(rows)
    ensures |ds| == |Skills(rows)|
    decreases |rows|
  {
    if rows == [] then []
    else
      var init := rows[..|rows| - 1];
      var last := rows[|rows| - 1];
      var ds := SkillOrder(init);
      SkillsOfNewRow(rows);
      match last.skill
      case None => ds
      case Some(s) =>
        if s in ds then
          assert Skills(rows) == Skills(init);
          assert forall x :: Count(rows, x) == Count(init, x) + (if x == s then 1 else 0);
          ds
        else
          assert |Skills(init) + {s}| == |Skills(init)| + 1;
          ds + [s]
  }

  lemma SkillsOfNewRow(rows: seq<Row>)
    requires rows != []
    ensures var last := rows[|rows| - 1];
      Skills(rows) == Skills(rows[..|rows| - 1]) + (if last.skill.Some? then {last.skill.value} else {})
  {
    var init := rows[..|rows| - 1];
    assert forall i :: 0 <= i < |init| ==> init[i] == rows[i];
  }

  /** Pairs each skill of `ds` with its count in `rows`. */
  function CountsOf(ds: seq<string>, rows: seq<Row>): (t: seq<SkillCount>)
    ensures |t| == |ds|
    ensures forall i :: 0 <= i < |ds| ==> t[i] == SkillCount(ds[i], Count(rows, ds[i]))
  {
    if ds == [] then [] else [SkillCount(ds[0], Count(rows, ds[0]))] + CountsOf(ds[1..], rows)
  }

  /**
   * The count of every distinct skill, before sorting: each skill of the
   * table once, with the number of rows that name it.
   */
  function Tally(rows: seq<Row>): (t: seq<SkillCount>)
    ensures DistinctSkills(t)
    ensures forall i :: 0 <= i < |t| ==> t[i].skill in Skills(rows) && t[i].count == Count(rows, t[i].skill)
  {
    var t := CountsOf(SkillOrder(rows), rows);
    DistinctSkillsAt(t);
    t
  }

  /** Sum of the counts of a result. */
  function Total(t: seq<SkillCount>): nat {
    if t == [] then 0 else t[0].count + Total(t[1..])
  }

  /** Ordered by count, largest first. */
  predicate NonIncreasing(t: seq<SkillCount>) {
    forall i, j :: 0 <= i < j < |t| ==> t[i].count >= t[j].count
  }

  /** The skill column of a result. */
  function SkillsOf(t: seq<SkillCount>): seq<string> {
    seq(|t|, i requires 0 <= i < |t| => t[i].skill)
  }

  /** No skill is reported twice. */
  predicate DistinctSkills(t: seq<SkillCount>) {
    NoDuplicates(SkillsOf(t))
  }

  /** `DistinctSkills` spelled out entry by entry. */
  lemma DistinctSkillsAt(t: seq<SkillCount>)
    ensures DistinctSkills(t) <==> forall i, j :: 0 <= i < j < |t| ==> t[i].skill != t[j].skill
  {
    assert forall i :: 0 <= i < |t| ==> SkillsOf(t)[i] == t[i].skill;
  }

  /** Inserts `x` into a list ordered by count, before the first smaller-or-equal count. */
  function Insert(x: SkillCount, t: seq<SkillCount>): (r: seq<SkillCount>)
    ensures multiset(r) == multiset(t) + multiset{x}
    ensures r != [] && (r[0] == x || (t != [] && r[0] == t[0]))
  {
    if t == [] then [x]
    else if x.count >= t[0].count then [x] + t
    else
      assert t == [t[0]] + t[1..];
      [t[0]] + Insert(x, t[1..])
  }

  /** The entries of `Insert(x, t)` are `x` and the entries of `t`. */
  lemma InsertMembers(x: SkillCount, t: seq<SkillCount>)
    ensures forall p :: p in Insert(x, t) <==> p == x || p in t
  {
    var r := Insert(x, t);
    assert forall p :: p in r <==> p in multiset(r);
    assert forall p :: p in t <==> p in multiset(t);
  }

  lemma {:induction false} InsertKeepsOrder(x: SkillCount, t: seq<SkillCount>)
    requires NonIncreasing(t)
    ensures NonIncreasing(Insert(x, t))
  {
    if t != [] && x.count < t[0].count {
      var rest := Insert(x, t[1..]);
      InsertKeepsOrder(x, t[1..]);
      InsertMembers(x, t[1..]);
      forall p | p in rest
        ensures t[0].count >= p.count
      {
        if p != x {
          var k :| 0 <= k < |t[1..]| && t[1..][k] == p;
          assert t[k + 1] == p;
        }
      }
      var r := Insert(x, t);
      assert r == [t[0]] + rest;
      forall i, j | 0 <= i < j < |r|
        ensures r[i].count >= r[j].count
      {
        if i > 0 {
          assert r[i] == rest[i - 1] && r[j] == rest[j - 1];
        } else {
          assert r[j] == rest[j - 1] && rest[j - 1] in rest;
        }
      }
    }
  }

  lemma {:induction false} InsertKeepsDistinct(x: SkillCount, t: seq<SkillCount>)
    requires DistinctSkills(t)
    requires forall i :: 0 <= i < |t| ==> t[i].skill != x.skill
    ensures DistinctSkills(Insert(x, t))
  {
    var r := Insert(x, t);
    DistinctSkillsAt(t);
    DistinctSkillsAt(r);
    if t != [] && x.count < t[0].count {
      var rest := Insert(x, t[1..]);
      DistinctSkillsAt(t[1..]);
      DistinctSkillsAt(rest);
      InsertKeepsDistinct(x, t[1..]);
      InsertMembers(x, t[1..]);
      forall p | p in rest
        ensures t[0].skill != p.skill
      {
        if p != x {
          var k :| 0 <= k < |t[1..]| && t[1..][k] == p;
          assert t[k + 1] == p;
        }
      }
      assert r == [t[0]] + rest;
      forall i, j | 0 <= i < j < |r|
        ensures r[i].skill != r[j].skill
      {
        if i > 0 {
          assert r[i] == rest[i - 1] && r[j] == rest[j - 1];
        } else {
          assert r[j] == rest[j - 1] && rest[j - 1] in rest;
        }
      }
    }
  }

  lemma {:induction false} InsertTotal(x: SkillCount, t: seq<SkillCount>)
    ensures Total(Insert(x, t)) == Total(t) + x.count
  {
    if t != [] && x.count < t[0].count {
      InsertTotal(x, t[1..]);
      assert ([t[0]] + Insert(x, t[1..]))[1..] == Insert(x, t[1..]);
    } else if t != [] {
      assert ([x] + t)[1..] == t;
    }
  }

  /** Orders a tally by count, largest first: the sort inside `value_counts`. */
  function SortByCount(t: seq<SkillCount>): (r: seq<SkillCount>)
    ensures multiset(r) == multiset(t)
    ensures NonIncreasing(r)
  {
    if t == [] then []
    else
      var rest := SortByCount(t[1..]);
      assert t == [t[0]] + t[1..];
      InsertKeepsOrder(t[0], rest);
      Insert(t[0], rest)
  }

  lemma {:induction false} SortKeepsDistinct(t: seq<SkillCount>)
    requires DistinctSkills(t)
    ensures DistinctSkills(SortByCount(t))
  {
    if t != [] {
      var rest := SortByCount(t[1..]);
      DistinctSkillsAt(t);
      DistinctSkillsAt(t[1..]);
      SortKeepsDistinct(t[1..]);
      forall i | 0 <= i < |rest|
        ensures rest[i].skill != t[0].skill
      {
        assert rest[i] in multiset(rest);
        var k :| 0 <= k < |t[1..]| && t[1..][k] == rest[i];
        assert t[k + 1] == rest[i];
      }
      InsertKeepsDistinct(t[0], rest);
    }
  }

  lemma {:induction false} SortTotal(t: seq<SkillCount>)
    ensures Total(SortByCount(t)) == Total(t)
  {
    if t != [] {
      SortTotal(t[1..]);
      InsertTotal(t[0], SortByCount(t[1..]));
    }
  }

  function Min(a: nat, b: nat): nat {
    if a <= b then a else b
  }

  /**
   * `filtered_df['extracted_skills'].value_counts().head(top_n)`: at most
   * `top_n` entries, largest count first.
   */
  function TopSkills(rows: seq<Row>, topN: nat): (r: seq<SkillCount>)
    ensures |r| <= topN
    ensures NonIncreasing(r)
  {
    var sorted := SortByCount(Tally(rows));
    var r := sorted[..Min(topN, |sorted|)];
    assert forall i :: 0 <= i < |r| ==> r[i] == sorted[i];
    r
  }

  /**
   * Every entry of the sorted tally is a skill of the table with its exact
   * count, no skill appears twice, and every skill of the table appears.
   */
  lemma SortedTally(rows: seq<Row>)
    ensures var st := SortByCount(Tally(rows));
      && |st| == |Skills(rows)|
      && DistinctSkills(st)
      && (forall i :: 0 <= i < |st| ==> st[i].skill in Skills(rows) && st[i].count == Count(rows, st[i].skill))
      && (forall s :: s in Skills(rows) ==> exists i :: 0 <= i < |st| && st[i].skill == s)
  {
    var ds := SkillOrder(rows);
    var t := Tally(rows);
    var st := SortByCount(t);
    DistinctSkillsAt(t);
    SortKeepsDistinct(t);
    assert |st| == |t| by {
      assert |multiset(st)| == |multiset(t)|;
    }
    forall i | 0 <= i < |st|
      ensures st[i].skill in Skills(rows) && st[i].count == Count(rows, st[i].skill)
    {
      assert st[i] in multiset(st);
      var k :| 0 <= k < |t| && t[k] == st[i];
      assert ds[k] in ds;
    }
    forall s | s in Skills(rows)
      ensures exists i :: 0 <= i < |st| && st[i].skill == s
    {
      var k :| 0 <= k < |ds| && ds[k] == s;
      assert t[k] in multiset(st);
      var i :| 0 <= i < |st| && st[i] == t[k];
    }
  }

  /**
   * Each reported skill occurs in the table, no skill is reported twice, and
   * each reported count is the number of rows naming that skill, at least 1.
   */
  lemma TopSkillsCounts(rows: seq<Row>, topN: nat)
    ensures var top := TopSkills(rows, topN);
      && DistinctSkills(top)
      && forall i :: 0 <= i < |top| ==>
           && top[i].skill in Skills(rows)
           && top[i].count == Count(rows, top[i].skill)
           && top[i].count >= 1
  {
    SortedTally(rows);
    var sorted := SortByCount(Tally(rows));
    var top := TopSkills(rows, topN);
    DistinctSkillsAt(sorted);
    DistinctSkillsAt(top);
    assert forall i :: 0 <= i < |top| ==> top[i] == sorted[i];
    forall i | 0 <= i < |top|
      ensures top[i].count >= 1
    {
      assert top[i].skill in SkillOrder(rows);
    }
  }

  /** The result is ordered by count, largest first (ties in no promised order). */
  lemma TopSkillsOrdered(rows: seq<Row>, topN: nat)
    ensures NonIncreasing(TopSkills(rows, topN))
  {
    var sorted := SortByCount(Tally(rows));
    assert forall i :: 0 <= i < Min(topN, |sorted|) ==> TopSkills(rows, topN)[i] == sorted[i];
  }

  /**
   * The result has `min(top_n, number of distinct skills)` entries; a table
   * without skills gives an empty result.
   */
  lemma TopSkillsLength(rows: seq<Row>, topN: nat)
    ensures |TopSkills(rows, topN)| == Min(topN, |Skills(rows)|)
    ensures Skills(rows) == {} ==> TopSkills(rows, topN) == []
  {
    SortedTally(rows);
  }

  /**
   * Top-N: a skill of the table that was cut from the result has a count no
   * greater than any count that was kept.
   */
  lemma TopSkillsTopN(rows: seq<Row>, topN: nat, s: string)
    requires s in Skills(rows)
    requires forall i :: 0 <= i < |TopSkills(rows, topN)| ==> TopSkills(rows, topN)[i].skill != s
    ensures forall i :: 0 <= i < |TopSkills(rows, topN)| ==> Count(rows, s) <= TopSkills(rows, topN)[i].count
  {
    var sorted := SortByCount(Tally(rows));
    var top := TopSkills(rows, topN);
    var j := FindInSortedTally(rows, s);
    KeptOutranks(sorted, top, j);
  }

  /** In a list ordered by count, a prefix that misses entry `j` outranks it. */
  lemma KeptOutranks(sorted: seq<SkillCount>, top: seq<SkillCount>, j: nat)
    requires NonIncreasing(sorted) && j < |sorted|
    requires |top| <= |sorted| && top == sorted[..|top|]
    requires forall i :: 0 <= i < |top| ==> top[i].skill != sorted[j].skill
    ensures forall i :: 0 <= i < |top| ==> sorted[j].count <= top[i].count
  {
    assert forall i :: 0 <= i < |top| ==> top[i] == sorted[i];
  }

  /** Where a skill of the table stands in the sorted tally. */
  lemma FindInSortedTally(rows: seq<Row>, s: string) returns (j: nat)
    requires s in Skills(rows)
    ensures j < |SortByCount(Tally(rows))|
    ensures SortByCount(Tally(rows))[j] == SkillCount(s, Count(rows, s))
  {
    var ds := SkillOrder(rows);
    var t := Tally(rows);
    var sorted := SortByCount(t);
    var k :| 0 <= k < |ds| && ds[k] == s;
    assert t[k] == SkillCount(s, Count(rows, s));
    assert t[k] in multiset(sorted);
    j :| 0 <= j < |sorted| && sorted[j] == t[k];
  }

  lemma {:induction false} CountsOfSnoc(ds: seq<string>, x: string, rows: seq<Row>)
    ensures Total(CountsOf(ds + [x], rows)) == Total(CountsOf(ds, rows)) + Count(rows, x)
  {
    if ds != [] {
      assert (ds + [x])[1..] == ds[1..] + [x];
      CountsOfSnoc(ds[1..], x, rows);
    }
  }

  /** Adding a row adds one to the total over `ds` exactly when its skill is in `ds`. */
  lemma {:induction false} CountsOfNewRow(ds: seq<string>, rows: seq<Row>)
    requires rows != [] && NoDuplicates(ds)
    ensures var last := rows[|rows| - 1];
      Total(CountsOf(ds, rows))
        == Total(CountsOf(ds, rows[..|rows| - 1])) + (if last.skill.Some? && last.skill.value in ds then 1 else 0)
  {
    if ds != [] {
      CountsOfNewRow(ds[1..], rows);
      var last := rows[|rows| - 1];
      if last.skill == Some(ds[0]) {
        assert ds[0] !in ds[1..];
      }
    }
  }

  /** The counts of all distinct skills add up to the number of rows with a skill. */
  lemma {:induction false} TallyTotal(rows: seq<Row>)
    ensures Total(Tally(rows)) == |Where(rows, HasSkill)|
    decreases |rows|
  {
    if rows != [] {
      var init := rows[..|rows| - 1];
      var last := rows[|rows| - 1];
      var ds := SkillOrder(init);
      TallyTotal(init);
      CountsOfNewRow(ds, rows);
      if last.skill.Some? && last.skill.value !in ds {
        CountsOfSnoc(ds, last.skill.value, rows);
        assert Count(init, last.skill.value) == 0;
      }
    }
  }

  lemma {:induction false} TotalOfPrefix(t: seq<SkillCount>, k: nat)
    requires k <= |t|
    ensures Total(t[..k]) <= Total(t)
  {
    if k > 0 {
      assert t[..k][1..] == t[1..][..k - 1];
      TotalOfPrefix(t[1..], k - 1);
    } else {
      assert t[..k] == [];
    }
  }

  /**
   * The reported counts add up to at most the number of rows with a skill,
   * and to exactly that number when no skill was cut.
   */
  lemma TopSkillsTotal(rows: seq<Row>, topN: nat)
    ensures Total(TopSkills(rows, topN)) <= |Where(rows, HasSkill)|
    ensures topN >= |Skills(rows)| ==> Total(TopSkills(rows, topN)) == |Where(rows, HasSkill)|
  {
    var sorted := SortByCount(Tally(rows));
    SortedTally(rows);
    SortTotal(Tally(rows));
    TallyTotal(rows);
    TotalOfPrefix(sorted, Min(topN, |sorted|));
    assert sorted[..|sorted|] == sorted;
  }
}
