/**
 * The selector option lists (skills_viz_app.py lines 26-27 and 31-32): the
 * distinct values of a column in Python's string order, with "All" put first.
 */
module Options {
  import opened Wrappers
  import opened Table

  /**
   * Python's `<` on `str`: lexicographic comparison by code point. A proper
   * prefix is smaller, and otherwise the first differing character decides.
   */
  function Less(a: string, b: string): (lt: bool)
    ensures lt ==> a != b
    ensures |a| < |b| && a == b[..|a|] ==> lt
    ensures a != [] && b != [] && a[0] != b[0] ==> (lt <==> a[0] < b[0])
    decreases |a|
  {
    if a == [] then b != []
    else b != [] && (a[0] < b[0] || (a[0] == b[0] && Less(a[1..], b[1..])))
  }

  lemma {:induction false} LessIrreflexive(a: string)
    ensures !Less(a, a)
    decreases |a|
  {
    if a != [] {
      LessIrreflexive(a[1..]);
    }
  }

  lemma {:induction false} LessTransitive(a: string, b: string, c: string)
    requires Less(a, b) && Less(b, c)
    ensures Less(a, c)
    decreases |a|
  {
    if a != [] && a[0] == b[0] && b[0] == c[0] {
      LessTransitive(a[1..], b[1..], c[1..]);
    }
  }

  /** Any two different strings are ordered one way or the other. */
  lemma {:induction false} LessTotal(a: string, b: string)
    requires a != b
    ensures Less(a, b) || Less(b, a)
    decreases |a|
  {
    if a != [] && b != [] && a[0] == b[0] {
      assert a == [a[0]] + a[1..] && b == [b[0]] + b[1..];
      LessTotal(a[1..], b[1..]);
    }
  }

  /** Sorted in ascending order with no value twice. */
  predicate StrictlyAscending(s: seq<string>) {
    forall i :: 0 < i < |s| ==> Less(s[i - 1], s[i])
  }

  lemma {:induction false} AscendingChain(s: seq<string>, i: nat, j: nat)
    requires StrictlyAscending(s) && i < j < |s|
    ensures Less(s[i], s[j])
    decreases j - i
  {
    if i + 1 < j {
      AscendingChain(s, i, j - 1);
      LessTransitive(s[i], s[j - 1], s[j]);
    }
  }

  /** A strictly ascending list is ordered pairwise, hence free of duplicates. */
  lemma AscendingPairwise(s: seq<string>)
    requires StrictlyAscending(s)
    ensures forall i, j :: 0 <= i < j < |s| ==> Less(s[i], s[j])
    ensures forall i, j :: 0 <= i < j < |s| ==> s[i] != s[j]
  {
    forall i, j | 0 <= i < j < |s|
      ensures Less(s[i], s[j]) && s[i] != s[j]
    {
      AscendingChain(s, i, j);
      LessIrreflexive(s[i]);
    }
  }

  /**
   * Two strictly ascending lists with the same values are the same list: the
   * option list is determined by the set of values it holds.
   */
  lemma {:induction false} AscendingUnique(a: seq<string>, b: seq<string>)
    requires StrictlyAscending(a) && StrictlyAscending(b)
    requires forall v :: v in a <==> v in b
    ensures a == b
    decreases |a|
  {
    if a == [] || b == [] {
      EmptyAlike(a, b);
    } else {
      AscendingPairwise(a);
      AscendingPairwise(b);
      if a[0] != b[0] {
        assert a[0] in a && b[0] in b;
        var j :| 0 <= j < |b| && b[j] == a[0];
        var i :| 0 <= i < |a| && a[i] == b[0];
        assert Less(b[0], a[0]) && Less(a[0], b[0]);
        LessTransitive(a[0], b[0], a[0]);
      }
      forall v
        ensures v in a[1..] <==> v in b[1..]
      {
        if v in a[1..] {
          var k :| 0 <= k < |a| - 1 && a[1..][k] == v;
          assert v in b && v != b[0];
          var m :| 0 <= m < |b| && b[m] == v;
          assert b[1..][m - 1] == v;
        }
        if v in b[1..] {
          var k :| 0 <= k < |b| - 1 && b[1..][k] == v;
          assert v in a && v != a[0];
          var m :| 0 <= m < |a| && a[m] == v;
          assert a[1..][m - 1] == v;
        }
      }
      AscendingUnique(a[1..], b[1..]);
      assert a == [a[0]] + a[1..] && b == [b[0]] + b[1..];
    }
  }

  lemma EmptyAlike(a: seq<string>, b: seq<string>)
    requires forall v :: v in a <==> v in b
    ensures a == [] <==> b == []
  {
    if a == [] {
      forall v ensures multiset(b)[v] == 0 {
        assert v !in b;
      }
      assert multiset(b) == multiset{};
    }
    if b == [] {
      forall v ensures multiset(a)[v] == 0 {
        assert v !in a;
      }
      assert multiset(a) == multiset{};
    }
  }

  /** Adds `x` to a strictly ascending list, keeping it strictly ascending. */
  function InsertSorted(s: seq<string>, x: string): (r: seq<string>)
    requires StrictlyAscending(s)
    ensures StrictlyAscending(r)
    ensures forall v :: v in r <==> v in s || v == x
    ensures r != [] && (r[0] == x || (s != [] && r[0] == s[0]))
  {
    if s == [] then [x]
    else if x == s[0] then s
    else if Less(x, s[0]) then [x] + s
    else
      LessTotal(x, s[0]);
      [s[0]] + InsertSorted(s[1..], x)
  }

  /**
   * `sorted(column.dropna().unique().tolist())`: the present values of a
   * column, each once, in ascending order.
   */
  method SortedUnique(values: seq<Option<string>>) returns (s: seq<string>)
    ensures StrictlyAscending(s)
    ensures forall v :: v in s <==> Some(v) in values
  {
    s := [];
    for i := 0 to |values|
      invariant StrictlyAscending(s)
      invariant forall v :: v in s <==> Some(v) in values[..i]
    {
      assert values[..i + 1] == values[..i] + [values[i]];
      if values[i].Some? {
        s := InsertSorted(s, values[i].value);
      }
    }
    assert values[..|values|] == values;
  }

  /** The location selector: "All", then every distinct present location in order. */
  method LocationOptions(rows: seq<Row>) returns (locations: seq<string>)
    ensures |locations| > 0 && locations[0] == All
    ensures StrictlyAscending(locations[1..])
    ensures forall v :: v in locations[1..] <==> Some(v) in ColumnOf(rows, Location)
  {
    locations := SortedUnique(ColumnOf(rows, Location));
    locations := [All] + locations;
  }

  /**
   * The company selector: "All", then every distinct company in order. The
   * script calls it on the cleaned table, where every company is present.
   */
  method CompanyOptions(rows: seq<Row>) returns (companies: seq<string>)
    requires forall i :: 0 <= i < |rows| ==> rows[i].company.Some?
    ensures |companies| > 0 && companies[0] == All
    ensures StrictlyAscending(companies[1..])
    ensures forall v :: v in companies[1..] <==> Some(v) in ColumnOf(rows, Company)
  {
    companies := SortedUnique(ColumnOf(rows, Company));
    companies := [All] + companies;
  }
}
