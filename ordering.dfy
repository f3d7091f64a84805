/**
 * The order of the administrative listing: rows sorted by name. The store
 * compares names with the binary collation, byte by byte over UTF-8, which
 * is the lexicographic order of code points, written here as `NameAtMost`.
 */
module NameOrdering {
  import opened ApiKeyRecords

  /** `a` sorts no later than `b`: lexicographic order on code points. */
  predicate NameAtMost(a: string, b: string)
    ensures a <= b ==> NameAtMost(a, b)
  {
    if a == [] then true
    else if b == [] then false
    else if a[0] != b[0] then a[0] < b[0]
    else NameAtMost(a[1..], b[1..])
  }

  lemma {:induction false} NameAtMostTotal(a: string, b: string)
    ensures NameAtMost(a, b) || NameAtMost(b, a)
  {
    if a != [] && b != [] && a[0] == b[0] {
      NameAtMostTotal(a[1..], b[1..]);
    }
  }

  lemma {:induction false} NameAtMostTransitive(a: string, b: string, c: string)
    requires NameAtMost(a, b) && NameAtMost(b, c)
    ensures NameAtMost(a, c)
  {
    if a != [] && b != [] && c != [] && a[0] == b[0] == c[0] {
      NameAtMostTransitive(a[1..], b[1..], c[1..]);
    }
  }

  lemma {:induction false} NameAtMostAntisymmetric(a: string, b: string)
    requires NameAtMost(a, b) && NameAtMost(b, a)
    ensures a == b
  {
    if a != [] && b != [] {
      NameAtMostAntisymmetric(a[1..], b[1..]);
      assert a == [a[0]] + a[1..];
      assert b == [b[0]] + b[1..];
    }
  }

  predicate SortedByName(s: seq<ApiKeyRecord>)
  {
    forall i, j :: 0 <= i < j < |s| ==> NameAtMost(s[i].name, s[j].name)
  }

  /** Places `x` in front of the first row of `s` it sorts no later than. */
  function InsertByName(x: ApiKeyRecord, s: seq<ApiKeyRecord>): (t: seq<ApiKeyRecord>)
    ensures |t| == |s| + 1
  {
    if s == [] then [x]
    else if NameAtMost(x.name, s[0].name) then [x] + s
    else [s[0]] + InsertByName(x, s[1..])
  }

  /** `ORDER BY Name` over the table: insertion sort by name. */
  function SortByName(rs: seq<ApiKeyRecord>): (sorted: seq<ApiKeyRecord>)
    ensures |sorted| == |rs|
  {
    if rs == [] then [] else InsertByName(rs[0], SortByName(rs[1..]))
  }

  lemma {:induction false} InsertByNamePermutes(x: ApiKeyRecord, s: seq<ApiKeyRecord>)
    ensures multiset(InsertByName(x, s)) == multiset(s) + multiset{x}
  {
    if s != [] && !NameAtMost(x.name, s[0].name) {
      InsertByNamePermutes(x, s[1..]);
      assert s == [s[0]] + s[1..];
    }
  }

  lemma {:induction false} InsertByNameSorted(x: ApiKeyRecord, s: seq<ApiKeyRecord>)
    requires SortedByName(s)
    ensures SortedByName(InsertByName(x, s))
  {
    if s == [] {
    } else if NameAtMost(x.name, s[0].name) {
      var t := [x] + s;
      forall j | 0 <= j < |s|
        ensures NameAtMost(x.name, s[j].name)
      {
        if j > 0 {
          NameAtMostTransitive(x.name, s[0].name, s[j].name);
        }
      }
      assert forall j :: 1 <= j < |t| ==> t[j] == s[j - 1];
    } else {
      NameAtMostTotal(x.name, s[0].name);
      var t := InsertByName(x, s[1..]);
      assert SortedByName(s[1..]) by {
        assert forall k :: 0 <= k < |s| - 1 ==> s[1..][k] == s[k + 1];
      }
      InsertByNameSorted(x, s[1..]);
      InsertByNamePermutes(x, s[1..]);
      forall j | 0 <= j < |t|
        ensures NameAtMost(s[0].name, t[j].name)
      {
        assert t[j] in multiset(t);
        if t[j] != x {
          assert t[j] in multiset(s[1..]);
          var k :| 0 <= k < |s[1..]| && s[1..][k] == t[j];
          assert s[k + 1] == t[j];
        }
      }
      assert InsertByName(x, s) == [s[0]] + t;
    }
  }

  /** A row whose name no row of a distinct-named `s` has keeps the names distinct. */
  lemma {:induction false} InsertByNameKeepsDistinct(x: ApiKeyRecord, s: seq<ApiKeyRecord>)
    requires DistinctNames(s)
    requires forall r :: r in s ==> r.name != x.name
    ensures DistinctNames(InsertByName(x, s))
  {
    if s != [] && !NameAtMost(x.name, s[0].name) {
      var t := InsertByName(x, s[1..]);
      assert DistinctNames(s[1..]) by {
        assert forall k :: 0 <= k < |s| - 1 ==> s[1..][k] == s[k + 1];
      }
      InsertByNameKeepsDistinct(x, s[1..]);
      InsertByNamePermutes(x, s[1..]);
      forall j | 0 <= j < |t|
        ensures t[j].name != s[0].name
      {
        assert t[j] in multiset(t);
        if t[j] != x {
          assert t[j] in multiset(s[1..]);
          var k :| 0 <= k < |s[1..]| && s[1..][k] == t[j];
          assert s[k + 1] == t[j];
        }
      }
      assert InsertByName(x, s) == [s[0]] + t;
    }
  }

  /** The listing holds every row of the table, each as often as the table does. */
  lemma {:induction false} SortByNamePermutes(rs: seq<ApiKeyRecord>)
    ensures multiset(SortByName(rs)) == multiset(rs)
  {
    if rs != [] {
      SortByNamePermutes(rs[1..]);
      InsertByNamePermutes(rs[0], SortByName(rs[1..]));
      assert rs == [rs[0]] + rs[1..];
    }
  }

  /** The listing is in ascending name order. */
  lemma {:induction false} SortByNameSorted(rs: seq<ApiKeyRecord>)
    ensures SortedByName(SortByName(rs))
  {
    if rs != [] {
      SortByNameSorted(rs[1..]);
      InsertByNameSorted(rs[0], SortByName(rs[1..]));
    }
  }

  /** Sorting a table with unique names keeps them unique. */
  lemma {:induction false} SortByNameKeepsDistinct(rs: seq<ApiKeyRecord>)
    requires DistinctNames(rs)
    ensures DistinctNames(SortByName(rs))
  {
    if rs != [] {
      DistinctNamesTail(rs);
      var t := SortByName(rs[1..]);
      SortByNameKeepsDistinct(rs[1..]);
      SortByNamePermutes(rs[1..]);
      forall r | r in t
        ensures r.name != rs[0].name
      {
        assert r in multiset(rs[1..]);
        var k :| 0 <= k < |rs[1..]| && rs[1..][k] == r;
        assert Value(rs[1..][k], NameColumn) == r.name;
      }
      InsertByNameKeepsDistinct(rs[0], t);
    }
  }
}
