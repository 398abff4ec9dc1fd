/**
  `all_results.sort(key=lambda x: (x["region"], x["server"]))`: Python compares the key
  tuples field by field and strings code point by code point, a proper prefix first.
  The sort itself is Python's library sort; it is modelled by a stable insertion sort.
 */
module ResultOrder {
  import opened DigQuery

  /** Python's `a <= b` on strings. */
  predicate StrLe(a: string, b: string)
    decreases |a|
  {
    a == [] || (b != [] && (a[0] < b[0] || (a[0] == b[0] && StrLe(a[1..], b[1..]))))
  }

  lemma {:induction false} StrLeTotal(a: string, b: string)
    ensures StrLe(a, b) || StrLe(b, a)
    decreases |a|
  {
    if a != [] && b != [] && a[0] == b[0] {
      StrLeTotal(a[1..], b[1..]);
    }
  }

  lemma {:induction false} StrLeTransitive(a: string, b: string, c: string)
    requires StrLe(a, b) && StrLe(b, c)
    ensures StrLe(a, c)
    decreases |a|
  {
    if a != [] && a[0] == b[0] && b[0] == c[0] {
      StrLeTransitive(a[1..], b[1..], c[1..]);
    }
  }

  lemma {:induction false} StrLeAntisymmetric(a: string, b: string)
    requires StrLe(a, b) && StrLe(b, a)
    ensures a == b
    decreases |a|
  {
    if a != [] {
      StrLeAntisymmetric(a[1..], b[1..]);
      assert a == [a[0]] + a[1..] && b == [b[0]] + b[1..];
    }
  }

  /** `(x.region, x.server) <= (y.region, y.server)`. */
  predicate KeyLe(x: QueryResult, y: QueryResult) {
    if x.region == y.region then StrLe(x.server, y.server) else StrLe(x.region, y.region)
  }

  lemma KeyLeTotal(x: QueryResult, y: QueryResult)
    ensures KeyLe(x, y) || KeyLe(y, x)
  {
    StrLeTotal(x.region, y.region);
    StrLeTotal(x.server, y.server);
  }

  lemma KeyLeTransitive(x: QueryResult, y: QueryResult, z: QueryResult)
    requires KeyLe(x, y) && KeyLe(y, z)
    ensures KeyLe(x, z)
  {
    if x.region == y.region && y.region == z.region {
      StrLeTransitive(x.server, y.server, z.server);
    } else if x.region == y.region {
      assert StrLe(y.region, z.region);
    } else if y.region == z.region {
      assert StrLe(x.region, y.region);
    } else {
      StrLeTransitive(x.region, y.region, z.region);
      if x.region == z.region {
        StrLeAntisymmetric(x.region, y.region);
      }
    }
  }

  predicate Sorted(s: seq<QueryResult>) {
    forall i, j :: 0 <= i < j < |s| ==> KeyLe(s[i], s[j])
  }

  /** Put `x` after every element whose key is not greater than its own. */
  function Insert(x: QueryResult, s: seq<QueryResult>): (r: seq<QueryResult>)
    ensures multiset(r) == multiset(s) + multiset{x}
    decreases |s|
  {
    if s == [] then [x]
    else if !KeyLe(s[0], x) then [x] + s
    else
      assert s == [s[0]] + s[1..];
      [s[0]] + Insert(x, s[1..])
  }

  /** A key no greater than every key of a sorted list can go in front of it. */
  lemma ConsSorted(a: QueryResult, t: seq<QueryResult>)
    requires Sorted(t) && forall y :: y in t ==> KeyLe(a, y)
    ensures Sorted([a] + t)
  {
    var r := [a] + t;
    forall i, j | 0 <= i < j < |r| ensures KeyLe(r[i], r[j]) {
      assert r[j] == t[j - 1] && t[j - 1] in t;
      if i > 0 {
        assert r[i] == t[i - 1];
      }
    }
  }

  /** Inserting keeps a lower bound that holds for the list and for the inserted record. */
  lemma InsertBoundedBelow(lo: QueryResult, x: QueryResult, s: seq<QueryResult>)
    requires KeyLe(lo, x) && forall y :: y in s ==> KeyLe(lo, y)
    ensures forall y :: y in Insert(x, s) ==> KeyLe(lo, y)
  {
    var t := Insert(x, s);
    forall y | y in t ensures KeyLe(lo, y) {
      assert y in multiset(t);
      if y != x {
        assert y in multiset(s);
      }
    }
  }

  lemma {:induction false} InsertSorted(x: QueryResult, s: seq<QueryResult>)
    requires Sorted(s)
    ensures Sorted(Insert(x, s))
    decreases |s|
  {
    if s == [] {
    } else if !KeyLe(s[0], x) {
      KeyLeTotal(s[0], x);
      forall y | y in s ensures KeyLe(x, y) {
        var j :| 0 <= j < |s| && s[j] == y;
        if j > 0 {
          KeyLeTransitive(x, s[0], s[j]);
        }
      }
      ConsSorted(x, s);
    } else {
      var tail := s[1..];
      assert Sorted(tail);
      InsertSorted(x, tail);
      forall y | y in tail ensures KeyLe(s[0], y) {
        var j :| 0 <= j < |tail| && tail[j] == y;
        assert s[j + 1] == y;
      }
      InsertBoundedBelow(s[0], x, tail);
      ConsSorted(s[0], Insert(x, tail));
    }
  }

  /** The merged results in (region, server) order. */
  function SortResults(s: seq<QueryResult>): (r: seq<QueryResult>)
    ensures multiset(r) == multiset(s)
    ensures |r| == |s|
    decreases |s|
  {
    if s == [] then []
    else
      var init := s[..|s| - 1];
      assert s == init + [s[|s| - 1]];
      var r := Insert(s[|s| - 1], SortResults(init));
      assert |r| == |multiset(r)|;
      r
  }

  lemma {:induction false} SortResultsSorted(s: seq<QueryResult>)
    ensures Sorted(SortResults(s))
    decreases |s|
  {
    if s != [] {
      SortResultsSorted(s[..|s| - 1]);
      InsertSorted(s[|s| - 1], SortResults(s[..|s| - 1]));
    }
  }
}
