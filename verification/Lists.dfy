/** List operations the program takes from its standard libraries: filtering a stream and stable sorting by a key. */
module Lists {

  datatype Option<+T> = None | Some(value: T)

  /** The elements of `s` satisfying `p`, in order. */
  function Filter<T>(p: T -> bool, s: seq<T>): (r: seq<T>) {
    if s == [] then []
    else if p(s[|s| - 1]) then Filter(p, s[..|s| - 1]) + [s[|s| - 1]]
    else Filter(p, s[..|s| - 1])
  }

  lemma {:induction false} FilterMembers<T(!new)>(p: T -> bool, s: seq<T>)
    ensures forall x :: x in Filter(p, s) <==> x in s && p(x)
  {
    if s != [] {
      FilterMembers(p, s[..|s| - 1]);
      assert s == s[..|s| - 1] + [s[|s| - 1]];
    }
  }

  /** Filtering keeps any relation that holds between all earlier and later elements. */
  lemma {:induction false} FilterKeepsOrder<T(!new)>(p: T -> bool, s: seq<T>, rel: (T, T) -> bool)
    requires forall i, j :: 0 <= i < j < |s| ==> rel(s[i], s[j])
    ensures forall i, j :: 0 <= i < j < |Filter(p, s)| ==> rel(Filter(p, s)[i], Filter(p, s)[j])
  {
    if s != [] {
      var front := s[..|s| - 1];
      FilterKeepsOrder(p, front, rel);
      FilterMembers(p, front);
      forall i | 0 <= i < |Filter(p, front)|
        ensures rel(Filter(p, front)[i], s[|s| - 1])
      {
        assert Filter(p, front)[i] in front;
      }
    }
  }

  /** Filtering twice is filtering by both conditions. */
  lemma {:induction false} FilterTwice<T(!new)>(p: T -> bool, q: T -> bool, both: T -> bool, s: seq<T>)
    requires forall x :: both(x) <==> p(x) && q(x)
    ensures Filter(q, Filter(p, s)) == Filter(both, s)
  {
    if s != [] {
      FilterTwice(p, q, both, s[..|s| - 1]);
      var f := Filter(p, s[..|s| - 1]);
      assert (f + [s[|s| - 1]])[..|f|] == f;
    }
  }

  lemma {:induction false} FilterCommutes<T(!new)>(p: T -> bool, q: T -> bool, s: seq<T>)
    ensures Filter(q, Filter(p, s)) == Filter(p, Filter(q, s))
  {
    var both := x => p(x) && q(x);
    FilterTwice(p, q, both, s);
    FilterTwice(q, p, both, s);
  }

  lemma {:induction false} FilterConcat<T(!new)>(p: T -> bool, a: seq<T>, b: seq<T>)
    ensures Filter(p, a + b) == Filter(p, a) + Filter(p, b)
  {
    if b == [] {
      assert a + b == a;
    } else {
      FilterConcat(p, a, b[..|b| - 1]);
      assert (a + b)[..|a + b| - 1] == a + b[..|b| - 1];
    }
  }

  /** A filter drops nothing exactly when every element satisfies the condition. */
  lemma {:induction false} FilterLength<T(!new)>(p: T -> bool, s: seq<T>)
    ensures |Filter(p, s)| <= |s|
    ensures |Filter(p, s)| == |s| <==> forall x :: x in s ==> p(x)
    ensures (forall x :: x in s ==> p(x)) ==> Filter(p, s) == s
  {
    if s != [] {
      FilterLength(p, s[..|s| - 1]);
      assert s == s[..|s| - 1] + [s[|s| - 1]];
    }
  }

  ghost predicate SortedBy<T>(key: T -> int, s: seq<T>) {
    forall i, j :: 0 <= i < j < |s| ==> key(s[i]) <= key(s[j])
  }

  /** `x` placed after every element whose key is no larger. */
  function InsertBy<T>(key: T -> int, x: T, s: seq<T>): (r: seq<T>) {
    if s == [] || key(s[|s| - 1]) <= key(x) then s + [x]
    else InsertBy(key, x, s[..|s| - 1]) + [s[|s| - 1]]
  }

  /** A stable sort: elements with equal keys keep their order. */
  function SortBy<T>(key: T -> int, s: seq<T>): (r: seq<T>) {
    if s == [] then [] else InsertBy(key, s[|s| - 1], SortBy(key, s[..|s| - 1]))
  }

  lemma {:induction false} InsertByAdds<T(!new)>(key: T -> int, x: T, s: seq<T>)
    ensures multiset(InsertBy(key, x, s)) == multiset(s) + multiset{x}
  {
    if s == [] || key(s[|s| - 1]) <= key(x) {
    } else {
      InsertByAdds(key, x, s[..|s| - 1]);
      assert s == s[..|s| - 1] + [s[|s| - 1]];
    }
  }

  lemma {:induction false} InsertBySorts<T(!new)>(key: T -> int, x: T, s: seq<T>)
    requires SortedBy(key, s)
    ensures SortedBy(key, InsertBy(key, x, s))
  {
    if s == [] || key(s[|s| - 1]) <= key(x) {
    } else {
      var front := s[..|s| - 1];
      InsertBySorts(key, x, front);
      InsertByAdds(key, x, front);
      var r := InsertBy(key, x, front);
      forall i | 0 <= i < |r|
        ensures key(r[i]) <= key(s[|s| - 1])
      {
        assert r[i] in multiset(r);
        assert r[i] == x || r[i] in front;
      }
    }
  }

  lemma {:induction false} SortBySorts<T(!new)>(key: T -> int, s: seq<T>)
    ensures SortedBy(key, SortBy(key, s))
    ensures multiset(SortBy(key, s)) == multiset(s)
    ensures |SortBy(key, s)| == |s|
    ensures forall x :: x in SortBy(key, s) <==> x in s
  {
    if s != [] {
      SortBySorts(key, s[..|s| - 1]);
      InsertBySorts(key, s[|s| - 1], SortBy(key, s[..|s| - 1]));
      InsertByAdds(key, s[|s| - 1], SortBy(key, s[..|s| - 1]));
      assert s == s[..|s| - 1] + [s[|s| - 1]];
    }
    assert |multiset(SortBy(key, s))| == |multiset(s)|;
    forall x
      ensures x in SortBy(key, s) <==> x in s
    {
      assert x in SortBy(key, s) <==> x in multiset(SortBy(key, s));
    }
  }

  /** No two elements have the same id. */
  ghost predicate DistinctBy<T>(id: T -> int, s: seq<T>) {
    forall i, j :: 0 <= i < j < |s| ==> id(s[i]) != id(s[j])
  }

  lemma {:induction false} InsertByDistinct<T(!new)>(key: T -> int, id: T -> int, x: T, s: seq<T>)
    requires DistinctBy(id, s) && forall y :: y in s ==> id(y) != id(x)
    ensures DistinctBy(id, InsertBy(key, x, s))
    ensures forall y :: y in InsertBy(key, x, s) <==> y == x || y in s
  {
    if s == [] || key(s[|s| - 1]) <= key(x) {
    } else {
      var front, last := s[..|s| - 1], s[|s| - 1];
      InsertByDistinct(key, id, x, front);
      assert s == front + [last];
      var r := InsertBy(key, x, front);
      forall i | 0 <= i < |r|
        ensures id(r[i]) != id(last)
      {
        assert r[i] in r;
        assert last in s;
        if r[i] != x {
          assert r[i] in front;
          var k :| 0 <= k < |front| && front[k] == r[i];
          assert s[k] == r[i] && id(s[k]) != id(s[|s| - 1]);
        }
      }
    }
  }

  lemma {:induction false} SortByDistinct<T(!new)>(key: T -> int, id: T -> int, s: seq<T>)
    requires DistinctBy(id, s)
    ensures DistinctBy(id, SortBy(key, s))
  {
    if s != [] {
      var front := s[..|s| - 1];
      SortByDistinct(key, id, front);
      SortBySorts(key, front);
      forall y | y in SortBy(key, front)
        ensures id(y) != id(s[|s| - 1])
      {
        assert y in front;
        var k :| 0 <= k < |front| && front[k] == y;
        assert s[k] == y && id(s[k]) != id(s[|s| - 1]);
      }
      InsertByDistinct(key, id, s[|s| - 1], SortBy(key, front));
    }
  }

  lemma {:induction false} FilterDistinct<T(!new)>(p: T -> bool, id: T -> int, s: seq<T>)
    requires DistinctBy(id, s)
    ensures DistinctBy(id, Filter(p, s))
  {
    var rel := (a: T, b: T) => id(a) != id(b);
    FilterKeepsOrder(p, s, rel);
    var f := Filter(p, s);
    forall i, j | 0 <= i < j < |f|
      ensures id(f[i]) != id(f[j])
    {
      assert rel(f[i], f[j]);
    }
  }

  lemma {:induction false} DistinctMembers<T(!new)>(id: T -> int, s: seq<T>, x: T, y: T)
    requires DistinctBy(id, s) && x in s && y in s && id(x) == id(y)
    ensures x == y
  {}
}
