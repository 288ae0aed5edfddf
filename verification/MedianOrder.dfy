/** The median said by order statistics: by how many values lie below and above, whatever order they came in. */
module MedianOrder {
  import opened Lists
  import opened Clock

  function Below(v: int): int -> bool {
    (x: int) => x < v
  }

  function AtMost(v: int): int -> bool {
    (x: int) => x <= v
  }

  function Above(v: int): int -> bool {
    (x: int) => x > v
  }

  /** `v` is the k-th smallest value, counting from 0. */
  predicate IsNth(values: seq<int>, k: nat, v: int) {
    Count(Below(v), values) <= k < Count(AtMost(v), values)
  }

  /** `m` is half of `sum`, cut off toward zero. */
  predicate IsHalf(m: int, sum: int) {
    && (sum >= 0 ==> 0 <= 2 * m <= sum <= 2 * m + 1)
    && (sum <= 0 ==> 2 * m - 1 <= sum <= 2 * m <= 0)
  }

  // ---------------------------------------------------------------- order statistics

  lemma {:induction false} CountImplies(p: int -> bool, q: int -> bool, s: seq<int>)
    requires forall x :: p(x) ==> q(x)
    ensures Count(p, s) <= Count(q, s)
  {
    if s != [] {
      CountImplies(p, q, s[..|s| - 1]);
    }
  }

  lemma {:induction false} CountSplits(v: int, s: seq<int>)
    ensures Count(AtMost(v), s) + Count(Above(v), s) == |s|
    ensures Count(Below(v), s) <= Count(AtMost(v), s)
  {
    if s != [] {
      CountSplits(v, s[..|s| - 1]);
    }
  }

  lemma {:induction false} FewBelow(s: seq<int>, k: nat)
    requires SortedBy(Value, s) && k < |s|
    ensures Count(Below(s[k]), s) <= k
  {
    hide Count;
    var rest, p := s[k..], Below(s[k]);
    assert s == s[..k] + rest;
    CountConcat(p, s[..k], rest);
    forall x | x in rest
      ensures !p(x)
    {
      var i :| k <= i < |s| && s[i] == x;
      assert Value(s[k]) <= Value(s[i]);
    }
    CountNone(p, rest);
  }

  lemma {:induction false} ManyAtMost(s: seq<int>, k: nat)
    requires SortedBy(Value, s) && k < |s|
    ensures Count(AtMost(s[k]), s) > k
  {
    hide Count;
    var first, p := s[..k + 1], AtMost(s[k]);
    assert s == first + s[k + 1..];
    CountConcat(p, first, s[k + 1..]);
    forall i | 0 <= i < |first|
      ensures p(first[i])
    {
      assert Value(s[i]) <= Value(s[k]);
    }
    CountAll(p, first);
  }

  lemma {:induction false} NthOfSorted(values: seq<int>, k: nat)
    requires k < |values|
    ensures |Sorted(values)| == |values| && IsNth(values, k, Sorted(values)[k]) && Sorted(values)[k] in values
  {
    SortBySorts(Value, values);
    hide Count, SortBy, SortedBy;
    var s := Sorted(values);
    CountSorted(Below(s[k]), values);
    CountSorted(AtMost(s[k]), values);
    FewBelow(s, k);
    ManyAtMost(s, k);
    assert s[k] in s;
  }

  /** No two values are k-th smallest. */
  lemma {:induction false} NthUnique(values: seq<int>, k: nat, v: int, w: int)
    requires IsNth(values, k, v) && IsNth(values, k, w)
    ensures v == w
  {
    hide Count;
    if v < w {
      CountImplies(AtMost(v), Below(w), values);
    } else if w < v {
      CountImplies(AtMost(w), Below(v), values);
    }
  }

  lemma {:induction false} NthOrdered(values: seq<int>, j: nat, v: int, k: nat, w: int)
    requires j <= k && IsNth(values, j, v) && IsNth(values, k, w)
    ensures v <= w
  {
    hide Count;
    if w < v {
      CountImplies(AtMost(w), Below(v), values);
    }
  }

  // ---------------------------------------------------------------- the median

  /** There is a value at each of the two middle places. */
  lemma {:induction false} MiddlesExist(values: seq<int>) returns (lo: int, hi: int)
    requires values != []
    ensures IsNth(values, (|values| - 1) / 2, lo) && IsNth(values, |values| / 2, hi)
    ensures lo in values && hi in values && lo <= hi
  {
    hide IsNth, Sorted;
    var j, k := (|values| - 1) / 2, |values| / 2;
    NthOfSorted(values, j);
    NthOfSorted(values, k);
    lo, hi := Sorted(values)[j], Sorted(values)[k];
    NthOrdered(values, j, lo, k, hi);
  }

  lemma {:induction false} MiddleOfTwo(s: seq<int>)
    requires s != []
    ensures MiddleOf(s).Some? && IsHalf(MiddleOf(s).value, s[(|s| - 1) / 2] + s[|s| / 2])
  {}

  /**
    Main result: the median is half the sum of the two values at the middle places in order of size, cut off toward zero.
  */
  lemma {:induction false} MedianExact(values: seq<int>, lo: int, hi: int)
    requires values != [] && IsNth(values, (|values| - 1) / 2, lo) && IsNth(values, |values| / 2, hi)
    ensures MiddleOf(Sorted(values)).Some?
    ensures var m := MiddleOf(Sorted(values)).value;
            && IsHalf(m, lo + hi)
            && (|values| % 2 == 1 ==> m == lo == hi)
  {
    hide IsNth, Sorted, MiddleOf;
    var j, k := (|values| - 1) / 2, |values| / 2;
    NthOfSorted(values, j);
    NthOfSorted(values, k);
    NthUnique(values, j, Sorted(values)[j], lo);
    NthUnique(values, k, Sorted(values)[k], hi);
    MiddleOfTwo(Sorted(values));
  }

  lemma {:induction false} NthBound(values: seq<int>, k: nat, v: int)
    requires IsNth(values, k, v)
    ensures k < |values|
  {}

  lemma {:induction false} HalfUnique(m: int, m': int, sum: int)
    requires IsHalf(m, sum) && IsHalf(m', sum)
    ensures m == m'
  {}

  /** Of an odd number of values the median is one, with fewer than half of the values on either side. */
  lemma {:induction false} OddMedian(values: seq<int>)
    requires |values| % 2 == 1
    ensures MiddleOf(Sorted(values)).Some?
    ensures var m := MiddleOf(Sorted(values)).value;
            m in values && 2 * Count(Below(m), values) < |values| && 2 * Count(Above(m), values) < |values|
  {
    hide Count, Sorted, MiddleOf;
    var lo, hi := MiddlesExist(values);
    MedianExact(values, lo, hi);
    CountSplits(lo, values);
  }

  // ---------------------------------------------------------------- clocks ahead and clocks behind alike

  function Negated(values: seq<int>): (r: seq<int>)
    ensures |r| == |values| && forall i :: 0 <= i < |r| ==> r[i] == -values[i]
  {
    seq(|values|, i requires 0 <= i < |values| => -values[i])
  }

  lemma {:induction false} CountNegated(p: int -> bool, q: int -> bool, values: seq<int>)
    requires forall x :: p(-x) <==> q(x)
    ensures Count(p, Negated(values)) == Count(q, values)
  {
    if values != [] {
      var front, x := values[..|values| - 1], values[|values| - 1];
      CountNegated(p, q, front);
      assert Negated(values) == Negated(front) + [-x];
      CountOne(p, Negated(front), -x);
    }
  }

  lemma {:induction false} NthNegated(values: seq<int>, k: nat, v: int)
    requires IsNth(values, k, v)
    ensures k < |values| && IsNth(Negated(values), |values| - 1 - k, -v)
  {
    NthBound(values, k, v);
    CountNegated(Below(-v), Above(v), values);
    CountNegated(AtMost(-v), NotBelow(v), values);
    CountSplits(v, values);
    CountNotBelow(v, values);
    hide Count;
  }

  function NotBelow(v: int): int -> bool {
    (x: int) => x >= v
  }

  lemma {:induction false} CountNotBelow(v: int, s: seq<int>)
    ensures Count(Below(v), s) + Count(NotBelow(v), s) == |s|
  {
    if s != [] {
      CountNotBelow(v, s[..|s| - 1]);
    }
  }

  /** The median of the negated values is the negated median: cutting off toward zero favours neither direction. */
  lemma {:induction false} MedianNegated(values: seq<int>)
    requires values != []
    ensures MiddleOf(Sorted(values)).Some? && MiddleOf(Sorted(Negated(values))) == Some(-MiddleOf(Sorted(values)).value)
  {
    hide IsNth, Sorted, MiddleOf;
    var lo, hi := MiddlesExist(values);
    MedianExact(values, lo, hi);
    NthNegated(values, (|values| - 1) / 2, lo);
    NthNegated(values, |values| / 2, hi);
    MedianExact(Negated(values), -hi, -lo);
    HalfUnique(MiddleOf(Sorted(Negated(values))).value, -MiddleOf(Sorted(values)).value, -hi - lo);
  }

  // ---------------------------------------------------------------- the values measured

  /** Each accepted answer gives its offset, in the order of the servers, and no other answer gives anything. */
  lemma {:induction false} OffsetsExact(a: seq<Option<Answer>>, b: seq<Option<Answer>>, answer: Option<Answer>)
    ensures OffsetsOf(a + b) == OffsetsOf(a) + OffsetsOf(b)
    ensures OffsetsOf([answer]) == if answer.Some? && Query(answer.value).Some? then [Query(answer.value).value] else []
  {
    hide Query;
    assert [answer][..0] == [];
    if b == [] {
      assert a + b == a;
    } else {
      OffsetsExact(a, b[..|b| - 1], answer);
      assert (a + b)[..|a + b| - 1] == a + b[..|b| - 1];
    }
  }
}
