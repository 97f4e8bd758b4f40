/** Generic sequence helpers: order-preserving filtering, duplicate-freedom,
    and the small facts about them that the selector proofs lean on. */
module Seqs {

  datatype Option<T> = None | Some(value: T)

  function Min(a: int, b: int): int {
    if a <= b then a else b
  }

  /** The elements of `s` satisfying `p`, in their original order (a boolean mask). */
  function Filter<T>(s: seq<T>, p: T -> bool): (r: seq<T>)
    ensures |r| <= |s|
    ensures forall i :: 0 <= i < |r| ==> r[i] in s && p(r[i])
    ensures forall i :: 0 <= i < |s| && p(s[i]) ==> s[i] in r
    decreases |s|
  {
    if |s| == 0 then []
    else if p(s[0]) then [s[0]] + Filter(s[1..], p)
    else Filter(s[1..], p)
  }

  /** No element occurs twice. */
  predicate Distinct<T(==)>(s: seq<T>) {
    forall i, j :: 0 <= i < j < |s| ==> s[i] != s[j]
  }

  function ToSet<T(==)>(s: seq<T>): set<T> {
    set x | x in s
  }

  /** The first `n` elements of `s`, or all of them when `s` is shorter. */
  function Take<T>(s: seq<T>, n: nat): (r: seq<T>)
    ensures |r| == Min(n, |s|)
    ensures r == s[..|r|]
  {
    if n <= |s| then s[..n] else s
  }

  /** Position of the first occurrence of `x` in `s`. */
  function IndexOf<T(==)>(s: seq<T>, x: T): (i: nat)
    requires x in s
    ensures i < |s| && s[i] == x
    ensures forall j :: 0 <= j < i ==> s[j] != x
  {
    if s[0] == x then 0 else 1 + IndexOf(s[1..], x)
  }

  /** `s` without its element at position `i`. */
  function RemoveAt<T(==)>(s: seq<T>, i: nat): (r: seq<T>)
    requires i < |s|
    ensures |r| == |s| - 1
    ensures forall x :: x in r ==> x in s
    ensures Distinct(s) ==> Distinct(r) && s[i] !in r
    ensures forall x :: x in s && x != s[i] ==> x in r
  {
    var r := s[..i] + s[i + 1..];
    assert forall k :: 0 <= k < |r| ==> r[k] == if k < i then s[k] else s[k + 1];
    r
  }

  lemma {:induction false} FilterConcat<T>(a: seq<T>, b: seq<T>, p: T -> bool)
    ensures Filter(a + b, p) == Filter(a, p) + Filter(b, p)
    decreases |a|
  {
    if |a| == 0 {
      assert a + b == b;
    } else {
      assert (a + b)[1..] == a[1..] + b;
      FilterConcat(a[1..], b, p);
    }
  }

  lemma {:induction false} FilterKeepsAll<T>(s: seq<T>, p: T -> bool)
    requires forall x :: x in s ==> p(x)
    ensures Filter(s, p) == s
    decreases |s|
  {
    if |s| > 0 {
      assert s[0] in s;
      FilterKeepsAll(s[1..], p);
      assert [s[0]] + s[1..] == s;
    }
  }

  lemma FilterKeepsNone<T>(s: seq<T>, p: T -> bool)
    requires forall x :: x in s ==> !p(x)
    ensures Filter(s, p) == []
  {
  }

  /** Filtering by a predicate and by its negation splits `s` into two parts
      that together hold every element of `s` exactly as often. */
  lemma {:induction false} FilterSplit<T>(s: seq<T>, p: T -> bool, q: T -> bool)
    requires forall x :: q(x) == !p(x)
    ensures multiset(Filter(s, p)) + multiset(Filter(s, q)) == multiset(s)
    ensures |Filter(s, p)| + |Filter(s, q)| == |s|
    decreases |s|
  {
    if |s| > 0 {
      FilterSplit(s[1..], p, q);
      assert s == [s[0]] + s[1..];
    }
  }

  lemma {:induction false} FilterDistinct<T>(s: seq<T>, p: T -> bool)
    requires Distinct(s)
    ensures Distinct(Filter(s, p))
    decreases |s|
  {
    if |s| > 0 {
      FilterDistinct(s[1..], p);
      if p(s[0]) {
        assert s[0] !in s[1..];
        DistinctConcat([s[0]], Filter(s[1..], p));
      }
    }
  }

  lemma DistinctConcat<T>(a: seq<T>, b: seq<T>)
    ensures Distinct(a + b) <==> Distinct(a) && Distinct(b) && (forall x :: x in a ==> x !in b)
  {
    if Distinct(a + b) {
      forall i, j | 0 <= i < j < |a| ensures a[i] != a[j] {
        assert a[i] == (a + b)[i] && a[j] == (a + b)[j];
      }
      forall i, j | 0 <= i < j < |b| ensures b[i] != b[j] {
        assert b[i] == (a + b)[|a| + i] && b[j] == (a + b)[|a| + j];
      }
      forall x | x in a ensures x !in b {
        var i :| 0 <= i < |a| && a[i] == x;
        forall j | 0 <= j < |b| ensures b[j] != x {
          assert (a + b)[i] == a[i] && (a + b)[|a| + j] == b[j];
        }
      }
    }
    if Distinct(a) && Distinct(b) && (forall x :: x in a ==> x !in b) {
      forall i, j | 0 <= i < j < |a + b| ensures (a + b)[i] != (a + b)[j] {
        if j < |a| {
        } else if i >= |a| {
          assert (a + b)[i] == b[i - |a|] && (a + b)[j] == b[j - |a|];
        } else {
          assert (a + b)[i] in a && (a + b)[j] in b;
        }
      }
    }
  }

  /** A duplicate-free sequence has as many elements as its set of elements. */
  lemma {:induction false} DistinctCard<T>(s: seq<T>)
    requires Distinct(s)
    ensures |ToSet(s)| == |s|
    decreases |s|
  {
    if |s| > 0 {
      DistinctCard(s[1..]);
      assert ToSet(s) == {s[0]} + ToSet(s[1..]);
      assert s[0] !in ToSet(s[1..]);
    }
  }

  /** A duplicate-free sequence whose elements all lie in `t` is no longer than `t`. */
  lemma DistinctIntoNoLonger<T>(s: seq<T>, t: seq<T>)
    requires Distinct(s)
    requires forall x :: x in s ==> x in t
    ensures |s| <= |t|
  {
    DistinctCard(s);
    SetNoLarger(t);
    SubsetCard(ToSet(s), ToSet(t));
  }

  lemma {:induction false} SetNoLarger<T>(s: seq<T>)
    ensures |ToSet(s)| <= |s|
    decreases |s|
  {
    if |s| > 0 {
      SetNoLarger(s[1..]);
      assert ToSet(s) == {s[0]} + ToSet(s[1..]);
    }
  }

  lemma SubsetCard<T>(a: set<T>, b: set<T>)
    requires a <= b
    ensures |a| <= |b|
  {
    assert b == a + (b - a);
  }

  /** Filtering keeps every copy of a passing element and drops every copy of
      a failing one. */
  lemma {:induction false} FilterCount<T>(s: seq<T>, p: T -> bool, x: T)
    ensures multiset(Filter(s, p))[x] == if p(x) then multiset(s)[x] else 0
    decreases |s|
  {
    if |s| > 0 {
      FilterCount(s[1..], p, x);
      FilterConcat([s[0]], s[1..], p);
      assert s == [s[0]] + s[1..];
    }
  }

  /** Rearranging a sequence rearranges each of its masks the same way. */
  lemma FilterPermutes<T>(s: seq<T>, t: seq<T>, p: T -> bool)
    requires multiset(s) == multiset(t)
    ensures multiset(Filter(s, p)) == multiset(Filter(t, p))
  {
    forall x ensures multiset(Filter(s, p))[x] == multiset(Filter(t, p))[x] {
      FilterCount(s, p, x);
      FilterCount(t, p, x);
    }
  }

  /** Duplicate-freedom is a property of the multiset: no element occurs twice. */
  lemma {:induction false} DistinctCounts<T>(s: seq<T>)
    ensures Distinct(s) <==> forall x :: multiset(s)[x] <= 1
    decreases |s|
  {
    if |s| > 0 {
      var t := s[1..];
      assert s == [s[0]] + t;
      DistinctCounts(t);
      DistinctConcat([s[0]], t);
      if forall x :: multiset(s)[x] <= 1 {
        forall x ensures multiset(t)[x] <= 1 {
          assert multiset(s)[x] == multiset{s[0]}[x] + multiset(t)[x];
        }
        assert multiset(s)[s[0]] == 1 + multiset(t)[s[0]];
      }
    }
  }

  /** A rearrangement of a duplicate-free sequence is duplicate-free. */
  lemma DistinctPermutes<T>(s: seq<T>, t: seq<T>)
    requires Distinct(s) && multiset(s) == multiset(t)
    ensures Distinct(t)
  {
    DistinctCounts(s);
    DistinctCounts(t);
  }

  /** The distinct elements of `xs`, in order of first occurrence. */
  function Unique<T(==)>(xs: seq<T>): (r: seq<T>)
    ensures Distinct(r)
    ensures forall i :: 0 <= i < |r| ==> r[i] in xs
    ensures forall i :: 0 <= i < |xs| ==> xs[i] in r
    decreases |xs|
  {
    if |xs| == 0 then []
    else
      var init := xs[..|xs| - 1];
      var u := Unique(init);
      var x := xs[|xs| - 1];
      assert xs == init + [x];
      if x in u then u
      else
        DistinctConcat(u, [x]);
        u + [x]
  }

  /** `Unique` lists elements in the order of their first occurrences. */
  lemma {:induction false} UniqueOrder<T>(xs: seq<T>)
    ensures forall i, j :: 0 <= i < j < |Unique(xs)| ==>
      IndexOf(xs, Unique(xs)[i]) < IndexOf(xs, Unique(xs)[j])
    decreases |xs|
  {
    if |xs| > 0 {
      var init := xs[..|xs| - 1];
      var u := Unique(init);
      var x := xs[|xs| - 1];
      UniqueOrder(init);
      forall y | y in init ensures IndexOf(xs, y) == IndexOf(init, y) {
        IndexOfPrefix(init, [x], y);
        assert xs == init + [x];
      }
      if x !in u {
        assert x !in init;
        forall i | 0 <= i < |u| ensures IndexOf(xs, u[i]) < IndexOf(xs, x) {
          assert u[i] in init;
          IndexOfLast(xs, x);
        }
      }
    }
  }

  lemma IndexOfPrefix<T>(a: seq<T>, b: seq<T>, y: T)
    requires y in a
    ensures IndexOf(a + b, y) == IndexOf(a, y)
  {
    var i := IndexOf(a, y);
    assert (a + b)[i] == y;
    assert forall j :: 0 <= j < i ==> (a + b)[j] == a[j];
  }

  /** Past the head, positions in the tail are one less. */
  lemma IndexOfTail<T>(s: seq<T>, y: T)
    requires y in s && y != s[0]
    ensures y in s[1..] && IndexOf(s, y) == 1 + IndexOf(s[1..], y)
  {
    var k :| 0 <= k < |s| && s[k] == y;
    assert s[1..][k - 1] == y;
  }

  /** The last element, when it occurs nowhere earlier, has the last index. */
  lemma IndexOfLast<T>(xs: seq<T>, x: T)
    requires |xs| > 0 && x == xs[|xs| - 1] && x !in xs[..|xs| - 1]
    ensures IndexOf(xs, x) == |xs| - 1
  {
  }
  /** Masking a concatenation whose first part passes `p` and whose second
      part fails it recovers the first part; whichever side is first. */
  lemma PartsFilter<T>(keep: seq<T>, drop: seq<T>, p: T -> bool)
    requires forall x :: x in keep ==> p(x)
    requires forall x :: x in drop ==> !p(x)
    ensures Filter(keep + drop, p) == keep
    ensures Filter(drop + keep, p) == keep
  {
    FilterConcat(keep, drop, p);
    FilterConcat(drop, keep, p);
    FilterKeepsAll(keep, p);
    FilterKeepsNone(drop, p);
  }

  /** No element satisfying `late` precedes one satisfying `early`. */
  predicate LateLast<T>(t: seq<T>, early: T -> bool, late: T -> bool) {
    forall i, j :: 0 <= i < j < |t| ==> !(late(t[i]) && early(t[j]))
  }

  /** When every element is either early or late, a sequence with the late
      elements last is its early elements followed by its late ones. */
  lemma {:induction false} LateLastSplits<T>(t: seq<T>, early: T -> bool, late: T -> bool)
    requires forall x :: early(x) == !late(x)
    requires LateLast(t, early, late)
    ensures t == Filter(t, early) + Filter(t, late)
    decreases |t|
  {
    if |t| > 0 {
      if early(t[0]) {
        LateLastTail(t, early, late);
        LateLastSplits(t[1..], early, late);
        SplitsEarlyHead(t, early, late);
      } else {
        SplitsLateHead(t, early, late);
      }
    }
  }

  lemma LateLastTail<T>(t: seq<T>, early: T -> bool, late: T -> bool)
    requires |t| > 0 && LateLast(t, early, late)
    ensures LateLast(t[1..], early, late)
  {
    var t' := t[1..];
    forall i, j | 0 <= i < j < |t'| ensures !(late(t'[i]) && early(t'[j])) {
      assert t'[i] == t[i + 1] && t'[j] == t[j + 1];
    }
  }

  lemma SplitsEarlyHead<T>(t: seq<T>, early: T -> bool, late: T -> bool)
    requires forall x :: early(x) == !late(x)
    requires |t| > 0 && early(t[0])
    requires t[1..] == Filter(t[1..], early) + Filter(t[1..], late)
    ensures t == Filter(t, early) + Filter(t, late)
  {
    FilterKeepsHead(t, early);
    FilterDropsHead(t, late);
    Rejoin(t, Filter(t[1..], early), Filter(t[1..], late));
  }

  lemma FilterKeepsHead<T>(t: seq<T>, p: T -> bool)
    requires |t| > 0 && p(t[0])
    ensures Filter(t, p) == [t[0]] + Filter(t[1..], p)
  {
  }

  lemma FilterCons<T>(x: T, s: seq<T>, p: T -> bool)
    ensures Filter([x] + s, p) == if p(x) then [x] + Filter(s, p) else Filter(s, p)
  {
    assert ([x] + s)[1..] == s;
  }

  lemma FilterDropsHead<T>(t: seq<T>, p: T -> bool)
    requires |t| > 0 && !p(t[0])
    ensures Filter(t, p) == Filter(t[1..], p)
  {
  }

  lemma Rejoin<T>(t: seq<T>, a: seq<T>, b: seq<T>)
    requires |t| > 0 && t[1..] == a + b
    ensures t == ([t[0]] + a) + b
  {
    assert t == [t[0]] + t[1..];
  }

  /** Once a late element leads, only late elements follow. */
  lemma SplitsLateHead<T>(t: seq<T>, early: T -> bool, late: T -> bool)
    requires forall x :: early(x) == !late(x)
    requires |t| > 0 && !early(t[0]) && LateLast(t, early, late)
    ensures t == Filter(t, early) + Filter(t, late)
  {
    forall x | x in t ensures late(x) && !early(x) {
      var k :| 0 <= k < |t| && t[k] == x;
      assert k == 0 || !(late(t[0]) && early(t[k]));
    }
    PartsFilter(t, [], late);
    PartsFilter([], t, early);
    assert t + [] == t && [] + t == t;
  }
}
