/** The two orderings applied to selected rows: the per-group move of special
    rows to the end, and the final stable sort by (assignment group, special flag). */
module Ordering {
  import opened Seqs
  import opened Text
  import opened Tickets

  /** No special row comes before a plain one. */
  predicate SpecialLastOrder(s: seq<Row>) {
    forall i, j :: 0 <= i < j < |s| ==> !(IsSpecialRow(s[i]) && IsPlainRow(s[j]))
  }

  /** Plain rows, then special rows, each part in its original order. */
  function SpecialLast(s: seq<Row>): (r: seq<Row>)
    ensures multiset(r) == multiset(s)
    ensures SpecialLastOrder(r)
    ensures Filter(r, IsPlainRow) == Filter(s, IsPlainRow)
    ensures Filter(r, IsSpecialRow) == Filter(s, IsSpecialRow)
  {
    var plain := Filter(s, IsPlainRow);
    var special := Filter(s, IsSpecialRow);
    FilterSplit(s, IsPlainRow, IsSpecialRow);
    PartsConcat(plain, special);
    plain + special
  }

  /** Plain rows followed by special rows are in special-last order, and
      masking the concatenation recovers each part. */
  lemma PartsConcat(plain: seq<Row>, special: seq<Row>)
    requires forall x :: x in plain ==> IsPlainRow(x)
    requires forall x :: x in special ==> IsSpecialRow(x)
    ensures SpecialLastOrder(plain + special)
    ensures Filter(plain + special, IsPlainRow) == plain
    ensures Filter(plain + special, IsSpecialRow) == special
  {
    PartsFilter(plain, special, IsPlainRow);
    PartsFilter(special, plain, IsSpecialRow);
    PartsOrdered(plain, special);
  }

  lemma PartsOrdered(plain: seq<Row>, special: seq<Row>)
    requires forall x :: x in plain ==> IsPlainRow(x)
    requires forall x :: x in special ==> IsSpecialRow(x)
    ensures SpecialLastOrder(plain + special)
  {
    var t := plain + special;
    forall i, j | 0 <= i < j < |t| ensures !(IsSpecialRow(t[i]) && IsPlainRow(t[j])) {
      if i < |plain| {
        assert t[i] == plain[i] && t[i] in plain;
      } else {
        assert t[j] == special[j - |plain|] && t[j] in special;
      }
    }
  }

  /** A special-last sequence is its plain rows followed by its special rows. */
  lemma SpecialLastSplits(t: seq<Row>)
    requires SpecialLastOrder(t)
    ensures t == Filter(t, IsPlainRow) + Filter(t, IsSpecialRow)
  {
    assert LateLast(t, IsPlainRow, IsSpecialRow);
    LateLastSplits(t, IsPlainRow, IsSpecialRow);
  }

  /** Stable partition is unique: any special-last rearrangement that keeps
      the order within the plain rows and within the special rows is the
      one `SpecialLast` builds. */
  lemma StablePartitionUnique(s: seq<Row>, t: seq<Row>)
    requires SpecialLastOrder(t)
    requires Filter(t, IsPlainRow) == Filter(s, IsPlainRow)
    requires Filter(t, IsSpecialRow) == Filter(s, IsSpecialRow)
    ensures t == SpecialLast(s)
  {
    SpecialLastSplits(t);
  }

  /** A plain row at the head stays at the head. */
  lemma SpecialLastHead(s: seq<Row>)
    requires |s| > 0 && IsPlainRow(s[0])
    ensures |SpecialLast(s)| == |s| && SpecialLast(s)[0] == s[0]
  {
    assert Filter(s, IsPlainRow) == [s[0]] + Filter(s[1..], IsPlainRow);
    assert multiset(SpecialLast(s)) == multiset(s);
    assert |SpecialLast(s)| == |multiset(s)|;
  }

  /** Sort key order: assignment group first, then plain before special. */
  predicate KeyLe(a: Row, b: Row) {
    StrLt(a.rec.group, b.rec.group)
    || (a.rec.group == b.rec.group && (IsPlainRow(a) || IsSpecialRow(b)))
  }

  predicate SortedByKey(s: seq<Row>) {
    forall i, j :: 0 <= i < j < |s| ==> KeyLe(s[i], s[j])
  }

  lemma KeyLeTotal(a: Row, b: Row)
    ensures KeyLe(a, b) || KeyLe(b, a)
  {
    if a.rec.group != b.rec.group {
      StrLtTotal(a.rec.group, b.rec.group);
    }
  }

  lemma KeyLeTransitive(a: Row, b: Row, c: Row)
    requires KeyLe(a, b) && KeyLe(b, c)
    ensures KeyLe(a, c)
  {
    if StrLt(a.rec.group, b.rec.group) && StrLt(b.rec.group, c.rec.group) {
      StrLtTransitive(a.rec.group, b.rec.group, c.rec.group);
    }
  }

  /** Within one group, key order is exactly special-last order. */
  lemma SameGroupSorted(s: seq<Row>, g: string)
    requires forall x :: x in s ==> x.rec.group == g
    ensures SortedByKey(s) <==> SpecialLastOrder(s)
  {
    StrLtIrreflexive(g);
    assert forall i :: 0 <= i < |s| ==> s[i] in s;
  }

  /** Places `x` before the first element whose key is not below its own,
      so that `x` precedes the elements of equal key already in `t`. */
  function Insert(x: Row, t: seq<Row>): (r: seq<Row>)
    ensures multiset(r) == multiset(t) + multiset{x}
    ensures SortedByKey(t) ==> SortedByKey(r)
    decreases |t|
  {
    if |t| == 0 || KeyLe(x, t[0]) then
      InsertFrontSorted(x, t);
      [x] + t
    else
      var rest := Insert(x, t[1..]);
      assert t == [t[0]] + t[1..];
      InsertBehindSorted(x, t, rest);
      [t[0]] + rest
  }

  lemma InsertFrontSorted(x: Row, t: seq<Row>)
    requires |t| == 0 || KeyLe(x, t[0])
    ensures SortedByKey(t) ==> SortedByKey([x] + t)
  {
    if SortedByKey(t) {
      var r := [x] + t;
      forall i, j | 0 <= i < j < |r| ensures KeyLe(r[i], r[j]) {
        if i == 0 {
          if j > 1 {
            KeyLeTransitive(x, t[0], t[j - 1]);
          }
        } else {
          assert r[i] == t[i - 1] && r[j] == t[j - 1];
        }
      }
    }
  }

  lemma InsertBehindSorted(x: Row, t: seq<Row>, rest: seq<Row>)
    requires |t| > 0 && !KeyLe(x, t[0])
    requires multiset(rest) == multiset(t[1..]) + multiset{x}
    requires SortedByKey(t[1..]) ==> SortedByKey(rest)
    ensures SortedByKey(t) ==> SortedByKey([t[0]] + rest)
  {
    if SortedByKey(t) {
      SortedTail(t);
      KeyLeTotal(x, t[0]);
      forall y | y in rest ensures KeyLe(t[0], y) {
        assert y in multiset(rest);
        if y != x {
          assert y in multiset(t[1..]);
          var k :| 0 <= k < |t[1..]| && t[1..][k] == y;
          assert t[k + 1] == y;
        }
      }
      var r := [t[0]] + rest;
      forall i, j | 0 <= i < j < |r| ensures KeyLe(r[i], r[j]) {
        if i == 0 {
          assert r[j] == rest[j - 1] && r[j] in rest;
        } else {
          assert r[i] == rest[i - 1] && r[j] == rest[j - 1];
        }
      }
    }
  }

  /** Stable insertion sort on the key; stands for `sort_values(by=[group, flag])`. */
  function SortByKey(s: seq<Row>): (r: seq<Row>)
    ensures multiset(r) == multiset(s)
    ensures SortedByKey(r)
    decreases |s|
  {
    if |s| == 0 then []
    else
      assert s == [s[0]] + s[1..];
      Insert(s[0], SortByKey(s[1..]))
  }

  lemma SortedTail(s: seq<Row>)
    requires |s| > 0 && SortedByKey(s)
    ensures SortedByKey(s[1..])
  {
    assert forall i :: 0 <= i < |s| - 1 ==> s[1..][i] == s[i + 1];
  }

  lemma {:induction false} InsertSkipped(x: Row, t: seq<Row>, p: Row -> bool)
    requires !p(x)
    ensures Filter(Insert(x, t), p) == Filter(t, p)
    decreases |t|
  {
    if |t| == 0 || KeyLe(x, t[0]) {
      FilterConcat([x], t, p);
    } else {
      InsertSkipped(x, t[1..], p);
      FilterConcat([t[0]], Insert(x, t[1..]), p);
      FilterConcat([t[0]], t[1..], p);
      assert t == [t[0]] + t[1..];
    }
  }

  lemma {:induction false} InsertKept(x: Row, t: seq<Row>, p: Row -> bool)
    requires p(x) && SortedByKey(t)
    ensures Filter(Insert(x, t), p) == Insert(x, Filter(t, p))
    decreases |t|
  {
    if |t| == 0 {
    } else if KeyLe(x, t[0]) {
      InsertKeptFront(x, t, p);
    } else {
      SortedTail(t);
      InsertKept(x, t[1..], p);
      InsertKeptBehind(x, t, p);
    }
  }

  lemma InsertKeptFront(x: Row, t: seq<Row>, p: Row -> bool)
    requires p(x) && SortedByKey(t) && |t| > 0 && KeyLe(x, t[0])
    ensures Filter(Insert(x, t), p) == Insert(x, Filter(t, p))
  {
    var u := Filter(t, p);
    FilterConcat([x], t, p);
    if |u| > 0 {
      assert u[0] in t;
      var k :| 0 <= k < |t| && t[k] == u[0];
      if k > 0 {
        KeyLeTransitive(x, t[0], t[k]);
      }
    }
  }

  lemma InsertKeptBehind(x: Row, t: seq<Row>, p: Row -> bool)
    requires p(x) && |t| > 0 && !KeyLe(x, t[0])
    requires Filter(Insert(x, t[1..]), p) == Insert(x, Filter(t[1..], p))
    ensures Filter(Insert(x, t), p) == Insert(x, Filter(t, p))
  {
    var u' := Filter(t[1..], p);
    assert Insert(x, t) == [t[0]] + Insert(x, t[1..]);
    FilterCons(t[0], Insert(x, t[1..]), p);
    if p(t[0]) {
      FilterKeepsHead(t, p);
      InsertBehind(x, t[0], u');
    } else {
      FilterDropsHead(t, p);
    }
  }

  lemma InsertBehind(x: Row, y: Row, s: seq<Row>)
    requires !KeyLe(x, y)
    ensures Insert(x, [y] + s) == [y] + Insert(x, s)
  {
    assert ([y] + s)[1..] == s;
  }

  /** Stability: the sort leaves every already-sorted subsequence picked
      out by a mask in its original relative order. */
  lemma {:induction false} SortKeepsSortedFilter(s: seq<Row>, p: Row -> bool)
    requires SortedByKey(Filter(s, p))
    ensures Filter(SortByKey(s), p) == Filter(s, p)
    decreases |s|
  {
    if |s| > 0 {
      var s' := s[1..];
      if p(s[0]) {
        SortedTail(Filter(s, p));
        SortKeepsSortedFilter(s', p);
        InsertKept(s[0], SortByKey(s'), p);
        var u := Filter(s', p);
        assert Filter(s, p) == [s[0]] + u;
        assert |u| == 0 || KeyLe(s[0], u[0]);
      } else {
        SortKeepsSortedFilter(s', p);
        InsertSkipped(s[0], SortByKey(s'), p);
      }
    }
  }

  /** Sorting by key leaves no freedom beyond the order within each group:
      two key-sorted sequences whose rows of every group agree are equal. */
  lemma {:induction false} SortedEqual(s: seq<Row>, t: seq<Row>)
    requires SortedByKey(s) && SortedByKey(t)
    requires forall g :: Filter(s, InGroup(g)) == Filter(t, InGroup(g))
    ensures s == t
    decreases |s| + |t|
  {
    if |s| == 0 && |t| > 0 {
      FilterHead(t, InGroup(t[0].rec.group));
    } else if |t| == 0 && |s| > 0 {
      FilterHead(s, InGroup(s[0].rec.group));
    } else if |s| > 0 {
      var a, b := s[0], t[0];
      SameHead(s, t, Filter(s, InGroup(a.rec.group)), Filter(s, InGroup(b.rec.group)));
      forall h ensures Filter(s[1..], InGroup(h)) == Filter(t[1..], InGroup(h)) {
        FilterTails(s, t, InGroup(h), Filter(s, InGroup(h)));
      }
      SortedTail(s);
      SortedTail(t);
      SortedEqual(s[1..], t[1..]);
      assert s == [s[0]] + s[1..] && t == [t[0]] + t[1..];
    }
  }

  /** The first row of `s` that passes `p` is its head, when the head passes. */
  lemma FilterHead<T>(s: seq<T>, p: T -> bool)
    requires |s| > 0 && p(s[0])
    ensures |Filter(s, p)| > 0 && Filter(s, p)[0] == s[0]
    ensures Filter(s, p)[1..] == Filter(s[1..], p)
  {
  }

  /** Two key-sorted sequences with the same rows in the groups of their
      heads start with the same row. */
  lemma SameHead(s: seq<Row>, t: seq<Row>, fa: seq<Row>, fb: seq<Row>)
    requires SortedByKey(s) && SortedByKey(t) && |s| > 0 && |t| > 0
    requires fa == Filter(s, InGroup(s[0].rec.group)) == Filter(t, InGroup(s[0].rec.group))
    requires fb == Filter(s, InGroup(t[0].rec.group)) == Filter(t, InGroup(t[0].rec.group))
    ensures s[0] == t[0]
  {
    var a, b := s[0], t[0];
    var g := a.rec.group;
    if b.rec.group != g {
      HeadGroupLeast(s, t, b);
      HeadGroupLeast(t, s, a);
      StrLtAsymmetric(g, b.rec.group);
    } else {
      FilterHead(s, InGroup(g));
      FilterHead(t, InGroup(g));
    }
  }

  /** Equal filters of two sequences with the same head stay equal without the head. */
  lemma FilterTails<T>(s: seq<T>, t: seq<T>, p: T -> bool, f: seq<T>)
    requires |s| > 0 && |t| > 0 && s[0] == t[0]
    requires f == Filter(s, p) == Filter(t, p)
    ensures Filter(s[1..], p) == Filter(t[1..], p)
  {
    if p(s[0]) {
      FilterHead(s, p);
      FilterHead(t, p);
    }
  }

  /** The head of a key-sorted sequence has a group no later than that of
      the head of the other sequence, when the two differ in group and that
      row's group has the same rows in both. */
  lemma HeadGroupLeast(s: seq<Row>, t: seq<Row>, y: Row)
    requires SortedByKey(s) && |s| > 0 && |t| > 0 && y == t[0]
    requires Filter(t, InGroup(y.rec.group)) == Filter(s, InGroup(y.rec.group))
    requires y.rec.group != s[0].rec.group
    ensures StrLt(s[0].rec.group, y.rec.group)
  {
    FilterHead(t, InGroup(y.rec.group));
    var k :| 0 <= k < |s| && s[k] == y;
    assert KeyLe(s[0], s[k]);
  }
}
