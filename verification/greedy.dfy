/** The per-group picking steps: the Change pick, the greedy scans that claim
    contact reasons one row at a time, and the fallback fill. */
module Greedy {
  import opened Seqs
  import opened Tickets
  import opened Sampling
  import opened Ordering

  /** Position of the first row whose reason is not in `claimed`, if any. */
  function FirstUnclaimed(rows: seq<Row>, claimed: set<string>): (o: Option<nat>)
    ensures o.Some? ==> o.value < |rows| && rows[o.value].rec.reason !in claimed
    ensures o.Some? ==> forall j :: 0 <= j < o.value ==> rows[j].rec.reason in claimed
    ensures o.None? ==> forall j :: 0 <= j < |rows| ==> rows[j].rec.reason in claimed
    decreases |rows|
  {
    if |rows| == 0 then None
    else if rows[0].rec.reason !in claimed then Some(0)
    else match FirstUnclaimed(rows[1..], claimed)
      case None => None
      case Some(i) => Some(i + 1)
  }

  /** The Change row: the first one with an unclaimed reason, or else the
      first one outright. */
  function ChangePick(change: seq<Row>, claimed: set<string>): (c: Row)
    requires |change| >= 1
    ensures c in change
    ensures c.rec.reason !in claimed || (c == change[0] && ReasonsOf(change) <= claimed)
    ensures c.rec.reason !in claimed ==>
              exists i :: 0 <= i < |change| && change[i] == c &&
                forall j :: 0 <= j < i ==> change[j].rec.reason in claimed
  {
    match FirstUnclaimed(change, claimed)
    case Some(i) => change[i]
    case None => change[0]
  }

  /** With nothing claimed yet, as when a group's scan starts, the Change
      pick is simply the group's first eligible Change row; the
      "no unique reason" fallback is never taken. */
  lemma ChangePickIsFirst(change: seq<Row>)
    requires |change| >= 1
    ensures ChangePick(change, {}) == change[0]
    ensures FirstUnclaimed(change, {}) == Some(0)
  {
  }

  /** Rows in `added` have pairwise different reasons, none already in `claimed`. */
  predicate Fresh(added: seq<Row>, claimed: set<string>) {
    ReasonsDistinct(added) && ReasonsOf(added) !! claimed
  }

  /** No row before `x` in `cands` carries the reason of `x`. */
  predicate EarliestOfReason(cands: seq<Row>, x: Row)
    requires x in cands
  {
    forall j :: 0 <= j < IndexOf(cands, x) ==> cands[j].rec.reason != x.rec.reason
  }

  /** The rows of `r` appear in `cands` in the same order. */
  predicate InOrderOf(r: seq<Row>, cands: seq<Row>)
    requires forall x :: x in r ==> x in cands
  {
    forall i, j :: 0 <= i < j < |r| ==> IndexOf(cands, r[i]) < IndexOf(cands, r[j])
  }

  /** Reference scan without a cap: each row whose reason is unclaimed and
      not seen earlier in `cands`, in order. */
  function FirstOfEachReason(cands: seq<Row>, claimed: set<string>): (r: seq<Row>)
    ensures forall x :: x in r ==> x in cands
    ensures Fresh(r, claimed)
    ensures ReasonsOf(r) == ReasonsOf(cands) - claimed
    decreases |cands|
  {
    if |cands| == 0 then []
    else
      var x := cands[0];
      if x.rec.reason !in claimed then
        var rest := FirstOfEachReason(cands[1..], claimed + {x.rec.reason});
        FirstOfEachTakes(cands, claimed, rest);
        [x] + rest
      else
        var rest := FirstOfEachReason(cands[1..], claimed);
        ReasonsOfCons(cands);
        rest
  }

  /** Which rows the reference scan keeps, and in what order: exactly the
      rows with an unclaimed reason that no earlier candidate carries, in
      the order of `cands`. */
  lemma {:induction false} FirstOfEachReasonPicks(cands: seq<Row>, claimed: set<string>)
    ensures forall x :: x in FirstOfEachReason(cands, claimed) <==>
      x in cands && x.rec.reason !in claimed && EarliestOfReason(cands, x)
    ensures InOrderOf(FirstOfEachReason(cands, claimed), cands)
    decreases |cands|
  {
    if |cands| > 0 {
      var h := cands[0];
      if h.rec.reason !in claimed {
        var rest := FirstOfEachReason(cands[1..], claimed + {h.rec.reason});
        FirstOfEachReasonPicks(cands[1..], claimed + {h.rec.reason});
        assert FirstOfEachReason(cands, claimed) == [h] + rest;
        FirstOfEachKeepsHead(cands, claimed, rest);
      } else {
        var rest := FirstOfEachReason(cands[1..], claimed);
        FirstOfEachReasonPicks(cands[1..], claimed);
        assert FirstOfEachReason(cands, claimed) == rest;
        FirstOfEachSkipsHead(cands, claimed, rest);
      }
    }
  }

  /** Order and first occurrence carry over when the head row is kept. */
  lemma FirstOfEachKeepsHead(cands: seq<Row>, claimed: set<string>, rest: seq<Row>)
    requires |cands| > 0 && cands[0].rec.reason !in claimed
    requires forall x :: x in rest ==> x in cands[1..]
    requires Fresh(rest, claimed + {cands[0].rec.reason})
    requires forall x :: x in rest <==>
      x in cands[1..] && x.rec.reason !in claimed + {cands[0].rec.reason} && EarliestOfReason(cands[1..], x)
    requires InOrderOf(rest, cands[1..])
    ensures forall x :: x in [cands[0]] + rest ==> x in cands
    ensures forall x :: x in [cands[0]] + rest <==> x in cands && x.rec.reason !in claimed && EarliestOfReason(cands, x)
    ensures InOrderOf([cands[0]] + rest, cands)
  {
    var r := [cands[0]] + rest;
    assert r[0] == cands[0] && r[1..] == rest;
    TakenRowsFromCands(cands, r);
    forall x | x in rest ensures x != cands[0] && IndexOf(cands, x) == 1 + IndexOf(cands[1..], x) {
      assert x.rec.reason in ReasonsOf(rest);
      IndexOfTail(cands, x);
    }
    KeptHeadMembers(cands, claimed, rest);
    KeptHeadOrder(cands, rest);
  }

  lemma KeptHeadMembers(cands: seq<Row>, claimed: set<string>, rest: seq<Row>)
    requires |cands| > 0 && cands[0].rec.reason !in claimed
    requires forall x :: x in rest ==> x in cands[1..]
    requires forall x :: x in rest ==> x != cands[0] && x in cands && IndexOf(cands, x) == 1 + IndexOf(cands[1..], x)
    requires forall x :: x in rest <==>
      x in cands[1..] && x.rec.reason !in claimed + {cands[0].rec.reason} && EarliestOfReason(cands[1..], x)
    ensures forall x :: x in [cands[0]] + rest <==> x in cands && x.rec.reason !in claimed && EarliestOfReason(cands, x)
  {
    forall x ensures x in [cands[0]] + rest <==> x in cands && x.rec.reason !in claimed && EarliestOfReason(cands, x) {
      KeptHeadMember(cands, claimed, rest, x);
    }
  }

  lemma KeptHeadMember(cands: seq<Row>, claimed: set<string>, rest: seq<Row>, x: Row)
    requires |cands| > 0 && cands[0].rec.reason !in claimed
    requires x in rest ==> x != cands[0] && x in cands && IndexOf(cands, x) == 1 + IndexOf(cands[1..], x)
    requires x in rest <==>
      x in cands[1..] && x.rec.reason !in claimed + {cands[0].rec.reason} && EarliestOfReason(cands[1..], x)
    ensures x in [cands[0]] + rest <==> x in cands && x.rec.reason !in claimed && EarliestOfReason(cands, x)
  {
    var h, t := cands[0], cands[1..];
    if x != h && x in cands && x.rec.reason !in claimed && EarliestOfReason(cands, x) {
      IndexOfTail(cands, x);
      assert cands[0].rec.reason != x.rec.reason;
      forall j | 0 <= j < IndexOf(t, x) ensures t[j].rec.reason != x.rec.reason {
        assert t[j] == cands[j + 1];
      }
    }
    if x in rest {
      forall j | 0 <= j < IndexOf(cands, x) ensures cands[j].rec.reason != x.rec.reason {
        if j > 0 {
          assert cands[j] == t[j - 1];
        }
      }
    }
  }

  lemma KeptHeadOrder(cands: seq<Row>, rest: seq<Row>)
    requires |cands| > 0
    requires forall x :: x in rest ==> x in cands[1..]
    requires forall x :: x in rest ==> x in cands && IndexOf(cands, x) == 1 + IndexOf(cands[1..], x)
    requires InOrderOf(rest, cands[1..])
    ensures forall x :: x in [cands[0]] + rest ==> x in cands
    ensures InOrderOf([cands[0]] + rest, cands)
  {
    var r := [cands[0]] + rest;
    forall x | x in r ensures x in cands {
      if x != cands[0] {
        assert x in rest;
      }
    }
    forall i, j | 0 <= i < j < |r| ensures IndexOf(cands, r[i]) < IndexOf(cands, r[j]) {
      KeptHeadPair(cands, rest, i, j);
    }
  }

  lemma KeptHeadPair(cands: seq<Row>, rest: seq<Row>, i: nat, j: nat)
    requires |cands| > 0 && i < j <= |rest|
    requires forall x :: x in rest ==> x in cands[1..] && x in cands && IndexOf(cands, x) == 1 + IndexOf(cands[1..], x)
    requires i > 0 ==> IndexOf(cands[1..], rest[i - 1]) < IndexOf(cands[1..], rest[j - 1])
    ensures ([cands[0]] + rest)[j] in cands
    ensures IndexOf(cands, ([cands[0]] + rest)[i]) < IndexOf(cands, ([cands[0]] + rest)[j])
  {
    var r := [cands[0]] + rest;
    assert r[j] == rest[j - 1] && r[j] in rest;
    if i > 0 {
      assert r[i] == rest[i - 1] && r[i] in rest;
    }
  }

  /** Order and first occurrence carry over when the head row is skipped. */
  lemma FirstOfEachSkipsHead(cands: seq<Row>, claimed: set<string>, rest: seq<Row>)
    requires |cands| > 0 && cands[0].rec.reason in claimed
    requires forall x :: x in rest ==> x in cands[1..]
    requires forall x :: x in rest <==>
      x in cands[1..] && x.rec.reason !in claimed && EarliestOfReason(cands[1..], x)
    requires InOrderOf(rest, cands[1..])
    ensures forall x :: x in rest ==> x in cands
    ensures forall x :: x in rest <==> x in cands && x.rec.reason !in claimed && EarliestOfReason(cands, x)
    ensures InOrderOf(rest, cands)
  {
    var h, t := cands[0], cands[1..];
    forall x | x in cands && x.rec.reason !in claimed ensures x in t && IndexOf(cands, x) == 1 + IndexOf(t, x) {
      IndexOfTail(cands, x);
    }
    forall x ensures x in rest <==> x in cands && x.rec.reason !in claimed && EarliestOfReason(cands, x) {
      if x in cands && x.rec.reason !in claimed {
        forall j | 0 <= j < IndexOf(t, x) ensures t[j] == cands[j + 1] {
        }
        forall j | 0 < j < IndexOf(cands, x) ensures cands[j] == t[j - 1] {
        }
      }
    }
  }

  lemma FirstOfEachTakes(cands: seq<Row>, claimed: set<string>, rest: seq<Row>)
    requires |cands| > 0 && cands[0].rec.reason !in claimed
    requires forall x :: x in rest ==> x in cands[1..]
    requires Fresh(rest, claimed + {cands[0].rec.reason})
    requires ReasonsOf(rest) == ReasonsOf(cands[1..]) - (claimed + {cands[0].rec.reason})
    ensures forall x :: x in [cands[0]] + rest ==> x in cands
    ensures Fresh([cands[0]] + rest, claimed)
    ensures ReasonsOf([cands[0]] + rest) == ReasonsOf(cands) - claimed
  {
    var x := cands[0];
    var r := [x] + rest;
    assert r[0] == cands[0] && r[1..] == rest;
    assert forall y :: y in r ==> y in cands by {
      TakenRowsFromCands(cands, r);
    }
    assert Fresh(r, claimed) && ReasonsOf(r) == {x.rec.reason} + ReasonsOf(rest) by {
      FreshCons(x, rest, claimed);
    }
    assert ReasonsOf(r) == ReasonsOf(cands) - claimed by {
      ReasonsOfCons(cands);
    }
  }

  /** One greedy scan over `cands` in order with `room` places left: a row is
      added when its reason is unclaimed and a place is left; its reason is
      then claimed and one place fewer is left. */
  function Claim(cands: seq<Row>, claimed: set<string>, room: nat): (added: seq<Row>)
    ensures |added| <= room
    ensures forall x :: x in added ==> x in cands
    ensures Fresh(added, claimed)
    ensures |added| < room ==> ReasonsOf(cands) <= claimed + ReasonsOf(added)
    ensures added == Take(FirstOfEachReason(cands, claimed), room)
    decreases |cands|
  {
    if |cands| == 0 then []
    else
      var x := cands[0];
      if x.rec.reason !in claimed && room > 0 then
        var rest := Claim(cands[1..], claimed + {x.rec.reason}, room - 1);
        ClaimTakes(cands, claimed, room, rest);
        CappedTakes(cands, claimed, room, rest);
        [x] + rest
      else
        var rest := Claim(cands[1..], claimed, room);
        ReasonsOfCons(cands);
        CappedSkips(cands, claimed, room, rest);
        rest
  }

  /** The capped pass keeps, in table order, rows that are each the first
      candidate carrying their (unclaimed) reason. */
  lemma ClaimPicks(cands: seq<Row>, claimed: set<string>, room: nat)
    ensures forall x :: x in Claim(cands, claimed, room) ==>
      x in cands && x.rec.reason !in claimed && EarliestOfReason(cands, x)
    ensures InOrderOf(Claim(cands, claimed, room), cands)
  {
    FirstOfEachReasonPicks(cands, claimed);
    PrefixPicks(cands, claimed, FirstOfEachReason(cands, claimed), Claim(cands, claimed, room));
  }

  lemma PrefixPicks(cands: seq<Row>, claimed: set<string>, f: seq<Row>, a: seq<Row>)
    requires |a| <= |f| && a == f[..|a|]
    requires forall x :: x in f ==> x in cands && x.rec.reason !in claimed && EarliestOfReason(cands, x)
    requires InOrderOf(f, cands)
    ensures forall x :: x in a ==> x in cands && x.rec.reason !in claimed && EarliestOfReason(cands, x)
    ensures InOrderOf(a, cands)
  {
    forall x | x in a ensures x in f {
      var k :| 0 <= k < |a| && a[k] == x;
      assert f[k] == x;
    }
    forall i, j | 0 <= i < j < |a| ensures IndexOf(cands, a[i]) < IndexOf(cands, a[j]) {
      assert a[i] == f[i] && a[j] == f[j];
    }
  }

  lemma CappedTakes(cands: seq<Row>, claimed: set<string>, room: nat, rest: seq<Row>)
    requires |cands| > 0 && cands[0].rec.reason !in claimed && room > 0
    requires rest == Take(FirstOfEachReason(cands[1..], claimed + {cands[0].rec.reason}), room - 1)
    ensures [cands[0]] + rest == Take(FirstOfEachReason(cands, claimed), room)
  {
    var later := FirstOfEachReason(cands[1..], claimed + {cands[0].rec.reason});
    assert FirstOfEachReason(cands, claimed) == [cands[0]] + later;
    assert Take([cands[0]] + later, room) == [cands[0]] + Take(later, room - 1) by {
      TakeCons(cands[0], later, room);
    }
  }

  lemma TakeCons(x: Row, rest: seq<Row>, n: nat)
    requires n > 0
    ensures Take([x] + rest, n) == [x] + Take(rest, n - 1)
  {
  }

  lemma CappedSkips(cands: seq<Row>, claimed: set<string>, room: nat, rest: seq<Row>)
    requires |cands| > 0 && (cands[0].rec.reason in claimed || room == 0)
    requires rest == Take(FirstOfEachReason(cands[1..], claimed), room)
    ensures rest == Take(FirstOfEachReason(cands, claimed), room)
  {
    if cands[0].rec.reason in claimed {
      assert FirstOfEachReason(cands, claimed) == FirstOfEachReason(cands[1..], claimed);
    }
  }

  lemma ClaimTakes(cands: seq<Row>, claimed: set<string>, room: nat, rest: seq<Row>)
    requires |cands| > 0 && cands[0].rec.reason !in claimed && room > 0
    requires |rest| <= room - 1
    requires forall x :: x in rest ==> x in cands[1..]
    requires Fresh(rest, claimed + {cands[0].rec.reason})
    requires |rest| < room - 1 ==> ReasonsOf(cands[1..]) <= claimed + {cands[0].rec.reason} + ReasonsOf(rest)
    ensures forall x :: x in [cands[0]] + rest ==> x in cands
    ensures Fresh([cands[0]] + rest, claimed)
    ensures |[cands[0]] + rest| < room ==> ReasonsOf(cands) <= claimed + ReasonsOf([cands[0]] + rest)
  {
    var x := cands[0];
    var added := [x] + rest;
    assert added[0] == x && added[1..] == rest;
    assert forall y :: y in added ==> y in cands by {
      TakenRowsFromCands(cands, added);
    }
    assert Fresh(added, claimed) && ReasonsOf(added) == {x.rec.reason} + ReasonsOf(rest) by {
      FreshCons(x, rest, claimed);
    }
    assert ReasonsOf(cands) == {x.rec.reason} + ReasonsOf(cands[1..]) by {
      ReasonsOfCons(cands);
    }
  }

  lemma TakenRowsFromCands(cands: seq<Row>, added: seq<Row>)
    requires |cands| > 0 && |added| > 0 && added[0] == cands[0]
    requires forall y :: y in added[1..] ==> y in cands[1..]
    ensures forall y :: y in added ==> y in cands
  {
    forall y | y in added ensures y in cands {
      var i :| 0 <= i < |added| && added[i] == y;
      if i > 0 {
        assert added[1..][i - 1] == y;
        assert y in added[1..];
        assert y in cands[1..];
        var k :| 0 <= k < |cands[1..]| && cands[1..][k] == y;
        assert cands[k + 1] == y;
      }
    }
  }

  lemma FreshCons(x: Row, later: seq<Row>, claimed: set<string>)
    requires x.rec.reason !in claimed
    requires Fresh(later, claimed + {x.rec.reason})
    ensures Fresh([x] + later, claimed)
    ensures ReasonsOf([x] + later) == {x.rec.reason} + ReasonsOf(later)
  {
    var s := [x] + later;
    assert s[0] == x && s[1..] == later;
    ReasonsOfCons(s);
  }

  /** Both greedy scans over a group's non-Change rows, starting from the
      Change row's reason `r` as the only claimed one: first over the plain
      (non-special) rows, then over the special ones with the room left. */
  function ScanOthers(other: seq<Row>, r: string): (held: seq<Row>)
    ensures |held| <= Quota
    ensures forall x :: x in held ==> x in other
    ensures Fresh(held, {r})
    ensures |held| < Quota ==> ReasonsOf(other) <= {r} + ReasonsOf(held)
    ensures SpecialLastOrder(held)
  {
    var plain := Filter(other, IsPlainRow);
    var special := Filter(other, IsSpecialRow);
    var a1 := Claim(plain, {r}, Quota);
    var a2 := Claim(special, {r} + ReasonsOf(a1), Quota - |a1|);
    ScanOthersFacts(other, r, a1, a2);
    a1 + a2
  }

  lemma ScanOthersFacts(other: seq<Row>, r: string, a1: seq<Row>, a2: seq<Row>)
    requires |a1| <= Quota && |a2| <= Quota - |a1|
    requires forall x :: x in a1 ==> x in Filter(other, IsPlainRow)
    requires Fresh(a1, {r})
    requires |a1| < Quota ==> ReasonsOf(Filter(other, IsPlainRow)) <= {r} + ReasonsOf(a1)
    requires forall x :: x in a2 ==> x in Filter(other, IsSpecialRow)
    requires Fresh(a2, {r} + ReasonsOf(a1))
    requires |a2| < Quota - |a1| ==> ReasonsOf(Filter(other, IsSpecialRow)) <= {r} + ReasonsOf(a1) + ReasonsOf(a2)
    ensures forall x :: x in a1 + a2 ==> x in other
    ensures Fresh(a1 + a2, {r})
    ensures |a1 + a2| < Quota ==> ReasonsOf(other) <= {r} + ReasonsOf(a1 + a2)
    ensures SpecialLastOrder(a1 + a2)
  {
    FilterMembers(other, IsPlainRow, a1);
    FilterMembers(other, IsSpecialRow, a2);
    assert Fresh(a1 + a2, {r}) && ReasonsOf(a1 + a2) == ReasonsOf(a1) + ReasonsOf(a2) by {
      FreshConcat(a1, a2, {r});
    }
    assert |a1 + a2| < Quota ==> ReasonsOf(other) <= {r} + ReasonsOf(a1 + a2) by {
      PlainSpecialCover(other);
    }
    PartsConcat(a1, a2);
  }

  /** With at least `Quota` reasons in `other` besides `r`, the two scans
      reach the quota. */
  lemma ScanReachesQuota(other: seq<Row>, r: string)
    requires |ReasonsOf(other) - {r}| >= Quota
    ensures |ScanOthers(other, r)| == Quota
  {
    var held := ScanOthers(other, r);
    if |held| < Quota {
      assert ReasonsOf(other) - {r} <= ReasonsOf(held);
      SubsetCard(ReasonsOf(other) - {r}, ReasonsOf(held));
      ReasonsOfBound(held);
    }
  }

  /** Special rows are claimed only once the plain rows have nothing left
      to offer: if the scans hold a special row, every reason among the plain
      rows is already held or is the Change row's. */
  lemma ScanPlainFirst(other: seq<Row>, r: string)
    ensures (exists x :: x in ScanOthers(other, r) && IsSpecialRow(x)) ==>
      ReasonsOf(Filter(other, IsPlainRow)) <= {r} + ReasonsOf(ScanOthers(other, r))
  {
    var plain := Filter(other, IsPlainRow);
    var special := Filter(other, IsSpecialRow);
    var a1 := Claim(plain, {r}, Quota);
    var a2 := Claim(special, {r} + ReasonsOf(a1), Quota - |a1|);
    PlainFirstFacts(other, r, a1, a2);
  }

  lemma PlainFirstFacts(other: seq<Row>, r: string, a1: seq<Row>, a2: seq<Row>)
    requires |a1| <= Quota && |a2| <= Quota - |a1|
    requires forall x :: x in a1 ==> x in Filter(other, IsPlainRow)
    requires |a1| < Quota ==> ReasonsOf(Filter(other, IsPlainRow)) <= {r} + ReasonsOf(a1)
    ensures (exists x :: x in a1 + a2 && IsSpecialRow(x)) ==>
      ReasonsOf(Filter(other, IsPlainRow)) <= {r} + ReasonsOf(a1 + a2)
  {
    FilterMembers(other, IsPlainRow, a1);
    ReasonsOfConcat(a1, a2);
    if x :| x in a1 + a2 && IsSpecialRow(x) {
      assert x in a2;
    }
  }

  /** Rows of a masked sequence come from the sequence and pass the mask. */
  lemma FilterMembers(s: seq<Row>, p: Row -> bool, a: seq<Row>)
    requires forall x :: x in a ==> x in Filter(s, p)
    ensures forall x :: x in a ==> x in s && p(x)
  {
    var f := Filter(s, p);
    forall x | x in a ensures x in s && p(x) {
      var k :| 0 <= k < |f| && f[k] == x;
    }
  }

  /** Every reason of `other` is a reason of its plain rows or of its special rows. */
  lemma PlainSpecialCover(other: seq<Row>)
    ensures ReasonsOf(other) <= ReasonsOf(Filter(other, IsPlainRow)) + ReasonsOf(Filter(other, IsSpecialRow))
  {
    forall x | x in other
      ensures x.rec.reason in ReasonsOf(Filter(other, IsPlainRow)) + ReasonsOf(Filter(other, IsSpecialRow))
    {
      var k :| 0 <= k < |other| && other[k] == x;
      if IsPlainRow(x) {
        assert x in Filter(other, IsPlainRow);
      } else {
        assert x in Filter(other, IsSpecialRow);
      }
    }
  }

  lemma FreshConcat(a: seq<Row>, b: seq<Row>, claimed: set<string>)
    requires Fresh(a, claimed)
    requires Fresh(b, claimed + ReasonsOf(a))
    ensures Fresh(a + b, claimed)
    ensures ReasonsOf(a + b) == ReasonsOf(a) + ReasonsOf(b)
  {
    ReasonsOfConcat(a, b);
  }

  /** Label set of the rows in `held`. */
  function Labels(held: seq<Row>): set<nat> {
    set x | x in held :: x.index
  }

  function NotHeld(held: seq<Row>): Row -> bool {
    (x: Row) => x.index !in Labels(held)
  }

  function IsHeld(held: seq<Row>): Row -> bool {
    (x: Row) => x.index in Labels(held)
  }

  /** The rows of `non` whose label is not among the held rows' labels. */
  function Unselected(non: seq<Row>, held: seq<Row>): (r: seq<Row>)
    requires forall x :: x in held ==> x in non
    requires Distinct(non) && Distinct(held) && LabelsIdentify(non)
    ensures Distinct(r)
    ensures forall x :: x in r <==> x in non && x !in held
    ensures |r| == |non| - |held|
  {
    var r := Filter(non, NotHeld(held));
    var h := Filter(non, IsHeld(held));
    FilterDistinct(non, NotHeld(held));
    FilterDistinct(non, IsHeld(held));
    FilterSplit(non, IsHeld(held), NotHeld(held));
    assert forall x :: x in h <==> x in held by {
      forall x ensures x in h <==> x in held {
        if x in h {
          var k :| 0 <= k < |h| && h[k] == x;
          var y :| y in held && y.index == x.index;
        }
        if x in held {
          var k :| 0 <= k < |non| && non[k] == x;
        }
      }
    }
    DistinctIntoNoLonger(h, held);
    DistinctIntoNoLonger(held, h);
    assert forall x :: x in r <==> x in non && x !in held by {
      forall x ensures x in r <==> x in non && x !in held {
        if x in r {
          var k :| 0 <= k < |r| && r[k] == x;
        }
        if x in non && x !in held {
          var k :| 0 <= k < |non| && non[k] == x;
          assert forall y :: y in held ==> y.index != x.index;
          assert NotHeld(held)(x);
        }
      }
    }
    r
  }

  /** Tops the held rows up to `Quota` with rows drawn at random from the
      unselected rest of `non`, when fewer than `Quota` are held and `non`
      has at least `Quota` rows. */
  function Fill(non: seq<Row>, held: seq<Row>, draws: seq<nat>): (r: seq<Row>)
    requires |held| <= Quota
    requires forall x :: x in held ==> x in non
    requires Distinct(non) && Distinct(held) && LabelsIdentify(non)
    ensures |non| >= Quota ==> |r| == Quota
    ensures |held| == Quota ==> r == held
    ensures |held| <= |r| && r[..|held|] == held
    ensures forall x :: x in r[|held|..] ==> x in non && x !in held
    ensures Distinct(r)
  {
    if |held| < Quota && |non| >= Quota then
      var rest := Unselected(non, held);
      var extra := Sample(rest, Min(Quota - |held|, |non| - |held|), draws);
      assert (held + extra)[|held|..] == extra;
      assert (held + extra)[..|held|] == held;
      DistinctConcat(held, extra);
      held + extra
    else
      assert held[|held|..] == [];
      held
  }
}
