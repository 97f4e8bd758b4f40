/** The selection itself: per assignment group, one Change row and five other
    rows with distinct contact reasons where possible, special rows last; then
    all groups' blocks together, sorted by group. */
module Selector {
  import opened Seqs
  import opened Tickets
  import opened Ordering
  import opened Greedy

  /** The rows of group `g` that are closed, came from the web and took more
      than two iterations. */
  function Candidates(table: seq<Record>, g: string): seq<Row> {
    Filter(Rows(table), CandidateOf(g))
  }

  function ChangeRows(s: seq<Row>): seq<Row> {
    Filter(s, IsChangeRow)
  }

  function OtherRows(s: seq<Row>): seq<Row> {
    Filter(s, IsOtherRow)
  }

  /** A group takes part when it has at least one eligible Change row and at
      least `Quota` eligible other rows. */
  predicate Qualifies(table: seq<Record>, g: string) {
    |ChangeRows(Candidates(table, g))| >= 1 && |OtherRows(Candidates(table, g))| >= Quota
  }

  /** Besides the reason of the group's Change row, its other candidates
      carry at least five different contact reasons. */
  predicate EnoughReasons(table: seq<Record>, g: string)
    requires |ChangeRows(Candidates(table, g))| >= 1
  {
    |ReasonsOf(OtherRows(Candidates(table, g))) - {ChangeRows(Candidates(table, g))[0].rec.reason}| >= Quota
  }

  /** The candidate lists are duplicate-free and their labels identify rows. */
  lemma CandidateFacts(table: seq<Record>, g: string)
    ensures Distinct(ChangeRows(Candidates(table, g)))
    ensures Distinct(OtherRows(Candidates(table, g)))
    ensures LabelsIdentify(OtherRows(Candidates(table, g)))
    ensures forall x :: x in ChangeRows(Candidates(table, g)) ==> x in Candidates(table, g) && IsChangeRow(x)
    ensures forall x :: x in OtherRows(Candidates(table, g)) ==> x in Candidates(table, g) && IsOtherRow(x)
    ensures forall x :: x in Candidates(table, g) ==> FromTable(x, table) && x.rec.group == g && Eligible(x.rec)
  {
    var rows := Rows(table);
    var cands := Candidates(table, g);
    RowsFromTable(table);
    FilterDistinct(rows, CandidateOf(g));
    FilterDistinct(cands, IsChangeRow);
    FilterDistinct(cands, IsOtherRow);
    FilterMembers(rows, CandidateOf(g), cands);
    FilterMembers(cands, IsChangeRow, ChangeRows(cands));
    FilterMembers(cands, IsOtherRow, OtherRows(cands));
    LabelsIdentifyWithin(OtherRows(cands), rows);
  }

  /** One group's sample before reordering: its Change pick followed by its
      other rows (the greedy picks, then any drawn at random), or `None` when
      the group is skipped. */
  function GroupSample(table: seq<Record>, g: string, draws: seq<nat>): (o: Option<seq<Row>>)
    ensures o.Some? <==> Qualifies(table, g)
    ensures o.Some? ==> |o.value| == 1 + Quota
    ensures o.Some? ==> o.value[0] == ChangeRows(Candidates(table, g))[0]
    ensures o.Some? ==> forall i :: 1 <= i < |o.value| ==> o.value[i] in OtherRows(Candidates(table, g))
    ensures o.Some? ==> Distinct(o.value)
  {
    var cands := Candidates(table, g);
    var change := ChangeRows(cands);
    var other := OtherRows(cands);
    if |change| < 1 || |other| < Quota then None
    else
      var c := ChangePick(change, {});
      var held := ScanOthers(other, c.rec.reason);
      CandidateFacts(table, g);
      ReasonsDistinctRows(held);
      var picked := Fill(other, held, draws);
      if |picked| > 0 then
        SampleFacts(table, g, c, picked);
        Some([c] + picked)
      else None
  }

  lemma SampleFacts(table: seq<Record>, g: string, c: Row, picked: seq<Row>)
    requires |ChangeRows(Candidates(table, g))| >= 1
    requires c == ChangePick(ChangeRows(Candidates(table, g)), {})
    requires |picked| == Quota && Distinct(picked)
    requires forall x :: x in picked ==> x in OtherRows(Candidates(table, g))
    ensures ([c] + picked)[0] == ChangeRows(Candidates(table, g))[0]
    ensures forall i :: 1 <= i < 1 + Quota ==> ([c] + picked)[i] in OtherRows(Candidates(table, g))
    ensures Distinct([c] + picked)
  {
    var s := [c] + picked;
    ChangePickIsFirst(ChangeRows(Candidates(table, g)));
    CandidateFacts(table, g);
    forall i | 1 <= i < 1 + Quota ensures s[i] in OtherRows(Candidates(table, g)) {
      assert s[i] == picked[i - 1];
    }
    assert c !in picked by {
      assert IsChangeRow(c);
      forall x | x in picked ensures x != c {
        assert IsOtherRow(x);
      }
    }
    DistinctConcat([c], picked);
  }

  /** The rows one group contributes, special rows moved after the others,
      or `None` when the group is skipped. */
  function GroupBlock(table: seq<Record>, g: string, draws: seq<nat>): (o: Option<seq<Row>>)
    ensures o.Some? <==> Qualifies(table, g)
  {
    match GroupSample(table, g, draws)
    case None => None
    case Some(s) => Some(SpecialLast(s))
  }

  /** A qualifying group's block: six distinct eligible rows of that group,
      taken from the table unchanged. */
  lemma BlockRows(table: seq<Record>, g: string, draws: seq<nat>, b: seq<Row>)
    requires GroupBlock(table, g, draws) == Some(b)
    ensures |b| == 1 + Quota
    ensures Distinct(b)
    ensures forall x :: x in b ==> FromTable(x, table) && x.rec.group == g && Eligible(x.rec)
  {
    var s := GroupSample(table, g, draws).value;
    assert b == SpecialLast(s);
    assert Distinct(b) by {
      DistinctPermutes(s, b);
    }
    assert forall x :: x in s ==> x in Candidates(table, g) by {
      SampleInCandidates(table, g, s);
    }
    assert forall x :: x in b ==> x in s by {
      PermutedMembers(s, b);
    }
    CandidateFacts(table, g);
  }

  /** Every row of a sample shaped as `GroupSample` promises is a candidate. */
  lemma SampleInCandidates(table: seq<Record>, g: string, s: seq<Row>)
    requires |ChangeRows(Candidates(table, g))| >= 1 && |s| == 1 + Quota
    requires s[0] == ChangeRows(Candidates(table, g))[0]
    requires forall i :: 1 <= i < |s| ==> s[i] in OtherRows(Candidates(table, g))
    ensures forall x :: x in s ==> x in Candidates(table, g)
  {
    CandidateFacts(table, g);
    forall x | x in s ensures x in Candidates(table, g) {
      var k :| 0 <= k < |s| && s[k] == x;
      if k == 0 {
        assert x in ChangeRows(Candidates(table, g));
      } else {
        assert x in OtherRows(Candidates(table, g));
      }
    }
  }

  lemma PermutedMembers(s: seq<Row>, t: seq<Row>)
    requires multiset(s) == multiset(t)
    ensures forall x :: x in t ==> x in s
  {
    forall x | x in t ensures x in s {
      assert x in multiset(t);
    }
  }

  /** A qualifying group's block holds exactly one Change row, the group's
      first eligible Change row, and `Quota` other rows. */
  lemma BlockComposition(table: seq<Record>, g: string, draws: seq<nat>, b: seq<Row>)
    requires GroupBlock(table, g, draws) == Some(b)
    ensures ChangeRows(b) == [ChangeRows(Candidates(table, g))[0]]
    ensures |OtherRows(b)| == Quota
  {
    var s := GroupSample(table, g, draws).value;
    var c := s[0];
    var rest := s[1..];
    assert b == SpecialLast(s);
    assert s == [c] + rest;
    CandidateFacts(table, g);
    assert IsChangeRow(c);
    forall x | x in rest ensures IsOtherRow(x) {
      var k :| 0 <= k < |rest| && rest[k] == x;
      assert s[k + 1] == x;
    }
    assert ChangeRows(s) == [c] by {
      FilterConcat([c], rest, IsChangeRow);
      FilterKeepsNone(rest, IsChangeRow);
    }
    assert OtherRows(s) == rest by {
      FilterConcat([c], rest, IsOtherRow);
      FilterKeepsAll(rest, IsOtherRow);
    }
    FilterPermutes(s, b, IsChangeRow);
    FilterPermutes(s, b, IsOtherRow);
    SingletonMultiset(ChangeRows(b), c);
    assert |OtherRows(b)| == |multiset(OtherRows(b))|;
  }

  lemma SingletonMultiset(t: seq<Row>, c: Row)
    requires multiset(t) == multiset{c}
    ensures t == [c]
  {
    assert |t| == |multiset(t)| == 1;
    assert t[0] in multiset(t);
  }

  /** Within a block, rows with the special reason come after all others,
      each part keeping the sample's order; so the Change row leads the block
      unless its own reason is special. */
  lemma BlockOrder(table: seq<Record>, g: string, draws: seq<nat>, b: seq<Row>)
    requires GroupBlock(table, g, draws) == Some(b)
    ensures SpecialLastOrder(b)
    ensures Filter(b, IsPlainRow) == Filter(GroupSample(table, g, draws).value, IsPlainRow)
    ensures Filter(b, IsSpecialRow) == Filter(GroupSample(table, g, draws).value, IsSpecialRow)
    ensures IsPlainRow(ChangeRows(Candidates(table, g))[0]) ==> b[0] == ChangeRows(Candidates(table, g))[0]
  {
    var s := GroupSample(table, g, draws).value;
    assert b == SpecialLast(s);
    if IsPlainRow(s[0]) {
      SpecialLastHead(s);
    }
  }

  /** The block's contact reasons are pairwise different exactly when the
      group's eligible non-Change rows carry at least `Quota` reasons other
      than the Change row's. */
  lemma BlockReasons(table: seq<Record>, g: string, draws: seq<nat>, b: seq<Row>)
    requires GroupBlock(table, g, draws) == Some(b)
    ensures ReasonsDistinct(b) <==> EnoughReasons(table, g)
  {
    var s := GroupSample(table, g, draws).value;
    assert b == SpecialLast(s);
    assert ReasonsOf(b) == ReasonsOf(s) && |b| == |s| by {
      SameMembers(s, b);
    }
    var other := OtherRows(Candidates(table, g));
    var r := ChangeRows(Candidates(table, g))[0].rec.reason;
    if ReasonsDistinct(s) {
      DistinctNeedsEnough(s, other, r);
    }
    if |ReasonsOf(other) - {r}| >= Quota {
      EnoughReasonsNoFill(table, g, draws);
    }
  }

  /** Six rows with pairwise different reasons, the first carrying `r` and
      the rest drawn from `other`, need `Quota` reasons in `other` besides `r`. */
  lemma DistinctNeedsEnough(s: seq<Row>, other: seq<Row>, r: string)
    requires |s| == 1 + Quota && s[0].rec.reason == r
    requires forall i :: 1 <= i < |s| ==> s[i] in other
    requires ReasonsDistinct(s)
    ensures |ReasonsOf(other) - {r}| >= Quota
  {
    var rest := s[1..];
    assert s == [s[0]] + rest;
    ReasonsOfCons(s);
    ReasonsOfBound(rest);
    forall x | x in rest ensures x in other {
      var k :| 0 <= k < |rest| && rest[k] == x;
      assert s[k + 1] == x;
    }
    assert ReasonsOf(rest) <= ReasonsOf(other) - {r};
    SubsetCard(ReasonsOf(rest), ReasonsOf(other) - {r});
  }

  /** Same elements, so the same reasons. */
  lemma SameMembers(s: seq<Row>, t: seq<Row>)
    requires multiset(s) == multiset(t)
    ensures ReasonsOf(s) == ReasonsOf(t)
  {
    assert forall x :: x in s <==> x in multiset(t);
  }

  /** With at least `Quota` reasons besides the Change row's, the greedy scans
      fill the quota on their own: nothing is drawn at random, and the sample
      has pairwise different reasons. */
  lemma EnoughReasonsNoFill(table: seq<Record>, g: string, draws: seq<nat>)
    requires Qualifies(table, g)
    requires EnoughReasons(table, g)
    ensures GroupSample(table, g, draws).value[1..] ==
      ScanOthers(OtherRows(Candidates(table, g)), ChangeRows(Candidates(table, g))[0].rec.reason)
    ensures ReasonsDistinct(GroupSample(table, g, draws).value)
  {
    var change := ChangeRows(Candidates(table, g));
    var other := OtherRows(Candidates(table, g));
    var c := ChangePick(change, {});
    ChangePickIsFirst(change);
    var r := c.rec.reason;
    var held := ScanOthers(other, r);
    CandidateFacts(table, g);
    ReasonsDistinctRows(held);
    assert |held| == Quota by {
      ScanReachesQuota(other, r);
    }
    var picked := Fill(other, held, draws);
    assert picked == held;
    assert GroupSample(table, g, draws) == Some([c] + held);
    assert ([c] + held)[1..] == held;
    assert ReasonsDistinct([c] + held) by {
      LeadFresh(c, held);
    }
  }

  /** A row followed by rows with pairwise different reasons, none its own,
      has pairwise different reasons. */
  lemma LeadFresh(c: Row, held: seq<Row>)
    requires Fresh(held, {c.rec.reason})
    ensures ReasonsDistinct([c] + held)
  {
    var s := [c] + held;
    assert s[0] == c && s[1..] == held;
    ReasonsOfCons(s);
  }

  /** With enough distinct reasons the random draws do not matter. */
  lemma BlockIgnoresDraws(table: seq<Record>, g: string, d1: seq<nat>, d2: seq<nat>)
    requires Qualifies(table, g) ==> EnoughReasons(table, g)
    ensures GroupBlock(table, g, d1) == GroupBlock(table, g, d2)
  {
    if Qualifies(table, g) {
      EnoughReasonsNoFill(table, g, d1);
      EnoughReasonsNoFill(table, g, d2);
      var s1 := GroupSample(table, g, d1).value;
      var s2 := GroupSample(table, g, d2).value;
      assert s1 == [s1[0]] + s1[1..] && s2 == [s2[0]] + s2[1..];
    }
  }
}
