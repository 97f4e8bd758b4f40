/** The whole selection: every assignment group in order of first appearance
    contributes its block (or nothing), the blocks are concatenated, and the
    result is sorted by assignment group and then by the special flag. */
module Selection {
  import opened Seqs
  import opened Text
  import opened Tickets
  import opened Ordering
  import opened Selector

  /** The assignment group column, top to bottom. */
  function GroupColumn(table: seq<Record>): seq<string> {
    seq(|table|, i requires 0 <= i < |table| => table[i].group)
  }

  /** The groups the selector visits: each group once, in order of first appearance. */
  function Groups(table: seq<Record>): (gs: seq<string>)
    ensures Distinct(gs)
    ensures forall i :: 0 <= i < |table| ==> table[i].group in gs
    ensures forall g :: g in gs ==> exists i :: 0 <= i < |table| && table[i].group == g
  {
    var col := GroupColumn(table);
    var gs := Unique(col);
    assert forall i :: 0 <= i < |table| ==> col[i] == table[i].group;
    assert forall g :: g in gs ==> g in col;
    gs
  }

  /** Groups are visited in the order in which they first appear in the table. */
  lemma GroupsOrder(table: seq<Record>)
    ensures forall i, j :: 0 <= i < j < |Groups(table)| ==>
      IndexOf(GroupColumn(table), Groups(table)[i]) < IndexOf(GroupColumn(table), Groups(table)[j])
  {
    UniqueOrder(GroupColumn(table));
  }

  /** The blocks collected for the groups `gs`, one per qualifying group, in the order of `gs`. */
  function Blocks(table: seq<Record>, gs: seq<string>, rng: string -> seq<nat>): seq<seq<Row>>
    decreases |gs|
  {
    if |gs| == 0 then []
    else
      match GroupBlock(table, gs[0], rng(gs[0]))
      case None => Blocks(table, gs[1..], rng)
      case Some(b) => [b] + Blocks(table, gs[1..], rng)
  }

  function Concat(bs: seq<seq<Row>>): seq<Row>
    decreases |bs|
  {
    if |bs| == 0 then [] else bs[0] + Concat(bs[1..])
  }

  /** The rows group `g` adds to the result: its block, or nothing. */
  function Contribution(table: seq<Record>, g: string, draws: seq<nat>): seq<Row> {
    match GroupBlock(table, g, draws)
    case None => []
    case Some(b) => b
  }

  function QualifiesIn(table: seq<Record>): string -> bool {
    (g: string) => Qualifies(table, g)
  }

  /** The selector's result. The random generator is a parameter: `rng(g)` is
      the sequence of draws consumed by group `g`'s fallback fill. */
  function Select(table: seq<Record>, rng: string -> seq<nat>): seq<Row> {
    var blocks := Blocks(table, Groups(table), rng);
    if |blocks| > 0 then SortByKey(Concat(blocks)) else []
  }

  lemma BlocksCons(table: seq<Record>, gs: seq<string>, rng: string -> seq<nat>)
    requires |gs| > 0
    ensures Concat(Blocks(table, gs, rng)) ==
      Contribution(table, gs[0], rng(gs[0])) + Concat(Blocks(table, gs[1..], rng))
  {
    match GroupBlock(table, gs[0], rng(gs[0]))
    case None =>
    case Some(b) =>
      assert ([b] + Blocks(table, gs[1..], rng))[1..] == Blocks(table, gs[1..], rng);
  }

  lemma ContributionRows(table: seq<Record>, g: string, draws: seq<nat>)
    ensures Distinct(Contribution(table, g, draws))
    ensures |Contribution(table, g, draws)| == if Qualifies(table, g) then 1 + Quota else 0
    ensures forall x :: x in Contribution(table, g, draws) ==>
      FromTable(x, table) && x.rec.group == g && Eligible(x.rec) && Qualifies(table, g)
  {
    match GroupBlock(table, g, draws)
    case None =>
    case Some(b) => BlockRows(table, g, draws, b);
  }

  lemma DistinctTail(gs: seq<string>)
    requires |gs| > 0 && Distinct(gs)
    ensures Distinct(gs[1..]) && gs[0] !in gs[1..]
  {
    assert gs == [gs[0]] + gs[1..];
    DistinctConcat([gs[0]], gs[1..]);
  }

  /** Every row of the concatenated blocks comes from the contribution of one
      of the visited groups, namely its own. */
  lemma {:induction false} ConcatRows(table: seq<Record>, gs: seq<string>, rng: string -> seq<nat>)
    ensures forall x :: x in Concat(Blocks(table, gs, rng)) ==>
      x.rec.group in gs && x in Contribution(table, x.rec.group, rng(x.rec.group))
    decreases |gs|
  {
    if |gs| > 0 {
      BlocksCons(table, gs, rng);
      ConcatRows(table, gs[1..], rng);
      ContributionRows(table, gs[0], rng(gs[0]));
    }
  }

  /** The rows of group `g` among the concatenated blocks are exactly `g`'s
      contribution when `g` is visited, and none otherwise. */
  lemma {:induction false} FilterBlocks(table: seq<Record>, gs: seq<string>, rng: string -> seq<nat>, g: string)
    requires Distinct(gs)
    ensures Filter(Concat(Blocks(table, gs, rng)), InGroup(g)) ==
      if g in gs then Contribution(table, g, rng(g)) else []
    decreases |gs|
  {
    if |gs| > 0 {
      var h := gs[0];
      var c := Contribution(table, h, rng(h));
      var rest := Concat(Blocks(table, gs[1..], rng));
      BlocksCons(table, gs, rng);
      DistinctTail(gs);
      FilterBlocks(table, gs[1..], rng, g);
      FilterConcat(c, rest, InGroup(g));
      ContributionRows(table, h, rng(h));
      if g == h {
        FilterKeepsAll(c, InGroup(g));
      } else {
        FilterKeepsNone(c, InGroup(g));
        assert g in gs <==> g in gs[1..];
      }
    }
  }

  /** Only groups that occur in the table can qualify. */
  lemma QualifiesInGroups(table: seq<Record>, g: string)
    requires Qualifies(table, g)
    ensures g in Groups(table)
  {
    var x := ChangeRows(Candidates(table, g))[0];
    assert x in Candidates(table, g);
    var k :| 0 <= k < |Rows(table)| && Rows(table)[k] == x;
    assert table[k].group == g;
  }

  /** One block per qualifying group, of six rows each. */
  lemma BlocksCount(table: seq<Record>, gs: seq<string>, rng: string -> seq<nat>)
    ensures |Blocks(table, gs, rng)| == |Filter(gs, QualifiesIn(table))|
    ensures |Concat(Blocks(table, gs, rng))| == (1 + Quota) * |Blocks(table, gs, rng)|
  {
    BlocksLength(table, gs, rng);
    ConcatLength(table, gs, rng);
  }

  lemma {:induction false} BlocksLength(table: seq<Record>, gs: seq<string>, rng: string -> seq<nat>)
    ensures |Blocks(table, gs, rng)| == |Filter(gs, QualifiesIn(table))|
    decreases |gs|
  {
    if |gs| > 0 {
      BlocksLength(table, gs[1..], rng);
    }
  }

  lemma {:induction false} ConcatLength(table: seq<Record>, gs: seq<string>, rng: string -> seq<nat>)
    ensures |Concat(Blocks(table, gs, rng))| == (1 + Quota) * |Blocks(table, gs, rng)|
    decreases |gs|
  {
    if |gs| > 0 {
      var n := if Qualifies(table, gs[0]) then 1 else 0;
      ConcatLength(table, gs[1..], rng);
      assert |Concat(Blocks(table, gs, rng))| ==
        (1 + Quota) * n + |Concat(Blocks(table, gs[1..], rng))| by {
        BlocksCons(table, gs, rng);
        ContributionLength(table, gs[0], rng(gs[0]));
      }
      assert |Blocks(table, gs, rng)| == n + |Blocks(table, gs[1..], rng)|;
    }
  }

  lemma ContributionLength(table: seq<Record>, g: string, draws: seq<nat>)
    ensures |Contribution(table, g, draws)| == if Qualifies(table, g) then 1 + Quota else 0
  {
    match GroupBlock(table, g, draws)
    case None =>
    case Some(b) => BlockRows(table, g, draws, b);
  }

  /** No row appears twice in the concatenated blocks. */
  lemma {:induction false} ConcatDistinct(table: seq<Record>, gs: seq<string>, rng: string -> seq<nat>)
    requires Distinct(gs)
    ensures Distinct(Concat(Blocks(table, gs, rng)))
    decreases |gs|
  {
    if |gs| > 0 {
      var h := gs[0];
      var c := Contribution(table, h, rng(h));
      var rest := Concat(Blocks(table, gs[1..], rng));
      BlocksCons(table, gs, rng);
      DistinctTail(gs);
      ConcatDistinct(table, gs[1..], rng);
      ContributionRows(table, h, rng(h));
      ConcatRows(table, gs[1..], rng);
      assert forall x :: x in c ==> x !in rest;
      DistinctConcat(c, rest);
    }
  }

  /** A group that qualifies contributes a block; the others contribute nothing. */
  lemma QualifyingBlocks(table: seq<Record>, rng: string -> seq<nat>)
    ensures |Blocks(table, Groups(table), rng)| > 0 <==> exists g :: Qualifies(table, g)
  {
    var gs := Groups(table);
    BlocksCount(table, gs, rng);
    if g :| Qualifies(table, g) {
      QualifiesInGroups(table, g);
      var k :| 0 <= k < |gs| && gs[k] == g;
      assert gs[k] in Filter(gs, QualifiesIn(table));
    }
    if |Blocks(table, gs, rng)| > 0 {
      assert QualifiesIn(table)(Filter(gs, QualifiesIn(table))[0]);
    }
  }

  /** The rows of group `g` in the result are exactly `g`'s block, in block
      order: the final sort moves blocks but never reorders within one. */
  lemma SelectPerGroup(table: seq<Record>, rng: string -> seq<nat>, g: string)
    ensures Filter(Select(table, rng), InGroup(g)) == Contribution(table, g, rng(g))
  {
    var gs := Groups(table);
    var c := Contribution(table, g, rng(g));
    ContributionRows(table, g, rng(g));
    if Qualifies(table, g) {
      QualifiesInGroups(table, g);
    }
    assert g !in gs ==> c == [];
    QualifyingBlocks(table, rng);
    if |Blocks(table, gs, rng)| > 0 {
      var all := Concat(Blocks(table, gs, rng));
      FilterBlocks(table, gs, rng, g);
      assert SortedByKey(c) by {
        match GroupBlock(table, g, rng(g))
        case None =>
        case Some(b) =>
          BlockOrder(table, g, rng(g), b);
          SameGroupSorted(b, g);
      }
      SortKeepsSortedFilter(all, InGroup(g));
    }
  }

  /** The result is characterised by its per-group rows and its order: it is
      the one key-sorted sequence whose rows of each group form that group's block. */
  lemma SelectCharacterised(table: seq<Record>, rng: string -> seq<nat>, t: seq<Row>)
    ensures t == Select(table, rng) <==>
      SortedByKey(t) && forall g :: Filter(t, InGroup(g)) == Contribution(table, g, rng(g))
  {
    var r := Select(table, rng);
    forall g ensures Filter(r, InGroup(g)) == Contribution(table, g, rng(g)) {
      SelectPerGroup(table, rng, g);
    }
    if SortedByKey(t) && forall g :: Filter(t, InGroup(g)) == Contribution(table, g, rng(g)) {
      SortedEqual(t, r);
    }
  }

  /** Groups appear in alphabetical order, and within a group the rows whose
      contact reason contains the special phrase come last. */
  lemma SelectOrder(table: seq<Record>, rng: string -> seq<nat>)
    ensures forall i, j :: 0 <= i < j < |Select(table, rng)| ==>
      var a, b := Select(table, rng)[i], Select(table, rng)[j];
      (a.rec.group == b.rec.group || StrLt(a.rec.group, b.rec.group))
      && (a.rec.group == b.rec.group && IsSpecialRow(a) ==> IsSpecialRow(b))
  {
    var r := Select(table, rng);
    forall i, j | 0 <= i < j < |r| ensures
      (r[i].rec.group == r[j].rec.group || StrLt(r[i].rec.group, r[j].rec.group))
      && (r[i].rec.group == r[j].rec.group && IsSpecialRow(r[i]) ==> IsSpecialRow(r[j]))
    {
      assert KeyLe(r[i], r[j]);
      StrLtIrreflexive(r[i].rec.group);
    }
  }

  /** Every selected row is an unchanged row of the input that is closed, came
      from the web and took more than two iterations, and its group qualifies. */
  lemma SelectRows(table: seq<Record>, rng: string -> seq<nat>)
    ensures forall x :: x in Select(table, rng) ==>
      FromTable(x, table) && Eligible(x.rec) && Qualifies(table, x.rec.group)
      && x in Contribution(table, x.rec.group, rng(x.rec.group))
  {
    var gs := Groups(table);
    var blocks := Blocks(table, gs, rng);
    if |blocks| > 0 {
      var all := Concat(blocks);
      ConcatRows(table, gs, rng);
      forall x | x in Select(table, rng) ensures
        FromTable(x, table) && Eligible(x.rec) && Qualifies(table, x.rec.group)
        && x in Contribution(table, x.rec.group, rng(x.rec.group))
      {
        assert x in multiset(all);
        ContributionRows(table, x.rec.group, rng(x.rec.group));
      }
    }
  }

  /** No row is selected twice. */
  lemma SelectDistinct(table: seq<Record>, rng: string -> seq<nat>)
    ensures Distinct(Select(table, rng))
  {
    var gs := Groups(table);
    var blocks := Blocks(table, gs, rng);
    if |blocks| > 0 {
      ConcatDistinct(table, gs, rng);
      DistinctPermutes(Concat(blocks), Select(table, rng));
    }
  }

  /** Six rows per qualifying group. */
  lemma SelectSize(table: seq<Record>, rng: string -> seq<nat>)
    ensures |Select(table, rng)| == (1 + Quota) * |Filter(Groups(table), QualifiesIn(table))|
  {
    var gs := Groups(table);
    var blocks := Blocks(table, gs, rng);
    BlocksCount(table, gs, rng);
    if |blocks| > 0 {
      assert |Select(table, rng)| == |multiset(Concat(blocks))|;
    }
  }

  /** The result is empty exactly when no group qualifies. */
  lemma SelectEmpty(table: seq<Record>, rng: string -> seq<nat>)
    ensures Select(table, rng) == [] <==> forall g :: !Qualifies(table, g)
  {
    var gs := Groups(table);
    QualifyingBlocks(table, rng);
    BlocksCount(table, gs, rng);
    if |Blocks(table, gs, rng)| > 0 {
      assert |Select(table, rng)| == |multiset(Concat(Blocks(table, gs, rng)))|;
    }
  }

  /** When every qualifying group has enough different contact reasons
      besides its Change row's, the fallback draw is never used and the
      result does not depend on the random generator. */
  lemma SelectIgnoresDraws(table: seq<Record>, rng1: string -> seq<nat>, rng2: string -> seq<nat>)
    requires forall g :: Qualifies(table, g) ==> EnoughReasons(table, g)
    ensures Select(table, rng1) == Select(table, rng2)
  {
    BlocksIgnoreDraws(table, Groups(table), rng1, rng2);
  }

  lemma {:induction false} BlocksIgnoreDraws(table: seq<Record>, gs: seq<string>,
                                             rng1: string -> seq<nat>, rng2: string -> seq<nat>)
    requires forall g :: Qualifies(table, g) ==> EnoughReasons(table, g)
    ensures Blocks(table, gs, rng1) == Blocks(table, gs, rng2)
    decreases |gs|
  {
    if |gs| > 0 {
      BlockIgnoresDraws(table, gs[0], rng1(gs[0]), rng2(gs[0]));
      BlocksIgnoreDraws(table, gs[1..], rng1, rng2);
    }
  }
}
