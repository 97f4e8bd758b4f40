/** The ticket table: one record per spreadsheet row, with the column values
    the selector reads, and the row-level tests it applies to them. */
module Tickets {
  import opened Seqs
  import opened Text

  /** One row of the sheet. Each field is one of the seven columns the upload
      screen insists on: Assegnazione, Stato, Sorgente, Iterazioni, Processo,
      ID and Motivo di Contatto. */
  datatype Record = Record(
    group: string,
    status: string,
    source: string,
    iterations: int,
    process: string,
    id: string,
    reason: string)

  /** A record together with its index label in the loaded table. A freshly
      read sheet is labelled 0, 1, 2, ... so the label is the row's position. */
  datatype Row = Row(index: nat, rec: Record)

  const ClosedStatus := "Chiuso"
  const WebSource := "Web"
  const ChangeProcess := "Change"
  /** Rows need strictly more iterations than this. */
  const IterationFloor := 2
  /** Contact reasons containing this phrase (in any letter case) go last. */
  const SpecialPhrase := "Modifica o correzione dati intestatario dominio e database"
  /** Non-Change rows each qualifying group contributes. */
  const Quota := 5

  /** The table as rows labelled by position. */
  function Rows(table: seq<Record>): seq<Row> {
    seq(|table|, i requires 0 <= i < |table| => Row(i, table[i]))
  }

  /** `x` is row `x.index` of `table`, unchanged. */
  predicate FromTable(x: Row, table: seq<Record>) {
    x.index < |table| && table[x.index] == x.rec
  }

  /** Within `s`, a label identifies a row: two rows with the same label are the same row. */
  predicate LabelsIdentify(s: seq<Row>) {
    forall x, y :: x in s && y in s && x.index == y.index ==> x == y
  }

  predicate Eligible(r: Record) {
    r.status == ClosedStatus && r.source == WebSource && r.iterations > IterationFloor
  }

  /** The contact reason contains the special phrase, ignoring letter case. */
  predicate IsSpecial(r: Record) {
    ContainsIgnoringCase(r.reason, SpecialPhrase)
  }

  /** Row-level masks, named so that every use denotes the same function. */
  function CandidateOf(g: string): Row -> bool {
    (x: Row) => x.rec.group == g && Eligible(x.rec)
  }

  function InGroup(g: string): Row -> bool {
    (x: Row) => x.rec.group == g
  }

  predicate IsChangeRow(x: Row) {
    x.rec.process == ChangeProcess
  }

  predicate IsOtherRow(x: Row) {
    x.rec.process != ChangeProcess
  }

  predicate IsSpecialRow(x: Row) {
    IsSpecial(x.rec)
  }

  predicate IsPlainRow(x: Row) {
    !IsSpecial(x.rec)
  }

  /** The set of contact reasons carried by the rows of `s`. */
  function ReasonsOf(s: seq<Row>): set<string> {
    set x | x in s :: x.rec.reason
  }

  /** No two rows of `s` share a contact reason: `s` carries as many
      different reasons as it has rows. */
  predicate ReasonsDistinct(s: seq<Row>) {
    |ReasonsOf(s)| == |s|
  }

  lemma RowsFromTable(table: seq<Record>)
    ensures |Rows(table)| == |table|
    ensures forall x :: x in Rows(table) ==> FromTable(x, table)
    ensures LabelsIdentify(Rows(table))
    ensures Distinct(Rows(table))
  {
  }

  /** Labels that identify rows in a sequence still do in any part of it. */
  lemma LabelsIdentifyWithin(s: seq<Row>, t: seq<Row>)
    requires LabelsIdentify(t)
    requires forall x :: x in s ==> x in t
    ensures LabelsIdentify(s)
  {
  }

  lemma ReasonsOfConcat(a: seq<Row>, b: seq<Row>)
    ensures ReasonsOf(a + b) == ReasonsOf(a) + ReasonsOf(b)
  {
    assert forall x :: x in a + b <==> x in a || x in b;
  }

  /** Splitting off the first row adds its reason unless the rest already has it. */
  lemma ReasonsOfCons(s: seq<Row>)
    requires |s| > 0
    ensures ReasonsOf(s) == {s[0].rec.reason} + ReasonsOf(s[1..])
    ensures |ReasonsOf(s)| == |ReasonsOf(s[1..])| + (if s[0].rec.reason in ReasonsOf(s[1..]) then 0 else 1)
  {
    ReasonsOfConcat([s[0]], s[1..]);
    assert s == [s[0]] + s[1..];
    assert ReasonsOf([s[0]]) == {s[0].rec.reason};
  }

  /** At most one new reason per row. */
  lemma {:induction false} ReasonsOfBound(s: seq<Row>)
    ensures |ReasonsOf(s)| <= |s|
    decreases |s|
  {
    if |s| > 0 {
      ReasonsOfBound(s[1..]);
      ReasonsOfCons(s);
    }
  }

  predicate PairwiseReasons(s: seq<Row>) {
    forall i, j :: 0 <= i < j < |s| ==> s[i].rec.reason != s[j].rec.reason
  }

  /** The set-size definition of distinct reasons agrees with the pairwise one. */
  lemma {:induction false} ReasonsDistinctPairwise(s: seq<Row>)
    ensures ReasonsDistinct(s) <==> PairwiseReasons(s)
    decreases |s|
  {
    if |s| > 0 {
      var t := s[1..];
      ReasonsDistinctPairwise(t);
      ReasonsOfBound(t);
      ReasonsOfCons(s);
      if PairwiseReasons(s) {
        PairwiseTail(s);
        PairwiseHead(s);
      }
      if ReasonsDistinct(s) {
        PairwiseCons(s);
      }
    }
  }

  lemma PairwiseTail(s: seq<Row>)
    requires |s| > 0 && PairwiseReasons(s)
    ensures PairwiseReasons(s[1..])
  {
    var t := s[1..];
    forall i, j | 0 <= i < j < |t| ensures t[i].rec.reason != t[j].rec.reason {
      assert t[i] == s[i + 1] && t[j] == s[j + 1];
    }
  }

  lemma PairwiseHead(s: seq<Row>)
    requires |s| > 0 && PairwiseReasons(s)
    ensures s[0].rec.reason !in ReasonsOf(s[1..])
  {
    var t := s[1..];
    forall x | x in t ensures x.rec.reason != s[0].rec.reason {
      var k :| 0 <= k < |t| && t[k] == x;
      assert s[k + 1] == x;
    }
  }

  lemma PairwiseCons(s: seq<Row>)
    requires |s| > 0 && PairwiseReasons(s[1..])
    requires s[0].rec.reason !in ReasonsOf(s[1..])
    ensures PairwiseReasons(s)
  {
    var t := s[1..];
    forall i, j | 0 <= i < j < |s| ensures s[i].rec.reason != s[j].rec.reason {
      if i == 0 {
        assert s[j] == t[j - 1];
        assert s[j] in t;
      } else {
        assert s[i] == t[i - 1] && s[j] == t[j - 1];
      }
    }
  }

  /** Rows with pairwise different reasons are pairwise different rows. */
  lemma ReasonsDistinctRows(s: seq<Row>)
    requires ReasonsDistinct(s)
    ensures Distinct(s)
  {
    ReasonsDistinctPairwise(s);
  }
}
