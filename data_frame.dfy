/**
 * The transaction table of the Sankey script: six hierarchy columns plus the
 * Credit and Debit amount columns, and the derived Transaction Value column.
 */
module DataFrame {
  import opened Wrappers

  /** Number of hierarchy columns. */
  const LevelCount: nat := 6

  /** The six hierarchy labels of one row: Region, Subregion, Area, Branch,
      Account Type and Transaction To. */
  datatype Levels = Levels(
    region: string,
    subregion: string,
    area: string,
    branch: string,
    accountType: string,
    transactionTo: string)

  /** One parsed row of the uploaded table; an amount may be missing. */
  datatype Record = Record(levels: Levels, credit: Option<int>, debit: Option<int>)

  /** The hierarchy labels of a row in level order. */
  function Labels(l: Levels): (r: seq<string>)
    ensures |r| == LevelCount
  {
    [l.region, l.subregion, l.area, l.branch, l.accountType, l.transactionTo]
  }

  /** Hierarchy column k (0 = Region, ..., 5 = Transaction To), in row order. */
  function Column(levels: seq<Levels>, k: nat): (c: seq<string>)
    requires k < LevelCount
    ensures |c| == |levels|
    ensures forall q :: 0 <= q < |levels| ==> c[q] == Labels(levels[q])[k]
  {
    seq(|levels|, q requires 0 <= q < |levels| => Labels(levels[q])[k])
  }

  /** The first k hierarchy columns concatenated column by column. */
  function LeadingColumns(levels: seq<Levels>, k: nat): seq<string>
    requires k <= LevelCount
  {
    if k == 0 then [] else LeadingColumns(levels, k - 1) + Column(levels, k - 1)
  }

  /** The six hierarchy columns stacked into one: all Region values in row order,
      then all Subregion values, and so on up to Transaction To. */
  function ColumnMajor(levels: seq<Levels>): seq<string>
  {
    LeadingColumns(levels, LevelCount)
  }

  /** Every label that occurs in one of the first k hierarchy columns. */
  ghost function LabelsUpTo(levels: seq<Levels>, k: nat): set<string>
    requires k <= LevelCount
  {
    set q, j | 0 <= q < |levels| && 0 <= j < k :: Labels(levels[q])[j]
  }

  /** Every label that occurs anywhere in the hierarchy columns. */
  ghost function LabelSet(levels: seq<Levels>): set<string>
  {
    LabelsUpTo(levels, LevelCount)
  }

  /** The concatenation holds exactly the labels of the first k columns. */
  lemma {:induction false} LeadingColumnsLabels(levels: seq<Levels>, k: nat)
    requires k <= LevelCount
    ensures forall x :: x in LeadingColumns(levels, k) <==> x in LabelsUpTo(levels, k)
  {
    if k > 0 {
      LeadingColumnsLabels(levels, k - 1);
      var c := Column(levels, k - 1);
      forall x | x in LeadingColumns(levels, k)
        ensures x in LabelsUpTo(levels, k)
      {
        if x in c {
          var q :| 0 <= q < |c| && c[q] == x;
          assert x == Labels(levels[q])[k - 1];
        } else {
          assert x in LeadingColumns(levels, k - 1);
          assert x in LabelsUpTo(levels, k - 1);
        }
      }
      forall x | x in LabelsUpTo(levels, k)
        ensures x in LeadingColumns(levels, k)
      {
        var q, j :| 0 <= q < |levels| && 0 <= j < k && x == Labels(levels[q])[j];
        if j == k - 1 {
          assert x == c[q];
        } else {
          assert x in LabelsUpTo(levels, k - 1);
        }
      }
    }
  }

  /** The concatenation of the first k columns is a prefix of the full
      column-major concatenation. */
  lemma {:induction false} LeadingColumnsPrefix(levels: seq<Levels>, k: nat)
    requires k <= LevelCount
    ensures exists rest :: ColumnMajor(levels) == LeadingColumns(levels, k) + rest
  {
    var i := k;
    var rest: seq<string> := [];
    while i < LevelCount
      invariant k <= i <= LevelCount
      invariant LeadingColumns(levels, i) == LeadingColumns(levels, k) + rest
    {
      rest := rest + Column(levels, i);
      i := i + 1;
    }
  }

  /** Filling one amount: a missing amount becomes fill. */
  function OrElse(a: Option<int>, fill: int): int
  {
    if a.Some? then a.value else fill
  }

  /** Filling an amount column: a new column in which no entry
      is missing, present amounts are kept and missing ones become fill. */
  function FillNa(col: seq<Option<int>>, fill: int): (r: seq<Option<int>>)
    ensures |r| == |col|
    ensures forall i :: 0 <= i < |r| ==> r[i].Some?
    ensures forall i :: 0 <= i < |r| && col[i].Some? ==> r[i] == col[i]
    ensures forall i :: 0 <= i < |r| && col[i].None? ==> r[i] == Some(fill)
  {
    seq(|col|, i requires 0 <= i < |col| => Some(OrElse(col[i], fill)))
  }

  /** The dataframe `data` of the script, held column by column; the script
      overwrites its amount columns and adds the Transaction Value column. */
  class Frame {
    var levels: seq<Levels>
    var credit: seq<Option<int>>
    var debit: seq<Option<int>>
    /** The Transaction Value column; empty until it is computed. */
    var transactionValue: seq<int>

    /** All columns describe the same rows. */
    ghost predicate Valid()
      reads this
    {
      |credit| == |levels| && |debit| == |levels|
    }

    /** No Credit or Debit cell is missing. */
    ghost predicate AmountsFilled()
      reads this
    {
      forall i :: 0 <= i < |credit| ==> credit[i].Some? && i < |debit| && debit[i].Some?
    }

    /** The table as parsed from the uploaded file. */
    constructor (records: seq<Record>)
      ensures Valid()
      ensures |levels| == |records| && transactionValue == []
      ensures forall i :: 0 <= i < |records| ==>
        levels[i] == records[i].levels && credit[i] == records[i].credit && debit[i] == records[i].debit
    {
      levels := seq(|records|, i requires 0 <= i < |records| => records[i].levels);
      credit := seq(|records|, i requires 0 <= i < |records| => records[i].credit);
      debit := seq(|records|, i requires 0 <= i < |records| => records[i].debit);
      transactionValue := [];
    }

    /** Replaces every missing Credit and Debit amount by 0, in place. */
    method FillMissingAmounts()
      requires Valid()
      modifies this
      ensures Valid() && AmountsFilled()
      ensures credit == FillNa(old(credit), 0) && debit == FillNa(old(debit), 0)
      ensures levels == old(levels) && transactionValue == old(transactionValue)
    {
      credit := FillNa(credit, 0);
      debit := FillNa(debit, 0);
    }

    /** Adds the Transaction Value column: each row's credit plus its debit. */
    method AddTransactionValue()
      requires Valid() && AmountsFilled()
      modifies this
      ensures Valid() && AmountsFilled()
      ensures levels == old(levels) && credit == old(credit) && debit == old(debit)
      ensures |transactionValue| == |levels|
      ensures forall i :: 0 <= i < |levels| ==>
        transactionValue[i] == credit[i].value + debit[i].value
    {
      var c, d := credit, debit;
      transactionValue := seq(|levels|, i requires 0 <= i < |c| && i < |d| && c[i].Some? && d[i].Some? =>
        c[i].value + d[i].value);
    }
  }
}
