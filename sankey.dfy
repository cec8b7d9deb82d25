/**
 * The transform at the heart of the Sankey script: from the parsed
 * transaction rows to the node labels, the label-to-index dictionary and the
 * three link lists handed to the chart.
 */
module Sankey {
  import opened Wrappers
  import opened DataFrame
  import opened NodeIndex
  import opened SankeyLinks

  /** The hierarchy columns of the parsed rows. */
  function LevelsOf(records: seq<Record>): (levels: seq<Levels>)
    ensures |levels| == |records|
    ensures forall q :: 0 <= q < |records| ==> levels[q] == records[q].levels
  {
    seq(|records|, q requires 0 <= q < |records| => records[q].levels)
  }

  /** The weight of a row: Credit plus Debit, a missing amount counting as 0. */
  function RowValue(r: Record): int
  {
    OrElse(r.credit, 0) + OrElse(r.debit, 0)
  }

  /** A missing Credit or Debit adds nothing to the row's weight. */
  lemma MissingAmountCountsZero(r: Record)
    ensures r.credit.None? && r.debit.None? ==> RowValue(r) == 0
    ensures r.credit.None? && r.debit.Some? ==> RowValue(r) == r.debit.value
    ensures r.credit.Some? && r.debit.None? ==> RowValue(r) == r.credit.value
    ensures r.credit.Some? && r.debit.Some? ==> RowValue(r) == r.credit.value + r.debit.value
  {
  }

  /** The node list: the hierarchy columns concatenated and reduced to
      their unique labels. */
  function Nodes(levels: seq<Levels>): seq<string>
  {
    Unique(ColumnMajor(levels))
  }

  /** The node list holds exactly the labels that occur in the hierarchy
      columns, each once, so a label used at two levels is a single node and
      there are as many nodes as distinct labels. */
  lemma {:induction false} NodesAreDistinctLabels(levels: seq<Levels>)
    ensures Distinct(Nodes(levels))
    ensures forall x :: x in Nodes(levels) <==> x in LabelSet(levels)
    ensures |Nodes(levels)| == |LabelSet(levels)|
  {
    var nodes := Nodes(levels);
    LeadingColumnsLabels(levels, LevelCount);
    assert (set x | x in nodes) == LabelSet(levels);
    DistinctCardinality(nodes);
  }

  /** Column-major first-seen order: the unique labels of the first k
      hierarchy columns (Region first, then Subregion, ...) open the node
      list, in the same order. */
  lemma {:induction false} NodesFollowLevelOrder(levels: seq<Levels>, k: nat)
    requires k <= LevelCount
    ensures |Unique(LeadingColumns(levels, k))| <= |Nodes(levels)|
    ensures Nodes(levels)[..|Unique(LeadingColumns(levels, k))|] == Unique(LeadingColumns(levels, k))
  {
    LeadingColumnsPrefix(levels, k);
    var rest :| ColumnMajor(levels) == LeadingColumns(levels, k) + rest;
    UniqueExtends(LeadingColumns(levels, k), rest);
  }

  /** Every label of every row has a node index. */
  lemma {:induction false} RowsAreIndexed(levels: seq<Levels>)
    ensures AllIndexed(levels, NodeIndices(Nodes(levels)))
  {
    var idx := NodeIndices(Nodes(levels));
    NodesAreDistinctLabels(levels);
    forall q | 0 <= q < |levels|
      ensures Indexed(levels[q], idx)
    {
      var l := levels[q];
      assert Labels(l)[0] == l.region && Labels(l)[1] == l.subregion && Labels(l)[2] == l.area;
      assert Labels(l)[3] == l.branch && Labels(l)[4] == l.accountType && Labels(l)[5] == l.transactionTo;
      assert l.region in LabelSet(levels) && l.subregion in LabelSet(levels) && l.area in LabelSet(levels);
      assert l.branch in LabelSet(levels) && l.accountType in LabelSet(levels) && l.transactionTo in LabelSet(levels);
    }
  }

  /** The links built over the rows of `levels` weighted by `values`, with
      the node index of those rows: no lookup fails, each row yields its five
      links in chain order carrying its whole value, and every link points at
      a node. */
  lemma LinksOfRows(levels: seq<Levels>, values: seq<int>)
    requires |levels| == |values|
    ensures ExpectedLinks(levels, values, NodeIndices(Nodes(levels))).Success?
    ensures var links := ExpectedLinks(levels, values, NodeIndices(Nodes(levels))).value;
      && HasLength(links, 5 * |levels|)
      && (forall q :: 0 <= q < |levels| ==>
            Indexed(levels[q], NodeIndices(Nodes(levels))) &&
            RowSlice(links, q) == RowLinks(levels[q], values[q], NodeIndices(Nodes(levels))))
      && (forall i :: 0 <= i < |links.source| ==>
            0 <= links.source[i] < |Nodes(levels)| && 0 <= links.target[i] < |Nodes(levels)|)
  {
    var nodes := Nodes(levels);
    var idx := NodeIndices(nodes);
    RowsAreIndexed(levels);
    ExpectedLinksSucceeds(levels, values, idx);
    ExpectedLinksRows(levels, values, idx);
    ExpectedLinksUseIndices(levels, values, idx);
  }

  /** An empty table gives an empty node list and empty link lists, not an
      error. */
  lemma EmptyTable(idx: map<string, int>)
    ensures Nodes([]) == []
    ensures ExpectedLinks([], [], idx) == Success(LinkLists([], [], []))
  {
  }

  /** Loads the rows into the dataframe, replace
      missing Credit and Debit amounts by 0 and add the Transaction Value
      column. Returns the hierarchy columns and the Transaction Value column:
      each row's value is its credit plus its debit, a missing amount
      counting as 0. */
  method PrepareTable(records: seq<Record>) returns (levels: seq<Levels>, values: seq<int>)
    ensures levels == LevelsOf(records)
    ensures |values| == |records|
    ensures forall q :: 0 <= q < |records| ==> values[q] == RowValue(records[q])
  {
    var data := new Frame(records);
    ghost var parsedCredit, parsedDebit := data.credit, data.debit;
    data.FillMissingAmounts();
    data.AddTransactionValue();
    levels, values := data.levels, data.transactionValue;
    forall q | 0 <= q < |records|
      ensures values[q] == RowValue(records[q])
    {
      assert data.credit[q] == Some(OrElse(parsedCredit[q], 0));
      assert data.debit[q] == Some(OrElse(parsedDebit[q], 0));
    }
  }

  /** The whole transform: fills the missing amounts, adds the
      Transaction Value column, builds the node list, the node index and the
      links. No label lookup fails, the node index is a bijection onto the
      positions of the node list, each row yields its five links in chain
      order carrying its whole value, and every link points at a node. */
  method BuildSankey(records: seq<Record>)
    returns (nodes: seq<string>, nodeIndices: map<string, int>, links: LinkLists)
    ensures nodes == Nodes(LevelsOf(records))
    ensures Distinct(nodes)
    ensures forall x :: x in nodes <==> x in LabelSet(LevelsOf(records))
    ensures forall x :: x in nodeIndices <==> x in nodes
    ensures forall i :: 0 <= i < |nodes| ==> nodeIndices[nodes[i]] == i
    ensures HasLength(links, 5 * |records|)
    ensures forall q :: 0 <= q < |records| ==>
      Indexed(records[q].levels, nodeIndices) &&
      RowSlice(links, q) == RowLinks(records[q].levels, RowValue(records[q]), nodeIndices)
    ensures forall i :: 0 <= i < |links.source| ==>
      0 <= links.source[i] < |nodes| && 0 <= links.target[i] < |nodes|
  {
    var levels, values := PrepareTable(records);
    nodes := Unique(ColumnMajor(levels));
    nodeIndices := NodeIndices(nodes);
    NodesAreDistinctLabels(levels);
    NodeIndicesBijection(nodes);

    LinksOfRows(levels, values);
    var res := BuildLinks(levels, values, nodeIndices);
    links := res.value;
  }

  /** A single row whose six labels are all different yields the six labels,
      in level order, as the node list. */
  lemma SingleRowNodes(l: Levels)
    requires Distinct(Labels(l))
    ensures Nodes([l]) == Labels(l)
  {
    var levels := [l];
    var labels := Labels(l);
    assert ColumnMajor(levels) == labels by {
      assert LeadingColumns(levels, 1) == labels[..1];
      assert LeadingColumns(levels, 2) == labels[..2];
      assert LeadingColumns(levels, 3) == labels[..3];
      assert LeadingColumns(levels, 4) == labels[..4];
      assert LeadingColumns(levels, 5) == labels[..5];
    }
    forall i, j | 0 <= i < j < |labels|
      ensures FirstIndex(labels, labels[i]) < FirstIndex(labels, labels[j])
    {
      FirstIndexOfDistinct(labels, i);
      FirstIndexOfDistinct(labels, j);
    }
    UniqueCharacterised(labels, labels);
  }

  /** Such a row yields the chain 0 -> 1 -> 2 -> 3 -> 4 -> 5, every link
      carrying the row's value. */
  lemma SingleRowLinks(l: Levels, v: int)
    requires Distinct(Labels(l))
    ensures ExpectedLinks([l], [v], NodeIndices(Nodes([l])))
      == Success(LinkLists([0, 1, 2, 3, 4], [1, 2, 3, 4, 5], [v, v, v, v, v]))
  {
    var levels := [l];
    var labels := Labels(l);
    SingleRowNodes(l);
    NodeIndicesBijection(labels);
    var idx := NodeIndices(labels);
    assert idx[labels[0]] == 0 && idx[labels[1]] == 1 && idx[labels[2]] == 2;
    assert idx[labels[3]] == 3 && idx[labels[4]] == 4 && idx[labels[5]] == 5;
    var row := LinkLists([0, 1, 2, 3, 4], [1, 2, 3, 4, 5], [v, v, v, v, v]);
    assert RowLinks(l, v, idx) == row;
    assert levels[..0] == [] && levels[0] == l;
    AppendToNothing(row);
  }
}
