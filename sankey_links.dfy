/**
 * The Sankey links of the script: for every row, five links along the chain
 * Region -> Subregion -> Area -> Branch -> Account Type -> Transaction To,
 * held in three parallel lists.
 */
module SankeyLinks {
  import opened Wrappers
  import opened DataFrame

  /** The `links` dictionary: links['source'], links['target'], links['value']. */
  datatype LinkLists = LinkLists(source: seq<int>, target: seq<int>, value: seq<int>)

  /** All three lists have length n. */
  predicate HasLength(ls: LinkLists, n: nat)
  {
    |ls.source| == n && |ls.target| == n && |ls.value| == n
  }

  /** The lists after appending those of b to those of a. */
  function Append(a: LinkLists, b: LinkLists): LinkLists
  {
    LinkLists(a.source + b.source, a.target + b.target, a.value + b.value)
  }

  /** Appending to empty lists gives the appended lists. */
  lemma AppendToNothing(b: LinkLists)
    ensures Append(LinkLists([], [], []), b) == b
  {
  }

  /** All three lists have at least n entries. */
  predicate HasAtLeast(ls: LinkLists, n: nat)
  {
    |ls.source| >= n && |ls.target| >= n && |ls.value| >= n
  }

  /** The five entries of each list that belong to row q (a row adds one link
      per pair of adjacent hierarchy levels). */
  function RowSlice(ls: LinkLists, q: nat): LinkLists
    requires HasAtLeast(ls, 5 * q + 5)
  {
    LinkLists(ls.source[5 * q..5 * q + 5], ls.target[5 * q..5 * q + 5], ls.value[5 * q..5 * q + 5])
  }

  /** Appending leaves the rows already present untouched, and the appended
      five entries form the next row. */
  lemma RowSliceAppend(a: LinkLists, b: LinkLists, m: nat)
    requires HasLength(a, 5 * m) && HasLength(b, 5)
    ensures HasLength(Append(a, b), 5 * m + 5)
    ensures forall q :: 0 <= q < m ==> RowSlice(Append(a, b), q) == RowSlice(a, q)
    ensures RowSlice(Append(a, b), m) == b
  {
  }

  /** Every label of the row has an entry in idx. */
  predicate Indexed(l: Levels, idx: map<string, int>)
  {
    && l.region in idx && l.subregion in idx && l.area in idx
    && l.branch in idx && l.accountType in idx && l.transactionTo in idx
  }

  /** Every label of every row has an entry in idx. */
  predicate AllIndexed(levels: seq<Levels>, idx: map<string, int>)
  {
    forall q :: 0 <= q < |levels| ==> Indexed(levels[q], idx)
  }

  /** The first label of the row, in the order the script looks labels up,
      that idx lacks: the key whose lookup raises KeyError. */
  function MissingLabel(l: Levels, idx: map<string, int>): (r: Option<string>)
    ensures r.None? <==> Indexed(l, idx)
    ensures r.Some? ==> r.value !in idx && r.value in Labels(l)
    ensures r.Some? ==>
      exists j :: 0 <= j < LevelCount && Labels(l)[j] == r.value && (forall i :: 0 <= i < j ==> Labels(l)[i] in idx)
  {
    var ls := Labels(l);
    if l.region !in idx then assert ls[0] == l.region; Some(l.region)
    else if l.subregion !in idx then assert ls[1] == l.subregion; Some(l.subregion)
    else if l.area !in idx then assert ls[2] == l.area; Some(l.area)
    else if l.branch !in idx then assert ls[3] == l.branch; Some(l.branch)
    else if l.accountType !in idx then assert ls[4] == l.accountType; Some(l.accountType)
    else if l.transactionTo !in idx then assert ls[5] == l.transactionTo; Some(l.transactionTo)
    else None
  }

  /** The five links of one row, in the order the script appends them. */
  function RowLinks(l: Levels, v: int, idx: map<string, int>): LinkLists
    requires Indexed(l, idx)
  {
    LinkLists(
      [idx[l.region], idx[l.subregion], idx[l.area], idx[l.branch], idx[l.accountType]],
      [idx[l.subregion], idx[l.area], idx[l.branch], idx[l.accountType], idx[l.transactionTo]],
      [v, v, v, v, v])
  }

  /** What the loop over the rows leaves in `links`, or the label whose
      lookup raises KeyError and ends it. */
  function ExpectedLinks(levels: seq<Levels>, values: seq<int>, idx: map<string, int>): Result<LinkLists, string>
    requires |levels| == |values|
    decreases |levels|
  {
    if levels == [] then Success(LinkLists([], [], []))
    else
      var n := |levels| - 1;
      match ExpectedLinks(levels[..n], values[..n], idx)
      case Failure(e) => Failure(e)
      case Success(done) =>
        match MissingLabel(levels[n], idx)
        case Some(x) => Failure(x)
        case None => Success(Append(done, RowLinks(levels[n], values[n], idx)))
  }

  /** The lookups fail exactly when some row has a label without an index. */
  lemma {:induction false} ExpectedLinksSucceeds(levels: seq<Levels>, values: seq<int>, idx: map<string, int>)
    requires |levels| == |values|
    ensures ExpectedLinks(levels, values, idx).Success? <==> AllIndexed(levels, idx)
    decreases |levels|
  {
    if levels != [] {
      var n := |levels| - 1;
      ExpectedLinksSucceeds(levels[..n], values[..n], idx);
      assert AllIndexed(levels, idx) <==> AllIndexed(levels[..n], idx) && Indexed(levels[n], idx) by {
        if AllIndexed(levels[..n], idx) && Indexed(levels[n], idx) {
          forall q | 0 <= q < |levels|
            ensures Indexed(levels[q], idx)
          {
            if q < n {
              assert levels[q] == levels[..n][q];
            }
          }
        }
      }
      }
  }

  /** On success every list has five entries per row, and entries 5q .. 5q+4
      are row q's links Region -> Subregion, Subregion -> Area, Area -> Branch,
      Branch -> Account Type, Account Type -> Transaction To, each carrying
      the row's whole value. */
  lemma ExpectedLinksRows(levels: seq<Levels>, values: seq<int>, idx: map<string, int>)
    requires |levels| == |values|
    requires ExpectedLinks(levels, values, idx).Success?
    ensures HasLength(ExpectedLinks(levels, values, idx).value, 5 * |levels|)
    ensures forall q :: 0 <= q < |levels| ==>
      Indexed(levels[q], idx) &&
      RowSlice(ExpectedLinks(levels, values, idx).value, q) == RowLinks(levels[q], values[q], idx)
  {
    ExpectedLinksLength(levels, values, idx);
    forall q | 0 <= q < |levels|
      ensures Indexed(levels[q], idx)
      ensures RowSlice(ExpectedLinks(levels, values, idx).value, q) == RowLinks(levels[q], values[q], idx)
    {
      ExpectedLinksRow(levels, values, idx, q);
    }
  }

  /** Five entries per row in each list. */
  lemma {:induction false} ExpectedLinksLength(levels: seq<Levels>, values: seq<int>, idx: map<string, int>)
    requires |levels| == |values|
    requires ExpectedLinks(levels, values, idx).Success?
    ensures HasLength(ExpectedLinks(levels, values, idx).value, 5 * |levels|)
    decreases |levels|
  {
    if levels != [] {
      var n := |levels| - 1;
      ExpectedLinksLast(levels, values, idx);
      ExpectedLinksLength(levels[..n], values[..n], idx);
    }
  }

  /** Entries 5q .. 5q+4 are the links of row q. */
  lemma {:induction false} ExpectedLinksRow(levels: seq<Levels>, values: seq<int>, idx: map<string, int>, q: nat)
    requires |levels| == |values| && q < |levels|
    requires ExpectedLinks(levels, values, idx).Success?
    ensures Indexed(levels[q], idx)
    ensures HasAtLeast(ExpectedLinks(levels, values, idx).value, 5 * q + 5)
    ensures RowSlice(ExpectedLinks(levels, values, idx).value, q) == RowLinks(levels[q], values[q], idx)
    decreases |levels|
  {
    var n := |levels| - 1;
    var prefix, prefixValues := levels[..n], values[..n];
    ExpectedLinksLast(levels, values, idx);
    ExpectedLinksLength(prefix, prefixValues, idx);
    var done := ExpectedLinks(prefix, prefixValues, idx).value;
    var row := RowLinks(levels[n], values[n], idx);
    RowSliceAppend(done, row, n);
    if q < n {
      ExpectedLinksRow(prefix, prefixValues, idx, q);
      assert levels[q] == prefix[q] && values[q] == prefixValues[q];
    }
  }

  /** On failure the missing label belongs to the first row that has a label
      without an index, and is that row's first such label. */
  lemma {:induction false} ExpectedLinksFailure(levels: seq<Levels>, values: seq<int>, idx: map<string, int>)
    requires |levels| == |values|
    requires ExpectedLinks(levels, values, idx).Failure?
    ensures exists q :: (0 <= q < |levels| && AllIndexed(levels[..q], idx) &&
      MissingLabel(levels[q], idx) == Some(ExpectedLinks(levels, values, idx).error))
    decreases |levels|
  {
    var n := |levels| - 1;
    var e := ExpectedLinks(levels, values, idx).error;
    if ExpectedLinks(levels[..n], values[..n], idx).Failure? {
      ExpectedLinksFailure(levels[..n], values[..n], idx);
      var q :| 0 <= q < n && AllIndexed(levels[..n][..q], idx) &&
        MissingLabel(levels[..n][q], idx) == Some(e);
      assert levels[..n][..q] == levels[..q] && levels[..n][q] == levels[q];
    } else {
      ExpectedLinksSucceeds(levels[..n], values[..n], idx);
      assert levels[..n] == levels[..n][..n];
    }
  }

  /** A successful run ends with the links of the last row, whose labels all
      have an index. */
  lemma ExpectedLinksLast(levels: seq<Levels>, values: seq<int>, idx: map<string, int>)
    requires |levels| == |values| && levels != []
    requires ExpectedLinks(levels, values, idx).Success?
    ensures ExpectedLinks(levels[..|levels| - 1], values[..|levels| - 1], idx).Success?
    ensures Indexed(levels[|levels| - 1], idx)
    ensures ExpectedLinks(levels, values, idx) == Success(Append(
      ExpectedLinks(levels[..|levels| - 1], values[..|levels| - 1], idx).value,
      RowLinks(levels[|levels| - 1], values[|levels| - 1], idx)))
  {
  }

  /** One more row: the result for the first r + 1 rows, from that for the
      first r rows. */
  lemma ExpectedLinksStep(levels: seq<Levels>, values: seq<int>, idx: map<string, int>, r: nat)
    requires |levels| == |values| && r < |levels|
    ensures ExpectedLinks(levels[..r + 1], values[..r + 1], idx) ==
      match ExpectedLinks(levels[..r], values[..r], idx)
      case Failure(e) => Failure(e)
      case Success(done) =>
        match MissingLabel(levels[r], idx)
        case Some(x) => Failure(x)
        case None => Success(Append(done, RowLinks(levels[r], values[r], idx)))
  {
    assert levels[..r + 1][..r] == levels[..r] && values[..r + 1][..r] == values[..r];
    assert levels[..r + 1][r] == levels[r] && values[..r + 1][r] == values[r];
  }

  /** Once a prefix of the rows fails, the whole table fails with the same label. */
  lemma {:induction false} ExpectedLinksFailurePersists(levels: seq<Levels>, values: seq<int>, idx: map<string, int>, k: nat)
    requires |levels| == |values| && k <= |levels|
    requires ExpectedLinks(levels[..k], values[..k], idx).Failure?
    ensures ExpectedLinks(levels, values, idx) == ExpectedLinks(levels[..k], values[..k], idx)
    decreases |levels| - k
  {
    if k < |levels| {
      var k' := k + 1;
      assert levels[..k'][..k] == levels[..k] && values[..k'][..k] == values[..k];
      ExpectedLinksFailurePersists(levels, values, idx, k');
    } else {
      assert levels[..k] == levels && values[..k] == values;
    }
  }

  /** Every index a link carries is a value of idx. */
  lemma {:induction false} ExpectedLinksUseIndices(levels: seq<Levels>, values: seq<int>, idx: map<string, int>)
    requires |levels| == |values|
    requires ExpectedLinks(levels, values, idx).Success?
    ensures forall i :: 0 <= i < |ExpectedLinks(levels, values, idx).value.source| ==>
      ExpectedLinks(levels, values, idx).value.source[i] in idx.Values
    ensures forall i :: 0 <= i < |ExpectedLinks(levels, values, idx).value.target| ==>
      ExpectedLinks(levels, values, idx).value.target[i] in idx.Values
    decreases |levels|
  {
    if levels != [] {
      var n := |levels| - 1;
      ExpectedLinksUseIndices(levels[..n], values[..n], idx);
      assert MissingLabel(levels[n], idx).None?;
      var l := levels[n];
      var row := RowLinks(l, values[n], idx);
      assert forall i :: 0 <= i < |row.source| ==> row.source[i] in idx.Values;
      assert forall i :: 0 <= i < |row.target| ==> row.target[i] in idx.Values;
    }
  }

  /** The loop of the script: for each row, append its five links to
      links['source'], links['target'] and links['value']; a label missing
      from idx stops the loop with that label. */
  method BuildLinks(levels: seq<Levels>, values: seq<int>, idx: map<string, int>)
    returns (res: Result<LinkLists, string>)
    requires |levels| == |values|
    ensures res == ExpectedLinks(levels, values, idx)
    ensures res.Success? <==> AllIndexed(levels, idx)
    ensures res.Success? ==> HasLength(res.value, 5 * |levels|)
  {
    ExpectedLinksSucceeds(levels, values, idx);
    var source, target, value := [], [], [];
    var r := 0;
    while r < |levels|
      invariant 0 <= r <= |levels|
      invariant ExpectedLinks(levels[..r], values[..r], idx) == Success(LinkLists(source, target, value))
    {
      var l, v := levels[r], values[r];
      ExpectedLinksStep(levels, values, idx, r);
      var missing := MissingLabel(l, idx);
      if missing.Some? {
        ExpectedLinksFailurePersists(levels, values, idx, r + 1);
        return Failure(missing.value);
      }
      // Region -> Subregion, Subregion -> Area, Area -> Branch,
      // Branch -> Account Type, Account Type -> Transaction To
      source := source + [idx[l.region], idx[l.subregion], idx[l.area], idx[l.branch], idx[l.accountType]];
      target := target + [idx[l.subregion], idx[l.area], idx[l.branch], idx[l.accountType], idx[l.transactionTo]];
      value := value + [v, v, v, v, v];
      r := r + 1;
    }
    assert levels[..r] == levels && values[..r] == values;
    res := Success(LinkLists(source, target, value));
    ExpectedLinksRows(levels, values, idx);
  }
}
