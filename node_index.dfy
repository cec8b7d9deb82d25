/**
 * The node list of the Sankey diagram (the distinct hierarchy labels) and the
 * label-to-index dictionary built from it.
 */
module NodeIndex {

  /** No label occurs twice. */
  predicate Distinct(s: seq<string>)
  {
    forall i, j :: 0 <= i < j < |s| ==> s[i] != s[j]
  }

  /** The position of the first occurrence of x in s. */
  function FirstIndex(s: seq<string>, x: string): (i: nat)
    requires x in s
    ensures i < |s| && s[i] == x && x !in s[..i]
    decreases |s|
  {
    var n := |s| - 1;
    assert s == s[..n] + [s[n]];
    if x in s[..n] then
      var i := FirstIndex(s[..n], x);
      assert s[..n][..i] == s[..i];
      i
    else
      n
  }

  /** The labels of s, each once, in order of first appearance. */
  function Unique(s: seq<string>): (r: seq<string>)
    ensures Distinct(r)
    ensures forall x :: x in r <==> x in s
    ensures |r| <= |s|
    decreases |s|
  {
    if s == [] then []
    else
      var n := |s| - 1;
      assert s == s[..n] + [s[n]];
      var prefix := Unique(s[..n]);
      if s[n] in prefix then prefix else prefix + [s[n]]
  }

  /** t lists labels of s in increasing order of their first appearance in s. */
  ghost predicate InFirstSeenOrder(s: seq<string>, t: seq<string>)
  {
    && (forall x :: x in t ==> x in s)
    && forall i, j :: 0 <= i < j < |t| ==> FirstIndex(s, t[i]) < FirstIndex(s, t[j])
  }

  /** The first appearance of a label of a prefix is the same in the whole sequence. */
  lemma FirstIndexPrefix(s: seq<string>, x: string)
    requires |s| > 0 && x in s[..|s| - 1]
    ensures FirstIndex(s, x) == FirstIndex(s[..|s| - 1], x)
  {
  }

  /** In a distinct sequence every label first appears where it stands. */
  lemma FirstIndexOfDistinct(s: seq<string>, i: nat)
    requires Distinct(s) && i < |s|
    ensures FirstIndex(s, s[i]) == i
  {
  }

  /** Unique keeps the order of first appearance. */
  lemma {:induction false} UniqueFirstSeenOrder(s: seq<string>)
    ensures InFirstSeenOrder(s, Unique(s))
  {
    if s != [] {
      var n := |s| - 1;
      var p := s[..n];
      UniqueFirstSeenOrder(p);
      var r := Unique(s);
      var u := Unique(p);
      forall i, j | 0 <= i < j < |r|
        ensures FirstIndex(s, r[i]) < FirstIndex(s, r[j])
      {
        assert r[i] == u[i];
        FirstIndexPrefix(s, r[i]);
        if j < |u| {
          assert r[j] == u[j];
          FirstIndexPrefix(s, r[j]);
        } else {
          assert r[j] == s[n] && s[n] !in p;
        }
      }
    }
  }

  /** Unique is the only distinct sequence of the labels of s in order of
      first appearance: an independent characterisation of Unique. */
  lemma {:induction false} UniqueCharacterised(s: seq<string>, t: seq<string>)
    requires Distinct(t)
    requires forall x :: x in s ==> x in t
    requires InFirstSeenOrder(s, t)
    ensures t == Unique(s)
  {
    if s == [] {
      assert (set x | x in t) == {};
      DistinctCardinality(t);
    } else {
      var n := |s| - 1;
      var p := s[..n];
      assert s == p + [s[n]];
      if s[n] in p {
        forall x | x in t
          ensures x in p
        {
          assert x in s;
        }
        OrderOnPrefix(s, t);
        UniqueCharacterised(p, t);
      } else {
        var m := |t| - 1;
        NewLabelIsLast(s, t);
        var t' := t[..m];
        assert t == t' + [s[n]];
        DropLastKeepsOrder(s, t);
        forall x | x in t'
          ensures x in p
        {
          var i :| 0 <= i < m && t'[i] == x;
          assert x in s && x != s[n];
        }
        forall x | x in p
          ensures x in t'
        {
          assert x in s && x != s[n];
        }
        OrderOnPrefix(s, t');
        UniqueCharacterised(p, t');
      }
    }
  }

  /** Dropping the last label keeps the first-seen order. */
  lemma DropLastKeepsOrder(s: seq<string>, t: seq<string>)
    requires t != [] && InFirstSeenOrder(s, t)
    ensures InFirstSeenOrder(s, t[..|t| - 1])
  {
  }

  /** Labels all drawn from the prefix s[..|s| - 1] keep their first-seen
      order with respect to that prefix. */
  lemma OrderOnPrefix(s: seq<string>, t: seq<string>)
    requires s != [] && InFirstSeenOrder(s, t)
    requires forall x :: x in t ==> x in s[..|s| - 1]
    ensures InFirstSeenOrder(s[..|s| - 1], t)
  {
  }

  /** A label that first appears at the end of s closes every sequence that
      lists the labels of s in order of first appearance. */
  lemma NewLabelIsLast(s: seq<string>, t: seq<string>)
    requires s != [] && s[|s| - 1] !in s[..|s| - 1] && s[|s| - 1] in t
    requires InFirstSeenOrder(s, t)
    ensures t[|t| - 1] == s[|s| - 1]
  {
  }

  /** The unique labels of a prefix of the input are a prefix of the unique
      labels of the whole input. */
  lemma {:induction false} UniqueExtends(a: seq<string>, b: seq<string>)
    ensures |Unique(a)| <= |Unique(a + b)|
    ensures Unique(a + b)[..|Unique(a)|] == Unique(a)
    decreases |b|
  {
    if b == [] {
      assert a + b == a;
    } else {
      var n := |b| - 1;
      UniqueExtends(a, b[..n]);
      assert (a + b)[..|a + b| - 1] == a + b[..n];
    }
  }

  /** A distinct sequence has as many elements as the set of its elements. */
  lemma {:induction false} DistinctCardinality(s: seq<string>)
    requires Distinct(s)
    ensures |set x | x in s| == |s|
  {
    if s != [] {
      var n := |s| - 1;
      DistinctCardinality(s[..n]);
      assert s == s[..n] + [s[n]];
      assert (set x | x in s) == (set x | x in s[..n]) + {s[n]};
    }
  }

  /** The node index: each label maps to a position of the node list that
      holds it, and to the last such position when it occurs twice. */
  function NodeIndices(nodes: seq<string>): (m: map<string, int>)
    ensures forall x :: x in m <==> x in nodes
    ensures forall x :: x in m ==> 0 <= m[x] < |nodes| && nodes[m[x]] == x && x !in nodes[m[x] + 1..]
    decreases |nodes|
  {
    if nodes == [] then map[]
    else
      var n := |nodes| - 1;
      assert nodes == nodes[..n] + [nodes[n]];
      NodeIndices(nodes[..n])[nodes[n] := n]
  }

  /** On a duplicate-free node list the dictionary is a bijection between the
      nodes and the positions 0 .. |nodes| - 1. */
  lemma NodeIndicesBijection(nodes: seq<string>)
    requires Distinct(nodes)
    ensures forall i :: 0 <= i < |nodes| ==> NodeIndices(nodes)[nodes[i]] == i
    ensures forall v :: v in NodeIndices(nodes).Values <==> 0 <= v < |nodes|
    ensures |NodeIndices(nodes)| == |nodes|
  {
    NodeIndicesPositions(nodes);
    NodeIndicesValues(nodes);
    NodeIndicesSize(nodes);
  }

  /** On a duplicate-free node list the indices are exactly 0 .. |nodes| - 1. */
  lemma NodeIndicesValues(nodes: seq<string>)
    requires Distinct(nodes)
    ensures forall v :: v in NodeIndices(nodes).Values <==> 0 <= v < |nodes|
  {
    var m := NodeIndices(nodes);
    NodeIndicesPositions(nodes);
    forall v | v in m.Values
      ensures 0 <= v < |nodes|
    {
      var x :| x in m && m[x] == v;
    }
    forall v | 0 <= v < |nodes|
      ensures v in m.Values
    {
      assert m[nodes[v]] == v;
    }
  }

  /** On a duplicate-free node list each node maps to its own position. */
  lemma NodeIndicesPositions(nodes: seq<string>)
    requires Distinct(nodes)
    ensures forall i :: 0 <= i < |nodes| ==> NodeIndices(nodes)[nodes[i]] == i
  {
  }

  /** The dictionary has one entry per distinct node. */
  lemma NodeIndicesSize(nodes: seq<string>)
    requires Distinct(nodes)
    ensures |NodeIndices(nodes)| == |nodes|
  {
    var m := NodeIndices(nodes);
    var labels := set x | x in nodes;
    assert m.Keys == labels;
    DistinctCardinality(nodes);
  }
}
