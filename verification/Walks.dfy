/**
 Walks and simple paths over an arbitrary edge relation. The control tree, the
 enabled WireGuard links and their intersection are all edge relations here.
 */
module Walks {
  import opened Prelude
  import opened Model

  type Edges = iset<(NodeId, NodeId)>

  ghost predicate IsWalk(edges: Edges, w: seq<NodeId>) {
    && 0 < |w|
    && forall i, j {:trigger w[i], w[j]} :: 0 <= i && j == i + 1 < |w| ==> (w[i], w[j]) in edges
  }

  ghost predicate WalkFromTo(edges: Edges, w: seq<NodeId>, a: NodeId, b: NodeId) {
    IsWalk(edges, w) && w[0] == a && w[|w| - 1] == b
  }

  /** A walk from `a` to `b` that visits no vertex twice. */
  ghost predicate SimplePath(edges: Edges, w: seq<NodeId>, a: NodeId, b: NodeId) {
    WalkFromTo(edges, w, a, b) && NoDuplicates(w)
  }

  ghost predicate Connected(edges: Edges, a: NodeId, b: NodeId) {
    exists w :: WalkFromTo(edges, w, a, b)
  }

  ghost predicate Symmetric(edges: Edges) {
    forall a, b :: (a, b) in edges ==> (b, a) in edges
  }

  /** A walk of least length from `a` to `b`. */
  ghost predicate ShortestWalk(edges: Edges, w: seq<NodeId>, a: NodeId, b: NodeId) {
    && WalkFromTo(edges, w, a, b)
    && forall v :: WalkFromTo(edges, v, a, b) ==> |w| <= |v|
  }

  lemma WalkExtend(edges: Edges, w: seq<NodeId>, a: NodeId, b: NodeId, c: NodeId)
    requires WalkFromTo(edges, w, a, b) && (b, c) in edges
    ensures WalkFromTo(edges, w + [c], a, c)
  {
  }

  lemma WalkPrepend(edges: Edges, a: NodeId, w: seq<NodeId>, b: NodeId, c: NodeId)
    requires (a, b) in edges && WalkFromTo(edges, w, b, c)
    ensures WalkFromTo(edges, [a] + w, a, c)
  {
    var v := [a] + w;
    forall i | 0 <= i < |v| - 1 ensures (v[i], v[i + 1]) in edges {
      if i > 0 { assert v[i] == w[i - 1] && v[i + 1] == w[i]; }
    }
  }

  lemma SuffixIsSimple(edges: Edges, w: seq<NodeId>, a: NodeId, b: NodeId, i: nat)
    requires SimplePath(edges, w, a, b) && i < |w|
    ensures SimplePath(edges, w[i..], w[i], b)
  {
  }

  lemma ReversedPrefixIsSimple(edges: Edges, w: seq<NodeId>, a: NodeId, b: NodeId, i: nat)
    requires Symmetric(edges)
    requires SimplePath(edges, w, a, b) && i < |w|
    ensures SimplePath(edges, Reverse(w[..i + 1]), w[i], a)
  {
    var v := w[..i + 1];
    var r := Reverse(v);
    forall k | 0 <= k < |r| - 1 ensures (r[k], r[k + 1]) in edges {
      assert (v[|v| - 2 - k], v[|v| - 1 - k]) in edges;
    }
  }

  /** Every walk can be cut down to a simple path with the same ends. */
  lemma {:induction false} WalkContainsSimplePath(edges: Edges, w: seq<NodeId>, a: NodeId, b: NodeId)
    returns (q: seq<NodeId>)
    requires WalkFromTo(edges, w, a, b)
    ensures SimplePath(edges, q, a, b)
    decreases |w|
  {
    if |w| == 1 {
      q := w;
    } else {
      var rest := WalkContainsSimplePath(edges, w[1..], w[1], b);
      if i :| 0 <= i < |rest| && rest[i] == a {
        q := rest[i..];
        SuffixIsSimple(edges, rest, w[1], b, i);
      } else {
        WalkPrepend(edges, a, rest, w[1], b);
        q := [a] + rest;
      }
    }
  }

  /** After its first vertex, a shortest walk never comes back to it. */
  lemma ShortestWalkLeavesStart(edges: Edges, w: seq<NodeId>, a: NodeId, b: NodeId)
    requires ShortestWalk(edges, w, a, b)
    ensures forall i :: 0 < i < |w| ==> w[i] != a
  {
    forall i | 0 < i < |w| ensures w[i] != a {
      if w[i] == a {
        assert WalkFromTo(edges, w[i..], a, b);
      }
    }
  }

  /** The rest of a shortest walk is a shortest walk from its second vertex. */
  lemma ShortestTail(edges: Edges, w: seq<NodeId>, a: NodeId, b: NodeId)
    requires ShortestWalk(edges, w, a, b) && 2 <= |w|
    ensures ShortestWalk(edges, w[1..], w[1], b)
  {
    assert WalkFromTo(edges, w[1..], w[1], b);
    forall v | WalkFromTo(edges, v, w[1], b) ensures |w[1..]| <= |v| {
      WalkPrepend(edges, a, v, w[1], b);
    }
  }
}
