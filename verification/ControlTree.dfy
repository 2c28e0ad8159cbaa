/**
 The control tree as a parent map: ancestors, depths, and the fact everything
 else rests on, that a forest has at most one simple path between two nodes.
 */
module ControlTree {
  import opened Prelude
  import opened Model
  import opened Walks

  type Parents = map<NodeId, NodeId>

  /** The parent map ControlNextHop builds: the last row of a node id wins. */
  function ParentsOf(nodes: seq<Node>): Parents {
    if nodes == [] then map[]
    else
      var n := nodes[|nodes| - 1];
      var m := ParentsOf(nodes[..|nodes| - 1]);
      if n.parent.Some? && n.parent.value != "" then m[n.id := n.parent.value] else m
  }

  /** The ancestor of `x` that is `k` edges up, if the chain is that long. */
  function Anc(p: Parents, x: NodeId, k: nat): Option<NodeId>
    decreases k
  {
    if k == 0 then Some(x)
    else if x in p then Anc(p, p[x], k - 1)
    else None
  }

  /** `r` is `x` itself or one of its ancestors. */
  ghost predicate Under(p: Parents, x: NodeId, r: NodeId) {
    exists k: nat :: Anc(p, x, k) == Some(r)
  }

  /** The chain above `x` ends in a node without a parent after exactly `d` edges. */
  predicate RootAt(p: Parents, x: NodeId, d: nat)
    decreases d
  {
    if x in p then d > 0 && RootAt(p, p[x], d - 1) else d == 0
  }

  ghost predicate DepthWithin(p: Parents, x: NodeId, bound: nat) {
    exists d: nat :: d <= bound && RootAt(p, x, d)
  }

  ghost predicate Rooted(p: Parents, x: NodeId) {
    exists d: nat :: RootAt(p, x, d)
  }

  predicate TreeAdjacent(p: Parents, a: NodeId, b: NodeId) {
    (a in p && p[a] == b) || (b in p && p[b] == a)
  }

  ghost function TreeEdges(p: Parents): Edges {
    iset e: (NodeId, NodeId) | TreeAdjacent(p, e.0, e.1)
  }

  lemma TreeEdgesSymmetric(p: Parents)
    ensures Symmetric(TreeEdges(p))
  {
  }

  // ----- ancestors and depths -----

  lemma {:induction false} AncCompose(p: Parents, x: NodeId, j: nat, k: nat)
    requires Anc(p, x, j).Some?
    ensures Anc(p, x, j + k) == Anc(p, Anc(p, x, j).value, k)
    decreases j
  {
    if j > 0 {
      AncCompose(p, p[x], j - 1, k);
    }
  }

  lemma {:induction false} DepthUnique(p: Parents, x: NodeId, d: nat, e: nat)
    requires RootAt(p, x, d) && RootAt(p, x, e)
    ensures d == e
    decreases d
  {
    if x in p {
      DepthUnique(p, p[x], d - 1, e - 1);
    }
  }

  lemma {:induction false} AncDepth(p: Parents, x: NodeId, d: nat, k: nat)
    requires RootAt(p, x, d)
    ensures Anc(p, x, k).Some? <==> k <= d
    ensures k <= d ==> RootAt(p, Anc(p, x, k).value, d - k)
    decreases k
  {
    if k > 0 && x in p {
      AncDepth(p, p[x], d - 1, k - 1);
    }
  }

  /** Nothing rooted is its own proper ancestor. */
  lemma NoCycle(p: Parents, x: NodeId, k: nat)
    requires Rooted(p, x) && Anc(p, x, k) == Some(x)
    ensures k == 0
  {
    var d: nat :| RootAt(p, x, d);
    AncDepth(p, x, d, k);
    DepthUnique(p, x, d, d - k);
  }

  lemma ParentUnder(p: Parents, x: NodeId, r: NodeId)
    requires x in p && Under(p, x, r) && x != r
    ensures Under(p, p[x], r)
  {
    var k: nat :| Anc(p, x, k) == Some(r);
    assert Anc(p, p[x], k - 1) == Some(r);
  }

  lemma ChildUnder(p: Parents, x: NodeId, r: NodeId)
    requires x in p && Under(p, p[x], r)
    ensures Under(p, x, r)
  {
    var k: nat :| Anc(p, p[x], k) == Some(r);
    assert Anc(p, x, k + 1) == Some(r);
  }

  lemma UnderSelf(p: Parents, x: NodeId)
    ensures Under(p, x, x)
  {
    assert Anc(p, x, 0) == Some(x);
  }

  lemma NeighbourRooted(p: Parents, x: NodeId, y: NodeId)
    requires Rooted(p, x) && TreeAdjacent(p, x, y)
    ensures Rooted(p, y)
  {
    var d: nat :| RootAt(p, x, d);
    if x in p && p[x] == y {
      assert RootAt(p, y, d - 1);
    } else {
      assert RootAt(p, y, d + 1);
    }
  }

  // ----- separation: a walk that avoids a node stays on one side of it -----

  /** Once inside the subtree of `c`, a walk leaves it only through the parent of `c`. */
  lemma {:induction false} StaysInside(p: Parents, w: seq<NodeId>, c: NodeId, i: nat)
    requires IsWalk(TreeEdges(p), w) && c in p && Under(p, w[0], c)
    requires forall k :: 0 <= k < |w| ==> w[k] != p[c]
    requires i < |w|
    ensures Under(p, w[i], c)
    decreases i
  {
    if i > 0 {
      StaysInside(p, w, c, i - 1);
      assert (w[i - 1], w[i - 1 + 1]) in TreeEdges(p);
      if w[i - 1] in p && p[w[i - 1]] == w[i] {
        ParentUnder(p, w[i - 1], c);
      } else {
        ChildUnder(p, w[i], c);
      }
    }
  }

  /** From outside the subtree of `a`, a walk enters it only through `a`. */
  lemma {:induction false} StaysOutside(p: Parents, w: seq<NodeId>, a: NodeId, i: nat)
    requires IsWalk(TreeEdges(p), w) && !Under(p, w[0], a)
    requires forall k :: 0 <= k < |w| ==> w[k] != a
    requires i < |w|
    ensures !Under(p, w[i], a)
    decreases i
  {
    if i > 0 {
      StaysOutside(p, w, a, i - 1);
      assert (w[i - 1], w[i - 1 + 1]) in TreeEdges(p);
      if Under(p, w[i], a) {
        if w[i - 1] in p && p[w[i - 1]] == w[i] {
          ChildUnder(p, w[i - 1], a);
        } else {
          ParentUnder(p, w[i], a);
        }
      }
    }
  }

  /** The parent of a rooted node is not below it. */
  lemma ParentNotUnder(p: Parents, a: NodeId)
    requires Rooted(p, a) && a in p
    ensures !Under(p, p[a], a)
  {
    if k: nat :| Anc(p, p[a], k) == Some(a) {
      assert Anc(p, a, k + 1) == Some(a);
      NoCycle(p, a, k + 1);
    }
  }

  /** Two children of one rooted node have disjoint subtrees. */
  lemma SiblingsDisjoint(p: Parents, a: NodeId, c1: NodeId, c2: NodeId, b: NodeId)
    requires Rooted(p, a) && c1 in p && c2 in p && p[c1] == a && p[c2] == a
    requires Under(p, b, c1) && Under(p, b, c2)
    ensures c1 == c2
  {
    var k1: nat :| Anc(p, b, k1) == Some(c1);
    var k2: nat :| Anc(p, b, k2) == Some(c2);
    LowerSibling(p, a, c1, c2, b, k1, k2);
    LowerSibling(p, a, c2, c1, b, k2, k1);
  }

  lemma LowerSibling(p: Parents, a: NodeId, c1: NodeId, c2: NodeId, b: NodeId, k1: nat, k2: nat)
    requires Rooted(p, a) && c1 in p && c2 in p && p[c1] == a && p[c2] == a
    requires Anc(p, b, k1) == Some(c1) && Anc(p, b, k2) == Some(c2)
    ensures k2 <= k1
  {
    if k1 < k2 {
      AncCompose(p, b, k1, k2 + 1 - k1);
      AncCompose(p, b, k2, 1);
      assert Anc(p, c1, k2 + 1 - k1) == Anc(p, a, k2 - k1);
      assert Anc(p, c2, 1) == Anc(p, a, 0);
      NoCycle(p, a, k2 - k1);
    }
  }

  /**
   The neighbour of `a` on the way to `b`: the child whose subtree holds `b`, or else
   the parent. Every walk that leaves `a` for good starts there.
   */
  ghost predicate IsStepToward(p: Parents, a: NodeId, y: NodeId, b: NodeId) {
    if a in p && p[a] == y then !Under(p, b, a)
    else y in p && p[y] == a && Under(p, b, y)
  }

  lemma WalkStepsToward(p: Parents, a: NodeId, w: seq<NodeId>, b: NodeId)
    requires Rooted(p, a) && IsWalk(TreeEdges(p), w) && w[|w| - 1] == b
    requires TreeAdjacent(p, a, w[0])
    requires forall k :: 0 <= k < |w| ==> w[k] != a
    ensures IsStepToward(p, a, w[0], b)
  {
    if a in p && p[a] == w[0] {
      ParentNotUnder(p, a);
      StaysOutside(p, w, a, |w| - 1);
    } else {
      UnderSelf(p, w[0]);
      StaysInside(p, w, w[0], |w| - 1);
    }
  }

  lemma StepTowardUnique(p: Parents, a: NodeId, y: NodeId, z: NodeId, b: NodeId)
    requires Rooted(p, a) && IsStepToward(p, a, y, b) && IsStepToward(p, a, z, b)
    ensures y == z
  {
    if a in p && p[a] == y {
      if z != y {
        UnderThrough(p, b, z, a);
      }
    } else if a in p && p[a] == z {
      UnderThrough(p, b, y, a);
    } else {
      SiblingsDisjoint(p, a, y, z, b);
    }
  }

  /** Below a child is below its parent. */
  lemma UnderThrough(p: Parents, b: NodeId, c: NodeId, a: NodeId)
    requires c in p && p[c] == a && Under(p, b, c)
    ensures Under(p, b, a)
  {
    var k: nat :| Anc(p, b, k) == Some(c);
    AncCompose(p, b, k, 1);
    assert Anc(p, c, 1) == Anc(p, a, 0);
    assert Anc(p, b, k + 1) == Some(a);
  }

  /** A forest has at most one simple path between two nodes. */
  lemma {:induction false} SimplePathUnique(p: Parents, q: seq<NodeId>, r: seq<NodeId>, a: NodeId, b: NodeId)
    requires Rooted(p, a)
    requires SimplePath(TreeEdges(p), q, a, b) && SimplePath(TreeEdges(p), r, a, b)
    ensures q == r
    decreases |q|
  {
    if |q| == 1 || |r| == 1 {
      assert a == b;
      assert q[0] == q[|q| - 1] && r[0] == r[|r| - 1];
      assert q == [a] && r == [a];
    } else {
      SimplePathSteps(p, q, a, b);
      SimplePathSteps(p, r, a, b);
      StepTowardUnique(p, a, q[1], r[1], b);
      SuffixIsSimple(TreeEdges(p), q, a, b, 1);
      SuffixIsSimple(TreeEdges(p), r, a, b, 1);
      SimplePathUnique(p, q[1..], r[1..], q[1], b);
      assert q == [a] + q[1..] && r == [a] + r[1..];
    }
  }

  lemma SimplePathSteps(p: Parents, q: seq<NodeId>, a: NodeId, b: NodeId)
    requires Rooted(p, a) && SimplePath(TreeEdges(p), q, a, b) && 2 <= |q|
    ensures IsStepToward(p, a, q[1], b) && TreeAdjacent(p, a, q[1]) && Rooted(p, q[1])
  {
    assert (q[0], q[0 + 1]) in TreeEdges(p);
    SuffixIsSimple(TreeEdges(p), q, a, b, 1);
    WalkStepsToward(p, a, q[1..], b);
    NeighbourRooted(p, a, q[1]);
  }

  // ----- depth along a path -----

  /** A simple path has no interior peak: it is nowhere deeper than at its ends. */
  lemma {:induction false} PathDepth(p: Parents, q: seq<NodeId>, a: NodeId, b: NodeId, da: nat, db: nat, i: nat)
    requires SimplePath(TreeEdges(p), q, a, b) && i < |q|
    requires RootAt(p, a, da) && RootAt(p, b, db)
    ensures DepthWithin(p, q[i], Max(da, db))
    ensures |q| >= 2 && q[1] in p && p[q[1]] == a ==> DepthWithin(p, q[i], db)
    decreases |q|
  {
    if |q| == 1 {
      DepthUnique(p, a, da, db);
    } else {
      assert (q[0], q[0 + 1]) in TreeEdges(p);
      SuffixIsSimple(TreeEdges(p), q, a, b, 1);
      var t := q[1..];
      if q[1] in p && p[q[1]] == a {
        // going down: the next step cannot go back up
        assert RootAt(p, q[1], da + 1);
        if |t| >= 2 {
          assert (t[0], t[0 + 1]) in TreeEdges(p);
          assert q[0] != q[2] && q[2] == t[1];
        }
        PathDepth(p, t, q[1], b, da + 1, db, if i > 0 then i - 1 else 0);
        if |t| == 1 { DepthUnique(p, b, da + 1, db); }
        DescentDeepens(p, t, q[1], b, da + 1, db);
        assert i > 0 ==> q[i] == t[i - 1];
      } else {
        PathDepth(p, t, q[1], b, da - 1, db, if i > 0 then i - 1 else 0);
        assert i > 0 ==> q[i] == t[i - 1];
      }
    }
  }

  /** A simple path that is a single node, or first steps down, ends at least as deep as it starts. */
  lemma {:induction false} DescentDeepens(p: Parents, q: seq<NodeId>, a: NodeId, b: NodeId, da: nat, db: nat)
    requires SimplePath(TreeEdges(p), q, a, b)
    requires RootAt(p, a, da) && RootAt(p, b, db)
    requires |q| >= 2 ==> q[1] in p && p[q[1]] == a
    ensures da <= db
    decreases |q|
  {
    if |q| == 1 {
      DepthUnique(p, a, da, db);
    } else {
      SuffixIsSimple(TreeEdges(p), q, a, b, 1);
      var t := q[1..];
      if |t| >= 2 {
        assert (t[0], t[0 + 1]) in TreeEdges(p);
        assert q[0] != q[2] && q[2] == t[1];
      }
      DescentDeepens(p, t, q[1], b, da + 1, db);
    }
  }

  /** All nodes of a walk hang under the same root. */
  lemma {:induction false} WalkKeepsRoot(p: Parents, w: seq<NodeId>, r: NodeId, i: nat)
    requires IsWalk(TreeEdges(p), w) && r !in p && Under(p, w[0], r) && i < |w|
    ensures Under(p, w[i], r)
    decreases i
  {
    if i > 0 {
      WalkKeepsRoot(p, w, r, i - 1);
      assert (w[i - 1], w[i - 1 + 1]) in TreeEdges(p);
      if w[i - 1] in p && p[w[i - 1]] == w[i] {
        ParentUnder(p, w[i - 1], r);
      } else {
        ChildUnder(p, w[i], r);
      }
    }
  }
}
