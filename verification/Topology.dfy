/**
 internal/topology/graph.go: link scans, the bounded walk over parent pointers, and
 the next hop along the control tree.
 */
module Topology {
  import opened Prelude
  import opened Model
  import opened Walks
  import opened ControlTree

  datatype Hop = Hop(peer: NodeId, iface: string, linkId: LinkId)

  // ----- links -----

  ghost predicate EnabledBetween(links: seq<Link>, a: NodeId, b: NodeId) {
    exists i :: 0 <= i < |links| && links[i].enabled && Joins(links[i], a, b)
  }

  ghost function LinkEdges(links: seq<Link>): Edges {
    iset e: (NodeId, NodeId) | EnabledBetween(links, e.0, e.1)
  }

  /** The first enabled link, in list order, between `a` and `b`. */
  function FirstLink(links: seq<Link>, a: NodeId, b: NodeId): Option<Link> {
    if links == [] then None
    else if links[0].enabled && Joins(links[0], a, b) then Some(links[0])
    else FirstLink(links[1..], a, b)
  }

  /** The interface name of `l` on the side of `from`, when it leads to `to`. */
  function LocalIface(l: Link, from: NodeId, to: NodeId): string {
    if l.nodeA == from && l.nodeB == to then l.ifaceA else l.ifaceB
  }

  function LinkHop(links: seq<Link>, from: NodeId, to: NodeId): Option<Hop> {
    match FirstLink(links, from, to)
    case None => None
    case Some(l) => Some(Hop(to, LocalIface(l, from, to), l.id))
  }

  lemma {:induction false} FirstLinkIsFirst(links: seq<Link>, a: NodeId, b: NodeId)
    ensures FirstLink(links, a, b).Some? <==> EnabledBetween(links, a, b)
    ensures forall l :: FirstLink(links, a, b) == Some(l) ==>
      exists i :: 0 <= i < |links| && links[i] == l && l.enabled && Joins(l, a, b)
                  && forall j :: 0 <= j < i ==> !(links[j].enabled && Joins(links[j], a, b))
  {
    if links != [] {
      var rest := links[1..];
      FirstLinkIsFirst(rest, a, b);
      if links[0].enabled && Joins(links[0], a, b) {
        assert links[0].enabled && Joins(links[0], a, b);
      } else {
        assert forall i :: 0 < i < |links| ==> links[i] == rest[i - 1];
        if FirstLink(rest, a, b).Some? {
          var l := FirstLink(rest, a, b).value;
          var i :| 0 <= i < |rest| && rest[i] == l && l.enabled && Joins(l, a, b)
                   && forall j :: 0 <= j < i ==> !(rest[j].enabled && Joins(rest[j], a, b));
          assert links[i + 1] == l;
        }
        if EnabledBetween(links, a, b) {
          var i :| 0 <= i < |links| && links[i].enabled && Joins(links[i], a, b);
          assert rest[i - 1].enabled && Joins(rest[i - 1], a, b);
        }
      }
    }
  }

  /** Both ends of a pair choose the same link, whichever of its ends is listed first. */
  lemma FirstLinkSymmetric(links: seq<Link>, a: NodeId, b: NodeId)
    ensures FirstLink(links, a, b) == FirstLink(links, b, a)
  {
  }

  lemma LinkEdgesSymmetric(links: seq<Link>)
    ensures Symmetric(LinkEdges(links))
  {
    forall a, b | (a, b) in LinkEdges(links) ensures (b, a) in LinkEdges(links) {
      var i :| 0 <= i < |links| && links[i].enabled && Joins(links[i], a, b);
      assert Joins(links[i], b, a);
    }
  }

  method HasDirectLink(links: seq<Link>, a: NodeId, b: NodeId) returns (found: bool)
    ensures found <==> (a, b) in LinkEdges(links)
  {
    for i := 0 to |links|
      invariant forall j :: 0 <= j < i ==> !(links[j].enabled && Joins(links[j], a, b))
    {
      var l := links[i];
      if !l.enabled {
        continue;
      }
      if (l.nodeA == a && l.nodeB == b) || (l.nodeA == b && l.nodeB == a) {
        return true;
      }
    }
    return false;
  }

  method LinkToward(links: seq<Link>, from: NodeId, to: NodeId) returns (iface: string, linkId: LinkId, ok: bool)
    ensures ok <==> (from, to) in LinkEdges(links)
    ensures ok ==> LinkHop(links, from, to) == Some(Hop(to, iface, linkId))
    ensures !ok ==> LinkHop(links, from, to) == None
  {
    FirstLinkIsFirst(links, from, to);
    for i := 0 to |links|
      invariant FirstLink(links, from, to) == FirstLink(links[i..], from, to)
    {
      var l := links[i];
      if !l.enabled {
        continue;
      }
      if l.nodeA == from && l.nodeB == to {
        return l.ifaceA, l.id, true;
      }
      if l.nodeB == from && l.nodeA == to {
        return l.ifaceB, l.id, true;
      }
    }
    return "", "", false;
  }

  // ----- path validation -----

  datatype PathError = TooShort | ForwardingLoop(node: NodeId) | NoLink(a: NodeId, b: NodeId)

  /** Hop `i` repeats an earlier one, or has no enabled link from hop `i - 1`. */
  ghost predicate BadHop(links: seq<Link>, hops: seq<NodeId>, i: nat)
    requires i < |hops|
  {
    hops[i] in hops[..i] || (i > 0 && (hops[i - 1], hops[i]) !in LinkEdges(links))
  }

  ghost predicate FirstBadHop(links: seq<Link>, hops: seq<NodeId>, i: nat) {
    i < |hops| && BadHop(links, hops, i) && forall j: nat :: j < i ==> !BadHop(links, hops, j)
  }

  function HopError(hops: seq<NodeId>, i: nat): PathError
    requires i < |hops|
  {
    if i == 0 || hops[i] in hops[..i] then ForwardingLoop(hops[i]) else NoLink(hops[i - 1], hops[i])
  }

  method ValidatePath(links: seq<Link>, hops: seq<NodeId>) returns (err: Option<PathError>)
    ensures err == None <==>
            2 <= |hops| && SimplePath(LinkEdges(links), hops, hops[0], hops[|hops| - 1])
    ensures err == Some(TooShort) <==> |hops| < 2
    ensures err.Some? && err.value != TooShort ==>
              exists i: nat :: FirstBadHop(links, hops, i) && err.value == HopError(hops, i)
  {
    if |hops| < 2 {
      return Some(TooShort);
    }
    var seen: set<NodeId> := {};
    for i := 0 to |hops|
      invariant forall x :: x in seen <==> x in hops[..i]
      invariant forall j: nat :: j < i ==> !BadHop(links, hops, j)
    {
      var h := hops[i];
      if h in seen {
        assert FirstBadHop(links, hops, i);
        return Some(ForwardingLoop(h));
      }
      seen := seen + {h};
      if i == 0 {
        continue;
      }
      var direct := HasDirectLink(links, hops[i - 1], h);
      if !direct {
        assert FirstBadHop(links, hops, i);
        return Some(NoLink(hops[i - 1], h));
      }
    }
    GoodHopsAreSimple(links, hops);
    return None;
  }

  lemma GoodHopsAreSimple(links: seq<Link>, hops: seq<NodeId>)
    requires 2 <= |hops|
    ensures SimplePath(LinkEdges(links), hops, hops[0], hops[|hops| - 1]) <==>
            forall i: nat :: i < |hops| ==> !BadHop(links, hops, i)
  {
    if forall i: nat :: i < |hops| ==> !BadHop(links, hops, i) {
      forall i, j | 0 <= i < j < |hops| ensures hops[i] != hops[j] {
        assert !BadHop(links, hops, j);
        assert hops[i] in hops[..j];
      }
      forall i | 0 <= i < |hops| - 1 ensures (hops[i], hops[i + 1]) in LinkEdges(links) {
        assert !BadHop(links, hops, i + 1);
      }
    }
    if SimplePath(LinkEdges(links), hops, hops[0], hops[|hops| - 1]) {
      forall i: nat | i < |hops| ensures !BadHop(links, hops, i) {
        if i > 0 {
          assert (hops[i - 1], hops[i - 1 + 1]) in LinkEdges(links);
        }
      }
    }
  }

  // ----- the walk over parent pointers -----

  /** Edges a chain may have before the source gives up on it. */
  const MAX_DEPTH: nat := 1025

  /** The condition under which the walk from both ends meets. */
  ghost predicate Routable(p: Parents, src: NodeId, dst: NodeId) {
    && DepthWithin(p, src, MAX_DEPTH)
    && exists k: nat :: k <= MAX_DEPTH && Meets(p, src, dst, k)
  }

  /** The `k`-th ancestor of `dst` exists and is an ancestor of `src`. */
  ghost predicate Meets(p: Parents, src: NodeId, dst: NodeId, k: nat) {
    Anc(p, dst, k).Some? && Under(p, src, Anc(p, dst, k).value)
  }

  /** The first `k` nodes of the chain above `x`. */
  function Chain(p: Parents, x: NodeId, k: nat): (c: seq<NodeId>)
    requires k == 0 || Anc(p, x, k - 1).Some?
    ensures |c| == k
    decreases k
  {
    if k == 0 then [] else if k == 1 then [x] else [x] + Chain(p, p[x], k - 1)
  }

  lemma {:induction false} ChainAt(p: Parents, x: NodeId, k: nat, i: nat)
    requires i < k && Anc(p, x, k - 1).Some?
    ensures Anc(p, x, i) == Some(Chain(p, x, k)[i])
    decreases k
  {
    if i > 0 {
      ChainAt(p, p[x], k - 1, i - 1);
    }
  }

  lemma {:induction false} ChainEndsAtRoot(p: Parents, x: NodeId, k: nat, d: nat)
    requires Anc(p, x, k).Some? && RootAt(p, Anc(p, x, k).value, d)
    ensures RootAt(p, x, k + d)
    decreases k
  {
    if k > 0 {
      ChainEndsAtRoot(p, p[x], k - 1, d);
    }
  }

  lemma ChainDistinct(p: Parents, x: NodeId, i: nat, j: nat)
    requires Rooted(p, x) && Anc(p, x, i).Some? && Anc(p, x, i) == Anc(p, x, j)
    ensures i == j
  {
    var d: nat :| RootAt(p, x, d);
    AncDepth(p, x, d, i);
    AncDepth(p, x, d, j);
    DepthUnique(p, Anc(p, x, i).value, d - i, d - j);
  }

  lemma AncStep(p: Parents, x: NodeId, k: nat)
    requires Anc(p, x, k).Some?
    ensures var y := Anc(p, x, k).value;
            Anc(p, x, k + 1) == if y in p then Some(p[y]) else None
  {
    AncCompose(p, x, k, 1);
    var y := Anc(p, x, k).value;
    if y in p { assert Anc(p, p[y], 0) == Some(p[y]); }
  }

  lemma ChainIsWalk(p: Parents, x: NodeId, k: nat)
    requires 0 < k && Anc(p, x, k - 1).Some?
    ensures IsWalk(TreeEdges(p), Chain(p, x, k))
  {
    var c := Chain(p, x, k);
    forall i | 0 <= i < |c| - 1 ensures (c[i], c[i + 1]) in TreeEdges(p) {
      ChainAt(p, x, k, i);
      ChainAt(p, x, k, i + 1);
      AncStep(p, x, i);
    }
  }

  lemma ChainNoDuplicates(p: Parents, x: NodeId, k: nat)
    requires Rooted(p, x) && 0 < k && Anc(p, x, k - 1).Some?
    ensures NoDuplicates(Chain(p, x, k))
  {
    var c := Chain(p, x, k);
    forall i, j | 0 <= i < j < |c| ensures c[i] != c[j] {
      ChainAt(p, x, k, i);
      ChainAt(p, x, k, j);
      if c[i] == c[j] { ChainDistinct(p, x, i, j); }
    }
  }

  /** Two walks whose last vertices are adjacent join into one. */
  lemma JoinWalks(edges: Edges, up: seq<NodeId>, down: seq<NodeId>)
    requires Symmetric(edges) && IsWalk(edges, up) && IsWalk(edges, down)
    requires (up[|up| - 1], down[|down| - 1]) in edges
    ensures IsWalk(edges, up + Reverse(down))
  {
    var r := Reverse(down);
    var q := up + r;
    forall i | 0 <= i < |q| - 1 ensures (q[i], q[i + 1]) in edges {
      if i >= |up| {
        var n := |down| - 2 - (i - |up|);
        assert (down[n], down[n + 1]) in edges;
      }
    }
  }

  /**
   Up to the `m`-th ancestor of `src`, then back down the chain of `dst`: a simple
   path, provided no earlier node of that chain is above `src`.
   */
  lemma JoinedChains(p: Parents, src: NodeId, dst: NodeId, m: nat, j: nat)
    requires Rooted(p, src)
    requires Anc(p, src, m).Some? && Anc(p, src, m) == Anc(p, dst, j)
    requires forall k: nat :: k < j ==> !Meets(p, src, dst, k)
    requires j > 0 ==> Anc(p, dst, j - 1).Some?
    ensures SimplePath(TreeEdges(p), Chain(p, src, m + 1) + Reverse(Chain(p, dst, j)), src, dst)
  {
    var up, down := Chain(p, src, m + 1), Chain(p, dst, j);
    ChainIsWalk(p, src, m + 1);
    ChainNoDuplicates(p, src, m + 1);
    ChainAt(p, src, m + 1, 0);
    ChainAt(p, src, m + 1, m);
    if j == 0 {
      assert up + Reverse(down) == up;
    } else {
      var d: nat :| RootAt(p, src, d);
      AncDepth(p, src, d, m);
      ChainEndsAtRoot(p, dst, j, d - m);
      ChainIsWalk(p, dst, j);
      ChainNoDuplicates(p, dst, j);
      ChainAt(p, dst, j, 0);
      ChainAt(p, dst, j, j - 1);
      AncStep(p, dst, j - 1);
      JoinWalks(TreeEdges(p), up, down);
      forall i, k | 0 <= i <= m && 0 <= k < j ensures up[i] != down[k] {
        ChainAt(p, src, m + 1, i);
        ChainAt(p, dst, j, k);
        assert !Meets(p, src, dst, k);
        assert Under(p, src, up[i]);
      }
    }
  }

  lemma {:induction false} LeastMeeting(p: Parents, src: NodeId, dst: NodeId, k: nat) returns (j: nat)
    requires Meets(p, src, dst, k)
    ensures j <= k && Meets(p, src, dst, j) && forall i: nat :: i < j ==> !Meets(p, src, dst, i)
  {
    if i: nat :| i < k && Meets(p, src, dst, i) {
      j := LeastMeeting(p, src, dst, i);
    } else {
      j := k;
    }
  }

  lemma RoutableHasPath(p: Parents, src: NodeId, dst: NodeId)
    requires Routable(p, src, dst)
    ensures exists q :: SimplePath(TreeEdges(p), q, src, dst)
  {
    var k: nat :| k <= MAX_DEPTH && Meets(p, src, dst, k);
    var j := LeastMeeting(p, src, dst, k);
    var m: nat :| Anc(p, src, m) == Anc(p, dst, j);
    if j > 0 { AncPrefix(p, dst, j, j - 1); }
    JoinedChains(p, src, dst, m, j);
  }

  lemma {:induction false} AncPrefix(p: Parents, x: NodeId, k: nat, i: nat)
    requires Anc(p, x, k).Some? && i <= k
    ensures Anc(p, x, i).Some?
    decreases i
  {
    if i > 0 {
      AncPrefix(p, p[x], k - 1, i - 1);
    }
  }

  /** The one simple path of the control tree, when the bounded walk finds it. */
  ghost function TreePath(p: Parents, src: NodeId, dst: NodeId): (r: Option<seq<NodeId>>)
    ensures r.Some? <==> Routable(p, src, dst)
    ensures r.Some? ==> SimplePath(TreeEdges(p), r.value, src, dst)
  {
    if Routable(p, src, dst) then
      RoutableHasPath(p, src, dst);
      var q :| SimplePath(TreeEdges(p), q, src, dst);
      Some(q)
    else None
  }

  method ControlTreePath(parentOf: Parents, src: NodeId, dst: NodeId) returns (path: seq<NodeId>, ok: bool)
    ensures ok <==> Routable(parentOf, src, dst)
    ensures ok ==> SimplePath(TreeEdges(parentOf), path, src, dst)
    ensures ok ==> forall q :: SimplePath(TreeEdges(parentOf), q, src, dst) ==> q == path
    ensures !ok ==> path == []
  {
    var ancestors: map<NodeId, nat> := map[];
    var up := [src];
    var cur := src;
    var i := 0;
    while true
      invariant 0 <= i <= 1025 && |up| == i + 1 && cur == up[i]
      invariant forall k: nat :: k <= i ==> Anc(parentOf, src, k) == Some(up[k])
      invariant forall k: nat :: k < i ==> up[k] in ancestors
      invariant forall x :: x in ancestors ==> ancestors[x] < i && up[ancestors[x]] == x
      decreases 1025 - i
    {
      ancestors := ancestors[cur := i];
      AncStep(parentOf, src, i);
      if cur !in parentOf {
        break;
      }
      var above := parentOf[cur];
      up := up + [above];
      cur := above;
      if i > 1024 {
        TooDeep(parentOf, src);
        return [], false;
      }
      i := i + 1;
    }
    ChainEndsAtRoot(parentOf, src, i, 0);
    assert DepthWithin(parentOf, src, MAX_DEPTH) && Rooted(parentOf, src);
    forall x ensures x in ancestors <==> Under(parentOf, src, x) {
      if k: nat :| Anc(parentOf, src, k) == Some(x) {
        AncDepth(parentOf, src, i, k);
        assert up[k] in ancestors;
      }
      assert x in ancestors ==> Anc(parentOf, src, ancestors[x]) == Some(x);
    }
    var down: seq<NodeId> := [];
    cur := dst;
    var j := 0;
    while true
      invariant 0 <= j <= 1025 && |down| == j
      invariant Anc(parentOf, dst, j) == Some(cur)
      invariant forall k: nat :: k < j ==> Anc(parentOf, dst, k) == Some(down[k]) && !Meets(parentOf, src, dst, k)
      decreases 1025 - j
    {
      if cur in ancestors {
        var lca := ancestors[cur];
        path := up[..lca + 1];
        for n := |down| downto 0
          invariant path == up[..lca + 1] + Reverse(down[n..])
        {
          path := path + [down[n]];
        }
        PathFound(parentOf, src, dst, up, down, lca);
        return path, true;
      }
      down := down + [cur];
      AncStep(parentOf, dst, j);
      if cur !in parentOf {
        ChainEndsAtRoot(parentOf, dst, j, 0);
        forall k: nat | k > j ensures !Meets(parentOf, src, dst, k) { AncDepth(parentOf, dst, j, k); }
        return [], false;
      }
      cur := parentOf[cur];
      if j > 1024 {
        return [], false;
      }
      j := j + 1;
    }
  }

  lemma TooDeep(p: Parents, x: NodeId)
    requires Anc(p, x, 1026).Some?
    ensures !DepthWithin(p, x, MAX_DEPTH)
  {
    if d: nat :| d <= MAX_DEPTH && RootAt(p, x, d) {
      AncDepth(p, x, d, 1026);
    }
  }

  lemma PathFound(p: Parents, src: NodeId, dst: NodeId, up: seq<NodeId>, down: seq<NodeId>, lca: nat)
    requires DepthWithin(p, src, MAX_DEPTH) && lca < |up| && |down| <= MAX_DEPTH
    requires forall k: nat :: k < |up| ==> Anc(p, src, k) == Some(up[k])
    requires forall k: nat :: k < |down| ==> Anc(p, dst, k) == Some(down[k]) && !Meets(p, src, dst, k)
    requires Anc(p, dst, |down|) == Some(up[lca])
    ensures Routable(p, src, dst)
    ensures SimplePath(TreeEdges(p), up[..lca + 1] + Reverse(down), src, dst)
    ensures forall q :: SimplePath(TreeEdges(p), q, src, dst) ==> q == up[..lca + 1] + Reverse(down)
  {
    assert Rooted(p, src);
    assert Meets(p, src, dst, |down|);
    JoinedChains(p, src, dst, lca, |down|);
    forall i: nat | i <= lca ensures up[i] == Chain(p, src, lca + 1)[i] { ChainAt(p, src, lca + 1, i); }
    assert up[..lca + 1] == Chain(p, src, lca + 1);
    forall i: nat | i < |down| ensures down[i] == Chain(p, dst, |down|)[i] { ChainAt(p, dst, |down|, i); }
    assert down == Chain(p, dst, |down|);
    var path := up[..lca + 1] + Reverse(down);
    forall q | SimplePath(TreeEdges(p), q, src, dst) ensures q == path {
      SimplePathUnique(p, q, path, src, dst);
    }
  }

  // ----- the next hop along the control tree -----

  /**
   The hop ControlNextHop must report: defined when the tree path is found and every
   edge of it carries an enabled link; then the first such link to its second node.
   */
  ghost function ControlHop(nodes: seq<Node>, links: seq<Link>, src: NodeId, dst: NodeId): Option<Hop> {
    if src == "" || dst == "" || src == dst then None
    else
      match TreePath(ParentsOf(nodes), src, dst)
      case None => None
      case Some(q) => if IsWalk(LinkEdges(links), q) && 2 <= |q| then LinkHop(links, src, q[1]) else None
  }

  method ControlNextHop(nodes: seq<Node>, links: seq<Link>, src: NodeId, dst: NodeId) returns (hop: Hop, ok: bool)
    ensures ControlHop(nodes, links, src, dst) == if ok then Some(hop) else None
  {
    if src == "" || dst == "" || src == dst {
      return Hop("", "", ""), false;
    }
    var parentOf: Parents := map[];
    for i := 0 to |nodes|
      invariant parentOf == ParentsOf(nodes[..i])
    {
      assert nodes[..i + 1][..i] == nodes[..i];
      var n := nodes[i];
      if n.parent.Some? && n.parent.value != "" {
        parentOf := parentOf[n.id := n.parent.value];
      }
    }
    assert nodes[..|nodes|] == nodes;
    var path, found := ControlTreePath(parentOf, src, dst);
    if !found || |path| < 2 {
      return Hop("", "", ""), false;
    }
    for i := 0 to |path| - 1
      invariant forall k :: 0 <= k < i ==> (path[k], path[k + 1]) in LinkEdges(links)
    {
      var direct := HasDirectLink(links, path[i], path[i + 1]);
      if !direct {
        return Hop("", "", ""), false;
      }
    }
    assert IsWalk(LinkEdges(links), path);
    var iface, linkId, linked := LinkToward(links, src, path[1]);
    if !linked {
      return Hop("", "", ""), false;
    }
    return Hop(path[1], iface, linkId), true;
  }
}
