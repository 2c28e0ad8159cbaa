/** Who reaches whom over the devices of a published store, and on which ids that depends. */
module Connectivity {
  import opened Prelude
  import opened Model
  import opened Walks
  import opened ControlTree
  import opened Topology
  import opened Tables
  import opened Enrolment
  import opened Store
  import opened StoreShape
  import opened StoreSafety
  import opened Delivery
  import opened DataPlane
  import opened Forwarding
  import opened Network
  import Netd
  import Routing
  import Overlay

  // ----- interface names in a store -----

  /** In a store in order, an interface is named after its node and its peer. */
  lemma NameOfInterface(s: Db, n: NodeId, l: Link)
    requires Shaped(s.links, s.endpoints) && DistinctLinks(s.links) && l in s.links && Touches(l, n)
    ensures IfaceAt(GraphOf(s), n, l) == InterfaceName(n, Routing.PeerOf(l, n)) && IfaceAt(GraphOf(s), n, l) != ""
  {
    assert LinkShaped(l, s.endpoints);
    var ep := Routing.FirstEndpoint(s.endpoints, l.id, n);
    if ep.Some? {
      assert RowShaped(s.links, ep.value);
      var k :| k in s.links && NamedFor(k, ep.value);
      SameLink(s.links, l, k);
    }
  }

  lemma SameLink(links: seq<Link>, l: Link, k: Link)
    requires DistinctLinks(links) && l in links && k in links && l.id == k.id
    ensures l == k
  {
    var i :| 0 <= i < |links| && links[i] == l;
    var j :| 0 <= j < |links| && links[j] == k;
  }

  /** Table 0 names the interface whose AllowedIPs hold the address. */
  lemma RouteDeviceIsInterface(s: Db, n: Node, m: Node)
    requires StoreOk(s) && n in s.nodes && Routing.RouteFor(GraphOf(s), n, m).Some?
    ensures var h := Routing.RouteFor(GraphOf(s), n, m).value;
            exists l :: l in s.links && l.id == h.linkId && h.iface == IfaceAt(GraphOf(s), n.id, l)
  {
    var l := HopLink(GraphOf(s), n, m);
    Routing.IncidentIs(s.links, n.id);
    NameOfInterface(s, n.id, l);
    assert LinkShape(s.nodes, l) && LinkShaped(l, s.endpoints);
  }

  /** No later link configured at `n` leads to a peer whose id starts with the same four characters. */
  ghost predicate LastOfShort(s: Db, n: NodeId, l: Link) {
    exists i :: LastShortAt(n, Routing.Incident(s.links, n), l, i)
  }

  ghost predicate LastShortAt(n: NodeId, ls: seq<Link>, l: Link, i: nat) {
    i < |ls| && ls[i] == l && forall k :: i < k < |ls| ==> ShortPeer(ls[k], n) != ShortPeer(l, n)
  }

  function ShortPeer(l: Link, n: NodeId): string {
    Short(Routing.PeerOf(l, n))
  }

  lemma LastOfNameIff(s: Db, n: NodeId, l: Link)
    requires StoreOk(s) && l in Routing.Incident(s.links, n)
    ensures LastOfName(GraphOf(s), n, l) <==> LastOfShort(s, n, l)
  {
    var g, ls := GraphOf(s), Routing.Incident(s.links, n);
    Routing.IncidentIs(s.links, n);
    assert DistinctLinks(s.links);
    forall k | k in ls ensures IfaceAt(g, n, k) == IfaceAt(g, n, l) <==> ShortPeer(k, n) == ShortPeer(l, n) {
      NameOfInterface(s, n, k);
      NameOfInterface(s, n, l);
      InterfaceNamesDiffer(n, Routing.PeerOf(k, n), Routing.PeerOf(l, n));
    }
    NameOfInterface(s, n, l);
    if LastOfName(g, n, l) {
      var i: nat :| LastAt(g, n, ls, l, i);
      assert LastShortAt(n, ls, l, i);
    }
    if LastOfShort(s, n, l) {
      var i: nat :| LastShortAt(n, ls, l, i);
      assert LastAt(g, n, ls, l, i);
    }
  }

  /** The first enabled link between `a` and `b` exists, and no later one hides its device at either end. */
  ghost predicate EdgeClear(s: Db, a: NodeId, b: NodeId) {
    var l := FirstLink(s.links, a, b);
    l.Some? && LastOfShort(s, a, l.value) && LastOfShort(s, b, l.value)
  }

  lemma EdgeClearIff(s: Db, a: NodeId, b: NodeId)
    requires StoreOk(s)
    ensures EdgeClear(s, a, b) <==> EdgeHasDevices(GraphOf(s), a, b)
    ensures EdgeClear(s, a, b) <==> EdgeClear(s, b, a)
  {
    FirstLinkIsFirst(s.links, a, b);
    FirstLinkSymmetric(s.links, a, b);
    var l := FirstLink(s.links, a, b);
    if l.Some? {
      Routing.IncidentIs(s.links, a);
      Routing.IncidentIs(s.links, b);
      LastOfNameIff(s, a, l.value);
      LastOfNameIff(s, b, l.value);
    }
  }

  /** Peers that differ in their first four characters hide nothing. */
  ghost predicate ShortPeersDiffer(s: Db, n: NodeId) {
    var ls := Routing.Incident(s.links, n);
    forall i, j :: 0 <= i < j < |ls| ==> ShortPeer(ls[i], n) != ShortPeer(ls[j], n)
  }

  lemma LastAmongDistinct(s: Db, n: NodeId, l: Link)
    requires l in Routing.Incident(s.links, n) && ShortPeersDiffer(s, n)
    ensures LastOfShort(s, n, l)
  {
    var ls := Routing.Incident(s.links, n);
    var i :| 0 <= i < |ls| && ls[i] == l;
    assert LastShortAt(n, ls, l, i);
  }

  lemma DistinctPeersAreClear(s: Db, a: NodeId, b: NodeId)
    requires EnabledBetween(s.links, a, b) && ShortPeersDiffer(s, a) && ShortPeersDiffer(s, b)
    ensures EdgeClear(s, a, b)
  {
    FirstLinkIsFirst(s.links, a, b);
    var l := FirstLink(s.links, a, b).value;
    Routing.IncidentIs(s.links, a);
    Routing.IncidentIs(s.links, b);
    LastAmongDistinct(s, a, l);
    LastAmongDistinct(s, b, l);
  }

  // ----- the whole network -----

  /** The devices carry packets from `src` to `dst`, by whatever way. */
  ghost predicate Connects(s: Db, out: map<NodeId, NodeState>, net: Planes, src: Node, dst: Node) {
    exists w :: DeliversAlong(s, out, net, w, src, dst)
  }

  ghost predicate DeliversAlong(s: Db, out: map<NodeId, NodeState>, net: Planes, w: seq<NodeId>, src: Node, dst: Node) {
    2 <= |w| && w[0] == src.id && w[|w| - 1] == dst.id && Delivers(GraphOf(s), out, net, w, src, dst)
  }

  /** The tree path from `src` to `dst` is linked, short enough for both, and has all its devices. */
  ghost predicate ClearWay(s: Db, q: seq<NodeId>, src: Node, dst: Node) {
    LinkedPath(GraphOf(s), q, src.id, dst.id) && DepthWithin(ParentsOf(s.nodes), dst.id, MAX_DEPTH)
    && PathHasDevices(GraphOf(s), q)
  }

  /** Packets arrive exactly if the tree path is linked, no deeper than 1025 at either end, and has all its devices. */
  lemma ConnectsIff(s: Db, dialable: string -> bool, out: map<NodeId, NodeState>, net: Planes, codec: Netd.Codec,
                    src: Node, dst: Node)
    requires StoreOk(s) && AllApplied(GraphOf(s), dialable, out, net, codec)
    requires src in s.nodes && dst in s.nodes && src.id != dst.id
    ensures Connects(s, out, net, src, dst) <==> exists q :: ClearWay(s, q, src, dst)
  {
    StoredGraph(s);
    if Connects(s, out, net, src, dst) {
      var w :| DeliversAlong(s, out, net, w, src, dst);
      DeliveringWalkIsPath(GraphOf(s), dialable, out, net, codec, w, src, dst);
      DeliversIff(GraphOf(s), dialable, out, net, codec, w, src, dst);
      assert ClearWay(s, w, src, dst);
    }
    if q :| ClearWay(s, q, src, dst) {
      DeliversIff(GraphOf(s), dialable, out, net, codec, q, src, dst);
      assert DeliversAlong(s, out, net, q, src, dst);
    }
  }

  ghost predicate AllConnect(s: Db, out: map<NodeId, NodeState>, net: Planes) {
    forall src, dst :: src in s.nodes && dst in s.nodes && src.id != dst.id ==> Connects(s, out, net, src, dst)
  }

  /** Every node's link to its parent has its device at both ends. */
  ghost predicate TreeClear(s: Db) {
    forall x :: x in ParentsOf(s.nodes) ==> EdgeClear(s, x, ParentsOf(s.nodes)[x])
  }

  lemma TreeEdgeClear(s: Db, a: NodeId, b: NodeId)
    requires StoreOk(s) && TreeClear(s) && TreeAdjacent(ParentsOf(s.nodes), a, b)
    ensures EdgeHasDevices(GraphOf(s), a, b)
  {
    EdgeClearIff(s, a, b);
    EdgeClearIff(s, b, a);
  }

  lemma ClearPath(s: Db, q: seq<NodeId>)
    requires StoreOk(s) && TreeClear(s) && IsWalk(TreeEdges(ParentsOf(s.nodes)), q)
    ensures PathHasDevices(GraphOf(s), q)
  {
    forall i | 0 <= i < |q| - 1 ensures EdgeAt(GraphOf(s), q, i) {
      assert (q[i], q[i + 1]) in TreeEdges(ParentsOf(s.nodes));
      TreeEdgeClear(s, q[i], q[i + 1]);
    }
  }

  lemma ClearConnects(s: Db, dialable: string -> bool, out: map<NodeId, NodeState>, net: Planes, codec: Netd.Codec,
                      src: Node, dst: Node)
    requires StoreOk(s) && AllApplied(GraphOf(s), dialable, out, net, codec) && Shallow(GraphOf(s)) && TreeClear(s)
    requires src in s.nodes && dst in s.nodes && src.id != dst.id
    ensures Connects(s, out, net, src, dst)
  {
    StoredGraph(s);
    ClearIsUp(s);
    BackboneRoutes(s, src, dst);
    var q := DeliveryOverDevices(GraphOf(s), dialable, out, net, codec, src, dst);
    ClearPath(s, q);
    assert DeliversAlong(s, out, net, q, src, dst);
  }

  lemma ClearIsUp(s: Db)
    requires TreeClear(s)
    ensures BackboneUp(s)
  {
    forall x | x in ParentsOf(s.nodes) ensures EnabledBetween(s.links, x, ParentsOf(s.nodes)[x]) {
      assert EdgeClear(s, x, ParentsOf(s.nodes)[x]);
      FirstLinkIsFirst(s.links, x, ParentsOf(s.nodes)[x]);
    }
  }

  /** Between neighbours the tree path is the edge itself, in both directions. */
  lemma EdgePath(p: Parents, q: seq<NodeId>, a: NodeId, b: NodeId)
    requires TreeAdjacent(p, a, b) && a != b && Rooted(p, a) && SimplePath(TreeEdges(p), q, a, b)
    ensures q == [a, b]
  {
    var e := [a, b];
    assert (a, b) in TreeEdges(p);
    assert SimplePath(TreeEdges(p), e, a, b);
    SimplePathUnique(p, q, e, a, b);
  }

  lemma ConnectedIsClear(s: Db, dialable: string -> bool, out: map<NodeId, NodeState>, net: Planes, codec: Netd.Codec,
                         n: Node, m: Node)
    requires StoreOk(s) && AllApplied(GraphOf(s), dialable, out, net, codec) && n in s.nodes && m in s.nodes
    requires TreeAdjacent(ParentsOf(s.nodes), n.id, m.id) && n.id != m.id && Connects(s, out, net, n, m)
    ensures EdgeClear(s, n.id, m.id) && DepthWithin(ParentsOf(s.nodes), n.id, MAX_DEPTH)
  {
    ConnectsIff(s, dialable, out, net, codec, n, m);
    var q :| ClearWay(s, q, n, m);
    assert Rooted(ParentsOf(s.nodes), n.id);
    EdgePath(ParentsOf(s.nodes), q, n.id, m.id);
    assert EdgeAt(GraphOf(s), q, 0);
    EdgeClearIff(s, n.id, m.id);
  }

  /** The node and the parent behind an entry of the parent map. */
  lemma ChildAndParent(s: Db, x: NodeId) returns (n: Node, m: Node)
    requires StoreOk(s) && x in ParentsOf(s.nodes)
    ensures n in s.nodes && m in s.nodes && n.id == x && m.id == ParentsOf(s.nodes)[x] && n.id != m.id
  {
    ParentsAre(s.nodes, x);
    n := FindNode(s.nodes, x).value;
    IdsAre(s.nodes, x);
    ParentsClosed(s.nodes, x);
    IdsAre(s.nodes, ParentsOf(s.nodes)[x]);
    m := FindNode(s.nodes, ParentsOf(s.nodes)[x]).value;
    assert Rooted(ParentsOf(s.nodes), n.id);
    ParentNotUnder(ParentsOf(s.nodes), x);
    UnderSelf(ParentsOf(s.nodes), x);
  }

  lemma AllConnectedIsShallow(s: Db, dialable: string -> bool, out: map<NodeId, NodeState>, net: Planes,
                              codec: Netd.Codec)
    requires StoreOk(s) && AllApplied(GraphOf(s), dialable, out, net, codec) && AllConnect(s, out, net)
    ensures Shallow(GraphOf(s)) && TreeClear(s)
  {
    var p := ParentsOf(s.nodes);
    forall x | x in p ensures EdgeClear(s, x, p[x]) && DepthWithin(p, x, MAX_DEPTH) {
      var n, m := ChildAndParent(s, x);
      ConnectedIsClear(s, dialable, out, net, codec, n, m);
    }
    forall n | n in s.nodes ensures DepthWithin(p, n.id, MAX_DEPTH) {
      if n.id !in p {
        assert RootAt(p, n.id, 0);
      }
    }
  }

  /**
   In a store in order whose nodes have all applied the published configuration, every node
   reaches every other over the installed devices and routes if and only if no node is more
   than 1025 levels deep and, for every node, its first enabled link to its parent is at
   both ends the last configured one towards a peer with that four-character prefix.
   */
  lemma AllConnectIff(s: Db, dialable: string -> bool, out: map<NodeId, NodeState>, net: Planes, codec: Netd.Codec)
    requires StoreOk(s) && AllApplied(GraphOf(s), dialable, out, net, codec)
    ensures AllConnect(s, out, net) <==> Shallow(GraphOf(s)) && TreeClear(s)
  {
    if AllConnect(s, out, net) {
      AllConnectedIsShallow(s, dialable, out, net, codec);
    }
    if Shallow(GraphOf(s)) && TreeClear(s) {
      forall src, dst | src in s.nodes && dst in s.nodes && src.id != dst.id ensures Connects(s, out, net, src, dst) {
        ClearConnects(s, dialable, out, net, codec, src, dst);
      }
    }
  }

  lemma DistinctPeersMakeTreeClear(s: Db)
    requires StoreOk(s) && BackboneUp(s) && forall n :: n in s.nodes ==> ShortPeersDiffer(s, n.id)
    ensures TreeClear(s)
  {
    forall x | x in ParentsOf(s.nodes) ensures EdgeClear(s, x, ParentsOf(s.nodes)[x]) {
      var n, m := ChildAndParent(s, x);
      DistinctPeersAreClear(s, n.id, m.id);
    }
  }

  /**
   From bootstrap on, as long as no enrolment lacked a port and no link was disabled or
   deleted, in a network at most 1025 levels deep: once published and applied, everyone
   reaches everyone if at every node the configured peers' ids differ in their first four
   characters, and in any case exactly if the tree is clear.
   */
  lemma GrownNetworkDelivers(root: Node, run: seq<Db>, ops: seq<Op>, i: nat, dialable: string -> bool,
                             out: map<NodeId, NodeState>, net: Planes, codec: Netd.Codec)
    requires root.id != "" && Overlay.PlainAddress(root.overlayIPv4) && root.isController && root.parent.None?
             && PoolInRange(root)
    requires IsStoreRun(run, ops) && run[0] == Db([root], [], []) && i < |run| && forall op :: op in ops ==>
               KeepsBackbone(op)
    requires AllApplied(GraphOf(run[i]), dialable, out, net, codec) && Shallow(GraphOf(run[i]))
    ensures AllConnect(run[i], out, net) <==> TreeClear(run[i])
    ensures (forall n :: n in run[i].nodes ==> ShortPeersDiffer(run[i], n.id)) ==> AllConnect(run[i], out, net)
  {
    BootstrappedStore(root);
    BackboneStaysUp(run, ops, i);
    StoreRunKeeps(run, ops, i);
    AllConnectIff(run[i], dialable, out, net, codec);
    if forall n :: n in run[i].nodes ==> ShortPeersDiffer(run[i], n.id) {
      DistinctPeersMakeTreeClear(run[i]);
    }
  }

  // ----- two children with one name -----

  lemma {:induction false} OnlyNewLink(links: seq<Link>, l: Link, more: seq<Link>, a: NodeId, b: NodeId)
    requires (forall k :: k in links ==> !Joins(k, a, b)) && l.enabled && Joins(l, a, b)
    ensures FirstLink(links + [l] + more, a, b) == Some(l)
    decreases |links|
  {
    var all := links + [l] + more;
    if links != [] {
      assert all[1..] == links[1..] + [l] + more;
      assert links[0] in links;
      OnlyNewLink(links[1..], l, more, a, b);
    }
  }

  /**
   Two children enrolled under one parent, one after the other, with ids that start with the
   same four characters: the first one's link has no device at the parent any more. What that
   means for packets is FirstChildUnreachable.
   */
  lemma SecondChildTakesDevice(s0: Db, s1: Db, s2: Db, q1: EnrollRequest, ids1: FreshIds, q2: EnrollRequest,
                               ids2: FreshIds)
    requires StoreOk(s0) && FreshIn(s0, ids1) && EnrollStep(s0, s1, q1, ids1, Enrolled)
    requires FreshIn(s1, ids2) && EnrollStep(s1, s2, q2, ids2, Enrolled)
    requires q1.parent == q2.parent && Short(ids1.node) == Short(ids2.node)
    ensures StoreOk(s2) && !EdgeClear(s2, q1.parent, ids1.node)
  {
    OpKeepsStore(s0, s1, OpEnroll(q1, ids1, Enrolled));
    OpKeepsStore(s1, s2, OpEnroll(q2, ids2, Enrolled));
    SecondLinkHides(s0, s1, s2, q1, ids1, q2, ids2);
  }

  lemma EnrolledLink(s: Db, s': Db, q: EnrollRequest, ids: FreshIds) returns (l: Link)
    requires !HasId(s.nodes, ids.node) && EnrollStep(s, s', q, ids, Enrolled)
    ensures s'.links == s.links + [l] && l.enabled && l.nodeA == q.parent && l.nodeB == ids.node && q.parent != ids.node
  {
    l := s'.links[|s.links|];
  }

  lemma SecondLinkHides(s0: Db, s1: Db, s2: Db, q1: EnrollRequest, ids1: FreshIds, q2: EnrollRequest, ids2: FreshIds)
    requires LinksOk(s0.nodes, s0.links) && !HasId(s0.nodes, ids1.node) && EnrollStep(s0, s1, q1, ids1, Enrolled)
    requires !HasId(s1.nodes, ids2.node) && EnrollStep(s1, s2, q2, ids2, Enrolled) && DistinctLinks(s2.links)
    requires q1.parent == q2.parent && Short(ids1.node) == Short(ids2.node)
    ensures !EdgeClear(s2, q1.parent, ids1.node)
  {
    var l1 := EnrolledLink(s0, s1, q1, ids1);
    var l2 := EnrolledLink(s1, s2, q2, ids2);
    assert s0.links + [l1] + [l2] == s0.links + [l1, l2];
    NewNodeUnlinked(s0.nodes, s0.links, ids1.node, q1.parent);
    LaterNameHides(s2, s0.links, l1, l2, q1.parent, ids1.node);
  }

  lemma LaterNameHides(s: Db, before: seq<Link>, l1: Link, l2: Link, p: NodeId, child: NodeId)
    requires s.links == before + [l1, l2] && DistinctLinks(s.links) && forall k :: k in before ==> !Joins(k, p, child)
    requires l1.enabled && l1.nodeA == p && l1.nodeB == child && p != child
    requires l2.enabled && l2.nodeA == p && l2.nodeB != p && Short(l2.nodeB) == Short(child)
    ensures !EdgeClear(s, p, child)
  {
    assert before + [l1, l2] == before + [l1] + [l2];
    OnlyNewLink(before, l1, [l2], p, child);
    Routing.IncidentGrows(before, [l1, l2], p);
    TwoIncident(l1, l2, p);
    IncidentDistinct(s.links, p);
    HiddenByNext(s, p, Routing.Incident(before, p), l1, l2);
  }

  lemma TwoIncident(l1: Link, l2: Link, n: NodeId)
    requires Routing.Configured(l1, n) && Routing.Configured(l2, n)
    ensures Routing.Incident([l1, l2], n) == [l1, l2]
  {
    assert [l1, l2][..1] == [l1] && [l1][..0] == [];
    assert Routing.Incident([l1], n) == [l1];
  }

  lemma HiddenByNext(s: Db, n: NodeId, before: seq<Link>, l1: Link, l2: Link)
    requires Routing.Incident(s.links, n) == before + [l1, l2] && DistinctLinks(before + [l1, l2])
    requires ShortPeer(l1, n) == ShortPeer(l2, n)
    ensures !LastOfShort(s, n, l1)
  {
    var ls := before + [l1, l2];
    var k: nat := |before|;
    assert ls[k] == l1 && ls[k + 1] == l2;
    if i: nat :| LastShortAt(n, ls, l1, i) {
      OnePlace(ls, i, k);
    }
  }

  lemma OnePlace(ls: seq<Link>, i: nat, k: nat)
    requires DistinctLinks(ls) && i < |ls| && k < |ls| && ls[i] == ls[k]
    ensures i == k
  {
  }

  /** So no packet gets from the parent to its own first child, or back, by any way. */
  lemma FirstChildUnreachable(s: Db, dialable: string -> bool, out: map<NodeId, NodeState>, net: Planes,
                              codec: Netd.Codec, parent: Node, child: Node)
    requires StoreOk(s) && AllApplied(GraphOf(s), dialable, out, net, codec) && parent in s.nodes && child in s.nodes
    requires child.parent == Some(parent.id) && !EdgeClear(s, parent.id, child.id)
    ensures !Connects(s, out, net, child, parent) && !Connects(s, out, net, parent, child)
    ensures !AllConnect(s, out, net)
  {
    ParentsAre(s.nodes, child.id);
    assert HasId(s.nodes, parent.id);
    ParentNotEmpty(s.nodes, child);
    EdgeClearIff(s, parent.id, child.id);
    var n, m := ChildAndParent(s, child.id);
    if Connects(s, out, net, child, parent) {
      ConnectedIsClear(s, dialable, out, net, codec, child, parent);
    }
    if Connects(s, out, net, parent, child) {
      ConnectedIsClear(s, dialable, out, net, codec, parent, child);
    }
  }
}
