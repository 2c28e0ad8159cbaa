/** From the stored tables to the graph the compiler reads, and which operations keep its backbone up. */
module Network {
  import opened Prelude
  import opened Model
  import opened ControlTree
  import opened Tables
  import opened Repair
  import opened Enrolment
  import opened Store
  import opened StoreSafety
  import opened Delivery
  import Topology
  import Routing
  import Overlay
  import Walks

  function GraphOf(s: Db): Routing.Graph {
    Routing.Graph(s.nodes, s.links, s.endpoints)
  }

  /** Tables in order make a well-formed graph whose overlay addresses give distinct routes. */
  lemma StoredGraph(s: Db)
    requires StoreOk(s)
    ensures WellFormed(GraphOf(s)) && Addressed(GraphOf(s))
  {
    var g := GraphOf(s);
    forall n | n in s.nodes ensures Routing.Cidr(n) == n.overlayIPv4 + "/32" { Overlay.PlainCidr(n.overlayIPv4); }
    forall n, m | n in s.nodes && m in s.nodes && Routing.Cidr(n) == Routing.Cidr(m) ensures n.id == m.id {
      assert n.overlayIPv4 == Routing.Cidr(n)[..|n.overlayIPv4|] && m.overlayIPv4 == Routing.Cidr(m)[..|m.overlayIPv4|];
      assert |n.overlayIPv4| == |Routing.Cidr(n)| - 3 == |m.overlayIPv4|;
      var i :| 0 <= i < |s.nodes| && s.nodes[i] == n;
      var j :| 0 <= j < |s.nodes| && s.nodes[j] == m;
    }
    forall l | l in s.links ensures HasNode(g, l.nodeA) && HasNode(g, l.nodeB) {
      assert LinkShape(s.nodes, l);
      RowExists(s.nodes, l.nodeA);
      RowExists(s.nodes, l.nodeB);
    }
  }

  lemma RowExists(nodes: seq<Node>, id: NodeId)
    requires HasId(nodes, id)
    ensures exists n :: n in nodes && n.id == id
  {
    var i :| 0 <= i < |nodes| && nodes[i].id == id;
    assert nodes[i] in nodes;
  }

  /** Ancestors of rows are rows. */
  lemma {:induction false} AncestorIsRow(nodes: seq<Node>, x: NodeId, k: nat)
    requires NodesOk(nodes) && TreeOk(nodes) && x in Ids(nodes) && Anc(ParentsOf(nodes), x, k).Some?
    ensures Anc(ParentsOf(nodes), x, k).value in Ids(nodes)
    decreases k
  {
    if k > 0 {
      var p := ParentsOf(nodes);
      assert Anc(p, x, k) == Anc(p, p[x], k - 1);
      ParentsClosed(nodes, x);
      AncestorIsRow(nodes, p[x], k - 1);
    }
  }

  /** The only row without a parent is the controller, so every chain ends there. */
  lemma ChainsMeet(nodes: seq<Node>, a: Node, b: Node, da: nat, db: nat)
    requires NodesOk(nodes) && TreeOk(nodes) && a in nodes && b in nodes
    requires RootAt(ParentsOf(nodes), a.id, da) && RootAt(ParentsOf(nodes), b.id, db)
    ensures Anc(ParentsOf(nodes), a.id, da).Some? && Anc(ParentsOf(nodes), a.id, da) == Anc(ParentsOf(nodes), b.id, db)
  {
    var p := ParentsOf(nodes);
    AncDepth(p, a.id, da, da);
    AncDepth(p, b.id, db, db);
    var ra, rb := Anc(p, a.id, da).value, Anc(p, b.id, db).value;
    AncestorIsRow(nodes, a.id, da);
    AncestorIsRow(nodes, b.id, db);
    RootIsController(nodes, ra);
    RootIsController(nodes, rb);
    var i :| 0 <= i < |nodes| && nodes[i].id == ra && nodes[i].isController;
    var j :| 0 <= j < |nodes| && nodes[j].id == rb && nodes[j].isController;
  }

  lemma ParentNotEmpty(nodes: seq<Node>, n: Node)
    requires NodesOk(nodes) && TreeOk(nodes) && n in nodes && n.parent.Some?
    ensures n.parent.value != ""
  {
    assert HasId(nodes, n.parent.value);
    var k :| 0 <= k < |nodes| && nodes[k].id == n.parent.value;
    assert nodes[k] in nodes;
  }

  lemma RootIsController(nodes: seq<Node>, r: NodeId)
    requires NodesOk(nodes) && TreeOk(nodes) && r in Ids(nodes) && r !in ParentsOf(nodes)
    ensures exists i :: 0 <= i < |nodes| && nodes[i].id == r && nodes[i].isController
  {
    var n :| n in nodes && n.id == r;
    ParentsAre(nodes, r);
    if n.parent.Some? { ParentNotEmpty(nodes, n); }
    var i :| 0 <= i < |nodes| && nodes[i] == n;
    assert nodes[i].isController;
  }

  /** Every node can reach its parent over an enabled link. */
  ghost predicate BackboneUp(s: Db) {
    forall x :: x in ParentsOf(s.nodes) ==> Topology.EnabledBetween(s.links, x, ParentsOf(s.nodes)[x])
  }

  lemma BackboneIsLinked(s: Db, q: seq<NodeId>)
    requires BackboneUp(s) && Walks.IsWalk(TreeEdges(ParentsOf(s.nodes)), q)
    ensures Walks.IsWalk(Topology.LinkEdges(s.links), q)
  {
    var p := ParentsOf(s.nodes);
    Topology.LinkEdgesSymmetric(s.links);
    forall i, j | 0 <= i && j == i + 1 < |q| ensures (q[i], q[j]) in Topology.LinkEdges(s.links) {
      assert (q[i], q[j]) in TreeEdges(p);
      if q[i] in p && p[q[i]] == q[j] {
        assert (q[i], q[j]) in Topology.LinkEdges(s.links);
      } else {
        assert (q[j], q[i]) in Topology.LinkEdges(s.links);
      }
    }
  }

  /** Between any two nodes at most 1025 edges deep, a backbone that is up offers a hop. */
  lemma BackboneRoutes(s: Db, src: Node, dst: Node)
    requires StoreOk(s) && BackboneUp(s) && src in s.nodes && dst in s.nodes && src.id != dst.id
    requires DepthWithin(ParentsOf(s.nodes), src.id, Topology.MAX_DEPTH)
             && DepthWithin(ParentsOf(s.nodes), dst.id, Topology.MAX_DEPTH)
    ensures Topology.ControlHop(s.nodes, s.links, src.id, dst.id).Some?
  {
    var p := ParentsOf(s.nodes);
    var da: nat :| da <= Topology.MAX_DEPTH && RootAt(p, src.id, da);
    var db: nat :| db <= Topology.MAX_DEPTH && RootAt(p, dst.id, db);
    ChainsMeet(s.nodes, src, dst, da, db);
    assert Topology.Meets(p, src.id, dst.id, db);
    var q := Topology.TreePath(p, src.id, dst.id).value;
    BackboneIsLinked(s, q);
    HopAlongPath(s.nodes, s.links, q, src.id, dst.id);
  }

  // ----- operations that keep the backbone up -----

  /** Parents stay what they were, and so does every enabled pair. */
  lemma SameBackbone(s: Db, s': Db)
    requires BackboneUp(s) && ParentsOf(s'.nodes) == ParentsOf(s.nodes)
    requires forall a, b :: Topology.EnabledBetween(s.links, a, b) ==> Topology.EnabledBetween(s'.links, a, b)
    ensures BackboneUp(s')
  {
  }

  lemma MoreLinks(links: seq<Link>, l: Link, a: NodeId, b: NodeId)
    requires Topology.EnabledBetween(links, a, b) || (l.enabled && Joins(l, a, b))
    ensures Topology.EnabledBetween(links + [l], a, b)
  {
    var more := links + [l];
    if Topology.EnabledBetween(links, a, b) {
      var i :| 0 <= i < |links| && links[i].enabled && Joins(links[i], a, b);
      assert more[i] == links[i];
    } else {
      assert more[|links|] == l;
    }
  }

  /** An enrolment that found a port links the new node to its parent. */
  lemma EnrollKeepsBackbone(s: Db, s': Db, q: EnrollRequest, ids: FreshIds)
    requires StoreOk(s) && FreshIn(s, ids) && BackboneUp(s) && EnrollStep(s, s', q, ids, Enrolled)
    ensures BackboneUp(s')
  {
    AddedParents(s.nodes, s'.nodes, ids.node, q.parent);
    var p, l := ParentsOf(s'.nodes), s'.links[|s.links|];
    forall x | x in p ensures Topology.EnabledBetween(s'.links, x, p[x]) {
      MoreLinks(s.links, l, x, p[x]);
    }
  }

  lemma AddedParents(before: seq<Node>, after: seq<Node>, id: NodeId, parent: NodeId)
    requires NodesOk(before) && TreeOk(before) && !HasId(before, id) && HasId(before, parent)
             && NodeAdded(before, after, id, parent)
    ensures ParentsOf(after) == ParentsOf(before)[id := parent]
  {
    PoolsOfPrefix(before, after);
    PoolsKeepParents(before + [after[|before|]], after);
    EnrollParents(before, after[|before|]);
  }

  lemma CreateKeepsBackbone(s: Db, s': Db, q: LinkRequest, ids: FreshIds, adv: string, r: LinkResult)
    requires BackboneUp(s) && CreateStep(s, s', q, ids, adv, r)
    ensures BackboneUp(s')
  {
    PoolsKeepParents(s.nodes, s'.nodes);
    if r == LinkCreated {
      forall a, b | Topology.EnabledBetween(s.links, a, b) ensures Topology.EnabledBetween(s'.links, a, b) {
        MoreLinks(s.links, s'.links[|s.links|], a, b);
      }
    }
    SameBackbone(s, s');
  }

  /** Removing a childless node takes none of the other nodes' links to their parents. */
  lemma DeleteKeepsBackbone(s: Db, id: NodeId)
    requires StoreOk(s) && BackboneUp(s) && HasId(s.nodes, id)
    requires !FindNode(s.nodes, id).value.isController && !HasChild(s.nodes, id)
    ensures BackboneUp(Deletion(s, id))
  {
    var s', p := Deletion(s, id), ParentsOf(s.nodes);
    DeleteKeepsTables(s.nodes, s.links, s.endpoints, FindNode(s.nodes, id).value, LinkIdsAt(s.links, id));
    DeleteParents(s.nodes, id);
    forall x | x in ParentsOf(s'.nodes) ensures Topology.EnabledBetween(s'.links, x, ParentsOf(s'.nodes)[x]) {
      ParentsAre(s'.nodes, x);
      IdsAre(s'.nodes, x);
      ParentOfKept(s, id, x);
      LinkKept(s, id, x, p[x]);
    }
  }

  /** A node that stays is not the removed one, and neither is its parent. */
  lemma ParentOfKept(s: Db, id: NodeId, x: NodeId)
    requires StoreOk(s) && !HasChild(s.nodes, id) && x in Ids(WithoutNode(s.nodes, id)) && x in ParentsOf(s.nodes)
    ensures x != id && ParentsOf(s.nodes)[x] != id
  {
    var n :| n in WithoutNode(s.nodes, id) && n.id == x;
    ParentsAre(s.nodes, x);
  }

  lemma LinkKept(s: Db, id: NodeId, a: NodeId, b: NodeId)
    requires Topology.EnabledBetween(s.links, a, b) && a != id && b != id
    requires NothingNames(s.links, Deletion(s, id).links, Deletion(s, id).endpoints, id)
    ensures Topology.EnabledBetween(Deletion(s, id).links, a, b)
  {
    var i :| 0 <= i < |s.links| && s.links[i].enabled && Joins(s.links[i], a, b);
    var kept := Deletion(s, id).links;
    assert s.links[i] in kept;
    var j :| 0 <= j < |kept| && kept[j] == s.links[i];
  }

  lemma FlagsKeepBackbone(s: Db, id: LinkId, bidirectional: Option<bool>, enabled: Option<bool>)
    requires BackboneUp(s) && enabled != Some(false)
    ensures BackboneUp(s.(links := WithFlags(s.links, id, bidirectional, enabled)))
  {
    var s' := s.(links := WithFlags(s.links, id, bidirectional, enabled));
    forall a, b | Topology.EnabledBetween(s.links, a, b) ensures Topology.EnabledBetween(s'.links, a, b) {
      var i :| 0 <= i < |s.links| && s.links[i].enabled && Joins(s.links[i], a, b);
      assert s'.links[i].enabled && Joins(s'.links[i], a, b);
    }
    SameBackbone(s, s');
  }

  lemma {:induction false} RepairKeepsBackbone(s: Db, s': Db, ls: seq<Link>, addresses: map<NodeId, seq<Address>>,
                                               dialable: string -> bool, failed: bool)
    requires BackboneUp(s) && RepairPass(s, s', ls, addresses, dialable, failed)
    ensures BackboneUp(s')
    decreases |ls|
  {
    if ls != [] {
      var rest, l := ls[..|ls| - 1], ls[|ls| - 1];
      var mid, f :| RepairPass(s, mid, rest, addresses, dialable, f)
          && RepairLast(mid, s', l, addresses, dialable, f, failed);
      RepairKeepsBackbone(s, mid, rest, addresses, dialable, f);
      PoolsKeepParents(mid.nodes, s'.nodes);
      SameBackbone(mid, s');
    }
  }

  /** Neither an enrolment without a port, nor disabling or deleting a link. */
  predicate KeepsBackbone(op: Op) {
    match op
    case OpEnroll(_, _, r) => r != NoPortForLink
    case OpUpdateLink(_, _, enabled) => enabled != Some(false)
    case OpDeleteLink(_) => false
    case _ => true
  }

  lemma OpKeepsBackbone(s: Db, s': Db, op: Op)
    requires StoreOk(s) && BackboneUp(s) && OpStep(s, s', op) && KeepsBackbone(op)
    ensures BackboneUp(s')
  {
    match op
    case OpEnroll(q, ids, r) => if r == Enrolled { EnrollKeepsBackbone(s, s', q, ids); }
    case OpCreateLink(q, ids, adv, r) => CreateKeepsBackbone(s, s', q, ids, adv, r);
    case OpUpdateLink(id, bi, en) => FlagsKeepBackbone(s, id, bi, en);
    case OpDeleteNode(id) => if s' != s { DeleteKeepsBackbone(s, id); }
    case OpRepair(addresses, dialable, failed) => RepairKeepsBackbone(s, s', s.links, addresses, dialable, failed);
  }

  /** From a bootstrapped store on, every node stays linked to its parent until a link is taken away. */
  lemma {:induction false} BackboneStaysUp(run: seq<Db>, ops: seq<Op>, i: nat)
    requires IsStoreRun(run, ops) && StoreOk(run[0]) && BackboneUp(run[0]) && i < |run|
    requires forall op :: op in ops ==> KeepsBackbone(op)
    ensures BackboneUp(run[i])
    decreases i
  {
    if i > 0 {
      BackboneStaysUp(run, ops, i - 1);
      StoreRunKeeps(run, ops, i - 1);
      BackboneInRun(run, ops, i);
    }
  }

  lemma BackboneInRun(run: seq<Db>, ops: seq<Op>, i: nat)
    requires IsStoreRun(run, ops) && 0 < i <= |ops| && StoreOk(run[i - 1]) && BackboneUp(run[i - 1])
             && KeepsBackbone(ops[i - 1])
    ensures BackboneUp(run[i])
  {
    assert OpAt(run, ops, i - 1);
    OpKeepsBackbone(run[i - 1], run[i], ops[i - 1]);
  }

  /** A store just bootstrapped is in order and has nothing to link. */
  lemma BootstrappedStore(n: Node)
    requires n.id != "" && Overlay.PlainAddress(n.overlayIPv4) && n.isController && n.parent.None? && PoolInRange(n)
    ensures var s := Db([n], [], []); StoreOk(s) && BackboneUp(s) && Shallow(GraphOf(s))
  {
    FirstNodeOk(n);
    var nodes := [n];
    assert nodes[..0] == [];
    assert ParentsOf(nodes[..0]) == map[];
    assert n.id !in ParentsOf(nodes);
    assert RootAt(ParentsOf(nodes), n.id, 0);
  }
}
