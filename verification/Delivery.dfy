/**
 Whole-network results about independently compiled nodes: packets reach their
 destination, and every receiver accepts the sender.
 */
module Delivery {
  import opened Prelude
  import opened Model
  import opened Walks
  import opened ControlTree
  import opened Topology
  import opened Routing

  /** What the schema guarantees: keys are unique, ids non-empty, links name existing nodes. */
  ghost predicate WellFormed(g: Graph) {
    && UniqueIds(g)
    && (forall n :: n in g.nodes ==> n.id != "")
    && (forall l :: l in g.links ==> HasNode(g, l.nodeA) && HasNode(g, l.nodeB))
  }

  ghost predicate HasNode(g: Graph, id: NodeId) {
    exists n :: n in g.nodes && n.id == id
  }

  /** Every node has a usable overlay address of its own. */
  ghost predicate Addressed(g: Graph) {
    && (forall n :: n in g.nodes ==> n.overlayIPv4 != "" && Cidr(n) != "")
    && (forall n, m :: n in g.nodes && m in g.nodes && Cidr(n) == Cidr(m) ==> n.id == m.id)
  }

  ghost predicate Compiled(g: Graph, dialable: string -> bool, out: map<NodeId, NodeState>) {
    forall n {:trigger HasState(g, dialable, out, n)} :: n in g.nodes ==> HasState(g, dialable, out, n)
  }

  ghost predicate Shallow(g: Graph) {
    forall n :: n in g.nodes ==> DepthWithin(ParentsOf(g.nodes), n.id, MAX_DEPTH)
  }

  lemma SameId(g: Graph, n: Node, m: Node)
    requires UniqueIds(g) && n in g.nodes && m in g.nodes && n.id == m.id
    ensures n == m
  {
    var i :| 0 <= i < |g.nodes| && g.nodes[i] == n;
    var j :| 0 <= j < |g.nodes| && g.nodes[j] == m;
  }

  lemma SameLinkId(g: Graph, l: Link, k: Link)
    requires UniqueIds(g) && l in g.links && k in g.links && l.id == k.id
    ensures l == k
  {
    var i :| 0 <= i < |g.links| && g.links[i] == l;
    var j :| 0 <= j < |g.links| && g.links[j] == k;
  }

  // ----- the control hop, in terms of paths -----

  /** Two shallow nodes joined by a tree path are found by the bounded walk. */
  lemma PathIsRoutable(p: Parents, w: seq<NodeId>, a: NodeId, b: NodeId)
    requires WalkFromTo(TreeEdges(p), w, a, b)
    requires DepthWithin(p, a, MAX_DEPTH) && DepthWithin(p, b, MAX_DEPTH)
    ensures Routable(p, a, b)
  {
    var da: nat :| da <= MAX_DEPTH && RootAt(p, a, da);
    AncDepth(p, a, da, da);
    var r := Anc(p, a, da).value;
    assert Under(p, a, r);
    WalkKeepsRoot(p, w, r, |w| - 1);
    var k: nat :| Anc(p, b, k) == Some(r);
    var db: nat :| db <= MAX_DEPTH && RootAt(p, b, db);
    AncDepth(p, b, db, k);
    assert Meets(p, a, b, k);
  }

  lemma HopAlongPath(nodes: seq<Node>, links: seq<Link>, q: seq<NodeId>, a: NodeId, b: NodeId)
    requires a != "" && b != "" && a != b
    requires SimplePath(TreeEdges(ParentsOf(nodes)), q, a, b) && IsWalk(LinkEdges(links), q)
    requires DepthWithin(ParentsOf(nodes), a, MAX_DEPTH) && DepthWithin(ParentsOf(nodes), b, MAX_DEPTH)
    ensures 2 <= |q|
    ensures TreePath(ParentsOf(nodes), a, b) == Some(q)
    ensures ControlHop(nodes, links, a, b) == LinkHop(links, a, q[1]) && LinkHop(links, a, q[1]).Some?
  {
    var p := ParentsOf(nodes);
    PathIsRoutable(p, q, a, b);
    SimplePathUnique(p, q, TreePath(p, a, b).value, a, b);
    assert (q[0], q[1]) in LinkEdges(links);
    FirstLinkIsFirst(links, a, q[1]);
  }

  lemma HopHasPath(nodes: seq<Node>, links: seq<Link>, a: NodeId, b: NodeId)
    requires ControlHop(nodes, links, a, b).Some?
    ensures DepthWithin(ParentsOf(nodes), a, MAX_DEPTH) && TreePath(ParentsOf(nodes), a, b).Some?
    ensures var q := TreePath(ParentsOf(nodes), a, b).value;
            && 2 <= |q| && SimplePath(TreeEdges(ParentsOf(nodes)), q, a, b) && IsWalk(LinkEdges(links), q)
            && ControlHop(nodes, links, a, b) == LinkHop(links, a, q[1])
  {
  }

  // ----- one hop of the compiled tables -----

  /** The one interface of this node whose AllowedIPs hold `c` is that of `link`, which leads to `y`. */
  ghost predicate Forwards(g: Graph, st: NodeState, c: string, y: NodeId, link: LinkId) {
    && Accepts(st, c, link)
    && (forall cfg :: cfg in st.links && c in cfg.allowedIPs ==> cfg.linkId == link)
    && exists l :: l in g.links && l.id == link && l.enabled && Joins(l, st.nodeId, y)
                   && Route(c, LocalIface(l, st.nodeId, y)) in MainRoutes(st.tables)
  }

  /** A packet from `c` that arrives over `link` passes the cryptokey check. */
  ghost predicate Accepts(st: NodeState, c: string, link: LinkId) {
    exists cfg :: cfg in st.links && cfg.linkId == link && c in cfg.allowedIPs
  }

  /** In a compiled node, an interface holds the address of `m` exactly if it is the hop to `m`. */
  lemma AllowedIffHop(g: Graph, dialable: string -> bool, n: Node, st: NodeState, cfg: LinkCfg, m: Node)
    requires UniqueIds(g) && Addressed(g) && n in g.nodes && m in g.nodes
    requires IsCompiled(g, dialable, n, st) && cfg in st.links
    ensures Cidr(m) in cfg.allowedIPs <==> RouteFor(g, n, m).Some? && RouteFor(g, n, m).value.linkId == cfg.linkId
  {
    var i :| 0 <= i < |st.links| && st.links[i] == cfg;
    assert AllowedAt(g, n, st.links[i], |g.nodes|);
    if Cidr(m) in cfg.allowedIPs {
      var j :| 0 <= j < |g.nodes| && ReachedOver(g, n, j, Cidr(m), cfg.linkId);
      SameId(g, g.nodes[j], m);
    }
    if RouteFor(g, n, m).Some? && RouteFor(g, n, m).value.linkId == cfg.linkId {
      var j :| 0 <= j < |g.nodes| && g.nodes[j] == m;
      assert ReachedOver(g, n, j, Cidr(m), cfg.linkId);
    }
  }

  lemma HasInterface(g: Graph, dialable: string -> bool, n: Node, st: NodeState, m: Node)
    requires IsCompiled(g, dialable, n, st) && RouteFor(g, n, m).Some?
    ensures exists cfg :: cfg in st.links && cfg.linkId == RouteFor(g, n, m).value.linkId
  {
    HopIsIncident(g, n, m);
    var ls := Incident(g.links, n.id);
    var l :| l in ls && l.id == RouteFor(g, n, m).value.linkId;
    var i :| 0 <= i < |ls| && ls[i] == l;
    assert st.links[i].(allowedIPs := []).linkId == l.id;
  }

  /** The main table routes to the address of `m` over the hop's interface, and nowhere else. */
  lemma RouteIsHop(g: Graph, dialable: string -> bool, n: Node, st: NodeState, m: Node, dev: string)
    requires UniqueIds(g) && Addressed(g) && n in g.nodes && m in g.nodes && IsCompiled(g, dialable, n, st)
    ensures Route(Cidr(m), dev) in MainRoutes(st.tables) <==>
            RouteFor(g, n, m).Some? && RouteFor(g, n, m).value.iface == dev
  {
    var routes := MainRoutes(st.tables);
    if RouteFor(g, n, m).Some? {
      var k :| 0 <= k < |g.nodes| && g.nodes[k] == m;
      var i :| 0 <= i < |routes| && routes[i].destination == Cidr(m);
      RouteOfNode(g, n, m, routes[i]);
    }
    if Route(Cidr(m), dev) in routes {
      RouteOfNode(g, n, m, Route(Cidr(m), dev));
    }
  }

  lemma RouteOfNode(g: Graph, n: Node, m: Node, r: Route)
    requires UniqueIds(g) && Addressed(g) && n in g.nodes && m in g.nodes
    requires FirstRoute(g, n, |g.nodes|, r) && r.destination == Cidr(m)
    ensures RouteFor(g, n, m).Some? && r.dev == RouteFor(g, n, m).value.iface
  {
    var j :| 0 <= j < |g.nodes| && RoutesTo(g, n, j, r.destination) && r.dev == RouteFor(g, n, g.nodes[j]).value.iface;
    SameId(g, g.nodes[j], m);
  }

  lemma HopForwards(g: Graph, dialable: string -> bool, n: Node, st: NodeState, m: Node)
    requires UniqueIds(g) && Addressed(g) && n in g.nodes && m in g.nodes
    requires IsCompiled(g, dialable, n, st) && RouteFor(g, n, m).Some?
    ensures var h := RouteFor(g, n, m).value; Forwards(g, st, Cidr(m), h.peer, h.linkId)
  {
    var h := RouteFor(g, n, m).value;
    HasInterface(g, dialable, n, st, m);
    forall cfg | cfg in st.links ensures Cidr(m) in cfg.allowedIPs <==> h.linkId == cfg.linkId {
      AllowedIffHop(g, dialable, n, st, cfg, m);
    }
    HopHasPath(g.nodes, g.links, n.id, m.id);
    FirstLinkIsFirst(g.links, n.id, h.peer);
    RouteIsHop(g, dialable, n, st, m, h.iface);
  }

  // ----- delivery -----

  /** Along `q`, each node forwards `dst` to the next one, which accepts `src` on the same link. */
  ghost predicate Carries(g: Graph, out: map<NodeId, NodeState>, q: seq<NodeId>, src: Node, dst: Node) {
    forall i :: 0 <= i < |q| - 1 ==> CarriesAt(g, out, q, src, dst, i)
  }

  ghost predicate CarriesAt(g: Graph, out: map<NodeId, NodeState>, q: seq<NodeId>, src: Node, dst: Node, i: nat)
    requires i + 1 < |q|
  {
    q[i] in out && q[i + 1] in out && HandsOver(g, out[q[i]], out[q[i + 1]], q[i + 1], Cidr(src), Cidr(dst))
  }

  /** `x` sends packets for `c` over one link to the node `y` of state `sty`, which accepts `a` on that link. */
  ghost predicate HandsOver(g: Graph, stx: NodeState, sty: NodeState, y: NodeId, a: string, c: string) {
    exists link :: Forwards(g, stx, c, y, link) && Accepts(sty, a, link)
  }

  /** `q` is the tree path from `src` to `dst`, with an enabled link on every edge. */
  ghost predicate LinkedPath(g: Graph, q: seq<NodeId>, src: NodeId, dst: NodeId) {
    && SimplePath(TreeEdges(ParentsOf(g.nodes)), q, src, dst) && IsWalk(LinkEdges(g.links), q)
    && DepthWithin(ParentsOf(g.nodes), src, MAX_DEPTH)
  }

  lemma PathNodesExist(g: Graph, q: seq<NodeId>, src: Node, i: nat)
    requires WellFormed(g) && src in g.nodes && IsWalk(LinkEdges(g.links), q) && q[0] == src.id && i < |q|
    ensures HasNode(g, q[i])
  {
    if i > 0 {
      assert (q[i - 1], q[i]) in LinkEdges(g.links);
      var k :| 0 <= k < |g.links| && g.links[k].enabled && Joins(g.links[k], q[i - 1], q[i]);
      assert g.links[k] in g.links;
    }
  }

  /** Seen from any node of the path: forward to `dst`, and back to `src`, along the same path. */
  lemma HopsFromInside(g: Graph, q: seq<NodeId>, src: Node, dst: Node, i: nat)
    requires LinkedPath(g, q, src.id, dst.id) && DepthWithin(ParentsOf(g.nodes), dst.id, MAX_DEPTH) && i < |q|
    requires src.id != "" && dst.id != "" && q[i] != ""
    ensures i + 1 < |q| ==> ControlHop(g.nodes, g.links, q[i], dst.id) == LinkHop(g.links, q[i], q[i + 1])
                            && LinkHop(g.links, q[i], q[i + 1]).Some?
    ensures i > 0 ==> ControlHop(g.nodes, g.links, q[i], src.id) == LinkHop(g.links, q[i], q[i - 1])
                      && LinkHop(g.links, q[i], q[i - 1]).Some?
  {
    var p := ParentsOf(g.nodes);
    var da: nat :| da <= MAX_DEPTH && RootAt(p, src.id, da);
    var db: nat :| db <= MAX_DEPTH && RootAt(p, dst.id, db);
    PathDepth(p, q, src.id, dst.id, da, db, i);
    if i + 1 < |q| {
      SuffixIsSimple(TreeEdges(p), q, src.id, dst.id, i);
      HopAlongPath(g.nodes, g.links, q[i..], q[i], dst.id);
    }
    if i > 0 {
      TreeEdgesSymmetric(p);
      LinkEdgesSymmetric(g.links);
      var back := Reverse(q[..i + 1]);
      ReversedPrefixIsSimple(TreeEdges(p), q, src.id, dst.id, i);
      ReversedPrefixIsSimple(LinkEdges(g.links), q, src.id, dst.id, i);
      HopAlongPath(g.nodes, g.links, back, q[i], src.id);
    }
  }

  /** `x` and `y` are each other's next hop, towards `dst` and back towards `src`. */
  ghost predicate Mutual(g: Graph, x: Node, y: Node, src: Node, dst: Node) {
    && x in g.nodes && y in g.nodes && src in g.nodes && dst in g.nodes
    && RouteFor(g, x, dst).Some? && RouteFor(g, x, dst) == LinkHop(g.links, x.id, y.id)
    && RouteFor(g, y, src).Some? && RouteFor(g, y, src) == LinkHop(g.links, y.id, x.id)
  }

  /** The i-th edge of a linked path, seen from both ends. */
  lemma EdgeNodes(g: Graph, q: seq<NodeId>, src: Node, dst: Node, i: nat) returns (x: Node, y: Node)
    requires WellFormed(g) && Addressed(g) && src in g.nodes && dst in g.nodes && i + 1 < |q|
    requires LinkedPath(g, q, src.id, dst.id) && DepthWithin(ParentsOf(g.nodes), dst.id, MAX_DEPTH)
    ensures x in g.nodes && x.id == q[i] && y in g.nodes && y.id == q[i + 1]
    ensures Mutual(g, x, y, src, dst)
  {
    PathNodesExist(g, q, src, i);
    PathNodesExist(g, q, src, i + 1);
    x :| x in g.nodes && x.id == q[i];
    y :| y in g.nodes && y.id == q[i + 1];
    HopsFromInside(g, q, src, dst, i);
    HopsFromInside(g, q, src, dst, i + 1);
    assert q[i] != dst.id && q[i + 1] != src.id;
  }

  /** If `x` reaches `dst` through `y`, and `y` reaches `src` through `x`, then `y` accepts what `x` forwards. */
  lemma MutualHops(g: Graph, dialable: string -> bool, x: Node, stx: NodeState, y: Node, sty: NodeState, src: Node,
                   dst: Node)
    requires UniqueIds(g) && Addressed(g) && Mutual(g, x, y, src, dst)
    requires IsCompiled(g, dialable, x, stx) && IsCompiled(g, dialable, y, sty)
    ensures HandsOver(g, stx, sty, y.id, Cidr(src), Cidr(dst))
  {
    FirstLinkSymmetric(g.links, x.id, y.id);
    HopForwards(g, dialable, x, stx, dst);
    HopForwards(g, dialable, y, sty, src);
    var link := RouteFor(g, x, dst).value.linkId;
    assert Forwards(g, stx, Cidr(dst), y.id, link) && Accepts(sty, Cidr(src), link);
  }

  lemma CarriedHop(g: Graph, dialable: string -> bool, out: map<NodeId, NodeState>, q: seq<NodeId>, src: Node,
                   dst: Node, i: nat)
    requires WellFormed(g) && Addressed(g) && Compiled(g, dialable, out) && src in g.nodes && dst in g.nodes
    requires LinkedPath(g, q, src.id, dst.id) && DepthWithin(ParentsOf(g.nodes), dst.id, MAX_DEPTH) && i + 1 < |q|
    ensures CarriesAt(g, out, q, src, dst, i)
  {
    var x, y := EdgeNodes(g, q, src, dst, i);
    assert HasState(g, dialable, out, x) && HasState(g, dialable, out, y);
    MutualHops(g, dialable, x, out[x.id], y, out[y.id], src, dst);
  }

  /**
   Once ControlNextHop offers a way from `src` to `dst`, there is one tree path between
   them, and the tables compiled for its nodes carry a packet all the way, every
   receiver accepting it, exactly if `dst` is itself at most 1025 edges below its root.
   The path visits no node twice, so the packet never loops.
   */
  lemma Delivery(g: Graph, dialable: string -> bool, out: map<NodeId, NodeState>, src: Node, dst: Node)
    returns (q: seq<NodeId>)
    requires WellFormed(g) && Addressed(g) && Compiled(g, dialable, out) && src in g.nodes && dst in g.nodes
    requires ControlHop(g.nodes, g.links, src.id, dst.id).Some?
    ensures LinkedPath(g, q, src.id, dst.id) && 2 <= |q|
    ensures Carries(g, out, q, src, dst) <==> DepthWithin(ParentsOf(g.nodes), dst.id, MAX_DEPTH)
  {
    HopHasPath(g.nodes, g.links, src.id, dst.id);
    q := TreePath(ParentsOf(g.nodes), src.id, dst.id).value;
    CarriesIffShallow(g, dialable, out, q, src, dst);
  }

  lemma CarriesIffShallow(g: Graph, dialable: string -> bool, out: map<NodeId, NodeState>, q: seq<NodeId>, src: Node,
                          dst: Node)
    requires WellFormed(g) && Addressed(g) && Compiled(g, dialable, out) && src in g.nodes && dst in g.nodes
    requires LinkedPath(g, q, src.id, dst.id) && 2 <= |q|
    ensures Carries(g, out, q, src, dst) <==> DepthWithin(ParentsOf(g.nodes), dst.id, MAX_DEPTH)
  {
    if DepthWithin(ParentsOf(g.nodes), dst.id, MAX_DEPTH) {
      PathCarries(g, dialable, out, q, src, dst);
    }
    if Carries(g, out, q, src, dst) {
      LastHopShallow(g, dialable, out, q, src, dst);
    }
  }

  lemma PathCarries(g: Graph, dialable: string -> bool, out: map<NodeId, NodeState>, q: seq<NodeId>, src: Node,
                    dst: Node)
    requires WellFormed(g) && Addressed(g) && Compiled(g, dialable, out) && src in g.nodes && dst in g.nodes
    requires LinkedPath(g, q, src.id, dst.id) && DepthWithin(ParentsOf(g.nodes), dst.id, MAX_DEPTH)
    ensures Carries(g, out, q, src, dst)
  {
    forall i | 0 <= i < |q| - 1 ensures CarriesAt(g, out, q, src, dst, i) {
      CarriedHop(g, dialable, out, q, src, dst, i);
    }
  }

  lemma LastHopShallow(g: Graph, dialable: string -> bool, out: map<NodeId, NodeState>, q: seq<NodeId>, src: Node,
                       dst: Node)
    requires UniqueIds(g) && Addressed(g) && Compiled(g, dialable, out) && src in g.nodes && dst in g.nodes
    requires 2 <= |q| && q[|q| - 1] == dst.id && Carries(g, out, q, src, dst)
    ensures DepthWithin(ParentsOf(g.nodes), dst.id, MAX_DEPTH)
  {
    assert CarriesAt(g, out, q, src, dst, |q| - 2);
    assert HasState(g, dialable, out, dst);
    AcceptedMeansShallow(g, dialable, dst, out[dst.id], src);
  }

  lemma AcceptedMeansShallow(g: Graph, dialable: string -> bool, n: Node, st: NodeState, src: Node)
    requires UniqueIds(g) && Addressed(g) && n in g.nodes && src in g.nodes && IsCompiled(g, dialable, n, st)
    requires exists link :: Accepts(st, Cidr(src), link)
    ensures DepthWithin(ParentsOf(g.nodes), n.id, MAX_DEPTH)
  {
    var link :| Accepts(st, Cidr(src), link);
    var cfg :| cfg in st.links && cfg.linkId == link && Cidr(src) in cfg.allowedIPs;
    AllowedIffHop(g, dialable, n, st, cfg, src);
    HopHasPath(g.nodes, g.links, n.id, src.id);
  }

  /** `w` is a run of a packet for `dst`: each step is taken by the tables of the node it is at. */
  ghost predicate FollowsTables(g: Graph, out: map<NodeId, NodeState>, w: seq<NodeId>, dst: Node) {
    forall i :: 0 < i < |w| ==> StepsByTable(g, out, w[i - 1], w[i], dst)
  }

  ghost predicate StepsByTable(g: Graph, out: map<NodeId, NodeState>, x: NodeId, y: NodeId, dst: Node) {
    x in out && ForwardsTo(g, out[x], Cidr(dst), y)
  }

  ghost predicate ForwardsTo(g: Graph, st: NodeState, c: string, y: NodeId) {
    exists link :: Forwards(g, st, c, y, link)
  }

  lemma ForwardsToOne(g: Graph, st: NodeState, c: string, y: NodeId, z: NodeId)
    requires UniqueIds(g) && ForwardsTo(g, st, c, y) && ForwardsTo(g, st, c, z)
    ensures y == z
  {
    var ly :| Forwards(g, st, c, y, ly);
    var lz :| Forwards(g, st, c, z, lz);
    var l :| l in g.links && l.id == ly && Joins(l, st.nodeId, y);
    var k :| k in g.links && k.id == lz && Joins(k, st.nodeId, z);
    SameLinkId(g, l, k);
  }

  /** A compiled network that carries packets from `src` to `dst` along `q`. */
  ghost predicate Established(g: Graph, dialable: string -> bool, out: map<NodeId, NodeState>, q: seq<NodeId>,
                              src: Node, dst: Node) {
    && UniqueIds(g) && Addressed(g) && Compiled(g, dialable, out) && dst in g.nodes
    && q != [] && q[0] == src.id && q[|q| - 1] == dst.id && Carries(g, out, q, src, dst)
  }

  /**
   The tables leave no choice: whatever a packet for `dst` does from `src`, it is on
   the path, after `i` hops at the path's node `i`, and it stops at `dst`.
   */
  lemma {:induction false} RunsAreOnPath(g: Graph, dialable: string -> bool, out: map<NodeId, NodeState>,
                                         q: seq<NodeId>, src: Node, dst: Node, w: seq<NodeId>, i: nat)
    requires Established(g, dialable, out, q, src, dst)
    requires FollowsTables(g, out, w, dst) && i < |w| && w[0] == src.id
    ensures i < |q| && w[i] == q[i]
    decreases i
  {
    if i > 0 {
      RunsAreOnPath(g, dialable, out, q, src, dst, w, i - 1);
      TableStep(g, out, w, dst, i);
      NextOnPath(g, dialable, out, q, src, dst, i - 1, w[i]);
    }
  }

  lemma TableStep(g: Graph, out: map<NodeId, NodeState>, w: seq<NodeId>, dst: Node, i: nat)
    requires FollowsTables(g, out, w, dst) && 0 < i < |w|
    ensures StepsByTable(g, out, w[i - 1], w[i], dst)
  {
  }

  lemma NextOnPath(g: Graph, dialable: string -> bool, out: map<NodeId, NodeState>, q: seq<NodeId>, src: Node,
                   dst: Node, i: nat, y: NodeId)
    requires Established(g, dialable, out, q, src, dst) && i < |q|
    requires StepsByTable(g, out, q[i], y, dst)
    ensures i + 1 < |q| && y == q[i + 1]
  {
    if i == |q| - 1 {
      assert HasState(g, dialable, out, dst);
      StopsAtDestination(g, dialable, dst, out[dst.id], y);
    } else {
      HandedTo(g, out, q, src, dst, i);
      ForwardsToOne(g, out[q[i]], Cidr(dst), y, q[i + 1]);
    }
  }

  lemma HandedTo(g: Graph, out: map<NodeId, NodeState>, q: seq<NodeId>, src: Node, dst: Node, i: nat)
    requires i + 1 < |q| && Carries(g, out, q, src, dst)
    ensures q[i] in out && ForwardsTo(g, out[q[i]], Cidr(dst), q[i + 1])
  {
    assert CarriesAt(g, out, q, src, dst, i);
  }

  lemma StopsAtDestination(g: Graph, dialable: string -> bool, dst: Node, st: NodeState, y: NodeId)
    requires UniqueIds(g) && Addressed(g) && dst in g.nodes && IsCompiled(g, dialable, dst, st)
    ensures !ForwardsTo(g, st, Cidr(dst), y)
  {
    if link :| Forwards(g, st, Cidr(dst), y, link) {
      var cfg :| cfg in st.links && Cidr(dst) in cfg.allowedIPs;
      AllowedIffHop(g, dialable, dst, st, cfg, dst);
    }
  }
}
