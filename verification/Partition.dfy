/** How the AllowedIPs of a node divide the control tree. */
module Partition {
  import opened Prelude
  import opened Model
  import opened Walks
  import opened ControlTree
  import opened Topology
  import opened Routing
  import opened Delivery

  /** Connected over tree edges that carry an enabled link. */
  ghost predicate Reaches(g: Graph, a: NodeId, b: NodeId) {
    Connected(TreeEdges(ParentsOf(g.nodes)) * LinkEdges(g.links), a, b)
  }

  lemma RouteIffReaches(g: Graph, n: Node, m: Node)
    requires WellFormed(g) && Addressed(g) && Shallow(g) && n in g.nodes && m in g.nodes
    ensures RouteFor(g, n, m).Some? <==> n.id != m.id && Reaches(g, n.id, m.id)
  {
    var p := ParentsOf(g.nodes);
    var edges := TreeEdges(p) * LinkEdges(g.links);
    if RouteFor(g, n, m).Some? {
      HopHasPath(g.nodes, g.links, n.id, m.id);
      assert WalkFromTo(edges, TreePath(p, n.id, m.id).value, n.id, m.id);
    }
    if n.id != m.id && Reaches(g, n.id, m.id) {
      var w :| WalkFromTo(edges, w, n.id, m.id);
      var q := WalkContainsSimplePath(edges, w, n.id, m.id);
      assert SimplePath(TreeEdges(p), q, n.id, m.id) && IsWalk(LinkEdges(g.links), q);
      HopAlongPath(g.nodes, g.links, q, n.id, m.id);
    }
  }

  /** The hop from `n` to `m` is the first link to the tree neighbour on the way to `m`. */
  lemma HopIsStep(g: Graph, n: Node, m: Node)
    requires RouteFor(g, n, m).Some?
    ensures var h := RouteFor(g, n, m).value;
            && IsStepToward(ParentsOf(g.nodes), n.id, h.peer, m.id)
            && Rooted(ParentsOf(g.nodes), n.id)
            && TreeAdjacent(ParentsOf(g.nodes), n.id, h.peer)
            && LinkHop(g.links, n.id, h.peer) == Some(h)
  {
    HopHasPath(g.nodes, g.links, n.id, m.id);
    SimplePathSteps(ParentsOf(g.nodes), TreePath(ParentsOf(g.nodes), n.id, m.id).value, n.id, m.id);
  }

  /** `link` is the first enabled link between `n` and `y`. */
  ghost predicate IsFirstLink(g: Graph, n: NodeId, y: NodeId, link: LinkId) {
    FirstLink(g.links, n, y).Some? && FirstLink(g.links, n, y).value.id == link
  }

  lemma FirstLinkLeadsToOne(g: Graph, n: NodeId, y: NodeId, z: NodeId, link: LinkId)
    requires UniqueIds(g) && IsFirstLink(g, n, y, link) && IsFirstLink(g, n, z, link)
    ensures y == z
  {
    FirstLinkIsFirst(g.links, n, y);
    FirstLinkIsFirst(g.links, n, z);
    SameLinkId(g, FirstLink(g.links, n, y).value, FirstLink(g.links, n, z).value);
  }

  /**
   In a shallow forest the first link to a child holds the nodes reachable in that
   child's subtree, the first link to the parent the reachable nodes outside the own
   subtree, and every other link nothing.
   */
  lemma SubtreePartition(g: Graph, dialable: string -> bool, n: Node, st: NodeState, cfg: LinkCfg, m: Node, y: NodeId)
    requires WellFormed(g) && Addressed(g) && Shallow(g) && n in g.nodes && m in g.nodes
    requires IsCompiled(g, dialable, n, st) && cfg in st.links
    ensures var p := ParentsOf(g.nodes);
            && (y in p && p[y] == n.id && IsFirstLink(g, n.id, y, cfg.linkId) ==>
                  (Cidr(m) in cfg.allowedIPs <==> Under(p, m.id, y) && Reaches(g, n.id, m.id)))
            && (n.id in p && p[n.id] == y && IsFirstLink(g, n.id, y, cfg.linkId) ==>
                  (Cidr(m) in cfg.allowedIPs <==> !Under(p, m.id, n.id) && Reaches(g, n.id, m.id)))
            && ((forall z :: TreeAdjacent(p, n.id, z) ==> !IsFirstLink(g, n.id, z, cfg.linkId)) ==>
                  Cidr(m) !in cfg.allowedIPs)
  {
    var p := ParentsOf(g.nodes);
    assert Rooted(p, n.id) by { assert DepthWithin(p, n.id, MAX_DEPTH); }
    AllowedIffHop(g, dialable, n, st, cfg, m);
    RouteIffReaches(g, n, m);
    if RouteFor(g, n, m).Some? {
      HopIsStep(g, n, m);
      var h := RouteFor(g, n, m).value;
      if IsFirstLink(g, n.id, y, cfg.linkId) && h.linkId == cfg.linkId {
        FirstLinkLeadsToOne(g, n.id, y, h.peer, cfg.linkId);
      }
      if TreeAdjacent(p, n.id, y) && IsStepToward(p, n.id, y, m.id) {
        StepTowardUnique(p, n.id, y, h.peer, m.id);
      }
    }
    UnderSelf(p, n.id);
    if n.id in p { ParentNotUnder(p, n.id); }
    if y in p && p[y] == n.id {
      if Under(p, n.id, y) { AboveAndBelow(p, n.id, y); }
      if Under(p, m.id, y) { UnderThrough(p, m.id, y, n.id); }
      if n.id in p && p[n.id] == y { AboveAndBelow(p, n.id, y); }
    }
  }

  lemma AboveAndBelow(p: Parents, a: NodeId, c: NodeId)
    requires Rooted(p, a) && c in p && p[c] == a
    ensures !Under(p, a, c) && !(a in p && p[a] == c)
  {
    assert a in p && p[a] == c ==> Anc(p, a, 1) == Anc(p, c, 0);
    if k: nat :| Anc(p, a, k) == Some(c) {
      AncCompose(p, a, k, 1);
      assert Anc(p, c, 1) == Anc(p, a, 0);
      NoCycle(p, a, k + 1);
    }
  }

  /** AllowedIPs of different interfaces of one node never overlap, and hold node addresses only. */
  lemma AllowedIPsDisjoint(g: Graph, dialable: string -> bool, n: Node, st: NodeState, cfg: LinkCfg, other: LinkCfg,
                           c: string)
    requires UniqueIds(g) && Addressed(g) && n in g.nodes && IsCompiled(g, dialable, n, st)
    requires cfg in st.links && other in st.links && c in cfg.allowedIPs
    ensures exists m :: m in g.nodes && Cidr(m) == c && m.id != n.id
    ensures c in other.allowedIPs ==> cfg.linkId == other.linkId
  {
    var i :| 0 <= i < |st.links| && st.links[i] == cfg;
    assert AllowedAt(g, n, st.links[i], |g.nodes|);
    var j :| 0 <= j < |g.nodes| && ReachedOver(g, n, j, c, cfg.linkId);
    AllowedIffHop(g, dialable, n, st, cfg, g.nodes[j]);
    AllowedIffHop(g, dialable, n, st, other, g.nodes[j]);
  }
}
