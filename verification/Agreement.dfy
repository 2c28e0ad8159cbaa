/** The two searches of internal/topology/graph.go agree on a backbone with one link per tree edge. */
module Agreement {
  import opened Prelude
  import opened Model
  import opened Walks
  import opened ControlTree
  import opened Topology
  import opened Delivery
  import ShortestHop

  ghost predicate OneLinkPerPair(links: seq<Link>) {
    forall i, j :: 0 <= i < j < |links| && links[i].enabled && links[j].enabled ==>
      !Joins(links[j], links[i].nodeA, links[i].nodeB)
  }

  /** The first hop of a shortest walk is one step closer to the destination. */
  lemma FirstHopIsCloser(links: seq<Link>, src: NodeId, dst: NodeId, hop: Hop)
    requires ShortestHop.FirstHopOfShortest(links, src, dst, hop)
    ensures EnabledBetween(links, src, hop.peer)
    ensures exists w, v ::
              ShortestWalk(LinkEdges(links), w, src, dst) && ShortestWalk(LinkEdges(links), v, hop.peer, dst)
              && |w| == |v| + 1
  {
    var w :| ShortestWalk(LinkEdges(links), w, src, dst) && 2 <= |w| && w[1] == hop.peer;
    ShortestTail(LinkEdges(links), w, src, dst);
    assert (w[0], w[1]) in LinkEdges(links);
    assert |w| == |w[1..]| + 1;
  }

  /**
   When the enabled links are exactly the tree edges, one link each, any answer that the
   breadth-first search may give is the answer of the tree walk.
   */
  lemma SearchEqualsTreeWalk(nodes: seq<Node>, links: seq<Link>, src: NodeId, dst: NodeId, hop: Hop, ok: bool)
    requires LinkEdges(links) == TreeEdges(ParentsOf(nodes)) && OneLinkPerPair(links)
    requires DepthWithin(ParentsOf(nodes), src, MAX_DEPTH) && DepthWithin(ParentsOf(nodes), dst, MAX_DEPTH)
    requires ok <==> src != "" && dst != "" && src != dst && Connected(LinkEdges(links), src, dst)
    requires ok ==> ShortestHop.FirstHopOfShortest(links, src, dst, hop)
    ensures ControlHop(nodes, links, src, dst) == if ok then Some(hop) else None
  {
    var p := ParentsOf(nodes);
    if ok {
      var w :| ShortestWalk(LinkEdges(links), w, src, dst) && 2 <= |w| && w[1] == hop.peer;
      ShortestStepsToward(p, w, src, dst);
      var q := WalkContainsSimplePath(TreeEdges(p), w, src, dst);
      HopAlongPath(nodes, links, q, src, dst);
      SimplePathSteps(p, q, src, dst);
      StepTowardUnique(p, src, q[1], w[1], dst);
      OnlyLink(links, src, hop);
    } else if ControlHop(nodes, links, src, dst).Some? {
      HopHasPath(nodes, links, src, dst);
      assert WalkFromTo(LinkEdges(links), TreePath(p, src, dst).value, src, dst);
    }
  }

  /** A shortest walk over tree edges sets out towards its destination. */
  lemma ShortestStepsToward(p: Parents, w: seq<NodeId>, src: NodeId, dst: NodeId)
    requires Rooted(p, src) && ShortestWalk(TreeEdges(p), w, src, dst) && 2 <= |w|
    ensures IsStepToward(p, src, w[1], dst)
  {
    ShortestWalkLeavesStart(TreeEdges(p), w, src, dst);
    assert (w[0], w[1]) in TreeEdges(p);
    assert WalkFromTo(TreeEdges(p), w[1..], w[1], dst);
    WalkStepsToward(p, src, w[1..], dst);
  }

  lemma OnlyLink(links: seq<Link>, src: NodeId, hop: Hop)
    requires OneLinkPerPair(links) && src != hop.peer
    requires ShortestHop.FromLink(links, src, ShortestHop.Neighbor(hop.peer, hop.linkId, hop.iface))
    ensures LinkHop(links, src, hop.peer) == Some(hop)
  {
    var nb := ShortestHop.Neighbor(hop.peer, hop.linkId, hop.iface);
    var i :| 0 <= i < |links| && nb in ShortestHop.Contribution(links[i], src);
    OnlyLinkBetween(links, src, hop.peer, i);
  }

  lemma OnlyLinkBetween(links: seq<Link>, a: NodeId, b: NodeId, i: nat)
    requires OneLinkPerPair(links) && i < |links| && links[i].enabled && Joins(links[i], a, b)
    ensures FirstLink(links, a, b) == Some(links[i])
  {
    assert EnabledBetween(links, a, b);
    FirstLinkIsFirst(links, a, b);
    var l := FirstLink(links, a, b).value;
    var k :| 0 <= k < |links| && links[k] == l && l.enabled && Joins(l, a, b);
  }
}
