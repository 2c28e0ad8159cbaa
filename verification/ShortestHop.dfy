/** internal/topology/graph.go: the breadth-first next hop over enabled links. */
module ShortestHop {
  import opened Prelude
  import opened Model
  import opened Walks
  import opened Topology

  datatype Neighbor = Neighbor(node: NodeId, linkId: LinkId, iface: string)
  datatype Item = Item(node: NodeId, hop: Hop)

  type Adjacency = map<NodeId, seq<Neighbor>>

  function Lookup(adj: Adjacency, x: NodeId): seq<Neighbor> {
    if x in adj then adj[x] else []
  }

  /** What link `l` contributes to the neighbours of `x`; a self-loop contributes twice. */
  function Contribution(l: Link, x: NodeId): seq<Neighbor> {
    if !l.enabled then []
    else (if l.nodeA == x then [Neighbor(l.nodeB, l.id, l.ifaceA)] else [])
         + (if l.nodeB == x then [Neighbor(l.nodeA, l.id, l.ifaceB)] else [])
  }

  function NeighborsOf(links: seq<Link>, x: NodeId): seq<Neighbor> {
    if links == [] then []
    else NeighborsOf(links[..|links| - 1], x) + Contribution(links[|links| - 1], x)
  }

  /** `nb` is one end of an enabled link whose other end is `x`. */
  ghost predicate FromLink(links: seq<Link>, x: NodeId, nb: Neighbor) {
    exists i :: 0 <= i < |links| && nb in Contribution(links[i], x)
  }

  ghost function WithLink(adj: Adjacency, l: Link): Adjacency {
    var withA := adj[l.nodeA := Lookup(adj, l.nodeA) + [Neighbor(l.nodeB, l.id, l.ifaceA)]];
    if !l.enabled then adj
    else withA[l.nodeB := Lookup(withA, l.nodeB) + [Neighbor(l.nodeA, l.id, l.ifaceB)]]
  }

  lemma WithLinkAt(adj: Adjacency, l: Link, x: NodeId)
    ensures Lookup(WithLink(adj, l), x) == Lookup(adj, x) + Contribution(l, x)
  {
  }

  lemma NextLinkAdds(links: seq<Link>, i: nat, adj: Adjacency)
    requires i < |links| && forall x :: Lookup(adj, x) == NeighborsOf(links[..i], x)
    ensures forall x :: Lookup(WithLink(adj, links[i]), x) == NeighborsOf(links[..i + 1], x)
  {
    var l := links[i];
    assert links[..i + 1][..i] == links[..i];
    forall x ensures Lookup(WithLink(adj, l), x) == NeighborsOf(links[..i + 1], x) {
      assert NeighborsOf(links[..i + 1], x) == Lookup(adj, x) + Contribution(l, x);
      WithLinkAt(adj, l, x);
    }
  }

  method EnabledAdj(links: seq<Link>) returns (adj: Adjacency)
    ensures forall x :: Lookup(adj, x) == NeighborsOf(links, x)
  {
    adj := map[];
    for i := 0 to |links|
      invariant forall x :: Lookup(adj, x) == NeighborsOf(links[..i], x)
    {
      var l := links[i];
      NextLinkAdds(links, i, adj);
      ghost var grown := WithLink(adj, l);
      if !l.enabled {
        continue;
      }
      var withA := adj[l.nodeA := Lookup(adj, l.nodeA) + [Neighbor(l.nodeB, l.id, l.ifaceA)]];
      adj := withA[l.nodeB := Lookup(withA, l.nodeB) + [Neighbor(l.nodeA, l.id, l.ifaceB)]];
      assert adj == grown;
    }
    assert links[..|links|] == links;
  }

  lemma {:induction false} NeighborsAreLinks(links: seq<Link>, x: NodeId)
    ensures forall nb :: nb in NeighborsOf(links, x) <==> FromLink(links, x, nb)
  {
    if links != [] {
      var rest := links[..|links| - 1];
      NeighborsAreLinks(rest, x);
      assert forall i :: 0 <= i < |rest| ==> links[i] == rest[i];
      forall nb ensures nb in NeighborsOf(links, x) <==> FromLink(links, x, nb) {
        if FromLink(links, x, nb) && !FromLink(rest, x, nb) {
          assert nb in Contribution(links[|links| - 1], x);
        }
        if FromLink(rest, x, nb) {
          var i :| 0 <= i < |rest| && nb in Contribution(rest[i], x);
          assert nb in Contribution(links[i], x);
        }
      }
    }
  }

  lemma EdgesAreNeighbors(links: seq<Link>, x: NodeId, y: NodeId)
    ensures (x, y) in LinkEdges(links) <==> exists nb :: nb in NeighborsOf(links, x) && nb.node == y
  {
    NeighborsAreLinks(links, x);
    if (x, y) in LinkEdges(links) {
      var nb := EdgeNeighbor(links, x, y);
    }
    if nb :| nb in NeighborsOf(links, x) && nb.node == y {
      NeighborEdge(links, x, nb);
    }
  }

  lemma EdgeNeighbor(links: seq<Link>, x: NodeId, y: NodeId) returns (nb: Neighbor)
    requires (x, y) in LinkEdges(links)
    ensures FromLink(links, x, nb) && nb.node == y
  {
    var i :| 0 <= i < |links| && links[i].enabled && Joins(links[i], x, y);
    nb := if links[i].nodeA == x && links[i].nodeB == y then Neighbor(y, links[i].id, links[i].ifaceA)
    else Neighbor(y, links[i].id, links[i].ifaceB);
    assert nb in Contribution(links[i], x);
  }

  lemma NeighborEdge(links: seq<Link>, x: NodeId, nb: Neighbor)
    requires FromLink(links, x, nb)
    ensures (x, nb.node) in LinkEdges(links)
  {
    var i :| 0 <= i < |links| && nb in Contribution(links[i], x);
    assert links[i].enabled && Joins(links[i], x, nb.node);
  }

  // ----- the invariant of the search; wit maps each seen node to a walk from src -----

  type Witness = map<NodeId, seq<NodeId>>

  ghost predicate Witnessed(edges: Edges, src: NodeId, wit: Witness) {
    && src in wit && wit[src] == [src]
    && forall x :: x in wit ==> WalkFromTo(edges, wit[x], src, x) && (x != src ==> 2 <= |wit[x]|)
  }

  ghost predicate Grows(wit: Witness, wit': Witness) {
    forall x :: x in wit ==> x in wit' && wit'[x] == wit[x]
  }

  ghost predicate Bounded(wit: Witness, n: int) {
    forall x :: x in wit ==> |wit[x]| <= n
  }

  /** The level of a queued node; a self-loop queues src itself beside level 1. */
  ghost function Level(src: NodeId, wit: Witness, x: NodeId): int {
    if x == src then 1 else if x in wit then |wit[x]| - 1 else 0
  }

  ghost predicate ItemOk(links: seq<Link>, src: NodeId, wit: Witness, it: Item) {
    && it.node in wit
    && FromLink(links, src, Neighbor(it.hop.peer, it.hop.linkId, it.hop.iface))
    && (it.node != src ==> 2 <= |wit[it.node]| && wit[it.node][1] == it.hop.peer)
  }

  ghost predicate ItemsOk(links: seq<Link>, src: NodeId, wit: Witness, q: seq<Item>) {
    forall it :: it in q ==> ItemOk(links, src, wit, it)
  }

  /** Queued levels are `d`, then `d + 1`. */
  ghost predicate LevelsOk(src: NodeId, wit: Witness, q: seq<Item>, d: int) {
    && (forall it :: it in q ==> it.node in wit && d <= Level(src, wit, it.node) <= d + 1)
    && (forall i, j :: 0 <= i < j < |q| ==> Level(src, wit, q[i].node) <= Level(src, wit, q[j].node))
  }

  /** All neighbours of `x` are seen, at most one level further out. */
  ghost predicate ExpandedAt(edges: Edges, wit: Witness, x: NodeId) {
    && x in wit
    && forall y :: (x, y) in edges ==> y in wit && |wit[y]| <= |wit[x]| + 1
  }

  ghost predicate Expanded(edges: Edges, wit: Witness, done: set<NodeId>) {
    forall x :: x in done ==> ExpandedAt(edges, wit, x)
  }

  ghost predicate Covered(wit: Witness, q: seq<Item>, done: set<NodeId>) {
    forall x :: x in wit && x !in done ==> exists it :: it in q && it.node == x
  }

  ghost predicate Search(links: seq<Link>, src: NodeId, wit: Witness, q: seq<Item>, done: set<NodeId>, d: int) {
    && Witnessed(LinkEdges(links), src, wit) && Bounded(wit, d + 2)
    && ItemsOk(links, src, wit, q) && LevelsOk(src, wit, q, d)
    && Expanded(LinkEdges(links), wit, done) && Covered(wit, q, done) && src in done
  }

  /** Everything a walk of at most `d` edges can reach is already seen, at its distance. */
  lemma {:induction false} CompleteBelow(edges: Edges, src: NodeId, wit: Witness, q: seq<Item>, done: set<NodeId>,
                                         d: int, v: seq<NodeId>)
    requires wit.Keys >= {src} && wit[src] == [src] && src in done
    requires Expanded(edges, wit, done) && Covered(wit, q, done) && LevelsOk(src, wit, q, d)
    requires IsWalk(edges, v) && v[0] == src
    requires |v| - 1 <= d || q == []
    ensures v[|v| - 1] in wit && |wit[v[|v| - 1]]| <= |v|
    decreases |v|
  {
    if |v| > 1 {
      var c := v[|v| - 2];
      CompleteBelow(edges, src, wit, q, done, d, v[..|v| - 1]);
      assert (c, v[|v| - 1]) in edges;
      assert c in done;
      assert ExpandedAt(edges, wit, c);
    }
  }

  ghost predicate FirstHopOfShortest(links: seq<Link>, src: NodeId, dst: NodeId, hop: Hop) {
    && FromLink(links, src, Neighbor(hop.peer, hop.linkId, hop.iface))
    && exists w :: ShortestWalk(LinkEdges(links), w, src, dst) && 2 <= |w| && w[1] == hop.peer
  }

  lemma FoundShortest(links: seq<Link>, src: NodeId, dst: NodeId, wit: Witness, q: seq<Item>, done: set<NodeId>,
                      d: int, w: seq<NodeId>, hop: Hop)
    requires Search(links, src, wit, q, done, d) && dst !in wit
    requires WalkFromTo(LinkEdges(links), w, src, dst) && 2 <= |w| <= d + 2 && w[1] == hop.peer
    requires FromLink(links, src, Neighbor(hop.peer, hop.linkId, hop.iface))
    ensures FirstHopOfShortest(links, src, dst, hop)
    ensures Connected(LinkEdges(links), src, dst)
  {
    forall v | WalkFromTo(LinkEdges(links), v, src, dst) ensures |w| <= |v| {
      if |v| - 1 <= d {
        CompleteBelow(LinkEdges(links), src, wit, q, done, d, v);
      }
    }
    assert ShortestWalk(LinkEdges(links), w, src, dst);
  }

  // ----- seeing a new node -----

  lemma ItemsAppend(links: seq<Link>, src: NodeId, wit: Witness, wit': Witness, q: seq<Item>, it: Item)
    requires ItemsOk(links, src, wit, q) && Grows(wit, wit') && ItemOk(links, src, wit', it)
    ensures ItemsOk(links, src, wit', q + [it])
  {
    forall x | x in q + [it] ensures ItemOk(links, src, wit', x) {
      if x in q { assert ItemOk(links, src, wit, x); }
    }
  }

  lemma LevelsAppend(src: NodeId, wit: Witness, wit': Witness, q: seq<Item>, it: Item, d: int)
    requires LevelsOk(src, wit, q, d) && Grows(wit, wit')
    requires it.node in wit' && forall x :: x in q ==> Level(src, wit, x.node) <= Level(src, wit', it.node)
    requires d <= Level(src, wit', it.node) <= d + 1
    ensures LevelsOk(src, wit', q + [it], d)
  {
    var q' := q + [it];
    forall x | x in q' ensures x.node in wit' && d <= Level(src, wit', x.node) <= d + 1 {
    }
    forall i, j | 0 <= i < j < |q'| ensures Level(src, wit', q'[i].node) <= Level(src, wit', q'[j].node) {
      assert q'[i] in q;
      if j < |q| { assert q'[j] in q; }
    }
  }

  lemma CoveredAppend(wit: Witness, wit': Witness, q: seq<Item>, it: Item, done: set<NodeId>)
    requires Covered(wit, q, done) && wit'.Keys <= wit.Keys + {it.node}
    ensures Covered(wit', q + [it], done)
  {
    forall x | x in wit' && x !in done ensures exists i :: i in q + [it] && i.node == x {
      if x == it.node {
        assert it in q + [it];
      } else {
        var i :| i in q && i.node == x;
        assert i in q + [it];
      }
    }
  }

  lemma ExpandedGrows(edges: Edges, wit: Witness, wit': Witness, done: set<NodeId>)
    requires Expanded(edges, wit, done) && Grows(wit, wit')
    ensures Expanded(edges, wit', done)
  {
    forall x | x in done ensures ExpandedAt(edges, wit', x) { assert ExpandedAt(edges, wit, x); }
  }

  // ----- the neighbours of src -----

  ghost predicate Seeding(links: seq<Link>, src: NodeId, wit: Witness, q: seq<Item>) {
    && Witnessed(LinkEdges(links), src, wit) && Bounded(wit, 2)
    && ItemsOk(links, src, wit, q) && LevelsOk(src, wit, q, 1) && Covered(wit, q, {src})
  }

  ghost function Seeded(src: NodeId, wit: Witness, n: NodeId): Witness {
    if n == src then wit else wit[n := [src, n]]
  }

  lemma SeedStep(links: seq<Link>, src: NodeId, wit: Witness, q: seq<Item>, n: Neighbor)
    requires Seeding(links, src, wit, q) && n in NeighborsOf(links, src)
    ensures Seeding(links, src, Seeded(src, wit, n.node), q + [Item(n.node, Hop(n.node, n.iface, n.linkId))])
    ensures Seeded(src, wit, n.node).Keys == wit.Keys + {n.node}
  {
    var it := Item(n.node, Hop(n.node, n.iface, n.linkId));
    var wit' := Seeded(src, wit, n.node);
    NeighborsAreLinks(links, src);
    EdgesAreNeighbors(links, src, n.node);
    assert n == Neighbor(it.hop.peer, it.hop.linkId, it.hop.iface);
    SeedWitness(LinkEdges(links), src, wit, n.node);
    ItemsAppend(links, src, wit, wit', q, it);
    LevelsAppend(src, wit, wit', q, it, 1);
    CoveredAppend(wit, wit', q, it, {src});
  }

  lemma SeedWitness(edges: Edges, src: NodeId, wit: Witness, n: NodeId)
    requires Witnessed(edges, src, wit) && Bounded(wit, 2) && (src, n) in edges
    ensures var wit' := Seeded(src, wit, n); Witnessed(edges, src, wit') && Bounded(wit', 2) && Grows(wit, wit')
  {
    assert n != src ==> WalkFromTo(edges, [src, n], src, n);
    if n in wit && n != src { assert wit[n] == [src, n]; }
  }

  lemma Seeds(links: seq<Link>, src: NodeId, wit: Witness, q: seq<Item>)
    requires Seeding(links, src, wit, q)
    requires forall nb :: nb in NeighborsOf(links, src) ==> nb.node in wit
    ensures Search(links, src, wit, q, {src}, 1)
  {
    forall y | (src, y) in LinkEdges(links) ensures y in wit { EdgesAreNeighbors(links, src, y); }
    assert ExpandedAt(LinkEdges(links), wit, src);
  }

  lemma AdjacentIsShortest(links: seq<Link>, src: NodeId, n: Neighbor)
    requires n in NeighborsOf(links, src) && n.node != src
    ensures FirstHopOfShortest(links, src, n.node, Hop(n.node, n.iface, n.linkId))
    ensures Connected(LinkEdges(links), src, n.node)
  {
    NeighborsAreLinks(links, src);
    EdgesAreNeighbors(links, src, n.node);
    var w := [src, n.node];
    assert WalkFromTo(LinkEdges(links), w, src, n.node);
    assert ShortestWalk(LinkEdges(links), w, src, n.node);
  }

  // ----- the neighbours of a dequeued node -----

  /** The search while the neighbours of `cur`, just taken off the queue, are looked at. */
  ghost predicate Expanding(links: seq<Link>, src: NodeId, cur: Item, wit: Witness, q: seq<Item>, done: set<NodeId>,
                            d: int) {
    && Witnessed(LinkEdges(links), src, wit) && Bounded(wit, d + 2)
    && ItemOk(links, src, wit, cur) && Level(src, wit, cur.node) == d
    && ItemsOk(links, src, wit, q) && LevelsOk(src, wit, q, d)
    && Expanded(LinkEdges(links), wit, done) && Covered(wit, q, done + {cur.node}) && src in done
  }

  /** Removing the front item keeps the queue sorted around its level. */
  lemma Dequeued(links: seq<Link>, src: NodeId, wit: Witness, q: seq<Item>, done: set<NodeId>, e: int)
    requires Search(links, src, wit, q, done, e) && q != []
    ensures var d := Level(src, wit, q[0].node);
            Search(links, src, wit, q, done, d) && Expanding(links, src, q[0], wit, q[1..], done, d)
  {
    var d := Level(src, wit, q[0].node);
    assert q[0] in q && e <= d;
    FrontLevel(src, wit, q, e);
    forall x | x in wit && x !in done + {q[0].node} ensures exists it :: it in q[1..] && it.node == x {
      var it :| it in q && it.node == x;
      assert it in q[1..];
    }
  }

  lemma FrontLevel(src: NodeId, wit: Witness, q: seq<Item>, e: int)
    requires LevelsOk(src, wit, q, e) && q != []
    ensures LevelsOk(src, wit, q, Level(src, wit, q[0].node)) && LevelsOk(src, wit, q[1..], Level(src, wit, q[0].node))
  {
    var d, t := Level(src, wit, q[0].node), q[1..];
    assert q[0] in q;
    forall it | it in q ensures d <= Level(src, wit, it.node) <= d + 1 {
      var i :| 0 <= i < |q| && q[i] == it;
    }
    forall it | it in t ensures it in q {
    }
    forall i, j | 0 <= i < j < |t| ensures Level(src, wit, t[i].node) <= Level(src, wit, t[j].node) {
      assert t[i] == q[i + 1] && t[j] == q[j + 1];
    }
  }

  /** A self-loop puts src back on the queue, but it has nothing left to show. */
  lemma NewNeighbour(links: seq<Link>, src: NodeId, cur: Item, wit: Witness, q: seq<Item>, done: set<NodeId>, d: int,
                     n: Neighbor)
    requires Expanding(links, src, cur, wit, q, done, d)
    requires n in NeighborsOf(links, cur.node) && n.node !in wit
    ensures (cur.node, n.node) in LinkEdges(links) && n.node in AllNodes(links)
    ensures cur.node != src && |wit[cur.node]| == d + 1
    ensures WalkFromTo(LinkEdges(links), wit[cur.node] + [n.node], src, n.node)
  {
    EdgesAreNeighbors(links, cur.node, n.node);
    EdgeInAllNodes(links, cur.node, n.node);
    assert ExpandedAt(LinkEdges(links), wit, src);
    WalkExtend(LinkEdges(links), wit[cur.node], src, cur.node, n.node);
  }

  ghost function Extended(wit: Witness, x: NodeId, y: NodeId): Witness {
    if x in wit then wit[y := wit[x] + [y]] else wit
  }

  lemma Discover(links: seq<Link>, src: NodeId, cur: Item, wit: Witness, q: seq<Item>, done: set<NodeId>, d: int,
                 n: Neighbor)
    requires Expanding(links, src, cur, wit, q, done, d)
    requires n in NeighborsOf(links, cur.node) && n.node !in wit
    ensures var wit' := Extended(wit, cur.node, n.node);
            Expanding(links, src, cur, wit', q + [Item(n.node, cur.hop)], done, d) && wit'.Keys == wit.Keys + {n.node}
  {
    NewNeighbour(links, src, cur, wit, q, done, d, n);
    var w := wit[cur.node] + [n.node];
    var it := Item(n.node, cur.hop);
    var wit' := wit[n.node := w];
    assert w[1] == wit[cur.node][1];
    ItemsAppend(links, src, wit, wit', q, it);
    LevelsAppend(src, wit, wit', q, it, d);
    CoveredAppend(wit, wit', q, it, done + {cur.node});
    ExpandedGrows(LinkEdges(links), wit, wit', done);
  }

  /** A node not seen before `cur` was dequeued lies one level beyond it. */
  lemma FoundNow(links: seq<Link>, src: NodeId, wit0: Witness, q0: seq<Item>, cur: Item, wit: Witness, q: seq<Item>,
                 done: set<NodeId>, d: int, n: Neighbor)
    requires Search(links, src, wit0, q0, done, d) && n.node !in wit0
    requires Expanding(links, src, cur, wit, q, done, d)
    requires n in NeighborsOf(links, cur.node) && n.node !in wit
    ensures FirstHopOfShortest(links, src, n.node, cur.hop) && Connected(LinkEdges(links), src, n.node)
  {
    NewNeighbour(links, src, cur, wit, q, done, d, n);
    FoundShortest(links, src, n.node, wit0, q0, done, d, wit[cur.node] + [n.node], cur.hop);
  }

  /** Once all neighbours of `cur` are seen, it is done and the invariant holds again. */
  lemma StillSearching(links: seq<Link>, src: NodeId, cur: Item, wit: Witness, q: seq<Item>, done: set<NodeId>, d: int)
    requires Expanding(links, src, cur, wit, q, done, d)
    requires forall nb :: nb in NeighborsOf(links, cur.node) ==> nb.node in wit
    ensures Search(links, src, wit, q, done + {cur.node}, d)
  {
    if cur.node !in done {
      forall y | (cur.node, y) in LinkEdges(links) ensures y in wit { EdgesAreNeighbors(links, cur.node, y); }
      assert ExpandedAt(LinkEdges(links), wit, cur.node);
    }
  }

  lemma NothingLeft(links: seq<Link>, src: NodeId, dst: NodeId, wit: Witness, done: set<NodeId>, d: int)
    requires Search(links, src, wit, [], done, d) && dst !in wit
    ensures !Connected(LinkEdges(links), src, dst)
  {
    if w :| WalkFromTo(LinkEdges(links), w, src, dst) {
      CompleteBelow(LinkEdges(links), src, wit, [], done, d, w);
    }
  }

  ghost function AllNodes(links: seq<Link>): set<NodeId> {
    (set l | l in links :: l.nodeA) + (set l | l in links :: l.nodeB)
  }

  lemma EdgeInAllNodes(links: seq<Link>, x: NodeId, y: NodeId)
    requires (x, y) in LinkEdges(links)
    ensures y in AllNodes(links)
  {
    var i :| 0 <= i < |links| && links[i].enabled && Joins(links[i], x, y);
    assert links[i] in links;
  }

  lemma Progress(all: set<NodeId>, before: set<NodeId>, after: set<NodeId>)
    requires before <= after <= all
    ensures after == before || all - after < all - before
  {
    if after != before {
      var x :| x in after && x !in before;
      assert x in all - before;
    }
  }

  /** The first loop of NextHop: the neighbours of the source, unless the destination is among them. */
  method SeedQueue(links: seq<Link>, src: NodeId, dst: NodeId, first: seq<Neighbor>)
    returns (found: Option<Hop>, seen: set<NodeId>, q: seq<Item>, ghost wit: Witness)
    requires first == NeighborsOf(links, src) && src != dst
    ensures found.Some? ==> FirstHopOfShortest(links, src, dst, found.value) && Connected(LinkEdges(links), src, dst)
    ensures found.None? ==> seen == wit.Keys && dst !in seen && Seeding(links, src, wit, q)
    ensures found.None? ==> forall nb :: nb in first ==> nb.node in wit
  {
    seen, wit, q := {src}, map[src := [src]], [];
    for i := 0 to |first|
      invariant seen == wit.Keys && dst !in seen && Seeding(links, src, wit, q)
      invariant forall nb :: nb in first[..i] ==> nb.node in seen
    {
      var n := first[i];
      TakeNext(first, i);
      var hop1 := Hop(n.node, n.iface, n.linkId);
      if n.node == dst {
        AdjacentIsShortest(links, src, n);
        found := Some(hop1);
        return;
      }
      seen := seen + {n.node};
      SeedStep(links, src, wit, q, n);
      wit := Seeded(src, wit, n.node);
      q := q + [Item(n.node, hop1)];
    }
    TakeAll(first);
    found := None;
  }

  method NextHop(links: seq<Link>, src: NodeId, dst: NodeId) returns (hop: Hop, ok: bool)
    ensures ok <==> src != "" && dst != "" && src != dst && Connected(LinkEdges(links), src, dst)
    ensures ok ==> FirstHopOfShortest(links, src, dst, hop)
  {
    if src == "" || dst == "" || src == dst {
      return Hop("", "", ""), false;
    }
    var adj := EnabledAdj(links);
    var first := Lookup(adj, src);
    var found: Option<Hop>, seen: set<NodeId>, q: seq<Item>;
    ghost var wit: Witness;
    found, seen, q, wit := SeedQueue(links, src, dst, first);
    if found.Some? {
      return found.value, true;
    }
    Seeds(links, src, wit, q);
    ghost var all := AllNodes(links) + seen;
    ghost var d, done := 1, {src};
    while |q| > 0
      invariant seen == wit.Keys && dst !in seen && seen <= all
      invariant Search(links, src, wit, q, done, d)
      decreases all - seen, |q|
    {
      var cur := q[0];
      ghost var q0, wit0, seen0 := q, wit, seen;
      Dequeued(links, src, wit, q, done, d);
      d := Level(src, wit, cur.node);
      q := q[1..];
      var next := Lookup(adj, cur.node);
      for k := 0 to |next|
        invariant seen == wit.Keys && dst !in seen && seen0 <= seen <= all
        invariant seen == seen0 ==> |q| < |q0|
        invariant Expanding(links, src, cur, wit, q, done, d)
        invariant forall nb :: nb in next[..k] ==> nb.node in seen
      {
        var n := next[k];
        TakeNext(next, k);
        if n.node in seen {
          continue;
        }
        NewNeighbour(links, src, cur, wit, q, done, d, n);
        seen := seen + {n.node};
        if n.node == dst {
          FoundNow(links, src, wit0, q0, cur, wit, q, done, d, n);
          return cur.hop, true;
        }
        Discover(links, src, cur, wit, q, done, d, n);
        wit := Extended(wit, cur.node, n.node);
        q := q + [Item(n.node, cur.hop)];
      }
      TakeAll(next);
      StillSearching(links, src, cur, wit, q, done, d);
      done := done + {cur.node};
      Progress(all, seen0, seen);
    }
    NothingLeft(links, src, dst, wit, done, d);
    return Hop("", "", ""), false;
  }
}
