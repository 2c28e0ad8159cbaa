/** A chain of nodes, each the parent of the next, deep enough to pass the two depth limits. */
module DeepTrees {
  import opened Prelude
  import opened Model
  import opened Walks
  import opened ControlTree
  import opened Topology
  import opened Tables
  import opened Delivery
  import opened Forwarding
  import Overlay
  import Routing
  import UpdateSafety
  import Netd
  import Witnesses

  /** The k-th id: k + 1 digits. */
  function Id(k: nat): NodeId {
    seq(k + 1, i => '1')
  }

  lemma IdsDiffer(j: nat, k: nat)
    ensures Id(j) == Id(k) <==> j == k
    ensures Id(k) != "" && Overlay.PlainAddress(Id(k))
  {
    assert |Id(j)| == j + 1 && |Id(k)| == k + 1;
  }

  function ChainNode(k: nat): Node {
    Node(Id(k), Id(k), Witnesses.KEYS1.public, Witnesses.KEYS1.private,
         if k == 0 then None else Some(Id(k - 1)), k == 0, 51820, 51820)
  }

  function ChainLink(k: nat): Link {
    Link(Id(k), Id(k), Id(k + 1), Id(k + 1), Id(k), "192.0.2.1", 51820, "a", "b", true, false, Active)
  }

  /** `n` nodes in a row, with the links between them. */
  function ChainGraph(n: nat): Routing.Graph
    requires n > 0
  {
    Routing.Graph(seq(n, k requires 0 <= k < n => ChainNode(k)),
                  seq(n - 1, k requires 0 <= k < n - 1 => ChainLink(k)), [])
  }

  function ChainParents(n: nat): Parents
    requires n > 0
  {
    ParentsOf(ChainGraph(n).nodes)
  }

  lemma ChainIdsUnique(n: nat)
    requires n > 0
    ensures Routing.UniqueIds(ChainGraph(n))
  {
    var g := ChainGraph(n);
    forall i, j | 0 <= i < j < |g.nodes| ensures g.nodes[i].id != g.nodes[j].id {
      IdsDiffer(i, j);
    }
    forall i, j | 0 <= i < j < |g.links| ensures g.links[i].id != g.links[j].id {
      IdsDiffer(i, j);
    }
  }

  /** Each node's parent is the node before it. */
  lemma ChainParent(n: nat, k: nat)
    requires k < n
    ensures Id(k) in ChainParents(n) <==> k > 0
    ensures k > 0 ==> ChainParents(n)[Id(k)] == Id(k - 1)
  {
    var g := ChainGraph(n);
    ChainIdsUnique(n);
    assert g.nodes[k] == ChainNode(k) && g.nodes[k] in g.nodes;
    ParentsAre(g.nodes, Id(k));
    if k > 0 {
      IdsDiffer(k - 1, k - 1);
    }
  }

  lemma {:induction false} ChainDepth(n: nat, k: nat)
    requires k < n
    ensures RootAt(ChainParents(n), Id(k), k)
    decreases k
  {
    ChainParent(n, k);
    if k > 0 {
      ChainDepth(n, k - 1);
    }
  }

  lemma {:induction false} ChainAncestor(n: nat, k: nat, j: nat)
    requires j <= k < n
    ensures Anc(ChainParents(n), Id(k), j) == Some(Id(k - j))
    decreases j
  {
    ChainParent(n, k);
    if j > 0 {
      ChainAncestor(n, k - 1, j - 1);
    }
  }

  lemma ChainIsWellFormed(n: nat)
    requires n > 0
    ensures WellFormed(ChainGraph(n)) && Addressed(ChainGraph(n))
  {
    var g := ChainGraph(n);
    ChainIdsUnique(n);
    forall m | m in g.nodes ensures m.id != "" && m.overlayIPv4 == m.id && Routing.Cidr(m) == m.id + "/32" {
      var k :| 0 <= k < n && g.nodes[k] == m;
      IdsDiffer(k, k);
      Overlay.PlainCidr(Id(k));
    }
    forall a, b | a in g.nodes && b in g.nodes && Routing.Cidr(a) == Routing.Cidr(b) ensures a.id == b.id {
      assert a.id == Routing.Cidr(a)[..|Routing.Cidr(a)| - 3] && b.id == Routing.Cidr(b)[..|Routing.Cidr(b)| - 3];
    }
    forall l | l in g.links ensures HasNode(g, l.nodeA) && HasNode(g, l.nodeB) {
      var k :| 0 <= k < n - 1 && g.links[k] == l;
      assert g.nodes[k] in g.nodes && g.nodes[k + 1] in g.nodes;
    }
  }

  /** Every tree edge is linked. */
  lemma ChainIsLinked(n: nat, q: seq<NodeId>)
    requires n > 0 && IsWalk(TreeEdges(ChainParents(n)), q)
    ensures IsWalk(LinkEdges(ChainGraph(n).links), q)
  {
    var p, links := ChainParents(n), ChainGraph(n).links;
    LinkEdgesSymmetric(links);
    forall i, j | 0 <= i && j == i + 1 < |q| ensures (q[i], q[j]) in LinkEdges(links) {
      assert (q[i], q[j]) in TreeEdges(p);
      if q[i] in p && p[q[i]] == q[j] {
        ParentIsLinked(n, q[i]);
      } else {
        ParentIsLinked(n, q[j]);
      }
    }
  }

  lemma ParentIsLinked(n: nat, x: NodeId)
    requires n > 0 && x in ChainParents(n)
    ensures (x, ChainParents(n)[x]) in LinkEdges(ChainGraph(n).links)
  {
    var g := ChainGraph(n);
    ChainIdsUnique(n);
    ParentsAre(g.nodes, x);
    var k :| 0 <= k < n && g.nodes[k].id == x;
    ChainParent(n, k);
    assert g.links[k - 1] == ChainLink(k - 1) && Joins(g.links[k - 1], Id(k), Id(k - 1));
  }

  /** The last node of the chain has node 1 among its ancestors, `n - 2` edges up, so node 1 is offered a hop. */
  lemma FirstHopOffered(n: nat)
    requires 3 <= n <= MAX_DEPTH + 2
    ensures ControlHop(ChainGraph(n).nodes, ChainGraph(n).links, Id(1), Id(n - 1)).Some?
  {
    var p := ChainParents(n);
    ChainDepth(n, 1);
    ChainAncestor(n, n - 1, n - 2);
    UnderSelf(p, Id(1));
    assert Meets(p, Id(1), Id(n - 1), n - 2);
    IdsDiffer(1, n - 1);
    var q := TreePath(p, Id(1), Id(n - 1)).value;
    ChainIsLinked(n, q);
    assert (q[0], q[1]) in LinkEdges(ChainGraph(n).links);
    FirstLinkIsFirst(ChainGraph(n).links, q[0], q[1]);
  }

  /**
   A source at depth 1 and a destination 1025 edges below it: the controller offers a hop,
   the tree path is there and linked, and yet the compiled tables do not carry packets
   along it, because the destination, 1026 levels deep, accepts nobody.
   */
  lemma DeepDestinationIsLost(dialable: string -> bool, out: map<NodeId, NodeState>) returns (q: seq<NodeId>)
    requires Compiled(ChainGraph(1027), dialable, out)
    ensures var g := ChainGraph(1027);
            && ControlHop(g.nodes, g.links, Id(1), Id(1026)).Some?
            && LinkedPath(g, q, Id(1), Id(1026)) && !Carries(g, out, q, ChainNode(1), ChainNode(1026))
  {
    var g := ChainGraph(1027);
    ChainIsWellFormed(1027);
    FirstHopOffered(1027);
    assert g.nodes[1] == ChainNode(1) && g.nodes[1026] == ChainNode(1026) && g.nodes[1] in g.nodes
           && g.nodes[1026] in g.nodes;
    q := Delivery.Delivery(g, dialable, out, ChainNode(1), ChainNode(1026));
    TooDeepFor(1027, 1026, MAX_DEPTH);
  }

  /** Nor do the devices deliver to it, from whichever node and along whatever walk. */
  lemma DeepDestinationGetsNothing(dialable: string -> bool, out: map<NodeId, NodeState>, net: Planes,
                                   codec: Netd.Codec, src: Node, w: seq<NodeId>)
    requires AllApplied(ChainGraph(1027), dialable, out, net, codec) && src in ChainGraph(1027).nodes
    requires 2 <= |w| && w[|w| - 1] == Id(1026)
    ensures !Delivers(ChainGraph(1027), out, net, w, src, ChainNode(1026))
  {
    var g := ChainGraph(1027);
    ChainIsWellFormed(1027);
    assert g.nodes[1026] == ChainNode(1026) && g.nodes[1026] in g.nodes;
    if Delivers(g, out, net, w, src, ChainNode(1026)) {
      DeliveredIsShallow(g, dialable, out, net, codec, w, src, ChainNode(1026));
      TooDeepFor(1027, 1026, MAX_DEPTH);
    }
  }

  /** The chain can be compiled and applied, so this is not for want of devices. */
  method DeployChain(dialable: string -> bool, codec: Netd.Codec)
    returns (out: map<NodeId, NodeState>, ghost net: Planes)
    requires Witnesses.Decodes(codec)
    ensures Compiled(ChainGraph(1027), dialable, out)
    ensures AllApplied(ChainGraph(1027), dialable, out, net, codec)
  {
    ChainIsWellFormed(1027);
    out, net := Deploy(ChainGraph(1027), dialable, codec);
  }

  lemma TooDeepFor(n: nat, k: nat, bound: nat)
    requires bound < k < n
    ensures !DepthWithin(ChainParents(n), Id(k), bound)
  {
    ChainDepth(n, k);
    if d: nat :| d <= bound && RootAt(ChainParents(n), Id(k), d) {
      DepthUnique(ChainParents(n), Id(k), d, k);
    }
  }

  /** One level deeper still, a job row stores depth 0 for a node whose parent's row says 1000. */
  lemma DeepNodeSortsLast()
    ensures var p := ChainParents(1002);
            && p[Id(1001)] == Id(1000)
            && UpdateSafety.StoredDepth(p, Id(1001)) == 0 && UpdateSafety.StoredDepth(p, Id(1000)) == 1000
            && !UpdateSafety.DeeperThanParents(p, {Id(1001)})
  {
    var p := ChainParents(1002);
    ChainParent(1002, 1001);
    ChainDepth(1002, 1000);
    TooDeepFor(1002, 1001, 1000);
    DepthUnique(p, Id(1000), 1000, UpdateSafety.TrueDepth(p, Id(1000)));
    assert Id(1001) in {Id(1001)};
  }
}
