/**
 Packets over the devices and routes that the network daemons install: when every node has
 applied its compiled state, delivery depends on the names of the interfaces as well.
 */
module Forwarding {
  import opened Prelude
  import opened Model
  import opened ControlTree
  import opened Topology
  import opened Routing
  import opened Delivery
  import opened Netd
  import opened DataPlane

  type Planes = map<NodeId, Plane>

  /** Every node has applied its compiled state. */
  ghost predicate AllApplied(g: Graph, dialable: string -> bool, out: map<NodeId, NodeState>, net: Planes,
                             codec: Codec) {
    forall n {:trigger NodeApplied(g, dialable, out, net, codec, n)} ::
      n in g.nodes ==> NodeApplied(g, dialable, out, net, codec, n)
  }

  ghost predicate NodeApplied(g: Graph, dialable: string -> bool, out: map<NodeId, NodeState>, net: Planes,
                              codec: Codec, n: Node) {
    && n.id in out && n.id in net
    && IsCompiled(g, dialable, n, out[n.id]) && Applied(net[n.id], out[n.id], codec)
  }

  // ----- deploying -----

  /** Every key that can get into a device text can be decoded. */
  ghost predicate KeysDecode(g: Graph, codec: Codec) {
    && (forall n :: n in g.nodes ==> codec.keyToHex(n.privateKey).Some? && codec.keyToHex(n.publicKey).Some?)
    && (forall e :: e in g.endpoints ==> e.peerPublicKey == "" || codec.keyToHex(e.peerPublicKey).Some?)
  }

  /** Then the text of every compiled interface can be built: whoever initiates has somewhere to dial. */
  lemma InterfaceBuilds(g: Graph, dialable: string -> bool, n: Node, l: Link, cfg: LinkCfg, codec: Codec)
    requires WellFormed(g) && KeysDecode(g, codec) && n in g.nodes && l in g.links
    requires cfg.(allowedIPs := []) == FreshCfg(g, dialable, n, l)
    ensures UapiOf(cfg, codec).Built?
  {
    var peer :| peer in g.nodes && peer.id == PeerOf(l, n.id);
    var k :| 0 <= k < |g.nodes| && g.nodes[k] == peer;
    NodeByIdIsRow(g.nodes, peer.id, k);
    var bare := cfg.(allowedIPs := []);
    assert cfg.privateKey == bare.privateKey && cfg.peerPublicKey == bare.peerPublicKey
           && cfg.peerEndpoint == bare.peerEndpoint && cfg.isInitiator == bare.isInitiator;
  }

  lemma StateBuilds(g: Graph, dialable: string -> bool, n: Node, st: NodeState, codec: Codec)
    requires WellFormed(g) && KeysDecode(g, codec) && n in g.nodes && IsCompiled(g, dialable, n, st)
    ensures AllBuilt(st, codec)
  {
    IncidentIs(g.links, n.id);
    forall name | name in Wanted(st.links) ensures UapiOf(Wanted(st.links)[name], codec).Built? {
      var i := WantedFrom(st.links, name);
      InterfaceBuilds(g, dialable, n, Incident(g.links, n.id)[i], st.links[i], codec);
    }
  }

  /** Every well-formed graph whose keys decode can be compiled and applied at every node. */
  method Deploy(g: Graph, dialable: string -> bool, codec: Codec)
    returns (out: map<NodeId, NodeState>, ghost net: Planes)
    requires WellFormed(g) && KeysDecode(g, codec)
    ensures Compiled(g, dialable, out) && AllApplied(g, dialable, out, net, codec)
  {
    out := Routing.Compile(g, dialable);
    net := map x | x in out :: FirstPlane(out[x], codec);
    forall n | n in g.nodes ensures NodeApplied(g, dialable, out, net, codec, n) {
      StateBuilds(g, dialable, n, out[n.id], codec);
      CanBeApplied(out[n.id], codec);
    }
    TablesAreCompiled(g, dialable, out, net, codec);
  }

  // ----- one node -----

  /** The link of the hop from `n` to `m` is the last of its name at `n`. */
  ghost predicate HopHasDevice(g: Graph, n: Node, m: Node) {
    RouteFor(g, n, m).Some? && LastOfName(g, n.id, FirstLink(g.links, n.id, RouteFor(g, n, m).value.peer).value)
  }

  lemma HopLink(g: Graph, n: Node, m: Node) returns (l: Link)
    requires RouteFor(g, n, m).Some?
    ensures FirstLink(g.links, n.id, RouteFor(g, n, m).value.peer) == Some(l)
    ensures l in Incident(g.links, n.id) && l.id == RouteFor(g, n, m).value.linkId
    ensures l.enabled && Joins(l, n.id, RouteFor(g, n, m).value.peer)
  {
    HopHasPath(g.nodes, g.links, n.id, m.id);
    FirstLinkIsFirst(g.links, n.id, RouteFor(g, n, m).value.peer);
    l := FirstLink(g.links, n.id, RouteFor(g, n, m).value.peer).value;
    IncidentIs(g.links, n.id);
  }

  /** If some device configured for `link` admits the address of `m`, then `link` is the hop to `m` and has a device. */
  lemma AdmittedIsHop(g: Graph, dialable: string -> bool, n: Node, st: NodeState, p: Plane, codec: Codec, m: Node,
                      dev: string, link: LinkId)
    requires UniqueIds(g) && Addressed(g) && n in g.nodes && m in g.nodes
    requires IsCompiled(g, dialable, n, st) && Applied(p, st, codec)
    requires Admits(p, dev, Cidr(m)) && DeviceOf(st, dev, link)
    ensures HopHasDevice(g, n, m) && RouteFor(g, n, m).value.linkId == link
  {
    var i := WantedFrom(st.links, dev);
    var cfg := st.links[i];
    DeviceAdmits(g, dialable, n, st, p, codec, dev, cfg, Cidr(m));
    AllowedIffHop(g, dialable, n, st, cfg, m);
    var l := HopLink(g, n, m);
    HasDeviceIff(g, dialable, n, st, l, dev);
  }

  /** If the hop's link has a device, that device admits the address. */
  lemma HopAdmits(g: Graph, dialable: string -> bool, n: Node, st: NodeState, p: Plane, codec: Codec, m: Node)
    returns (l: Link, i: nat)
    requires UniqueIds(g) && Addressed(g) && n in g.nodes && m in g.nodes
    requires IsCompiled(g, dialable, n, st) && Applied(p, st, codec) && HopHasDevice(g, n, m)
    ensures l.id == RouteFor(g, n, m).value.linkId && i < |st.links| && Cidr(m) in st.links[i].allowedIPs
            && st.links[i].iface != ""
    ensures st.links[i].linkId == l.id
    ensures DeviceOf(st, st.links[i].iface, l.id) && Admits(p, st.links[i].iface, Cidr(m))
  {
    l := HopLink(g, n, m);
    var dev := IfaceAt(g, n.id, l);
    HasDeviceIff(g, dialable, n, st, l, dev);
    i := WantedFrom(st.links, dev);
    AllowedIffHop(g, dialable, n, st, st.links[i], m);
    DeviceAdmits(g, dialable, n, st, p, codec, dev, st.links[i], Cidr(m));
  }

  lemma AddressesAreCanonical(g: Graph, dialable: string -> bool, n: Node, st: NodeState)
    requires IsCompiled(g, dialable, n, st)
    ensures AllCanonical(st.links)
  {
    forall k, ip | 0 <= k < |st.links| && ip in st.links[k].allowedIPs ensures RouteDest(ip) == ip {
      assert AllowedAt(g, n, st.links[k], |g.nodes|);
      assert SentOver(g, n, |g.nodes|, ip, st.links[k].linkId);
      var j :| 0 <= j < |g.nodes| && ReachedOver(g, n, j, ip, st.links[k].linkId);
      CompiledAddressIsCanonical(g.nodes[j].overlayIPv4);
    }
  }

  /** The installed route to the address of `m` is over the hop's device. */
  lemma RouteToHop(g: Graph, dialable: string -> bool, n: Node, st: NodeState, routes: KernelRoutes, m: Node, i: nat)
    requires UniqueIds(g) && Addressed(g) && n in g.nodes && m in g.nodes && IsCompiled(g, dialable, n, st)
    requires i < |st.links| && Cidr(m) in st.links[i].allowedIPs && st.links[i].iface != ""
    ensures var r := RoutesAfter(routes, st.links); Cidr(m) in r && r[Cidr(m)] == st.links[i].iface
  {
    AddressesAreCanonical(g, dialable, n, st);
    CompiledMirrors(g, dialable, n, st);
    AllowedIffHop(g, dialable, n, st, st.links[i], m);
    var ls := Incident(g.links, n.id);
    forall k | 0 <= k < |st.links| && k != i ensures Cidr(m) !in st.links[k].allowedIPs {
      AllowedIffHop(g, dialable, n, st, st.links[k], m);
      assert MirrorsAt(g, n.id, st.links[k], ls[k]) && MirrorsAt(g, n.id, st.links[i], ls[i]);
      assert ls[k].id != ls[i].id;
    }
    RouteOver(routes, st.links, i, Cidr(m));
  }

  /** A node sends packets for `m` over exactly the hop's link, and does so exactly if that link has a device. */
  lemma SendsIffHop(g: Graph, dialable: string -> bool, n: Node, st: NodeState, p: Plane, codec: Codec, m: Node,
                    link: LinkId)
    requires UniqueIds(g) && Addressed(g) && n in g.nodes && m in g.nodes
    requires IsCompiled(g, dialable, n, st) && Applied(p, st, codec)
    ensures SendsOver(p, st, Cidr(m), link) <==> HopHasDevice(g, n, m) && RouteFor(g, n, m).value.linkId == link
  {
    if SendsOver(p, st, Cidr(m), link) {
      AdmittedIsHop(g, dialable, n, st, p, codec, m, p.routes[Cidr(m)], link);
    }
    if HopHasDevice(g, n, m) && RouteFor(g, n, m).value.linkId == link {
      var l, i := HopAdmits(g, dialable, n, st, p, codec, m);
      var start :| p.routes == RoutesAfter(start, st.links);
      RouteToHop(g, dialable, n, st, start, m, i);
    }
  }

  /** A node accepts packets from `m` over exactly the hop's link to `m`, if that link has a device. */
  lemma AcceptsIffHop(g: Graph, dialable: string -> bool, n: Node, st: NodeState, p: Plane, codec: Codec, m: Node,
                      link: LinkId)
    requires UniqueIds(g) && Addressed(g) && n in g.nodes && m in g.nodes
    requires IsCompiled(g, dialable, n, st) && Applied(p, st, codec)
    ensures AcceptsOn(p, st, Cidr(m), link) <==> HopHasDevice(g, n, m) && RouteFor(g, n, m).value.linkId == link
  {
    if AcceptsOn(p, st, Cidr(m), link) {
      var dev :| Admits(p, dev, Cidr(m)) && DeviceOf(st, dev, link);
      AdmittedIsHop(g, dialable, n, st, p, codec, m, dev, link);
    }
    if HopHasDevice(g, n, m) && RouteFor(g, n, m).value.linkId == link {
      var l, i := HopAdmits(g, dialable, n, st, p, codec, m);
    }
  }

  // ----- delivery -----

  ghost predicate LinkJoins(g: Graph, link: LinkId, x: NodeId, y: NodeId) {
    exists l :: l in g.links && l.id == link && l.enabled && Joins(l, x, y)
  }

  /** `x` puts a packet from `a` to `c` on a link to `y`, whose device for that link accepts it. */
  ghost predicate Passes(g: Graph, out: map<NodeId, NodeState>, net: Planes, x: NodeId, y: NodeId, a: string,
                         c: string) {
    && x in out && x in net && y in out && y in net
    && exists link :: SendsOver(net[x], out[x], c, link) && LinkJoins(g, link, x,
                                                                      y) && AcceptsOn(net[y], out[y], a, link)
  }

  ghost predicate PassesAt(g: Graph, out: map<NodeId, NodeState>, net: Planes, q: seq<NodeId>, src: Node, dst: Node,
                           i: nat)
    requires i + 1 < |q|
  {
    Passes(g, out, net, q[i], q[i + 1], Cidr(src), Cidr(dst))
  }

  /** The devices along `q` carry packets from `src` to `dst`. */
  ghost predicate Delivers(g: Graph, out: map<NodeId, NodeState>, net: Planes, q: seq<NodeId>, src: Node, dst: Node) {
    forall i :: 0 <= i < |q| - 1 ==> PassesAt(g, out, net, q, src, dst, i)
  }

  /** The link that carries the edge between `a` and `b` is the last of its name at both ends. */
  ghost predicate EdgeHasDevices(g: Graph, a: NodeId, b: NodeId) {
    var l := FirstLink(g.links, a, b);
    l.Some? && LastOfName(g, a, l.value) && LastOfName(g, b, l.value)
  }

  ghost predicate EdgeAt(g: Graph, q: seq<NodeId>, i: nat)
    requires i + 1 < |q|
  {
    EdgeHasDevices(g, q[i], q[i + 1])
  }

  ghost predicate PathHasDevices(g: Graph, q: seq<NodeId>) {
    forall i :: 0 <= i < |q| - 1 ==> EdgeAt(g, q, i)
  }

  /** Both hops use the one link between the two. */
  lemma MutualLink(g: Graph, x: Node, y: Node, src: Node, dst: Node) returns (l: Link)
    requires Mutual(g, x, y, src, dst)
    ensures FirstLink(g.links, x.id, y.id) == Some(l) && FirstLink(g.links, y.id, x.id) == Some(l)
            && LinkJoins(g, l.id, x.id, y.id)
    ensures RouteFor(g, x, dst).value.linkId == l.id && RouteFor(g, y, src).value.linkId == l.id
    ensures HopHasDevice(g, x, dst) <==> LastOfName(g, x.id, l)
    ensures HopHasDevice(g, y, src) <==> LastOfName(g, y.id, l)
  {
    FirstLinkSymmetric(g.links, x.id, y.id);
    FirstLinkIsFirst(g.links, x.id, y.id);
    l := FirstLink(g.links, x.id, y.id).value;
  }

  /** Two neighbours that route through each other pass packets exactly if their edge has both devices. */
  lemma MutualPass(g: Graph, dialable: string -> bool, out: map<NodeId, NodeState>, net: Planes, codec: Codec,
                   x: Node, y: Node, src: Node, dst: Node)
    requires UniqueIds(g) && Addressed(g) && AllApplied(g, dialable, out, net, codec) && Mutual(g, x, y, src, dst)
    ensures Passes(g, out, net, x.id, y.id, Cidr(src), Cidr(dst)) <==> EdgeHasDevices(g, x.id, y.id)
  {
    assert NodeApplied(g, dialable, out, net, codec, x) && NodeApplied(g, dialable, out, net, codec, y);
    var l := MutualLink(g, x, y, src, dst);
    if Passes(g, out, net, x.id, y.id, Cidr(src), Cidr(dst)) {
      var link :| SendsOver(net[x.id], out[x.id], Cidr(dst), link) && AcceptsOn(net[y.id], out[y.id], Cidr(src), link);
      SendsIffHop(g, dialable, x, out[x.id], net[x.id], codec, dst, link);
      AcceptsIffHop(g, dialable, y, out[y.id], net[y.id], codec, src, link);
    }
    if EdgeHasDevices(g, x.id, y.id) {
      SendsIffHop(g, dialable, x, out[x.id], net[x.id], codec, dst, l.id);
      AcceptsIffHop(g, dialable, y, out[y.id], net[y.id], codec, src, l.id);
    }
  }

  lemma EdgePasses(g: Graph, dialable: string -> bool, out: map<NodeId, NodeState>, net: Planes, codec: Codec,
                   q: seq<NodeId>, src: Node, dst: Node, i: nat)
    requires WellFormed(g) && Addressed(g) && AllApplied(g, dialable, out, net, codec) && src in g.nodes
             && dst in g.nodes
    requires LinkedPath(g, q, src.id, dst.id) && DepthWithin(ParentsOf(g.nodes), dst.id, MAX_DEPTH) && i + 1 < |q|
    ensures PassesAt(g, out, net, q, src, dst, i) <==> EdgeAt(g, q, i)
  {
    var x, y := EdgeNodes(g, q, src, dst, i);
    MutualPass(g, dialable, out, net, codec, x, y, src, dst);
  }

  /** Delivery needs a destination that can itself walk up to its root. */
  lemma DeliveredIsShallow(g: Graph, dialable: string -> bool, out: map<NodeId, NodeState>, net: Planes, codec: Codec,
                           q: seq<NodeId>, src: Node, dst: Node)
    requires WellFormed(g) && Addressed(g) && AllApplied(g, dialable, out, net, codec) && src in g.nodes
             && dst in g.nodes
    requires 2 <= |q| && q[|q| - 1] == dst.id && Delivers(g, out, net, q, src, dst)
    ensures DepthWithin(ParentsOf(g.nodes), dst.id, MAX_DEPTH)
  {
    assert PassesAt(g, out, net, q, src, dst, |q| - 2);
    assert NodeApplied(g, dialable, out, net, codec, dst);
    var link :| AcceptsOn(net[dst.id], out[dst.id], Cidr(src), link);
    AcceptsIffHop(g, dialable, dst, out[dst.id], net[dst.id], codec, src, link);
    HopHasPath(g.nodes, g.links, dst.id, src.id);
  }

  /**
   The whole of it. Every node has applied its compiled state, and the controller offers a
   hop from `src` towards `dst`. Then the devices and routes along the one tree path carry
   packets from `src` to `dst` exactly if `dst` is at most 1025 levels deep and, on every
   edge, the chosen link is at both ends the last configured one of its interface name.
   */
  lemma DeliveryOverDevices(g: Graph, dialable: string -> bool, out: map<NodeId, NodeState>, net: Planes,
                            codec: Codec, src: Node, dst: Node)
    returns (q: seq<NodeId>)
    requires WellFormed(g) && Addressed(g) && AllApplied(g, dialable, out, net, codec) && src in g.nodes
             && dst in g.nodes
    requires ControlHop(g.nodes, g.links, src.id, dst.id).Some?
    ensures LinkedPath(g, q, src.id, dst.id) && 2 <= |q|
    ensures Delivers(g, out, net, q, src, dst) <==>
            DepthWithin(ParentsOf(g.nodes), dst.id, MAX_DEPTH) && PathHasDevices(g, q)
  {
    HopHasPath(g.nodes, g.links, src.id, dst.id);
    q := TreePath(ParentsOf(g.nodes), src.id, dst.id).value;
    DeliversIff(g, dialable, out, net, codec, q, src, dst);
  }

  lemma DeliversIff(g: Graph, dialable: string -> bool, out: map<NodeId, NodeState>, net: Planes, codec: Codec,
                    q: seq<NodeId>, src: Node, dst: Node)
    requires WellFormed(g) && Addressed(g) && AllApplied(g, dialable, out, net, codec) && src in g.nodes
             && dst in g.nodes
    requires LinkedPath(g, q, src.id, dst.id) && 2 <= |q|
    ensures Delivers(g, out, net, q, src, dst) <==>
            DepthWithin(ParentsOf(g.nodes), dst.id, MAX_DEPTH) && PathHasDevices(g, q)
  {
    if Delivers(g, out, net, q, src, dst) {
      DeliveredIsShallow(g, dialable, out, net, codec, q, src, dst);
    }
    if DepthWithin(ParentsOf(g.nodes), dst.id, MAX_DEPTH) {
      forall i | 0 <= i < |q| - 1 ensures PassesAt(g, out, net, q, src, dst, i) <==> EdgeAt(g, q, i) {
        EdgePasses(g, dialable, out, net, codec, q, src, dst, i);
      }
    }
  }

  // ----- no other way -----

  /** One step of a packet for `dst`: out of a device of `x`, over its link, to `y`. */
  ghost predicate SendsTo(g: Graph, out: map<NodeId, NodeState>, net: Planes, x: NodeId, y: NodeId, dst: Node) {
    x in out && x in net && exists link :: SendsOver(net[x], out[x], Cidr(dst), link) && LinkJoins(g, link, x, y)
  }

  /** Whatever the devices do with a packet, the compiled tables say. */
  lemma DevicesFollowTables(g: Graph, dialable: string -> bool, out: map<NodeId, NodeState>, net: Planes,
                            codec: Codec, x: Node, y: NodeId, dst: Node)
    requires UniqueIds(g) && Addressed(g) && AllApplied(g, dialable, out, net, codec) && x in g.nodes && dst in g.nodes
    requires SendsTo(g, out, net, x.id, y, dst)
    ensures StepsByTable(g, out, x.id, y, dst)
  {
    assert NodeApplied(g, dialable, out, net, codec, x);
    var link :| SendsOver(net[x.id], out[x.id], Cidr(dst), link) && LinkJoins(g, link, x.id, y);
    SendsIffHop(g, dialable, x, out[x.id], net[x.id], codec, dst, link);
    HopPeer(g, x, dst, y);
    HopForwards(g, dialable, x, out[x.id], dst);
  }

  lemma HopPeer(g: Graph, x: Node, m: Node, y: NodeId)
    requires UniqueIds(g) && RouteFor(g, x, m).Some? && LinkJoins(g, RouteFor(g, x, m).value.linkId, x.id, y)
    ensures y == RouteFor(g, x, m).value.peer
  {
    var l := HopLink(g, x, m);
    var k :| k in g.links && k.id == l.id && k.enabled && Joins(k, x.id, y);
    IncidentIs(g.links, x.id);
    SameLinkId(g, l, k);
  }

  /** `w` is what the devices do with a packet for `dst`. */
  ghost predicate FollowsDevices(g: Graph, out: map<NodeId, NodeState>, net: Planes, w: seq<NodeId>, dst: Node) {
    forall i :: 0 < i < |w| ==> SendsTo(g, out, net, w[i - 1], w[i], dst)
  }

  /** Nor does a packet ever leave the path or loop: after `i` hops it is at the path's node `i`. */
  lemma {:induction false} DeviceRunsAreOnPath(g: Graph, dialable: string -> bool, out: map<NodeId, NodeState>,
                                               net: Planes, codec: Codec,
                                               q: seq<NodeId>, src: Node, dst: Node, w: seq<NodeId>, i: nat)
    requires WellFormed(g) && Addressed(g) && AllApplied(g, dialable, out, net, codec) && src in g.nodes
             && dst in g.nodes
    requires LinkedPath(g, q, src.id, dst.id) && DepthWithin(ParentsOf(g.nodes), dst.id, MAX_DEPTH)
    requires FollowsDevices(g, out, net, w, dst) && i < |w| && w[0] == src.id
    ensures i < |q| && w[i] == q[i]
    decreases i
  {
    if i > 0 {
      DeviceRunsAreOnPath(g, dialable, out, net, codec, q, src, dst, w, i - 1);
      OneMoreHop(g, dialable, out, net, codec, q, src, dst, i - 1, w[i - 1], w[i]);
    }
  }

  lemma OneMoreHop(g: Graph, dialable: string -> bool, out: map<NodeId, NodeState>, net: Planes, codec: Codec,
                   q: seq<NodeId>, src: Node, dst: Node, i: nat, x: NodeId, y: NodeId)
    requires WellFormed(g) && Addressed(g) && AllApplied(g, dialable, out, net, codec) && src in g.nodes
             && dst in g.nodes
    requires LinkedPath(g, q, src.id, dst.id) && DepthWithin(ParentsOf(g.nodes), dst.id, MAX_DEPTH)
    requires i < |q| && x == q[i] && SendsTo(g, out, net, x, y, dst)
    ensures i + 1 < |q| && y == q[i + 1]
  {
    PathNodesExist(g, q, src, i);
    var n :| n in g.nodes && n.id == x;
    DevicesFollowTables(g, dialable, out, net, codec, n, y, dst);
    TablesAreCompiled(g, dialable, out, net, codec);
    PathCarries(g, dialable, out, q, src, dst);
    NextOnPath(g, dialable, out, q, src, dst, i, y);
  }

  /** Along a walk on which the devices deliver, every step is one they take. */
  lemma DeliveringFollows(g: Graph, out: map<NodeId, NodeState>, net: Planes, w: seq<NodeId>, src: Node, dst: Node)
    requires Delivers(g, out, net, w, src, dst)
    ensures FollowsDevices(g, out, net, w, dst)
  {
    forall i | 0 < i < |w| ensures SendsTo(g, out, net, w[i - 1], w[i], dst) {
      assert PassesAt(g, out, net, w, src, dst, i - 1);
    }
  }

  /** If the source sends at all, the controller offers it a hop. */
  lemma SenderHasHop(g: Graph, dialable: string -> bool, out: map<NodeId, NodeState>, net: Planes, codec: Codec,
                     src: Node, dst: Node, y: NodeId)
    requires UniqueIds(g) && Addressed(g) && AllApplied(g, dialable, out, net, codec) && src in g.nodes
             && dst in g.nodes
    requires SendsTo(g, out, net, src.id, y, dst)
    ensures ControlHop(g.nodes, g.links, src.id, dst.id).Some?
  {
    assert NodeApplied(g, dialable, out, net, codec, src);
    var link :| SendsOver(net[src.id], out[src.id], Cidr(dst), link);
    SendsIffHop(g, dialable, src, out[src.id], net[src.id], codec, dst, link);
  }

  /** However a packet gets from `src` to `dst`, it takes the linked tree path: there is no other way. */
  lemma DeliveringWalkIsPath(g: Graph, dialable: string -> bool, out: map<NodeId, NodeState>, net: Planes,
                             codec: Codec, w: seq<NodeId>, src: Node, dst: Node)
    requires WellFormed(g) && Addressed(g) && AllApplied(g, dialable, out, net, codec) && src in g.nodes
             && dst in g.nodes
    requires 2 <= |w| && w[0] == src.id && w[|w| - 1] == dst.id && Delivers(g, out, net, w, src, dst)
    ensures LinkedPath(g, w, src.id, dst.id)
  {
    DeliveredIsShallow(g, dialable, out, net, codec, w, src, dst);
    DeliveringFollows(g, out, net, w, src, dst);
    assert SendsTo(g, out, net, w[0], w[1], dst);
    SenderHasHop(g, dialable, out, net, codec, src, dst, w[1]);
    var q := DeliveryOverDevices(g, dialable, out, net, codec, src, dst);
    forall i | 0 <= i < |w| ensures i < |q| && w[i] == q[i] {
      DeviceRunsAreOnPath(g, dialable, out, net, codec, q, src, dst, w, i);
    }
    assert q[|w| - 1] == q[|q| - 1] == dst.id;
    assert w == q;
  }

  lemma TablesAreCompiled(g: Graph, dialable: string -> bool, out: map<NodeId, NodeState>, net: Planes, codec: Codec)
    requires AllApplied(g, dialable, out, net, codec)
    ensures Compiled(g, dialable, out)
  {
    forall n | n in g.nodes ensures n.id in out && IsCompiled(g, dialable, n, out[n.id]) {
      assert NodeApplied(g, dialable, out, net, codec, n);
    }
  }
}
