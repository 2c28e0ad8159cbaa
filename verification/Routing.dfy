/** internal/routing/compile.go: the per-node desired state. */
module Routing {
  import opened Prelude
  import opened Model
  import opened ControlTree
  import opened Topology
  import Sorting

  datatype Graph = Graph(nodes: seq<Node>, links: seq<Link>, endpoints: seq<Endpoint>)

  /** Primary keys of the node and link tables. */
  ghost predicate UniqueIds(g: Graph) {
    && (forall i, j :: 0 <= i < j < |g.nodes| ==> g.nodes[i].id != g.nodes[j].id)
    && (forall i, j :: 0 <= i < j < |g.links| ==> g.links[i].id != g.links[j].id)
  }

  // ----- addresses -----

  /** unicode.IsSpace. */
  predicate IsSpace(c: char) {
    c == '\t' || c == '\n' || c == '\U{0B}' || c == '\U{0C}' || c == '\r' || c == ' '
    || c == '\U{85}' || c == '\U{A0}' || c == '\U{1680}' || '\U{2000}' <= c <= '\U{200A}'
    || c == '\U{2028}' || c == '\U{2029}' || c == '\U{202F}' || c == '\U{205F}' || c == '\U{3000}'
  }

  function TrimSpace(s: string): string {
    if s == "" then ""
    else if IsSpace(s[0]) then TrimSpace(s[1..])
    else if IsSpace(s[|s| - 1]) then TrimSpace(s[..|s| - 1])
    else s
  }

  function EnsureHostCIDR(ip: string): string {
    var t := TrimSpace(ip);
    if t == "" then "" else if '/' in t then t else t + "/32"
  }

  function Cidr(n: Node): string {
    EnsureHostCIDR(n.overlayIPv4)
  }

  /** Conversion of a Go int to uint32 keeps the low 32 bits. */
  function Uint32(i: int): int {
    i % 0x1_0000_0000
  }

  // ----- one link of one node -----

  /** The first endpoint row of link `linkId` at node `nodeId`. */
  function FirstEndpoint(eps: seq<Endpoint>, linkId: LinkId, nodeId: NodeId): (r: Option<Endpoint>)
    ensures r.Some? ==> r.value in eps && r.value.linkId == linkId && r.value.nodeId == nodeId
  {
    if eps == [] then None
    else if eps[0].linkId == linkId && eps[0].nodeId == nodeId then Some(eps[0])
    else FirstEndpoint(eps[1..], linkId, nodeId)
  }

  const NO_NODE := Node("", "", "", "", None, false, 0, 0)

  function NodeById(nodes: seq<Node>, id: NodeId): Node {
    if nodes == [] then NO_NODE
    else if nodes[|nodes| - 1].id == id then nodes[|nodes| - 1]
    else NodeById(nodes[..|nodes| - 1], id)
  }

  function PeerOf(l: Link, n: NodeId): NodeId {
    if n == l.nodeB then l.nodeA else l.nodeB
  }

  function Initiates(n: Node, l: Link, ep: Option<Endpoint>): bool {
    if ep.Some? then ep.value.isInitiator else n.id == l.initiator
  }

  /** Where this side dials: its endpoint row if usable, else the listener if it initiates. */
  function DialTarget(n: Node, l: Link, ep: Option<Endpoint>, dialable: string -> bool): Option<HostPort> {
    if ep.Some? && ep.value.peerEndpoint.Some?
       && (dialable(ep.value.peerEndpoint.value.host) || ep.value.isInitiator) then ep.value.peerEndpoint
    else if Initiates(n, l, ep) then Some(HostPort(l.listenerAddress, l.listenerPort))
    else None
  }

  /** The configuration of link `l` at node `n`, before AllowedIPs are filled in. */
  function CfgFor(n: Node, l: Link, peer: Node, ep: Option<Endpoint>, dialable: string -> bool): LinkCfg {
    var initiates := Initiates(n, l, ep);
    var target := DialTarget(n, l, ep, dialable);
    var port := if ep.Some? then Uint32(ep.value.listenPort) else 0;
    var keep := if ep.Some? then Uint32(ep.value.keepalive) else 0;
    LinkCfg(
      l.id,
      if ep.Some? && ep.value.iface != "" then ep.value.iface else if n.id == l.nodeB then l.ifaceB else l.ifaceA,
      if port == 0 && !initiates then Uint32(l.listenerPort) else port,
      if ep.Some? && ep.value.peerPublicKey != "" then ep.value.peerPublicKey else peer.publicKey,
      target,
      if keep == 0 && target.Some? then 25 else keep,
      initiates,
      n.privateKey, n.overlayIPv4, peer.overlayIPv4, [])
  }

  predicate Configured(l: Link, n: NodeId) {
    (l.enabled || l.status == Pending) && Touches(l, n)
  }

  /** The links that node `n` gets an interface for, in list order. */
  function Incident(links: seq<Link>, n: NodeId): seq<Link> {
    if links == [] then []
    else
      var rest := Incident(links[..|links| - 1], n);
      if Configured(links[|links| - 1], n) then rest + [links[|links| - 1]] else rest
  }

  // ----- what a node's desired state must be -----

  /** The hop by which `n` reaches the overlay address of `m`, if it has one. */
  ghost function RouteFor(g: Graph, n: Node, m: Node): Option<Hop> {
    if m.id == n.id || m.overlayIPv4 == "" then None else ControlHop(g.nodes, g.links, n.id, m.id)
  }

  /** Among the first `k` nodes, one with address `c` is reached over `link`. */
  ghost predicate SentOver(g: Graph, n: Node, k: nat, c: string, link: LinkId)
    requires k <= |g.nodes|
  {
    c != "" && exists j :: 0 <= j < k && ReachedOver(g, n, j, c, link)
  }

  ghost predicate ReachedOver(g: Graph, n: Node, j: nat, c: string, link: LinkId)
    requires j < |g.nodes|
  {
    var hop := RouteFor(g, n, g.nodes[j]);
    hop.Some? && hop.value.linkId == link && Cidr(g.nodes[j]) == c
  }

  /** `r` is the route of the first node, among those before `k`, with its address. */
  ghost predicate FirstRoute(g: Graph, n: Node, k: nat, r: Route)
    requires k <= |g.nodes|
  {
    exists j :: 0 <= j < k && RoutesTo(g, n, j, r.destination) && r.dev == RouteFor(g, n, g.nodes[j]).value.iface
                && forall i :: 0 <= i < j ==> !RoutesTo(g, n, i, r.destination)
  }

  ghost predicate RoutesTo(g: Graph, n: Node, j: nat, c: string)
    requires j < |g.nodes|
  {
    RouteFor(g, n, g.nodes[j]).Some? && Cidr(g.nodes[j]) == c
  }

  ghost function FreshCfg(g: Graph, dialable: string -> bool, n: Node, l: Link): LinkCfg {
    CfgFor(n, l, NodeById(g.nodes, PeerOf(l, n.id)), FirstEndpoint(g.endpoints, l.id, n.id), dialable)
  }

  ghost predicate BaseLinks(g: Graph, n: Node, dialable: string -> bool, links: seq<LinkCfg>) {
    var ls := Incident(g.links, n.id);
    && |links| == |ls|
    && forall i :: 0 <= i < |links| ==>
         links[i].(allowedIPs := []) == FreshCfg(g, dialable, n, ls[i])
  }

  ghost predicate AllowedOk(g: Graph, n: Node, links: seq<LinkCfg>, k: nat)
    requires k <= |g.nodes|
  {
    forall i :: 0 <= i < |links| ==> AllowedAt(g, n, links[i], k)
  }

  /** A link's AllowedIPs are exactly the addresses sent over it, each once. */
  ghost predicate AllowedAt(g: Graph, n: Node, cfg: LinkCfg, k: nat)
    requires k <= |g.nodes|
  {
    && NoDuplicates(cfg.allowedIPs)
    && forall c :: c in cfg.allowedIPs <==> SentOver(g, n, k, c, cfg.linkId)
  }

  ghost predicate RoutesOk(g: Graph, n: Node, routes: seq<Route>, k: nat)
    requires k <= |g.nodes|
  {
    && (forall r {:trigger FirstRoute(g, n, k, r)} :: r in routes ==> FirstRoute(g, n, k, r))
    && (forall j :: 0 <= j < k && RouteFor(g, n, g.nodes[j]).Some? ==> HasDestination(routes, Cidr(g.nodes[j])))
    && (forall i, j :: 0 <= i < j < |routes| ==> routes[i].destination != routes[j].destination)
  }

  predicate HasDestination(routes: seq<Route>, c: string) {
    exists i :: 0 <= i < |routes| && routes[i].destination == c
  }

  function MainRoutes(tables: seq<RouteTable>): seq<Route> {
    if tables == [] then []
    else if tables[0].tableId == 0 then tables[0].routes
    else MainRoutes(tables[1..])
  }

  /** The tables with another id, in order. */
  function OtherTables(tables: seq<RouteTable>): seq<RouteTable> {
    if tables == [] then []
    else if tables[0].tableId == 0 then OtherTables(tables[1..])
    else [tables[0]] + OtherTables(tables[1..])
  }

  ghost predicate IsCompiled(g: Graph, dialable: string -> bool, n: Node, st: NodeState) {
    && st.nodeId == n.id
    && BaseLinks(g, n, dialable, st.links)
    && AllowedOk(g, n, st.links, |g.nodes|)
    && AllAscending(st.links)
    && RoutesOk(g, n, MainRoutes(st.tables), |g.nodes|)
    && OnlyMain(st.tables)
  }

  ghost predicate AllAscending(links: seq<LinkCfg>) {
    forall i :: 0 <= i < |links| ==> Sorting.Ascending(links[i].allowedIPs)
  }

  /** The compiler starts with no table and only ever appends the main one. */
  predicate OnlyMain(tables: seq<RouteTable>) {
    |tables| <= 1 && forall t :: t in tables ==> t.tableId == 0
  }

  // ----- the compiler -----

  method AppendUniqueCIDR(list: seq<string>, cidr: string) returns (r: seq<string>)
    ensures NoDuplicates(list) ==> NoDuplicates(r)
    ensures forall c :: c in r <==> c in list || (c == cidr && c != "")
    ensures list <= r
  {
    if cidr == "" {
      return list;
    }
    for i := 0 to |list|
      invariant cidr !in list[..i]
    {
      if list[i] == cidr {
        return list;
      }
      TakeNext(list, i);
    }
    TakeAll(list);
    return list + [cidr];
  }

  method AppendOverlayRoute(tables: seq<RouteTable>, dest: string, iface: string) returns (r: seq<RouteTable>)
    ensures MainRoutes(r) == if HasDestination(MainRoutes(tables), dest) then MainRoutes(tables)
                             else MainRoutes(tables) + [Route(dest, iface)]
    ensures OtherTables(r) == OtherTables(tables)
    ensures OnlyMain(tables) ==> OnlyMain(r)
  {
    for i := 0 to |tables|
      invariant forall k :: 0 <= k < i ==> tables[k].tableId != 0
      invariant MainRoutes(tables) == MainRoutes(tables[i..])
    {
      if tables[i].tableId == 0 {
        var routes := tables[i].routes;
        for j := 0 to |routes|
          invariant forall k :: 0 <= k < j ==> routes[k].destination != dest
        {
          if routes[j].destination == dest {
            return tables;
          }
        }
        r := tables[i := RouteTable(0, routes + [Route(dest, iface)])];
        MainRoutesAt(r, i);
        OtherTablesKept(tables, i, r[i]);
        return r;
      }
    }
    r := tables + [RouteTable(0, [Route(dest, iface)])];
    MainRoutesAt(r, |tables|);
    OtherTablesExtended(tables, r[|tables|]);
  }

  /** Changing a main table, or adding one, leaves the other tables alone. */
  lemma {:induction false} OtherTablesKept(tables: seq<RouteTable>, i: nat, t: RouteTable)
    requires i < |tables| && tables[i].tableId == 0 && t.tableId == 0
    ensures OtherTables(tables[i := t]) == OtherTables(tables)
  {
    if i > 0 {
      assert tables[i := t][1..] == tables[1..][i - 1 := t];
      OtherTablesKept(tables[1..], i - 1, t);
    }
  }

  lemma {:induction false} OtherTablesExtended(tables: seq<RouteTable>, t: RouteTable)
    requires t.tableId == 0
    ensures OtherTables(tables + [t]) == OtherTables(tables)
  {
    if tables != [] {
      assert (tables + [t])[1..] == tables[1..] + [t];
      OtherTablesExtended(tables[1..], t);
    }
  }

  lemma {:induction false} MainRoutesAt(tables: seq<RouteTable>, i: nat)
    requires i < |tables| && tables[i].tableId == 0
    requires forall k :: 0 <= k < i ==> tables[k].tableId != 0
    ensures MainRoutes(tables) == tables[i].routes
  {
    if i > 0 {
      MainRoutesAt(tables[1..], i - 1);
    }
  }

  lemma {:induction false} NodeByIdIsRow(nodes: seq<Node>, id: NodeId, k: nat)
    requires k < |nodes| && nodes[k].id == id
    requires forall i, j :: 0 <= i < j < |nodes| ==> nodes[i].id != nodes[j].id
    ensures NodeById(nodes, id) == nodes[k]
  {
    if k < |nodes| - 1 {
      NodeByIdIsRow(nodes[..|nodes| - 1], id, k);
    }
  }

  lemma {:induction false} IncidentIs(links: seq<Link>, n: NodeId)
    ensures forall l :: l in Incident(links, n) <==> l in links && Configured(l, n)
  {
    if links != [] {
      IncidentIs(links[..|links| - 1], n);
      assert links == links[..|links| - 1] + [links[|links| - 1]];
    }
  }

  lemma {:induction false} IncidentGrows(links: seq<Link>, more: seq<Link>, n: NodeId)
    ensures Incident(links + more, n) == Incident(links, n) + Incident(more, n)
    decreases |more|
  {
    if more == [] {
      assert links + more == links;
    } else {
      var k := |more| - 1;
      assert (links + more)[..|links| + k] == links + more[..k];
      IncidentGrows(links, more[..k], n);
    }
  }

  /** The hop chosen by the control tree always leaves over a configured link of `n`. */
  lemma HopIsIncident(g: Graph, n: Node, m: Node)
    requires RouteFor(g, n, m).Some?
    ensures exists l :: l in Incident(g.links, n.id) && l.id == RouteFor(g, n, m).value.linkId
  {
    var q := TreePath(ParentsOf(g.nodes), n.id, m.id).value;
    FirstLinkIsFirst(g.links, n.id, q[1]);
    IncidentIs(g.links, n.id);
    assert FirstLink(g.links, n.id, q[1]).value in Incident(g.links, n.id);
  }

  /** The interface of `l` at `n`, with everything except AllowedIPs. */
  method LinkConfig(g: Graph, dialable: string -> bool, n: Node, l: Link, peer: Node) returns (cfg: LinkCfg)
    requires Touches(l, n.id)
    ensures cfg == CfgFor(n, l, peer, FirstEndpoint(g.endpoints, l.id, n.id), dialable)
  {
    var iface := l.ifaceA;
    if n.id == l.nodeB {
      iface := l.ifaceB;
    }
    cfg := LinkCfg(l.id, iface, 0, peer.publicKey, None, 0, n.id == l.initiator,
                   n.privateKey, n.overlayIPv4, peer.overlayIPv4, []);
    for i := 0 to |g.endpoints|
      invariant FirstEndpoint(g.endpoints, l.id, n.id) == FirstEndpoint(g.endpoints[i..], l.id, n.id)
      invariant cfg == LinkCfg(l.id, iface, 0, peer.publicKey, None, 0, n.id == l.initiator,
                               n.privateKey, n.overlayIPv4, peer.overlayIPv4, [])
    {
      var ep := g.endpoints[i];
      if ep.linkId != l.id || ep.nodeId != n.id {
        continue;
      }
      if ep.iface != "" {
        cfg := cfg.(iface := ep.iface);
      }
      if ep.peerPublicKey != "" {
        cfg := cfg.(peerPublicKey := ep.peerPublicKey);
      }
      cfg := cfg.(isInitiator := ep.isInitiator, listenPort := Uint32(ep.listenPort),
                  keepalive := Uint32(ep.keepalive));
      if ep.peerEndpoint.Some? {
        var host := ep.peerEndpoint.value.host;
        if dialable(host) || ep.isInitiator {
          cfg := cfg.(peerEndpoint := ep.peerEndpoint);
        }
      }
      break;
    }
    if cfg.peerEndpoint.None? && cfg.isInitiator {
      cfg := cfg.(peerEndpoint := Some(HostPort(l.listenerAddress, l.listenerPort)));
      if cfg.keepalive == 0 {
        cfg := cfg.(keepalive := 25);
      }
    }
    if cfg.listenPort == 0 && !cfg.isInitiator {
      cfg := cfg.(listenPort := Uint32(l.listenerPort));
    }
    if cfg.keepalive == 0 && cfg.peerEndpoint.Some? {
      cfg := cfg.(keepalive := 25);
    }
  }

  // ----- one more destination -----

  /** Every cfg of `links` is found under its own link id. */
  ghost predicate Indexed(links: seq<LinkCfg>, linkIdx: map<LinkId, nat>) {
    && (forall x :: x in linkIdx ==> linkIdx[x] < |links| && links[linkIdx[x]].linkId == x)
    && (forall i :: 0 <= i < |links| ==> links[i].linkId in linkIdx && linkIdx[links[i].linkId] == i)
  }

  lemma SentOverNext(g: Graph, n: Node, k: nat, c: string, link: LinkId)
    requires k < |g.nodes|
    ensures SentOver(g, n, k + 1, c, link) <==> SentOver(g, n, k, c, link) || (c != "" && ReachedOver(g, n, k, c, link))
  {
  }

  lemma AllowedSkip(g: Graph, n: Node, links: seq<LinkCfg>, k: nat)
    requires k < |g.nodes| && AllowedOk(g, n, links, k)
    requires forall i :: 0 <= i < |links| ==> !ReachedOver(g, n, k, Cidr(g.nodes[k]), links[i].linkId)
    ensures AllowedOk(g, n, links, k + 1)
  {
    forall i | 0 <= i < |links| ensures AllowedAt(g, n, links[i], k + 1) {
      assert AllowedAt(g, n, links[i], k);
      forall c ensures c in links[i].allowedIPs <==> SentOver(g, n, k + 1, c, links[i].linkId) {
        SentOverNext(g, n, k, c, links[i].linkId);
      }
    }
  }

  lemma SetAllowed(g: Graph, dialable: string -> bool, n: Node, links: seq<LinkCfg>, linkIdx: map<LinkId, nat>,
                   at: nat, list: seq<string>)
    requires BaseLinks(g, n, dialable, links) && Indexed(links, linkIdx) && at < |links|
    ensures var links' := links[at := links[at].(allowedIPs := list)];
            BaseLinks(g, n, dialable, links') && Indexed(links', linkIdx)
  {
    var links' := links[at := links[at].(allowedIPs := list)];
    forall i | 0 <= i < |links| ensures links'[i].(allowedIPs := []) == links[i].(allowedIPs := [])
           && links'[i].linkId == links[i].linkId {
    }
  }

  lemma AllowedStep(g: Graph, n: Node, links: seq<LinkCfg>, linkIdx: map<LinkId, nat>, k: nat, hop: Hop,
                    list: seq<string>)
    requires k < |g.nodes| && AllowedOk(g, n, links, k) && Indexed(links, linkIdx)
    requires RouteFor(g, n, g.nodes[k]) == Some(hop) && hop.linkId in linkIdx
    requires NoDuplicates(list)
    requires forall c :: c in list <==>
               c in links[linkIdx[hop.linkId]].allowedIPs || (c == Cidr(g.nodes[k]) && c != "")
    ensures var i := linkIdx[hop.linkId];
            AllowedOk(g, n, links[i := links[i].(allowedIPs := list)], k + 1)
  {
    var at := linkIdx[hop.linkId];
    var links' := links[at := links[at].(allowedIPs := list)];
    forall i | 0 <= i < |links'| ensures AllowedAt(g, n, links'[i], k + 1) {
      assert AllowedAt(g, n, links[i], k);
      forall c ensures c in links'[i].allowedIPs <==> SentOver(g, n, k + 1, c, links'[i].linkId) {
        SentOverNext(g, n, k, c, links[i].linkId);
      }
    }
  }

  lemma FirstRouteGrows(g: Graph, n: Node, k: nat, r: Route)
    requires k < |g.nodes| && FirstRoute(g, n, k, r)
    ensures FirstRoute(g, n, k + 1, r)
  {
  }

  lemma RoutesSkip(g: Graph, n: Node, routes: seq<Route>, k: nat)
    requires k < |g.nodes| && RoutesOk(g, n, routes, k)
    requires RouteFor(g, n, g.nodes[k]).Some? ==> HasDestination(routes, Cidr(g.nodes[k]))
    ensures RoutesOk(g, n, routes, k + 1)
  {
    forall r | r in routes ensures FirstRoute(g, n, k + 1, r) { FirstRouteGrows(g, n, k, r); }
  }

  lemma RoutesStep(g: Graph, n: Node, routes: seq<Route>, k: nat, hop: Hop)
    requires k < |g.nodes| && RoutesOk(g, n, routes, k)
    requires RouteFor(g, n, g.nodes[k]) == Some(hop) && !HasDestination(routes, Cidr(g.nodes[k]))
    ensures RoutesOk(g, n, routes + [Route(Cidr(g.nodes[k]), hop.iface)], k + 1)
  {
    var c := Cidr(g.nodes[k]);
    var routes' := routes + [Route(c, hop.iface)];
    forall i | 0 <= i < k ensures !RoutesTo(g, n, i, c) {
      assert RouteFor(g, n, g.nodes[i]).Some? ==> HasDestination(routes, Cidr(g.nodes[i]));
    }
    assert RoutesTo(g, n, k, c);
    forall r | r in routes' ensures FirstRoute(g, n, k + 1, r) {
      if r in routes { FirstRouteGrows(g, n, k, r); }
    }
    forall j | 0 <= j < k + 1 && RouteFor(g, n, g.nodes[j]).Some? ensures HasDestination(routes', Cidr(g.nodes[j])) {
      if j < k {
        var i :| 0 <= i < |routes| && routes[i].destination == Cidr(g.nodes[j]);
        assert routes'[i].destination == Cidr(g.nodes[j]);
      } else {
        assert routes'[|routes|].destination == c;
      }
    }
  }

  // ----- the two passes over the links and over the nodes -----

  /** The first pass: an interface per configured link, AllowedIPs still empty. */
  method ConfigureLinks(g: Graph, dialable: string -> bool, n: Node, nodeById: map<NodeId, Node>)
    returns (links: seq<LinkCfg>, linkIdx: map<LinkId, nat>)
    requires UniqueIds(g)
    requires forall x :: (if x in nodeById then nodeById[x] else NO_NODE) == NodeById(g.nodes, x)
    ensures BaseLinks(g, n, dialable, links) && Indexed(links, linkIdx)
    ensures forall i :: 0 <= i < |links| ==> links[i].allowedIPs == []
  {
    links := [];
    linkIdx := map[];
    for i := 0 to |g.links|
      invariant ConfiguredUpTo(g, dialable, n, links, linkIdx, i)
    {
      var l := g.links[i];
      if !l.enabled && l.status != Pending {
        ConfiguredNext(g, dialable, n, links, linkIdx, i);
        continue;
      }
      if l.nodeA != n.id && l.nodeB != n.id {
        ConfiguredNext(g, dialable, n, links, linkIdx, i);
        continue;
      }
      var peerId := l.nodeB;
      if n.id == l.nodeB {
        peerId := l.nodeA;
      }
      var peer := if peerId in nodeById then nodeById[peerId] else NO_NODE;
      var cfg := LinkConfig(g, dialable, n, l, peer);
      ConfiguredNext(g, dialable, n, links, linkIdx, i);
      linkIdx := linkIdx[l.id := |links|];
      links := links + [cfg];
    }
    TakeAll(g.links);
  }

  ghost predicate ConfiguredUpTo(g: Graph, dialable: string -> bool, n: Node, links: seq<LinkCfg>,
                                 linkIdx: map<LinkId, nat>, i: nat)
    requires i <= |g.links|
  {
    var ls := Incident(g.links[..i], n.id);
    && AllFresh(g, dialable, n, links, ls)
    && Indexed(links, linkIdx)
    && forall x :: x in linkIdx ==> KnownId(g.links, i, x)
  }

  ghost predicate AllFresh(g: Graph, dialable: string -> bool, n: Node, links: seq<LinkCfg>, ls: seq<Link>) {
    |links| == |ls| && forall k :: 0 <= k < |links| ==> links[k] == FreshCfg(g, dialable, n, ls[k])
  }

  lemma AllFreshAppend(g: Graph, dialable: string -> bool, n: Node, links: seq<LinkCfg>, ls: seq<Link>, l: Link)
    requires AllFresh(g, dialable, n, links, ls)
    ensures AllFresh(g, dialable, n, links + [FreshCfg(g, dialable, n, l)], ls + [l])
  {
  }

  ghost predicate KnownId(links: seq<Link>, i: nat, x: LinkId)
    requires i <= |links|
  {
    exists k :: 0 <= k < i && links[k].id == x
  }

  lemma IncidentNext(links: seq<Link>, n: NodeId, i: nat)
    requires i < |links|
    ensures Incident(links[..i + 1], n) ==
            if Configured(links[i], n) then Incident(links[..i], n) + [links[i]] else Incident(links[..i], n)
  {
    assert links[..i + 1][..i] == links[..i];
  }

  lemma IndexedAppend(links: seq<LinkCfg>, linkIdx: map<LinkId, nat>, cfg: LinkCfg)
    requires Indexed(links, linkIdx) && cfg.linkId !in linkIdx
    ensures Indexed(links + [cfg], linkIdx[cfg.linkId := |links|])
  {
  }

  lemma KnownNext(links: seq<Link>, i: nat, x: LinkId)
    requires i < |links|
    ensures KnownId(links, i + 1, x) <==> KnownId(links, i, x) || x == links[i].id
  {
  }

  lemma ConfiguredNext(g: Graph, dialable: string -> bool, n: Node, links: seq<LinkCfg>, linkIdx: map<LinkId, nat>,
                       i: nat)
    requires UniqueIds(g) && i < |g.links| && ConfiguredUpTo(g, dialable, n, links, linkIdx, i)
    ensures var l := g.links[i];
            if Configured(l, n.id)
            then ConfiguredUpTo(g, dialable, n, links + [FreshCfg(g, dialable, n, l)], linkIdx[l.id := |links|], i + 1)
            else ConfiguredUpTo(g, dialable, n, links, linkIdx, i + 1)
  {
    var l := g.links[i];
    IncidentNext(g.links, n.id, i);
    forall x ensures KnownId(g.links, i + 1, x) <==> KnownId(g.links, i, x) || x == l.id { KnownNext(g.links, i, x); }
    assert !KnownId(g.links, i, l.id);
    IndexedAppend(links, linkIdx, FreshCfg(g, dialable, n, l));
    AllFreshAppend(g, dialable, n, links, Incident(g.links[..i], n.id), l);
  }

  lemma NothingSentYet(g: Graph, n: Node, links: seq<LinkCfg>)
    requires forall i :: 0 <= i < |links| ==> links[i].allowedIPs == []
    ensures AllowedOk(g, n, links, 0)
  {
  }

  lemma HopIndexed(g: Graph, dialable: string -> bool, n: Node, m: Node, links: seq<LinkCfg>, linkIdx: map<LinkId, nat>)
    requires BaseLinks(g, n, dialable, links) && Indexed(links, linkIdx) && RouteFor(g, n, m).Some?
    ensures RouteFor(g, n, m).value.linkId in linkIdx
  {
    HopIsIncident(g, n, m);
    var ls := Incident(g.links, n.id);
    var l :| l in ls && l.id == RouteFor(g, n, m).value.linkId;
    var i :| 0 <= i < |ls| && ls[i] == l;
    assert links[i].(allowedIPs := []).linkId == l.id;
  }

  /** The tables of one node after the first `k` nodes of the list. */
  ghost predicate Filled(g: Graph, dialable: string -> bool, n: Node, links: seq<LinkCfg>, linkIdx: map<LinkId, nat>,
                         routes: seq<Route>, k: nat)
    requires k <= |g.nodes|
  {
    && BaseLinks(g, n, dialable, links) && Indexed(links, linkIdx)
    && AllowedOk(g, n, links, k) && RoutesOk(g, n, routes, k)
  }

  lemma SkipNode(g: Graph, dialable: string -> bool, n: Node, links: seq<LinkCfg>, linkIdx: map<LinkId, nat>,
                 routes: seq<Route>, k: nat)
    requires k < |g.nodes| && Filled(g, dialable, n, links, linkIdx, routes, k) && RouteFor(g, n, g.nodes[k]).None?
    ensures Filled(g, dialable, n, links, linkIdx, routes, k + 1)
  {
    AllowedSkip(g, n, links, k);
    RoutesSkip(g, n, routes, k);
  }

  lemma AddNode(g: Graph, dialable: string -> bool, n: Node, links: seq<LinkCfg>, linkIdx: map<LinkId, nat>,
                routes: seq<Route>, k: nat, hop: Hop, list: seq<string>)
    requires k < |g.nodes| && Filled(g, dialable, n, links, linkIdx, routes, k)
    requires RouteFor(g, n, g.nodes[k]) == Some(hop) && hop.linkId in linkIdx
    requires NoDuplicates(links[linkIdx[hop.linkId]].allowedIPs) ==> NoDuplicates(list)
    requires forall c :: c in list <==> c in links[linkIdx[hop.linkId]].allowedIPs || (c == Cidr(g.nodes[k]) && c != "")
    ensures var i, c := linkIdx[hop.linkId], Cidr(g.nodes[k]);
            Filled(g, dialable, n, links[i := links[i].(allowedIPs := list)], linkIdx,
                   if HasDestination(routes, c) then routes else routes + [Route(c, hop.iface)], k + 1)
  {
    var i := linkIdx[hop.linkId];
    assert AllowedAt(g, n, links[i], k);
    AllowedStep(g, n, links, linkIdx, k, hop, list);
    SetAllowed(g, dialable, n, links, linkIdx, i, list);
    if HasDestination(routes, Cidr(g.nodes[k])) {
      RoutesSkip(g, n, routes, k);
    } else {
      RoutesStep(g, n, routes, k, hop);
    }
  }

  method CompileNode(g: Graph, dialable: string -> bool, n: Node, nodeById: map<NodeId, Node>) returns (st: NodeState)
    requires UniqueIds(g)
    requires forall x :: (if x in nodeById then nodeById[x] else NO_NODE) == NodeById(g.nodes, x)
    ensures IsCompiled(g, dialable, n, st)
  {
    var links, linkIdx := ConfigureLinks(g, dialable, n, nodeById);
    NothingSentYet(g, n, links);
    var tables: seq<RouteTable>;
    links, tables := AddRoutes(g, dialable, n, links, linkIdx);
    links := SortAllowed(g, dialable, n, links, linkIdx, MainRoutes(tables));
    return NodeState(n.id, links, tables);
  }

  /** The last loop of Compile: every AllowedIPs list is sorted. */
  method SortAllowed(g: Graph, dialable: string -> bool, n: Node, given: seq<LinkCfg>, linkIdx: map<LinkId, nat>,
                     ghost routes: seq<Route>)
    returns (links: seq<LinkCfg>)
    requires Filled(g, dialable, n, given, linkIdx, routes, |g.nodes|)
    ensures Filled(g, dialable, n, links, linkIdx, routes, |g.nodes|) && AllAscending(links)
  {
    links := given;
    for i := 0 to |given|
      invariant |links| == |given| && Filled(g, dialable, n, links, linkIdx, routes, |g.nodes|)
      invariant forall k :: 0 <= k < i ==> Sorting.Ascending(links[k].allowedIPs)
    {
      SortOne(g, dialable, n, links, linkIdx, routes, i);
      links := links[i := links[i].(allowedIPs := Sorting.Sort(links[i].allowedIPs))];
    }
  }

  lemma SortOne(g: Graph, dialable: string -> bool, n: Node, links: seq<LinkCfg>, linkIdx: map<LinkId, nat>,
                routes: seq<Route>, i: nat)
    requires i < |links| && Filled(g, dialable, n, links, linkIdx, routes, |g.nodes|)
    ensures var list := Sorting.Sort(links[i].allowedIPs);
            && Filled(g, dialable, n, links[i := links[i].(allowedIPs := list)], linkIdx, routes, |g.nodes|)
            && Sorting.Ascending(list)
  {
    var list := Sorting.Sort(links[i].allowedIPs);
    assert AllowedAt(g, n, links[i], |g.nodes|);
    Sorting.SortAscends(links[i].allowedIPs);
    Sorting.AscendingIsDistinct(list);
    SetAllowed(g, dialable, n, links, linkIdx, i, list);
    var links' := links[i := links[i].(allowedIPs := list)];
    forall k | 0 <= k < |links'| ensures AllowedAt(g, n, links'[k], |g.nodes|) {
      assert AllowedAt(g, n, links[k], |g.nodes|);
    }
  }

  /** A node has one compiled state: same interfaces, in the same order, with the same AllowedIPs lists. */
  lemma CompiledOnce(g: Graph, dialable: string -> bool, n: Node, st: NodeState, st': NodeState)
    requires IsCompiled(g, dialable, n, st) && IsCompiled(g, dialable, n, st')
    ensures st.links == st'.links
  {
    forall i | 0 <= i < |st.links| ensures st.links[i] == st'.links[i] {
      var a, b := st.links[i], st'.links[i];
      assert a.(allowedIPs := []) == b.(allowedIPs := []) && a.linkId == a.(allowedIPs := []).linkId == b.linkId;
      assert AllowedAt(g, n, a, |g.nodes|) && AllowedAt(g, n, b, |g.nodes|);
      Sorting.AscendingIsUnique(a.allowedIPs, b.allowedIPs);
      assert a == a.(allowedIPs := []).(allowedIPs := a.allowedIPs);
    }
  }

  /** The second loop of Compile: every other node's address, over the control hop towards it. */
  method AddRoutes(g: Graph, dialable: string -> bool, n: Node, start: seq<LinkCfg>, linkIdx: map<LinkId, nat>)
    returns (links: seq<LinkCfg>, tables: seq<RouteTable>)
    requires Filled(g, dialable, n, start, linkIdx, [], 0)
    ensures Filled(g, dialable, n, links, linkIdx, MainRoutes(tables), |g.nodes|) && OnlyMain(tables)
  {
    links, tables := start, [];
    for k := 0 to |g.nodes|
      invariant Filled(g, dialable, n, links, linkIdx, MainRoutes(tables), k) && OnlyMain(tables)
    {
      links, tables := AddRouteTo(g, dialable, n, links, tables, linkIdx, k);
    }
  }

  method AddRouteTo(g: Graph, dialable: string -> bool, n: Node, given: seq<LinkCfg>, tables: seq<RouteTable>,
                    linkIdx: map<LinkId, nat>, k: nat)
    returns (links: seq<LinkCfg>, tables': seq<RouteTable>)
    requires k < |g.nodes| && Filled(g, dialable, n, given, linkIdx, MainRoutes(tables), k) && OnlyMain(tables)
    ensures Filled(g, dialable, n, links, linkIdx, MainRoutes(tables'), k + 1) && OnlyMain(tables')
  {
    links, tables' := given, tables;
    var m := g.nodes[k];
    if m.id == n.id || m.overlayIPv4 == "" {
      SkipNode(g, dialable, n, links, linkIdx, MainRoutes(tables), k);
      return;
    }
    var hop, ok := ControlNextHop(g.nodes, g.links, n.id, m.id);
    if !ok || hop.linkId !in linkIdx {
      // the second case never arises: the hop leaves over a configured link
      if ok { HopIndexed(g, dialable, n, m, links, linkIdx); }
      SkipNode(g, dialable, n, links, linkIdx, MainRoutes(tables), k);
      return;
    }
    var idx := linkIdx[hop.linkId];
    var cidr := EnsureHostCIDR(m.overlayIPv4);
    var list := AppendUniqueCIDR(links[idx].allowedIPs, cidr);
    AddNode(g, dialable, n, links, linkIdx, MainRoutes(tables), k, hop, list);
    links := links[idx := links[idx].(allowedIPs := list)];
    tables' := AppendOverlayRoute(tables, cidr, hop.iface);
  }

  method IndexNodes(nodes: seq<Node>) returns (nodeById: map<NodeId, Node>)
    ensures forall x :: (if x in nodeById then nodeById[x] else NO_NODE) == NodeById(nodes, x)
  {
    nodeById := map[];
    for i := 0 to |nodes|
      invariant forall x :: (if x in nodeById then nodeById[x] else NO_NODE) == NodeById(nodes[..i], x)
    {
      assert nodes[..i + 1][..i] == nodes[..i];
      nodeById := nodeById[nodes[i].id := nodes[i]];
    }
    TakeAll(nodes);
  }

  method Compile(g: Graph, dialable: string -> bool) returns (out: map<NodeId, NodeState>)
    requires UniqueIds(g)
    ensures forall x :: x in out <==> exists n :: n in g.nodes && n.id == x
    ensures forall n :: n in g.nodes ==> n.id in out && IsCompiled(g, dialable, n, out[n.id])
  {
    var nodeById := IndexNodes(g.nodes);
    out := map[];
    for i := 0 to |g.nodes|
      invariant CompiledUpTo(g, dialable, out, i)
    {
      var st := CompileNode(g, dialable, g.nodes[i], nodeById);
      CompiledNext(g, dialable, out, i, st);
      out := out[g.nodes[i].id := st];
    }
    AllCompiled(g, dialable, out);
  }

  ghost predicate CompiledUpTo(g: Graph, dialable: string -> bool, out: map<NodeId, NodeState>, i: nat)
    requires i <= |g.nodes|
  {
    && (forall x :: x in out ==> exists n :: n in g.nodes && n.id == x)
    && forall k :: 0 <= k < i ==> HasState(g, dialable, out, g.nodes[k])
  }

  ghost predicate HasState(g: Graph, dialable: string -> bool, out: map<NodeId, NodeState>, n: Node) {
    n.id in out && IsCompiled(g, dialable, n, out[n.id])
  }

  lemma StateKept(g: Graph, dialable: string -> bool, out: map<NodeId, NodeState>, n: Node, id: NodeId, st: NodeState)
    requires HasState(g, dialable, out, n) && n.id != id
    ensures HasState(g, dialable, out[id := st], n)
  {
    assert out[id := st][n.id] == out[n.id];
  }

  lemma CompiledNext(g: Graph, dialable: string -> bool, out: map<NodeId, NodeState>, i: nat, st: NodeState)
    requires UniqueIds(g) && i < |g.nodes| && CompiledUpTo(g, dialable, out, i)
             && IsCompiled(g, dialable, g.nodes[i], st)
    ensures CompiledUpTo(g, dialable, out[g.nodes[i].id := st], i + 1)
  {
    var id := g.nodes[i].id;
    assert g.nodes[i] in g.nodes;
    forall k | 0 <= k < i ensures HasState(g, dialable, out[id := st], g.nodes[k]) {
      StateKept(g, dialable, out, g.nodes[k], id, st);
    }
    assert HasState(g, dialable, out[id := st], g.nodes[i]);
  }

  lemma AllCompiled(g: Graph, dialable: string -> bool, out: map<NodeId, NodeState>)
    requires CompiledUpTo(g, dialable, out, |g.nodes|)
    ensures forall n :: n in g.nodes ==> n.id in out && IsCompiled(g, dialable, n, out[n.id])
  {
    forall n | n in g.nodes ensures n.id in out && IsCompiled(g, dialable, n, out[n.id]) {
      var k :| 0 <= k < |g.nodes| && g.nodes[k] == n;
      assert HasState(g, dialable, out, g.nodes[k]);
    }
  }
}
