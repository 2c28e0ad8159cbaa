/**
 Who dials whom: the repaired rows of a link, through the compiler and the device
 configuration (docs/WIREGUARD.md).
 */
module Handshake {
  import opened Prelude
  import opened Model
  import opened Tables
  import opened Repair
  import opened Store
  import opened StoreShape
  import opened StoreSafety
  import opened Netd
  import Routing
  import DataPlane
  import Enrolment

  /** The text sets the device listening on `port`. */
  predicate ListensOn(t: Uapi, port: int) {
    ListenPort(port) in t && forall line :: line in t && line.ListenPort? ==> line.port == port
  }

  predicate Silent(t: Uapi) {
    forall line :: line in t ==> !line.ListenPort?
  }

  /** The text makes the device dial `target`, and keep the path open every 25 seconds. */
  predicate Dials(t: Uapi, c: Codec, target: HostPort) {
    PeerEndpoint(if c.resolve(target).Some? then c.resolve(target).value else target) in t && Keepalive(25) in t
  }

  /** The text names no peer endpoint: the device waits to be dialled. */
  predicate Waits(t: Uapi) {
    forall line :: line in t ==> !line.PeerEndpoint? && !line.Keepalive?
  }

  lemma {:induction false} OnlyAllowed(ips: seq<string>, seen: set<string>)
    ensures forall line :: line in AllowedLines(ips, seen) ==> line.AllowedIp?
    decreases |ips|
  {
    if ips != [] {
      var ip := Routing.TrimSpace(ips[0]);
      OnlyAllowed(ips[1..], seen);
      OnlyAllowed(ips[1..], seen + {WithPrefix(ip)});
    }
  }

  lemma TextOf(l: LinkCfg, c: Codec)
    requires UapiOf(l, c).Built?
    ensures var t := UapiOf(l, c).text;
            && (if l.listenPort > 0 then ListensOn(t, l.listenPort) else Silent(t))
            && (l.peerEndpoint.None? ==> Waits(t))
            && (l.peerEndpoint.Some? && l.keepalive == 25 ==> Dials(t, c, l.peerEndpoint.value))
  {
    OnlyAllowed(l.allowedIPs, {});
    var t := UapiOf(l, c).text;
    if l.listenPort > 0 { assert t[1] == ListenPort(l.listenPort); }
    if l.peerEndpoint.Some? {
      assert t[|t| - 2] == EndpointLines(l, c)[0] && t[|t| - 1] == EndpointLines(l, c)[1];
    }
  }

  /** The compiled interface of link `l` at node `n`. */
  ghost predicate InterfaceOf(s: Db, dialable: string -> bool, n: Node, l: Link, cfg: LinkCfg) {
    && n in s.nodes && l in s.links && Touches(l, n.id)
    && cfg.(allowedIPs := []) == Routing.FreshCfg(Routing.Graph(s.nodes, s.links, s.endpoints), dialable, n, l)
  }

  /** Every interface of a compiled node is the interface of one of its links. */
  lemma CompiledInterface(s: Db, dialable: string -> bool, n: Node, st: NodeState, cfg: LinkCfg) returns (l: Link)
    requires n in s.nodes && cfg in st.links
    requires Routing.IsCompiled(Routing.Graph(s.nodes, s.links, s.endpoints), dialable, n, st)
    ensures InterfaceOf(s, dialable, n, l, cfg) && cfg.linkId == l.id
  {
    var ls := Routing.Incident(s.links, n.id);
    var i :| 0 <= i < |st.links| && st.links[i] == cfg;
    Routing.IncidentIs(s.links, n.id);
    l := ls[i];
    assert l in ls;
    assert cfg.(allowedIPs := []).linkId == cfg.linkId;
  }

  /** At the node of its role, an endpoint row is the one the compiler finds. */
  lemma {:induction false} RowFound(s: Db, l: Link, e: Endpoint, eps: seq<Endpoint>)
    requires DbOk(s) && l in s.links && e in s.endpoints && e.linkId == l.id
    requires e in eps && forall x :: x in eps ==> x in s.endpoints
    ensures Routing.FirstEndpoint(eps, l.id, e.nodeId) == Some(e)
    decreases |eps|
  {
    if eps[0].linkId == l.id && eps[0].nodeId == e.nodeId {
      RoleNode(s, l, e);
      RoleNode(s, l, eps[0]);
      LinkEndsDiffer(s, l);
      RoleIsUnique(s, e);
      RoleIsUnique(s, eps[0]);
    } else {
      RowFound(s, l, e, eps[1..]);
    }
  }

  lemma LinkEndsDiffer(s: Db, l: Link)
    requires DbOk(s) && l in s.links
    ensures l.initiator != l.listener
  {
    assert LinkShape(s.nodes, l);
  }

  predicate PortNumber(p: int) {
    0 < p < 0x1_0000_0000
  }

  /** The rows of a link in repaired shape, with port numbers that fit the wire. */
  ghost predicate InShape(s: Db, l: Link, ei: Endpoint, el: Endpoint, addresses: map<NodeId, seq<Address>>,
                          dialable: string -> bool) {
    && DbOk(s) && l in s.links && NormalAt(s, l, addresses, dialable)
    && ei in s.endpoints && el in s.endpoints && ei.linkId == l.id && el.linkId == l.id && ei.isInitiator
       && !el.isInitiator
    && PortNumber(l.listenerPort) && ei.listenPort < 0x1_0000_0000
  }

  /** What the compiler makes of the initiator's repaired row. */
  predicate DialsListener(l: Link, port: int, cfg: LinkCfg) {
    cfg.isInitiator && cfg.peerEndpoint == Some(HostPort(l.listenerAddress, l.listenerPort)) && cfg.keepalive == 25
        && cfg.listenPort == port
  }

  /** What it makes of the listener's: it dials back only if both sides are to dial. */
  predicate ListensForInitiator(l: Link, back: Option<HostPort>, cfg: LinkCfg) {
    && !cfg.isInitiator && cfg.listenPort == l.listenerPort && cfg.peerEndpoint == back
    && cfg.keepalive == if back.Some? then 25 else 0
  }

  lemma InitiatorRow(n: Node, l: Link, peer: Node, ei: Endpoint, adv: string, dialable: string -> bool)
    requires ei == RepairInit(l, ei, adv, dialable, ei.listenPort) && ei.isInitiator
             && 0 <= ei.listenPort < 0x1_0000_0000
    ensures DialsListener(l, ei.listenPort, Routing.CfgFor(n, l, peer, Some(ei), dialable))
  {
  }

  lemma ListenerRow(n: Node, l: Link, peer: Node, el: Endpoint, adv: string, dialable: string -> bool, port: int)
    requires el == RepairListen(l, el, adv, dialable, port) && !el.isInitiator && PortNumber(l.listenerPort)
    requires adv != "" ==> dialable(adv)
    ensures ListensForInitiator(l, if Sustainable(l, adv, dialable) then Some(HostPort(adv, port)) else None,
                                Routing.CfgFor(n, l, peer, Some(el), dialable))
  {
  }

  ghost function BackTarget(l: Link, addresses: map<NodeId, seq<Address>>, dialable: string -> bool,
                            port: int): Option<HostPort> {
    var adv := Advertise(AddressesOf(addresses, l.initiator), dialable);
    if Sustainable(l, adv, dialable) then Some(HostPort(adv, port)) else None
  }

  lemma InitiatorCfg(s: Db, l: Link, ei: Endpoint, el: Endpoint, addresses: map<NodeId, seq<Address>>,
                     dialable: string -> bool, n: Node, cfg: LinkCfg)
    requires InShape(s, l, ei, el, addresses, dialable) && InterfaceOf(s, dialable, n, l, cfg) && n.id == l.initiator
    ensures DialsListener(l, ei.listenPort, cfg) && ei.listenPort >= 0
    ensures ei.listenPort > 0 <==> BackTarget(l, addresses, dialable, ei.listenPort).Some?
  {
    var adv := Advertise(AddressesOf(addresses, ei.nodeId), dialable);
    RoleNode(s, l, ei);
    RowFound(s, l, ei, s.endpoints);
    assert Normal(l, ei, el, adv, dialable);
    InitiatorRow(n, l, Routing.NodeById(s.nodes, Routing.PeerOf(l, n.id)), ei, adv, dialable);
    assert DialsListener(l, ei.listenPort, cfg.(allowedIPs := []));
  }

  lemma ListenerCfg(s: Db, l: Link, ei: Endpoint, el: Endpoint, addresses: map<NodeId, seq<Address>>,
                    dialable: string -> bool, n: Node, cfg: LinkCfg)
    requires InShape(s, l, ei, el, addresses, dialable) && InterfaceOf(s, dialable, n, l, cfg) && n.id == l.listener
    ensures ListensForInitiator(l, BackTarget(l, addresses, dialable, ei.listenPort), cfg)
  {
    var adv := Advertise(AddressesOf(addresses, ei.nodeId), dialable);
    RoleNode(s, l, ei);
    RoleNode(s, l, el);
    RowFound(s, l, el, s.endpoints);
    assert Normal(l, ei, el, adv, dialable);
    AdvertiseDialable(AddressesOf(addresses, ei.nodeId), dialable);
    ListenerRow(n, l, Routing.NodeById(s.nodes, Routing.PeerOf(l, n.id)), el, adv, dialable, ei.listenPort);
    assert ListensForInitiator(l, BackTarget(l, addresses, dialable, ei.listenPort), cfg.(allowedIPs := []));
  }

  /**
   The two device texts of a link. One-way, or not sustainable both ways: only the
   initiator dials, without listening; only the listener listens, and waits. Otherwise
   both listen, and each dials the other.
   */
  predicate RolesIn(l: Link, back: Option<HostPort>, port: int, ti: Uapi, tl: Uapi, c: Codec) {
    && Dials(ti, c, HostPort(l.listenerAddress, l.listenerPort)) && ListensOn(tl, l.listenerPort)
    && if back.Some? then ListensOn(ti, port) && Dials(tl, c, back.value) else Silent(ti) && Waits(tl)
  }

  /**
   From a link in repaired shape, through the compiler, to the two devices: the roles of
   docs/WIREGUARD.md, and neither side is ever refused for a missing endpoint.
   */
  lemma HandshakeRoles(s: Db, l: Link, ei: Endpoint, el: Endpoint, addresses: map<NodeId, seq<Address>>,
                       dialable: string -> bool,
                       ni: Node, nl: Node, ci: LinkCfg, cl: LinkCfg, c: Codec)
    requires InShape(s, l, ei, el, addresses, dialable)
    requires InterfaceOf(s, dialable, ni, l, ci) && ni.id == l.initiator
    requires InterfaceOf(s, dialable, nl, l, cl) && nl.id == l.listener
    ensures !UapiOf(ci, c).MissingEndpoint? && !UapiOf(cl, c).MissingEndpoint?
    ensures UapiOf(ci, c).Built? && UapiOf(cl, c).Built? ==>
              RolesIn(l, BackTarget(l, addresses, dialable, ei.listenPort), ei.listenPort, UapiOf(ci, c).text,
                      UapiOf(cl, c).text, c)
  {
    InitiatorCfg(s, l, ei, el, addresses, dialable, ni, ci);
    ListenerCfg(s, l, ei, el, addresses, dialable, nl, cl);
    TextRoles(l, BackTarget(l, addresses, dialable, ei.listenPort), ei.listenPort, ci, cl, c);
  }

  lemma TextRoles(l: Link, back: Option<HostPort>, port: int, ci: LinkCfg, cl: LinkCfg, c: Codec)
    requires DialsListener(l, port, ci) && ListensForInitiator(l, back, cl) && PortNumber(l.listenerPort)
    requires port >= 0 && (port > 0 <==> back.Some?)
    ensures !UapiOf(ci, c).MissingEndpoint? && !UapiOf(cl, c).MissingEndpoint?
    ensures UapiOf(ci, c).Built? && UapiOf(cl, c).Built? ==>
              RolesIn(l, back, port, UapiOf(ci, c).text, UapiOf(cl, c).text, c)
  {
    if UapiOf(ci, c).Built? && UapiOf(cl, c).Built? {
      TextOf(ci, c);
      TextOf(cl, c);
    }
  }

  /** A configured link has an interface at each of its ends. */
  lemma InterfaceAt(s: Db, dialable: string -> bool, n: Node, st: NodeState, l: Link) returns (cfg: LinkCfg)
    requires n in s.nodes && l in s.links && Routing.Configured(l, n.id)
    requires Routing.IsCompiled(Routing.Graph(s.nodes, s.links, s.endpoints), dialable, n, st)
    ensures cfg in st.links && cfg.linkId == l.id && InterfaceOf(s, dialable, n, l, cfg)
  {
    var ls := Routing.Incident(s.links, n.id);
    Routing.IncidentIs(s.links, n.id);
    var i :| 0 <= i < |ls| && ls[i] == l;
    cfg := st.links[i];
    assert cfg.(allowedIPs := []).linkId == cfg.linkId;
  }

  // ----- who listens where -----

  /** The port of an interface is its row's, or the link's at a node that does not initiate. */
  lemma PortOfCfg(n: Node, l: Link, peer: Node, ep: Option<Endpoint>, dialable: string -> bool)
    requires (ep.Some? ==> PortInRange(ep.value.listenPort)) && Enrolment.ValidUDPPort(l.listenerPort)
    ensures var port := Routing.CfgFor(n, l, peer, ep, dialable).listenPort;
            port > 0 ==> (ep.Some? && port == ep.value.listenPort)
                         || (port == l.listenerPort && !Routing.Initiates(n, l, ep))
  {
  }

  lemma InterfacePort(s: Db, dialable: string -> bool, n: Node, l: Link, cfg: LinkCfg)
    requires Shaped(s.links, s.endpoints) && InterfaceOf(s, dialable, n, l, cfg) && cfg.listenPort > 0
    ensures var ep := Routing.FirstEndpoint(s.endpoints, l.id, n.id);
            (ep.Some? && cfg.listenPort == ep.value.listenPort)
            || (cfg.listenPort == l.listenerPort && !Routing.Initiates(n, l, ep))
  {
    var ep := Routing.FirstEndpoint(s.endpoints, l.id, n.id);
    assert LinkShaped(l, s.endpoints);
    assert ep.Some? ==> RowShaped(s.links, ep.value);
    PortOfCfg(n, l, Routing.NodeById(s.nodes, Routing.PeerOf(l, n.id)), ep, dialable);
    assert cfg.(allowedIPs := []).listenPort == cfg.listenPort;
  }

  /** At an end that does not initiate, the link's own row listens. */
  lemma WaitingEndListens(s: Db, n: Node, l: Link)
    requires DbOk(s) && l in s.links && Touches(l, n.id)
    requires !Routing.Initiates(n, l, Routing.FirstEndpoint(s.endpoints, l.id, n.id))
    ensures l.listener == n.id
  {
    var ep := Routing.FirstEndpoint(s.endpoints, l.id, n.id);
    assert LinkShape(s.nodes, l);
    if ep.Some? {
      RoleNode(s, l, ep.value);
    }
  }

  /** A port that a compiled interface listens on belongs to its link. */
  lemma InterfacePortOwned(s: Db, dialable: string -> bool, n: Node, l: Link, cfg: LinkCfg)
    requires DbOk(s) && Shaped(s.links, s.endpoints) && InterfaceOf(s, dialable, n, l, cfg) && cfg.listenPort > 0
    ensures Owns(s.links, s.endpoints, l.id, n.id, cfg.listenPort)
  {
    var ep := Routing.FirstEndpoint(s.endpoints, l.id, n.id);
    InterfacePort(s, dialable, n, l, cfg);
    if ep.Some? && cfg.listenPort == ep.value.listenPort {
      assert EndpointClaims(ep.value, n.id, cfg.listenPort);
    } else {
      WaitingEndListens(s, n, l);
      assert LinkClaims(l, n.id, cfg.listenPort);
    }
  }

  /** In a store in order, no two interfaces of a compiled node listen on one port. */
  lemma ListenPortsDiffer(s: Db, dialable: string -> bool, n: Node, st: NodeState, i: nat, j: nat)
    requires StoreOk(s) && n in s.nodes
    requires Routing.IsCompiled(Routing.Graph(s.nodes, s.links, s.endpoints), dialable, n, st)
    requires i < j < |st.links| && st.links[i].listenPort > 0
    ensures st.links[j].listenPort != st.links[i].listenPort
  {
    DataPlane.CompiledMirrors(Routing.Graph(s.nodes, s.links, s.endpoints), dialable, n, st);
    var a := CompiledInterface(s, dialable, n, st, st.links[i]);
    var b := CompiledInterface(s, dialable, n, st, st.links[j]);
    InterfacePortOwned(s, dialable, n, a, st.links[i]);
    if st.links[j].listenPort == st.links[i].listenPort {
      InterfacePortOwned(s, dialable, n, b, st.links[j]);
    }
  }

  /** So no two devices that the daemon wants at a node are told to listen on one port. */
  lemma DevicesListenApart(s: Db, dialable: string -> bool, n: Node, st: NodeState, d: string, e: string, c: Codec,
                           port: int)
    requires StoreOk(s) && n in s.nodes
    requires Routing.IsCompiled(Routing.Graph(s.nodes, s.links, s.endpoints), dialable, n, st)
    requires d in Wanted(st.links) && e in Wanted(st.links) && d != e
    requires UapiOf(Wanted(st.links)[d], c).Built? && ListensOn(UapiOf(Wanted(st.links)[d], c).text, port)
    requires UapiOf(Wanted(st.links)[e], c).Built?
    ensures !ListensOn(UapiOf(Wanted(st.links)[e], c).text, port)
  {
    var i := DataPlane.WantedFrom(st.links, d);
    var j := DataPlane.WantedFrom(st.links, e);
    PortsApart(s, dialable, n, st, i, j);
    TextsApart(st.links[i], st.links[j], c, port);
  }

  lemma PortsApart(s: Db, dialable: string -> bool, n: Node, st: NodeState, i: nat, j: nat)
    requires StoreOk(s) && n in s.nodes && i < |st.links| && j < |st.links| && i != j
    requires Routing.IsCompiled(Routing.Graph(s.nodes, s.links, s.endpoints), dialable, n, st)
    ensures st.links[i].listenPort > 0 ==> st.links[j].listenPort != st.links[i].listenPort
  {
    if st.links[i].listenPort > 0 && i < j {
      ListenPortsDiffer(s, dialable, n, st, i, j);
    } else if st.links[j].listenPort > 0 && j < i {
      ListenPortsDiffer(s, dialable, n, st, j, i);
    }
  }

  lemma TextsApart(k: LinkCfg, l: LinkCfg, c: Codec, port: int)
    requires UapiOf(k, c).Built? && UapiOf(l, c).Built? && ListensOn(UapiOf(k, c).text, port)
    requires k.listenPort > 0 ==> l.listenPort != k.listenPort
    ensures !ListensOn(UapiOf(l, c).text, port)
  {
    TextOf(k, c);
    TextOf(l, c);
  }

  /** In a store in order, after a repair pass, a link is in shape. */
  lemma RepairedInShape(s: Db, l: Link, addresses: map<NodeId, seq<Address>>, dialable: string -> bool)
    returns (ei: Endpoint, el: Endpoint)
    requires StoreOk(s) && l in s.links && NormalAt(s, l, addresses, dialable)
    ensures InShape(s, l, ei, el, addresses, dialable)
  {
    assert LinkShaped(l, s.endpoints);
    ei :| ei in s.endpoints && ei.linkId == l.id && ei.isInitiator;
    el :| el in s.endpoints && el.linkId == l.id && !el.isInitiator;
    assert RowShaped(s.links, ei);
  }

  lemma EndNodes(s: Db, l: Link) returns (ni: Node, nl: Node)
    requires DbOk(s) && l in s.links
    ensures ni in s.nodes && ni.id == l.initiator && Touches(l, ni.id)
    ensures nl in s.nodes && nl.id == l.listener && Touches(l, nl.id)
  {
    assert LinkShape(s.nodes, l);
    ni, nl := FindNode(s.nodes, l.initiator).value, FindNode(s.nodes, l.listener).value;
  }

  /**
   Publishing, as a whole: after a repair pass without a failed allocation, every link that
   is enabled or pending has an interface at both ends, and the texts of these interfaces
   give the two devices their roles.
   */
  lemma PublishedRoles(s: Db, s': Db, addresses: map<NodeId, seq<Address>>, dialable: string -> bool,
                       desired: map<NodeId, NodeState>, l: Link, c: Codec)
    returns (ci: LinkCfg, cl: LinkCfg, port: int)
    requires StoreOk(s) && RepairPass(s, s', s.links, addresses, dialable, false)
    requires Published(Routing.Graph(s'.nodes, s'.links, s'.endpoints), dialable, desired)
    requires l in s'.links && (l.enabled || l.status == Pending)
    ensures l.initiator in desired && ci in desired[l.initiator].links && ci.linkId == l.id
    ensures l.listener in desired && cl in desired[l.listener].links && cl.linkId == l.id
    ensures !UapiOf(ci, c).MissingEndpoint? && !UapiOf(cl, c).MissingEndpoint?
    ensures UapiOf(ci, c).Built? && UapiOf(cl, c).Built? ==>
              RolesIn(l, BackTarget(l, addresses, dialable, port), port, UapiOf(ci, c).text, UapiOf(cl, c).text, c)
  {
    OpKeepsStore(s, s', OpRepair(addresses, dialable, false));
    RepairPassKeeps(s, s', s.links, addresses, dialable, false);
    var ei, el := RepairedInShape(s', l, addresses, dialable);
    var ni, nl := EndNodes(s', l);
    ci := InterfaceAt(s', dialable, ni, desired[ni.id], l);
    cl := InterfaceAt(s', dialable, nl, desired[nl.id], l);
    port := ei.listenPort;
    HandshakeRoles(s', l, ei, el, addresses, dialable, ni, nl, ci, cl, c);
  }
}
