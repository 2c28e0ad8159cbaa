/**
 internal/controller/policy_handlers.go: the shape repairLinkEndpoints gives to the two
 endpoint rows of a link, on values.
 */
module Repair {
  import opened Prelude
  import opened Model
  import opened Tables
  import ControlTree
  import Overlay

  datatype Address = Address(address: string, kind: string)

  /** nodePublicAdvertise: the first dialable address whose type is not exactly "lan". */
  function Advertise(addrs: seq<Address>, dialable: string -> bool): string {
    if addrs == [] then ""
    else if addrs[0].kind != "lan" && dialable(addrs[0].address) then addrs[0].address
    else Advertise(addrs[1..], dialable)
  }

  lemma {:induction false} AdvertiseDialable(addrs: seq<Address>, dialable: string -> bool)
    ensures Advertise(addrs, dialable) != "" ==> dialable(Advertise(addrs, dialable))
  {
    if addrs != [] {
      AdvertiseDialable(addrs[1..], dialable);
    }
  }

  /** strings.EqualFold(s, "lan"). */
  predicate IsLan(s: string) {
    |s| == 3 && (s[0] == 'l' || s[0] == 'L') && (s[1] == 'a' || s[1] == 'A') && (s[2] == 'n' || s[2] == 'N')
  }

  /** nodeHasPublicDialable. */
  predicate HasPublic(addrs: seq<Address>, dialable: string -> bool) {
    exists i :: 0 <= i < |addrs| && !IsLan(addrs[i].kind) && dialable(addrs[i].address)
  }

  lemma {:induction false} AdvertiseExists(addrs: seq<Address>, dialable: string -> bool)
    requires !dialable("")
    ensures Advertise(addrs, dialable) != "" <==>
            exists i :: 0 <= i < |addrs| && addrs[i].kind != "lan" && dialable(addrs[i].address)
  {
    if addrs != [] {
      AdvertiseExists(addrs[1..], dialable);
      if i :| 0 <= i < |addrs| && addrs[i].kind != "lan" && dialable(addrs[i].address) {
        assert i > 0 ==> addrs[1..][i - 1] == addrs[i];
      }
      if i :| 0 <= i < |addrs| - 1 && addrs[1..][i].kind != "lan" && dialable(addrs[1..][i].address) {
        assert addrs[i + 1] == addrs[1..][i];
      }
    }
  }

  /** A dialable address whose type is "lan" in some other spelling. */
  predicate OtherLan(a: Address, dialable: string -> bool) {
    IsLan(a.kind) && a.kind != "lan" && dialable(a.address)
  }

  /**
   A node with a public address has one to advertise. The two tests differ exactly at nodes
   all of whose dialable addresses have some spelling of "lan" as their type, one of them not
   this one: such a node advertises, and may even be dialled back, but gets the pool of one port.
   */
  lemma {:induction false} TestsDifferIff(addrs: seq<Address>, dialable: string -> bool)
    requires !dialable("")
    ensures HasPublic(addrs, dialable) ==> Advertise(addrs, dialable) != ""
    ensures HasPublic(addrs, dialable) != (Advertise(addrs, dialable) != "") <==>
            && (exists i :: 0 <= i < |addrs| && OtherLan(addrs[i], dialable))
            && (forall i :: 0 <= i < |addrs| && dialable(addrs[i].address) ==> IsLan(addrs[i].kind))
  {
    AdvertiseExists(addrs, dialable);
    if exists i :: 0 <= i < |addrs| && OtherLan(addrs[i], dialable) {
      var i :| 0 <= i < |addrs| && OtherLan(addrs[i], dialable);
      assert addrs[i].kind != "lan" && dialable(addrs[i].address);
    }
  }

  /** Both sides dial: asked for, and both addresses are dialable. */
  predicate Sustainable(l: Link, adv: string, dialable: string -> bool) {
    l.bidirectional && adv != "" && dialable(l.listenerAddress)
  }

  /** The initiator's row, given the port it listens on if both sides dial. */
  function RepairInit(l: Link, e: Endpoint, adv: string, dialable: string -> bool, port: int): Endpoint {
    e.(peerEndpoint := Some(HostPort(l.listenerAddress, l.listenerPort)), keepalive := 25,
       listenPort := if Sustainable(l, adv, dialable) then port else 0)
  }

  function RepairListen(l: Link, e: Endpoint, adv: string, dialable: string -> bool, port: int): Endpoint {
    var both := Sustainable(l, adv, dialable);
    e.(listenPort := if l.listenerPort > 0 then l.listenerPort else e.listenPort,
       peerEndpoint := if both then Some(HostPort(adv, port)) else None,
       keepalive := if both then 25 else 0)
  }

  /** The two rows already have their repaired shape. */
  predicate Normal(l: Link, init: Endpoint, listen: Endpoint, adv: string, dialable: string -> bool) {
    && init == RepairInit(l, init, adv, dialable, init.listenPort)
    && listen == RepairListen(l, listen, adv, dialable, init.listenPort)
    && (Sustainable(l, adv, dialable) ==> init.listenPort > 0)
  }

  /** UPDATE wireguard_link_endpoints ... WHERE id = ?; link and node columns are not written. */
  function SetEndpoint(eps: seq<Endpoint>, e: Endpoint): (r: seq<Endpoint>)
    ensures |r| == |eps|
    ensures forall i :: 0 <= i < |eps| ==>
              r[i] == if eps[i].id == e.id then e.(linkId := eps[i].linkId, nodeId := eps[i].nodeId) else eps[i]
  {
    seq(|eps|, i requires 0 <= i < |eps| =>
          if eps[i].id == e.id then e.(linkId := eps[i].linkId, nodeId := eps[i].nodeId) else eps[i])
  }

  /** Same rows in the same roles; only ports, targets and keepalives of link `lid` may differ. */
  ghost predicate OnlyLink(eps: seq<Endpoint>, eps': seq<Endpoint>, lid: LinkId) {
    && |eps'| == |eps|
    && (forall i :: 0 <= i < |eps| ==> SameRole(eps[i], eps'[i]))
    && (forall i :: 0 <= i < |eps| && eps[i].linkId != lid ==> eps'[i] == eps[i])
  }

  ghost predicate SameRole(e: Endpoint, f: Endpoint) {
    f.id == e.id && f.linkId == e.linkId && f.nodeId == e.nodeId && f.isInitiator == e.isInitiator
    && f.iface == e.iface && f.peerPublicKey == e.peerPublicKey
  }

  lemma SameRolesKeepEndpoints(links: seq<Link>, eps: seq<Endpoint>, eps': seq<Endpoint>, lid: LinkId)
    requires EndpointsOk(links, eps) && OnlyLink(eps, eps', lid)
    ensures EndpointsOk(links, eps')
  {
    forall e | e in eps' ensures EndpointOf(links, e) {
      var i :| 0 <= i < |eps'| && eps'[i] == e;
      assert SameRole(eps[i], eps'[i]) && EndpointOf(links, eps[i]);
    }
    forall i, j | 0 <= i < j < |eps'|
      ensures eps'[i].id != eps'[j].id && !(eps'[i].linkId == eps'[j].linkId
                                            && eps'[i].isInitiator == eps'[j].isInitiator)
    {
      assert SameRole(eps[i], eps'[i]) && SameRole(eps[j], eps'[j]);
    }
  }

  /** Writing both repaired rows touches that link only. */
  lemma SetBoth(eps: seq<Endpoint>, a: Endpoint, b: Endpoint, a': Endpoint, b': Endpoint, lid: LinkId)
    requires forall i, j :: 0 <= i < j < |eps| ==> eps[i].id != eps[j].id
    requires a in eps && b in eps && a.linkId == lid && b.linkId == lid
    requires SameRole(a, a') && SameRole(b, b') && a.id != b.id
    ensures var r := SetEndpoint(SetEndpoint(eps, a'), b');
            OnlyLink(eps, r, lid) && forall i :: 0 <= i < |eps| ==> r[i] == if eps[i] == a then a'
                else if eps[i] == b then b' else eps[i]
  {
    var r := SetEndpoint(SetEndpoint(eps, a'), b');
    forall i | 0 <= i < |eps| ensures r[i] == if eps[i] == a then a' else if eps[i] == b then b' else eps[i] {
      var j :| 0 <= j < |eps| && eps[j] == a;
      var k :| 0 <= k < |eps| && eps[k] == b;
    }
  }

  /** A repaired port is one the link's row already owns, or one nobody used at that node. */
  lemma RepairKeepsPorts(links: seq<Link>, eps: seq<Endpoint>, eps': seq<Endpoint>, l: Link)
    requires PortsUnique(links, eps) && l in links && OnlyLink(eps, eps', l.id)
    requires forall i :: 0 <= i < |eps| && eps[i].linkId == l.id && eps'[i].listenPort > 0 ==>
               || eps'[i].listenPort == eps[i].listenPort
               || LinkClaims(l, eps[i].nodeId, eps'[i].listenPort)
               || eps'[i].listenPort !in UsedPorts(links, eps, eps[i].nodeId)
    ensures PortsUnique(links, eps')
  {
    forall a, node, port | Owns(links, eps', a, node, port)
      ensures Owns(links, eps, a, node, port) || (a == l.id && port !in UsedPorts(links, eps, node))
    {
      if k :| k in links && k.id == a && LinkClaims(k, node, port) {
      } else {
        var e :| e in eps' && e.linkId == a && EndpointClaims(e, node, port);
        var i :| 0 <= i < |eps'| && eps'[i] == e;
        assert SameRole(eps[i], eps'[i]) && eps[i] in eps;
        if eps'[i].listenPort == eps[i].listenPort { assert EndpointClaims(eps[i], node, port); }
      }
    }
    GrowKeepsPorts(links, eps, links, eps', l.id);
  }

  // ----- rows that agree up to their port pools -----

  ghost predicate SameButPools(a: seq<Node>, b: seq<Node>) {
    |a| == |b| && forall i :: 0 <= i < |a| ==> b[i] == a[i].(portEnd := b[i].portEnd) && b[i].portEnd <= a[i].portEnd
  }

  /** AllocateWGPort cuts the pool of a node nobody can dial down to one port. */
  function ShrinkPool(nodes: seq<Node>, id: NodeId, public: bool): (r: seq<Node>)
    ensures SameButPools(nodes, r)
    ensures forall i :: 0 <= i < |nodes| ==>
              r[i].portEnd == if nodes[i].id == id && !public && nodes[i].portEnd > nodes[i].portStart
                              then nodes[i].portStart else nodes[i].portEnd
  {
    seq(|nodes|, i requires 0 <= i < |nodes| =>
          if nodes[i].id == id && !public && nodes[i].portEnd > nodes[i].portStart
          then nodes[i].(portEnd := nodes[i].portStart) else nodes[i])
  }

  lemma {:induction false} PoolsKeepParents(a: seq<Node>, b: seq<Node>)
    requires SameButPools(a, b)
    ensures ControlTree.ParentsOf(a) == ControlTree.ParentsOf(b)
    decreases |a|
  {
    if a != [] {
      PoolsKeepParents(a[..|a| - 1], b[..|b| - 1]);
    }
  }

  lemma PoolsKeepIds(a: seq<Node>, b: seq<Node>, id: NodeId)
    requires SameButPools(a, b)
    ensures HasId(a, id) <==> HasId(b, id)
  {
    if HasId(a, id) {
      var i :| 0 <= i < |a| && a[i].id == id;
      assert b[i].id == id;
    }
    if HasId(b, id) {
      var i :| 0 <= i < |b| && b[i].id == id;
      assert a[i].id == id;
    }
  }

  lemma PoolsKeepNodes(a: seq<Node>, b: seq<Node>)
    requires SameButPools(a, b) && NodesOk(a) && TreeOk(a)
    ensures NodesOk(b) && TreeOk(b)
  {
    PoolsKeepParents(a, b);
    forall n | n in b
      ensures n.id != "" && Overlay.PlainAddress(n.overlayIPv4) && (n.isController <==> n.parent.None?)
      ensures ControlTree.Rooted(ControlTree.ParentsOf(b), n.id) && (n.parent.Some? ==> HasId(b, n.parent.value))
    {
      var i :| 0 <= i < |b| && b[i] == n;
      assert a[i] in a;
      if n.parent.Some? { PoolsKeepIds(a, b, n.parent.value); }
    }
    var c :| 0 <= c < |a| && a[c].isController;
    assert b[c].isController;
  }

  lemma PoolsKeepLinks(a: seq<Node>, b: seq<Node>, links: seq<Link>)
    requires SameButPools(a, b) && LinksOk(a, links)
    ensures LinksOk(b, links)
  {
    forall l | l in links ensures LinkShape(b, l) {
      PoolsKeepIds(a, b, l.nodeA);
      PoolsKeepIds(a, b, l.nodeB);
    }
  }
}
