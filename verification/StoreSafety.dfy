/**
 Every sequence of bootstrap, enrol, link and delete operations keeps the control
 forest, referential integrity and the ownership of ports.
 */
module StoreSafety {
  import opened Prelude
  import opened Model
  import opened Tables
  import opened Repair
  import opened Store
  import opened StoreShape
  import opened Enrolment
  import ControlTree
  import Overlay
  import UpdateSafety

  ghost predicate CanEnroll(nodes: seq<Node>, n: Node) {
    && !HasId(nodes, n.id) && n.id != "" && !n.isController && n.parent.Some? && HasId(nodes, n.parent.value)
    && Overlay.PlainAddress(n.overlayIPv4) && forall m :: m in nodes ==> m.overlayIPv4 != n.overlayIPv4
  }

  /** Ids no existing link or endpoint row uses. */
  ghost predicate NewIds(links: seq<Link>, eps: seq<Endpoint>, ids: FreshIds) {
    && ids.first != ids.second
    && (forall l :: l in links ==> l.id != ids.link)
    && (forall e :: e in eps ==> e.id != ids.first && e.id != ids.second)
  }

  ghost predicate FitsTables(nodes: seq<Node>, links: seq<Link>, eps: seq<Endpoint>, l: Link, e: Endpoint,
                             f: Endpoint) {
    && LinkShape(nodes, l)
    && (forall k :: k in links ==> k.id != l.id && !Joins(k, l.nodeA, l.nodeB))
    && (forall k :: k in eps ==> k.id != e.id && k.id != f.id)
    && e.id != f.id && e.linkId == l.id && f.linkId == l.id && e.isInitiator != f.isInitiator
    && e.nodeId == (if e.isInitiator then l.initiator else l.listener)
    && f.nodeId == (if f.isInitiator then l.initiator else l.listener)
    && l.listenerPort !in UsedPorts(links, eps, l.listener)
    && (e.listenPort !in UsedPorts(links, eps, e.nodeId) || e.listenPort <= 0)
    && (f.listenPort !in UsedPorts(links, eps, f.nodeId) || f.listenPort <= 0)
  }

  lemma RequestFits(nodes: seq<Node>, links: seq<Link>, eps: seq<Endpoint>, l: Link, a: Endpoint, b: Endpoint,
                    q: LinkRequest, ids: FreshIds, adv: string, portI: int)
    requires RequestedLink(l, q, ids) && RequestedEndpoints(l, a, b, adv, portI) && NewIds(links, eps, ids)
    requires a.id == ids.first && b.id == ids.second && !LinkBetween(links, q.a, q.b)
    requires q.a != q.b && (q.initiator == q.a || q.initiator == q.b) && HasId(nodes, q.a) && HasId(nodes, q.b)
    requires l.listenerPort !in UsedPorts(links, eps, l.listener)
    requires l.bidirectional ==> portI !in UsedPorts(links, eps, q.initiator)
    ensures FitsTables(nodes, links, eps, l, a, b)
  {
  }

  // ----- the tables stay in order -----

  lemma EnrollKeepsTables(nodes: seq<Node>, links: seq<Link>, eps: seq<Endpoint>, n: Node)
    requires TablesOk(nodes, links, eps) && CanEnroll(nodes, n)
    ensures TablesOk(nodes + [n], links, eps)
  {
    EnrollKeepsTree(nodes, n);
    MoreNodesKeepLinks(nodes, links, n);
    var more := nodes + [n];
    forall i, j | 0 <= i < j < |more| ensures more[i].id != more[j].id && more[i].overlayIPv4 != more[j].overlayIPv4 {
      assert more[i] in nodes;
      assert nodes[i].id == n.id ==> HasId(nodes, n.id);
    }
  }

  lemma PoolsKeepTables(a: seq<Node>, b: seq<Node>, links: seq<Link>, eps: seq<Endpoint>)
    requires TablesOk(a, links, eps) && SameButPools(a, b)
    ensures TablesOk(b, links, eps)
  {
    PoolsKeepNodes(a, b);
    PoolsKeepLinks(a, b, links);
  }

  lemma NewNodeUnlinked(nodes: seq<Node>, links: seq<Link>, id: NodeId, other: NodeId)
    requires LinksOk(nodes, links) && !HasId(nodes, id)
    ensures forall l :: l in links ==> !Joins(l, other, id)
  {
    forall l | l in links ensures !Joins(l, other, id) {
      assert LinkShape(nodes, l);
    }
  }

  lemma AddLinkKeepsTables(nodes: seq<Node>, links: seq<Link>, eps: seq<Endpoint>, l: Link, e: Endpoint, f: Endpoint)
    requires TablesOk(nodes, links, eps) && FitsTables(nodes, links, eps, l, e, f)
    ensures TablesOk(nodes, links + [l], eps + [e, f])
  {
    AddLinkKeepsLinks(nodes, links, l);
    AddEndpointsKeepsEndpoints(links, eps, l, e, f);
    AddLinkKeepsPorts(links, eps, l, e, f);
  }

  /** Two link tables that differ in flags only. */
  ghost predicate SameButFlags(links: seq<Link>, r: seq<Link>) {
    |r| == |links| && forall i :: 0 <= i < |links| ==> SameEnds(links[i], r[i])
  }

  predicate SameEnds(l: Link, k: Link) {
    && k.id == l.id && k.nodeA == l.nodeA && k.nodeB == l.nodeB && k.initiator == l.initiator
    && k.listener == l.listener && k.listenerPort == l.listenerPort
  }

  lemma FlagsKeepTables(nodes: seq<Node>, links: seq<Link>, eps: seq<Endpoint>, id: LinkId,
                        bidirectional: Option<bool>, enabled: Option<bool>)
    requires TablesOk(nodes, links, eps)
    ensures TablesOk(nodes, WithFlags(links, id, bidirectional, enabled), eps)
  {
    var r := WithFlags(links, id, bidirectional, enabled);
    FlagsKeepLinks(nodes, links, r);
    FlagsKeepEndpoints(links, r, eps);
    FlagsKeepPorts(links, r, eps);
  }

  lemma FlagsKeepLinks(nodes: seq<Node>, links: seq<Link>, r: seq<Link>)
    requires LinksOk(nodes, links) && SameButFlags(links, r)
    ensures LinksOk(nodes, r)
  {
    forall i, j | 0 <= i < j < |r| ensures r[i].id != r[j].id && !Joins(r[j], r[i].nodeA, r[i].nodeB) {
      assert SameEnds(links[i], r[i]) && SameEnds(links[j], r[j]);
    }
    forall l | l in r ensures LinkShape(nodes, l) {
      var i :| 0 <= i < |r| && r[i] == l;
      assert SameEnds(links[i], r[i]) && LinkShape(nodes, links[i]);
    }
  }

  lemma FlagsKeepEndpoints(links: seq<Link>, r: seq<Link>, eps: seq<Endpoint>)
    requires EndpointsOk(links, eps) && SameButFlags(links, r)
    ensures EndpointsOk(r, eps)
  {
    forall e | e in eps ensures EndpointOf(r, e) {
      assert EndpointOf(links, e);
      var i :| 0 <= i < |links| && links[i].id == e.linkId
               && e.nodeId == if e.isInitiator then links[i].initiator else links[i].listener;
      assert SameEnds(links[i], r[i]);
    }
  }

  lemma FlagsKeepPorts(links: seq<Link>, r: seq<Link>, eps: seq<Endpoint>)
    requires PortsUnique(links, eps) && SameButFlags(links, r)
    ensures PortsUnique(r, eps)
  {
    forall a, node, port | Owns(r, eps, a, node, port) ensures Owns(links, eps, a, node, port) {
      if k :| k in r && k.id == a && LinkClaims(k, node, port) {
        var i :| 0 <= i < |r| && r[i] == k;
        assert SameEnds(links[i], r[i]) && links[i] in links && LinkClaims(links[i], node, port);
      }
    }
    GrowKeepsPorts(links, eps, r, eps, "");
  }

  lemma DropKeepsTables(nodes: seq<Node>, links: seq<Link>, eps: seq<Endpoint>, ids: set<LinkId>)
    requires TablesOk(nodes, links, eps)
    ensures TablesOk(nodes, WithoutLinks(links, ids), WithoutEndpoints(eps, ids))
  {
    DropKeepsLinks(nodes, links, ids);
    DropKeepsEndpoints(links, eps, ids);
    FewerKeepPorts(links, eps, WithoutLinks(links, ids), WithoutEndpoints(eps, ids));
  }

  lemma DeleteKeepsTables(nodes: seq<Node>, links: seq<Link>, eps: seq<Endpoint>, n: Node, gone: set<LinkId>)
    requires TablesOk(nodes, links, eps) && n in nodes && !n.isController
    requires !HasChild(nodes, n.id)
    requires gone == set l | l in links && Touches(l, n.id) :: l.id
    ensures TablesOk(WithoutNode(nodes, n.id), WithoutLinks(links, gone), WithoutEndpoints(eps, gone))
    ensures NothingNames(links, WithoutLinks(links, gone), WithoutEndpoints(eps, gone), n.id)
  {
    DropKeepsTables(nodes, links, eps, gone);
    forall l ensures l in WithoutLinks(links, gone) <==> l in links && !Touches(l, n.id) {
      if l in links && l.id in gone {
        var k :| k in links && Touches(k, n.id) && k.id == l.id;
        var i :| 0 <= i < |links| && links[i] == l;
        var j :| 0 <= j < |links| && links[j] == k;
      }
    }
    forall m | m in nodes && m.id == n.id ensures !m.isController {
      var i :| 0 <= i < |nodes| && nodes[i] == m;
      var j :| 0 <= j < |nodes| && nodes[j] == n;
    }
    DeleteKeepsTree(nodes, n.id);
    WithoutNodeKeepsOk(nodes, n.id);
    DeleteNodeKeepsLinks(nodes, WithoutLinks(links, gone), n.id);
    forall e | e in WithoutEndpoints(eps, gone) ensures e.nodeId != n.id {
      EndpointSurvives(nodes, links, e, n.id, gone);
    }
  }

  lemma EndpointSurvives(nodes: seq<Node>, links: seq<Link>, e: Endpoint, id: NodeId, gone: set<LinkId>)
    requires LinksOk(nodes, links) && EndpointOf(links, e) && e.linkId !in gone
    requires forall l :: l in links && Touches(l, id) ==> l.id in gone
    ensures e.nodeId != id
  {
    var i :| 0 <= i < |links| && links[i].id == e.linkId && e.nodeId == if e.isInitiator then links[i].initiator
        else links[i].listener;
    assert links[i] in links && LinkShape(nodes, links[i]);
  }


  // ----- one operation -----

  /** The random ids an operation draws are not in use. */
  ghost predicate FreshIn(s: Db, ids: FreshIds) {
    ids.node != "" && !HasId(s.nodes, ids.node) && NewIds(s.links, s.endpoints, ids)
  }

  lemma PoolsOfPrefix(before: seq<Node>, after: seq<Node>)
    requires |after| == |before| + 1 && SameButPools(before, after[..|before|])
    ensures SameButPools(before + [after[|before|]], after)
  {
    var front := after[..|before|];
    forall i | 0 <= i < |before| ensures after[i] == before[i].(portEnd := after[i].portEnd) {
      assert front[i] == after[i];
    }
  }

  lemma AddedNodeFits(s: Db, after: seq<Node>, ids: FreshIds, parent: NodeId)
    requires DbOk(s) && FreshIn(s, ids) && HasId(s.nodes, parent) && NodeAdded(s.nodes, after, ids.node, parent)
    ensures TablesOk(after, s.links, s.endpoints) && HasId(after, ids.node) && HasId(after, parent)
  {
    var n := after[|s.nodes|];
    EnrollKeepsTables(s.nodes, s.links, s.endpoints, n);
    var mid := s.nodes + [n];
    PoolsOfPrefix(s.nodes, after);
    PoolsKeepTables(mid, after, s.links, s.endpoints);
    StillHasId(s.nodes, n, parent);
    PoolsKeepIds(mid, after, parent);
  }

  lemma EnrollKeepsDb(s: Db, s': Db, q: EnrollRequest, ids: FreshIds, r: EnrollResult)
    requires DbOk(s) && FreshIn(s, ids) && EnrollStep(s, s', q, ids, r)
    ensures DbOk(s')
  {
    if r == Enrolled || r == NoPortForLink {
      AddedNodeFits(s, s'.nodes, ids, q.parent);
    }
    if r == Enrolled {
      var l, e, f := s'.links[|s.links|], s'.endpoints[|s.endpoints|], s'.endpoints[|s.endpoints| + 1];
      NewNodeUnlinked(s.nodes, s.links, ids.node, q.parent);
      EnrolledRowIds(s, s', FindNode(s.nodes, q.parent).value, ids);
      AddLinkKeepsTables(s'.nodes, s.links, s.endpoints, l, e, f);
    }
  }

  lemma EnrolledRowIds(s: Db, s': Db, parent: Node, ids: FreshIds)
    requires EnrolledOver(s.links, s.endpoints, s'.links, s'.endpoints, parent, ids)
             && NewIds(s.links, s.endpoints, ids)
    requires HasId(s'.nodes, parent.id) && HasId(s'.nodes, ids.node) && parent.id != ids.node
    requires forall l :: l in s.links ==> !Joins(l, parent.id, ids.node)
    ensures var l, e, f := s'.links[|s.links|], s'.endpoints[|s.endpoints|], s'.endpoints[|s.endpoints| + 1];
            FitsTables(s'.nodes, s.links, s.endpoints, l, e, f)
  {
  }

  /** handleCreateLink keeps the tables when it joins two different nodes and one of them initiates. */
  lemma CreateKeepsDb(s: Db, s': Db, q: LinkRequest, ids: FreshIds, adv: string, r: LinkResult)
    requires DbOk(s) && FreshIn(s, ids) && CreateStep(s, s', q, ids, adv, r)
    requires r == LinkCreated ==> q.a != q.b && (q.initiator == q.a || q.initiator == q.b)
    ensures DbOk(s')
  {
    PoolsKeepTables(s.nodes, s'.nodes, s.links, s.endpoints);
    if r == LinkCreated {
      var l, a, b := s'.links[|s.links|], s'.endpoints[|s.endpoints|], s'.endpoints[|s.endpoints| + 1];
      PoolsKeepIds(s.nodes, s'.nodes, q.a);
      PoolsKeepIds(s.nodes, s'.nodes, q.b);
      RequestFits(s'.nodes, s.links, s.endpoints, l, a, b, q, ids, adv,
                  (if l.initiator == l.nodeA then a else b).listenPort);
      AddLinkKeepsTables(s'.nodes, s.links, s.endpoints, l, a, b);
    }
  }

  /** And only then: a request naming a third node as initiator, or the same node twice, leaves a malformed row. */
  lemma CreateKeepsDbExactly(s: Db, s': Db, q: LinkRequest, ids: FreshIds, adv: string)
    requires DbOk(s) && FreshIn(s, ids) && CreateStep(s, s', q, ids, adv, LinkCreated)
    ensures DbOk(s') <==> q.a != q.b && (q.initiator == q.a || q.initiator == q.b)
  {
    var l := s'.links[|s.links|];
    assert l in s'.links;
    if DbOk(s') {
      assert LinkShape(s'.nodes, l);
    } else {
      assert q.a != q.b && (q.initiator == q.a || q.initiator == q.b) ==> DbOk(s') by {
        if q.a != q.b && (q.initiator == q.a || q.initiator == q.b) {
          CreateKeepsDb(s, s', q, ids, adv, LinkCreated);
        }
      }
    }
  }

  /**
   With a third node as initiator the first end listens on a port chosen among the second
   end's free ones; if another link already owns that port there, two links now do.
   */
  lemma ForeignInitiatorClash(s: Db, s': Db, q: LinkRequest, ids: FreshIds, adv: string, owner: LinkId)
    requires CreateStep(s, s', q, ids, adv, LinkCreated) && !q.bidirectional && q.initiator != q.a && q.initiator != q.b
    requires owner != ids.link && Owns(s.links, s.endpoints, owner, q.a, s'.links[|s.links|].listenerPort)
    ensures !PortsUnique(s'.links, s'.endpoints)
  {
    var l, a := s'.links[|s.links|], s'.endpoints[|s.endpoints|];
    var port := l.listenerPort;
    assert a in s'.endpoints && a.linkId == l.id && EndpointClaims(a, q.a, port);
    assert Owns(s'.links, s'.endpoints, l.id, q.a, port);
    if k :| k in s.links && k.id == owner && LinkClaims(k, q.a, port) {
      assert k in s'.links;
    } else {
      var e :| e in s.endpoints && e.linkId == owner && EndpointClaims(e, q.a, port);
      assert e in s'.endpoints;
    }
    assert Owns(s'.links, s'.endpoints, owner, q.a, port);
  }

  // ----- repairing -----

  /** The rows of link `l` have their repaired shape. */
  ghost predicate NormalAt(s: Db, l: Link, addresses: map<NodeId, seq<Address>>, dialable: string -> bool) {
    forall ei, el ::
      (ei in s.endpoints && el in s.endpoints && ei.linkId == l.id && el.linkId == l.id
       && ei.isInitiator && !el.isInitiator) ==>
      Normal(l, ei, el, Advertise(AddressesOf(addresses, ei.nodeId), dialable), dialable)
  }

  lemma RoleIsUnique(s: Db, e: Endpoint)
    requires EndpointsOk(s.links, s.endpoints) && e in s.endpoints
    ensures LastRole(s.endpoints, e.linkId, e.isInitiator) == Some(e)
  {
    var r := LastRole(s.endpoints, e.linkId, e.isInitiator).value;
    var i :| 0 <= i < |s.endpoints| && s.endpoints[i] == e;
    var j :| 0 <= j < |s.endpoints| && s.endpoints[j] == r;
  }

  /** In tables that are in order, each role's row sits at the node of that role. */
  lemma RoleNode(s: Db, l: Link, e: Endpoint)
    requires DbOk(s) && l in s.links && e in s.endpoints && e.linkId == l.id
    ensures e.nodeId == if e.isInitiator then l.initiator else l.listener
  {
    assert EndpointOf(s.links, e);
    var i :| 0 <= i < |s.links| && s.links[i].id == e.linkId && e.nodeId == if e.isInitiator then s.links[i].initiator
        else s.links[i].listener;
    var j :| 0 <= j < |s.links| && s.links[j] == l;
  }

  /** The rows after a repair, position by position. */
  lemma RepairedRows(s: Db, s': Db, l: Link, init: Endpoint, listen: Endpoint, adv: string, dialable: string -> bool,
                     port: int, failed: bool)
    requires DbOk(s) && RepairedWith(s, s', l, init, listen, adv, dialable, port, failed)
    requires init in s.endpoints && listen in s.endpoints && init.linkId == l.id && listen.linkId == l.id
             && init.isInitiator && !listen.isInitiator
    ensures var ei, el := RepairInit(l, init, adv, dialable, port), RepairListen(l, listen, adv, dialable, port);
            && OnlyLink(s.endpoints, s'.endpoints, l.id)
            && forall i :: 0 <= i < |s.endpoints| ==>
                 s'.endpoints[i] == if s.endpoints[i] == init then ei else if s.endpoints[i] == listen then el
                     else s.endpoints[i]
  {
    var ei, el := RepairInit(l, init, adv, dialable, port), RepairListen(l, listen, adv, dialable, port);
    WrittenRows(s.endpoints, s'.endpoints, init, listen, ei, el, l.id);
  }

  lemma WrittenRows(eps: seq<Endpoint>, eps': seq<Endpoint>, a: Endpoint, b: Endpoint, a': Endpoint, b': Endpoint,
                    lid: LinkId)
    requires forall i, j :: 0 <= i < j < |eps| ==> eps[i].id != eps[j].id
    requires a in eps && b in eps && a.linkId == lid && b.linkId == lid && a.isInitiator && !b.isInitiator
    requires SameRole(a, a') && SameRole(b, b')
    requires eps' == if a' == a && b' == b then eps else SetEndpoint(SetEndpoint(eps, a'), b')
    ensures OnlyLink(eps, eps', lid)
    ensures forall i :: 0 <= i < |eps| ==> eps'[i] == if eps[i] == a then a' else if eps[i] == b then b' else eps[i]
  {
    var i :| 0 <= i < |eps| && eps[i] == a;
    var j :| 0 <= j < |eps| && eps[j] == b;
    SetBoth(eps, a, b, a', b', lid);
  }

  /** A port a repair writes was there before, is the link row's own, or is free at its node. */
  lemma RepairedPorts(s: Db, s': Db, l: Link, init: Endpoint, listen: Endpoint, adv: string, dialable: string -> bool,
                      port: int, failed: bool)
    requires DbOk(s) && l in s.links && RepairedWith(s, s', l, init, listen, adv, dialable, port, failed)
    requires init in s.endpoints && listen in s.endpoints && init.linkId == l.id && listen.linkId == l.id
             && init.isInitiator && !listen.isInitiator
    requires |s'.endpoints| == |s.endpoints|
    ensures forall i :: 0 <= i < |s.endpoints| && s.endpoints[i].linkId == l.id && s'.endpoints[i].listenPort > 0 ==>
              || s'.endpoints[i].listenPort == s.endpoints[i].listenPort
              || LinkClaims(l, s.endpoints[i].nodeId, s'.endpoints[i].listenPort)
              || s'.endpoints[i].listenPort !in UsedPorts(s.links, s.endpoints, s.endpoints[i].nodeId)
  {
    RepairedRows(s, s', l, init, listen, adv, dialable, port, failed);
    RoleNode(s, l, listen);
  }

  lemma RepairedKeepsDb(s: Db, s': Db, l: Link, init: Endpoint, listen: Endpoint, adv: string,
                        dialable: string -> bool, port: int, failed: bool)
    requires DbOk(s) && l in s.links && RepairedWith(s, s', l, init, listen, adv, dialable, port, failed)
    requires LastRole(s.endpoints, l.id, true) == Some(init) && LastRole(s.endpoints, l.id, false) == Some(listen)
    ensures DbOk(s')
  {
    RepairedRows(s, s', l, init, listen, adv, dialable, port, failed);
    PoolsKeepTables(s.nodes, s'.nodes, s.links, s.endpoints);
    SameRolesKeepEndpoints(s.links, s.endpoints, s'.endpoints, l.id);
    RepairedPorts(s, s', l, init, listen, adv, dialable, port, failed);
    RepairKeepsPorts(s.links, s.endpoints, s'.endpoints, l);
  }

  /** A repair without a failed allocation leaves its link in shape, and a link in shape alone. */
  lemma RepairedIsNormal(s: Db, s': Db, l: Link, init: Endpoint, listen: Endpoint, addresses: map<NodeId,
                         seq<Address>>, dialable: string -> bool, port: int, failed: bool)
    requires DbOk(s) && RepairedWith(s, s', l, init, listen, Advertise(AddressesOf(addresses, init.nodeId), dialable),
                                     dialable, port, failed)
    requires LastRole(s.endpoints, l.id, true) == Some(init) && LastRole(s.endpoints, l.id, false) == Some(listen)
    requires PoolsInRange(s.nodes)
    ensures !failed ==> NormalAt(s', l, addresses, dialable)
    ensures NormalAt(s, l, addresses, dialable) ==> s' == s && !failed
  {
    var adv := Advertise(AddressesOf(addresses, init.nodeId), dialable);
    var ei, el := RepairInit(l, init, adv, dialable, port), RepairListen(l, listen, adv, dialable, port);
    RepairedRows(s, s', l, init, listen, adv, dialable, port, failed);
    if !failed {
      forall x, y | x in s'.endpoints && y in s'.endpoints && x.linkId == l.id && y.linkId == l.id && x.isInitiator
             && !y.isInitiator
        ensures Normal(l, x, y, Advertise(AddressesOf(addresses, x.nodeId), dialable), dialable)
      {
        RowWasRole(s, s', l, x, init, listen, ei, el);
        RowWasRole(s, s', l, y, init, listen, ei, el);
      }
    }
  }

  lemma RowWasRole(s: Db, s': Db, l: Link, x: Endpoint, init: Endpoint, listen: Endpoint, ei: Endpoint, el: Endpoint)
    requires EndpointsOk(s.links, s.endpoints) && x in s'.endpoints && x.linkId == l.id
    requires LastRole(s.endpoints, l.id, true) == Some(init) && LastRole(s.endpoints, l.id, false) == Some(listen)
    requires SameRole(init, ei) && SameRole(listen, el) && |s'.endpoints| == |s.endpoints|
    requires forall i :: 0 <= i < |s.endpoints| ==>
               s'.endpoints[i] == if s.endpoints[i] == init then ei else if s.endpoints[i] == listen then el
                   else s.endpoints[i]
    ensures x == if x.isInitiator then ei else el
  {
    var i :| 0 <= i < |s'.endpoints| && s'.endpoints[i] == x;
    RoleIsUnique(s, s.endpoints[i]);
  }

  lemma RepairStepKeepsDb(s: Db, s': Db, l: Link, addresses: map<NodeId, seq<Address>>, dialable: string -> bool,
                          failed: bool)
    requires DbOk(s) && l in s.links && RepairStep(s, s', l, addresses, dialable, failed)
    ensures DbOk(s')
  {
    var init, listen := LastRole(s.endpoints, l.id, true), LastRole(s.endpoints, l.id, false);
    if init.Some? && listen.Some? {
      var adv := Advertise(AddressesOf(addresses, init.value.nodeId), dialable);
      var port :| RepairedWith(s, s', l, init.value, listen.value, adv, dialable, port, failed);
      RepairedKeepsDb(s, s', l, init.value, listen.value, adv, dialable, port, failed);
    }
  }

  /** Only rows of the repaired link change, and none changes its place. */
  lemma RepairStepTouches(s: Db, s': Db, l: Link, addresses: map<NodeId, seq<Address>>, dialable: string -> bool,
                          failed: bool)
    requires DbOk(s) && l in s.links && RepairStep(s, s', l, addresses, dialable, failed)
    ensures OnlyLink(s.endpoints, s'.endpoints, l.id) && s'.links == s.links && SameButPools(s.nodes, s'.nodes)
  {
    var init, listen := LastRole(s.endpoints, l.id, true), LastRole(s.endpoints, l.id, false);
    if init.Some? && listen.Some? {
      var adv := Advertise(AddressesOf(addresses, init.value.nodeId), dialable);
      var port :| RepairedWith(s, s', l, init.value, listen.value, adv, dialable, port, failed);
      RepairedRows(s, s', l, init.value, listen.value, adv, dialable, port, failed);
    }
  }

  lemma RepairStepPorts(s: Db, s': Db, l: Link, addresses: map<NodeId, seq<Address>>, dialable: string -> bool,
                        failed: bool)
    requires DbOk(s) && PoolsInRange(s.nodes) && Shaped(s.links, s.endpoints)
    requires l in s.links && RepairStep(s, s', l, addresses, dialable, failed)
    ensures forall e :: e in s'.endpoints ==> PortInRange(e.listenPort)
  {
    forall e | e in s.endpoints ensures PortInRange(e.listenPort) {
      assert RowShaped(s.links, e);
    }
    var init, listen := LastRole(s.endpoints, l.id, true), LastRole(s.endpoints, l.id, false);
    if init.Some? && listen.Some? {
      var adv := Advertise(AddressesOf(addresses, init.value.nodeId), dialable);
      var port :| RepairedWith(s, s', l, init.value, listen.value, adv, dialable, port, failed);
      RepairedRows(s, s', l, init.value, listen.value, adv, dialable, port, failed);
      RepairedPortsInRange(s, s', l, init.value, listen.value, adv, dialable, port, failed);
      RowsInRange(s.endpoints, s'.endpoints, init.value, listen.value,
                  RepairInit(l, init.value, adv, dialable, port), RepairListen(l, listen.value, adv, dialable, port));
    }
  }

  lemma RowsInRange(eps: seq<Endpoint>, eps': seq<Endpoint>, a: Endpoint, b: Endpoint, a': Endpoint, b': Endpoint)
    requires |eps'| == |eps| && PortInRange(a'.listenPort) && PortInRange(b'.listenPort)
    requires forall e :: e in eps ==> PortInRange(e.listenPort)
    requires forall i :: 0 <= i < |eps| ==> eps'[i] == if eps[i] == a then a' else if eps[i] == b then b' else eps[i]
    ensures forall e :: e in eps' ==> PortInRange(e.listenPort)
  {
    forall e | e in eps' ensures PortInRange(e.listenPort) {
      var i :| 0 <= i < |eps'| && eps'[i] == e;
      assert eps[i] in eps;
    }
  }

  lemma RepairStepNormalises(s: Db, s': Db, l: Link, addresses: map<NodeId, seq<Address>>, dialable: string -> bool,
                             failed: bool)
    requires DbOk(s) && PoolsInRange(s.nodes) && l in s.links && RepairStep(s, s', l, addresses, dialable, failed)
    ensures !failed ==> NormalAt(s', l, addresses, dialable)
    ensures NormalAt(s, l, addresses, dialable) ==> s' == s && !failed
  {
    var init, listen := LastRole(s.endpoints, l.id, true), LastRole(s.endpoints, l.id, false);
    if init.Some? && listen.Some? {
      var adv := Advertise(AddressesOf(addresses, init.value.nodeId), dialable);
      var port :| RepairedWith(s, s', l, init.value, listen.value, adv, dialable, port, failed);
      RepairedIsNormal(s, s', l, init.value, listen.value, addresses, dialable, port, failed);
    }
  }

  /** What one repair does to its link and to the others. */
  ghost predicate Normalised(s: Db, s': Db, l: Link, addresses: map<NodeId, seq<Address>>, dialable: string -> bool,
                             failed: bool) {
    && (!failed ==> NormalAt(s', l, addresses, dialable))
    && (NormalAt(s, l, addresses, dialable) ==> s' == s && !failed)
    && forall k: Link :: k.id != l.id && NormalAt(s, k, addresses, dialable) ==> NormalAt(s', k, addresses, dialable)
  }

  /** One repair: tables stay in order, its link ends in shape, links in shape stay in shape. */
  lemma RepairStepKeeps(s: Db, s': Db, l: Link, addresses: map<NodeId, seq<Address>>, dialable: string -> bool,
                        failed: bool)
    requires DbOk(s) && PoolsInRange(s.nodes) && l in s.links && RepairStep(s, s', l, addresses, dialable, failed)
    ensures DbOk(s') && PoolsInRange(s'.nodes) && s'.links == s.links
    ensures Normalised(s, s', l, addresses, dialable, failed)
  {
    RepairStepKeepsDb(s, s', l, addresses, dialable, failed);
    RepairStepTouches(s, s', l, addresses, dialable, failed);
    RepairStepNormalises(s, s', l, addresses, dialable, failed);
    SamePools(s, s');
    OthersStayNormal(s, s', l, addresses, dialable);
  }

  lemma OthersStayNormal(s: Db, s': Db, l: Link, addresses: map<NodeId, seq<Address>>, dialable: string -> bool)
    requires OnlyLink(s.endpoints, s'.endpoints, l.id)
    ensures forall k: Link :: k.id != l.id && NormalAt(s, k, addresses, dialable) ==>
              NormalAt(s', k, addresses, dialable)
  {
    forall k: Link | k.id != l.id && NormalAt(s, k, addresses, dialable) ensures NormalAt(s', k, addresses, dialable) {
      OtherLinkNormal(s, s', l, k, addresses, dialable);
    }
  }

  lemma SamePools(s: Db, s': Db)
    requires PoolsInRange(s.nodes) && SameButPools(s.nodes, s'.nodes)
    ensures PoolsInRange(s'.nodes)
  {
    forall n | n in s'.nodes ensures PoolInRange(n) {
      var i :| 0 <= i < |s'.nodes| && s'.nodes[i] == n;
      assert s.nodes[i] in s.nodes;
    }
  }

  lemma OtherLinkNormal(s: Db, s': Db, l: Link, k: Link, addresses: map<NodeId, seq<Address>>, dialable: string -> bool)
    requires OnlyLink(s.endpoints, s'.endpoints, l.id) && k.id != l.id && NormalAt(s, k, addresses, dialable)
    ensures NormalAt(s', k, addresses, dialable)
  {
    forall e | e in s'.endpoints && e.linkId == k.id ensures e in s.endpoints {
      var i :| 0 <= i < |s'.endpoints| && s'.endpoints[i] == e;
      assert SameRole(s.endpoints[i], s'.endpoints[i]);
    }
  }

  ghost predicate AllNormal(s: Db, ls: seq<Link>, addresses: map<NodeId, seq<Address>>, dialable: string -> bool) {
    forall l :: l in ls ==> NormalAt(s, l, addresses, dialable)
  }

  ghost predicate LinkIdsDistinct(ls: seq<Link>) {
    forall i, j :: 0 <= i < j < |ls| ==> ls[i].id != ls[j].id
  }

  /**
   repairLinkEndpoints as a whole: the tables stay in order; unless an allocation failed
   every link ends in shape; and on links already in shape it does nothing at all.
   */
  lemma {:induction false} RepairPassKeeps(s: Db, s': Db, ls: seq<Link>, addresses: map<NodeId, seq<Address>>,
                                           dialable: string -> bool, failed: bool)
    requires DbOk(s) && PoolsInRange(s.nodes) && RepairPass(s, s', ls, addresses, dialable, failed)
    requires LinkIdsDistinct(ls) && forall l :: l in ls ==> l in s.links
    ensures DbOk(s') && PoolsInRange(s'.nodes) && s'.links == s.links
    ensures !failed ==> AllNormal(s', ls, addresses, dialable)
    ensures AllNormal(s, ls, addresses, dialable) ==> s' == s && !failed
    decreases |ls|
  {
    if ls != [] {
      var mid, f := LastRepair(s, s', ls, addresses, dialable, failed);
      RepairPassKeeps(s, mid, ls[..|ls| - 1], addresses, dialable, f);
      RepairOneMoreKeeps(s, mid, s', ls, ls[|ls| - 1], addresses, dialable, f, failed);
    }
  }

  lemma LastRepair(s: Db, s': Db, ls: seq<Link>, addresses: map<NodeId, seq<Address>>, dialable: string -> bool,
                   failed: bool)
    returns (mid: Db, before: bool)
    requires ls != [] && RepairPass(s, s', ls, addresses, dialable, failed)
    ensures RepairPass(s, mid, ls[..|ls| - 1], addresses, dialable, before)
    ensures RepairLast(mid, s', ls[|ls| - 1], addresses, dialable, before, failed)
  {
    mid, before :| RepairPass(s, mid, ls[..|ls| - 1], addresses, dialable, before)
        && RepairLast(mid, s', ls[|ls| - 1], addresses, dialable, before, failed);
  }

  lemma RepairOneMoreKeeps(s: Db, mid: Db, s': Db, ls: seq<Link>, l: Link, addresses: map<NodeId, seq<Address>>,
                           dialable: string -> bool, before: bool, failed: bool)
    requires ls != [] && l == ls[|ls| - 1] && LinkIdsDistinct(ls) && DbOk(mid) && PoolsInRange(mid.nodes)
    requires l in mid.links && RepairLast(mid, s', l, addresses, dialable, before, failed)
    requires !before ==> AllNormal(mid, ls[..|ls| - 1], addresses, dialable)
    requires AllNormal(s, ls[..|ls| - 1], addresses, dialable) ==> mid == s && !before
    ensures DbOk(s') && PoolsInRange(s'.nodes) && s'.links == mid.links
    ensures !failed ==> AllNormal(s', ls, addresses, dialable)
    ensures AllNormal(s, ls, addresses, dialable) ==> s' == s && !failed
  {
    RepairLastKeeps(mid, s', l, addresses, dialable, before, failed);
    OneMoreNormal(s, mid, s', ls, addresses, dialable, failed);
  }

  lemma {:induction false} RepairPassKeepsShape(s: Db, s': Db, ls: seq<Link>, addresses: map<NodeId, seq<Address>>,
                                                dialable: string -> bool, failed: bool)
    requires DbOk(s) && PoolsInRange(s.nodes) && Shaped(s.links, s.endpoints)
             && RepairPass(s, s', ls, addresses, dialable, failed)
    requires LinkIdsDistinct(ls) && forall l :: l in ls ==> l in s.links
    ensures Shaped(s'.links, s'.endpoints)
    decreases |ls|
  {
    if ls != [] {
      var k := |ls| - 1;
      var mid, f := LastRepair(s, s', ls, addresses, dialable, failed);
      RepairPassKeepsShape(s, mid, ls[..k], addresses, dialable, f);
      RepairPassKeeps(s, mid, ls[..k], addresses, dialable, f);
      RepairLastKeepsShape(mid, s', ls[k], addresses, dialable, f, failed);
    }
  }

  lemma RepairLastKeepsShape(s: Db, s': Db, l: Link, addresses: map<NodeId, seq<Address>>, dialable: string -> bool,
                             before: bool, failed: bool)
    requires DbOk(s) && PoolsInRange(s.nodes) && Shaped(s.links, s.endpoints)
    requires l in s.links && RepairLast(s, s', l, addresses, dialable, before, failed)
    ensures Shaped(s'.links, s'.endpoints)
  {
    RepairLastTouches(s, s', l, addresses, dialable, before, failed);
    RepairKeepsShape(s.links, s.endpoints, s'.endpoints, l.id);
  }

  lemma RepairLastTouches(s: Db, s': Db, l: Link, addresses: map<NodeId, seq<Address>>, dialable: string -> bool,
                          before: bool, failed: bool)
    requires DbOk(s) && PoolsInRange(s.nodes) && Shaped(s.links, s.endpoints)
    requires l in s.links && RepairLast(s, s', l, addresses, dialable, before, failed)
    ensures OnlyLink(s.endpoints, s'.endpoints, l.id) && s'.links == s.links
    ensures forall e :: e in s'.endpoints ==> PortInRange(e.listenPort)
  {
    if RepairStep(s, s', l, addresses, dialable, false) {
      RepairStepTouches(s, s', l, addresses, dialable, false);
      RepairStepPorts(s, s', l, addresses, dialable, false);
    } else {
      RepairStepTouches(s, s', l, addresses, dialable, true);
      RepairStepPorts(s, s', l, addresses, dialable, true);
    }
  }

  lemma RepairLastKeeps(s: Db, s': Db, l: Link, addresses: map<NodeId, seq<Address>>, dialable: string -> bool,
                        before: bool, failed: bool)
    requires DbOk(s) && PoolsInRange(s.nodes) && l in s.links
             && RepairLast(s, s', l, addresses, dialable, before, failed)
    ensures DbOk(s') && PoolsInRange(s'.nodes) && s'.links == s.links
    ensures !failed ==> !before && NormalAt(s', l, addresses, dialable)
    ensures NormalAt(s, l, addresses, dialable) && !before ==> s' == s && !failed
    ensures forall k: Link :: k.id != l.id && NormalAt(s, k, addresses, dialable) ==>
              NormalAt(s', k, addresses, dialable)
  {
    if RepairStep(s, s', l, addresses, dialable, false) && failed == before {
      RepairStepKeeps(s, s', l, addresses, dialable, false);
    } else {
      RepairStepKeeps(s, s', l, addresses, dialable, true);
    }
  }

  lemma OneMoreNormal(s: Db, mid: Db, s': Db, ls: seq<Link>, addresses: map<NodeId, seq<Address>>,
                      dialable: string -> bool, failed: bool)
    requires ls != [] && LinkIdsDistinct(ls)
    requires !failed ==> AllNormal(mid, ls[..|ls| - 1], addresses, dialable) && NormalAt(s', ls[|ls| - 1], addresses,
                                                                                         dialable)
    requires forall k: Link :: k.id != ls[|ls| - 1].id && NormalAt(mid, k, addresses, dialable) ==>
               NormalAt(s', k, addresses, dialable)
    ensures !failed ==> AllNormal(s', ls, addresses, dialable)
    ensures AllNormal(s, ls, addresses, dialable) ==>
              AllNormal(s, ls[..|ls| - 1], addresses, dialable) && NormalAt(s, ls[|ls| - 1], addresses, dialable)
  {
    var k := |ls| - 1;
    if !failed {
      forall l | l in ls ensures NormalAt(s', l, addresses, dialable) {
        var i :| 0 <= i < |ls| && ls[i] == l;
        if i < k { assert ls[..k][i] == l; }
      }
    }
  }

  /** Repairing twice is repairing once. */
  lemma RepairIsIdempotent(s: Db, s1: Db, s2: Db, addresses: map<NodeId, seq<Address>>, dialable: string -> bool,
                           failed: bool)
    requires DbOk(s) && PoolsInRange(s.nodes)
    requires RepairPass(s, s1, s.links, addresses, dialable, false)
             && RepairPass(s1, s2, s1.links, addresses, dialable, failed)
    ensures s2 == s1 && !failed
  {
    RepairPassKeeps(s, s1, s.links, addresses, dialable, false);
    RepairPassKeeps(s1, s2, s1.links, addresses, dialable, failed);
  }

  // ----- sequences of operations -----

  datatype Op =
    | OpEnroll(q: EnrollRequest, ids: FreshIds, enrolled: EnrollResult)
    | OpCreateLink(request: LinkRequest, newIds: FreshIds, adv: string, created: LinkResult)
    | OpUpdateLink(link: LinkId, bidirectional: Option<bool>, enabled: Option<bool>)
    | OpDeleteLink(gone: LinkId)
    | OpDeleteNode(node: NodeId)
    | OpRepair(addresses: map<NodeId, seq<Address>>, dialable: string -> bool, failed: bool)

  /** `s'` is what operation `op` may leave behind; refused operations leave everything alone. */
  ghost predicate OpStep(s: Db, s': Db, op: Op) {
    match op
    case OpEnroll(q, ids, r) => FreshIn(s, ids) && EnrollStep(s, s', q, ids, r)
    case OpCreateLink(q, ids, adv, r) =>
      FreshIn(s, ids) && CreateStep(s, s', q, ids, adv, r)
      && (r == LinkCreated ==> q.a != q.b && (q.initiator == q.a || q.initiator == q.b))
    case OpUpdateLink(id, bi, en) => s' == s || s' == s.(links := WithFlags(s.links, id, bi, en))
    case OpDeleteLink(id) => s' == Db(s.nodes, WithoutLinks(s.links, {id}), WithoutEndpoints(s.endpoints, {id}))
    case OpDeleteNode(id) =>
      if HasId(s.nodes, id) && !FindNode(s.nodes, id).value.isController && !HasChild(s.nodes, id)
      then s' == Deletion(s, id) else s' == s
    case OpRepair(addresses, dialable, failed) => RepairPass(s, s', s.links, addresses, dialable, failed)
  }

  ghost predicate StoreOk(s: Db) {
    DbOk(s) && PoolsInRange(s.nodes) && Shaped(s.links, s.endpoints)
  }

  lemma OpKeepsStore(s: Db, s': Db, op: Op)
    requires StoreOk(s) && OpStep(s, s', op)
    ensures StoreOk(s')
  {
    match op
    case OpEnroll(q, ids, r) =>
      EnrollKeepsDb(s, s', q, ids, r);
      EnrollKeepsShape(s, s', q, ids, r);
      if r == Enrolled || r == NoPortForLink { AddedNodePositive(s.nodes, s'.nodes, ids.node, q.parent); }
    case OpCreateLink(q, ids, adv, r) =>
      CreateKeepsDb(s, s', q, ids, adv, r);
      CreateKeepsShape(s, s', q, ids, adv, r);
      SamePools(s, s');
    case OpUpdateLink(id, bi, en) =>
      FlagsKeepTables(s.nodes, s.links, s.endpoints, id, bi, en);
      FlagsKeepShape(s.links, s.endpoints, id, bi, en);
    case OpDeleteLink(id) =>
      DropKeepsTables(s.nodes, s.links, s.endpoints, {id});
      DropKeepsShape(s.links, s.endpoints, {id});
    case OpDeleteNode(id) =>
      if s' != s {
        DeleteKeepsTables(s.nodes, s.links, s.endpoints, FindNode(s.nodes, id).value, LinkIdsAt(s.links, id));
        DropKeepsShape(s.links, s.endpoints, LinkIdsAt(s.links, id));
      }
    case OpRepair(addresses, dialable, failed) =>
      RepairPassKeeps(s, s', s.links, addresses, dialable, failed);
      RepairPassKeepsShape(s, s', s.links, addresses, dialable, failed);
  }

  lemma AddedNodePositive(before: seq<Node>, after: seq<Node>, id: NodeId, parent: NodeId)
    requires NodeAdded(before, after, id, parent) && PoolsInRange(before)
    ensures PoolsInRange(after)
  {
    forall n | n in after ensures PoolInRange(n) {
      var i :| 0 <= i < |after| && after[i] == n;
      if i < |before| { assert after[..|before|][i] == after[i] && before[i] in before; }
    }
  }

  ghost predicate IsStoreRun(run: seq<Db>, ops: seq<Op>) {
    |run| == |ops| + 1 && forall i :: 0 <= i < |ops| ==> OpAt(run, ops, i)
  }

  ghost predicate OpAt(run: seq<Db>, ops: seq<Op>, i: nat)
    requires i < |ops| && i + 1 < |run|
  {
    OpStep(run[i], run[i + 1], ops[i])
  }

  /**
   Over every sequence of operations: one controller at the root of a forest that holds
   every node, no link or endpoint naming a missing row, distinct overlay addresses, and
   no positive port of a node owned by two links.
   */
  lemma {:induction false} StoreRunKeeps(run: seq<Db>, ops: seq<Op>, i: nat)
    requires IsStoreRun(run, ops) && StoreOk(run[0]) && i < |run|
    ensures StoreOk(run[i])
    decreases i
  {
    if i > 0 {
      StoreRunKeeps(run, ops, i - 1);
      OpInRunKeeps(run, ops, i);
    }
  }

  lemma OpInRunKeeps(run: seq<Db>, ops: seq<Op>, i: nat)
    requires IsStoreRun(run, ops) && 0 < i <= |ops| && StoreOk(run[i - 1])
    ensures StoreOk(run[i])
  {
    assert OpAt(run, ops, i - 1);
    OpKeepsStore(run[i - 1], run[i], ops[i - 1]);
  }

  // ----- depths -----

  lemma {:induction false} FindIsRow(nodes: seq<Node>, n: Node)
    requires NodesOk(nodes) && n in nodes
    ensures FindNode(nodes, n.id) == Some(n)
  {
    var r := FindNode(nodes, n.id).value;
    var i :| 0 <= i < |nodes| && nodes[i] == r;
    var j :| 0 <= j < |nodes| && nodes[j] == n;
  }

  /** On tables in order, the walk over rows and the parent map agree on depth. */
  lemma {:induction false} DepthIsRootAt(nodes: seq<Node>, n: Node, d: nat)
    requires NodesOk(nodes) && TreeOk(nodes) && n in nodes
    ensures DepthOf(nodes, n.id, d) <==> ControlTree.RootAt(ControlTree.ParentsOf(nodes), n.id, d)
    decreases d
  {
    FindIsRow(nodes, n);
    ParentsAre(nodes, n.id);
    if n.parent.Some? {
      assert HasId(nodes, n.parent.value);
      var i :| 0 <= i < |nodes| && nodes[i].id == n.parent.value;
      assert nodes[i] in nodes;
      if d > 0 { DepthIsRootAt(nodes, nodes[i], d - 1); }
    }
  }

  /**
   The depth handleCreateUpdate stores for a node: what NodeDepth returns, or 0 when it
   reports an error, is the true depth up to 1000 and 0 beyond.
   */
  lemma StoredDepthIsNodeDepth(nodes: seq<Node>, n: Node, depth: nat, ok: bool)
    requires NodesOk(nodes) && TreeOk(nodes) && n in nodes
    requires ok ==> DepthOf(nodes, n.id, depth) && depth <= 1000
    requires !ok ==> depth == 0 && forall d: nat :: d <= 1000 ==> !DepthOf(nodes, n.id, d)
    ensures depth == UpdateSafety.StoredDepth(ControlTree.ParentsOf(nodes), n.id)
  {
    var p := ControlTree.ParentsOf(nodes);
    if ok {
      DepthIsRootAt(nodes, n, depth);
      ControlTree.DepthUnique(p, n.id, depth, UpdateSafety.TrueDepth(p, n.id));
    } else if ControlTree.DepthWithin(p, n.id, UpdateSafety.DEPTH_LIMIT) {
      DepthIsRootAt(nodes, n, UpdateSafety.TrueDepth(p, n.id));
    }
  }
}
