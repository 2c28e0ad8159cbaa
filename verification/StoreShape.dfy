/**
 What the handlers write besides keys: interface names derived from ids, listener ports
 that are UDP ports, and both endpoint rows of every link.
 */
module StoreShape {
  import opened Prelude
  import opened Model
  import opened Tables
  import opened Repair
  import opened Enrolment
  import opened Store
  import Routing

  predicate LinkNamed(l: Link) {
    && l.ifaceA == InterfaceName(l.nodeA, l.nodeB) && l.ifaceB == InterfaceName(l.nodeB, l.nodeA)
    && ValidUDPPort(l.listenerPort)
  }

  ghost predicate HasRow(eps: seq<Endpoint>, id: LinkId, initiator: bool) {
    exists e :: e in eps && e.linkId == id && e.isInitiator == initiator
  }

  /** The row's interface is named after its node and the node at the other end. */
  predicate NamedFor(l: Link, e: Endpoint) {
    l.id == e.linkId && e.iface == InterfaceName(e.nodeId, Routing.PeerOf(l, e.nodeId))
  }

  predicate PortInRange(p: int) {
    0 <= p <= 65535
  }

  ghost predicate RowShaped(links: seq<Link>, e: Endpoint) {
    PortInRange(e.listenPort) && exists l :: l in links && NamedFor(l, e)
  }

  ghost predicate LinkShaped(l: Link, eps: seq<Endpoint>) {
    LinkNamed(l) && HasRow(eps, l.id, true) && HasRow(eps, l.id, false)
  }

  ghost predicate Shaped(links: seq<Link>, eps: seq<Endpoint>) {
    && (forall l {:trigger LinkShaped(l, eps)} :: l in links ==> LinkShaped(l, eps))
    && (forall e {:trigger RowShaped(links, e)} :: e in eps ==> RowShaped(links, e))
  }

  lemma AddKeepsShape(links: seq<Link>, eps: seq<Endpoint>, l: Link, e: Endpoint, f: Endpoint)
    requires Shaped(links, eps) && LinkNamed(l) && NamedFor(l, e) && NamedFor(l, f) && PortInRange(e.listenPort)
             && PortInRange(f.listenPort) && e.isInitiator != f.isInitiator
    ensures Shaped(links + [l], eps + [e, f])
  {
    var links', eps' := links + [l], eps + [e, f];
    forall k | k in links' ensures LinkShaped(k, eps') {
      if k in links {
        assert LinkShaped(k, eps);
        RowsGrow(eps, [e, f], k.id, true);
        RowsGrow(eps, [e, f], k.id, false);
      } else {
        assert e in eps' && f in eps';
      }
    }
    forall x | x in eps' ensures RowShaped(links', x) {
      if x in eps {
        assert RowShaped(links, x);
        var k :| k in links && NamedFor(k, x);
        assert k in links';
      } else {
        assert l in links' && NamedFor(l, x);
      }
    }
  }

  lemma RowsGrow(eps: seq<Endpoint>, more: seq<Endpoint>, id: LinkId, initiator: bool)
    requires HasRow(eps, id, initiator)
    ensures HasRow(eps + more, id, initiator)
  {
    var e :| e in eps && e.linkId == id && e.isInitiator == initiator;
    assert e in eps + more;
  }

  lemma DropKeepsShape(links: seq<Link>, eps: seq<Endpoint>, ids: set<LinkId>)
    requires Shaped(links, eps)
    ensures Shaped(WithoutLinks(links, ids), WithoutEndpoints(eps, ids))
  {
    var links', eps' := WithoutLinks(links, ids), WithoutEndpoints(eps, ids);
    forall l | l in links' ensures LinkShaped(l, eps') {
      assert LinkShaped(l, eps);
      var e :| e in eps && e.linkId == l.id && e.isInitiator;
      var f :| f in eps && f.linkId == l.id && !f.isInitiator;
      assert e in eps' && f in eps';
    }
    forall e | e in eps' ensures RowShaped(links', e) {
      assert RowShaped(links, e);
      var l :| l in links && NamedFor(l, e);
      assert l in links';
    }
  }

  lemma FlagsKeepShape(links: seq<Link>, eps: seq<Endpoint>, id: LinkId, bidirectional: Option<bool>,
                       enabled: Option<bool>)
    requires Shaped(links, eps)
    ensures Shaped(WithFlags(links, id, bidirectional, enabled), eps)
  {
    var links' := WithFlags(links, id, bidirectional, enabled);
    forall l | l in links' ensures LinkShaped(l, eps) {
      var i :| 0 <= i < |links'| && links'[i] == l;
      assert links[i] in links && LinkShaped(links[i], eps);
    }
    forall e | e in eps ensures RowShaped(links', e) {
      assert RowShaped(links, e);
      var l :| l in links && NamedFor(l, e);
      var i :| 0 <= i < |links| && links[i] == l;
      assert links'[i] in links' && NamedFor(links'[i], e);
    }
  }

  /** Repairing touches neither names nor roles. */
  lemma RepairKeepsShape(links: seq<Link>, eps: seq<Endpoint>, eps': seq<Endpoint>, lid: LinkId)
    requires Shaped(links, eps) && OnlyLink(eps, eps', lid) && forall e :: e in eps' ==> PortInRange(e.listenPort)
    ensures Shaped(links, eps')
  {
    forall l | l in links ensures LinkShaped(l, eps') {
      assert LinkShaped(l, eps);
      RowMoves(eps, eps', lid, l.id, true);
      RowMoves(eps, eps', lid, l.id, false);
    }
    forall e | e in eps' ensures RowShaped(links, e) {
      var i :| 0 <= i < |eps'| && eps'[i] == e;
      assert SameRole(eps[i], eps'[i]) && RowShaped(links, eps[i]);
      var l :| l in links && NamedFor(l, eps[i]);
      assert NamedFor(l, e);
    }
  }

  lemma RowMoves(eps: seq<Endpoint>, eps': seq<Endpoint>, lid: LinkId, id: LinkId, initiator: bool)
    requires OnlyLink(eps, eps', lid) && HasRow(eps, id, initiator)
    ensures HasRow(eps', id, initiator)
  {
    var e :| e in eps && e.linkId == id && e.isInitiator == initiator;
    var i :| 0 <= i < |eps| && eps[i] == e;
    assert SameRole(eps[i], eps'[i]) && eps'[i] in eps';
  }

  // ----- the operations -----

  lemma FreePortIsValid(nodes: seq<Node>, id: NodeId, used: set<int>, port: int)
    requires PoolsInRange(nodes) && HasId(nodes, id) && LeastFree(FindNode(nodes, id).value, used, port)
    ensures ValidUDPPort(port)
  {
    assert FindNode(nodes, id).value in nodes;
  }

  lemma EnrollKeepsShape(s: Db, s': Db, q: EnrollRequest, ids: FreshIds, r: EnrollResult)
    requires Shaped(s.links, s.endpoints) && PoolsInRange(s.nodes) && !HasId(s.nodes, ids.node)
             && EnrollStep(s, s', q, ids, r)
    ensures Shaped(s'.links, s'.endpoints)
  {
    if r == Enrolled {
      var parent := FindNode(s.nodes, q.parent).value;
      var l, e, f := s'.links[|s.links|], s'.endpoints[|s.endpoints|], s'.endpoints[|s.endpoints| + 1];
      FreePortIsValid(s.nodes, q.parent, UsedPorts(s.links, s.endpoints, q.parent), l.listenerPort);
      AddKeepsShape(s.links, s.endpoints, l, e, f);
    }
  }

  lemma CreateKeepsShape(s: Db, s': Db, q: LinkRequest, ids: FreshIds, adv: string, r: LinkResult)
    requires Shaped(s.links, s.endpoints) && PoolsInRange(s.nodes) && CreateStep(s, s', q, ids, adv, r)
    requires r == LinkCreated ==> q.a != q.b && (q.initiator == q.a || q.initiator == q.b)
    ensures Shaped(s'.links, s'.endpoints)
  {
    if r == LinkCreated {
      var l, a, b := s'.links[|s.links|], s'.endpoints[|s.endpoints|], s'.endpoints[|s.endpoints| + 1];
      FreePortIsValid(s.nodes, l.listener, UsedPorts(s.links, s.endpoints, l.listener), l.listenerPort);
      if q.bidirectional {
        var port := (if l.initiator == l.nodeA then a else b).listenPort;
        FreePortIsValid(s.nodes, q.initiator, UsedPorts(s.links, s.endpoints, q.initiator), port);
      }
      AddKeepsShape(s.links, s.endpoints, l, a, b);
    }
  }

  /** The ports a repair writes: none, the link's, one of the initiator's pool, or the row's old one. */
  lemma RepairedPortsInRange(s: Db, s': Db, l: Link, init: Endpoint, listen: Endpoint, adv: string,
                             dialable: string -> bool, port: int, failed: bool)
    requires Shaped(s.links, s.endpoints) && PoolsInRange(s.nodes) && l in s.links
    requires init in s.endpoints && listen in s.endpoints
             && RepairedWith(s, s', l, init, listen, adv, dialable, port, failed)
    ensures PortInRange(RepairInit(l, init, adv, dialable, port).listenPort)
    ensures PortInRange(RepairListen(l, listen, adv, dialable, port).listenPort)
  {
    assert LinkShaped(l, s.endpoints) && RowShaped(s.links, init) && RowShaped(s.links, listen);
    if Sustainable(l, adv, dialable) && init.listenPort <= 0 && !failed {
      FreePortIsValid(s.nodes, init.nodeId, UsedPorts(s.links, s.endpoints, init.nodeId), port);
    }
  }
}
