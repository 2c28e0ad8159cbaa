/**
 What the node, link and endpoint tables keep through every operation of the
 controller, stated on their contents.
 */
module Tables {
  import opened Prelude
  import opened Model
  import opened ControlTree
  import opened Overlay

  // ----- the control forest -----

  predicate HasId(nodes: seq<Node>, id: NodeId) {
    exists i :: 0 <= i < |nodes| && nodes[i].id == id
  }

  ghost predicate NodesOk(nodes: seq<Node>) {
    && (forall i, j :: 0 <= i < j < |nodes| ==> nodes[i].id != nodes[j].id)
    && (forall i, j :: 0 <= i < j < |nodes| ==> nodes[i].overlayIPv4 != nodes[j].overlayIPv4)
    && (forall n :: n in nodes ==> n.id != "" && PlainAddress(n.overlayIPv4))
  }

  ghost predicate OneController(nodes: seq<Node>) {
    && (exists i :: 0 <= i < |nodes| && nodes[i].isController)
    && (forall i, j :: 0 <= i < j < |nodes| ==> !(nodes[i].isController && nodes[j].isController))
    && (forall n :: n in nodes ==> (n.isController <==> n.parent.None?))
  }

  ghost predicate ParentsExist(nodes: seq<Node>) {
    forall n {:trigger HasId(nodes, n.parent.value)} :: n in nodes && n.parent.Some? ==> HasId(nodes, n.parent.value)
  }

  ghost predicate AllRooted(nodes: seq<Node>) {
    forall n :: n in nodes ==> Rooted(ParentsOf(nodes), n.id)
  }

  /** One controller, the only node without a parent, and every node hangs below it. */
  ghost predicate TreeOk(nodes: seq<Node>) {
    OneController(nodes) && ParentsExist(nodes) && AllRooted(nodes)
  }

  /** The parent map has exactly the non-controller rows. */
  lemma {:induction false} ParentsAre(nodes: seq<Node>, x: NodeId)
    requires forall i, j :: 0 <= i < j < |nodes| ==> nodes[i].id != nodes[j].id
    ensures forall n :: n in nodes && n.id == x ==>
              (x in ParentsOf(nodes) <==> n.parent.Some? && n.parent.value != "")
              && (x in ParentsOf(nodes) ==> ParentsOf(nodes)[x] == n.parent.value)
    ensures x in ParentsOf(nodes) ==> HasId(nodes, x)
  {
    if nodes != [] {
      var k := |nodes| - 1;
      var rest := nodes[..k];
      ParentsAre(rest, x);
      assert !HasId(rest, nodes[k].id) by { assert forall j :: 0 <= j < k ==> rest[j] == nodes[j]; }
      forall n | n in nodes && n.id == x
        ensures (x in ParentsOf(nodes) <==> n.parent.Some? && n.parent.value != "")
        ensures x in ParentsOf(nodes) ==> ParentsOf(nodes)[x] == n.parent.value
      {
        var i :| 0 <= i < |nodes| && nodes[i] == n;
        if i < k { assert rest[i] == n && nodes[i].id != nodes[k].id; }
      }
      if HasId(rest, x) {
        var j :| 0 <= j < |rest| && rest[j].id == x;
        assert nodes[j].id == x;
      }
      if x == nodes[k].id { assert nodes[k].id == x; }
    }
  }

  /** `p` and `q` give the same parents on `ids`, which contains those parents. */
  ghost predicate Agree(p: Parents, q: Parents, ids: set<NodeId>) {
    forall y :: y in ids ==> (y in p <==> y in q) && (y in p ==> p[y] == q[y] && p[y] in ids)
  }

  /** Two maps that agree on a set closed under parents give the same depths there. */
  lemma {:induction false} SameDepth(p: Parents, q: Parents, ids: set<NodeId>, x: NodeId, d: nat)
    requires x in ids && RootAt(p, x, d)
    requires Agree(p, q, ids)
    ensures RootAt(q, x, d)
    decreases d
  {
    if x in p {
      SameDepth(p, q, ids, p[x], d - 1);
    }
  }

  ghost function Ids(nodes: seq<Node>): set<NodeId> {
    set n | n in nodes :: n.id
  }

  lemma IdsAre(nodes: seq<Node>, x: NodeId)
    ensures x in Ids(nodes) <==> HasId(nodes, x)
  {
    if HasId(nodes, x) {
      var i :| 0 <= i < |nodes| && nodes[i].id == x;
      assert nodes[i] in nodes;
    }
  }

  /** Parents of rows are rows. */
  lemma ParentsClosed(nodes: seq<Node>, x: NodeId)
    requires NodesOk(nodes) && TreeOk(nodes) && x in Ids(nodes) && x in ParentsOf(nodes)
    ensures ParentsOf(nodes)[x] in Ids(nodes)
  {
    var n :| n in nodes && n.id == x;
    ParentsAre(nodes, x);
    IdsAre(nodes, n.parent.value);
  }

  lemma EnrollParents(nodes: seq<Node>, n: Node)
    requires NodesOk(nodes) && TreeOk(nodes)
    requires !HasId(nodes, n.id) && n.parent.Some? && HasId(nodes, n.parent.value)
    ensures ParentsOf(nodes + [n]) == ParentsOf(nodes)[n.id := n.parent.value]
    ensures Agree(ParentsOf(nodes), ParentsOf(nodes + [n]), Ids(nodes))
  {
    var more := nodes + [n];
    var p := ParentsOf(nodes);
    assert more[..|nodes|] == nodes;
    assert n.parent.value != "" by { var i :| 0 <= i < |nodes|
                                    && nodes[i].id == n.parent.value; assert nodes[i] in nodes; }
    IdsAre(nodes, n.id);
    forall y | y in Ids(nodes) && y in p ensures p[y] in Ids(nodes) { ParentsClosed(nodes, y); }
  }

  lemma EnrollRooted(nodes: seq<Node>, n: Node, m: Node)
    requires NodesOk(nodes) && TreeOk(nodes)
    requires !HasId(nodes, n.id) && n.parent.Some? && HasId(nodes, n.parent.value)
    requires m in nodes || m == n
    ensures Rooted(ParentsOf(nodes + [n]), m.id)
  {
    EnrollParents(nodes, n);
    var q := ParentsOf(nodes + [n]);
    if m in nodes {
      OldRooted(nodes, q, m.id);
    } else {
      IdsAre(nodes, n.parent.value);
      OldRooted(nodes, q, n.parent.value);
      var d: nat :| RootAt(q, n.parent.value, d);
      assert RootAt(q, n.id, d + 1);
    }
  }

  lemma EnrollKeepsTree(nodes: seq<Node>, n: Node)
    requires NodesOk(nodes) && TreeOk(nodes)
    requires !HasId(nodes, n.id) && n.id != "" && !n.isController
    requires n.parent.Some? && HasId(nodes, n.parent.value)
    ensures TreeOk(nodes + [n])
  {
    forall m | m in nodes + [n] ensures Rooted(ParentsOf(nodes + [n]), m.id) {
      EnrollRooted(nodes, n, m);
    }
    forall m | m in nodes + [n] && m.parent.Some? ensures HasId(nodes + [n], m.parent.value) {
      StillHasId(nodes, n, m.parent.value);
    }
    EnrollController(nodes, n);
  }

  lemma EnrollController(nodes: seq<Node>, n: Node)
    requires OneController(nodes) && !n.isController && n.parent.Some?
    ensures OneController(nodes + [n])
  {
    var c :| 0 <= c < |nodes| && nodes[c].isController;
    assert (nodes + [n])[c].isController;
  }

  lemma OldRooted(nodes: seq<Node>, q: Parents, x: NodeId)
    requires TreeOk(nodes) && x in Ids(nodes)
    requires Agree(ParentsOf(nodes), q, Ids(nodes))
    ensures Rooted(q, x)
  {
    var n :| n in nodes && n.id == x;
    var d: nat :| RootAt(ParentsOf(nodes), x, d);
    SameDepth(ParentsOf(nodes), q, Ids(nodes), x, d);
  }

  /** All rows but those of `id`, in order. */
  function WithoutNode(nodes: seq<Node>, id: NodeId): (r: seq<Node>)
    ensures forall n :: n in r <==> n in nodes && n.id != id
  {
    Keep(nodes, (n: Node) => n.id != id)
  }

  lemma WithoutNodeOrder(nodes: seq<Node>, id: NodeId, i: nat, j: nat) returns (a: nat, b: nat)
    requires i < j < |WithoutNode(nodes, id)|
    ensures a < b < |nodes| && nodes[a] == WithoutNode(nodes, id)[i] && nodes[b] == WithoutNode(nodes, id)[j]
  {
    a, b := KeepOrder(nodes, (n: Node) => n.id != id, i, j);
  }

  lemma WithoutNodeKeepsOk(nodes: seq<Node>, id: NodeId)
    requires NodesOk(nodes)
    ensures NodesOk(WithoutNode(nodes, id))
  {
    var r := WithoutNode(nodes, id);
    forall i, j | 0 <= i < j < |r| ensures r[i].id != r[j].id && r[i].overlayIPv4 != r[j].overlayIPv4 {
      var a, b := WithoutNodeOrder(nodes, id, i, j);
    }
  }

  lemma WithoutNodeController(nodes: seq<Node>, id: NodeId)
    requires OneController(nodes) && forall n :: n in nodes && n.id == id ==> !n.isController
    ensures OneController(WithoutNode(nodes, id))
  {
    var r := WithoutNode(nodes, id);
    forall i, j | 0 <= i < j < |r| ensures !(r[i].isController && r[j].isController) {
      var a, b := WithoutNodeOrder(nodes, id, i, j);
    }
    var c :| 0 <= c < |nodes| && nodes[c].isController;
    assert nodes[c] in nodes && nodes[c] in r;
  }

  lemma DeleteParents(nodes: seq<Node>, id: NodeId)
    requires NodesOk(nodes) && TreeOk(nodes)
    requires forall n :: n in nodes ==> n.parent != Some(id)
    ensures Agree(ParentsOf(nodes), ParentsOf(WithoutNode(nodes, id)), Ids(WithoutNode(nodes, id)))
  {
    var fewer := WithoutNode(nodes, id);
    var p, q := ParentsOf(nodes), ParentsOf(fewer);
    WithoutNodeKeepsOk(nodes, id);
    var ids := Ids(fewer);
    forall y | y in ids ensures (y in p <==> y in q) && (y in p ==> p[y] == q[y] && p[y] in ids) {
      var n :| n in fewer && n.id == y;
      ParentsAre(nodes, y);
      ParentsAre(fewer, y);
      if y in p { KeptParent(nodes, id, n); }
    }
  }

  lemma KeptParent(nodes: seq<Node>, id: NodeId, n: Node)
    requires TreeOk(nodes) && n in nodes && n.parent.Some? && n.parent != Some(id)
    ensures HasId(WithoutNode(nodes, id), n.parent.value) && n.parent.value in Ids(WithoutNode(nodes, id))
  {
    assert HasId(nodes, n.parent.value);
    var m :| 0 <= m < |nodes| && nodes[m].id == n.parent.value;
    assert nodes[m] in WithoutNode(nodes, id);
    IdsAre(WithoutNode(nodes, id), n.parent.value);
  }

  /** Deleting a childless node that is not the controller leaves a tree. */
  lemma DeleteKeepsTree(nodes: seq<Node>, id: NodeId)
    requires NodesOk(nodes) && TreeOk(nodes)
    requires forall n :: n in nodes && n.id == id ==> !n.isController
    requires forall n :: n in nodes ==> n.parent != Some(id)
    ensures TreeOk(WithoutNode(nodes, id))
  {
    var fewer := WithoutNode(nodes, id);
    DeleteParents(nodes, id);
    WithoutNodeKeepsOk(nodes, id);
    forall n | n in fewer ensures Rooted(ParentsOf(fewer), n.id) {
      var d: nat :| RootAt(ParentsOf(nodes), n.id, d);
      assert n.id in Ids(fewer);
      SameDepth(ParentsOf(nodes), ParentsOf(fewer), Ids(fewer), n.id, d);
    }
    forall n | n in fewer && n.parent.Some? ensures HasId(fewer, n.parent.value) { KeptParent(nodes, id, n); }
    WithoutNodeController(nodes, id);
  }

  // ----- links and endpoints -----

  ghost predicate LinkShape(nodes: seq<Node>, l: Link) {
    && HasId(nodes, l.nodeA) && HasId(nodes, l.nodeB) && l.nodeA != l.nodeB
    && ((l.initiator == l.nodeA && l.listener == l.nodeB) || (l.initiator == l.nodeB && l.listener == l.nodeA))
  }

  ghost predicate LinksOk(nodes: seq<Node>, links: seq<Link>) {
    && (forall i, j :: 0 <= i < j < |links| ==> links[i].id != links[j].id)
    && (forall i, j :: 0 <= i < j < |links| ==> !Joins(links[j], links[i].nodeA, links[i].nodeB))
    && (forall l :: l in links ==> LinkShape(nodes, l))
  }

  ghost predicate EndpointOf(links: seq<Link>, e: Endpoint) {
    exists i :: 0 <= i < |links| && links[i].id == e.linkId && e.nodeId == if e.isInitiator then links[i].initiator
        else links[i].listener
  }

  /** Each endpoint belongs to a link, at the node of its role, and a link has one endpoint per role. */
  ghost predicate EndpointsOk(links: seq<Link>, eps: seq<Endpoint>) {
    && (forall i, j :: 0 <= i < j < |eps| ==> eps[i].id != eps[j].id)
    && (forall i, j :: 0 <= i < j < |eps| ==> !(eps[i].linkId == eps[j].linkId
                                                && eps[i].isInitiator == eps[j].isInitiator))
    && (forall e :: e in eps ==> EndpointOf(links, e))
  }

  // ----- ports -----

  ghost predicate LinkClaims(l: Link, node: NodeId, port: int) {
    l.listener == node && l.listenerPort == port
  }

  ghost predicate EndpointClaims(e: Endpoint, node: NodeId, port: int) {
    e.nodeId == node && e.listenPort == port
  }

  /** Link `lid` uses the positive port `port` of `node`, in its own row or an endpoint row. */
  ghost predicate Owns(links: seq<Link>, eps: seq<Endpoint>, lid: LinkId, node: NodeId, port: int) {
    port > 0 && ((exists l :: l in links && l.id == lid && LinkClaims(l, node, port))
                 || (exists e :: e in eps && e.linkId == lid && EndpointClaims(e, node, port)))
  }

  ghost predicate PortsUnique(links: seq<Link>, eps: seq<Endpoint>) {
    forall a, b, node, port :: Owns(links, eps, a, node, port) && Owns(links, eps, b, node, port) ==> a == b
  }

  function UsedPorts(links: seq<Link>, eps: seq<Endpoint>, node: NodeId): set<int> {
    (set l | l in links && l.listener == node :: l.listenerPort)
    + (set e | e in eps && e.nodeId == node && e.listenPort > 0 :: e.listenPort)
  }

  lemma UsedIffOwned(links: seq<Link>, eps: seq<Endpoint>, node: NodeId, port: int)
    requires port > 0
    ensures port in UsedPorts(links, eps, node) <==> exists lid :: Owns(links, eps, lid, node, port)
  {
    if port in UsedPorts(links, eps, node) {
      if l :| l in links && l.listener == node && l.listenerPort == port {
        assert Owns(links, eps, l.id, node, port);
      } else {
        var e :| e in eps && e.nodeId == node && e.listenPort == port;
        assert Owns(links, eps, e.linkId, node, port);
      }
    }
    if lid :| Owns(links, eps, lid, node, port) {
      if l :| l in links && l.id == lid && LinkClaims(l, node, port) {
      } else {
        var e :| e in eps && e.linkId == lid && EndpointClaims(e, node, port);
      }
    }
  }

  /** The claims of `links'` and `eps'` are old ones, except that link `lid` may claim ports nobody used. */
  ghost predicate ClaimsGrow(links: seq<Link>, eps: seq<Endpoint>, links': seq<Link>, eps': seq<Endpoint>,
                             lid: LinkId) {
    forall a, node, port :: Owns(links', eps', a, node, port) ==>
      Owns(links, eps, a, node, port) || (a == lid && port !in UsedPorts(links, eps, node))
  }

  lemma GrowKeepsPorts(links: seq<Link>, eps: seq<Endpoint>, links': seq<Link>, eps': seq<Endpoint>, lid: LinkId)
    requires PortsUnique(links, eps) && ClaimsGrow(links, eps, links', eps', lid)
    ensures PortsUnique(links', eps')
  {
    forall a, b, node, port | Owns(links', eps', a, node, port) && Owns(links', eps', b, node, port) ensures a == b {
      UsedIffOwned(links, eps, node, port);
    }
  }

  /** A new link whose listener port, and whose endpoints' ports, were free at their nodes. */
  lemma AddLinkKeepsPorts(links: seq<Link>, eps: seq<Endpoint>, l: Link, e: Endpoint, f: Endpoint)
    requires PortsUnique(links, eps) && e.linkId == l.id && f.linkId == l.id
    requires l.listenerPort !in UsedPorts(links, eps, l.listener)
    requires e.listenPort !in UsedPorts(links, eps, e.nodeId) || e.listenPort <= 0
    requires f.listenPort !in UsedPorts(links, eps, f.nodeId) || f.listenPort <= 0
    ensures PortsUnique(links + [l], eps + [e, f])
  {
    forall a, node, port | Owns(links + [l], eps + [e, f], a, node, port)
      ensures Owns(links, eps, a, node, port) || (a == l.id && port !in UsedPorts(links, eps, node))
    {
      if k :| k in links + [l] && k.id == a && LinkClaims(k, node, port) {
        assert k in links || k == l;
      } else {
        var k :| k in eps + [e, f] && k.linkId == a && EndpointClaims(k, node, port);
        assert k in eps || k == e || k == f;
      }
    }
    GrowKeepsPorts(links, eps, links + [l], eps + [e, f], l.id);
  }

  lemma FewerKeepPorts(links: seq<Link>, eps: seq<Endpoint>, links': seq<Link>, eps': seq<Endpoint>)
    requires PortsUnique(links, eps)
    requires forall l :: l in links' ==> l in links
    requires forall e :: e in eps' ==> e in eps
    ensures PortsUnique(links', eps')
  {
    forall a, node, port | Owns(links', eps', a, node, port) ensures Owns(links, eps, a, node, port) {
    }
    GrowKeepsPorts(links, eps, links', eps', "");
  }

  // ----- deleting links -----

  /** All links but those in `ids`, in order. */
  function WithoutLinks(links: seq<Link>, ids: set<LinkId>): (r: seq<Link>)
    ensures forall l :: l in r <==> l in links && l.id !in ids
  {
    Keep(links, (l: Link) => l.id !in ids)
  }

  /** All endpoint rows but those of the links in `ids`, in order. */
  function WithoutEndpoints(eps: seq<Endpoint>, ids: set<LinkId>): (r: seq<Endpoint>)
    ensures forall e :: e in r <==> e in eps && e.linkId !in ids
  {
    Keep(eps, (e: Endpoint) => e.linkId !in ids)
  }

  lemma DropKeepsLinks(nodes: seq<Node>, links: seq<Link>, ids: set<LinkId>)
    requires LinksOk(nodes, links)
    ensures LinksOk(nodes, WithoutLinks(links, ids))
  {
    var r := WithoutLinks(links, ids);
    forall i, j | 0 <= i < j < |r| ensures r[i].id != r[j].id && !Joins(r[j], r[i].nodeA, r[i].nodeB) {
      var a, b := KeepOrder(links, (l: Link) => l.id !in ids, i, j);
    }
  }

  lemma DropKeepsEndpoints(links: seq<Link>, eps: seq<Endpoint>, ids: set<LinkId>)
    requires EndpointsOk(links, eps)
    ensures EndpointsOk(WithoutLinks(links, ids), WithoutEndpoints(eps, ids))
  {
    var r, ls := WithoutEndpoints(eps, ids), WithoutLinks(links, ids);
    forall i, j | 0 <= i < j < |r|
      ensures r[i].id != r[j].id && !(r[i].linkId == r[j].linkId && r[i].isInitiator == r[j].isInitiator)
    {
      var a, b := KeepOrder(eps, (e: Endpoint) => e.linkId !in ids, i, j);
    }
    forall e | e in r ensures EndpointOf(ls, e) {
      var i :| 0 <= i < |links| && links[i].id == e.linkId && e.nodeId == if e.isInitiator then links[i].initiator
          else links[i].listener;
      assert links[i] in ls;
    }
  }

  /** Once its links are gone, no link names the deleted node. */
  lemma DeleteNodeKeepsLinks(nodes: seq<Node>, links: seq<Link>, id: NodeId)
    requires LinksOk(nodes, links) && forall l :: l in links ==> !Touches(l, id)
    ensures LinksOk(WithoutNode(nodes, id), links)
  {
    forall l | l in links ensures LinkShape(WithoutNode(nodes, id), l) {
      KeptId(nodes, id, l.nodeA);
      KeptId(nodes, id, l.nodeB);
    }
  }

  lemma KeptId(nodes: seq<Node>, id: NodeId, x: NodeId)
    requires HasId(nodes, x) && x != id
    ensures HasId(WithoutNode(nodes, id), x)
  {
    var i :| 0 <= i < |nodes| && nodes[i].id == x;
    assert nodes[i] in WithoutNode(nodes, id);
  }

  /** A pool of UDP ports, possibly empty. */
  predicate PoolInRange(n: Node) {
    0 < n.portStart && n.portEnd <= 65535
  }

  ghost predicate PoolsInRange(nodes: seq<Node>) {
    forall n :: n in nodes ==> PoolInRange(n)
  }

  // ----- everything together -----

  ghost predicate TablesOk(nodes: seq<Node>, links: seq<Link>, eps: seq<Endpoint>) {
    NodesOk(nodes) && TreeOk(nodes) && LinksOk(nodes, links) && EndpointsOk(links, eps) && PortsUnique(links, eps)
  }

  lemma MoreNodesKeepLinks(nodes: seq<Node>, links: seq<Link>, n: Node)
    requires LinksOk(nodes, links)
    ensures LinksOk(nodes + [n], links)
  {
    forall l | l in links ensures LinkShape(nodes + [n], l) {
      StillHasId(nodes, n, l.nodeA);
      StillHasId(nodes, n, l.nodeB);
    }
  }

  lemma StillHasId(nodes: seq<Node>, n: Node, id: NodeId)
    requires HasId(nodes, id)
    ensures HasId(nodes + [n], id)
  {
    var i :| 0 <= i < |nodes| && nodes[i].id == id;
    assert (nodes + [n])[i].id == id;
  }

  lemma AddLinkKeepsLinks(nodes: seq<Node>, links: seq<Link>, l: Link)
    requires LinksOk(nodes, links) && LinkShape(nodes, l)
    requires forall k :: k in links ==> k.id != l.id && !Joins(k, l.nodeA, l.nodeB)
    ensures LinksOk(nodes, links + [l])
  {
    var more := links + [l];
    forall i, j | 0 <= i < j < |more| ensures more[i].id != more[j].id
           && !Joins(more[j], more[i].nodeA, more[i].nodeB) {
      assert more[i] in links;
    }
  }

  lemma AddEndpointsKeepsEndpoints(links: seq<Link>, eps: seq<Endpoint>, l: Link, e: Endpoint, f: Endpoint)
    requires EndpointsOk(links, eps)
    requires forall k :: k in links ==> k.id != l.id
    requires forall k :: k in eps ==> k.id != e.id && k.id != f.id
    requires e.id != f.id && e.linkId == l.id && f.linkId == l.id && e.isInitiator != f.isInitiator
    requires e.nodeId == (if e.isInitiator then l.initiator else l.listener)
    requires f.nodeId == (if f.isInitiator then l.initiator else l.listener)
    ensures EndpointsOk(links + [l], eps + [e, f])
  {
    var more := eps + [e, f];
    forall k | k in eps ensures k.linkId != l.id && EndpointOf(links + [l], k) {
      var i :| 0 <= i < |links| && links[i].id == k.linkId && k.nodeId == if k.isInitiator then links[i].initiator
          else links[i].listener;
      assert links[i] in links && (links + [l])[i] == links[i];
    }
    assert (links + [l])[|links|] == l;
    forall k | k in more ensures EndpointOf(links + [l], k) {
      assert k in eps || k == e || k == f;
    }
    forall i, j | 0 <= i < j < |more|
      ensures more[i].id != more[j].id
      ensures !(more[i].linkId == more[j].linkId && more[i].isInitiator == more[j].isInitiator)
    {
      if i < |eps| { assert more[i] == eps[i] && eps[i] in eps; }
      if j < |eps| { assert more[j] == eps[j]; }
    }
  }
}
