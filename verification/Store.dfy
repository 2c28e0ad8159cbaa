/**
 The controller's database and the handlers that change it: internal/storage/nodes.go,
 internal/storage/links.go and the row-writing parts of internal/controller.
 */
module Store {
  import opened Prelude
  import opened Model
  import opened Tables
  import opened Repair
  import opened Enrolment
  import ControlTree
  import Overlay
  import Routing

  // ----- reading rows -----

  /** The first row with this id. */
  function FindNode(nodes: seq<Node>, id: NodeId): (r: Option<Node>)
    ensures r.Some? <==> HasId(nodes, id)
    ensures r.Some? ==> r.value in nodes && r.value.id == id
  {
    if nodes == [] then None
    else if nodes[0].id == id then Some(nodes[0])
    else
      var r := FindNode(nodes[1..], id);
      assert HasId(nodes, id) <==> HasId(nodes[1..], id) by {
        if HasId(nodes, id) { var i :| 0 <= i < |nodes| && nodes[i].id == id; assert nodes[1..][i - 1].id == id; }
        if HasId(nodes[1..], id) { var i :| 0 <= i < |nodes| - 1
                                  && nodes[1..][i].id == id; assert nodes[i + 1].id == id; }
      }
      r
  }

  function FindLink(links: seq<Link>, id: LinkId): (r: Option<Link>)
    ensures r.Some? ==> r.value in links && r.value.id == id
    ensures r.None? ==> forall l :: l in links ==> l.id != id
  {
    if links == [] then None else if links[0].id == id then Some(links[0]) else FindLink(links[1..], id)
  }

  predicate LinkBetween(links: seq<Link>, a: NodeId, b: NodeId) {
    exists l :: l in links && Joins(l, a, b)
  }

  function AddressesOf(addresses: map<NodeId, seq<Address>>, id: NodeId): seq<Address> {
    if id in addresses then addresses[id] else []
  }

  /** The chain of parent columns above `id` ends, after `d` rows, in one without a parent. */
  predicate DepthOf(nodes: seq<Node>, id: NodeId, d: nat)
    decreases d
  {
    var r := FindNode(nodes, id);
    r.Some? && match r.value.parent
               case None => d == 0
               case Some(y) => d > 0 && DepthOf(nodes, y, d - 1)
  }

  /** nodePublicAdvertise. */
  function AdvertiseAt(addresses: map<NodeId, seq<Address>>, dialable: string -> bool, id: NodeId): string {
    Advertise(AddressesOf(addresses, id), dialable)
  }

  // ----- requests -----

  /** Row ids drawn by the database layer (random UUIDs). */
  datatype FreshIds = FreshIds(node: NodeId, link: LinkId, first: string, second: string)

  datatype LinkRequest = LinkRequest(a: NodeId, b: NodeId, initiator: NodeId, listenerAddress: string, enabled: bool,
                                     bidirectional: bool)

  datatype LinkResult = LinkCreated | BadRequest | LinkExists | NodeMissing | NotDialable | NoFreePort | RowRejected

  datatype DeleteResult = Deleted | NotFound | IsController | HasChildren

  // ----- the least free port -----

  ghost predicate LeastFree(n: Node, used: set<int>, port: int) {
    && n.portStart <= port <= n.portEnd && port !in used
    && forall q :: n.portStart <= q < port ==> q in used
  }

  /** The row whose pool AllocateWGPort searches: a node that nobody can dial has one port. */
  function CutRow(n: Node, public: bool): Node {
    if !public && n.portEnd > n.portStart then n.(portEnd := n.portStart) else n
  }

  ghost predicate PoolFull(n: Node, used: set<int>) {
    forall q :: n.portStart <= q <= n.portEnd ==> q in used
  }

  /** The three tables whose contents depend on each other. */
  datatype Db = Db(nodes: seq<Node>, links: seq<Link>, endpoints: seq<Endpoint>)

  ghost predicate DbOk(s: Db) {
    TablesOk(s.nodes, s.links, s.endpoints)
  }

  // ----- the controller -----

  class Controller {
    const dialable: string -> bool
    const overlay: Option<Overlay.Cidr4>
    const publicAddress: string
    const defaultPort: int
    var nodes: seq<Node>
    var links: seq<Link>
    var endpoints: seq<Endpoint>
    var addresses: map<NodeId, seq<Address>>
    var desired: map<NodeId, NodeState>

    ghost predicate Config()
      reads this
    {
      !dialable("") && (overlay.Some? ==> Overlay.ValidCidr(overlay.value))
    }

    function Rows(): Db
      reads this
    {
      Db(nodes, links, endpoints)
    }

    function AdvertiseOf(id: NodeId): string
      reads this
    {
      AdvertiseAt(addresses, dialable, id)
    }

    predicate IsPublic(id: NodeId)
      reads this
    {
      HasPublic(AddressesOf(addresses, id), dialable)
    }

    /** An empty database. */
    constructor (dialable: string -> bool, overlay: Option<Overlay.Cidr4>, publicAddress: string, defaultPort: int)
      requires !dialable("") && (overlay.Some? ==> Overlay.ValidCidr(overlay.value))
      ensures Config() && nodes == [] && links == [] && endpoints == [] && addresses == map[] && desired == map[]
      ensures this.dialable == dialable && this.overlay == overlay
    {
      this.dialable, this.overlay, this.publicAddress, this.defaultPort := dialable, overlay, publicAddress,
          defaultPort;
      nodes, links, endpoints, addresses, desired := [], [], [], map[], map[];
    }

    /** BootstrapController: the first row is the controller, the root of the control tree. */
    method Bootstrap(id: NodeId, publicKey: string, privateKey: string, portStart: int, portEnd: int) returns (ok: bool)
      requires Config() && nodes == [] && links == [] && endpoints == [] && id != ""
      modifies this`nodes, this`addresses
      ensures ok <==> overlay.Some? && Overlay.CandidateCount(overlay.value) >= 1
      ensures ok ==> DbOk(Rows())
                     && nodes == [Node(id, Overlay.Render(overlay.value, 1), publicKey, privateKey, None, true,
                                       portStart, portEnd)]
                     && addresses == old(addresses)[id := [Address(publicAddress, "public")]]
      ensures !ok ==> nodes == [] && addresses == old(addresses)
    {
      var used: set<string> := {};
      var ip, found := Overlay.AllocateOverlayIPv4(overlay, used);
      FirstCandidate(overlay, used, ip);
      if !found {
        return false;
      }
      nodes := [Node(id, ip, publicKey, privateKey, None, true, portStart, portEnd)];
      addresses := addresses[id := [Address(publicAddress, "public")]];
      FirstNodeOk(nodes[0]);
      return true;
    }

    /** NodeDepth: the true number of parents, or an error when it exceeds 1000 or a row is missing. */
    method NodeDepth(id: NodeId) returns (depth: nat, ok: bool)
      ensures ok ==> DepthOf(nodes, id, depth) && depth <= 1000
      ensures !ok ==> depth == 0 && forall d: nat :: d <= 1000 ==> !DepthOf(nodes, id, d)
    {
      depth := 0;
      var cur := id;
      while true
        invariant depth <= 1000
        invariant forall d: nat :: DepthOf(nodes, id, d) <==> d >= depth && DepthOf(nodes, cur, d - depth)
        decreases 1001 - depth
      {
        var n := FindNode(nodes, cur);
        if n.None? {
          return 0, false;
        }
        if n.value.parent.None? {
          return depth, true;
        }
        depth := depth + 1;
        cur := n.value.parent.value;
        if depth > 1000 {
          return 0, false;
        }
      }
    }

    /** AllocateWGPort: the least port of the node's pool that no link or endpoint row uses there. */
    method AllocateWGPort(id: NodeId) returns (port: int, ok: bool)
      modifies this`nodes
      ensures nodes == ShrinkPool(old(nodes), id, old(IsPublic(id)))
      ensures ok <==> HasId(old(nodes), id) && !PoolFull(CutRow(FindNode(old(nodes), id).value, old(IsPublic(id))),
                                                         UsedPorts(links, endpoints, id))
      ensures ok ==> FreeAt(old(Rows()), id, old(IsPublic(id)), port)
      ensures !ok ==> NoneFreeAt(Rows(), id)
      ensures ok && !old(IsPublic(id)) ==> port == FindNode(old(nodes), id).value.portStart
    {
      var n := FindNode(nodes, id);
      var public := IsPublic(id);
      if n.None? {
        assert ShrinkPool(nodes, id, public) == nodes by {
          forall i | 0 <= i < |nodes| ensures nodes[i].id != id { assert nodes[i].id == id ==> HasId(nodes, id); }
        }
        return 0, false;
      }
      ShrunkRow(nodes, id, public, id);
      nodes := ShrinkPool(nodes, id, public);
      var row := FindNode(nodes, id).value;
      var used := CollectPorts(id);
      port, ok := FirstUnused(row.portStart, row.portEnd, used);
      PoolsKeepIds(old(nodes), nodes, id);
    }

    static method FirstUnused(start: int, end: int, used: set<int>) returns (port: int, ok: bool)
      ensures ok ==> start <= port <= end && port !in used && forall q :: start <= q < port ==> q in used
      ensures !ok ==> forall q :: start <= q <= end ==> q in used
    {
      port := start;
      while port <= end
        invariant port >= start
        invariant forall q :: start <= q < port ==> q in used
        decreases end + 1 - port
      {
        if port !in used {
          return port, true;
        }
        port := port + 1;
      }
      return 0, false;
    }

    /** The two queries of AllocateWGPort, row by row. */
    method CollectPorts(id: NodeId) returns (used: set<int>)
      ensures used == UsedPorts(links, endpoints, id)
    {
      used := {};
      for i := 0 to |links|
        invariant used == UsedPorts(links[..i], [], id)
      {
        TakeNext(links, i);
        if links[i].listener == id {
          used := used + {links[i].listenerPort};
        }
      }
      TakeAll(links);
      for i := 0 to |endpoints|
        invariant used == UsedPorts(links, endpoints[..i], id)
      {
        TakeNext(endpoints, i);
        if endpoints[i].nodeId == id && endpoints[i].listenPort > 0 {
          used := used + {endpoints[i].listenPort};
        }
      }
      TakeAll(endpoints);
    }

    /** CreateNode and AddNodeAddress. */
    method InsertNode(node: Node, adv: string, kind: string)
      modifies this`nodes, this`addresses
      ensures nodes == old(nodes) + [node]
      ensures addresses == if adv == "" then old(addresses)
                           else old(addresses)[node.id := AddressesOf(old(addresses), node.id) + [Address(adv, kind)]]
    {
      nodes := nodes + [node];
      if adv != "" {
        addresses := addresses[node.id := AddressesOf(addresses, node.id) + [Address(adv, kind)]];
      }
    }

    /** CreateLink followed by two CreateLinkEndpoint. */
    method InsertLink(l: Link, e: Endpoint, f: Endpoint)
      modifies this`links, this`endpoints
      ensures links == old(links) + [l] && endpoints == old(endpoints) + [e, f]
    {
      links := links + [l];
      endpoints := endpoints + [e, f];
    }

    /** The row-writing part of handleEnroll: a node under its parent, and the link over which it dials the parent. */
    method Enroll(q: EnrollRequest, ids: FreshIds) returns (r: EnrollResult)
      requires Config() && !HasId(nodes, ids.node)
      modifies this`nodes, this`links, this`endpoints, this`addresses
      ensures EnrollOutcome(old(Rows()), Rows(), q, ids, overlay, dialable, defaultPort, IsPublic(q.parent), r)
      ensures Refusal(r) ==> addresses == old(addresses)
      ensures !Refusal(r) ==> LinkOutcome(old(links), Rows(), q.parent,
                                          EnrollListenerAddress(AddressesOf(addresses, q.parent), publicAddress,
                                                                dialable), r)
    {
      r := EnrollNode(q, ids);
      if r != Enrolled {
        return;
      }
      ghost var row := nodes[|old(nodes)|];
      StillThere(old(nodes), row, q.parent);
      r := LinkToParent(FindNode(nodes, q.parent).value, q, ids);
      NewRowUncut(old(nodes), row, q.parent, IsPublic(q.parent));
    }

    /** The first half of handleEnroll: address, port pool, node row. */
    method EnrollNode(q: EnrollRequest, ids: FreshIds) returns (r: EnrollResult)
      requires Config()
      modifies this`nodes, this`addresses
      ensures r == Enrolled || Refusal(r)
      ensures Refusal(r) ==> Rows() == old(Rows()) && addresses == old(addresses)
      ensures Refusal(r) ==> EnrollRefused(old(nodes), q, overlay, dialable, defaultPort, r)
      ensures r == Enrolled ==> |nodes| == |old(nodes)| + 1 && HasId(old(nodes), q.parent)
      ensures r == Enrolled ==> nodes == old(nodes) + [nodes[|old(nodes)|]]
                                && EnrolledRow(old(nodes), nodes[|old(nodes)|], q, ids.node, overlay, dialable,
                                               defaultPort)
    {
      var refusal := TokenRefusal(q);
      if refusal.Some? {
        return refusal.value;
      }
      var parent := FindNode(nodes, q.parent);
      if parent.None? {
        return ParentMissing;
      }
      var ip, found := Overlay.AllocateOverlayIPv4(overlay, Taken(nodes));
      if !found {
        return PoolExhausted;
      }
      refusal := KeyRefusal(q);
      if refusal.Some? {
        return refusal.value;
      }
      var pool := EnrollPool(q, EnrollsPublic(q, dialable), parent.value.portStart, parent.value.portEnd, defaultPort);
      if pool.None? {
        return BadPortRange;
      }
      var node := Node(ids.node, ip, KeysOf(q).public, KeysOf(q).private, Some(q.parent), false, pool.value.0,
                       pool.value.1);
      InsertNode(node, Routing.TrimSpace(q.advertise), EnrollKind(q));
      return Enrolled;
    }

    /** The second half of handleEnroll; without a free port the new node stays, unlinked. */
    method LinkToParent(parent: Node, q: EnrollRequest, ids: FreshIds) returns (r: EnrollResult)
      requires HasId(nodes, parent.id) && KeyRefusal(q).None?
      modifies this`nodes, this`links, this`endpoints
      ensures nodes == ShrinkPool(old(nodes), parent.id, old(IsPublic(parent.id)))
      ensures r == Enrolled || r == NoPortForLink
      ensures LinkStep(old(links), old(endpoints), links, endpoints,
                       CutRow(FindNode(old(nodes), parent.id).value, IsPublic(parent.id)), ids, r)
      ensures LinkOutcome(old(links), Rows(), parent.id, EnrollListenerAddress(AddressesOf(addresses, parent.id),
                                                                               publicAddress, dialable), r)
    {
      PoolsKeepIds(nodes, ShrinkPool(nodes, parent.id, IsPublic(parent.id)), parent.id);
      var port, ok := AllocateWGPort(parent.id);
      if !ok {
        return NoPortForLink;
      }
      var listenerAddress := EnrollListenerAddress(AddressesOf(addresses, parent.id), publicAddress, dialable);
      var link, e, f := EnrollmentRows(parent, q, ids, listenerAddress, port);
      InsertLink(link, e, f);
      return Enrolled;
    }

    /** The child dials, the parent listens. */
    static method EnrollmentRows(parent: Node, q: EnrollRequest, ids: FreshIds, address: string, port: int)
      returns (link: Link, e: Endpoint, f: Endpoint)
      requires KeyRefusal(q).None?
      ensures EnrollmentShape(link, e, f, parent.id, ids) && link.listenerPort == port && DialsAt(link, address)
    {
      link := Link(ids.link, parent.id, ids.node, ids.node, parent.id, address, port,
                   InterfaceName(parent.id, ids.node), InterfaceName(ids.node, parent.id), true, false, Active);
      var toParent := HostPort(address, port);
      e := Endpoint(ids.first, link.id, parent.id, link.ifaceA, port, None, KeysOf(q).public, 0, false);
      f := Endpoint(ids.second, link.id, ids.node, link.ifaceB, 0, Some(toParent), parent.publicKey, 25, true);
    }

    /** The checks of handleCreateLink, which also pick the listener and its address. */
    method CheckLink(q: LinkRequest) returns (r: LinkResult, listener: NodeId, listenAdv: string)
      ensures r != NoFreePort && r != RowRejected
      ensures r != LinkCreated ==> LinkRefused(Rows(), q, addresses, dialable, r)
      ensures r == LinkCreated ==> LinkAccepted(Rows(), q, addresses, dialable) && listener == ListenerOf(q)
                                   && listenAdv == ListenAddressFor(q, addresses, dialable)
    {
      listener, listenAdv := q.b, q.listenerAddress;
      if q.a == "" || q.b == "" || q.initiator == "" || q.listenerAddress == "" {
        r := BadRequest;
        return;
      }
      if LinkBetween(links, q.a, q.b) {
        r := LinkExists;
        return;
      }
      if q.initiator == q.b {
        listener := q.a;
      }
      if FindNode(nodes, q.a).None? || FindNode(nodes, q.b).None? {
        r := NodeMissing;
        return;
      }
      var initAdv := AdvertiseOf(q.initiator);
      if !dialable(listenAdv) {
        var alt := AdvertiseOf(listener);
        if alt != "" {
          listenAdv := alt;
        }
      }
      if q.bidirectional && (!dialable(listenAdv) || initAdv == "") {
        r := NotDialable;
        return;
      }
      r := LinkCreated;
    }

    /** A port for the listener and, if both sides dial, one for the initiator. */
    method PlanPorts(q: LinkRequest, listener: NodeId) returns (r: LinkResult, portL: int, portI: int)
      modifies this`nodes
      ensures SameButPools(old(nodes), nodes)
      ensures r == LinkCreated || r == NoFreePort
      ensures r == LinkCreated ==> FreeAt(old(Rows()), listener, IsPublic(listener), portL)
      ensures r == LinkCreated ==> if q.bidirectional
                                   then FreeAt(old(Rows()), q.initiator, IsPublic(q.initiator), portI) else portI == 0
      ensures r == NoFreePort ==> NoneFreeAt(Rows(), listener) || (q.bidirectional && NoneFreeAt(Rows(), q.initiator))
    {
      portI := 0;
      var ok: bool;
      portL, ok := AllocateWGPort(listener);
      if !ok {
        r := NoFreePort;
        return;
      }
      if q.bidirectional {
        ghost var mid := nodes;
        portI, ok := AllocateWGPort(q.initiator);
        if !ok {
          r := NoFreePort;
          return;
        }
        StillFree(old(nodes), mid, links, endpoints, listener, IsPublic(listener), q.initiator, IsPublic(q.initiator),
                  portI);
      }
      r := LinkCreated;
    }

    /** The checks, the ports, and the link row. */
    method PlanLink(q: LinkRequest, ids: FreshIds) returns (r: LinkResult, link: Link, portI: int)
      modifies this`nodes
      ensures SameButPools(old(nodes), nodes)
      ensures r != LinkCreated ==> LinkRefused(Db(if CheckFails(r) then old(nodes) else nodes, links, endpoints), q,
                                               addresses, dialable, r)
      ensures r == LinkCreated ==> LinkAccepted(old(Rows()), q, addresses, dialable)
      ensures r == LinkCreated ==> RequestedLink(link, q, ids) && DialsAt(link,
                                                                          ListenAddressFor(q, addresses, dialable))
      ensures r == LinkCreated ==> FreeAt(old(Rows()), link.listener, IsPublic(link.listener), link.listenerPort)
      ensures r == LinkCreated ==> if q.bidirectional
                                   then FreeAt(old(Rows()), q.initiator, IsPublic(q.initiator), portI) else portI == 0
    {
      portI := 0;
      link := Link("", "", "", "", "", "", 0, "", "", false, false, Pending);
      var listener: NodeId, listenAdv: string, portL: int;
      r, listener, listenAdv := CheckLink(q);
      if r != LinkCreated {
        return;
      }
      r, portL, portI := PlanPorts(q, listener);
      if r != LinkCreated {
        return;
      }
      if FindNode(nodes, q.initiator).None? {
        // the foreign key of initiator_node_id rejects the row
        r := RowRejected;
        return;
      }
      link := Link(ids.link, q.a, q.b, q.initiator, listener, listenAdv, portL,
                   InterfaceName(q.a, q.b), InterfaceName(q.b, q.a), q.enabled, q.bidirectional,
                   if q.enabled then Active else Pending);
    }

    /** The endpoint rows of handleCreateLink, branch by branch. */
    static method PlanEndpoints(l: Link, ids: FreshIds, keyA: string, keyB: string, initAdv: string, portI: int)
      returns (epA: Endpoint, epB: Endpoint)
      requires !l.bidirectional ==> portI == 0
      ensures epA.id == ids.first && epB.id == ids.second
      ensures RequestedEndpoints(l, epA, epB, initAdv, portI)
    {
      var listenToInit := HostPort(l.listenerAddress, l.listenerPort);
      epA := Endpoint(ids.first, l.id, l.nodeA, l.ifaceA, 0, None, keyB, 0, l.initiator == l.nodeA);
      epB := Endpoint(ids.second, l.id, l.nodeB, l.ifaceB, 0, None, keyA, 0, l.initiator == l.nodeB);
      var reverse: Option<HostPort> := None;
      if l.bidirectional && initAdv != "" && portI > 0 {
        reverse := Some(HostPort(initAdv, portI));
      }
      if l.initiator == l.nodeA {
        epA := epA.(peerEndpoint := Some(listenToInit), keepalive := 25);
        epB := epB.(listenPort := l.listenerPort);
        if l.bidirectional {
          epA := epA.(listenPort := portI);
          epB := epB.(peerEndpoint := reverse, keepalive := 25);
        }
      } else {
        epB := epB.(peerEndpoint := Some(listenToInit), keepalive := 25);
        epA := epA.(listenPort := l.listenerPort);
        if l.bidirectional {
          epB := epB.(listenPort := portI);
          epA := epA.(peerEndpoint := reverse, keepalive := 25);
        }
      }
    }

    /** The row-writing part of handleCreateLink. */
    method CreateLink(q: LinkRequest, ids: FreshIds) returns (r: LinkResult)
      modifies this`nodes, this`links, this`endpoints
      ensures CreateStep(old(Rows()), Rows(), q, ids, AdvertiseOf(q.initiator), r)
      ensures r != LinkCreated ==> LinkRefused(Db(if CheckFails(r) then old(nodes) else nodes, links, endpoints), q,
                                               addresses, dialable, r)
      ensures r == LinkCreated ==> LinkAccepted(old(Rows()), q, addresses, dialable)
                                   && DialsAt(links[|old(links)|], ListenAddressFor(q, addresses, dialable))
      ensures r == LinkCreated ==> PortsDrawn(old(Rows()), Rows(), q, IsPublic(ListenerOf(q)), IsPublic(q.initiator))
    {
      var link: Link, portI: int;
      r, link, portI := PlanLink(q, ids);
      if r != LinkCreated {
        return;
      }
      PoolsKeepIds(old(nodes), nodes, q.a);
      PoolsKeepIds(old(nodes), nodes, q.b);
      var keyA, keyB := FindNode(nodes, q.a).value.publicKey, FindNode(nodes, q.b).value.publicKey;
      var epA, epB := PlanEndpoints(link, ids, keyA, keyB, AdvertiseOf(q.initiator), portI);
      InsertLink(link, epA, epB);
      WasRequested(old(Rows()), Rows(), link, epA, epB, q, ids, AdvertiseOf(q.initiator), portI,
                   IsPublic(link.listener), IsPublic(q.initiator));
    }

    /** The flag updates of handleUpdateLink. */
    method UpdateLink(id: LinkId, bidirectional: Option<bool>, enabled: Option<bool>) returns (ok: bool)
      modifies this`links
      ensures ok <==> (bidirectional.Some? ==>
                         FlagAllowed(FindLink(old(links), id), bidirectional.value, addresses, dialable))
      ensures links == if ok then WithFlags(old(links), id, bidirectional, enabled) else old(links)
    {
      if bidirectional.Some? {
        var link := FindLink(links, id);
        if link.None? {
          return false;
        }
        if bidirectional.value {
          var listenAdv := link.value.listenerAddress;
          if !dialable(listenAdv) {
            listenAdv := AdvertiseOf(link.value.listener);
          }
          if AdvertiseOf(link.value.initiator) == "" || !dialable(listenAdv) {
            return false;
          }
        }
      }
      links := WithFlags(links, id, bidirectional, enabled);
      return true;
    }

    /** DeleteLink: the link and its endpoint rows go together. */
    method DeleteLink(id: LinkId)
      modifies this`links, this`endpoints
      ensures links == WithoutLinks(old(links), {id}) && endpoints == WithoutEndpoints(old(endpoints), {id})
    {
      links := WithoutLinks(links, {id});
      endpoints := WithoutEndpoints(endpoints, {id});
    }

    /** DeleteNode: only a childless node that is not the controller, together with every link it is an end of. */
    method DeleteNode(id: NodeId) returns (r: DeleteResult)
      modifies this`nodes, this`links, this`endpoints, this`addresses, this`desired
      ensures r == NotFound <==> !HasId(old(nodes), id)
      ensures r == Deleted <==>
                HasId(old(nodes), id) && !FindNode(old(nodes), id).value.isController && !HasChild(old(nodes), id)
      ensures r == IsController ==> FindNode(old(nodes), id).value.isController
      ensures r == Deleted ==> Rows() == Deletion(old(Rows()), id)
                               && addresses == old(addresses) - {id} && desired == old(desired) - {id}
      ensures r != Deleted ==> unchanged(this)
    {
      var n := FindNode(nodes, id);
      if n.None? {
        return NotFound;
      }
      if n.value.isController {
        return IsController;
      }
      if HasChild(nodes, id) {
        return HasChildren;
      }
      var linkIds := LinkIdsAt(links, id);
      links := WithoutLinks(links, linkIds);
      endpoints := WithoutEndpoints(endpoints, linkIds);
      nodes := WithoutNode(nodes, id);
      addresses := addresses - {id};
      desired := desired - {id};
      return Deleted;
    }

    /** One pass of the loop in repairLinkEndpoints. */
    method RepairLink(l: Link) returns (ghost failed: bool)
      modifies this`nodes, this`endpoints
      ensures RepairStep(old(Rows()), Rows(), l, addresses, dialable, failed)
    {
      var initEp, listenEp := FindRoles(l.id);
      failed := false;
      if initEp.None? || listenEp.None? {
        return;
      }
      var adv := AdvertiseOf(initEp.value.nodeId);
      if !l.bidirectional || adv == "" || !dialable(l.listenerAddress) {
        RepairOneWay(l, initEp.value, listenEp.value, adv);
      } else {
        failed := RepairBothWays(l, initEp.value, listenEp.value, adv);
      }
    }

    method RepairOneWay(l: Link, init: Endpoint, listen: Endpoint, adv: string)
      requires !Sustainable(l, adv, dialable)
      modifies this`endpoints
      ensures RepairedWith(old(Rows()), Rows(), l, init, listen, adv, dialable, 0, false)
    {
      var ei, el, changed := ShapeCommon(l, init, listen);
      var more: bool;
      ei, el, more := ShapeOneWay(ei, el);
      WriteRows(changed || more, ei, el);
    }

    method RepairBothWays(l: Link, init: Endpoint, listen: Endpoint, adv: string) returns (ghost failed: bool)
      requires Sustainable(l, adv, dialable)
      modifies this`nodes, this`endpoints
      ensures exists port :: RepairedWith(old(Rows()), Rows(), l, init, listen, adv, dialable, port, failed)
                             && PortDrawn(old(Rows()), Rows(), init, old(IsPublic(init.nodeId)), port, failed)
    {
      var ei, el, changed := ShapeCommon(l, init, listen);
      var port := ei.listenPort;
      failed := false;
      if port <= 0 {
        var p, ok := AllocateWGPort(ei.nodeId);
        failed := !ok;
        if ok {
          port := p;
        }
      }
      var more: bool;
      ei, el, more := ShapeBothWays(ei, el, port, adv);
      WriteRows(changed || more, ei, el);
      assert PortDrawn(old(Rows()), Rows(), init, old(IsPublic(init.nodeId)), port, failed);
      assert RepairedWith(old(Rows()), Rows(), l, init, listen, adv, dialable, port, failed);
    }

    method WriteRows(changed: bool, ei: Endpoint, el: Endpoint)
      modifies this`endpoints
      ensures endpoints == if changed then SetEndpoint(SetEndpoint(old(endpoints), ei), el) else old(endpoints)
    {
      if changed {
        endpoints := SetEndpoint(endpoints, ei);
        endpoints := SetEndpoint(endpoints, el);
      }
    }

    /** The fields every link gets: the initiator dials the listener, which listens on the link's port. */
    static method ShapeCommon(l: Link, init: Endpoint, listen: Endpoint)
      returns (ei: Endpoint, el: Endpoint, changed: bool)
      ensures ei == init.(peerEndpoint := Some(HostPort(l.listenerAddress, l.listenerPort)), keepalive := 25)
      ensures el == if l.listenerPort > 0 then listen.(listenPort := l.listenerPort) else listen
      ensures changed <==> ei != init || el != listen
    {
      ei, el, changed := init, listen, false;
      var wantInit := Some(HostPort(l.listenerAddress, l.listenerPort));
      if ei.peerEndpoint != wantInit {
        ei := ei.(peerEndpoint := wantInit);
        changed := true;
      }
      if ei.keepalive != 25 {
        ei := ei.(keepalive := 25);
        changed := true;
      }
      if el.listenPort != l.listenerPort && l.listenerPort > 0 {
        el := el.(listenPort := l.listenerPort);
        changed := true;
      }
    }

    static method ShapeOneWay(init: Endpoint, listen: Endpoint) returns (ei: Endpoint, el: Endpoint, changed: bool)
      ensures ei == init.(listenPort := 0) && el == listen.(peerEndpoint := None, keepalive := 0)
      ensures changed <==> ei != init || el != listen
    {
      ei, el, changed := init, listen, false;
      if ei.listenPort != 0 {
        ei := ei.(listenPort := 0);
        changed := true;
      }
      if el.peerEndpoint.Some? {
        el := el.(peerEndpoint := None);
        changed := true;
      }
      if el.keepalive != 0 {
        el := el.(keepalive := 0);
        changed := true;
      }
    }

    static method ShapeBothWays(init: Endpoint, listen: Endpoint, port: int, adv: string)
      returns (ei: Endpoint, el: Endpoint, changed: bool)
      ensures ei == init.(listenPort := port) && el == listen.(peerEndpoint := Some(HostPort(adv, port)),
                                                               keepalive := 25)
      ensures changed <==> ei != init || el != listen
    {
      ei, el, changed := init.(listenPort := port), listen, port != init.listenPort;
      var wantRev := Some(HostPort(adv, port));
      if el.peerEndpoint != wantRev {
        el := el.(peerEndpoint := wantRev);
        changed := true;
      }
      if el.keepalive != 25 {
        el := el.(keepalive := 25);
        changed := true;
      }
    }

    /** repairLinkEndpoints: every link of the list, in order. */
    method RepairLinkEndpoints() returns (ghost failed: bool)
      modifies this`nodes, this`endpoints
      ensures RepairPass(old(Rows()), Rows(), links, addresses, dialable, failed)
      ensures SameButPools(old(nodes), nodes)
    {
      failed := false;
      for i := 0 to |links|
        invariant RepairPass(old(Rows()), Rows(), links[..i], addresses, dialable, failed)
        invariant SameButPools(old(nodes), nodes)
      {
        ghost var before, ok := Rows(), failed;
        ghost var f := RepairLink(links[i]);
        failed := failed || f;
        RepairOneMore(old(Rows()), before, Rows(), links, i, addresses, dialable, ok, f);
      }
      TakeAll(links);
    }

    /** publishConfig: repair, compile, and hand every node its state. */
    method PublishConfig() returns (ghost failed: bool)
      requires Routing.UniqueIds(Routing.Graph(nodes, links, endpoints))
      modifies this`nodes, this`endpoints, this`desired
      ensures RepairPass(old(Rows()), Rows(), links, addresses, dialable, failed)
      ensures Published(Routing.Graph(nodes, links, endpoints), dialable, desired)
      ensures forall x :: x in desired <==> x in old(desired) || HasId(nodes, x)
      ensures forall x :: x in old(desired) && !HasId(nodes, x) ==> desired[x] == old(desired)[x]
    {
      failed := RepairLinkEndpoints();
      var g := Routing.Graph(nodes, links, endpoints);
      assert Routing.UniqueIds(g);
      var states := Routing.Compile(g, dialable);
      forall x ensures x in states <==> HasId(nodes, x) {
        if HasId(nodes, x) {
          assert FindNode(nodes, x).value in nodes;
        }
      }
      desired := desired + states;
    }

    /** The last initiator row and the last listener row of a link. */
    method FindRoles(id: LinkId) returns (initEp: Option<Endpoint>, listenEp: Option<Endpoint>)
      ensures initEp == LastRole(endpoints, id, true) && listenEp == LastRole(endpoints, id, false)
    {
      initEp, listenEp := None, None;
      for i := 0 to |endpoints|
        invariant initEp == LastRole(endpoints[..i], id, true) && listenEp == LastRole(endpoints[..i], id, false)
      {
        assert endpoints[..i + 1][..i] == endpoints[..i];
        var e := endpoints[i];
        if e.linkId != id {
          continue;
        }
        if e.isInitiator {
          initEp := Some(e);
        } else {
          listenEp := Some(e);
        }
      }
      TakeAll(endpoints);
    }
  }

  // ----- repairing one link -----

  function LastRole(eps: seq<Endpoint>, id: LinkId, initiator: bool): (r: Option<Endpoint>)
    ensures r.Some? ==> r.value in eps && r.value.linkId == id && r.value.isInitiator == initiator
    ensures r.None? ==> forall e :: e in eps ==> !(e.linkId == id && e.isInitiator == initiator)
  {
    if eps == [] then None
    else if eps[|eps| - 1].linkId == id && eps[|eps| - 1].isInitiator == initiator then Some(eps[|eps| - 1])
    else LastRole(eps[..|eps| - 1], id, initiator)
  }

  /**
   Both rows of `l` take their repaired shape; a port is allocated only when both sides dial and the initiator has
   none.
   */
  ghost predicate RepairStep(s: Db, s': Db, l: Link, addresses: map<NodeId, seq<Address>>, dialable: string -> bool,
                             failed: bool) {
    var init, listen := LastRole(s.endpoints, l.id, true), LastRole(s.endpoints, l.id, false);
    if init.None? || listen.None? then s' == s && !failed
    else
      var addrs := AddressesOf(addresses, init.value.nodeId);
      exists port ::
        && RepairedWith(s, s', l, init.value, listen.value, Advertise(addrs, dialable), dialable, port, failed)
        && (Sustainable(l, Advertise(addrs, dialable), dialable) ==>
              PortDrawn(s, s', init.value, HasPublic(addrs, dialable), port, failed))
  }

  /** The links of `ls` are repaired one after the other. */
  ghost predicate RepairPass(s: Db, s': Db, ls: seq<Link>, addresses: map<NodeId, seq<Address>>,
                             dialable: string -> bool, failed: bool)
    decreases |ls|, 0
  {
    if ls == [] then s' == s && !failed
    else RepairThen(s, s', ls[..|ls| - 1], ls[|ls| - 1], addresses, dialable, failed)
  }

  ghost predicate RepairThen(s: Db, s': Db, ls: seq<Link>, l: Link, addresses: map<NodeId, seq<Address>>,
                             dialable: string -> bool, failed: bool)
    decreases |ls|, 1
  {
    exists mid, f :: RepairPass(s, mid, ls, addresses, dialable, f) && RepairLast(mid, s', l, addresses, dialable, f,
                                                                                  failed)
  }

  ghost predicate RepairLast(s: Db, s': Db, l: Link, addresses: map<NodeId, seq<Address>>, dialable: string -> bool,
                             before: bool, failed: bool) {
    (RepairStep(s, s', l, addresses, dialable, false) && failed == before)
        || (RepairStep(s, s', l, addresses, dialable, true) && failed)
  }

  lemma RepairOneMore(s: Db, mid: Db, s': Db, links: seq<Link>, i: nat, addresses: map<NodeId, seq<Address>>,
                      dialable: string -> bool, f: bool, g: bool)
    requires i < |links| && RepairPass(s, mid, links[..i], addresses, dialable, f)
             && RepairStep(mid, s', links[i], addresses, dialable, g)
    ensures RepairPass(s, s', links[..i + 1], addresses, dialable, f || g)
    ensures SameButPools(s.nodes, mid.nodes) ==> SameButPools(s.nodes, s'.nodes)
  {
    assert links[..i + 1][..i] == links[..i];
    assert RepairLast(mid, s', links[i], addresses, dialable, f, f || g);
  }

  ghost predicate Published(g: Routing.Graph, dialable: string -> bool, desired: map<NodeId, NodeState>) {
    forall n :: n in g.nodes ==> n.id in desired && Routing.IsCompiled(g, dialable, n, desired[n.id])
  }

  ghost predicate RepairedWith(s: Db, s': Db, l: Link, init: Endpoint, listen: Endpoint, adv: string,
                               dialable: string -> bool, port: int, failed: bool) {
    var ei, el := RepairInit(l, init, adv, dialable, port), RepairListen(l, listen, adv, dialable, port);
    && s'.links == s.links
    && s'.endpoints == (if ei == init && el == listen then s.endpoints
                        else SetEndpoint(SetEndpoint(s.endpoints, ei), el))
    && if !Sustainable(l, adv, dialable) then s'.nodes == s.nodes && !failed
       else if init.listenPort > 0 then s'.nodes == s.nodes && port == init.listenPort && !failed
       else SameButPools(s.nodes, s'.nodes)
            && if failed then port == init.listenPort && NoneFreeAt(Db(s'.nodes, s.links, s.endpoints), init.nodeId)
               else HasId(s.nodes, init.nodeId)
                    && LeastFree(FindNode(s.nodes, init.nodeId).value, UsedPorts(s.links, s.endpoints, init.nodeId),
                                 port)
  }

  /** If the initiator had no port, its pool was searched as AllocateWGPort does. */
  ghost predicate PortDrawn(s: Db, s': Db, init: Endpoint, public: bool, port: int, failed: bool) {
    init.listenPort <= 0 ==>
      && s'.nodes == ShrinkPool(s.nodes, init.nodeId, public)
      && (!failed ==> FreeAt(s, init.nodeId, public, port))
  }

  function LinkIdsAt(links: seq<Link>, id: NodeId): set<LinkId> {
    set l | l in links && Touches(l, id) :: l.id
  }

  function Deletion(s: Db, id: NodeId): Db {
    var gone := LinkIdsAt(s.links, id);
    Db(WithoutNode(s.nodes, id), WithoutLinks(s.links, gone), WithoutEndpoints(s.endpoints, gone))
  }

  predicate HasChild(nodes: seq<Node>, id: NodeId) {
    exists m :: m in nodes && m.parent == Some(id)
  }

  /** The links left are the old ones that do not end at `id`, and no endpoint row names it. */
  ghost predicate NothingNames(links: seq<Link>, links': seq<Link>, eps': seq<Endpoint>, id: NodeId) {
    && (forall l :: l in links' <==> l in links && !Touches(l, id))
    && (forall e :: e in eps' ==> e.nodeId != id)
  }

  // ----- what the operations insert -----

  function EnrollListenerAddress(addrs: seq<Address>, configured: string, dialable: string -> bool): string {
    var first := FirstDialable(addrs, dialable);
    if first.Some? then first.value else if configured == "" && addrs != [] then addrs[0].address else configured
  }

  function FirstDialable(addrs: seq<Address>, dialable: string -> bool): Option<string> {
    if addrs == [] then None
    else if dialable(addrs[0].address) then Some(addrs[0].address)
    else FirstDialable(addrs[1..], dialable)
  }

  function Taken(nodes: seq<Node>): set<string> {
    set n | n in nodes :: n.overlayIPv4
  }

  predicate Refusal(r: EnrollResult) {
    r != Enrolled && r != NoPortForLink
  }

  /** The pool handleEnroll gives the new node, from the request and its parent's row. */
  function PoolFor(nodes: seq<Node>, q: EnrollRequest, dialable: string -> bool, defaultPort: int): Option<(int, int)>
    requires HasId(nodes, q.parent)
  {
    var parent := FindNode(nodes, q.parent).value;
    EnrollPool(q, EnrollsPublic(q, dialable), parent.portStart, parent.portEnd, defaultPort)
  }

  /** Why an enrolment is refused: the first check that fails decides. */
  ghost predicate EnrollRefused(nodes: seq<Node>, q: EnrollRequest, overlay: Option<Overlay.Cidr4>,
                                dialable: string -> bool, defaultPort: int, r: EnrollResult)
    requires overlay.Some? ==> Overlay.ValidCidr(overlay.value)
  {
    if TokenRefusal(q).Some? then r == TokenRefusal(q).value
    else if !HasId(nodes, q.parent) then r == ParentMissing
    else if Overlay.Exhausted(overlay, Taken(nodes)) then r == PoolExhausted
    else if KeyRefusal(q).Some? then r == KeyRefusal(q).value
    else PoolFor(nodes, q, dialable, defaultPort).None? && r == BadPortRange
  }

  /** The row of an accepted enrolment: the least unused address, the requested pool, the parent of the token. */
  ghost predicate EnrolledRow(nodes: seq<Node>, row: Node, q: EnrollRequest, id: NodeId,
                              overlay: Option<Overlay.Cidr4>, dialable: string -> bool, defaultPort: int)
    requires HasId(nodes, q.parent) && (overlay.Some? ==> Overlay.ValidCidr(overlay.value))
  {
    var pool := PoolFor(nodes, q, dialable, defaultPort);
    && overlay.Some? && Overlay.LeastUnused(overlay.value, Taken(nodes), row.overlayIPv4)
       && Overlay.PlainAddress(row.overlayIPv4)
    && TokenRefusal(q).None? && KeyRefusal(q).None?
    && pool.Some? && row == Node(id, row.overlayIPv4, KeysOf(q).public, KeysOf(q).private, Some(q.parent), false,
                                 pool.value.0, pool.value.1)
  }

  /** The listener address of a link, and the interface names both ends derive from the ids. */
  predicate DialsAt(l: Link, address: string) {
    l.listenerAddress == address && l.ifaceA == InterfaceName(l.nodeA, l.nodeB)
        && l.ifaceB == InterfaceName(l.nodeB, l.nodeA)
  }

  /** With a free port the link is added; without one the link tables stay as they were. */
  ghost predicate LinkStep(links: seq<Link>, eps: seq<Endpoint>, links': seq<Link>, eps': seq<Endpoint>, parent: Node,
                           ids: FreshIds, r: EnrollResult) {
    if r == Enrolled then EnrolledOver(links, eps, links', eps', parent, ids) else links' == links && eps' == eps
  }

  /** The new link dials `address`; it is missing only if the parent's pool, cut if need be, is full. */
  ghost predicate LinkOutcome(links: seq<Link>, s': Db, parent: NodeId, address: string, r: EnrollResult) {
    if r == Enrolled then |s'.links| == |links| + 1 && DialsAt(s'.links[|links|], address)
    else HasId(s'.nodes, parent) && PoolFull(FindNode(s'.nodes, parent).value,
                                             UsedPorts(s'.links, s'.endpoints, parent))
  }

  /**
   What handleEnroll does to the tables: nothing when it refuses, else one node and, if the parent's pool, cut unless
   the parent is public, has a port, one link.
   */
  ghost predicate EnrollOutcome(s: Db, s': Db, q: EnrollRequest, ids: FreshIds, overlay: Option<Overlay.Cidr4>,
                                dialable: string -> bool, defaultPort: int, public: bool, r: EnrollResult)
    requires overlay.Some? ==> Overlay.ValidCidr(overlay.value)
  {
    if Refusal(r) then s' == s && EnrollRefused(s.nodes, q, overlay, dialable, defaultPort, r)
    else
      && HasId(s.nodes, q.parent) && |s'.nodes| == |s.nodes| + 1
      && EnrolledRow(s.nodes, s'.nodes[|s.nodes|], q, ids.node, overlay, dialable, defaultPort)
      && SameButPools(s.nodes + [s'.nodes[|s.nodes|]], s'.nodes)
      && LinkStep(s.links, s.endpoints, s'.links, s'.endpoints, CutRow(FindNode(s.nodes, q.parent).value, public),
                  ids, r)
  }

  lemma {:induction false} TakenCount(nodes: seq<Node>)
    ensures |Taken(nodes)| <= |nodes|
  {
    if nodes != [] {
      var k := |nodes| - 1;
      TakenCount(nodes[..k]);
      assert nodes == nodes[..k] + [nodes[k]];
      assert Taken(nodes) == Taken(nodes[..k]) + {nodes[k].overlayIPv4};
    }
  }

  /** While there are fewer nodes than candidates, no enrolment is refused for want of an address. */
  lemma EnrollHasRoom(nodes: seq<Node>, q: EnrollRequest, c: Overlay.Cidr4, dialable: string -> bool,
                      defaultPort: int, r: EnrollResult)
    requires Overlay.ValidCidr(c) && |nodes| < Overlay.CandidateCount(c)
    requires EnrollRefused(nodes, q, Some(c), dialable, defaultPort, r)
    ensures r != PoolExhausted
  {
    TakenCount(nodes);
    Overlay.RoomLeft(c, Taken(nodes));
  }

  /** Every outcome is a step of the tables. */
  lemma EnrollOutcomeIsStep(s: Db, s': Db, q: EnrollRequest, ids: FreshIds, overlay: Option<Overlay.Cidr4>,
                            dialable: string -> bool, defaultPort: int, public: bool, r: EnrollResult)
    requires ValidUDPPort(defaultPort) && (overlay.Some? ==> Overlay.ValidCidr(overlay.value))
    requires EnrollOutcome(s, s', q, ids, overlay, dialable, defaultPort, public, r)
    ensures EnrollStep(s, s', q, ids, r)
  {
    if !Refusal(r) {
      var row := s'.nodes[|s.nodes|];
      EnrolledRowFits(s.nodes, row, q, ids.node, overlay, dialable, defaultPort);
      NodeWasAdded(s.nodes, row, s'.nodes);
    }
  }

  /** Cutting the parent's pool does not touch the new row. */
  lemma NewRowUncut(nodes: seq<Node>, row: Node, parent: NodeId, public: bool)
    requires HasId(nodes, parent) && !HasId(nodes, row.id)
    ensures var after := ShrinkPool(nodes + [row], parent, public);
            |after| == |nodes| + 1 && after[|nodes|] == row && SameButPools(nodes + [row], after)
  {
    var i :| 0 <= i < |nodes| && nodes[i].id == parent;
    assert (nodes + [row])[|nodes|] == row && row.id != parent;
  }

  lemma StillThere(nodes: seq<Node>, n: Node, id: NodeId)
    requires HasId(nodes, id)
    ensures HasId(nodes + [n], id) && FindNode(nodes + [n], id) == FindNode(nodes, id)
  {
    StillHasId(nodes, n, id);
    ParentStillFirst(nodes, n, id);
  }

  /** The new row has what the tables need. */
  lemma EnrolledRowFits(nodes: seq<Node>, row: Node, q: EnrollRequest, id: NodeId, overlay: Option<Overlay.Cidr4>,
                        dialable: string -> bool, defaultPort: int)
    requires HasId(nodes, q.parent) && ValidUDPPort(defaultPort) && (overlay.Some? ==> Overlay.ValidCidr(overlay.value))
    requires EnrolledRow(nodes, row, q, id, overlay, dialable, defaultPort)
    ensures forall m :: m in nodes ==> m.overlayIPv4 != row.overlayIPv4
    ensures PoolsInRange(nodes) ==> PoolInRange(row)
  {
    forall m | m in nodes ensures m.overlayIPv4 != row.overlayIPv4 {
      assert m.overlayIPv4 in Taken(nodes);
    }
    assert FindNode(nodes, q.parent).value in nodes;
  }

  /** One more row, below `parent`, with an address nobody had; pools may have been cut. */
  ghost predicate NodeAdded(before: seq<Node>, after: seq<Node>, id: NodeId, parent: NodeId) {
    && |after| == |before| + 1 && SameButPools(before, after[..|before|])
    && after[|before|].id == id && after[|before|].parent == Some(parent) && !after[|before|].isController
    && Overlay.PlainAddress(after[|before|].overlayIPv4) && (PoolsInRange(before) ==> PoolInRange(after[|before|]))
    && forall m :: m in before ==> m.overlayIPv4 != after[|before|].overlayIPv4
  }

  /** What handleEnroll may do to the tables. */
  ghost predicate EnrollStep(s: Db, s': Db, q: EnrollRequest, ids: FreshIds, r: EnrollResult) {
    match r
       case Enrolled =>
         && HasId(s.nodes, q.parent) && NodeAdded(s.nodes, s'.nodes, ids.node, q.parent)
         && EnrolledOver(s.links, s.endpoints, s'.links, s'.endpoints, FindNode(s.nodes, q.parent).value, ids)
       case NoPortForLink =>
         HasId(s.nodes, q.parent) && NodeAdded(s.nodes, s'.nodes, ids.node, q.parent) && s'.links == s.links
             && s'.endpoints == s.endpoints
       case _ => s' == s
  }

  /** What handleCreateLink may do to the tables; even when it fails, port pools may have been cut. */
  ghost predicate CreateStep(s: Db, s': Db, q: LinkRequest, ids: FreshIds, adv: string, r: LinkResult) {
    && SameButPools(s.nodes, s'.nodes)
    && (r == LinkExists <==> CompleteRequest(q) && LinkBetween(s.links, q.a, q.b))
    && if r == LinkCreated
       then HasId(s.nodes, q.a) && HasId(s.nodes, q.b) && !LinkBetween(s.links, q.a, q.b)
            && LinkedAsRequested(s.nodes, s.links, s.endpoints, s'.links, s'.endpoints, q, ids, adv)
       else s'.links == s.links && s'.endpoints == s.endpoints
  }

  /** The address a new link's initiator will dial: the given one, unless only an advertised one is dialable. */
  function ListenAddressFor(q: LinkRequest, addresses: map<NodeId, seq<Address>>, dialable: string -> bool): string {
    var alt := AdvertiseAt(addresses, dialable, ListenerOf(q));
    if dialable(q.listenerAddress) || alt == "" then q.listenerAddress else alt
  }

  /** A bidirectional link needs a dialable address on both sides. */
  predicate BothDialable(q: LinkRequest, addresses: map<NodeId, seq<Address>>, dialable: string -> bool) {
    dialable(ListenAddressFor(q, addresses, dialable)) && AdvertiseAt(addresses, dialable, q.initiator) != ""
  }

  predicate LinkAccepted(s: Db, q: LinkRequest, addresses: map<NodeId, seq<Address>>, dialable: string -> bool) {
    && CompleteRequest(q) && !LinkBetween(s.links, q.a, q.b) && HasId(s.nodes, q.a) && HasId(s.nodes, q.b)
    && (q.bidirectional ==> BothDialable(q, addresses, dialable))
  }

  predicate CheckFails(r: LinkResult) {
    r != LinkCreated && r != NoFreePort && r != RowRejected
  }

  /** Why a link request is refused; the cases exclude each other. */
  ghost predicate LinkRefused(s: Db, q: LinkRequest, addresses: map<NodeId, seq<Address>>, dialable: string -> bool,
                              r: LinkResult) {
    var nodesExist := HasId(s.nodes, q.a) && HasId(s.nodes, q.b);
    match r
    case LinkCreated => false
    case BadRequest => !CompleteRequest(q)
    case LinkExists => CompleteRequest(q) && LinkBetween(s.links, q.a, q.b)
    case NodeMissing => CompleteRequest(q) && !LinkBetween(s.links, q.a, q.b) && !nodesExist
    case NotDialable =>
      CompleteRequest(q) && !LinkBetween(s.links, q.a, q.b) && nodesExist && q.bidirectional
          && !BothDialable(q, addresses, dialable)
    case NoFreePort =>
      LinkAccepted(s, q, addresses, dialable) && (NoneFreeAt(s, ListenerOf(q)) || (q.bidirectional
                                                                                   && NoneFreeAt(s, q.initiator)))
    case RowRejected => LinkAccepted(s, q, addresses, dialable) && !HasId(s.nodes, q.initiator)
  }

  /** `port` is the least free port of the node's pool, and if nobody can dial the node, the first of its pool. */
  ghost predicate FreeAt(s: Db, id: NodeId, public: bool, port: int) {
    HasId(s.nodes, id) && LeastFree(CutRow(FindNode(s.nodes, id).value, public), UsedPorts(s.links, s.endpoints, id),
                                    port)
  }

  /** The new link listens on a port its listener had free, and a bidirectional one also on one of its initiator. */
  ghost predicate PortsDrawn(s: Db, s': Db, q: LinkRequest, publicL: bool, publicI: bool) {
    && |s'.links| == |s.links| + 1 && |s'.endpoints| == |s.endpoints| + 2
    && FreeAt(s, ListenerOf(q), publicL, s'.links[|s.links|].listenerPort)
    && (q.bidirectional ==>
          FreeAt(s, q.initiator, publicI, s'.endpoints[|s.endpoints| + if q.initiator == q.a then 0 else 1].listenPort))
  }

  ghost predicate NoneFreeAt(s: Db, id: NodeId) {
    HasId(s.nodes, id) ==> PoolFull(FindNode(s.nodes, id).value, UsedPorts(s.links, s.endpoints, id))
  }

  /** Whether handleUpdateLink may set the bidirectional flag. */
  predicate FlagAllowed(link: Option<Link>, bidirectional: bool, addresses: map<NodeId, seq<Address>>,
                        dialable: string -> bool) {
    && link.Some?
    && (bidirectional ==>
          && AdvertiseAt(addresses, dialable, link.value.initiator) != ""
          && (dialable(link.value.listenerAddress) || dialable(AdvertiseAt(addresses, dialable, link.value.listener))))
  }

  /** What is free after another pool was cut was free before. */
  lemma StillFree(before: seq<Node>, after: seq<Node>, links: seq<Link>, eps: seq<Endpoint>, cut: NodeId,
                  cutPublic: bool, id: NodeId, public: bool, port: int)
    requires after == ShrinkPool(before, cut, cutPublic) && FreeAt(Db(after, links, eps), id, public, port)
    requires cut == id ==> cutPublic == public
    ensures FreeAt(Db(before, links, eps), id, public, port)
  {
    PoolsKeepIds(before, after, id);
    ShrunkRow(before, cut, cutPublic, id);
  }

  /** Adding a row with a new id does not change which row is found for another. */
  lemma {:induction false} ParentStillFirst(nodes: seq<Node>, n: Node, id: NodeId)
    requires HasId(nodes, id)
    ensures FindNode(nodes + [n], id) == FindNode(nodes, id)
  {
    if nodes[0].id != id {
      var i :| 0 <= i < |nodes| && nodes[i].id == id;
      assert nodes[1..][i - 1].id == id;
      ParentStillFirst(nodes[1..], n, id);
      assert (nodes + [n])[1..] == nodes[1..] + [n];
    }
  }

  lemma NodeWasAdded(before: seq<Node>, n: Node, after: seq<Node>)
    requires SameButPools(before + [n], after) && n.parent.Some? && !n.isController
    requires Overlay.PlainAddress(n.overlayIPv4) && forall m :: m in before ==> m.overlayIPv4 != n.overlayIPv4
    requires PoolsInRange(before) ==> PoolInRange(n)
    ensures NodeAdded(before, after, n.id, n.parent.value)
  {
    assert after[|before|] == n.(portEnd := after[|before|].portEnd);
    forall i | 0 <= i < |before| ensures after[..|before|][i] == before[i].(portEnd := after[i].portEnd) {
      assert (before + [n])[i] == before[i];
    }
  }

  /**
   An enrolment link: enabled, one-way, the child dials, the parent listens on the least
   port free in its pool; its rows already have the shape a repair would give them.
   */
  ghost predicate EnrolledOver(links: seq<Link>, eps: seq<Endpoint>, links': seq<Link>, eps': seq<Endpoint>,
                               parent: Node, ids: FreshIds) {
    && |links'| == |links| + 1 && |eps'| == |eps| + 2
    && var l, e, f := links'[|links|], eps'[|eps|], eps'[|eps| + 1];
       && links' == links + [l] && eps' == eps + [e, f]
       && EnrollmentShape(l, e, f, parent.id, ids)
       && LeastFree(parent, UsedPorts(links, eps, parent.id), l.listenerPort)
  }

  predicate EnrollmentShape(l: Link, e: Endpoint, f: Endpoint, parent: NodeId, ids: FreshIds) {
    && l.id == ids.link && l.nodeA == parent && l.nodeB == ids.node
    && l.initiator == ids.node && l.listener == parent && l.enabled && !l.bidirectional
    && l.ifaceA == InterfaceName(parent, ids.node) && l.ifaceB == InterfaceName(ids.node, parent)
    && e.iface == l.ifaceA && f.iface == l.ifaceB
    && e.id == ids.first && e.linkId == l.id && e.nodeId == parent && !e.isInitiator && OneWayListener(l, e)
    && f.id == ids.second && f.linkId == l.id && f.nodeId == ids.node && f.isInitiator && OneWayInitiator(l, f)
  }

  predicate OneWayListener(l: Link, e: Endpoint) {
    e.listenPort == l.listenerPort && e.peerEndpoint.None? && e.keepalive == 0
  }

  predicate OneWayInitiator(l: Link, f: Endpoint) {
    f.listenPort == 0 && f.peerEndpoint == Some(HostPort(l.listenerAddress, l.listenerPort)) && f.keepalive == 25
  }

  predicate CompleteRequest(q: LinkRequest) {
    q.a != "" && q.b != "" && q.initiator != "" && q.listenerAddress != ""
  }

  function ListenerOf(q: LinkRequest): NodeId {
    if q.initiator == q.b then q.a else q.b
  }

  predicate RequestedLink(l: Link, q: LinkRequest, ids: FreshIds) {
    && l.id == ids.link && l.nodeA == q.a && l.nodeB == q.b && l.initiator == q.initiator
    && l.listener == ListenerOf(q)
    && l.enabled == q.enabled && l.bidirectional == q.bidirectional
    && l.ifaceA == InterfaceName(q.a, q.b) && l.ifaceB == InterfaceName(q.b, q.a)
  }

  /**
   The two rows of a requested link, one per end: the initiator dials, the other end listens, and both do both if
   asked.
   */
  predicate RequestedEndpoints(l: Link, a: Endpoint, b: Endpoint, adv: string, portI: int) {
    && a.linkId == l.id && b.linkId == l.id && a.nodeId == l.nodeA && b.nodeId == l.nodeB
    && a.iface == l.ifaceA && b.iface == l.ifaceB
    && a.isInitiator == (l.initiator == l.nodeA) && b.isInitiator == (l.initiator == l.nodeB)
    && var dials := if l.initiator == l.nodeA then a else b;
       var listens := if l.initiator == l.nodeA then b else a;
       && (!l.bidirectional ==> OneWayInitiator(l, dials) && OneWayListener(l, listens))
       && (l.bidirectional ==>
             && dials.peerEndpoint == Some(HostPort(l.listenerAddress, l.listenerPort)) && dials.keepalive == 25
             && dials.listenPort == portI && listens.listenPort == l.listenerPort && listens.keepalive == 25
             && listens.peerEndpoint == if adv != "" && portI > 0 then Some(HostPort(adv, portI)) else None)
  }

  ghost predicate LinkedAsRequested(nodes: seq<Node>, links: seq<Link>, eps: seq<Endpoint>, links': seq<Link>,
                                    eps': seq<Endpoint>, q: LinkRequest, ids: FreshIds, adv: string) {
    && |links'| == |links| + 1 && |eps'| == |eps| + 2
    && var l, a, b := links'[|links|], eps'[|eps|], eps'[|eps| + 1];
       && links' == links + [l] && eps' == eps + [a, b] && RequestedLink(l, q, ids)
       && HasId(nodes, l.listener) && LeastFree(FindNode(nodes, l.listener).value, UsedPorts(links, eps, l.listener),
                                                l.listenerPort)
       && a.id == ids.first && b.id == ids.second
       && var port := (if l.initiator == l.nodeA then a else b).listenPort;
          && RequestedEndpoints(l, a, b, adv, port)
          && (q.bidirectional ==> HasId(nodes, q.initiator) && LeastFree(FindNode(nodes, q.initiator).value,
                                                                         UsedPorts(links, eps, q.initiator), port))
  }

  lemma WasRequested(s: Db, s': Db, l: Link, a: Endpoint, b: Endpoint, q: LinkRequest, ids: FreshIds, adv: string,
                     portI: int, publicL: bool, publicI: bool)
    requires s'.links == s.links + [l] && s'.endpoints == s.endpoints + [a, b] && RequestedLink(l, q, ids)
    requires FreeAt(s, l.listener, publicL, l.listenerPort)
    requires RequestedEndpoints(l, a, b, adv, portI) && a.id == ids.first && b.id == ids.second
    requires if q.bidirectional then FreeAt(s, q.initiator, publicI, portI) else portI == 0
    ensures LinkedAsRequested(s.nodes, s.links, s.endpoints, s'.links, s'.endpoints, q, ids, adv)
    ensures PortsDrawn(s, s', q, publicL, publicI)
  {
  }

  function WithFlags(links: seq<Link>, id: LinkId, bidirectional: Option<bool>, enabled: Option<bool>): (r: seq<Link>)
    ensures |r| == |links|
    ensures forall i :: 0 <= i < |links| ==>
              r[i] == if links[i].id == id then Flagged(links[i], bidirectional, enabled) else links[i]
  {
    seq(|links|, i requires 0 <= i < |links| =>
          if links[i].id == id then Flagged(links[i], bidirectional, enabled) else links[i])
  }

  function Flagged(l: Link, bidirectional: Option<bool>, enabled: Option<bool>): Link {
    var l1 := if bidirectional.Some? then l.(bidirectional := bidirectional.value) else l;
    if enabled.Some? then l1.(enabled := enabled.value, status := if enabled.value then Active else Disabled) else l1
  }

  /** In an empty network the least unused address is the first candidate, if there is one. */
  lemma FirstCandidate(overlay: Option<Overlay.Cidr4>, used: set<string>, ip: string)
    requires used == {} && (overlay.Some? ==> Overlay.ValidCidr(overlay.value))
    ensures Overlay.Exhausted(overlay, used) <==> overlay.None? || Overlay.CandidateCount(overlay.value) < 1
    ensures overlay.Some? && Overlay.LeastUnused(overlay.value, used, ip) ==> ip == Overlay.Render(overlay.value, 1)
  {
    if overlay.Some? {
      var first := Overlay.Render(overlay.value, 1);
      forall i | 1 < i ensures !Overlay.AllUsed(overlay.value, used, i) {
        assert Overlay.AllUsed(overlay.value, used, i) ==> first in used;
      }
    }
  }

  lemma FirstNodeOk(n: Node)
    requires n.id != "" && Overlay.PlainAddress(n.overlayIPv4) && n.isController && n.parent.None?
    ensures TablesOk([n], [], [])
  {
    var nodes := [n];
    assert nodes[..0] == [];
    assert ControlTree.ParentsOf(nodes[..0]) == map[];
    assert n.id !in ControlTree.ParentsOf(nodes);
    assert ControlTree.RootAt(ControlTree.ParentsOf(nodes), n.id, 0);
    assert nodes[0].isController;
  }

  lemma ShrinkTail(nodes: seq<Node>, id: NodeId, public: bool)
    requires nodes != []
    ensures ShrinkPool(nodes, id, public)[1..] == ShrinkPool(nodes[1..], id, public)
  {
    var r, tail := ShrinkPool(nodes, id, public), ShrinkPool(nodes[1..], id, public);
    forall i | 0 <= i < |tail| ensures r[1..][i] == tail[i] {
      assert nodes[1..][i] == nodes[i + 1];
    }
  }

  lemma {:induction false} ShrunkRow(nodes: seq<Node>, id: NodeId, public: bool, x: NodeId)
    requires HasId(nodes, x)
    ensures FindNode(ShrinkPool(nodes, id, public), x)
            == Some(CutRow(FindNode(nodes, x).value, public || x != id))
  {
    var r := ShrinkPool(nodes, id, public);
    if nodes[0].id != x {
      assert FindNode(nodes, x) == FindNode(nodes[1..], x);
      ShrunkRow(nodes[1..], id, public, x);
      ShrinkTail(nodes, id, public);
      assert FindNode(r, x) == FindNode(r[1..], x);
    }
  }
}
