/**
 Links outside the control tree: what one more of them does to the devices of a node. It
 carries no overlay address, but its interface name may be taken.
 */
module Shortcuts {
  import opened Model
  import opened Walks
  import opened ControlTree
  import opened Topology
  import opened Routing
  import opened Delivery
  import opened Netd
  import opened DataPlane
  import Sorting

  // ----- compiled states -----

  /** `links` with `l` inserted at position `i`. */
  function Inserted(links: seq<Link>, i: nat, l: Link): seq<Link>
    requires i <= |links|
  {
    links[..i] + [l] + links[i..]
  }

  lemma {:induction false} InsertedIrrelevant(links: seq<Link>, i: nat, l: Link, a: NodeId, b: NodeId)
    requires i <= |links| && !(l.enabled && Joins(l, a, b))
    ensures FirstLink(Inserted(links, i, l), a, b) == FirstLink(links, a, b)
    decreases i
  {
    var more := Inserted(links, i, l);
    if i == 0 {
      assert more[1..] == links;
    } else {
      assert more[0] == links[0] && more[1..] == Inserted(links[1..], i - 1, l);
      InsertedIrrelevant(links[1..], i - 1, l, a, b);
    }
  }

  lemma ShortcutSameHop(nodes: seq<Node>, links: seq<Link>, i: nat, l: Link, a: NodeId, b: NodeId)
    requires i <= |links| && !TreeAdjacent(ParentsOf(nodes), l.nodeA, l.nodeB)
    ensures ControlHop(nodes, Inserted(links, i, l), a, b) == ControlHop(nodes, links, a, b)
  {
    var p := ParentsOf(nodes);
    var more := Inserted(links, i, l);
    if TreePath(p, a, b).Some? {
      var q := TreePath(p, a, b).value;
      forall k | 0 <= k < |q| - 1
        ensures (q[k], q[k + 1]) in LinkEdges(more) <==> (q[k], q[k + 1]) in LinkEdges(links)
        ensures FirstLink(more, q[k], q[k + 1]) == FirstLink(links, q[k], q[k + 1])
      {
        assert (q[k], q[k + 1]) in TreeEdges(p);
        InsertedIrrelevant(links, i, l, q[k], q[k + 1]);
        FirstLinkIsFirst(more, q[k], q[k + 1]);
        FirstLinkIsFirst(links, q[k], q[k + 1]);
      }
      assert IsWalk(LinkEdges(more), q) <==> IsWalk(LinkEdges(links), q);
    }
  }

  /** The main routes of a compiled node are exactly its first routes. */
  lemma RoutesAreFirstRoutes(g: Graph, n: Node, routes: seq<Route>, r: Route)
    requires RoutesOk(g, n, routes, |g.nodes|)
    ensures r in routes <==> FirstRoute(g, n, |g.nodes|, r)
  {
    if FirstRoute(g, n, |g.nodes|, r) {
      var j :| 0 <= j < |g.nodes| && RoutesTo(g, n, j, r.destination) && r.dev == RouteFor(g, n, g.nodes[j]).value.iface
               && forall i :: 0 <= i < j ==> !RoutesTo(g, n, i, r.destination);
      var i :| 0 <= i < |routes| && routes[i].destination == r.destination;
      assert routes[i] in routes && FirstRoute(g, n, |g.nodes|, routes[i]);
      var k :| 0 <= k < |g.nodes| && RoutesTo(g, n, k, r.destination)
               && routes[i].dev == RouteFor(g, n, g.nodes[k]).value.iface
               && forall i :: 0 <= i < k ==> !RoutesTo(g, n, i, r.destination);
      assert j == k;
    }
  }

  lemma SameSent(g: Graph, g': Graph, n: Node, c: string, link: LinkId)
    requires g.nodes == g'.nodes
    requires forall m :: RouteFor(g, n, m) == RouteFor(g', n, m)
    ensures SentOver(g, n, |g.nodes|, c, link) <==> SentOver(g', n, |g.nodes|, c, link)
  {
    forall j | 0 <= j < |g.nodes| ensures ReachedOver(g, n, j, c, link) <==> ReachedOver(g', n, j, c, link) {
    }
  }

  lemma SameFirstRoute(g: Graph, g': Graph, n: Node, r: Route)
    requires g.nodes == g'.nodes
    requires forall m :: RouteFor(g, n, m) == RouteFor(g', n, m)
    ensures FirstRoute(g, n, |g.nodes|, r) <==> FirstRoute(g', n, |g.nodes|, r)
  {
    forall j | 0 <= j < |g.nodes| ensures RoutesTo(g, n, j, r.destination) <==> RoutesTo(g', n, j, r.destination) {
    }
  }

  /**
   Inserting a link between two nodes that are not parent and child, enabled or not, at
   any position, changes no route of any node and no AllowedIPs list of any other link;
   its own lists are empty.
   */
  lemma ShortcutsChangeNothing(g: Graph, i: nat, l: Link, dialable: string -> bool, n: Node, st: NodeState,
                               st': NodeState)
    requires i <= |g.links| && !TreeAdjacent(ParentsOf(g.nodes), l.nodeA, l.nodeB)
    requires UniqueIds(g.(links := Inserted(g.links, i, l)))
    requires IsCompiled(g, dialable, n, st)
    requires IsCompiled(g.(links := Inserted(g.links, i, l)), dialable, n, st')
    ensures forall r :: r in MainRoutes(st.tables) <==> r in MainRoutes(st'.tables)
    ensures forall cfg, cfg' :: cfg in st.links && cfg' in st'.links && cfg.linkId == cfg'.linkId ==>
              forall c :: c in cfg.allowedIPs <==> c in cfg'.allowedIPs
    ensures forall cfg' :: cfg' in st'.links && cfg'.linkId == l.id ==> cfg'.allowedIPs == []
  {
    var g' := g.(links := Inserted(g.links, i, l));
    forall m ensures RouteFor(g, n, m) == RouteFor(g', n, m) {
      ShortcutSameHop(g.nodes, g.links, i, l, n.id, m.id);
    }
    forall r ensures r in MainRoutes(st.tables) <==> r in MainRoutes(st'.tables) {
      RoutesAreFirstRoutes(g, n, MainRoutes(st.tables), r);
      RoutesAreFirstRoutes(g', n, MainRoutes(st'.tables), r);
      SameFirstRoute(g, g', n, r);
    }
    forall cfg, cfg', c | cfg in st.links && cfg' in st'.links && cfg.linkId == cfg'.linkId
      ensures c in cfg.allowedIPs <==> c in cfg'.allowedIPs
    {
      AllowedIsSent(g, dialable, n, st, cfg, c);
      AllowedIsSent(g', dialable, n, st', cfg', c);
      SameSent(g, g', n, c, cfg.linkId);
    }
    forall cfg' | cfg' in st'.links && cfg'.linkId == l.id ensures cfg'.allowedIPs == [] {
      if cfg'.allowedIPs != [] {
        var c := cfg'.allowedIPs[0];
        AllowedIsSent(g', dialable, n, st', cfg', c);
        SameSent(g, g', n, c, l.id);
        InsertedIdIsNew(g, i, l, n, c);
      }
    }
  }

  lemma AllowedIsSent(g: Graph, dialable: string -> bool, n: Node, st: NodeState, cfg: LinkCfg, c: string)
    requires IsCompiled(g, dialable, n, st) && cfg in st.links
    ensures c in cfg.allowedIPs <==> SentOver(g, n, |g.nodes|, c, cfg.linkId)
  {
    var k :| 0 <= k < |st.links| && st.links[k] == cfg;
    assert AllowedAt(g, n, st.links[k], |g.nodes|);
  }

  lemma InsertedIdIsFresh(g: Graph, i: nat, l: Link)
    requires i <= |g.links| && UniqueIds(g.(links := Inserted(g.links, i, l)))
    ensures forall k :: 0 <= k < |g.links| ==> g.links[k].id != l.id
  {
    var more := Inserted(g.links, i, l);
    forall k | 0 <= k < |g.links| ensures g.links[k].id != l.id {
      assert more[i] == l && more[if k < i then k else k + 1] == g.links[k];
    }
  }

  lemma InsertedIdIsNew(g: Graph, i: nat, l: Link, n: Node, c: string)
    requires i <= |g.links| && UniqueIds(g.(links := Inserted(g.links, i, l)))
    ensures !SentOver(g, n, |g.nodes|, c, l.id)
  {
    if SentOver(g, n, |g.nodes|, c, l.id) {
      var j :| 0 <= j < |g.nodes| && ReachedOver(g, n, j, c, l.id);
      HopHasPath(g.nodes, g.links, n.id, g.nodes[j].id);
      var y := TreePath(ParentsOf(g.nodes), n.id, g.nodes[j].id).value[1];
      InsertedIdIsFresh(g, i, l);
      FirstLinkIsFirst(g.links, n.id, y);
    }
  }

  // ----- interfaces -----

  /**
   `g'` is `g` with link `l`, between nodes that are not parent and child, at position `i`, and endpoint rows of its
   own.
   */
  ghost predicate AddsShortcut(g: Graph, g': Graph, i: nat, l: Link) {
    && i <= |g.links| && g'.nodes == g.nodes && g'.links == Inserted(g.links, i, l) && UniqueIds(g')
    && !TreeAdjacent(ParentsOf(g.nodes), l.nodeA, l.nodeB)
    && forall k: LinkId, n: NodeId :: k != l.id ==>
         FirstEndpoint(g'.endpoints, k, n) == FirstEndpoint(g.endpoints, k, n)
  }

  /** Rows of the new link, wherever they are added behind the others, disturb no other link's rows. */
  lemma {:induction false} OwnRowsOnly(eps: seq<Endpoint>, rows: seq<Endpoint>, id: LinkId, k: LinkId, n: NodeId)
    requires (forall e :: e in rows ==> e.linkId == id) && k != id
    ensures FirstEndpoint(eps + rows, k, n) == FirstEndpoint(eps, k, n)
    decreases |eps| + |rows|
  {
    if eps != [] {
      assert (eps + rows)[1..] == eps[1..] + rows;
      OwnRowsOnly(eps[1..], rows, id, k, n);
    } else if rows != [] {
      assert eps + rows == rows && [] + rows[1..] == rows[1..];
      assert rows[0] in rows;
      OwnRowsOnly([], rows[1..], id, k, n);
    }
  }

  /** The configured links of a node, with the new one in its place. */
  lemma InsertedIncident(links: seq<Link>, i: nat, l: Link, n: NodeId)
    requires i <= |links|
    ensures var before, after := Incident(links[..i], n), Incident(links[i..], n);
            && Incident(links, n) == before + after
            && Incident(Inserted(links, i, l), n) == if Configured(l, n) then before + [l] + after else before + after
  {
    assert links == links[..i] + links[i..];
    IncidentGrows(links[..i], links[i..], n);
    IncidentGrows(links[..i] + [l], links[i..], n);
    IncidentGrows(links[..i], [l], n);
    assert [l][..0] == [];
    assert Inserted(links, i, l) == links[..i] + [l] + links[i..];
  }

  lemma SameRoutes(g: Graph, g': Graph, i: nat, l: Link, n: Node)
    requires AddsShortcut(g, g', i, l)
    ensures forall m :: RouteFor(g, n, m) == RouteFor(g', n, m)
  {
    forall m ensures RouteFor(g, n, m) == RouteFor(g', n, m) {
      ShortcutSameHop(g.nodes, g.links, i, l, n.id, m.id);
    }
  }

  /** The interface of an old link is the same before and after, AllowedIPs included. */
  lemma SameInterface(g: Graph, g': Graph, i: nat, l: Link, dialable: string -> bool, n: Node, st: NodeState,
                      st': NodeState, a: nat, b: nat)
    requires AddsShortcut(g, g', i, l) && IsCompiled(g, dialable, n, st) && IsCompiled(g', dialable, n, st')
    requires a < |Incident(g.links, n.id)| && b < |Incident(g'.links, n.id)|
    requires Incident(g.links, n.id)[a] == Incident(g'.links, n.id)[b] && Incident(g.links, n.id)[a].id != l.id
    ensures st.links[a] == st'.links[b]
  {
    var k, x, y := Incident(g.links, n.id)[a], st.links[a], st'.links[b];
    assert FreshCfg(g, dialable, n, k) == FreshCfg(g', dialable, n, k);
    assert x.(allowedIPs := []) == y.(allowedIPs := []) && x.(allowedIPs := []).linkId == x.linkId == y.linkId;
    SameRoutes(g, g', i, l, n);
    assert AllowedAt(g, n, x, |g.nodes|) && AllowedAt(g', n, y, |g'.nodes|);
    forall c ensures c in x.allowedIPs <==> c in y.allowedIPs {
      SameSent(g, g', n, c, x.linkId);
    }
    Sorting.AscendingIsUnique(x.allowedIPs, y.allowedIPs);
    assert x == x.(allowedIPs := []).(allowedIPs := x.allowedIPs);
  }

  /** The shortcut's own interface carries no address. */
  lemma ShortcutCarriesNothing(g: Graph, g': Graph, i: nat, l: Link, dialable: string -> bool, n: Node,
                               st': NodeState, b: nat)
    requires AddsShortcut(g, g', i, l) && IsCompiled(g', dialable, n, st')
    requires b < |Incident(g'.links, n.id)| && Incident(g'.links, n.id)[b] == l
    ensures st'.links[b].allowedIPs == [] && st'.links[b].linkId == l.id
  {
    var y := st'.links[b];
    assert y.(allowedIPs := []) == FreshCfg(g', dialable, n, l) && y.(allowedIPs := []).linkId == y.linkId;
    SameRoutes(g, g', i, l, n);
    assert AllowedAt(g', n, y, |g'.nodes|);
    forall c ensures c !in y.allowedIPs {
      SameSent(g, g', n, c, l.id);
      NotYetSent(g, g', i, l, n, c);
    }
    Sorting.HasMember(y.allowedIPs);
  }

  lemma NotYetSent(g: Graph, g': Graph, i: nat, l: Link, n: Node, c: string)
    requires AddsShortcut(g, g', i, l)
    ensures !SentOver(g, n, |g.nodes|, c, l.id)
  {
    if SentOver(g, n, |g.nodes|, c, l.id) {
      var j :| 0 <= j < |g.nodes| && ReachedOver(g, n, j, c, l.id);
      var k := HopLinkOf(g, n, g.nodes[j]);
      OldIdsDiffer(g, g', i, l, k);
    }
  }

  lemma HopLinkOf(g: Graph, n: Node, m: Node) returns (k: Link)
    requires RouteFor(g, n, m).Some?
    ensures k in g.links && k.id == RouteFor(g, n, m).value.linkId
  {
    HopIsIncident(g, n, m);
    k :| k in Incident(g.links, n.id) && k.id == RouteFor(g, n, m).value.linkId;
    IncidentIs(g.links, n.id);
  }

  lemma OldIdsDiffer(g: Graph, g': Graph, i: nat, l: Link, k: Link)
    requires AddsShortcut(g, g', i, l) && k in g.links
    ensures k.id != l.id
  {
    var j :| 0 <= j < |g.links| && g.links[j] == k;
    assert g'.links[i] == l && g'.links[if j < i then j else j + 1] == k;
  }

  /** Where an old link's interface stands once the shortcut's is inserted at `k`. */
  function Shifted(a: nat, k: nat, inserted: bool): nat {
    if a < k || !inserted then a else a + 1
  }

  lemma OldInterfaces(g: Graph, g': Graph, i: nat, l: Link, dialable: string -> bool, n: Node, st: NodeState,
                      st': NodeState)
    requires AddsShortcut(g, g', i, l) && IsCompiled(g, dialable, n, st) && IsCompiled(g', dialable, n, st')
    ensures var k, inserted := |Incident(g.links[..i], n.id)|, Configured(l, n.id);
            && k <= |st.links| && |st'.links| == |st.links| + (if inserted then 1 else 0)
            && forall a :: 0 <= a < |st.links| ==> st'.links[Shifted(a, k, inserted)] == st.links[a]
  {
    InsertedIncident(g.links, i, l, n.id);
    IncidentIs(g.links, n.id);
    var ls, k := Incident(g.links, n.id), |Incident(g.links[..i], n.id)|;
    forall a | 0 <= a < |ls| ensures st'.links[Shifted(a, k, Configured(l, n.id))] == st.links[a] {
      assert ls[a] in ls;
      OldIdsDiffer(g, g', i, l, ls[a]);
      SameInterface(g, g', i, l, dialable, n, st, st', a, Shifted(a, k, Configured(l, n.id)));
    }
  }

  /** Where the shortcut is configured, its interface is inserted; nothing else changes. */
  lemma ShortcutInserts(g: Graph, g': Graph, i: nat, l: Link, dialable: string -> bool, n: Node, st: NodeState,
                        st': NodeState)
    requires AddsShortcut(g, g', i, l) && IsCompiled(g, dialable, n, st) && IsCompiled(g', dialable, n, st')
    ensures !Configured(l, n.id) ==> st'.links == st.links
    ensures Configured(l, n.id) ==>
              var k := |Incident(g.links[..i], n.id)|;
              && k <= |st.links| && k < |st'.links| && st'.links == st.links[..k] + [st'.links[k]] + st.links[k..]
              && st'.links[k].allowedIPs == [] && st'.links[k].linkId == l.id
  {
    var k := |Incident(g.links[..i], n.id)|;
    OldInterfaces(g, g', i, l, dialable, n, st, st');
    InsertedIncident(g.links, i, l, n.id);
    if Configured(l, n.id) {
      ShortcutCarriesNothing(g, g', i, l, dialable, n, st', k);
      InsertedAt(st.links, st'.links, k);
    } else {
      forall a | 0 <= a < |st.links| ensures st'.links[a] == st.links[a] {
        assert st'.links[Shifted(a, k, false)] == st.links[a];
      }
    }
  }

  lemma InsertedAt(links: seq<LinkCfg>, links': seq<LinkCfg>, k: nat)
    requires k <= |links| && |links'| == |links| + 1
    requires forall a :: 0 <= a < |links| ==> links'[Shifted(a, k, true)] == links[a]
    ensures links' == links[..k] + [links'[k]] + links[k..]
  {
    var r := links[..k] + [links'[k]] + links[k..];
    forall b | 0 <= b < |links'| ensures links'[b] == r[b] {
      if b < k {
        assert links'[Shifted(b, k, true)] == links[b];
      } else if b > k {
        assert links'[Shifted(b - 1, k, true)] == links[b - 1];
      }
    }
  }

  // ----- devices -----

  /** An interface at position `k` or later has this name. */
  predicate NamedFrom(links: seq<LinkCfg>, k: nat, name: string) {
    exists j :: k <= j < |links| && links[j].iface == name
  }

  /** `w'` has what `w` has under `name`. */
  predicate SameAt(w: map<string, LinkCfg>, w': map<string, LinkCfg>, name: string) {
    (name in w <==> name in w') && (name in w ==> w'[name] == w[name])
  }

  /** One more interface: it takes its name unless a later one has it; other names are not affected. */
  lemma {:induction false} WantedWithOneMore(links: seq<LinkCfg>, k: nat, cfg: LinkCfg, name: string)
    requires k <= |links|
    ensures var w, w' := Wanted(links), Wanted(links[..k] + [cfg] + links[k..]);
            if name != "" && name == cfg.iface && !NamedFrom(links, k, name) then name in w' && w'[name] == cfg
               else SameAt(w, w', name)
    decreases |links| - k
  {
    if k == |links| {
      assert (links[..k] + [cfg] + links[k..])[..|links|] == links;
    } else {
      InsertLast(links, k, cfg);
      WantedWithOneMore(links[..|links| - 1], k, cfg, name);
      NamedLast(links, k, name);
    }
  }

  lemma InsertLast(links: seq<LinkCfg>, k: nat, cfg: LinkCfg)
    requires k < |links|
    ensures var all, front := links[..k] + [cfg] + links[k..], links[..|links| - 1];
            all[..|all| - 1] == front[..k] + [cfg] + front[k..] && all[|all| - 1] == links[|links| - 1]
  {
  }

  lemma NamedLast(links: seq<LinkCfg>, k: nat, name: string)
    requires k < |links|
    ensures NamedFrom(links, k, name) <==> NamedFrom(links[..|links| - 1], k, name) || links[|links| - 1].iface == name
  {
    var front := links[..|links| - 1];
    if NamedFrom(front, k, name) {
      var j :| k <= j < |front| && front[j].iface == name;
      assert links[j].iface == name;
    }
    if j :| k <= j < |links| && links[j].iface == name {
      if j < |front| { assert front[j].iface == name; }
    }
  }

  /** When an interface of a new link leaves all wanted configurations as they were. */
  lemma InsertLeavesDevices(links: seq<LinkCfg>, k: nat, cfg: LinkCfg)
    requires k <= |links| && forall dev :: dev in Wanted(links) ==> dev != "" && Wanted(links)[dev].linkId != cfg.linkId
    ensures var w, w' := Wanted(links), Wanted(links[..k] + [cfg] + links[k..]);
            (forall dev :: dev in w ==> SameAt(w, w', dev)) <==>
            cfg.iface == "" || cfg.iface !in w || NamedFrom(links, k, cfg.iface)
  {
    var w, w' := Wanted(links), Wanted(links[..k] + [cfg] + links[k..]);
    forall dev | dev in w ensures SameAt(w, w', dev) <==> !(dev == cfg.iface && !NamedFrom(links, k, dev)) {
      WantedWithOneMore(links, k, cfg, dev);
    }
  }

  /**
   A shortcut leaves the wanted configuration of every device as it was, exactly if it is
   not configured at the node, or its interface has no name, or nobody wanted that name, or
   a later interface keeps it. Otherwise it takes the device of another link.
   */
  lemma ShortcutLeavesDevices(g: Graph, g': Graph, i: nat, l: Link, dialable: string -> bool, n: Node, st: NodeState,
                              st': NodeState)
    requires AddsShortcut(g, g', i, l) && IsCompiled(g, dialable, n, st) && IsCompiled(g', dialable, n, st')
    ensures var w, name := Wanted(st.links), IfaceAt(g', n.id, l);
            (forall dev :: dev in w ==> SameAt(w, Wanted(st'.links), dev)) <==>
            !Configured(l, n.id) || name == "" || name !in w
                || NamedFrom(st.links, |Incident(g.links[..i], n.id)|, name)
  {
    ShortcutInserts(g, g', i, l, dialable, n, st, st');
    if Configured(l, n.id) {
      var k := |Incident(g.links[..i], n.id)|;
      InsertedIncident(g.links, i, l, n.id);
      InterfaceIs(g', dialable, n, st', k);
      forall dev | dev in Wanted(st.links) ensures dev != "" && Wanted(st.links)[dev].linkId != l.id {
        OldDevice(g, g', i, l, dialable, n, st, dev);
      }
      InsertLeavesDevices(st.links, k, st'.links[k]);
    }
  }

  /** A device wanted before is that of an old link. */
  lemma OldDevice(g: Graph, g': Graph, i: nat, l: Link, dialable: string -> bool, n: Node, st: NodeState, dev: string)
    requires AddsShortcut(g, g', i, l) && IsCompiled(g, dialable, n, st) && dev in Wanted(st.links)
    ensures Wanted(st.links)[dev].linkId != l.id && dev != ""
  {
    var j := WantedFrom(st.links, dev);
    InterfaceIs(g, dialable, n, st, j);
    IncidentIs(g.links, n.id);
    assert Incident(g.links, n.id)[j] in Incident(g.links, n.id);
    OldIdsDiffer(g, g', i, l, Incident(g.links, n.id)[j]);
  }

  /** Devices whose configuration stays the same are not touched when the node applies its new state. */
  lemma DeviceUntouched(before: map<string, Live>, after: map<string, Live>, w: map<string, LinkCfg>, w': map<string,
                        LinkCfg>,
                        c: Codec, ok: bool, dev: string)
    requires Converged(before, Texts(w, c)) && ReconcileStep(before, after, Texts(w', c), ok)
    requires dev in w && SameAt(w, w', dev) && dev in after
    ensures after[dev] == before[dev]
  {
    assert UpToDate(before, Texts(w, c), dev);
    assert UpToDate(before, Texts(w', c), dev);
    assert DeviceStep(before, after, Texts(w', c), dev, ok);
  }
}
