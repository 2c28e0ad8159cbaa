/**
 internal/netd/netd.go: what the network daemon makes of a compiled state, and what then
 happens to packets. A device is known to the kernel by its interface name alone, so of
 two links with one name only the last has a device.
 */
module DataPlane {
  import opened Prelude
  import opened Model
  import opened Routing
  import opened Netd

  // ----- routes -----

  /** The kernel's main table: a device for each destination. */
  type KernelRoutes = map<string, string>

  /** The destination of a route command, "" for none. */
  function RouteDest(ip: string): string {
    var t := TrimSpace(ip);
    if t == "" then "" else WithPrefix(t)
  }

  /** `ip route replace` for each address of one interface. */
  function InstallAll(routes: KernelRoutes, ips: seq<string>, dev: string): KernelRoutes {
    if ips == [] then routes
    else
      var m := InstallAll(routes, ips[..|ips| - 1], dev);
      var dest := RouteDest(ips[|ips| - 1]);
      if dest == "" then m else m[dest := dev]
  }

  /** The same for every interface that has a name, in order: a later route replaces an earlier one. */
  function RoutesAfter(routes: KernelRoutes, links: seq<LinkCfg>): KernelRoutes {
    if links == [] then routes
    else NextRoutes(RoutesAfter(routes, links[..|links| - 1]), links[|links| - 1])
  }

  function NextRoutes(routes: KernelRoutes, l: LinkCfg): KernelRoutes {
    if l.iface == "" then routes else InstallAll(routes, l.allowedIPs, l.iface)
  }

  predicate RoutedOver(routes: KernelRoutes, c: string, dev: string) {
    c in routes && routes[c] == dev
  }

  /** Route commands take these addresses as they are. */
  predicate CanonicalList(ips: seq<string>) {
    forall ip :: ip in ips ==> RouteDest(ip) == ip
  }

  lemma {:induction false} InstalledAt(routes: KernelRoutes, ips: seq<string>, dev: string, c: string)
    requires c != "" && CanonicalList(ips)
    ensures var m := InstallAll(routes, ips, dev);
            if c in ips then c in m && m[c] == dev else (c in m <==> c in routes) && (c in m ==> m[c] == routes[c])
  {
    if ips != [] {
      var k := |ips| - 1;
      assert ips == ips[..k] + [ips[k]];
      InstalledAt(routes, ips[..k], dev, c);
    }
  }

  predicate AllCanonical(links: seq<LinkCfg>) {
    forall i :: 0 <= i < |links| ==> CanonicalList(links[i].allowedIPs)
  }

  /** What one more interface does to the route to `c`. */
  lemma RouteStep(m: KernelRoutes, l: LinkCfg, c: string)
    requires c != "" && CanonicalList(l.allowedIPs)
    ensures c in l.allowedIPs && l.iface != "" ==> RoutedOver(NextRoutes(m, l), c, l.iface)
    ensures c !in l.allowedIPs ==> forall dev :: RoutedOver(m, c, dev) ==> RoutedOver(NextRoutes(m, l), c, dev)
  {
    InstalledAt(m, l.allowedIPs, l.iface, c);
  }

  /** No other interface holds `c`. */
  ghost predicate OnlyAt(links: seq<LinkCfg>, k: nat, c: string) {
    forall i :: 0 <= i < |links| && i != k ==> c !in links[i].allowedIPs
  }

  lemma RoutesNext(routes: KernelRoutes, links: seq<LinkCfg>, j: nat)
    requires 0 < j <= |links|
    ensures RoutesAfter(routes, links[..j]) == NextRoutes(RoutesAfter(routes, links[..j - 1]), links[j - 1])
  {
    assert links[..j][..j - 1] == links[..j - 1];
  }

  lemma {:induction false} RouteStays(routes: KernelRoutes, links: seq<LinkCfg>, k: nat, c: string, j: nat)
    requires c != "" && AllCanonical(links) && k < j <= |links| && c in links[k].allowedIPs && links[k].iface != ""
    requires OnlyAt(links, k, c)
    ensures RoutedOver(RoutesAfter(routes, links[..j]), c, links[k].iface)
    decreases j
  {
    if k < j - 1 {
      RouteStays(routes, links, k, c, j - 1);
    }
    RoutesNext(routes, links, j);
    RouteStep(RoutesAfter(routes, links[..j - 1]), links[j - 1], c);
  }

  /** With one interface holding `c`, the route to `c` is over that interface, if it has a name. */
  lemma RouteOver(routes: KernelRoutes, links: seq<LinkCfg>, k: nat, c: string)
    requires c != "" && AllCanonical(links) && k < |links| && c in links[k].allowedIPs && links[k].iface != ""
    requires OnlyAt(links, k, c)
    ensures RoutedOver(RoutesAfter(routes, links), c, links[k].iface)
  {
    RouteStays(routes, links, k, c, |links|);
    TakeAll(links);
  }

  // ----- applying a state -----

  class Daemon {
    const wg: Manager
    var routes: KernelRoutes

    constructor ()
      ensures fresh(wg) && wg.Valid() && wg.devs == map[] && routes == map[]
    {
      wg := new Manager();
      routes := map[];
    }

    /** apply: devices first, and only when they are all there the routes. */
    method Apply(st: NodeState, c: Codec) returns (ok: bool)
      requires wg.Valid()
      modifies this, wg
      ensures wg.Valid() && ReconcileStep(old(wg.devs), wg.devs, Texts(Wanted(st.links), c), ok)
      ensures routes == if ok then RoutesAfter(old(routes), st.links) else old(routes)
    {
      ok := wg.Reconcile(st.links, c);
      if !ok {
        return;
      }
      for i := 0 to |st.links|
        invariant wg.Valid() && ReconcileStep(old(wg.devs), wg.devs, Texts(Wanted(st.links), c), ok)
        invariant routes == RoutesAfter(old(routes), st.links[..i])
      {
        TakeNext(st.links, i);
        if st.links[i].iface != "" {
          InstallRoutes(st.links[i].allowedIPs, st.links[i].iface);
        }
      }
      TakeAll(st.links);
    }

    method InstallRoutes(ips: seq<string>, dev: string)
      modifies this`routes
      ensures routes == InstallAll(old(routes), ips, dev)
    {
      for i := 0 to |ips|
        invariant routes == InstallAll(old(routes), ips[..i], dev)
      {
        TakeNext(ips, i);
        var dest := TrimSpace(ips[i]);
        if dest == "" {
          continue;
        }
        if '/' !in dest {
          dest := dest + "/32";
        }
        routes := routes[dest := dev];
      }
      TakeAll(ips);
    }
  }

  /** What packets meet at one node. */
  datatype Plane = Plane(devs: map<string, Live>, routes: KernelRoutes)

  /**
   The state was applied: devices converged and run what they record, and routes were set, over whatever was there.
   */
  ghost predicate Applied(p: Plane, st: NodeState, c: Codec) {
    && Converged(p.devs, Texts(Wanted(st.links), c)) && Clean(p.devs)
    && exists start :: p.routes == RoutesAfter(start, st.links)
  }

  /** A successful apply, on devices that ran what they recorded, leaves the state applied. */
  lemma ApplyApplies(before: map<string, Live>, after: map<string, Live>, start: KernelRoutes, st: NodeState, c: Codec)
    requires Clean(before) && ReconcileStep(before, after, Texts(Wanted(st.links), c), true)
    ensures Applied(Plane(after, RoutesAfter(start, st.links)), st, c)
  {
    CleanStaysClean(before, after, Texts(Wanted(st.links), c));
  }

  /** All texts of the wanted devices can be built. */
  ghost predicate AllBuilt(st: NodeState, c: Codec) {
    forall name :: name in Wanted(st.links) ==> UapiOf(Wanted(st.links)[name], c).Built?
  }

  /** Devices and routes of a node that had none, after a successful apply. */
  ghost function FirstPlane(st: NodeState, c: Codec): Plane {
    var texts := Texts(Wanted(st.links), c);
    Plane(map name | name in texts && texts[name].Built? :: Live(Some(texts[name].text), texts[name].text),
          RoutesAfter(map[], st.links))
  }

  /** Every state whose wanted texts can all be built has devices and routes with which it is applied. */
  lemma CanBeApplied(st: NodeState, c: Codec)
    requires AllBuilt(st, c)
    ensures Applied(FirstPlane(st, c), st, c)
  {
    assert Converged(FirstPlane(st, c).devs, Texts(Wanted(st.links), c));
  }

  // ----- devices of links -----

  /** The device `dev` was configured for link `link`. */
  ghost predicate DeviceOf(st: NodeState, dev: string, link: LinkId) {
    dev in Wanted(st.links) && Wanted(st.links)[dev].linkId == link
  }

  /** The peer of device `dev` may use address `a`. */
  ghost predicate Admits(p: Plane, dev: string, a: string) {
    dev in p.devs && p.devs[dev].running.Some? && AllowedIp(a) in p.devs[dev].running.value
  }

  /** Packets for `a` leave over the device of `link`: the route names it, and it has a peer for `a`. */
  ghost predicate SendsOver(p: Plane, st: NodeState, a: string, link: LinkId) {
    a in p.routes && Admits(p, p.routes[a], a) && DeviceOf(st, p.routes[a], link)
  }

  /** Packets from `a` are accepted by the device of `link`. */
  ghost predicate AcceptsOn(p: Plane, st: NodeState, a: string, link: LinkId) {
    exists dev :: Admits(p, dev, a) && DeviceOf(st, dev, link)
  }

  /** The interface name of link `l` at node `n`. */
  function IfaceAt(g: Graph, n: NodeId, l: Link): string {
    var ep := FirstEndpoint(g.endpoints, l.id, n);
    if ep.Some? && ep.value.iface != "" then ep.value.iface else if n == l.nodeB then l.ifaceB else l.ifaceA
  }

  /** `l` is the last of the links configured at `n` that have its interface name. */
  ghost predicate LastOfName(g: Graph, n: NodeId, l: Link) {
    IfaceAt(g, n, l) != "" && exists i :: LastAt(g, n, Incident(g.links, n), l, i)
  }

  ghost predicate LastAt(g: Graph, n: NodeId, ls: seq<Link>, l: Link, i: nat) {
    i < |ls| && ls[i] == l && forall k :: i < k < |ls| ==> IfaceAt(g, n, ls[k]) != IfaceAt(g, n, l)
  }

  /** The map of wanted interfaces holds, under each name, the last interface of that name. */
  lemma {:induction false} WantedIsLast(links: seq<LinkCfg>, i: nat)
    requires i < |links| && links[i].iface != ""
    requires forall k :: i < k < |links| ==> links[k].iface != links[i].iface
    ensures links[i].iface in Wanted(links) && Wanted(links)[links[i].iface] == links[i]
    decreases |links|
  {
    if i < |links| - 1 {
      WantedIsLast(links[..|links| - 1], i);
    }
  }

  lemma {:induction false} WantedFrom(links: seq<LinkCfg>, name: string) returns (i: nat)
    requires name in Wanted(links)
    ensures i < |links| && Wanted(links)[name] == links[i] && links[i].iface == name && name != ""
    ensures forall k :: i < k < |links| ==> links[k].iface != name
    decreases |links|
  {
    var n := |links| - 1;
    if name != "" && links[n].iface == name {
      i := n;
    } else {
      i := WantedFrom(links[..n], name);
    }
  }

  ghost predicate DistinctLinks(ls: seq<Link>) {
    forall i, j :: 0 <= i < j < |ls| ==> ls[i].id != ls[j].id
  }

  lemma {:induction false} IncidentDistinct(links: seq<Link>, n: NodeId)
    requires DistinctLinks(links)
    ensures DistinctLinks(Incident(links, n))
  {
    if links != [] {
      var k := |links| - 1;
      IncidentDistinct(links[..k], n);
      var rest := Incident(links[..k], n);
      var ls := Incident(links, n);
      assert ls == rest || ls == rest + [links[k]];
      forall i, j | 0 <= i < j < |ls| ensures ls[i].id != ls[j].id {
        assert ls[i] == rest[i];
        if j < |rest| {
          assert ls[j] == rest[j];
        } else {
          assert ls[j] == links[k];
          EarlierId(links, n, rest[i]);
        }
      }
    }
  }

  lemma EarlierId(links: seq<Link>, n: NodeId, l: Link)
    requires links != [] && DistinctLinks(links)
    requires l in Incident(links[..|links| - 1], n)
    ensures l.id != links[|links| - 1].id
  {
    var k := |links| - 1;
    IncidentIs(links[..k], n);
    var j :| 0 <= j < k && links[..k][j] == l;
    assert links[j].id != links[k].id;
  }

  /** The interface at position `i` of a compiled node is that of its i-th configured link. */
  lemma InterfaceIs(g: Graph, dialable: string -> bool, n: Node, st: NodeState, i: nat)
    requires IsCompiled(g, dialable, n, st) && i < |st.links|
    ensures var ls := Incident(g.links, n.id);
            |st.links| == |ls| && st.links[i].linkId == ls[i].id && st.links[i].iface == IfaceAt(g, n.id, ls[i])
  {
    var ls := Incident(g.links, n.id);
    assert st.links[i].(allowedIPs := []) == FreshCfg(g, dialable, n, ls[i]);
    assert st.links[i].(allowedIPs := []).linkId == st.links[i].linkId
           && st.links[i].(allowedIPs := []).iface == st.links[i].iface;
  }

  /** The interfaces of a compiled node, against its configured links. */
  ghost predicate Mirrors(g: Graph, n: NodeId, links: seq<LinkCfg>, ls: seq<Link>) {
    && |links| == |ls| && (forall i :: 0 <= i < |ls| ==> MirrorsAt(g, n, links[i], ls[i]))
    && DistinctLinks(ls)
  }

  ghost predicate MirrorsAt(g: Graph, n: NodeId, cfg: LinkCfg, l: Link) {
    cfg.linkId == l.id && cfg.iface == IfaceAt(g, n, l)
  }

  lemma CompiledMirrors(g: Graph, dialable: string -> bool, n: Node, st: NodeState)
    requires UniqueIds(g) && IsCompiled(g, dialable, n, st)
    ensures Mirrors(g, n.id, st.links, Incident(g.links, n.id))
  {
    IncidentDistinct(g.links, n.id);
    forall i | 0 <= i < |st.links| ensures MirrorsAt(g, n.id, st.links[i], Incident(g.links, n.id)[i]) {
      InterfaceIs(g, dialable, n, st, i);
    }
  }

  lemma LastHasDevice(g: Graph, n: NodeId, st: NodeState, ls: seq<Link>, l: Link, i: nat)
    requires Mirrors(g, n, st.links, ls) && LastAt(g, n, ls, l, i) && IfaceAt(g, n, l) != ""
    ensures DeviceOf(st, IfaceAt(g, n, l), l.id)
  {
    forall k | i < k < |ls| ensures st.links[k].iface != st.links[i].iface {
      assert MirrorsAt(g, n, st.links[k], ls[k]);
    }
    assert MirrorsAt(g, n, st.links[i], ls[i]);
    WantedIsLast(st.links, i);
  }

  lemma DeviceIsLast(g: Graph, n: NodeId, st: NodeState, ls: seq<Link>, l: Link, dev: string) returns (i: nat)
    requires Mirrors(g, n, st.links, ls) && l in ls && DeviceOf(st, dev, l.id)
    ensures LastAt(g, n, ls, l, i) && dev == IfaceAt(g, n, l) && dev != "" && Wanted(st.links)[dev] == st.links[i]
  {
    i := WantedFrom(st.links, dev);
    var j :| 0 <= j < |ls| && ls[j] == l;
    assert MirrorsAt(g, n, st.links[i], ls[i]);
    assert ls[i].id == ls[j].id;
    forall k | i < k < |ls| ensures IfaceAt(g, n, ls[k]) != IfaceAt(g, n, l) {
      assert MirrorsAt(g, n, st.links[k], ls[k]);
    }
  }

  /** A link has a device at a compiled node exactly if it is the last of its name there. */
  lemma HasDeviceIff(g: Graph, dialable: string -> bool, n: Node, st: NodeState, l: Link, dev: string)
    requires UniqueIds(g) && IsCompiled(g, dialable, n, st) && l in Incident(g.links, n.id)
    ensures DeviceOf(st, dev, l.id) <==> LastOfName(g, n.id, l) && dev == IfaceAt(g, n.id, l)
  {
    var ls := Incident(g.links, n.id);
    CompiledMirrors(g, dialable, n, st);
    if LastOfName(g, n.id, l) {
      var i: nat :| LastAt(g, n.id, ls, l, i);
      LastHasDevice(g, n.id, st, ls, l, i);
    }
    if DeviceOf(st, dev, l.id) {
      var i := DeviceIsLast(g, n.id, st, ls, l, dev);
    }
  }

  // ----- what a device admits -----

  /** The text of an interface allows exactly its compiled addresses. */
  lemma TextAllows(g: Graph, dialable: string -> bool, n: Node, st: NodeState, cfg: LinkCfg, codec: Codec, a: string)
    requires IsCompiled(g, dialable, n, st) && cfg in st.links && UapiOf(cfg, codec).Built?
    ensures AllowedIp(a) in UapiOf(cfg, codec).text <==> a in cfg.allowedIPs
  {
    DeviceAllowsCompiled(g, dialable, n, st, cfg);
    var t, lines := UapiOf(cfg, codec).text, AllowedLines(cfg.allowedIPs, {});
    var tail := EndpointLines(cfg, codec);
    assert AllowedIp(a) in t <==> AllowedIp(a) in lines;
    if a in cfg.allowedIPs {
      var i :| 0 <= i < |cfg.allowedIPs| && cfg.allowedIPs[i] == a;
      assert lines[i] == AllowedIp(a);
    }
  }

  /** On an applied node, the device of a link admits exactly the addresses compiled for the link. */
  lemma DeviceAdmits(g: Graph, dialable: string -> bool, n: Node, st: NodeState, p: Plane, codec: Codec, dev: string,
                     cfg: LinkCfg, a: string)
    requires IsCompiled(g, dialable, n, st) && Applied(p, st, codec) && cfg in st.links
    requires dev in Wanted(st.links) && Wanted(st.links)[dev] == cfg
    ensures Admits(p, dev, a) <==> a in cfg.allowedIPs
  {
    assert UpToDate(p.devs, Texts(Wanted(st.links), codec), dev);
    TextAllows(g, dialable, n, st, cfg, codec, a);
  }
}
