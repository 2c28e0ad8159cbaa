/** The entities of internal/core/types.go and internal/core/desired.go, as values. */
module Model {
  import opened Prelude

  type NodeId = string
  type LinkId = string

  /** A `host:port` pair; the source formats and splits it as one string. */
  datatype HostPort = HostPort(host: string, port: int)

  datatype Node = Node(
    id: NodeId,
    overlayIPv4: string,
    publicKey: string,
    privateKey: string, // decrypted, "" when decryption fails
    parent: Option<NodeId>,
    isController: bool,
    portStart: int,
    portEnd: int)

  datatype LinkStatus = Pending | Active | Disabled | Failed

  datatype Link = Link(
    id: LinkId,
    nodeA: NodeId,
    nodeB: NodeId,
    initiator: NodeId,
    listener: NodeId,
    listenerAddress: string,
    listenerPort: int,
    ifaceA: string,
    ifaceB: string,
    enabled: bool,
    bidirectional: bool,
    status: LinkStatus)

  datatype Endpoint = Endpoint(
    id: string,
    linkId: LinkId,
    nodeId: NodeId,
    iface: string,
    listenPort: int,
    peerEndpoint: Option<HostPort>,
    peerPublicKey: string,
    keepalive: int,
    isInitiator: bool)

  /** One WireGuard interface of one node, as sent to its agent. */
  datatype LinkCfg = LinkCfg(
    linkId: LinkId,
    iface: string,
    listenPort: int,
    peerPublicKey: string,
    peerEndpoint: Option<HostPort>,
    keepalive: int,
    isInitiator: bool,
    privateKey: string,
    overlayIP: string,
    peerOverlayIP: string,
    allowedIPs: seq<string>)

  datatype Route = Route(destination: string, dev: string)
  datatype RouteTable = RouteTable(tableId: int, routes: seq<Route>)

  datatype NodeState = NodeState(nodeId: NodeId, links: seq<LinkCfg>, tables: seq<RouteTable>)

  /** `l` joins `a` and `b`, in either order. */
  predicate Joins(l: Link, a: NodeId, b: NodeId) {
    (l.nodeA == a && l.nodeB == b) || (l.nodeA == b && l.nodeB == a)
  }

  predicate Touches(l: Link, n: NodeId) {
    l.nodeA == n || l.nodeB == n
  }

  /** storage.InterfaceName: a name for the interface at `a` towards `b`, from four characters of each id. */
  function InterfaceName(a: string, b: string): string {
    var name := "pwl-" + Short(a) + Short(b);
    if |name| > 15 then name[..15] else name
  }

  function Short(id: string): string {
    if |id| >= 4 then id[..4] else id
  }

  /** Names of the interfaces of one node differ exactly where the short ids of the peers do. */
  lemma InterfaceNamesDiffer(a: NodeId, b: NodeId, c: NodeId)
    ensures InterfaceName(a, b) == InterfaceName(a, c) <==> Short(b) == Short(c)
  {
    var head := "pwl-" + Short(a);
    assert InterfaceName(a, b) == head + Short(b) && InterfaceName(a, c) == head + Short(c);
    assert (head + Short(b))[|head|..] == Short(b) && (head + Short(c))[|head|..] == Short(c);
  }
}
