/** Inputs at which the limits of the main theorems show: colliding names, shared ports, a network without addresses. */
module Witnesses {
  import opened Prelude
  import opened Model
  import opened Tables
  import opened Repair
  import opened Enrolment
  import opened Store
  import opened StoreSafety
  import opened Forwarding
  import opened Network
  import opened Connectivity
  import Delivery
  import Netd
  import Overlay

  /** A key of 32 bytes in base64, one for each letter. */
  function Key(c: char): string {
    seq(43, i => c) + "="
  }

  // ----- enrolments below "aaaa-1" -----

  const ROOT := Node("aaaa-1", "10.0.0.1", Key('A'), Key('E'), None, true, 51820, 51899)

  function ChildNode(id: NodeId, parent: NodeId, ip: string, keys: KeyPair): Node {
    Node(id, ip, keys.public, keys.private, Some(parent), false, 51820, 51820)
  }

  function ChildLink(link: LinkId, parent: NodeId, id: NodeId, port: int): Link {
    Link(link, parent, id, id, parent, "192.0.2.1", port, InterfaceName(parent, id), InterfaceName(id, parent), true,
         false, Active)
  }

  function ParentRow(row: string, link: LinkId, parent: NodeId, id: NodeId, port: int, key: string): Endpoint {
    Endpoint(row, link, parent, InterfaceName(parent, id), port, None, key, 0, false)
  }

  function ChildRow(row: string, link: LinkId, parent: NodeId, id: NodeId, port: int, key: string): Endpoint {
    Endpoint(row, link, id, InterfaceName(id, parent), 0, Some(HostPort("192.0.2.1", port)), key, 25, true)
  }

  function ChildRequest(parent: NodeId, keys: KeyPair): EnrollRequest {
    EnrollRequest(Some(Token(false, false, Some(1))), 0, parent, "", "", Some(keys), "", "", false, None, None, None)
  }

  const KEYS1 := KeyPair(Key('I'), Key('M'))
  const KEYS2 := KeyPair(Key('Q'), Key('U'))

  const IDS1 := FreshIds("bbbb-1", "l-1", "e-1", "f-1")
  const IDS2 := FreshIds("bbbb-2", "l-2", "e-2", "f-2")
  const IDS3 := FreshIds("cccc-1", "l-2", "e-2", "f-2")

  const BEFORE := Db([ROOT], [], [])

  /** "bbbb-1" below "aaaa-1". */
  const FIRST := Db([ROOT, ChildNode("bbbb-1", "aaaa-1", "10.0.0.2", KEYS1)],
                    [ChildLink("l-1", "aaaa-1", "bbbb-1", 51820)],
                    [ParentRow("e-1", "l-1", "aaaa-1", "bbbb-1", 51820, KEYS1.public),
                     ChildRow("f-1", "l-1", "aaaa-1", "bbbb-1", 51820, ROOT.publicKey)])

  /** "bbbb-2" below "aaaa-1" as well. */
  const SECOND := Db(FIRST.nodes + [ChildNode("bbbb-2", "aaaa-1", "10.0.0.3", KEYS2)],
                     FIRST.links + [ChildLink("l-2", "aaaa-1", "bbbb-2", 51821)],
                     FIRST.endpoints + [ParentRow("e-2", "l-2", "aaaa-1", "bbbb-2", 51821, KEYS2.public),
                                        ChildRow("f-2", "l-2", "aaaa-1", "bbbb-2", 51821, ROOT.publicKey)])

  /** Or "cccc-1" below "bbbb-1". */
  const THIRD := Db(FIRST.nodes + [ChildNode("cccc-1", "bbbb-1", "10.0.0.3", KEYS2)],
                    FIRST.links + [ChildLink("l-2", "bbbb-1", "cccc-1", 51820)],
                    FIRST.endpoints + [ParentRow("e-2", "l-2", "bbbb-1", "cccc-1", 51820, KEYS2.public),
                                       ChildRow("f-2", "l-2", "bbbb-1", "cccc-1", 51820, KEYS1.public)])

  lemma FirstEnrolment()
    ensures FreshIn(BEFORE, IDS1) && EnrollStep(BEFORE, FIRST, ChildRequest("aaaa-1", KEYS1), IDS1, Enrolled)
  {
    assert BEFORE.nodes[0].id == "aaaa-1";
    assert FIRST.nodes[..1] == BEFORE.nodes;
    assert UsedPorts([], [], "aaaa-1") == {};
  }

  lemma SecondNode()
    ensures NodeAdded(FIRST.nodes, SECOND.nodes, "bbbb-2", "aaaa-1")
  {
    assert SECOND.nodes[..2] == FIRST.nodes;
  }

  lemma SecondLink()
    ensures EnrolledOver(FIRST.links, FIRST.endpoints, SECOND.links, SECOND.endpoints, ROOT, IDS2)
  {
    assert FIRST.links[0].listenerPort == 51820 && FIRST.links[0] in FIRST.links;
    assert UsedPorts(FIRST.links, FIRST.endpoints, "aaaa-1") == {51820};
  }

  lemma SecondEnrolment()
    ensures FreshIn(FIRST, IDS2) && EnrollStep(FIRST, SECOND, ChildRequest("aaaa-1", KEYS2), IDS2, Enrolled)
  {
    assert FIRST.nodes[0].id == "aaaa-1";
    SecondNode();
    SecondLink();
  }

  lemma FirstStore()
    ensures StoreOk(FIRST) && BackboneUp(FIRST)
  {
    BootstrappedStore(ROOT);
    FirstEnrolment();
    OpKeepsStore(BEFORE, FIRST, OpEnroll(ChildRequest("aaaa-1", KEYS1), IDS1, Enrolled));
    EnrollKeepsBackbone(BEFORE, FIRST, ChildRequest("aaaa-1", KEYS1), IDS1);
  }

  // ----- two children with one prefix -----

  lemma SecondBackbone()
    ensures BackboneUp(SECOND)
  {
    FirstStore();
    SecondEnrolment();
    EnrollKeepsBackbone(FIRST, SECOND, ChildRequest("aaaa-1", KEYS2), IDS2);
  }

  lemma SameShort()
    ensures Short("bbbb-1") == Short("bbbb-2")
  {
    assert Short("bbbb-1") == "bbbb" == Short("bbbb-2");
  }

  lemma SecondHides()
    ensures StoreOk(SECOND) && !EdgeClear(SECOND, "aaaa-1", "bbbb-1")
  {
    BootstrappedStore(ROOT);
    FirstEnrolment();
    SecondEnrolment();
    SameShort();
    SecondChildTakesDevice(BEFORE, FIRST, SECOND, ChildRequest("aaaa-1", KEYS1), IDS1, ChildRequest("aaaa-1", KEYS2),
                           IDS2);
  }

  /**
   After these two enrolments the store is in order and the backbone is up, yet no
   configuration that the nodes apply carries a packet between "bbbb-1" and its parent, in
   either direction.
   */
  lemma NamesCollide(dialable: string -> bool, out: map<NodeId, NodeState>, net: Planes, codec: Netd.Codec)
    requires AllApplied(GraphOf(SECOND), dialable, out, net, codec)
    ensures StoreOk(SECOND) && BackboneUp(SECOND)
    ensures !Connects(SECOND, out, net, SECOND.nodes[1], SECOND.nodes[0])
    ensures !Connects(SECOND, out, net, SECOND.nodes[0], SECOND.nodes[1])
  {
    SecondBackbone();
    SecondHides();
    FirstChildUnreachable(SECOND, dialable, out, net, codec, SECOND.nodes[0], SECOND.nodes[1]);
  }

  /** The six keys decode; the empty one need not. */
  predicate Decodes(codec: Netd.Codec) {
    forall c :: c in {'A', 'E', 'I', 'M', 'Q', 'U'} ==> codec.keyToHex(Key(c)).Some?
  }

  lemma SecondKeysDecode(codec: Netd.Codec)
    requires Decodes(codec)
    ensures KeysDecode(GraphOf(SECOND), codec)
  {
    assert SECOND.nodes == [ROOT, SECOND.nodes[1], SECOND.nodes[2]];
    forall e | e in SECOND.endpoints ensures codec.keyToHex(e.peerPublicKey).Some? {
      assert e.peerPublicKey == KEYS1.public || e.peerPublicKey == KEYS2.public || e.peerPublicKey == ROOT.publicKey;
    }
  }

  /** And such configurations exist: compiled, applied at every node, without connecting the two. */
  method DeployCollision(dialable: string -> bool, codec: Netd.Codec)
    returns (out: map<NodeId, NodeState>, ghost net: Planes)
    requires Decodes(codec)
    ensures Delivery.Compiled(GraphOf(SECOND), dialable, out)
    ensures AllApplied(GraphOf(SECOND), dialable, out, net, codec)
    ensures !Connects(SECOND, out, net, SECOND.nodes[1], SECOND.nodes[0])
    ensures !Connects(SECOND, out, net, SECOND.nodes[0], SECOND.nodes[1])
  {
    SecondHides();
    StoredGraph(SECOND);
    SecondKeysDecode(codec);
    out, net := Deploy(GraphOf(SECOND), dialable, codec);
    NamesCollide(dialable, out, net, codec);
  }

  // ----- a third node as initiator -----

  lemma ThirdNode()
    ensures NodeAdded(FIRST.nodes, THIRD.nodes, "cccc-1", "bbbb-1")
  {
    assert THIRD.nodes[..2] == FIRST.nodes;
  }

  lemma ThirdLink()
    ensures EnrolledOver(FIRST.links, FIRST.endpoints, THIRD.links, THIRD.endpoints, FIRST.nodes[1], IDS3)
  {
    assert UsedPorts(FIRST.links, FIRST.endpoints, "bbbb-1") == {};
  }

  lemma ThirdEnrolment()
    ensures FreshIn(FIRST, IDS3) && EnrollStep(FIRST, THIRD, ChildRequest("bbbb-1", KEYS2), IDS3, Enrolled)
  {
    assert FIRST.nodes[1].id == "bbbb-1";
    ThirdNode();
    ThirdLink();
    ThirdParent();
  }

  lemma ThirdParent()
    ensures FindNode(FIRST.nodes, "bbbb-1") == Some(FIRST.nodes[1])
  {
  }

  lemma ThirdStore()
    ensures StoreOk(THIRD)
  {
    FirstStore();
    ThirdEnrolment();
    OpKeepsStore(FIRST, THIRD, OpEnroll(ChildRequest("bbbb-1", KEYS2), IDS3, Enrolled));
  }

  /** A link between "aaaa-1" and "cccc-1" that "bbbb-1" is to initiate. */
  const REQUEST := LinkRequest("aaaa-1", "cccc-1", "bbbb-1", "192.0.2.3", true, false)
  const IDS4 := FreshIds("", "l-3", "e-3", "f-3")

  const LINKED := Db(THIRD.nodes,
                     THIRD.links + [Link("l-3", "aaaa-1", "cccc-1", "bbbb-1", "cccc-1", "192.0.2.3", 51820,
                                         InterfaceName("aaaa-1", "cccc-1"), InterfaceName("cccc-1", "aaaa-1"), true,
                                         false, Active)],
                     THIRD.endpoints + [Endpoint("e-3", "l-3", "aaaa-1", InterfaceName("aaaa-1", "cccc-1"), 51820, None,
                                                 KEYS2.public, 0, false),
                                        Endpoint("f-3", "l-3", "cccc-1", InterfaceName("cccc-1", "aaaa-1"), 0,
                                                 Some(HostPort("192.0.2.3", 51820)), ROOT.publicKey, 25, false)])

  lemma RequestAccepted(addresses: map<NodeId, seq<Address>>, dialable: string -> bool)
    ensures LinkAccepted(THIRD, REQUEST, addresses, dialable)
  {
    assert THIRD.nodes[0].id == "aaaa-1" && THIRD.nodes[2].id == "cccc-1";
    assert THIRD.links == [THIRD.links[0], THIRD.links[1]];
  }

  lemma RequestPort()
    ensures FindNode(THIRD.nodes, "cccc-1") == Some(THIRD.nodes[2])
    ensures UsedPorts(THIRD.links, THIRD.endpoints, "cccc-1") == {}
  {
    assert THIRD.links == [THIRD.links[0], THIRD.links[1]];
    assert THIRD.nodes[1..][1..] == [THIRD.nodes[2]];
  }

  lemma RequestRows()
    ensures LinkedAsRequested(THIRD.nodes, THIRD.links, THIRD.endpoints, LINKED.links, LINKED.endpoints, REQUEST, IDS4,
                              "")
  {
    RequestPort();
    assert THIRD.nodes[2].id == "cccc-1";
  }

  lemma PortTaken()
    ensures Owns(THIRD.links, THIRD.endpoints, "l-1", "aaaa-1", 51820)
  {
    assert THIRD.links[0] in THIRD.links && LinkClaims(THIRD.links[0], "aaaa-1", 51820);
  }

  /**
   The request passes every check. Afterwards "aaaa-1" listens on its port 51820 for two
   links, and the tables are no longer in order.
   */
  lemma ForeignInitiator(addresses: map<NodeId, seq<Address>>, dialable: string -> bool)
    ensures StoreOk(THIRD) && LinkAccepted(THIRD, REQUEST, addresses, dialable)
    ensures CreateStep(THIRD, LINKED, REQUEST, IDS4, "", LinkCreated)
    ensures !PortsUnique(LINKED.links, LINKED.endpoints) && !DbOk(LINKED)
  {
    ThirdStore();
    RequestAccepted(addresses, dialable);
    RequestRows();
    PortTaken();
    ForeignInitiatorClash(THIRD, LINKED, REQUEST, IDS4, "", "l-1");
  }

  // ----- a network that offers no address -----

  /** 10.0.1.0/24. */
  const ODD_NETWORK := Overlay.Cidr4(0x0A000100, 24)

  /** The walk starts at 10.0.0.1, outside the network, and never gets to 10.0.1.1. */
  lemma NoAddressOffered()
    ensures Overlay.ValidCidr(ODD_NETWORK) && Overlay.CandidateCount(ODD_NETWORK) == 0
    ensures Overlay.Exhausted(Some(ODD_NETWORK), {})
    ensures !Overlay.Contains(ODD_NETWORK, Overlay.Candidate(ODD_NETWORK, 1))
    ensures Overlay.Contains(ODD_NETWORK, Overlay.Candidate(ODD_NETWORK, 257))
  {
    assert Overlay.BlockSize(24) == 256;
    Overlay.CandidatesExact(ODD_NETWORK, 1);
  }
}
