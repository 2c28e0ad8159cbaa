/** internal/controller/bootstrap.go: what handleEnroll reads from a request. */
module Enrolment {
  import opened Prelude
  import opened Model
  import Routing

  /** An enrolment token's row; `expiresAt` is None when its time cannot be read. */
  datatype Token = Token(revoked: bool, used: bool, expiresAt: Option<int>)

  datatype KeyPair = KeyPair(public: string, private: string)

  datatype EnrollRequest = EnrollRequest(
    token: Option<Token>,
    now: int,
    parent: NodeId, // the node the token names
    publicKey: string,
    privateKey: string,
    generated: Option<KeyPair>, // drawn when the request brings no key; None if that fails
    advertise: string,
    addressType: string,
    hasPublicIP: bool,
    listenPort: Option<int>,
    rangeStart: Option<int>,
    rangeEnd: Option<int>)

  datatype EnrollResult =
    | TokenMissing
    | TokenRevoked
    | TokenUsed
    | TokenExpired
    | ParentMissing
    | PoolExhausted
    | KeyGenerationFailed
    | PublicKeyMissing
    | KeysEqual
    | BadPortRange
    | NoPortForLink
    | Enrolled

  /** Why the token is refused, if it is; a token is good up to the second it expires. */
  function TokenRefusal(q: EnrollRequest): Option<EnrollResult> {
    match q.token
    case None => Some(TokenMissing)
    case Some(t) =>
      if t.revoked then Some(TokenRevoked)
      else if t.used then Some(TokenUsed)
      else if t.expiresAt.None? || q.now > t.expiresAt.value then Some(TokenExpired)
      else None
  }

  /** Why the keys are refused, if they are. */
  function KeyRefusal(q: EnrollRequest): Option<EnrollResult> {
    var priv, pub := Routing.TrimSpace(q.privateKey), Routing.TrimSpace(q.publicKey);
    if priv == "" then if q.generated.None? then Some(KeyGenerationFailed) else None
    else if pub == "" then Some(PublicKeyMissing)
    else if pub == priv then Some(KeysEqual)
    else None
  }

  /** The keys of the new node: those of the request, trimmed, or a generated pair. */
  function KeysOf(q: EnrollRequest): KeyPair
    requires KeyRefusal(q).None?
  {
    var priv := Routing.TrimSpace(q.privateKey);
    if priv == "" then q.generated.value else KeyPair(Routing.TrimSpace(q.publicKey), priv)
  }

  /** Keys that the request brings are never equal, blank or padded. */
  lemma BroughtKeysAreUsable(q: EnrollRequest)
    requires KeyRefusal(q).None? && Routing.TrimSpace(q.privateKey) != ""
    ensures var k := KeysOf(q); k.public != "" && k.private != "" && k.public != k.private
  {
  }

  predicate ValidUDPPort(p: int) {
    1 <= p <= 65535
  }

  function Lower(c: char): char {
    if 'A' <= c <= 'Z' then c + 32 as char else c
  }

  predicate EqualFold(s: string, t: string) {
    |s| == |t| && forall i :: 0 <= i < |s| ==> Lower(s[i]) == Lower(t[i])
  }

  /** Whether an enrolling node counts as publicly reachable. */
  predicate EnrollsPublic(q: EnrollRequest, dialable: string -> bool) {
    var kind := EnrollKind(q);
    var adv := Routing.TrimSpace(q.advertise);
    !EqualFold(kind, "lan")
    && (q.hasPublicIP || EqualFold(kind, "public") || (adv != "" && dialable(adv)))
  }

  function EnrollKind(q: EnrollRequest): string {
    var kind := Routing.TrimSpace(q.addressType);
    if kind != "" then kind else if q.hasPublicIP then "public" else "lan"
  }

  /** The port pool of an enrolling node, None when the request is out of range. */
  function EnrollPool(q: EnrollRequest, public: bool, parentStart: int, parentEnd: int,
                      defaultPort: int): Option<(int, int)> {
    if (q.listenPort.Some? && !ValidUDPPort(q.listenPort.value))
       || (q.rangeStart.Some? && !ValidUDPPort(q.rangeStart.value))
       || (q.rangeEnd.Some? && !ValidUDPPort(q.rangeEnd.value)) then None
    else
      var (s0, e0) := if public then (parentStart, parentEnd) else (defaultPort, defaultPort);
      var (s1, e1) := if q.listenPort.Some? then (q.listenPort.value, q.listenPort.value) else (s0, e0);
      var s2 := if q.rangeStart.Some? then q.rangeStart.value else s1;
      var e2 := if q.rangeStart.Some? && !public && q.rangeEnd.None? && q.listenPort.None? then s2 else e1;
      var e3 := if q.rangeEnd.Some? then q.rangeEnd.value else e2;
      if s2 > e3 then None else Some((s2, if public then e3 else s2))
  }

  /** A node that is not public gets a pool of exactly one port. */
  lemma LanPoolIsOnePort(q: EnrollRequest, parentStart: int, parentEnd: int, defaultPort: int)
    ensures var r := EnrollPool(q, false, parentStart, parentEnd, defaultPort);
            r.Some? ==> r.value.0 == r.value.1
                        && r.value.0 == if q.rangeStart.Some? then q.rangeStart.value
                                        else if q.listenPort.Some? then q.listenPort.value else defaultPort
  {
  }
}
