/**
 internal/netd/wg_userspace.go: the configuration text of one WireGuard device, and the
 convergence of the live devices to the wanted links.
 */
module Netd {
  import opened Prelude
  import opened Model
  import Routing

  // ----- the configuration of one device -----

  datatype Line =
    | PrivateKey(hex: string)
    | ListenPort(port: int)
    | ReplacePeers
    | PublicKey(hex: string)
    | AllowedIp(cidr: string)
    | PeerEndpoint(target: HostPort)
    | Keepalive(seconds: int)

  type Uapi = seq<Line>

  datatype UapiResult = Built(text: Uapi) | BadPrivateKey | BadPeerKey | MissingEndpoint(link: LinkId)

  /** What the device code takes from outside: key decoding and name resolution, either of which may fail. */
  datatype Codec = Codec(keyToHex: string -> Option<string>, resolve: HostPort -> Option<HostPort>)

  function WithPrefix(ip: string): string {
    if '/' in ip then ip else ip + "/32"
  }

  /** One line per address not yet seen; an address counts as seen in the form it was written out. */
  function AllowedLines(ips: seq<string>, seen: set<string>): Uapi {
    if ips == [] then []
    else
      var ip := Routing.TrimSpace(ips[0]);
      if ip == "" || ip in seen then AllowedLines(ips[1..], seen)
      else [AllowedIp(WithPrefix(ip))] + AllowedLines(ips[1..], seen + {WithPrefix(ip)})
  }

  function EndpointLines(l: LinkCfg, c: Codec): Uapi {
    match l.peerEndpoint
    case None => []
    case Some(ep) =>
      [PeerEndpoint(if c.resolve(ep).Some? then c.resolve(ep).value else ep),
       Keepalive(if l.keepalive == 0 then 25 else l.keepalive)]
  }

  function UapiOf(l: LinkCfg, c: Codec): UapiResult {
    var priv, pub := c.keyToHex(l.privateKey), c.keyToHex(l.peerPublicKey);
    if priv.None? then BadPrivateKey
    else if pub.None? then BadPeerKey
    else if l.peerEndpoint.None? && l.isInitiator then MissingEndpoint(l.linkId)
    else Built([PrivateKey(priv.value)] + (if l.listenPort > 0 then [ListenPort(l.listenPort)] else [])
               + [ReplacePeers, PublicKey(pub.value)] + AllowedLines(l.allowedIPs, {}) + EndpointLines(l, c))
  }

  method BuildUAPI(l: LinkCfg, c: Codec) returns (r: UapiResult)
    ensures r == UapiOf(l, c)
  {
    var priv := c.keyToHex(l.privateKey);
    if priv.None? {
      return BadPrivateKey;
    }
    var pub := c.keyToHex(l.peerPublicKey);
    if pub.None? {
      return BadPeerKey;
    }
    var b: Uapi := [PrivateKey(priv.value)];
    if l.listenPort > 0 {
      b := b + [ListenPort(l.listenPort)];
    }
    b := b + [ReplacePeers];
    b := b + [PublicKey(pub.value)];
    ghost var head := b;
    var seen: set<string> := {};
    for i := 0 to |l.allowedIPs|
      invariant b + AllowedLines(l.allowedIPs[i..], seen) == head + AllowedLines(l.allowedIPs, {})
    {
      var ip := Routing.TrimSpace(l.allowedIPs[i]);
      if ip == "" || ip in seen {
        continue;
      }
      if '/' !in ip {
        ip := ip + "/32";
      }
      seen := seen + {ip};
      b := b + [AllowedIp(ip)];
    }
    assert b == head + AllowedLines(l.allowedIPs, {});
    assert head == [PrivateKey(priv.value)] + (if l.listenPort > 0 then [ListenPort(l.listenPort)]
                                               else []) + [ReplacePeers, PublicKey(pub.value)];
    if l.peerEndpoint.Some? {
      var target := l.peerEndpoint.value;
      var resolved := c.resolve(target);
      if resolved.Some? {
        target := resolved.value;
      }
      b := b + [PeerEndpoint(target)];
      var ka := l.keepalive;
      if ka == 0 {
        ka := 25;
      }
      b := b + [Keepalive(ka)];
    } else if l.isInitiator {
      return MissingEndpoint(l.linkId);
    }
    return Built(b);
  }

  /** Already trimmed, non-empty and with a prefix length. */
  predicate Canonical(ip: string) {
    ip != "" && '/' in ip && Routing.TrimSpace(ip) == ip
  }

  /** Distinct canonical addresses come out one line each, in order. */
  lemma {:induction false} AllowedLinesExact(ips: seq<string>, seen: set<string>)
    requires forall ip :: ip in ips ==> Canonical(ip) && ip !in seen
    requires NoDuplicates(ips)
    ensures AllowedLines(ips, seen) == seq(|ips|, i requires 0 <= i < |ips| => AllowedIp(ips[i]))
    decreases |ips|
  {
    if ips != [] {
      assert ips[0] in ips;
      forall ip | ip in ips[1..] ensures Canonical(ip) && ip !in seen + {ips[0]} {
        var i :| 0 <= i < |ips| - 1 && ips[1..][i] == ip;
        assert ips[0] != ips[i + 1] && ips[i + 1] in ips;
      }
      AllowedLinesExact(ips[1..], seen + {ips[0]});
    }
  }

  /** Trimming is done after one pass. */
  lemma {:induction false} TrimTwice(s: string)
    ensures Routing.TrimSpace(Routing.TrimSpace(s)) == Routing.TrimSpace(s)
    ensures var t := Routing.TrimSpace(s); t != "" ==> !Routing.IsSpace(t[0]) && !Routing.IsSpace(t[|t| - 1])
    decreases |s|
  {
    if s != "" {
      if Routing.IsSpace(s[0]) {
        TrimTwice(s[1..]);
      } else if Routing.IsSpace(s[|s| - 1]) {
        TrimTwice(s[..|s| - 1]);
      }
    }
  }

  /** Every non-empty address the compiler writes is canonical. */
  lemma CompiledAddressIsCanonical(ip: string)
    requires Routing.EnsureHostCIDR(ip) != ""
    ensures Canonical(Routing.EnsureHostCIDR(ip))
  {
    TrimTwice(ip);
    var t := Routing.TrimSpace(ip);
    var r := Routing.EnsureHostCIDR(ip);
    if '/' !in t {
      assert r == t + "/32" && r[|t|] == '/' && r[0] == t[0] && r[|r| - 1] == '2';
    }
  }

  /** The allowed-ip lines of a device are the compiled AllowedIPs, one for one. */
  lemma DeviceAllowsCompiled(g: Routing.Graph, dialable: string -> bool, n: Node, st: NodeState, cfg: LinkCfg)
    requires Routing.IsCompiled(g, dialable, n, st) && cfg in st.links
    ensures AllowedLines(cfg.allowedIPs, {}) ==
            seq(|cfg.allowedIPs|, i requires 0 <= i < |cfg.allowedIPs| => AllowedIp(cfg.allowedIPs[i]))
  {
    var k :| 0 <= k < |st.links| && st.links[k] == cfg;
    assert Routing.AllowedAt(g, n, st.links[k], |g.nodes|);
    forall ip | ip in cfg.allowedIPs ensures Canonical(ip) {
      assert Routing.SentOver(g, n, |g.nodes|, ip, cfg.linkId);
      var j :| 0 <= j < |g.nodes| && Routing.ReachedOver(g, n, j, ip, cfg.linkId);
      CompiledAddressIsCanonical(g.nodes[j].overlayIPv4);
    }
    AllowedLinesExact(cfg.allowedIPs, {});
  }

  // ----- the set of live devices -----

  /** A device, the configuration it is known to run (None after a failed update), and the recorded fingerprint. */
  datatype Live = Live(running: Option<Uapi>, fp: Uapi)

  datatype Action = Closed(name: string) | Updated(name: string) | Created(name: string)

  /** The last link of each non-empty interface name. */
  function Wanted(links: seq<LinkCfg>): map<string, LinkCfg> {
    if links == [] then map[]
    else
      var m := Wanted(links[..|links| - 1]);
      var l := links[|links| - 1];
      if l.iface == "" then m else m[l.iface := l]
  }

  function Texts(want: map<string, LinkCfg>, c: Codec): map<string, UapiResult> {
    map name | name in want :: UapiOf(want[name], c)
  }

  /** Every wanted device exists with the fingerprint of its wanted text, and no other device does. */
  ghost predicate Converged(devs: map<string, Live>, texts: map<string, UapiResult>) {
    devs.Keys == texts.Keys && forall name :: name in devs ==> UpToDate(devs, texts, name)
  }

  ghost predicate UpToDate(devs: map<string, Live>, texts: map<string, UapiResult>, name: string) {
    name in devs && name in texts && texts[name] == Built(devs[name].fp)
  }

  /**
   What may become of one surviving device: untouched, running its wanted text, or half-updated with its old
   fingerprint.
   */
  ghost predicate DeviceStep(before: map<string, Live>, after: map<string, Live>, texts: map<string, UapiResult>,
                             name: string, ok: bool) {
    name in after ==>
      || (name in before && after[name] == before[name] && (ok ==> UpToDate(before, texts, name)))
      || (name in texts && texts[name].Built? && after[name] == Live(Some(texts[name].text), texts[name].text)
          && !UpToDate(before, texts, name))
      || (!ok && name in before && after[name] == Live(None, before[name].fp) && !UpToDate(before, texts, name))
  }

  ghost predicate ReconcileStep(before: map<string, Live>, after: map<string, Live>, texts: map<string, UapiResult>,
                                ok: bool) {
    && after.Keys <= texts.Keys
    && (ok ==> Converged(after, texts))
    && forall name :: DeviceStep(before, after, texts, name, ok)
  }

  ghost predicate Runs(devs: map<string, Live>, name: string, text: Uapi) {
    name in devs && devs[name].fp == text
  }

  /**
   What one device's turn does: nothing if it runs the text, else the new text or, after a failure, the old
   fingerprint.
   */
  ghost predicate EnsureStep(before: map<string, Live>, after: map<string, Live>, name: string, text: Uapi, ok: bool) {
    && (forall other :: other != name ==> (other in after <==> other in before) && (other in after ==>
                                                                                      after[other] == before[other]))
    && if Runs(before, name, text) then ok && after == before
       else if ok then name in after && after[name] == Live(Some(text), text)
       else if name in before then name in after && after[name] == Live(None, before[name].fp)
       else name !in after
  }

  class Manager {
    var devs: map<string, Live>
    var log: seq<Action>
    ghost var applied: set<(string, Uapi)>

    ghost predicate Valid()
      reads this
    {
      forall name :: name in devs ==> (name, devs[name].fp) in applied
    }

    constructor ()
      ensures Valid() && devs == map[] && log == []
    {
      devs, log, applied := map[], [], {};
    }

    /** An operating-system or device call that may succeed or fail. */
    static method Attempt() returns (ok: bool)
    {
      ok := *;
    }

    method CloseAll()
      requires Valid()
      modifies this
      ensures Valid() && devs == map[] && applied == old(applied)
    {
      while devs.Keys != {}
        invariant Valid() && applied == old(applied)
        decreases |devs|
      {
        var name :| name in devs.Keys;
        assert devs.Keys == (devs - {name}).Keys + {name};
        devs, log := devs - {name}, log + [Closed(name)];
      }
    }

    /** Close the devices nobody wants. */
    method CloseUnwanted(want: map<string, LinkCfg>)
      requires Valid()
      modifies this
      ensures Valid() && applied == old(applied)
      ensures devs == map name | name in old(devs) && name in want :: old(devs)[name]
      ensures old(devs).Keys <= want.Keys ==> log == old(log)
    {
      var gone := devs.Keys - want.Keys;
      while gone != {}
        invariant Valid() && applied == old(applied) && gone !! want.Keys && gone <= old(devs).Keys - want.Keys
        invariant devs == map name | name in old(devs) && (name in want || name in gone) :: old(devs)[name]
        invariant old(devs).Keys <= want.Keys ==> log == old(log)
        decreases gone
      {
        var name :| name in gone;
        devs, log := devs - {name}, log + [Closed(name)];
        gone := gone - {name};
      }
    }

    /** One wanted device: leave it, update it, or create it. */
    method Ensure(name: string, text: Uapi) returns (ok: bool)
      requires Valid()
      modifies this
      ensures Valid() && applied >= old(applied)
      ensures EnsureStep(old(devs), devs, name, text, ok)
      ensures Runs(old(devs), name, text) ==> log == old(log)
    {
      if name in devs {
        if devs[name].fp == text {
          return true;
        }
        log := log + [Updated(name)];
        ok := Attempt(); // IpcSet
        if !ok {
          devs := devs[name := Live(None, devs[name].fp)];
          return;
        }
      } else {
        log := log + [Created(name)];
        ok := Attempt(); // CreateTUN, with the requested name
        if !ok {
          return;
        }
        ok := Attempt(); // IpcSet
        if !ok {
          return;
        }
        ok := Attempt(); // Up
        if !ok {
          return;
        }
      }
      devs := devs[name := Live(Some(text), text)];
      applied := applied + {(name, text)};
    }

    /** reconcile, for any order of the maps and any failures on the way. */
    method Reconcile(links: seq<LinkCfg>, c: Codec) returns (ok: bool)
      requires Valid()
      modifies this
      ensures Valid() && applied >= old(applied)
      ensures ReconcileStep(old(devs), devs, Texts(Wanted(links), c), ok)
      ensures Converged(old(devs), Texts(Wanted(links), c)) ==> ok && devs == old(devs) && log == old(log)
    {
      var want := CollectWanted(links);
      ghost var texts := Texts(want, c);
      CloseUnwanted(want);
      NothingDone(old(devs), devs, texts);
      var todo := want.Keys;
      while todo != {}
        invariant Valid() && applied >= old(applied) && todo <= want.Keys
        invariant Progress(old(devs), devs, texts, todo)
        invariant Converged(old(devs), texts) ==> devs == old(devs) && log == old(log)
        decreases todo
      {
        var name :| name in todo;
        var r := BuildUAPI(want[name], c);
        if !r.Built? {
          StoppedEarly(old(devs), devs, texts, todo, name);
          return false;
        }
        ghost var before := devs;
        ok := Ensure(name, r.text);
        if !ok {
          FailedAt(old(devs), before, devs, texts, todo, name);
          return;
        }
        OneMoreDone(old(devs), before, devs, texts, todo, name);
        todo := todo - {name};
      }
      AllDone(old(devs), devs, texts);
      return true;
    }

    static method CollectWanted(links: seq<LinkCfg>) returns (want: map<string, LinkCfg>)
      ensures want == Wanted(links)
    {
      want := map[];
      for i := 0 to |links|
        invariant want == Wanted(links[..i])
      {
        assert links[..i + 1][..i] == links[..i];
        if links[i].iface == "" {
          continue;
        }
        want := want[links[i].iface := links[i]];
      }
      TakeAll(links);
    }
  }

  /** During a pass: devices still to do are as at the start, the others are up to date. */
  ghost predicate Progress(before: map<string, Live>, devs: map<string, Live>, texts: map<string, UapiResult>,
                           todo: set<string>) {
    && devs.Keys <= texts.Keys && todo <= texts.Keys
    && (forall name :: name in todo ==> (name in devs <==> name in before) && (name in devs ==>
                                                                                 devs[name] == before[name]))
    && (forall name :: name in texts && name !in todo ==>
          UpToDate(devs, texts, name) && DeviceStep(before, devs, texts, name, true))
  }

  lemma StoppedEarly(before: map<string, Live>, devs: map<string, Live>, texts: map<string, UapiResult>,
                     todo: set<string>, name: string)
    requires Progress(before, devs, texts, todo) && name in todo && !texts[name].Built?
    ensures ReconcileStep(before, devs, texts, false) && !Converged(before, texts)
  {
    assert Converged(before, texts) ==> UpToDate(before, texts, name);
  }

  lemma FailedAt(before: map<string, Live>, mid: map<string, Live>, devs: map<string, Live>, texts: map<string,
                 UapiResult>, todo: set<string>, name: string)
    requires Progress(before, mid, texts, todo) && name in todo && texts[name].Built?
    requires EnsureStep(mid, devs, name, texts[name].text, false)
    ensures ReconcileStep(before, devs, texts, false) && !Converged(before, texts)
  {
    assert Converged(before, texts) ==> UpToDate(before, texts, name);
    forall other ensures DeviceStep(before, devs, texts, other, false) {
      assert other in texts && other !in todo ==> DeviceStep(before, mid, texts, other, true);
    }
  }

  lemma OneMoreDone(before: map<string, Live>, mid: map<string, Live>, devs: map<string, Live>, texts: map<string,
                    UapiResult>, todo: set<string>, name: string)
    requires Progress(before, mid, texts, todo) && name in todo && texts[name].Built?
    requires EnsureStep(mid, devs, name, texts[name].text, true)
    ensures Progress(before, devs, texts, todo - {name})
    ensures Converged(before, texts) ==> Runs(before, name, texts[name].text) && (mid == before ==> devs == before)
  {
    forall other | other in texts && other !in todo - {name} ensures UpToDate(devs, texts, other)
           && DeviceStep(before, devs, texts, other, true) {
      if other != name { assert UpToDate(mid, texts, other) && DeviceStep(before, mid, texts, other, true); }
    }
    assert Converged(before, texts) ==> UpToDate(before, texts, name);
  }

  lemma NothingDone(before: map<string, Live>, devs: map<string, Live>, texts: map<string, UapiResult>)
    requires devs == map name | name in before && name in texts :: before[name]
    ensures Progress(before, devs, texts, texts.Keys)
    ensures Converged(before, texts) ==> devs == before
  {
  }

  lemma AllDone(before: map<string, Live>, devs: map<string, Live>, texts: map<string, UapiResult>)
    requires Progress(before, devs, texts, {})
    ensures ReconcileStep(before, devs, texts, true)
  {
    forall name | name in texts ensures UpToDate(devs, texts, name) && DeviceStep(before, devs, texts, name, true) {
    }
  }

  // ----- what a successful pass means for the devices -----

  /** Every device is known to run what its fingerprint says. */
  ghost predicate Clean(devs: map<string, Live>) {
    forall name :: name in devs ==> devs[name].running == Some(devs[name].fp)
  }

  /**
   After a successful pass a device runs its wanted configuration, unless the pass left it
   alone because the fingerprint matched while an earlier update of it had failed.
   */
  lemma SuccessRunsWanted(before: map<string, Live>, after: map<string, Live>, texts: map<string, UapiResult>,
                          name: string)
    requires ReconcileStep(before, after, texts, true) && name in texts
    ensures name in after && texts[name] == Built(after[name].fp)
    ensures after[name].running == Some(texts[name].text) <==>
            !(UpToDate(before, texts, name) && before[name].running != Some(texts[name].text))
  {
    assert UpToDate(after, texts, name) && DeviceStep(before, after, texts, name, true);
  }

  lemma CleanStaysClean(before: map<string, Live>, after: map<string, Live>, texts: map<string, UapiResult>)
    requires ReconcileStep(before, after, texts, true) && Clean(before)
    ensures Clean(after)
  {
    forall name | name in after ensures after[name].running == Some(after[name].fp) {
      SuccessRunsWanted(before, after, texts, name);
    }
  }

  /** Going back to the recorded configuration after a failed update succeeds without touching the device. */
  lemma RevertAfterFailedUpdate(name: string, a: Uapi, b: Uapi)
    requires a != b
    ensures var d0, d1 := map[name := Live(Some(a), a)], map[name := Live(None, a)];
            && ReconcileStep(d0, d1, map[name := Built(b)], false)
            && ReconcileStep(d1, d1, map[name := Built(a)], true) && d1[name].running != Some(a)
  {
    var d0, d1 := map[name := Live(Some(a), a)], map[name := Live(None, a)];
    assert UpToDate(d1, map[name := Built(a)], name);
  }
}
