/**
 * nmproxy/proxy/proxy_helper.go: the per-peer relay helpers.
 *
 *  - GetFreeIp: walk a CIDR block from its first address, probing each
 *    candidate, until a probe succeeds, fails fatally, or the block runs out.
 *  - PeerConnectionStatus: liveness of a peer from WireGuard statistics.
 *  - Proxy.PullLatestConfig / Proxy.Reset: re-seat a peer's relay and
 *    republish it in the two-index peer registry.
 *  - Proxy.ToRemote: the forwarding loop, as a transformer from the trace of
 *    local reads to the trace of remote writes and metric updates.
 *
 * Sockets, the WireGuard interface, the packet transform and the registry's
 * implementation are outside the model and appear as parameters.
 */
module ProxyHelper {
  import opened Common
  import opened Ipv4Block

  type Time = int

  // ===================================================================
  // GetFreeIp
  // ===================================================================

  /** `sub` occurs in `s` (strings.Contains). */
  predicate HasSubstring(s: string, sub: string)
    decreases |s|
  {
    |sub| <= |s| && (s[..|sub|] == sub || HasSubstring(s[1..], sub))
  }

  /** Dial errors after which GetFreeIp moves on to the next candidate. */
  predicate Retryable(message: string) {
    HasSubstring(message, "can't assign requested address")
    || HasSubstring(message, "address already in use")
    || HasSubstring(message, "cannot assign requested address")
  }

  /** The outcome of net.DialUDP from a candidate address to 127.0.0.1:dstPort. */
  datatype DialResult = Dialled | DialError(message: string)

  predicate RetryableFailure(d: DialResult) {
    d.DialError? && Retryable(d.message)
  }

  datatype FreeIpError =
    | DstPortNotSet                    // "dst port should be set"
    | InvalidCidr(cidr: string)        // the error of net.ParseCIDR
    | NextIpFailed(reason: NextIpError) // the block is exhausted
    | DialFailed(message: string)      // a non-retryable dial error

  datatype FreeIpResult = FreeIp(address: nat) | FreeIpFailed(error: FreeIpError)

  /** The search loop from `candidate` on, as a reference definition. */
  function Scan(block: Block, dial: nat -> DialResult, candidate: nat): FreeIpResult
    requires block.Contains(candidate)
    decreases block.Broadcast() - candidate
  {
    match dial(candidate)
    case Dialled => FreeIp(candidate)
    case DialError(message) =>
      if !Retryable(message) then FreeIpFailed(DialFailed(message))
      else match block.NextIP(candidate)
        case NoNextIp(reason) => FreeIpFailed(NextIpFailed(reason))
        case Advanced(next) => Scan(block, dial, next)
  }

  /** GetFreeIp as a function of its inputs: the guards, then the search from the first address. */
  function FreeIpSearch(cidrAddr: string, dstPort: int, parseCidr: string -> Option<Block>, dial: nat -> DialResult): FreeIpResult {
    if dstPort == 0 then FreeIpFailed(DstPortNotSet)
    else match parseCidr(cidrAddr)
      case None => FreeIpFailed(InvalidCidr(cidrAddr))
      case Some(block) =>
        FirstAddressUsable(block);
        Scan(block, dial, block.FirstAddress())
  }

  /**
   * GetFreeIp. `parseCidr` stands for net.ParseCIDR followed by
   * iplib.Net4FromStr; `dial` is the probe for the fixed destination port.
   */
  method GetFreeIp(cidrAddr: string, dstPort: int, parseCidr: string -> Option<Block>, dial: nat -> DialResult)
    returns (r: FreeIpResult)
    ensures dstPort == 0 ==> r == FreeIpFailed(DstPortNotSet)
    ensures dstPort != 0 && parseCidr(cidrAddr).None? ==> r == FreeIpFailed(InvalidCidr(cidrAddr))
    ensures r == FreeIpSearch(cidrAddr, dstPort, parseCidr, dial)
  {
    if dstPort == 0 {
      return FreeIpFailed(DstPortNotSet);
    }
    var parsed := parseCidr(cidrAddr);
    if parsed.None? {
      return FreeIpFailed(InvalidCidr(cidrAddr));
    }
    var net4 := parsed.value;
    FirstAddressUsable(net4);
    var newAddrs := net4.FirstAddress();
    while true
      invariant net4.Contains(newAddrs)
      invariant Scan(net4, dial, newAddrs) == Scan(net4, dial, net4.FirstAddress())
      decreases net4.Broadcast() - newAddrs
    {
      var err := dial(newAddrs);
      if err.DialError? {
        if Retryable(err.message) {
          var next := net4.NextIP(newAddrs);
          if next.NoNextIp? {
            return FreeIpFailed(NextIpFailed(next.error));
          }
          newAddrs := next.ip;
        } else {
          return FreeIpFailed(DialFailed(err.message));
        }
      }
      if err.Dialled? {
        return FreeIp(newAddrs);
      }
    }
  }

  /**
   * What a search from `candidate` can end in: the first candidate whose
   * dial succeeds, every earlier one having failed with a retryable error;
   * the first fatal dial error, at a candidate preceded only by retryable
   * failures; or exhaustion, after every candidate up to the block's last
   * usable address failed retryably.
   */
  lemma ScanOutcome(block: Block, dial: nat -> DialResult, candidate: nat)
    requires block.Contains(candidate) && candidate <= block.LastUsable()
    ensures var r := Scan(block, dial, candidate);
      && (r.FreeIp? ==>
            && candidate <= r.address <= block.LastUsable() && block.Contains(r.address)
            && dial(r.address) == Dialled
            && forall x :: candidate <= x < r.address ==> RetryableFailure(dial(x)))
      && (r.FreeIpFailed? ==> r.error.DialFailed? || r.error.NextIpFailed?)
      && (r.FreeIpFailed? && r.error.DialFailed? ==>
            exists a :: candidate <= a <= block.LastUsable() && dial(a) == DialError(r.error.message)
              && !Retryable(r.error.message)
              && forall x :: candidate <= x < a ==> RetryableFailure(dial(x)))
      && (r.FreeIpFailed? && r.error.NextIpFailed? ==>
            forall x :: candidate <= x <= block.LastUsable() ==> RetryableFailure(dial(x)))
  {
    ScanFound(block, dial, candidate);
    ScanFatal(block, dial, candidate);
    ScanExhausted(block, dial, candidate);
  }

  /** A search that finds an address finds the first one that dials, in the block; a failed one fails on a dial or on exhaustion. */
  lemma {:induction false} ScanFound(block: Block, dial: nat -> DialResult, candidate: nat)
    requires block.Contains(candidate) && candidate <= block.LastUsable()
    ensures var r := Scan(block, dial, candidate);
      && (r.FreeIp? ==>
            && candidate <= r.address <= block.LastUsable() && block.Contains(r.address)
            && dial(r.address) == Dialled
            && forall x :: candidate <= x < r.address ==> RetryableFailure(dial(x)))
      && (r.FreeIpFailed? ==> r.error.DialFailed? || r.error.NextIpFailed?)
    decreases block.Broadcast() - candidate
  {
    match dial(candidate)
    case Dialled =>
    case DialError(message) =>
      if Retryable(message) {
        match block.NextIP(candidate)
        case NoNextIp(reason) =>
        case Advanced(next) =>
          ScanFound(block, dial, next);
      }
  }

  /** A search that fails on a dial error stops at the first candidate whose error is not retryable. */
  lemma {:induction false} ScanFatal(block: Block, dial: nat -> DialResult, candidate: nat)
    requires block.Contains(candidate) && candidate <= block.LastUsable()
    ensures var r := Scan(block, dial, candidate);
      r.FreeIpFailed? && r.error.DialFailed? ==>
        exists a :: candidate <= a <= block.LastUsable() && dial(a) == DialError(r.error.message)
          && !Retryable(r.error.message)
          && forall x :: candidate <= x < a ==> RetryableFailure(dial(x))
    decreases block.Broadcast() - candidate
  {
    match dial(candidate)
    case Dialled =>
    case DialError(message) =>
      if Retryable(message) {
        match block.NextIP(candidate)
        case NoNextIp(reason) =>
        case Advanced(next) =>
          ScanFatal(block, dial, next);
          var r := Scan(block, dial, next);
          if r.FreeIpFailed? && r.error.DialFailed? {
            var a :| next <= a <= block.LastUsable() && dial(a) == DialError(r.error.message)
              && !Retryable(r.error.message)
              && forall x :: next <= x < a ==> RetryableFailure(dial(x));
            assert forall x :: candidate <= x < a ==> RetryableFailure(dial(x)) by {
              forall x | candidate <= x < a ensures RetryableFailure(dial(x)) {
                if x != candidate {
                  assert next <= x;
                }
              }
            }
          }
      }
  }

  /** A search that runs off the block tried every candidate up to the last usable address, each failing retryably. */
  lemma {:induction false} ScanExhausted(block: Block, dial: nat -> DialResult, candidate: nat)
    requires block.Contains(candidate) && candidate <= block.LastUsable()
    ensures var r := Scan(block, dial, candidate);
      r.FreeIpFailed? && r.error.NextIpFailed? ==>
        forall x :: candidate <= x <= block.LastUsable() ==> RetryableFailure(dial(x))
    decreases block.Broadcast() - candidate
  {
    match dial(candidate)
    case Dialled =>
    case DialError(message) =>
      if Retryable(message) {
        match block.NextIP(candidate)
        case NoNextIp(reason) =>
        case Advanced(next) =>
          ScanExhausted(block, dial, next);
      }
  }

  /**
   * GetFreeIp's promise: a returned address lies in the CIDR block, is the
   * first candidate from the block's first address whose probe succeeded,
   * and every candidate before it failed with a retryable error. A failure
   * is one of the guard errors, a non-retryable dial error, or exhaustion of
   * the block after every usable address failed retryably.
   */
  lemma FreeIpSearchSound(cidrAddr: string, dstPort: int, parseCidr: string -> Option<Block>, dial: nat -> DialResult)
    requires dstPort != 0 && parseCidr(cidrAddr).Some?
    ensures var block := parseCidr(cidrAddr).value;
      var r := FreeIpSearch(cidrAddr, dstPort, parseCidr, dial);
      && (r.FreeIp? ==>
            && block.Contains(r.address) && dial(r.address) == Dialled
            && forall x :: block.FirstAddress() <= x < r.address ==> RetryableFailure(dial(x)))
      && (r.FreeIpFailed? ==> r.error.DialFailed? || r.error.NextIpFailed?)
      && (r.FreeIpFailed? && r.error.NextIpFailed? ==>
            forall x :: block.FirstAddress() <= x <= block.LastUsable() ==> RetryableFailure(dial(x)))
  {
    var block := parseCidr(cidrAddr).value;
    FirstAddressUsable(block);
    ScanOutcome(block, dial, block.FirstAddress());
  }

  /**
   * An address that now fails to dial is not handed out again: a second
   * search over the same block, after the first result became bound, returns
   * a different address or an error.
   */
  lemma BoundAddressNotReturned(cidrAddr: string, dstPort: int, parseCidr: string -> Option<Block>, dial: nat -> DialResult, taken: nat)
    requires dial(taken).DialError?
    ensures FreeIpSearch(cidrAddr, dstPort, parseCidr, dial) != FreeIp(taken)
  {
    if dstPort != 0 && parseCidr(cidrAddr).Some? {
      FreeIpSearchSound(cidrAddr, dstPort, parseCidr, dial);
    }
  }

  // ===================================================================
  // PeerConnectionStatus
  // ===================================================================

  /** The tunnel's handshake freshness window: 3 minutes. */
  const HandshakeWindow: int := 3 * 60

  /** One entry of wg.GetPeers: key, last handshake and byte counters. */
  datatype WgPeer = WgPeer(publicKey: string, lastHandshake: Time, receiveBytes: int, transmitBytes: int)

  /** A peer entry counts as connected: handshake strictly after now - 3min, and traffic seen. */
  predicate Connected(peer: WgPeer, now: Time) {
    peer.lastHandshake > now - HandshakeWindow && peer.receiveBytes + peer.transmitBytes > 0
  }

  /**
   * PeerConnectionStatus. `ifacePeers` is the result of wg.GetPeers on the
   * interface (None when it failed); `now` is time.Now().
   */
  method PeerConnectionStatus(ifacePeers: Option<seq<WgPeer>>, peerPublicKey: string, now: Time) returns (up: bool)
    ensures ifacePeers.None? ==> !up
    ensures ifacePeers.Some? && (forall i :: 0 <= i < |ifacePeers.value| ==> ifacePeers.value[i].publicKey != peerPublicKey) ==> !up
    ensures ifacePeers.Some? ==> var peers := ifacePeers.value;
      forall i :: 0 <= i < |peers| && peers[i].publicKey == peerPublicKey
        && (forall j :: 0 <= j < i ==> peers[j].publicKey != peerPublicKey)
        ==> (up <==> Connected(peers[i], now))
  {
    if ifacePeers.None? {
      return false;
    }
    var peers := ifacePeers.value;
    for i := 0 to |peers|
      invariant forall j :: 0 <= j < i ==> peers[j].publicKey != peerPublicKey
    {
      if peers[i].publicKey == peerPublicKey {
        return peers[i].lastHandshake > now - HandshakeWindow && peers[i].receiveBytes + peers[i].transmitBytes > 0;
      }
    }
    return false;
  }

  // ===================================================================
  // Proxy and the peer registry
  // ===================================================================

  /** A local UDP socket (net.Conn), by identity. */
  type SocketId = nat
  /** A TURN transport (net.PacketConn), by identity. */
  type TurnConnId = nat
  /** A UDP address. */
  type Addr = string

  /** models.Proxy: the configuration a relay runs with. */
  datatype ProxyConfig = ProxyConfig(
    peerPublicKey: string,
    peerEndpoint: Option<Addr>,
    turnConn: Option<TurnConnId>,
    proxyStatus: bool,
    usingTurn: bool)

  /** models.Conn: the registry entry of a peer, indexed by its public key. */
  datatype Conn = Conn(
    config: ProxyConfig,
    localConn: Option<SocketId>,
    resetConn: Option<Proxy>,
    stopConn: Option<Proxy>,
    serverMap: set<string>)

  /** models.RemotePeer: the registry entry of a peer, indexed by its key hash. */
  datatype RemotePeer = RemotePeer(peerKey: string, endpoint: Option<Addr>, localConn: Option<SocketId>)

  /** The outcome of Proxy.Start, which is not part of this model. */
  datatype StartOutcome = Started(localConn: SocketId, remoteConn: Addr) | StartFailed

  /** The shared peer registry: one map by public key, one by key hash. */
  class Registry {
    var peers: map<string, Conn>
    var peersByHash: map<string, RemotePeer>

    constructor ()
      ensures peers == map[] && peersByHash == map[]
    {
      peers := map[];
      peersByHash := map[];
    }

    /** SavePeer: upsert in the key index only. */
    method SavePeer(key: string, peer: Conn)
      modifies this`peers
      ensures peers == old(peers)[key := peer]
    {
      peers := peers[key := peer];
    }

    /** SavePeerByHash: upsert in the hash index only. */
    method SavePeerByHash(hash: string, peer: RemotePeer)
      modifies this`peersByHash
      ensures peersByHash == old(peersByHash)[hash := peer]
    {
      peersByHash := peersByHash[hash := peer];
    }
  }

  /** The configuration after pullLatestConfig: endpoint and TURN transport taken from the registry. */
  function Pulled(config: ProxyConfig, peers: map<string, Conn>): ProxyConfig {
    if config.peerPublicKey in peers then
      config.(peerEndpoint := peers[config.peerPublicKey].config.peerEndpoint,
              turnConn := peers[config.peerPublicKey].config.turnConn)
    else config
  }

  /** The key index after a successful reset republished `relay` for `key`; an absent key stays absent. */
  function RepublishedByKey(peers: map<string, Conn>, key: string, relay: Proxy, config: ProxyConfig, local: Option<SocketId>): map<string, Conn> {
    if key in peers then
      peers[key := peers[key].(config := config, localConn := local, resetConn := Some(relay), stopConn := Some(relay))]
    else peers
  }

  /** The hash index after a successful reset: only the local socket of the entry changes. */
  function RepublishedByHash(byHash: map<string, RemotePeer>, hash: string, local: Option<SocketId>): map<string, RemotePeer> {
    if hash in byHash then byHash[hash := byHash[hash].(localConn := local)] else byHash
  }

  /** Both indices agree on each peer's local socket. */
  predicate LocalConnsAgree(peers: map<string, Conn>, byHash: map<string, RemotePeer>, hashOf: string -> string) {
    forall k :: k in peers && hashOf(k) in byHash ==> byHash[hashOf(k)].localConn == peers[k].localConn
  }

  /**
   * A reset republishes the same socket in both indices, so when the hash
   * of the reset peer is not shared with another peer it keeps the indices
   * in agreement; it never adds or removes an entry.
   */
  lemma {:induction false} RepublishKeepsIndicesInStep(peers: map<string, Conn>, byHash: map<string, RemotePeer>, hashOf: string -> string,
                                     key: string, relay: Proxy, config: ProxyConfig, local: Option<SocketId>)
    requires LocalConnsAgree(peers, byHash, hashOf)
    requires key in peers
    requires forall k :: k in peers && k != key ==> hashOf(k) != hashOf(key)
    ensures RepublishedByKey(peers, key, relay, config, local).Keys == peers.Keys
    ensures RepublishedByHash(byHash, hashOf(key), local).Keys == byHash.Keys
    ensures LocalConnsAgree(RepublishedByKey(peers, key, relay, config, local), RepublishedByHash(byHash, hashOf(key), local), hashOf)
  {
    var p' := RepublishedByKey(peers, key, relay, config, local);
    var h' := RepublishedByHash(byHash, hashOf(key), local);
    forall k | k in p' && hashOf(k) in h'
      ensures h'[hashOf(k)].localConn == p'[k].localConn
    {
      if k != key {
        assert hashOf(k) != hashOf(key);
        assert h'[hashOf(k)] == byHash[hashOf(k)];
        assert p'[k] == peers[k];
      }
    }
  }

  // ----- the forwarding loop, as traces -----

  /** What one turn of the toRemote loop observes: cancellation, a read error, or a datagram. */
  datatype LoopStep = Cancelled | ReadFailed | Received(data: seq<byte>)

  /** The socket a datagram is written through. */
  datatype Route = ViaTurn(turnConn: Option<TurnConnId>) | ViaServer

  /** One write to the remote side. */
  datatype Send = Send(route: Route, to: Option<Addr>, payload: seq<byte>)

  /** The datagrams the loop reads before it stops (or before the trace ends). */
  function Reads(steps: seq<LoopStep>): seq<seq<byte>> {
    if steps == [] || !steps[0].Received? then [] else [steps[0].data] + Reads(steps[1..])
  }

  /** Index of the first step that ends the loop, or |steps| if none does. */
  function StopIndex(steps: seq<LoopStep>): (k: nat)
    ensures k <= |steps|
  {
    if steps == [] || !steps[0].Received? then 0 else 1 + StopIndex(steps[1..])
  }

  /** The write the loop issues for one datagram it read. */
  function Outgoing(config: ProxyConfig, remote: Option<Addr>, transform: seq<byte> -> seq<byte>, data: seq<byte>): Send {
    Send(if config.usingTurn then ViaTurn(config.turnConn) else ViaServer,
         remote,
         if config.proxyStatus || config.usingTurn then transform(data) else data)
  }

  /**
   * The loop writes through TURN with no TURN transport: WriteTo on a nil
   * interface, a Go runtime panic at the first datagram.
   */
  predicate NilTurn(config: ProxyConfig) {
    config.usingTurn && config.turnConn.None?
  }

  /** The writes the loop issues for a trace of steps; none once a write would panic. */
  function Forwarded(config: ProxyConfig, remote: Option<Addr>, transform: seq<byte> -> seq<byte>, steps: seq<LoopStep>): seq<Send> {
    if steps == [] || !steps[0].Received? || NilTurn(config) then []
    else [Outgoing(config, remote, transform, steps[0].data)] + Forwarded(config, remote, transform, steps[1..])
  }

  /** The servers whose TrafficSent counter the loop credits: the peer's ServerMap when relaying. */
  function MetricServers(config: ProxyConfig, peers: map<string, Conn>): set<string> {
    if config.proxyStatus && config.peerPublicKey in peers then peers[config.peerPublicKey].serverMap else {}
  }

  /** One datagram's metric update: TrafficSent of every server grows by the read length. */
  function Credit(sent: map<string, int>, servers: set<string>, n: nat): map<string, int> {
    map s | s in sent.Keys + servers :: MapGet(sent, s, 0) + (if s in servers then n else 0)
  }

  /** Metric updates for a sequence of datagrams, in read order. */
  function TrafficAfter(sent: map<string, int>, servers: set<string>, datagrams: seq<seq<byte>>): map<string, int>
    decreases |datagrams|
  {
    if datagrams == [] then sent else TrafficAfter(Credit(sent, servers, |datagrams[0]|), servers, datagrams[1..])
  }

  function TotalLength(datagrams: seq<seq<byte>>): nat {
    if datagrams == [] then 0 else |datagrams[0]| + TotalLength(datagrams[1..])
  }

  /**
   * The datagrams read are exactly the payloads of the steps before the
   * first cancellation or read error, in the same order, none twice.
   */
  lemma {:induction false} ReadsArePrefixPayloads(steps: seq<LoopStep>)
    ensures |Reads(steps)| == StopIndex(steps)
    ensures forall i :: 0 <= i < StopIndex(steps) ==> steps[i].Received? && Reads(steps)[i] == steps[i].data
    ensures StopIndex(steps) < |steps| ==> !steps[StopIndex(steps)].Received?
  {
    if steps != [] && steps[0].Received? {
      ReadsArePrefixPayloads(steps[1..]);
    }
  }

  /**
   * Exactly one write per datagram read, in read order; each goes through
   * the (present) TURN transport iff UsingTurn, and carries the transformed
   * packet iff ProxyStatus or UsingTurn. With no TURN transport to write
   * through, nothing is written.
   */
  lemma {:induction false} OneWritePerRead(config: ProxyConfig, remote: Option<Addr>, transform: seq<byte> -> seq<byte>, steps: seq<LoopStep>)
    ensures NilTurn(config) ==> Forwarded(config, remote, transform, steps) == []
    ensures var sends := Forwarded(config, remote, transform, steps);
      var received := Reads(steps);
      !NilTurn(config) ==>
      && |sends| == |received|
      && forall i :: 0 <= i < |sends| ==>
           && sends[i].to == remote
           && (sends[i].route.ViaTurn? <==> config.usingTurn)
           && (sends[i].route.ViaTurn? ==> sends[i].route.turnConn.Some?)
           && sends[i].payload == (if config.proxyStatus || config.usingTurn then transform(received[i]) else received[i])
  {
    if steps != [] && steps[0].Received? {
      OneWritePerRead(config, remote, transform, steps[1..]);
    }
  }

  /**
   * TrafficSent never decreases: a credited server grows by the total
   * length of the datagrams read, any other counter is left alone, and a
   * server gains an entry only once a datagram was read.
   */
  lemma {:induction false} TrafficGrowsByReadLength(sent: map<string, int>, servers: set<string>, datagrams: seq<seq<byte>>)
    ensures var after := TrafficAfter(sent, servers, datagrams);
      && after.Keys == sent.Keys + (if datagrams == [] then {} else servers)
      && (forall s :: s in servers && datagrams != [] ==> after[s] == MapGet(sent, s, 0) + TotalLength(datagrams))
      && (forall s :: s in sent && s !in servers ==> after[s] == sent[s])
      && (forall s :: s in sent ==> after[s] >= sent[s])
    decreases |datagrams|
  {
    if datagrams != [] {
      var credited := Credit(sent, servers, |datagrams[0]|);
      TrafficGrowsByReadLength(credited, servers, datagrams[1..]);
    }
  }

  /** Crediting one more datagram in front of the rest. */
  lemma TrafficAfterCons(sent: map<string, int>, servers: set<string>, d: seq<byte>, rest: seq<seq<byte>>)
    ensures TrafficAfter(sent, servers, [d] + rest) == TrafficAfter(Credit(sent, servers, |d|), servers, rest)
  {
    assert ([d] + rest)[1..] == rest;
  }

  /** How the traces of the loop unfold at step `i`. */
  lemma StepAt(config: ProxyConfig, remote: Option<Addr>, transform: seq<byte> -> seq<byte>, steps: seq<LoopStep>, i: nat)
    requires i < |steps|
    ensures steps[i].Received? && !NilTurn(config) ==>
      Forwarded(config, remote, transform, steps[i..]) == [Outgoing(config, remote, transform, steps[i].data)] + Forwarded(config, remote, transform, steps[i + 1..])
    ensures steps[i].Received? ==> Reads(steps[i..]) == [steps[i].data] + Reads(steps[i + 1..])
    ensures !steps[i].Received? || NilTurn(config) ==> Forwarded(config, remote, transform, steps[i..]) == []
    ensures !steps[i].Received? ==> Reads(steps[i..]) == []
  {
    assert steps[i..][1..] == steps[i + 1..];
  }

  lemma MoveOne(done: seq<Send>, write: Send, rest: seq<Send>)
    ensures done + [write] + rest == done + ([write] + rest)
  {
  }

  /** A peer's relay (the Proxy struct): its configuration, lifecycle and sockets. */
  class Proxy {
    var config: ProxyConfig
    /** The lifecycle context has been cancelled. */
    var cancelled: bool
    var localConn: Option<SocketId>
    var remoteConn: Option<Addr>

    /** New: a relay with a fresh, live lifecycle context and no sockets yet. */
    constructor New(config: ProxyConfig)
      ensures this.config == config && !cancelled && localConn.None? && remoteConn.None?
    {
      this.config := config;
      cancelled := false;
      localConn := None;
      remoteConn := None;
    }

    /** Close (not part of this model beyond this): cancels the lifecycle context. */
    method Close()
      modifies this`cancelled
      ensures cancelled
    {
      cancelled := true;
    }

    /** Start (not part of this model beyond this): binds the local socket and picks the remote address, or fails. */
    method Start(outcome: StartOutcome) returns (ok: bool)
      modifies this`localConn, this`remoteConn
      ensures ok == outcome.Started?
      ensures ok ==> localConn == Some(outcome.localConn) && remoteConn == Some(outcome.remoteConn)
      ensures !ok ==> localConn == old(localConn) && remoteConn == old(remoteConn)
    {
      if outcome.StartFailed? {
        return false;
      }
      localConn := Some(outcome.localConn);
      remoteConn := Some(outcome.remoteConn);
      return true;
    }

    /**
     * pullLatestConfig: when the registry has the peer, copy exactly its
     * endpoint and TURN transport; otherwise fail with "peer not found" and
     * leave the configuration alone.
     */
    method PullLatestConfig(reg: Registry) returns (err: Option<string>)
      modifies this`config
      ensures var key := old(config.peerPublicKey);
        && (key in reg.peers ==>
              err.None? && config == old(config).(peerEndpoint := reg.peers[key].config.peerEndpoint,
                                                  turnConn := reg.peers[key].config.turnConn))
        && (key !in reg.peers ==> err == Some("peer not found") && config == old(config))
      ensures config == Pulled(old(config), reg.peers)
    {
      if config.peerPublicKey in reg.peers {
        var peer := reg.peers[config.peerPublicKey];
        config := config.(peerEndpoint := peer.config.peerEndpoint, turnConn := peer.config.turnConn);
        return None;
      }
      return Some("peer not found");
    }

    /**
     * Reset: close this relay; unless its endpoint is unset, pull the latest
     * configuration (a failure is only logged), build and start a
     * replacement, and on success republish it in both registry indices.
     * `hashOf` is models.ConvPeerKeyToHash; `start` is what Start does.
     */
    method Reset(reg: Registry, hashOf: string -> string, start: StartOutcome) returns (replacement: Proxy?)
      modifies this, reg
      ensures cancelled
      ensures localConn == old(localConn) && remoteConn == old(remoteConn)
      ensures old(config.peerEndpoint).None? ==>
        replacement == null && config == old(config)
        && reg.peers == old(reg.peers) && reg.peersByHash == old(reg.peersByHash)
      ensures old(config.peerEndpoint).Some? ==>
        && config == Pulled(old(config), old(reg.peers))
        && replacement != null && fresh(replacement)
        && replacement.config == config && !replacement.cancelled
      ensures old(config.peerEndpoint).Some? && start.StartFailed? ==>
        reg.peers == old(reg.peers) && reg.peersByHash == old(reg.peersByHash)
      ensures old(config.peerEndpoint).Some? && start.Started? ==>
        && replacement != null
        && replacement.localConn == Some(start.localConn)
        && reg.peers == RepublishedByKey(old(reg.peers), config.peerPublicKey, replacement, config, replacement.localConn)
        && reg.peersByHash == RepublishedByHash(old(reg.peersByHash), hashOf(config.peerPublicKey), replacement.localConn)
    {
      Close();
      if config.peerEndpoint.None? {
        return null;
      }
      var err := PullLatestConfig(reg);
      var p := new Proxy.New(config);
      var ok := p.Start(start);
      if !ok {
        return p;
      }
      var key := p.config.peerPublicKey;
      if key in reg.peers {
        var peer := reg.peers[key];
        peer := peer.(config := p.config, localConn := p.localConn, resetConn := Some(p), stopConn := Some(p));
        reg.SavePeer(key, peer);
      }
      var hash := hashOf(key);
      if hash in reg.peersByHash {
        var info := reg.peersByHash[hash];
        info := info.(localConn := p.localConn);
        reg.SavePeerByHash(hash, info);
      }
      return p;
    }

    /**
     * toRemote: run the forwarding loop over a trace of steps. Each datagram
     * read credits the peer's servers (when relaying) by its length, is
     * transformed when relaying or using TURN, and is written once, through
     * the TURN transport or the shared server socket. Writing through an
     * absent TURN transport panics, which ends the loop after the first
     * datagram was credited. `transform` is
     * packet.ProcessPacketBeforeSending for this device and peer; `sent` is
     * the peer's TrafficSent counter per server before the loop.
     */
    method ToRemote(steps: seq<LoopStep>, transform: seq<byte> -> seq<byte>, reg: Registry, sent: map<string, int>)
      returns (sends: seq<Send>, sentAfter: map<string, int>, panicked: bool)
      ensures panicked <==> NilTurn(config) && Reads(steps) != []
      ensures sends == Forwarded(config, remoteConn, transform, steps)
      ensures !panicked ==> sentAfter == TrafficAfter(sent, MetricServers(config, reg.peers), Reads(steps))
      ensures panicked ==> sentAfter == Credit(sent, MetricServers(config, reg.peers), |Reads(steps)[0]|)
    {
      var servers := MetricServers(config, reg.peers);
      sends := [];
      sentAfter := sent;
      panicked := false;
      for i := 0 to |steps|
        invariant sends + Forwarded(config, remoteConn, transform, steps[i..]) == Forwarded(config, remoteConn, transform, steps)
        invariant TrafficAfter(sentAfter, servers, Reads(steps[i..])) == TrafficAfter(sent, servers, Reads(steps))
        invariant NilTurn(config) ==> i == 0 && sentAfter == sent
      {
        StepAt(config, remoteConn, transform, steps, i);
        if !steps[i].Received? {
          if NilTurn(config) {
            assert steps[i..] == steps;
          }
          return;
        }
        var buf := steps[i].data;
        var n := |buf|;
        TrafficAfterCons(sentAfter, servers, buf, Reads(steps[i + 1..]));
        sentAfter := Credit(sentAfter, servers, n);
        if config.proxyStatus || config.usingTurn {
          buf := transform(buf);
        }
        var write: Send;
        if config.usingTurn {
          if config.turnConn.None? {
            // p.Config.TurnConn.WriteTo on a nil interface
            assert steps[i..] == steps;
            panicked := true;
            return;
          }
          write := Send(ViaTurn(config.turnConn), remoteConn, buf);
        } else {
          write := Send(ViaServer, remoteConn, buf);
        }
        assert write == Outgoing(config, remoteConn, transform, steps[i].data);
        MoveOne(sends, write, Forwarded(config, remoteConn, transform, steps[i + 1..]));
        sends := sends + [write];
      }
      assert steps[|steps|..] == [];
    }
  }
}
