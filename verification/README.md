# netclient relay, rule-table and message-cache bookkeeping in Dafny

This project models three sequential pieces of the netclient agent and
proves properties of them.

1. **Per-peer relay helpers** (`nmproxy/proxy/proxy_helper.go`, module
   `ProxyHelper`, with the iplib IPv4 block in `Ipv4Block`):
   - `GetFreeIp` is a verified search loop over a CIDR block. The UDP probe
     and the CIDR parser are parameters.
   - `PeerConnectionStatus` is the WireGuard liveness check.
   - `pullLatestConfig` and `Reset` act on a `Proxy` object and a two-index
     peer registry (by public key and by hash).
   - `toRemote` is a loop that turns the trace of local reads into the trace
     of remote writes and the per-server `TrafficSent` counters.
2. **nftables rule-table bookkeeping** (`nmproxy/router/nftables_linux.go`,
   modules `NftRules` and `Nftables`):
   - the `ruleInfo` / `rulesCfg` / `ruletable` structure;
   - `genRuleKey` and its link to the kernel rule's `UserData`;
   - a `Manager` class holding the per-server ingress and egress tables, the
     remembered egress ranges and the jump rules. Every manager operation is
     a method that updates those maps in place.
   - The kernel is a `Kernel` object. It logs every request (insert-and-flush,
     or delete-by-key) and answers through a fixed `accepts` oracle, so any
     request may fail.
   - Each insertion loop is proved against a reference definition
     (an `Effect`: the rules recorded and the requests issued).
3. **MQ message cache** (`functions/daemon.go`, module `MessageCache`):
   - `read` and `insert` on a key → (message, last seen) store with a 24-hour
     expiry;
   - the length guard of `decryptMsg`.

`common.dfy` holds `Option` and a map lookup with a default.

Conventions:
- Time is an integer number of seconds.
- Go map iteration is an arbitrary choice (`:|`), so contracts never depend
  on its order.
- Go's deferred `SaveRules` is an explicit `SaveRules` call on every exit
  path.
- A write into a nil map, which panics in Go, is the outcome `Panicked`. The
  deferred save still happens.
- `currEgressRangesMap` and `nfJumpRules` are package-level variables in the
  source, not fields of `nftablesManager`. The model makes them the
  `Manager` fields `currEgressRanges` and `jumpRules`.

## Model

| member | source | states |
|---|---|---|
| ProxyHelper.GetFreeIp | nmproxy/proxy/proxy_helper.go:161-204 | A zero port fails with "dst port should be set" before any probe. An unparseable CIDR returns the parse error before any probe. Otherwise the loop's result equals the reference search starting at the block's first address. |
| ProxyHelper.ScanOutcome | nmproxy/proxy/proxy_helper.go:170-204 | From any usable candidate, the search stops in one of three ways. (1) It returns an address inside the block whose probe succeeded, every earlier candidate having failed with a retryable error. (2) It returns a non-retryable probe error, which some candidate produced after only retryable failures before it. (3) It reports exhaustion only when every candidate up to the last usable address failed retryably. |
| ProxyHelper.ScanFound | nmproxy/proxy/proxy_helper.go:185-204 | A found address lies between the start and the last usable address, its probe succeeded, and all earlier probes failed retryably. The only failures are a fatal dial error or NextIP exhaustion. |
| ProxyHelper.ScanFatal | nmproxy/proxy/proxy_helper.go:186-197 | A returned dial error is non-retryable, and it is the error of a candidate reached only through retryable failures. |
| ProxyHelper.ScanExhausted | nmproxy/proxy/proxy_helper.go:188-194 | A NextIP error is returned only after every candidate up to the last usable address failed retryably. |
| ProxyHelper.FreeIpSearchSound | nmproxy/proxy/proxy_helper.go:170-204 | With a valid port and CIDR, a returned address lies inside the CIDR and its probe succeeded. Every address from the first one up to it failed retryably. Exhaustion means every usable address was tried and failed retryably. |
| ProxyHelper.BoundAddressNotReturned | nmproxy/proxy/proxy_helper.go:180-203 | An address whose probe fails is never returned. |
| Ipv4Block.Block.NextIP | nmproxy/proxy/proxy_helper.go:190 | Advancing gives the next address, still inside the block and never past the last usable address. |
| Ipv4Block.FirstAddressUsable | nmproxy/proxy/proxy_helper.go:170-171 | The block's first address lies inside the block, at or before the last usable address. |
| ProxyHelper.PeerConnectionStatus | nmproxy/proxy/proxy_helper.go:209-220 | False when GetPeers fails or no peer has the key. For the first peer with the key: true iff its last handshake is strictly after now − 3 min and RX + TX > 0. |
| ProxyHelper.Registry.SavePeer | nmproxy/proxy/proxy_helper.go:114 | Upserts the key-indexed entry only. |
| ProxyHelper.Registry.SavePeerByHash | nmproxy/proxy/proxy_helper.go:118 | Upserts the hash-indexed entry only. |
| ProxyHelper.Proxy.New | nmproxy/proxy/proxy_helper.go:26-30 | A fresh proxy carries the given config, is not cancelled and has no sockets yet. |
| ProxyHelper.Proxy.PullLatestConfig | nmproxy/proxy/proxy_helper.go:125-134 | A peer absent from the registry gives "peer not found" and leaves the config unchanged. Otherwise exactly PeerEndpoint and TurnConn are copied from the registry. |
| ProxyHelper.Proxy.Reset | nmproxy/proxy/proxy_helper.go:92-122 | The proxy is always closed. A nil endpoint returns with the registry untouched. A pull error does not abort. A failed Start leaves the registry untouched. On success, the key entry, if present, gets Config, LocalConn, ResetConn and StopConn of the new proxy. The hash entry, if present, gets only LocalConn. No entry is created. |
| ProxyHelper.RepublishKeepsIndicesInStep | nmproxy/proxy/proxy_helper.go:108-120 | A successful reset adds or removes no entry in either index. When the peer's hash is its own, both indices still agree on every peer's local socket. |
| ProxyHelper.Proxy.ToRemote | nmproxy/proxy/proxy_helper.go:33-89 | The writes are exactly the forwarded trace of the reads, and the counters are the reads credited in order. With UsingTurn and no TURN transport, the write at line 73 panics: the loop ends after crediting the first datagram, having written nothing. |
| ProxyHelper.ReadsArePrefixPayloads | nmproxy/proxy/proxy_helper.go:38-48 | The datagrams read are the payloads before the first cancellation or read error, in order, each once. Cancellation or a read error ends the loop. |
| ProxyHelper.OneWritePerRead | nmproxy/proxy/proxy_helper.go:62-83 | One write per read, in read order, to the remote address. It goes through the TURN transport iff UsingTurn, else through the server socket. The payload is transformed iff ProxyStatus or UsingTurn. With UsingTurn and a nil TURN transport, nothing is written. |
| ProxyHelper.TrafficGrowsByReadLength | nmproxy/proxy/proxy_helper.go:49-60 | Each server in the peer's ServerMap gains the total read length. Other counters are unchanged, and no counter decreases. |
| NftRules.RuleKeyRoundTrip | nmproxy/router/nftables_linux.go:1977-1979 | Splitting genRuleKey of a non-empty spec of colon-free parts at ':' gives the spec back. |
| NftRules.DistinctSpecsDistinctKeys | nmproxy/router/nftables_linux.go:1977-1979 | Distinct colon-free specs get distinct keys, so a key names one recorded rule. |
| NftRules.MadeRulesDistinguishable | nmproxy/router/nftables_linux.go:325-330 | Two rules built from distinct colon-free specs carry distinct UserData and get distinct delete requests, even in the same table and chain. Deleting one by its key never removes the other. |
| NftRules.DeleteTargetsInsertedRule | nmproxy/router/nftables_linux.go:406-415 | Deleting a recorded rule by table, chain and genRuleKey of its spec addresses exactly the kernel rule it was inserted with. |
| NftRules.Kernel.Submit | nmproxy/router/nftables_linux.go:1945-1954 | Every request is logged, and it succeeds iff the kernel accepts it. |
| NftRules.EgressRangeEffectProps | nmproxy/router/nftables_linux.go:1197-1396 | One external-client egress range records at most two flagged rules, each inserted and flushed. An unparseable range does nothing. |
| NftRules.EgressRangesEffectProps | nmproxy/router/nftables_linux.go:1197-1396 | All ranges together record only flagged rules that the kernel took, at most two per range. With no parseable range, nothing happens. |
| NftRules.PeerRangesEffectProps | nmproxy/router/nftables_linux.go:729-836 | A peer's accept rules are unflagged and flushed successfully, at most one per range. |
| NftRules.GatewayEffectProps | nmproxy/router/nftables_linux.go:319-595 | Gateway routes are unflagged and flushed successfully, at most three per range. Without NAT they all live in the filter table. |
| NftRules.GatewayRangeEffectProps | nmproxy/router/nftables_linux.go:319-595 | One gateway range records at most three unflagged, flushed rules. Without NAT they are all in the filter table. |
| NftRules.NatEffectProps | nmproxy/router/nftables_linux.go:416-594 | The MASQUERADE pair records at most two unflagged, flushed rules, and only when NatEnabled is "yes". |
| NftRules.ReplaceEffectProps | nmproxy/router/nftables_linux.go:421-507 | Delete-then-insert records at most the rule itself, and only when its flush succeeded. |
| NftRules.EgressPeersEffectKeys | nmproxy/router/nftables_linux.go:597-601 | The peer loop adds entries only for allowed peers. |
| NftRules.EgressPeersEffectEntry | nmproxy/router/nftables_linux.go:597-708 | Every allowed peer has an entry holding the accept rules recorded for an allowed peer with that key. |
| NftRules.EgressPeersEffectKeepsOthers | nmproxy/router/nftables_linux.go:597-708 | Entries of keys that no allowed peer names are kept. |
| NftRules.EgressCfgProps | nmproxy/router/nftables_linux.go:315-318 | The fresh gateway config holds the gateway routes under EgressID and the isIpv4 flag of the gateway address. Every other key is an allowed peer, and every allowed peer whose key differs from EgressID has its recorded accept rules. |
| NftRules.IngressPeersEffectProps | nmproxy/router/nftables_linux.go:1103-1195 | The ingress peer loop keeps the client's own entry and adds entries only for allowed peers. |
| NftRules.IngressOwnList | nmproxy/router/nftables_linux.go:1024-1547 | The client's own list starts with the jump and accept rules. Its flagged rules are exactly the egress-range rules recorded. Without masquerading, nothing else is in it. |
| NftRules.IngressOtherEntries | nmproxy/router/nftables_linux.go:1103-1195 | Every other key of a fresh client config is an allowed peer. |
| NftRules.UnflaggedProps | nmproxy/router/nftables_linux.go:1566-1576 | The kept rules are all unflagged, and kept plus deleted covers the list. |
| NftRules.FlaggedAppend | nmproxy/router/nftables_linux.go:1566-1576 | Selecting flagged rules distributes over concatenation. |
| NftRules.UnflaggedAppend | nmproxy/router/nftables_linux.go:1566-1576 | Selecting unflagged rules distributes over concatenation. |
| NftRules.RebuiltFlaggedRules | nmproxy/router/nftables_linux.go:1596-1797 | After stripping and appending flagged rules, the flagged rules of the list are exactly the appended ones. |
| NftRules.DeleteAttemptsProps | nmproxy/router/nftables_linux.go:1844-1852 | In-order deletion issues one request per rule when all are accepted. Otherwise the requests end with the first refused one, and every earlier request was accepted. |
| NftRules.DeleteAttemptsStopsAt | nmproxy/router/nftables_linux.go:1866-1871 | After accepted deletions, the first refusal ends the requests. |
| NftRules.RefreshRebuildsFlaggedRules | nmproxy/router/nftables_linux.go:1562-1797 | After a full strip and re-add, each client of the update has exactly the new ranges' flagged rules and keeps its unflagged rules. A client not in the update is left with no flagged rules. |
| NftRules.SameLengthChangeMissed | nmproxy/router/nftables_linux.go:1561 | The guard as written does not treat ["10.0.0.0/24"] → ["10.1.0.0/24"] as a change, although the lists differ. |
| NftRules.RangesChangedExactly | nmproxy/router/nftables_linux.go:1561 | The corrected guard skips the refresh iff the non-empty new list equals the current one. Every change the written guard sees, the corrected guard sees too. |
| Nftables.StrippedConsistent | nmproxy/router/nftables_linux.go:1582-1584 | After an empty range list, the stripped table has no flagged rule in any client's own list. |
| Nftables.Manager.constructor | nmproxy/router/nftables_linux.go:36-40 | A new manager starts with empty ingress and egress tables and no remembered ranges. |
| Nftables.Manager.FetchRuleTable | nmproxy/router/nftables_linux.go:1803-1821 | The stored table, or a fresh empty one, for the ingress and egress names. Nil for any other name. |
| Nftables.Manager.SaveRules | nmproxy/router/nftables_linux.go:1823-1833 | Only the named table's entry for that server changes. Every other fetch is as before. |
| Nftables.Manager.DeleteRuleTable | nmproxy/router/nftables_linux.go:291-301 | Only that server's entry of the named table is removed. Other servers and the other table are unchanged. |
| Nftables.Manager.CleanRoutingRules | nmproxy/router/nftables_linux.go:274-288 | Deletion is requested for every recorded rule of the server's table, carrying on past refusals. Then the server's entry is dropped. |
| Nftables.Manager.DeleteTableRules | nmproxy/router/nftables_linux.go:279-286 | The delete requests are exactly those of every recorded rule, whatever the kernel answers. |
| Nftables.Manager.RemoveRoutingRules | nmproxy/router/nftables_linux.go:1836-1854 | An absent peer gives "peer not found" and changes nothing. If any deletion is refused, the error names the refused rule and the peer is kept. Only when all deletions succeed is the peer removed. |
| Nftables.Manager.DeletePeerRules | nmproxy/router/nftables_linux.go:1844-1852 | It succeeds iff every rule of the peer can be deleted, and then every rule was requested. A refusal names one of the peer's rules. |
| Nftables.Manager.DeleteRoutingRule | nmproxy/router/nftables_linux.go:1857-1876 | A missing source key, or a missing destination key, gives an error and issues no request. Otherwise the rules are deleted in order up to the first refusal. It succeeds iff none is refused, and the in-memory table never changes. |
| Nftables.Manager.DeleteInOrder | nmproxy/router/nftables_linux.go:1866-1871 | The requests are the in-order attempts. It returns None iff all are accepted. A refused rule is one of the list. |
| Nftables.Manager.InsertEgressRoutingRules | nmproxy/router/nftables_linux.go:304-714 | The gateway's entry is replaced by the fresh config, other entries are kept, and the requests are exactly those of the reference definition. |
| Nftables.Manager.BuildEgressCfg | nmproxy/router/nftables_linux.go:315-711 | The loops build exactly the reference config and issue its requests. |
| Nftables.Manager.InsertGatewayRoutes | nmproxy/router/nftables_linux.go:319-595 | The gateway routes are exactly those the reference definition records. |
| Nftables.Manager.InsertEgressPeers | nmproxy/router/nftables_linux.go:597-708 | The peers loop builds exactly the reference rulesMap. |
| Nftables.Manager.AddEgressRoutingRule | nmproxy/router/nftables_linux.go:717-837 | A disallowed peer: nil, no change, no request. A gateway missing from the table panics with the table saved unchanged. Otherwise the peer's entry becomes the recorded accept rules. |
| Nftables.Manager.AddIngressRoutingRule | nmproxy/router/nftables_linux.go:840-935 | A bad peer prefix is an error with no request. Otherwise the accept rule is inserted and recorded as the peer's entry under the client. A client missing from the table panics. |
| Nftables.Manager.InsertIngressRoutingRules | nmproxy/router/nftables_linux.go:938-1549 | A bad client prefix is an error with no change. Otherwise the client's entry becomes the fresh config and the jump rule is remembered. |
| Nftables.Manager.BuildIngressCfg | nmproxy/router/nftables_linux.go:1024-1547 | The fresh client config and the requests are exactly those of the reference definition. |
| Nftables.Manager.InsertIngressPeers | nmproxy/router/nftables_linux.go:1103-1195 | The ingress peers loop builds exactly the reference rulesMap. |
| Nftables.Manager.InsertEgressRanges | nmproxy/router/nftables_linux.go:1197-1396 | The egress-range loop records exactly the reference flagged rules. |
| Nftables.Manager.InsertMasquerade | nmproxy/router/nftables_linux.go:1401-1547 | The MASQUERADE pair is recorded only when masquerading is on. |
| Nftables.Manager.StripOwnList | nmproxy/router/nftables_linux.go:1566-1577 | Flagged rules are deleted in order and unflagged rules kept in order. The first refusal stops it and is reported. |
| Nftables.Manager.StripFlagged | nmproxy/router/nftables_linux.go:1562-1587 | Without a refusal, every client's own list loses exactly its flagged rules. After a refusal, each client is either as it was or stripped, and the error names a refused flagged rule. |
| Nftables.Manager.ReAddRanges | nmproxy/router/nftables_linux.go:1591-1798 | Only clients already in the table get new rules, and each gets the egress-range rules for the new list appended. |
| Nftables.Manager.RebuildFlagged | nmproxy/router/nftables_linux.go:1562-1798 | Strip then re-add. On success every client of the update has exactly the new ranges' flagged rules. |
| Nftables.Manager.RefreshIngressTable | nmproxy/router/nftables_linux.go:1552-1799 | The ranges are remembered and the table saved on every path. Unchanged: nothing else happens. Changed: the table is rebuilt. |
| Nftables.Manager.RefreshEgressRangesOnIngressGw | nmproxy/router/nftables_linux.go:1552-1799 | The refresh with the guard as written. An update it sees as a change leaves the table consistent with the new ranges. |
| Nftables.Manager.RefreshEgressRangesCorrected | nmproxy/router/nftables_linux.go:1552-1799 | The refresh with the corrected guard. A successful refresh keeps the ingress table consistent with the remembered ranges. |
| MessageCache.CacheKey | functions/daemon.go:377 | The key is network followed by which, with no separator. |
| MessageCache.KeysCollide | functions/daemon.go:377 | ("ab", "c") and ("a", "bc") address the same entry. |
| MessageCache.Cache.Read | functions/daemon.go:376-390 | Returns the lookup of the key, and only an expired entry is removed. |
| MessageCache.Cache.Insert | functions/daemon.go:392-398 | Stores the message with LastSeen = now, overwriting any entry. |
| MessageCache.ReadOfAbsentKey | functions/daemon.go:376-390 | Reading a key never inserted returns "" and changes nothing. |
| MessageCache.ReadOfZeroStamp | functions/daemon.go:380-382 | A zero LastSeen returns "" and the entry is not deleted. |
| MessageCache.ReadExpiry | functions/daemon.go:383-387 | Strictly after LastSeen + 24 h: returns "" and deletes just that entry. Otherwise: returns the message and changes nothing. |
| MessageCache.InsertThenRead | functions/daemon.go:392-398 | A read within 24 h of insert returns the inserted message. |
| MessageCache.ShortMessageRejected | functions/daemon.go:355-357 | A message of at most 24 bytes is rejected before any key is looked at. |

## Left out

- Socket I/O is not modelled: DialUDP, Read, WriteTo and WriteToUDP, ResolveUDPAddr, and the darwin `ifconfig lo0 alias` command. The probe is the parameter `dial`, and the reads are a trace of steps.
- The WireGuard calls are not modelled: `wg.GetPeers` is an `Option` parameter, and `updateEndpoint` / UpdatePeerEndpoint are left out as interface plumbing.
- `packet.ProcessPacketBeforeSending` is the parameter `transform`. It returns no error: the `err` tested after it (nmproxy/proxy/proxy_helper.go:64-66) is the read's error, already nil there. So the transformed datagram is always sent.
- Close, Start and ConvPeerKeyToHash are not shown in the source. Close sets `cancelled`; Start's result is the parameter `start`; the hash is the parameter `hashOf`.
- The registry is two maps, and `ProxyPeer` is not modelled.
- Concurrency is not modelled: the mutexes, the metric goroutine (its updates are sequential credits), the WaitGroup and the DumpSignalChan send.
- ProxyHelper.Proxy.ToRemote: TrafficSent is an unbounded integer, so int64 overflow is not modelled.
- ProxyHelper.Proxy.ToRemote: a panic is sequential here. The datagram whose write panics is credited because its metric update is started first. The race between that goroutine and the crash is not modelled.
- Ipv4Block.Block.NextIP: iplib is not part of this model. Net4.FirstAddress and NextIP are written out concretely as network+1 (network for /31 and /32), refusing to step past the last usable address.
- The names of the tables, chains and rule tables are declared in a file not part of this model. Only their distinctness matters.
- The kernel is not modelled in detail. Rule expressions, CreateChains, ForwardRule, FlushAll, getTable/getChain/getRule and adding or removing jump rules are left out. A request's success is a fixed oracle, `accepts`.
- Nftables.Manager.constructor: `jumpRules` starts empty and holds only the jump rules that InsertIngressRoutingRules appends. The fixed filter and NAT jump rules that `init` puts there are left out with the rest of jump-rule handling.
- Host lookups are fields of `HostEnv`: net.ParseCIDR, netip.ParsePrefix, isAddrIpv4 and getInterfaceName.
- Nftables.Manager.CleanRoutingRules: states the set of delete requests, not their order, because Go map iteration order is unspecified.
- Nftables.Manager.RemoveRoutingRules: states the set of delete requests, not their order, because the peer's rulesMap is iterated in map order.
- Nftables.Manager.RebuildFlagged: states the set of requests, not their order, because clients are visited in map order.
- NftRules.RuleKeyRoundTrip: holds only for colon-free parts. An IPv6 address in a spec contains ':', so its key does not split back.
- ProxyHelper.RepublishKeepsIndicesInStep: needs the reset peer's hash to be its own. Hash collisions are outside the model.
- DeChunk and the key conversion in decryptMsg are parameters of a `Keyring`. Only the length guard and the order of the checks are modelled.
- The daemon's signal loop, MQTT, STUN and routines, `config/server.go` and `functions/pull.go` are not part of this model.

## Findings

| source | as written | input that shows it | evidently intended | confidence | as-written member | corrected member |
|---|---|---|---|---|---|---|
| nmproxy/router/nftables_linux.go:1561 | The refresh counts the egress ranges as changed only when the new list is empty or its length differs. The remembered ranges are overwritten on every path. | Current ranges ["10.0.0.0/24"], update ["10.1.0.0/24"]: no rule is stripped or re-added, yet the new list is remembered. The clients keep flagged rules for 10.0.0.0/24. | Refresh whenever the new list differs from the current one, so the flagged rules always match the remembered ranges. | not executed | Nftables.Manager.RefreshEgressRangesOnIngressGw, NftRules.SameLengthChangeMissed | Nftables.Manager.RefreshEgressRangesCorrected, NftRules.RangesChangedExactly |
