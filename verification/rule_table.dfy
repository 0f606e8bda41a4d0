/**
 * The in-memory nftables bookkeeping of nmproxy/router/nftables_linux.go:
 * recorded rules, the per-server rule tables, the rule key that links a
 * recorded rule to the kernel rule's UserData, the kernel as a fallible
 * oracle, and reference definitions of which rules each insertion loop
 * records and which kernel calls it issues.
 */
module NftRules {
  import opened Common

  // Table, chain and rule-table names. They are declared in a file of the
  // router package that is not part of this model; only their identity
  // matters here.
  const DefaultIpTable: string := "filter"
  const DefaultNatTable: string := "nat"
  const NetmakerFilterChain: string := "netmakerfilter"
  const NetmakerNatChain: string := "netmakernat"
  const IptableFwdChain: string := "FORWARD"
  const NatTablePrtChain: string := "POSTROUTING"
  const IngressTable: string := "ingress"
  const EgressTable: string := "egress"

  // ===================================================================
  // genRuleKey
  // ===================================================================

  /** genRuleKey: the rule spec joined with ':' (strings.Join). */
  function GenRuleKey(rule: seq<string>): string {
    if |rule| == 0 then ""
    else if |rule| == 1 then rule[0]
    else rule[0] + ":" + GenRuleKey(rule[1..])
  }

  /** strings.Split(s, ":"): the pieces between separators; "" splits into [""]. */
  function SplitKey(s: string): (parts: seq<string>)
    ensures |parts| >= 1
  {
    if s == [] then [""]
    else
      var rest := SplitKey(s[1..]);
      if s[0] == ':' then [""] + rest else [[s[0]] + rest[0]] + rest[1..]
  }

  predicate ColonFree(part: string) {
    forall i :: 0 <= i < |part| ==> part[i] != ':'
  }

  lemma {:induction false} SplitColonFree(a: string)
    requires ColonFree(a)
    ensures SplitKey(a) == [a]
  {
    if a != [] {
      assert ColonFree(a[1..]) by {
        forall i | 0 <= i < |a[1..]| ensures a[1..][i] != ':' {
          assert a[1..][i] == a[i + 1];
        }
      }
      SplitColonFree(a[1..]);
      assert a[0] != ':';
      assert [a[0]] + a[1..] == a;
    }
  }

  lemma {:induction false} SplitJoined(a: string, b: string)
    requires ColonFree(a)
    ensures SplitKey(a + ":" + b) == [a] + SplitKey(b)
  {
    if a == [] {
      assert a + ":" + b == [':'] + b;
      assert (a + ":" + b)[1..] == b;
    } else {
      assert (a + ":" + b)[1..] == a[1..] + ":" + b;
      SplitJoined(a[1..], b);
      assert [a[0]] + a[1..] == a;
    }
  }

  /**
   * genRuleKey loses nothing when no part of the rule spec contains ':':
   * splitting the key gives the spec back.
   */
  lemma {:induction false} RuleKeyRoundTrip(rule: seq<string>)
    requires |rule| >= 1
    requires forall i :: 0 <= i < |rule| ==> ColonFree(rule[i])
    ensures SplitKey(GenRuleKey(rule)) == rule
  {
    if |rule| == 1 {
      SplitColonFree(rule[0]);
    } else {
      SplitJoined(rule[0], GenRuleKey(rule[1..]));
      RuleKeyRoundTrip(rule[1..]);
    }
  }

  /** So two different colon-free rule specs never share a kernel key. */
  lemma DistinctSpecsDistinctKeys(a: seq<string>, b: seq<string>)
    requires |a| >= 1 && |b| >= 1 && a != b
    requires forall i :: 0 <= i < |a| ==> ColonFree(a[i])
    requires forall i :: 0 <= i < |b| ==> ColonFree(b[i])
    ensures GenRuleKey(a) != GenRuleKey(b)
  {
    RuleKeyRoundTrip(a);
    RuleKeyRoundTrip(b);
  }

  // ===================================================================
  // Rules and rule tables
  // ===================================================================

  /** The parts of a kernel rule (nftables.Rule) that the bookkeeping relies on. */
  datatype NfRule = NfRule(table: string, chain: string, userData: string)

  /** ruleInfo: a recorded rule. */
  datatype RuleInfo = RuleInfo(nfRule: NfRule, table: string, chain: string, rule: seq<string>, egressExtRule: bool)

  /**
   * A recorded rule whose kernel rule lives in the recorded table and chain
   * and carries genRuleKey of the recorded spec as UserData: every rule the
   * modelled operations record is built this way.
   */
  type Rule = r: RuleInfo | r.nfRule == NfRule(r.table, r.chain, GenRuleKey(r.rule))
    witness RuleInfo(NfRule("", "", ""), "", "", [], false)

  function MakeRule(table: string, chain: string, spec: seq<string>, egressExt: bool): (r: Rule)
    ensures r.rule == spec && r.table == table && r.chain == chain && r.egressExtRule == egressExt
  {
    RuleInfo(NfRule(table, chain, GenRuleKey(spec)), table, chain, spec, egressExt)
  }

  /**
   * Two rules built from distinct colon-free specs carry distinct UserData,
   * even in the same table and chain, so deleting one by its key never
   * removes the other.
   */
  lemma MadeRulesDistinguishable(table: string, chain: string, a: seq<string>, b: seq<string>, flagA: bool, flagB: bool)
    requires |a| >= 1 && |b| >= 1 && a != b
    requires forall i :: 0 <= i < |a| ==> ColonFree(a[i])
    requires forall i :: 0 <= i < |b| ==> ColonFree(b[i])
    ensures MakeRule(table, chain, a, flagA).nfRule.userData != MakeRule(table, chain, b, flagB).nfRule.userData
    ensures DeleteCallFor(MakeRule(table, chain, a, flagA)) != DeleteCallFor(MakeRule(table, chain, b, flagB))
  {
    DistinctSpecsDistinctKeys(a, b);
  }

  /** rulesCfg: the rules recorded for one peer (or gateway), by destination key. */
  datatype RulesCfg = RulesCfg(isIpv4: bool, rulesMap: map<string, seq<Rule>>)

  /** ruletable: rulesCfg by peer key. */
  type RuleTable = map<string, RulesCfg>

  // ===================================================================
  // The kernel
  // ===================================================================

  /** A kernel request: deleteRule(table, chain, key), or InsertRule followed by Flush. */
  datatype KernelCall = DeleteRuleCall(table: string, chain: string, key: string) | InsertRuleCall(rule: NfRule)

  /** deleteRule for a recorded rule: table, chain and genRuleKey of its spec. */
  function DeleteCallFor(r: Rule): KernelCall {
    DeleteRuleCall(r.table, r.chain, GenRuleKey(r.rule))
  }

  /**
   * Deleting a recorded rule looks up, by UserData, exactly the kernel rule
   * it was inserted with.
   */
  lemma DeleteTargetsInsertedRule(r: Rule)
    ensures DeleteCallFor(r) == DeleteRuleCall(r.nfRule.table, r.nfRule.chain, r.nfRule.userData)
  {
  }

  /**
   * The nftables connection, as seen by the bookkeeping: every request is
   * logged, and `accepts` says whether the kernel carried it out.
   */
  class Kernel {
    const accepts: KernelCall -> bool
    var log: seq<KernelCall>

    constructor (accepts: KernelCall -> bool)
      ensures this.accepts == accepts && log == []
    {
      this.accepts := accepts;
      log := [];
    }

    method Submit(call: KernelCall) returns (ok: bool)
      modifies this`log
      ensures log == old(log) + [call] && ok == accepts(call)
    {
      log := log + [call];
      ok := accepts(call);
    }
  }

  // ===================================================================
  // Inputs
  // ===================================================================

  /**
   * Host facts the router consults: the WireGuard interface name,
   * isAddrIpv4, whether net.ParseCIDR accepts a string, netip.ParsePrefix
   * (None on error, else whether the address is IPv6) and getInterfaceName
   * for a range.
   */
  datatype HostEnv = HostEnv(
    interfaceName: string,
    isAddrIpv4: string -> bool,
    cidrParses: string -> bool,
    prefixIs6: string -> Option<bool>,
    interfaceFor: string -> Option<string>)

  /** models.PeerRouteInfo (addresses in their String() form). */
  datatype PeerRouteInfo = PeerRouteInfo(peerKey: string, peerAddr: string, allow: bool)

  /** models.EgressInfo. */
  datatype EgressInfo = EgressInfo(
    egressID: string,
    egressGwAddr: string,
    network: string,
    ranges: seq<string>,
    natEnabled: string,
    gwPeers: seq<PeerRouteInfo>)

  /** models.ExtClientInfo. */
  datatype ExtClientInfo = ExtClientInfo(
    extPeerKey: string,
    extPeerAddr: string,
    ingGwAddr: string,
    network: string,
    masquerade: bool,
    peers: seq<PeerRouteInfo>)

  /** models.IngressInfo. */
  datatype IngressInfo = IngressInfo(extPeers: map<string, ExtClientInfo>, egressRanges: seq<string>)

  // ===================================================================
  // What an insertion loop records, and the requests it issues
  // ===================================================================

  /** A log that grew by prev and then by step grew by prev + step. */
  lemma LogStep(log0: seq<KernelCall>, log1: seq<KernelCall>, log2: seq<KernelCall>, prev: seq<KernelCall>, step: seq<KernelCall>)
    requires log1 == log0 + prev && log2 == log1 + step
    ensures log2 == log0 + (prev + step)
  {
  }

  /** A log that grew by `issued` keeps its old part and ends with `issued`. */
  lemma LogTail(log0: seq<KernelCall>, issued: seq<KernelCall>, log: seq<KernelCall>)
    requires log == log0 + issued
    ensures |log| >= |log0| && log[..|log0|] == log0 && log[|log0|..] == issued
  {
  }

  /** A log that kept its old part grew by what follows it. */
  lemma LogSuffix(log0: seq<KernelCall>, log: seq<KernelCall>)
    requires |log| >= |log0| && log[..|log0|] == log0
    ensures log == log0 + log[|log0|..]
  {
  }

  /** Two extensions of a log in a row are one extension by both. */
  lemma LogChain(log0: seq<KernelCall>, log1: seq<KernelCall>, log2: seq<KernelCall>)
    requires |log1| >= |log0| && log1[..|log0|] == log0
    requires |log2| >= |log1| && log2[..|log1|] == log1
    ensures |log2| >= |log0| && log2[..|log0|] == log0
    ensures log2[|log0|..] == log1[|log0|..] + log2[|log1|..]
  {
    LogSuffix(log0, log1);
    LogSuffix(log1, log2);
    assert log2 == log0 + (log1[|log0|..] + log2[|log1|..]);
  }

  /** Rules recorded and kernel requests issued, in order. */
  datatype Effect = Effect(recorded: seq<Rule>, calls: seq<KernelCall>)

  const NoEffect := Effect([], [])

  function Then(a: Effect, b: Effect): Effect {
    Effect(a.recorded + b.recorded, a.calls + b.calls)
  }

  /** InsertRule + Flush, recording the rule only when the flush succeeds. */
  function TryInsert(r: Rule, accepts: KernelCall -> bool): Effect {
    Effect(if accepts(InsertRuleCall(r.nfRule)) then [r] else [], [InsertRuleCall(r.nfRule)])
  }

  /** deleteRule of any old copy, then InsertRule + Flush. */
  function ReplaceEffect(r: Rule, accepts: KernelCall -> bool): Effect {
    Then(Effect([], [DeleteCallFor(r)]), TryInsert(r, accepts))
  }

  /** Every recorded rule was inserted by one of the calls, and the kernel accepted it. */
  predicate Sound(e: Effect, accepts: KernelCall -> bool) {
    forall i :: 0 <= i < |e.recorded| ==>
      InsertRuleCall(e.recorded[i].nfRule) in e.calls && accepts(InsertRuleCall(e.recorded[i].nfRule))
  }

  predicate AllFlagged(rules: seq<Rule>) {
    forall i :: 0 <= i < |rules| ==> rules[i].egressExtRule
  }

  predicate NoneFlagged(rules: seq<Rule>) {
    forall i :: 0 <= i < |rules| ==> !rules[i].egressExtRule
  }

  lemma ThenSound(a: Effect, b: Effect, accepts: KernelCall -> bool)
    requires Sound(a, accepts) && Sound(b, accepts)
    ensures Sound(Then(a, b), accepts)
  {
    var t := Then(a, b);
    forall i | 0 <= i < |t.recorded|
      ensures InsertRuleCall(t.recorded[i].nfRule) in t.calls && accepts(InsertRuleCall(t.recorded[i].nfRule))
    {
      if i < |a.recorded| {
        assert t.recorded[i] == a.recorded[i];
      } else {
        assert t.recorded[i] == b.recorded[i - |a.recorded|];
      }
    }
  }

  lemma ThenFlags(a: Effect, b: Effect)
    ensures AllFlagged(a.recorded) && AllFlagged(b.recorded) ==> AllFlagged(Then(a, b).recorded)
    ensures NoneFlagged(a.recorded) && NoneFlagged(b.recorded) ==> NoneFlagged(Then(a, b).recorded)
  {
    var r := Then(a, b).recorded;
    forall i | |a.recorded| <= i < |r|
      ensures r[i] == b.recorded[i - |a.recorded|]
    {
    }
  }

  // ----- egress-range rules for an external client (flagged egressExtRule) -----

  /**
   * One egress range for an external client: skipped when it does not
   * parse; otherwise the client-to-range rule, and, only when that one was
   * accepted, the range-to-client rule.
   */
  function EgressRangeEffect(extAddr: string, range: string, env: HostEnv, accepts: KernelCall -> bool): Effect {
    if !env.cidrParses(range) then NoEffect
    else
      var out := MakeRule(DefaultIpTable, NetmakerFilterChain, ["-s", extAddr, "-d", range, "-j", "ACCEPT"], true);
      if !accepts(InsertRuleCall(out.nfRule)) then Effect([], [InsertRuleCall(out.nfRule)])
      else Then(Effect([out], [InsertRuleCall(out.nfRule)]),
                TryInsert(MakeRule(DefaultIpTable, NetmakerFilterChain, ["-s", range, "-d", extAddr, "-j", "ACCEPT"], true), accepts))
  }

  function EgressRangesEffect(extAddr: string, ranges: seq<string>, env: HostEnv, accepts: KernelCall -> bool): Effect
    decreases |ranges|
  {
    if ranges == [] then NoEffect
    else Then(EgressRangesEffect(extAddr, ranges[..|ranges| - 1], env, accepts),
              EgressRangeEffect(extAddr, ranges[|ranges| - 1], env, accepts))
  }

  /** One egress range: flagged, accepted rules, at most two, and nothing at all when the range does not parse. */
  lemma EgressRangeEffectProps(extAddr: string, range: string, env: HostEnv, accepts: KernelCall -> bool)
    ensures var e := EgressRangeEffect(extAddr, range, env, accepts);
      && Sound(e, accepts) && AllFlagged(e.recorded) && |e.recorded| <= 2
      && (!env.cidrParses(range) ==> e == NoEffect)
  {
    if env.cidrParses(range) {
      var out := MakeRule(DefaultIpTable, NetmakerFilterChain, ["-s", extAddr, "-d", range, "-j", "ACCEPT"], true);
      var back := MakeRule(DefaultIpTable, NetmakerFilterChain, ["-s", range, "-d", extAddr, "-j", "ACCEPT"], true);
      if accepts(InsertRuleCall(out.nfRule)) {
        ThenSound(Effect([out], [InsertRuleCall(out.nfRule)]), TryInsert(back, accepts), accepts);
        ThenFlags(Effect([out], [InsertRuleCall(out.nfRule)]), TryInsert(back, accepts));
      }
    }
  }

  /**
   * Egress-range rules: all flagged, all accepted by the kernel, at most two
   * per range, and none for a list whose ranges all fail to parse.
   */
  lemma {:induction false} EgressRangesEffectProps(extAddr: string, ranges: seq<string>, env: HostEnv, accepts: KernelCall -> bool)
    ensures var e := EgressRangesEffect(extAddr, ranges, env, accepts);
      && Sound(e, accepts) && AllFlagged(e.recorded)
      && |e.recorded| <= 2 * |ranges|
      && ((forall i :: 0 <= i < |ranges| ==> !env.cidrParses(ranges[i])) ==> e == NoEffect)
    decreases |ranges|
  {
    if ranges != [] {
      var init := ranges[..|ranges| - 1];
      var last := ranges[|ranges| - 1];
      EgressRangesEffectProps(extAddr, init, env, accepts);
      EgressRangeEffectProps(extAddr, last, env, accepts);
      var a := EgressRangesEffect(extAddr, init, env, accepts);
      var b := EgressRangeEffect(extAddr, last, env, accepts);
      ThenSound(a, b, accepts);
      ThenFlags(a, b);
      if (forall i :: 0 <= i < |ranges| ==> !env.cidrParses(ranges[i])) {
        assert forall i :: 0 <= i < |init| ==> !env.cidrParses(init[i]) by {
          forall i | 0 <= i < |init| ensures !env.cidrParses(init[i]) {
            assert init[i] == ranges[i];
          }
        }
        assert !env.cidrParses(last);
      }
    }
  }

  // ----- per-peer accept rules on an egress gateway -----

  function PeerRangeEffect(peerAddr: string, range: string, env: HostEnv, accepts: KernelCall -> bool): Effect {
    if !env.cidrParses(range) then NoEffect
    else TryInsert(MakeRule(DefaultIpTable, NetmakerFilterChain, ["-s", peerAddr, "-d", range, "-j", "ACCEPT"], false), accepts)
  }

  function PeerRangesEffect(peerAddr: string, ranges: seq<string>, env: HostEnv, accepts: KernelCall -> bool): Effect
    decreases |ranges|
  {
    if ranges == [] then NoEffect
    else Then(PeerRangesEffect(peerAddr, ranges[..|ranges| - 1], env, accepts),
              PeerRangeEffect(peerAddr, ranges[|ranges| - 1], env, accepts))
  }

  lemma EgressRangesStep(extAddr: string, ranges: seq<string>, i: nat, env: HostEnv, accepts: KernelCall -> bool)
    requires i < |ranges|
    ensures EgressRangesEffect(extAddr, ranges[..i + 1], env, accepts)
         == Then(EgressRangesEffect(extAddr, ranges[..i], env, accepts), EgressRangeEffect(extAddr, ranges[i], env, accepts))
  {
    assert ranges[..i + 1][..i] == ranges[..i];
  }

  lemma PeerRangesStep(peerAddr: string, ranges: seq<string>, i: nat, env: HostEnv, accepts: KernelCall -> bool)
    requires i < |ranges|
    ensures PeerRangesEffect(peerAddr, ranges[..i + 1], env, accepts)
         == Then(PeerRangesEffect(peerAddr, ranges[..i], env, accepts), PeerRangeEffect(peerAddr, ranges[i], env, accepts))
  {
    assert ranges[..i + 1][..i] == ranges[..i];
  }

  /** A gateway peer's rules: unflagged, accepted, at most one per range. */
  lemma {:induction false} PeerRangesEffectProps(peerAddr: string, ranges: seq<string>, env: HostEnv, accepts: KernelCall -> bool)
    ensures var e := PeerRangesEffect(peerAddr, ranges, env, accepts);
      Sound(e, accepts) && NoneFlagged(e.recorded) && |e.recorded| <= |ranges|
    decreases |ranges|
  {
    if ranges != [] {
      var init := ranges[..|ranges| - 1];
      PeerRangesEffectProps(peerAddr, init, env, accepts);
      ThenSound(PeerRangesEffect(peerAddr, init, env, accepts), PeerRangeEffect(peerAddr, ranges[|ranges| - 1], env, accepts), accepts);
    }
  }

  // ----- gateway routes of an egress gateway -----

  /** The MASQUERADE pair for one range: delete any old copy, then insert. */
  function NatEffect(info: EgressInfo, range: string, env: HostEnv, accepts: KernelCall -> bool): Effect {
    if info.natEnabled != "yes" then NoEffect
    else match env.interfaceFor(range)
      case None => NoEffect
      case Some(iface) =>
        var src := MakeRule(DefaultNatTable, NatTablePrtChain, ["-s", info.network, "-o", iface, "-j", "MASQUERADE"], false);
        var dst := MakeRule(DefaultNatTable, NatTablePrtChain, ["-d", info.network, "-o", iface, "-j", "MASQUERADE"], false);
        Then(ReplaceEffect(src, accepts), ReplaceEffect(dst, accepts))
  }

  function GatewayRangeEffect(info: EgressInfo, range: string, env: HostEnv, accepts: KernelCall -> bool): Effect {
    if !env.cidrParses(range) then NoEffect
    else Then(TryInsert(MakeRule(DefaultIpTable, IptableFwdChain, ["-i", env.interfaceName, "-d", range, "-j", NetmakerFilterChain], false), accepts),
              NatEffect(info, range, env, accepts))
  }

  function GatewayEffect(info: EgressInfo, ranges: seq<string>, env: HostEnv, accepts: KernelCall -> bool): Effect
    decreases |ranges|
  {
    if ranges == [] then NoEffect
    else Then(GatewayEffect(info, ranges[..|ranges| - 1], env, accepts),
              GatewayRangeEffect(info, ranges[|ranges| - 1], env, accepts))
  }

  lemma GatewayStep(info: EgressInfo, ranges: seq<string>, i: nat, env: HostEnv, accepts: KernelCall -> bool)
    requires i < |ranges|
    ensures GatewayEffect(info, ranges[..i + 1], env, accepts)
         == Then(GatewayEffect(info, ranges[..i], env, accepts), GatewayRangeEffect(info, ranges[i], env, accepts))
  {
    assert ranges[..i + 1][..i] == ranges[..i];
  }

  /** Gateway routes: unflagged, accepted, at most three per range, and no NAT rule unless NatEnabled is "yes". */
  lemma {:induction false} GatewayEffectProps(info: EgressInfo, ranges: seq<string>, env: HostEnv, accepts: KernelCall -> bool)
    ensures var e := GatewayEffect(info, ranges, env, accepts);
      && Sound(e, accepts) && NoneFlagged(e.recorded) && |e.recorded| <= 3 * |ranges|
      && (info.natEnabled != "yes" ==> forall i :: 0 <= i < |e.recorded| ==> e.recorded[i].table == DefaultIpTable)
    decreases |ranges|
  {
    if ranges != [] {
      var init := ranges[..|ranges| - 1];
      var range := ranges[|ranges| - 1];
      GatewayEffectProps(info, init, env, accepts);
      GatewayRangeEffectProps(info, range, env, accepts);
      var a := GatewayEffect(info, init, env, accepts);
      var b := GatewayRangeEffect(info, range, env, accepts);
      ThenSound(a, b, accepts);
      ThenFlags(a, b);
      var r := Then(a, b).recorded;
      forall i | |a.recorded| <= i < |r|
        ensures r[i] == b.recorded[i - |a.recorded|]
      {
      }
    }
  }

  /** One gateway range: unflagged, accepted, at most three rules, only the forwarding rule without NAT. */
  lemma GatewayRangeEffectProps(info: EgressInfo, range: string, env: HostEnv, accepts: KernelCall -> bool)
    ensures var e := GatewayRangeEffect(info, range, env, accepts);
      && Sound(e, accepts) && NoneFlagged(e.recorded) && |e.recorded| <= 3
      && (info.natEnabled != "yes" ==> forall i :: 0 <= i < |e.recorded| ==> e.recorded[i].table == DefaultIpTable)
  {
    if env.cidrParses(range) {
      var fwd := TryInsert(MakeRule(DefaultIpTable, IptableFwdChain, ["-i", env.interfaceName, "-d", range, "-j", NetmakerFilterChain], false), accepts);
      var masq := NatEffect(info, range, env, accepts);
      NatEffectProps(info, range, env, accepts);
      ThenSound(fwd, masq, accepts);
      ThenFlags(fwd, masq);
    }
  }

  /** The MASQUERADE pair: unflagged, accepted, at most two rules, none without NAT. */
  lemma NatEffectProps(info: EgressInfo, range: string, env: HostEnv, accepts: KernelCall -> bool)
    ensures var e := NatEffect(info, range, env, accepts);
      Sound(e, accepts) && NoneFlagged(e.recorded) && |e.recorded| <= 2 && (info.natEnabled != "yes" ==> e == NoEffect)
  {
    if info.natEnabled == "yes" && env.interfaceFor(range).Some? {
      var iface := env.interfaceFor(range).value;
      var src := MakeRule(DefaultNatTable, NatTablePrtChain, ["-s", info.network, "-o", iface, "-j", "MASQUERADE"], false);
      var dst := MakeRule(DefaultNatTable, NatTablePrtChain, ["-d", info.network, "-o", iface, "-j", "MASQUERADE"], false);
      var a := ReplaceEffect(src, accepts);
      var b := ReplaceEffect(dst, accepts);
      ReplaceEffectProps(src, accepts);
      ReplaceEffectProps(dst, accepts);
      ThenSound(a, b, accepts);
      ThenFlags(a, b);
    }
  }

  /** Replacing one rule records at most that rule, and only once the kernel accepted its insertion. */
  lemma ReplaceEffectProps(r: Rule, accepts: KernelCall -> bool)
    ensures var e := ReplaceEffect(r, accepts);
      Sound(e, accepts) && |e.recorded| <= 1 && (forall i :: 0 <= i < |e.recorded| ==> e.recorded[i] == r)
  {
    ThenSound(Effect([], [DeleteCallFor(r)]), TryInsert(r, accepts), accepts);
  }

  // ----- per-peer entries of a gateway's rulesMap -----

  /** A rulesMap being filled in, and the requests issued so far. */
  datatype MapEffect = MapEffect(rulesMap: map<string, seq<Rule>>, calls: seq<KernelCall>)

  /** The gateway peer loop: disallowed peers are skipped, an allowed peer's entry is (re)built from the ranges. */
  function EgressPeersEffect(start: map<string, seq<Rule>>, peers: seq<PeerRouteInfo>, ranges: seq<string>, env: HostEnv, accepts: KernelCall -> bool): MapEffect
    decreases |peers|
  {
    if peers == [] then MapEffect(start, [])
    else
      var prev := EgressPeersEffect(start, peers[..|peers| - 1], ranges, env, accepts);
      var peer := peers[|peers| - 1];
      if !peer.allow then prev
      else
        var e := PeerRangesEffect(peer.peerAddr, ranges, env, accepts);
        MapEffect(prev.rulesMap[peer.peerKey := e.recorded], prev.calls + e.calls)
  }

  lemma EgressPeersStep(start: map<string, seq<Rule>>, peers: seq<PeerRouteInfo>, i: nat, ranges: seq<string>, env: HostEnv, accepts: KernelCall -> bool)
    requires i < |peers|
    ensures var prev := EgressPeersEffect(start, peers[..i], ranges, env, accepts);
      var e := PeerRangesEffect(peers[i].peerAddr, ranges, env, accepts);
      EgressPeersEffect(start, peers[..i + 1], ranges, env, accepts)
        == if !peers[i].allow then prev else MapEffect(prev.rulesMap[peers[i].peerKey := e.recorded], prev.calls + e.calls)
  {
    assert peers[..i + 1][..i] == peers[..i];
  }

  /** An entry of the gateway peer loop's result is an old entry or belongs to an allowed peer. */
  lemma {:induction false} EgressPeersEffectKeys(start: map<string, seq<Rule>>, peers: seq<PeerRouteInfo>, ranges: seq<string>, env: HostEnv, accepts: KernelCall -> bool)
    ensures var m := EgressPeersEffect(start, peers, ranges, env, accepts);
      forall k :: k in m.rulesMap ==> k in start || exists i :: 0 <= i < |peers| && peers[i].allow && peers[i].peerKey == k
    decreases |peers|
  {
    if peers != [] {
      var init := peers[..|peers| - 1];
      var peer := peers[|peers| - 1];
      EgressPeersEffectKeys(start, init, ranges, env, accepts);
      var m := EgressPeersEffect(start, peers, ranges, env, accepts);
      var prev := EgressPeersEffect(start, init, ranges, env, accepts);
      forall k | k in m.rulesMap && k !in start
        ensures exists i :: 0 <= i < |peers| && peers[i].allow && peers[i].peerKey == k
      {
        if !(peer.allow && k == peer.peerKey) {
          assert k in prev.rulesMap;
          var i :| 0 <= i < |init| && init[i].allow && init[i].peerKey == k;
          assert peers[i] == init[i];
        }
      }
    }
  }

  /**
   * Every allowed peer has an entry holding the rules built for an allowed
   * peer with that key (the last one, when keys repeat).
   */
  lemma {:induction false} EgressPeersEffectEntry(start: map<string, seq<Rule>>, peers: seq<PeerRouteInfo>, ranges: seq<string>, env: HostEnv, accepts: KernelCall -> bool, i: nat)
    requires i < |peers| && peers[i].allow
    ensures var m := EgressPeersEffect(start, peers, ranges, env, accepts);
      && peers[i].peerKey in m.rulesMap
      && exists j :: 0 <= j < |peers| && peers[j].allow && peers[j].peerKey == peers[i].peerKey
           && m.rulesMap[peers[i].peerKey] == PeerRangesEffect(peers[j].peerAddr, ranges, env, accepts).recorded
    decreases |peers|
  {
    var init := peers[..|peers| - 1];
    var peer := peers[|peers| - 1];
    var m := EgressPeersEffect(start, peers, ranges, env, accepts);
    if peer.allow && peers[i].peerKey == peer.peerKey {
      assert m.rulesMap[peer.peerKey] == PeerRangesEffect(peer.peerAddr, ranges, env, accepts).recorded;
    } else {
      assert i < |init| && peers[i] == init[i];
      EgressPeersEffectEntry(start, init, ranges, env, accepts, i);
      var prev := EgressPeersEffect(start, init, ranges, env, accepts);
      var j :| 0 <= j < |init| && init[j].allow && init[j].peerKey == init[i].peerKey
          && prev.rulesMap[init[i].peerKey] == PeerRangesEffect(init[j].peerAddr, ranges, env, accepts).recorded;
      assert peers[j] == init[j];
      assert m.rulesMap[peers[i].peerKey] == prev.rulesMap[init[i].peerKey];
    }
  }

  /** An old entry whose key no allowed peer carries survives the gateway peer loop untouched. */
  lemma {:induction false} EgressPeersEffectKeepsOthers(start: map<string, seq<Rule>>, peers: seq<PeerRouteInfo>, ranges: seq<string>, env: HostEnv, accepts: KernelCall -> bool, k: string)
    requires k in start
    requires forall i :: 0 <= i < |peers| ==> !(peers[i].allow && peers[i].peerKey == k)
    ensures var m := EgressPeersEffect(start, peers, ranges, env, accepts);
      k in m.rulesMap && m.rulesMap[k] == start[k]
    decreases |peers|
  {
    if peers != [] {
      var init := peers[..|peers| - 1];
      assert forall i :: 0 <= i < |init| ==> !(init[i].allow && init[i].peerKey == k) by {
        forall i | 0 <= i < |init| ensures !(init[i].allow && init[i].peerKey == k) {
          assert peers[i] == init[i];
        }
      }
      EgressPeersEffectKeepsOthers(start, init, ranges, env, accepts, k);
    }
  }

  /**
   * The egress gateway's rulesCfg after InsertEgressRoutingRules: a fresh
   * config whose entry for the gateway itself holds the gateway routes and
   * whose other entries come from the peer loop.
   */
  function EgressCfgEffect(info: EgressInfo, env: HostEnv, accepts: KernelCall -> bool): (RulesCfg, seq<KernelCall>) {
    var gw := GatewayEffect(info, info.ranges, env, accepts);
    var peers := EgressPeersEffect(map[], info.gwPeers, info.ranges, env, accepts);
    (RulesCfg(env.isAddrIpv4(info.egressGwAddr), peers.rulesMap[info.egressID := gw.recorded]), gw.calls + peers.calls)
  }

  // ----- per-peer entries of an external client's rulesMap -----

  /** The ingress peer loop: allowed peers other than the client get one accept rule, when the kernel takes it. */
  function IngressPeersEffect(start: map<string, seq<Rule>>, extKey: string, extAddr: string, peers: seq<PeerRouteInfo>, accepts: KernelCall -> bool): MapEffect
    decreases |peers|
  {
    if peers == [] then MapEffect(start, [])
    else
      var prev := IngressPeersEffect(start, extKey, extAddr, peers[..|peers| - 1], accepts);
      var peer := peers[|peers| - 1];
      if !peer.allow || peer.peerKey == extKey then prev
      else
        var r := MakeRule(DefaultIpTable, NetmakerFilterChain, ["-s", extAddr, "-d", peer.peerAddr, "-j", "ACCEPT"], false);
        if !accepts(InsertRuleCall(r.nfRule)) then MapEffect(prev.rulesMap, prev.calls + [InsertRuleCall(r.nfRule)])
        else MapEffect(prev.rulesMap[peer.peerKey := [r]], prev.calls + [InsertRuleCall(r.nfRule)])
  }

  lemma IngressPeersStep(start: map<string, seq<Rule>>, extKey: string, extAddr: string, peers: seq<PeerRouteInfo>, i: nat, accepts: KernelCall -> bool)
    requires i < |peers|
    ensures var prev := IngressPeersEffect(start, extKey, extAddr, peers[..i], accepts);
      var r := MakeRule(DefaultIpTable, NetmakerFilterChain, ["-s", extAddr, "-d", peers[i].peerAddr, "-j", "ACCEPT"], false);
      IngressPeersEffect(start, extKey, extAddr, peers[..i + 1], accepts)
        == if !peers[i].allow || peers[i].peerKey == extKey then prev
           else if !accepts(InsertRuleCall(r.nfRule)) then MapEffect(prev.rulesMap, prev.calls + [InsertRuleCall(r.nfRule)])
           else MapEffect(prev.rulesMap[peers[i].peerKey := [r]], prev.calls + [InsertRuleCall(r.nfRule)])
  {
    assert peers[..i + 1][..i] == peers[..i];
  }

  /** The ingress peer loop never touches the client's own entry and adds entries only for allowed peers. */
  lemma {:induction false} IngressPeersEffectProps(start: map<string, seq<Rule>>, extKey: string, extAddr: string, peers: seq<PeerRouteInfo>, accepts: KernelCall -> bool)
    ensures var m := IngressPeersEffect(start, extKey, extAddr, peers, accepts);
      && (extKey in start ==> extKey in m.rulesMap && m.rulesMap[extKey] == start[extKey])
      && (extKey !in start ==> extKey !in m.rulesMap)
      && (forall k :: k in m.rulesMap ==> k in start || exists i :: 0 <= i < |peers| && peers[i].allow && peers[i].peerKey == k)
    decreases |peers|
  {
    if peers != [] {
      var init := peers[..|peers| - 1];
      IngressPeersEffectProps(start, extKey, extAddr, init, accepts);
      var m := IngressPeersEffect(start, extKey, extAddr, peers, accepts);
      var prev := IngressPeersEffect(start, extKey, extAddr, init, accepts);
      forall k | k in m.rulesMap
        ensures k in start || exists i :: 0 <= i < |peers| && peers[i].allow && peers[i].peerKey == k
      {
        if k !in start && k !in prev.rulesMap {
          assert peers[|peers| - 1].peerKey == k;
        } else if k !in start {
          var i :| 0 <= i < |init| && init[i].allow && init[i].peerKey == k;
          assert peers[i] == init[i];
        }
      }
    }
  }

  // ----- stripping flagged rules -----

  /** The rules of a list without the egressExtRule-flagged ones, in order. */
  function Unflagged(rules: seq<Rule>): (kept: seq<Rule>)
    decreases |rules|
  {
    if rules == [] then []
    else Unflagged(rules[..|rules| - 1]) + (if rules[|rules| - 1].egressExtRule then [] else [rules[|rules| - 1]])
  }

  /** The egressExtRule-flagged rules of a list, in order. */
  function Flagged(rules: seq<Rule>): seq<Rule>
    decreases |rules|
  {
    if rules == [] then []
    else Flagged(rules[..|rules| - 1]) + (if rules[|rules| - 1].egressExtRule then [rules[|rules| - 1]] else [])
  }

  lemma SplitStep(rules: seq<Rule>, i: nat)
    requires i < |rules|
    ensures Flagged(rules[..i + 1]) == Flagged(rules[..i]) + (if rules[i].egressExtRule then [rules[i]] else [])
    ensures Unflagged(rules[..i + 1]) == Unflagged(rules[..i]) + (if rules[i].egressExtRule then [] else [rules[i]])
  {
    assert rules[..i + 1][..i] == rules[..i];
  }

  /** Stripping removes exactly the flagged rules: none is left, and the two parts add up to the list. */
  lemma {:induction false} UnflaggedProps(rules: seq<Rule>)
    ensures NoneFlagged(Unflagged(rules))
    ensures |Unflagged(rules)| + |Flagged(rules)| == |rules|
    decreases |rules|
  {
    if rules != [] {
      UnflaggedProps(rules[..|rules| - 1]);
    }
  }

  /** A list without flagged rules is left as it is. */
  lemma {:induction false} UnflaggedOfNoneFlagged(rules: seq<Rule>)
    requires NoneFlagged(rules)
    ensures Unflagged(rules) == rules
    decreases |rules|
  {
    if rules != [] {
      var init := rules[..|rules| - 1];
      assert NoneFlagged(init) by {
        forall i | 0 <= i < |init| ensures !init[i].egressExtRule {
          assert init[i] == rules[i];
        }
      }
      UnflaggedOfNoneFlagged(init);
      assert init + [rules[|rules| - 1]] == rules;
    }
  }

  lemma {:induction false} FlaggedOfNoneFlagged(rules: seq<Rule>)
    requires NoneFlagged(rules)
    ensures Flagged(rules) == []
    decreases |rules|
  {
    if rules != [] {
      FlaggedOfNoneFlagged(rules[..|rules| - 1]);
    }
  }

  lemma {:induction false} FlaggedOfAllFlagged(rules: seq<Rule>)
    requires AllFlagged(rules)
    ensures Flagged(rules) == rules
    decreases |rules|
  {
    if rules != [] {
      FlaggedOfAllFlagged(rules[..|rules| - 1]);
      assert rules[..|rules| - 1] + [rules[|rules| - 1]] == rules;
    }
  }

  lemma {:induction false} FlaggedAppend(a: seq<Rule>, b: seq<Rule>)
    ensures Flagged(a + b) == Flagged(a) + Flagged(b)
    decreases |b|
  {
    if b == [] {
      assert a + b == a;
    } else {
      FlaggedAppend(a, b[..|b| - 1]);
      InitOfAppend(a, b);
    }
  }

  /**
   * Strip then re-add leaves, as the flagged part of a client's list,
   * exactly the rules added for the new ranges.
   */
  lemma RebuiltFlaggedRules(rules: seq<Rule>, added: seq<Rule>)
    requires AllFlagged(added)
    ensures Flagged(Unflagged(rules) + added) == added
  {
    FlaggedAppend(Unflagged(rules), added);
    UnflaggedProps(rules);
    FlaggedOfNoneFlagged(Unflagged(rules));
    FlaggedOfAllFlagged(added);
  }

  /** The client's config with its own list stripped, when it has one. */
  function StripCfg(extKey: string, cfg: RulesCfg): RulesCfg {
    if extKey in cfg.rulesMap then cfg.(rulesMap := cfg.rulesMap[extKey := Unflagged(cfg.rulesMap[extKey])]) else cfg
  }

  /** The flagged rules of the client's own list: the ones the stripping phase deletes. */
  function FlaggedOwn(extKey: string, cfg: RulesCfg): seq<Rule> {
    if extKey in cfg.rulesMap then Flagged(cfg.rulesMap[extKey]) else []
  }

  /** The client's config with the egress-range rules for `ranges` appended to its own list. */
  function ReAddCfg(extKey: string, cfg: RulesCfg, extAddr: string, ranges: seq<string>, env: HostEnv, accepts: KernelCall -> bool): RulesCfg {
    cfg.(rulesMap := cfg.rulesMap[extKey := MapGet(cfg.rulesMap, extKey, []) + EgressRangesEffect(extAddr, ranges, env, accepts).recorded])
  }

  // ----- deleting recorded rules in order -----

  /** Delete requests for a list of rules up to and including the first the kernel refuses. */
  function DeleteAttempts(rules: seq<Rule>, accepts: KernelCall -> bool): seq<KernelCall>
    decreases |rules|
  {
    if rules == [] then []
    else if !accepts(DeleteCallFor(rules[0])) then [DeleteCallFor(rules[0])]
    else [DeleteCallFor(rules[0])] + DeleteAttempts(rules[1..], accepts)
  }

  predicate AllDeletable(rules: seq<Rule>, accepts: KernelCall -> bool) {
    forall i :: 0 <= i < |rules| ==> accepts(DeleteCallFor(rules[i]))
  }

  /**
   * Deletion stops at the first refusal: when every deletion is accepted
   * each rule's request is issued once, in order; otherwise the requests
   * end with the first refused one and nothing after it is attempted.
   */
  lemma DeleteAttemptsProps(rules: seq<Rule>, accepts: KernelCall -> bool)
    ensures var calls := DeleteAttempts(rules, accepts);
      && (AllDeletable(rules, accepts) ==>
            |calls| == |rules| && forall i :: 0 <= i < |rules| ==> calls[i] == DeleteCallFor(rules[i]))
      && (!AllDeletable(rules, accepts) ==>
            && 1 <= |calls| <= |rules|
            && !accepts(calls[|calls| - 1])
            && forall i :: 0 <= i < |calls| ==> calls[i] == DeleteCallFor(rules[i]))
      && (forall i :: 0 <= i < |calls| - 1 ==> accepts(calls[i]))
  {
    if AllDeletable(rules, accepts) {
      DeleteAttemptsAll(rules, accepts);
    } else {
      var j := FirstRefusal(rules, accepts);
      PrefixStep(rules, j);
      DeleteAttemptsStopsAt(rules[..j], rules[j], rules[j + 1..], accepts);
      assert forall i :: 0 <= i < j ==> rules[..j][i] == rules[i];
    }
  }

  /** The first rule whose deletion the kernel refuses. */
  lemma {:induction false} FirstRefusal(rules: seq<Rule>, accepts: KernelCall -> bool) returns (j: nat)
    requires !AllDeletable(rules, accepts)
    ensures j < |rules| && !accepts(DeleteCallFor(rules[j])) && AllDeletable(rules[..j], accepts)
    decreases |rules|
  {
    if !accepts(DeleteCallFor(rules[0])) {
      return 0;
    }
    AllDeletableTail(rules, accepts);
    var k := FirstRefusal(rules[1..], accepts);
    j := k + 1;
    forall i | 0 <= i < j
      ensures accepts(DeleteCallFor(rules[..j][i]))
    {
      if i > 0 {
        assert rules[..j][i] == rules[1..][..k][i - 1];
      }
    }
  }

  lemma AllDeletableTail(rules: seq<Rule>, accepts: KernelCall -> bool)
    requires rules != []
    ensures AllDeletable(rules, accepts) <==> accepts(DeleteCallFor(rules[0])) && AllDeletable(rules[1..], accepts)
  {
    if accepts(DeleteCallFor(rules[0])) && AllDeletable(rules[1..], accepts) {
      forall i | 0 < i < |rules|
        ensures accepts(DeleteCallFor(rules[i]))
      {
        assert rules[i] == rules[1..][i - 1];
      }
    }
  }

  /** Delete requests for every rule of a list, in order. */
  function DeleteCalls(rules: seq<Rule>): (calls: seq<KernelCall>)
    ensures |calls| == |rules|
  {
    seq(|rules|, i requires 0 <= i < |rules| => DeleteCallFor(rules[i]))
  }

  /** When every deletion is accepted, all of them are attempted. */
  lemma {:induction false} DeleteAttemptsAll(rules: seq<Rule>, accepts: KernelCall -> bool)
    requires AllDeletable(rules, accepts)
    ensures DeleteAttempts(rules, accepts) == DeleteCalls(rules)
    decreases |rules|
  {
    if rules != [] {
      assert AllDeletable(rules[1..], accepts) by {
        forall i | 0 <= i < |rules| - 1 ensures accepts(DeleteCallFor(rules[1..][i])) {
          assert rules[1..][i] == rules[i + 1];
        }
      }
      DeleteAttemptsAll(rules[1..], accepts);
      assert DeleteCalls(rules) == [DeleteCallFor(rules[0])] + DeleteCalls(rules[1..]);
    }
  }

  /** Deletion stops at a refused rule preceded only by accepted ones. */
  lemma DeleteCallsAppend(rules: seq<Rule>, r: Rule)
    ensures DeleteCalls(rules + [r]) == DeleteCalls(rules) + [DeleteCallFor(r)]
  {
  }

  lemma PrefixStep(rules: seq<Rule>, i: nat)
    requires i < |rules|
    ensures rules[..i + 1] == rules[..i] + [rules[i]]
    ensures rules[..i] + [rules[i]] + rules[i + 1..] == rules
  {
  }

  lemma AllDeletableAppend(rules: seq<Rule>, r: Rule, accepts: KernelCall -> bool)
    requires AllDeletable(rules, accepts) && accepts(DeleteCallFor(r))
    ensures AllDeletable(rules + [r], accepts)
  {
  }

  lemma Rejoin(rules: seq<Rule>, i: nat)
    requires i <= |rules|
    ensures rules[..i] + rules[i..] == rules
  {
  }

  /**
   * A stripping that meets the refused flagged rule rules[i]: the requests
   * are the deletions of the flagged rules before it, then its own.
   */
  lemma FlaggedStopsAt(rules: seq<Rule>, i: nat, accepts: KernelCall -> bool)
    requires i < |rules| && rules[i].egressExtRule
    requires AllDeletable(Flagged(rules[..i]), accepts) && !accepts(DeleteCallFor(rules[i]))
    ensures DeleteAttempts(Flagged(rules), accepts) == DeleteCalls(Flagged(rules[..i])) + [DeleteCallFor(rules[i])]
    ensures rules[i] in Flagged(rules) && !AllDeletable(Flagged(rules), accepts)
  {
    var pre := Flagged(rules[..i]);
    var post := Flagged(rules[i + 1..]);
    SplitStep(rules, i);
    FlaggedAppend(rules[..i + 1], rules[i + 1..]);
    Rejoin(rules, i + 1);
    assert Flagged(rules) == pre + [rules[i]] + post;
    DeleteAttemptsStopsAt(pre, rules[i], post, accepts);
    assert Flagged(rules)[|pre|] == rules[i];
  }

  lemma {:induction false} DeleteAttemptsStopsAt(before: seq<Rule>, r: Rule, after: seq<Rule>, accepts: KernelCall -> bool)
    requires AllDeletable(before, accepts) && !accepts(DeleteCallFor(r))
    ensures DeleteAttempts(before + [r] + after, accepts) == DeleteCalls(before) + [DeleteCallFor(r)]
    decreases |before|
  {
    if before == [] {
      assert before + [r] + after == [r] + after;
    } else {
      assert (before + [r] + after)[1..] == before[1..] + [r] + after;
      assert AllDeletable(before[1..], accepts) by {
        forall i | 0 <= i < |before| - 1 ensures accepts(DeleteCallFor(before[1..][i])) {
          assert before[1..][i] == before[i + 1];
        }
      }
      DeleteAttemptsStopsAt(before[1..], r, after, accepts);
      assert DeleteCalls(before) == [DeleteCallFor(before[0])] + DeleteCalls(before[1..]);
    }
  }

  /** The requests of a log segment, as a set. */
  function CallSet(calls: seq<KernelCall>): set<KernelCall> {
    set c | c in calls
  }

  /** Delete requests for every rule recorded under the given peer keys of a table. */
  function DeleteCallsUnder(t: RuleTable, keys: set<string>): set<KernelCall> {
    set k, d, r | k in keys && k in t && d in t[k].rulesMap && r in t[k].rulesMap[d] :: DeleteCallFor(r)
  }

  /** Every recorded rule of a peer can be deleted. */
  predicate CfgDeletable(cfg: RulesCfg, accepts: KernelCall -> bool) {
    forall d, r :: d in cfg.rulesMap && r in cfg.rulesMap[d] ==> accepts(DeleteCallFor(r))
  }

  /** The stripping phase's result when no deletion is refused. */
  function StrippedTable(t: RuleTable): (s: RuleTable)
    ensures s.Keys == t.Keys
  {
    map k | k in t :: StripCfg(k, t[k])
  }

  /** Delete requests for the flagged rules of each client's own list. */
  function FlaggedDeleteCalls(t: RuleTable, keys: set<string>): set<KernelCall> {
    set k, r | k in keys && k in t && r in FlaggedOwn(k, t[k]) :: DeleteCallFor(r)
  }

  /** The re-adding phase's result: clients present in both the table and the update get rules for the ranges. */
  function ReAddedTable(t: RuleTable, update: IngressInfo, env: HostEnv, accepts: KernelCall -> bool): (s: RuleTable)
    ensures s.Keys == t.Keys
  {
    map k | k in t :: if k in update.extPeers then ReAddCfg(k, t[k], update.extPeers[k].extPeerAddr, update.egressRanges, env, accepts) else t[k]
  }

  /** Requests the re-adding phase issues for the given clients. */
  function ReAddCallsUnder(t: RuleTable, update: IngressInfo, keys: set<string>, env: HostEnv, accepts: KernelCall -> bool): set<KernelCall> {
    set k, c | k in keys && k in t && k in update.extPeers
      && c in EgressRangesEffect(update.extPeers[k].extPeerAddr, update.egressRanges, env, accepts).calls :: c
  }

  /** Stripping one more client adds the deletions of its flagged rules. */
  lemma FlaggedDeleteCallsStep(t: RuleTable, done: set<string>, k: string)
    requires k in t
    ensures FlaggedDeleteCalls(t, done + {k}) == FlaggedDeleteCalls(t, done) + set r | r in FlaggedOwn(k, t[k]) :: DeleteCallFor(r)
  {
    forall c | c in FlaggedDeleteCalls(t, done + {k})
      ensures c in FlaggedDeleteCalls(t, done) + set r | r in FlaggedOwn(k, t[k]) :: DeleteCallFor(r)
    {
      var j, r :| j in done + {k} && j in t && r in FlaggedOwn(j, t[j]) && c == DeleteCallFor(r);
      if j != k {
        assert c in FlaggedDeleteCalls(t, done);
      }
    }
  }

  /** Part way through the stripping phase: the clients in `done` are stripped, all their deletions accepted; the rest are untouched. */
  predicate StrippedUpTo(t0: RuleTable, t: RuleTable, done: set<string>, accepts: KernelCall -> bool) {
    && done <= t0.Keys && t.Keys == t0.Keys
    && (forall k :: k in t0 && k !in done ==> t[k] == t0[k])
    && (forall k :: k in done ==> t[k] == StripCfg(k, t0[k]) && AllDeletable(FlaggedOwn(k, t0[k]), accepts))
  }

  /** Stripping one more client whose deletions are all accepted. */
  lemma StrippedUpToStep(t0: RuleTable, t: RuleTable, done: set<string>, k: string, accepts: KernelCall -> bool)
    requires StrippedUpTo(t0, t, done, accepts) && k in t0 && k !in done
    requires AllDeletable(FlaggedOwn(k, t0[k]), accepts)
    ensures StrippedUpTo(t0, t[k := StripCfg(k, t0[k])], done + {k}, accepts)
  {
  }

  /** Once every client is stripped, the table is the stripped table. */
  lemma StrippedUpToAll(t0: RuleTable, t: RuleTable, accepts: KernelCall -> bool)
    requires StrippedUpTo(t0, t, t0.Keys, accepts)
    ensures t == StrippedTable(t0)
  {
    var expected := StrippedTable(t0);
    forall k | k in t0
      ensures t[k] == expected[k]
    {
    }
    assert t.Keys == expected.Keys;
  }

  /** Deletions for some of the clients, and for one more, are among those for all of them. */
  lemma FlaggedDeleteCallsWithin(t: RuleTable, done: set<string>, k: string)
    requires done <= t.Keys && k in t
    ensures FlaggedDeleteCalls(t, done) + (set r | r in FlaggedOwn(k, t[k]) :: DeleteCallFor(r)) <= FlaggedDeleteCalls(t, t.Keys)
  {
    FlaggedDeleteCallsStep(t, done, k);
    assert done + {k} <= t.Keys;
  }

  /** Part way through the re-adding phase: the update's clients in `done` have their rules re-added; the rest are untouched. */
  predicate ReAddedUpTo(t0: RuleTable, t: RuleTable, update: IngressInfo, done: set<string>, env: HostEnv, accepts: KernelCall -> bool) {
    && done <= update.extPeers.Keys && t.Keys == t0.Keys
    && forall k :: k in t0 ==>
         t[k] == if k in done then ReAddCfg(k, t0[k], update.extPeers[k].extPeerAddr, update.egressRanges, env, accepts) else t0[k]
  }

  /** Re-adding for one more client of the update. */
  lemma ReAddedUpToStep(t0: RuleTable, t: RuleTable, update: IngressInfo, done: set<string>, k: string, env: HostEnv, accepts: KernelCall -> bool)
    requires ReAddedUpTo(t0, t, update, done, env, accepts) && k in update.extPeers && k !in done
    ensures k in t ==> ReAddedUpTo(t0, t[k := ReAddCfg(k, t[k], update.extPeers[k].extPeerAddr, update.egressRanges, env, accepts)], update, done + {k}, env, accepts)
    ensures k !in t ==> ReAddedUpTo(t0, t, update, done + {k}, env, accepts)
  {
  }

  /** Once every client of the update is handled, the table is the re-added table. */
  lemma ReAddedUpToAll(t0: RuleTable, t: RuleTable, update: IngressInfo, env: HostEnv, accepts: KernelCall -> bool)
    requires ReAddedUpTo(t0, t, update, update.extPeers.Keys, env, accepts)
    ensures t == ReAddedTable(t0, update, env, accepts)
  {
    var expected := ReAddedTable(t0, update, env, accepts);
    forall k | k in t0
      ensures t[k] == expected[k]
    {
    }
    assert t.Keys == expected.Keys;
  }

  /** Re-adding for one more client adds the requests of its egress-range rules. */
  lemma ReAddCallsStep(t: RuleTable, update: IngressInfo, done: set<string>, k: string, env: HostEnv, accepts: KernelCall -> bool)
    requires k in update.extPeers
    ensures ReAddCallsUnder(t, update, done + {k}, env, accepts)
         == ReAddCallsUnder(t, update, done, env, accepts)
          + (if k in t then CallSet(EgressRangesEffect(update.extPeers[k].extPeerAddr, update.egressRanges, env, accepts).calls) else {})
  {
    var extra := if k in t then CallSet(EgressRangesEffect(update.extPeers[k].extPeerAddr, update.egressRanges, env, accepts).calls) else {};
    forall c | c in ReAddCallsUnder(t, update, done + {k}, env, accepts)
      ensures c in ReAddCallsUnder(t, update, done, env, accepts) + extra
    {
      var j :| j in done + {k} && j in t && j in update.extPeers
        && c in EgressRangesEffect(update.extPeers[j].extPeerAddr, update.egressRanges, env, accepts).calls;
      if j != k {
        assert c in ReAddCallsUnder(t, update, done, env, accepts);
      }
    }
  }

  /**
   * A refresh that strips and re-adds leaves, for every client present in
   * both the table and the update, flagged rules exactly for the new
   * ranges; a client missing from the update keeps no flagged rule in its
   * own list; the unflagged rules are kept as they were.
   */
  lemma RefreshRebuildsFlaggedRules(t: RuleTable, update: IngressInfo, env: HostEnv, accepts: KernelCall -> bool, k: string)
    requires k in t
    ensures var s := ReAddedTable(StrippedTable(t), update, env, accepts);
      && (k in update.extPeers ==>
            k in s[k].rulesMap
            && Flagged(s[k].rulesMap[k]) == EgressRangesEffect(update.extPeers[k].extPeerAddr, update.egressRanges, env, accepts).recorded
            && Unflagged(s[k].rulesMap[k]) == Unflagged(MapGet(t[k].rulesMap, k, [])))
      && (k !in update.extPeers && k in t[k].rulesMap ==> k in s[k].rulesMap && Flagged(s[k].rulesMap[k]) == [])
  {
    var added := EgressRangesEffect(if k in update.extPeers then update.extPeers[k].extPeerAddr else "", update.egressRanges, env, accepts).recorded;
    EgressRangesEffectProps(if k in update.extPeers then update.extPeers[k].extPeerAddr else "", update.egressRanges, env, accepts);
    var own := MapGet(t[k].rulesMap, k, []);
    UnflaggedProps(own);
    FlaggedOfNoneFlagged(Unflagged(own));
    if k in update.extPeers {
      RebuiltFlaggedRules(own, added);
      assert MapGet(StrippedTable(t)[k].rulesMap, k, []) == Unflagged(own);
      UnflaggedAppend(Unflagged(own), added);
      UnflaggedOfNoneFlagged(Unflagged(own));
      UnflaggedOfAllFlagged(added);
    }
  }

  /** Dropping the last element of a + b, for a non-empty b, drops it from b. */
  lemma InitOfAppend(a: seq<Rule>, b: seq<Rule>)
    requires b != []
    ensures (a + b)[..|a + b| - 1] == a + b[..|b| - 1]
    ensures (a + b)[|a + b| - 1] == b[|b| - 1]
  {
  }

  lemma {:induction false} UnflaggedAppend(a: seq<Rule>, b: seq<Rule>)
    ensures Unflagged(a + b) == Unflagged(a) + Unflagged(b)
    decreases |b|
  {
    if b == [] {
      assert a + b == a;
    } else {
      UnflaggedAppend(a, b[..|b| - 1]);
      InitOfAppend(a, b);
    }
  }

  lemma {:induction false} UnflaggedOfAllFlagged(rules: seq<Rule>)
    requires AllFlagged(rules)
    ensures Unflagged(rules) == []
    decreases |rules|
  {
    if rules != [] {
      UnflaggedOfAllFlagged(rules[..|rules| - 1]);
    }
  }

  // ----- an external client's rulesCfg -----

  /** The FORWARD jump rule for an external client (also appended to the jump rules). */
  function IngressFwdRule(extinfo: ExtClientInfo): Rule {
    MakeRule(DefaultIpTable, IptableFwdChain, ["-s", extinfo.extPeerAddr, "!", "-d", extinfo.ingGwAddr, "-j", NetmakerFilterChain], false)
  }

  /** The rule accepting traffic from the network to the external client. */
  function IngressAcceptRule(extinfo: ExtClientInfo): Rule {
    MakeRule(DefaultIpTable, NetmakerFilterChain, ["-s", extinfo.network, "-d", extinfo.extPeerAddr, "-j", "ACCEPT"], false)
  }

  /** The MASQUERADE pair for an external client, when masquerading is on. */
  function MasqueradeEffect(extinfo: ExtClientInfo, env: HostEnv, accepts: KernelCall -> bool): Effect {
    if !extinfo.masquerade then NoEffect
    else Then(TryInsert(MakeRule(DefaultNatTable, NetmakerNatChain, ["-s", extinfo.extPeerAddr, "-o", env.interfaceName, "-j", "MASQUERADE"], false), accepts),
              TryInsert(MakeRule(DefaultNatTable, NetmakerNatChain, ["-d", extinfo.extPeerAddr, "-o", env.interfaceName, "-j", "MASQUERADE"], false), accepts))
  }

  lemma MasqueradeUnflagged(extinfo: ExtClientInfo, env: HostEnv, accepts: KernelCall -> bool)
    ensures NoneFlagged(MasqueradeEffect(extinfo, env, accepts).recorded)
  {
    if extinfo.masquerade {
      var src := MakeRule(DefaultNatTable, NetmakerNatChain, ["-s", extinfo.extPeerAddr, "-o", env.interfaceName, "-j", "MASQUERADE"], false);
      var dst := MakeRule(DefaultNatTable, NetmakerNatChain, ["-d", extinfo.extPeerAddr, "-o", env.interfaceName, "-j", "MASQUERADE"], false);
      assert MasqueradeEffect(extinfo, env, accepts).recorded == TryInsert(src, accepts).recorded + TryInsert(dst, accepts).recorded;
    }
  }

  /**
   * The external client's rulesCfg after InsertIngressRoutingRules, and the
   * requests issued: the jump and accept rules (recorded whatever the
   * kernel answers), then the peer loop, the egress ranges and the
   * MASQUERADE pair.
   */
  function IngressCfgEffect(extinfo: ExtClientInfo, egressRanges: seq<string>, isIpv4: bool, env: HostEnv, accepts: KernelCall -> bool): (RulesCfg, seq<KernelCall>) {
    var ext := extinfo.extPeerKey;
    var fwd := IngressFwdRule(extinfo);
    var acc := IngressAcceptRule(extinfo);
    var peers := IngressPeersEffect(map[ext := [fwd, acc]], ext, extinfo.extPeerAddr, extinfo.peers, accepts);
    var ranges := EgressRangesEffect(extinfo.extPeerAddr, egressRanges, env, accepts);
    var masq := MasqueradeEffect(extinfo, env, accepts);
    (RulesCfg(isIpv4, peers.rulesMap[ext := [fwd, acc] + ranges.recorded + masq.recorded]),
     [InsertRuleCall(fwd.nfRule), InsertRuleCall(acc.nfRule)] + peers.calls + ranges.calls + masq.calls)
  }

  /**
   * An external client's own list starts with its jump and accept rules;
   * its flagged rules are exactly those for the egress ranges; without
   * masquerading nothing else is in it.
   */
  lemma IngressOwnList(extinfo: ExtClientInfo, egressRanges: seq<string>, isIpv4: bool, env: HostEnv, accepts: KernelCall -> bool)
    ensures var cfg := IngressCfgEffect(extinfo, egressRanges, isIpv4, env, accepts).0;
      var ext := extinfo.extPeerKey;
      var ranges := EgressRangesEffect(extinfo.extPeerAddr, egressRanges, env, accepts).recorded;
      && ext in cfg.rulesMap
      && cfg.rulesMap[ext][..2] == [IngressFwdRule(extinfo), IngressAcceptRule(extinfo)]
      && Flagged(cfg.rulesMap[ext]) == ranges
      && (!extinfo.masquerade ==> cfg.rulesMap[ext] == [IngressFwdRule(extinfo), IngressAcceptRule(extinfo)] + ranges)
  {
    var fwd := IngressFwdRule(extinfo);
    var acc := IngressAcceptRule(extinfo);
    var ranges := EgressRangesEffect(extinfo.extPeerAddr, egressRanges, env, accepts).recorded;
    var masq := MasqueradeEffect(extinfo, env, accepts).recorded;
    assert IngressCfgEffect(extinfo, egressRanges, isIpv4, env, accepts).0.rulesMap[extinfo.extPeerKey] == [fwd, acc] + ranges + masq;
    EgressRangesEffectProps(extinfo.extPeerAddr, egressRanges, env, accepts);
    MasqueradeUnflagged(extinfo, env, accepts);
    OwnListParts(fwd, acc, ranges, masq);
  }

  /** A list of two unflagged rules, flagged rules and unflagged rules has those flagged rules, and starts with the two. */
  lemma OwnListParts(fwd: Rule, acc: Rule, ranges: seq<Rule>, masq: seq<Rule>)
    requires !fwd.egressExtRule && !acc.egressExtRule && AllFlagged(ranges) && NoneFlagged(masq)
    ensures ([fwd, acc] + ranges + masq)[..2] == [fwd, acc]
    ensures Flagged([fwd, acc] + ranges + masq) == ranges
    ensures masq == [] ==> [fwd, acc] + ranges + masq == [fwd, acc] + ranges
  {
    var head := [fwd, acc];
    assert NoneFlagged(head);
    FlaggedOfNoneFlagged(head);
    FlaggedOfNoneFlagged(masq);
    FlaggedOfAllFlagged(ranges);
    FlaggedAppend(head, ranges);
    assert Flagged(head + ranges) == ranges;
    FlaggedAppend(head + ranges, masq);
    assert Flagged(head + ranges + masq) == ranges;
    PrefixOfAppend(head, ranges, masq);
  }

  lemma PrefixOfAppend(a: seq<Rule>, b: seq<Rule>, c: seq<Rule>)
    ensures (a + b + c)[..|a|] == a
  {
    assert forall i :: 0 <= i < |a| ==> (a + b + c)[i] == a[i];
  }

  /** Every other entry of an external client's rulesCfg belongs to an allowed peer other than the client. */
  lemma IngressOtherEntries(extinfo: ExtClientInfo, egressRanges: seq<string>, isIpv4: bool, env: HostEnv, accepts: KernelCall -> bool)
    ensures var cfg := IngressCfgEffect(extinfo, egressRanges, isIpv4, env, accepts).0;
      forall k :: k in cfg.rulesMap && k != extinfo.extPeerKey ==>
        exists i :: 0 <= i < |extinfo.peers| && extinfo.peers[i].allow && extinfo.peers[i].peerKey == k
  {
    var ext := extinfo.extPeerKey;
    var start := map[ext := [IngressFwdRule(extinfo), IngressAcceptRule(extinfo)]];
    IngressPeersEffectProps(start, ext, extinfo.extPeerAddr, extinfo.peers, accepts);
    var peers := IngressPeersEffect(start, ext, extinfo.extPeerAddr, extinfo.peers, accepts);
    var cfg := IngressCfgEffect(extinfo, egressRanges, isIpv4, env, accepts).0;
    forall k | k in cfg.rulesMap && k != ext
      ensures exists i :: 0 <= i < |extinfo.peers| && extinfo.peers[i].allow && extinfo.peers[i].peerKey == k
    {
      assert k in peers.rulesMap && k !in start;
    }
  }

  /**
   * The egress gateway's rulesCfg: its own entry holds the gateway routes;
   * any other entry belongs to an allowed gateway peer and holds that
   * peer's accepted rules for the ranges; every allowed peer has one.
   */
  lemma EgressCfgProps(info: EgressInfo, env: HostEnv, accepts: KernelCall -> bool, i: nat)
    ensures var cfg := EgressCfgEffect(info, env, accepts).0;
      && info.egressID in cfg.rulesMap
      && cfg.rulesMap[info.egressID] == GatewayEffect(info, info.ranges, env, accepts).recorded
      && cfg.isIpv4 == env.isAddrIpv4(info.egressGwAddr)
      && (forall k :: k in cfg.rulesMap && k != info.egressID ==>
            exists j :: 0 <= j < |info.gwPeers| && info.gwPeers[j].allow && info.gwPeers[j].peerKey == k)
      && (i < |info.gwPeers| && info.gwPeers[i].allow && info.gwPeers[i].peerKey != info.egressID ==>
            info.gwPeers[i].peerKey in cfg.rulesMap
            && exists j :: 0 <= j < |info.gwPeers| && info.gwPeers[j].allow && info.gwPeers[j].peerKey == info.gwPeers[i].peerKey
                 && cfg.rulesMap[info.gwPeers[i].peerKey] == PeerRangesEffect(info.gwPeers[j].peerAddr, info.ranges, env, accepts).recorded)
  {
    EgressPeersEffectKeys(map[], info.gwPeers, info.ranges, env, accepts);
    var peers := EgressPeersEffect(map[], info.gwPeers, info.ranges, env, accepts);
    var cfg := EgressCfgEffect(info, env, accepts).0;
    forall k | k in cfg.rulesMap && k != info.egressID
      ensures exists j :: 0 <= j < |info.gwPeers| && info.gwPeers[j].allow && info.gwPeers[j].peerKey == k
    {
      assert k in peers.rulesMap;
    }
    if i < |info.gwPeers| && info.gwPeers[i].allow {
      EgressPeersEffectEntry(map[], info.gwPeers, info.ranges, env, accepts, i);
    }
  }

  // ----- the refresh guard -----

  /** The guard of RefreshEgressRangesOnIngressGw as written: an empty list, or a different length. */
  predicate RangesChangedAsWritten(current: seq<string>, update: seq<string>) {
    |update| == 0 || |update| != |current|
  }

  /** The guard the refresh evidently intends: an empty list, or a different list. */
  predicate RangesChanged(current: seq<string>, update: seq<string>) {
    |update| == 0 || update != current
  }

  /** The written guard misses a change that keeps the length: one range replaced by another. */
  lemma SameLengthChangeMissed()
    ensures !RangesChangedAsWritten(["10.0.0.0/24"], ["10.1.0.0/24"])
    ensures RangesChanged(["10.0.0.0/24"], ["10.1.0.0/24"])
  {
    assert ["10.0.0.0/24"] != ["10.1.0.0/24"] by {
      assert ["10.0.0.0/24"][0][3] != ["10.1.0.0/24"][0][3];
    }
  }

  /** The intended guard skips the refresh exactly when a non-empty list is unchanged. */
  lemma RangesChangedExactly(current: seq<string>, update: seq<string>)
    ensures !RangesChanged(current, update) <==> (update == current && |update| > 0)
    ensures RangesChangedAsWritten(current, update) ==> RangesChanged(current, update)
  {
  }
}
