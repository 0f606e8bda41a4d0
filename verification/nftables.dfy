/**
 * The nftables manager of nmproxy/router/nftables_linux.go: the ingress and
 * egress rule tables of each server, and how each operation updates them
 * and what it asks of the kernel.
 *
 * Every operation that fetches a table defers SaveRules, so the table it
 * worked on is stored back on every exit, error paths and panics included;
 * the methods below call SaveRules on each of those paths.
 */
module Nftables {
  import opened Common
  import opened NftRules

  datatype NftError =
    | PeerNotFound(peerKey: string)                                  // "peer not found in rule table: "
    | RulesNotFound(dstPeerKey: string)                              // "rules not found for: "
    | RuleRemovalFailed(table: string, rule: seq<string>, peerKey: string) // a deleteRule refused
    | InvalidPrefix(addr: string)                                    // the error of netip.ParsePrefix

  /** How an operation ends: nil, an error, or a Go runtime panic (a write into a nil map). */
  datatype Outcome = Done | Failed(error: NftError) | Panicked

  /** Delete requests for every rule under the given destination keys of a rulesMap. */
  function DeleteCallsIn(rulesMap: map<string, seq<Rule>>, dsts: set<string>): set<KernelCall> {
    set d, r | d in dsts && d in rulesMap && r in rulesMap[d] :: DeleteCallFor(r)
  }

  lemma DeleteCallsInStep(rulesMap: map<string, seq<Rule>>, dsts: set<string>, d: string)
    requires d in dsts && dsts <= rulesMap.Keys
    ensures DeleteCallsIn(rulesMap, rulesMap.Keys - (dsts - {d}))
         == DeleteCallsIn(rulesMap, rulesMap.Keys - dsts) + set r | r in rulesMap[d] :: DeleteCallFor(r)
  {
  }

  lemma DeleteCallsUnderStep(t: RuleTable, keys: set<string>, k: string)
    requires k in keys && keys <= t.Keys
    ensures DeleteCallsUnder(t, t.Keys - (keys - {k}))
         == DeleteCallsUnder(t, t.Keys - keys) + DeleteCallsIn(t[k].rulesMap, t[k].rulesMap.Keys)
  {
  }

  lemma CallSetAppend(a: seq<KernelCall>, b: seq<KernelCall>)
    ensures CallSet(a + b) == CallSet(a) + CallSet(b)
  {
  }

  lemma CallSetOfDeleteCalls(rules: seq<Rule>)
    ensures CallSet(DeleteCalls(rules)) == set r | r in rules :: DeleteCallFor(r)
  {
    forall c | c in set r | r in rules :: DeleteCallFor(r)
      ensures c in CallSet(DeleteCalls(rules))
    {
      var r :| r in rules && c == DeleteCallFor(r);
      var i :| 0 <= i < |rules| && rules[i] == r;
      assert DeleteCalls(rules)[i] == c;
    }
  }

  /** The requests of a stripping that stopped at client k are among those for the whole table. */
  lemma StoppedStripCalls(t: RuleTable, done: set<string>, k: string, issued: seq<KernelCall>, accepts: KernelCall -> bool)
    requires done <= t.Keys && k in t
    requires CallSet(issued) == FlaggedDeleteCalls(t, done)
    ensures CallSet(issued + DeleteAttempts(FlaggedOwn(k, t[k]), accepts)) <= FlaggedDeleteCalls(t, t.Keys)
  {
    CallSetAppend(issued, DeleteAttempts(FlaggedOwn(k, t[k]), accepts));
    CallSetOfDeleteAttempts(FlaggedOwn(k, t[k]), accepts);
    FlaggedDeleteCallsWithin(t, done, k);
  }

  /** After stripping with an empty range list, no client keeps a flagged rule in its own list. */
  lemma StrippedConsistent(t: RuleTable)
    ensures forall k :: k in t ==> Flagged(MapGet(StrippedTable(t)[k].rulesMap, k, [])) == []
  {
    forall k | k in t
      ensures Flagged(MapGet(StrippedTable(t)[k].rulesMap, k, [])) == []
    {
      if k in t[k].rulesMap {
        UnflaggedProps(t[k].rulesMap[k]);
        FlaggedOfNoneFlagged(Unflagged(t[k].rulesMap[k]));
      }
    }
  }

  /** The requests of stripping one more client whose deletions are all accepted. */
  lemma AcceptedStripCalls(t: RuleTable, done: set<string>, k: string, issued: seq<KernelCall>, accepts: KernelCall -> bool)
    requires k in t && AllDeletable(FlaggedOwn(k, t[k]), accepts)
    requires CallSet(issued) == FlaggedDeleteCalls(t, done)
    ensures CallSet(issued + DeleteAttempts(FlaggedOwn(k, t[k]), accepts)) == FlaggedDeleteCalls(t, done + {k})
  {
    DeleteAttemptsAll(FlaggedOwn(k, t[k]), accepts);
    CallSetAppend(issued, DeleteCalls(FlaggedOwn(k, t[k])));
    CallSetOfDeleteCalls(FlaggedOwn(k, t[k]));
    FlaggedDeleteCallsStep(t, done, k);
  }

  lemma {:induction false} CallSetOfDeleteAttempts(rules: seq<Rule>, accepts: KernelCall -> bool)
    ensures CallSet(DeleteAttempts(rules, accepts)) <= set r | r in rules :: DeleteCallFor(r)
    decreases |rules|
  {
    if rules != [] && accepts(DeleteCallFor(rules[0])) {
      CallSetOfDeleteAttempts(rules[1..], accepts);
      CallSetAppend([DeleteCallFor(rules[0])], DeleteAttempts(rules[1..], accepts));
      assert forall r :: r in rules[1..] ==> r in rules;
    }
  }

  class Manager {
    const kernel: Kernel
    /** The host facts the router consults. */
    const env: HostEnv
    /** ingRules: the ingress rule table of each server. */
    var ingRules: map<string, RuleTable>
    /** engressRules: the egress rule table of each server. */
    var egressRules: map<string, RuleTable>
    /** currEgressRangesMap: the egress ranges last seen for each server. */
    var currEgressRanges: map<string, seq<string>>
    /** nfJumpRules: the jump rules removed when the chains are recreated. */
    var jumpRules: seq<Rule>

    constructor (kernel: Kernel, env: HostEnv)
      ensures this.kernel == kernel && this.env == env
      ensures ingRules == map[] && egressRules == map[] && currEgressRanges == map[] && jumpRules == []
    {
      this.kernel := kernel;
      this.env := env;
      ingRules := map[];
      egressRules := map[];
      currEgressRanges := map[];
      jumpRules := [];
    }

    /**
     * FetchRuleTable: the stored table of the server, a fresh empty table
     * for the ingress or egress name when none is stored, and nil (None)
     * for any other name.
     */
    function FetchRuleTable(server: string, tableName: string): (t: Option<RuleTable>)
      reads this
      ensures t.Some? <==> tableName == IngressTable || tableName == EgressTable
      ensures tableName == IngressTable ==> t.value == (if server in ingRules then ingRules[server] else map[])
      ensures tableName == EgressTable ==> t.value == (if server in egressRules then egressRules[server] else map[])
    {
      if tableName == IngressTable then Some(MapGet(ingRules, server, map[]))
      else if tableName == EgressTable then Some(MapGet(egressRules, server, map[]))
      else None
    }

    /** The stored tables after SaveRules(server, tableName, t). */
    twostate predicate StoredAs(server: string, tableName: string, t: RuleTable)
      reads this
    {
      if tableName == IngressTable then ingRules == old(ingRules)[server := t] && egressRules == old(egressRules)
      else if tableName == EgressTable then egressRules == old(egressRules)[server := t] && ingRules == old(ingRules)
      else ingRules == old(ingRules) && egressRules == old(egressRules)
    }

    /**
     * SaveRules: store the table under the server in the named table only;
     * fetching it back gives the saved table, every other fetch is as before.
     */
    method SaveRules(server: string, tableName: string, rules: RuleTable)
      modifies this`ingRules, this`egressRules
      ensures StoredAs(server, tableName, rules)
      ensures (tableName == IngressTable || tableName == EgressTable) ==> FetchRuleTable(server, tableName) == Some(rules)
      ensures forall s, n :: s != server || n != tableName ==> FetchRuleTable(s, n) == old(FetchRuleTable(s, n))
    {
      if tableName == IngressTable {
        ingRules := ingRules[server := rules];
      } else if tableName == EgressTable {
        egressRules := egressRules[server := rules];
      }
    }

    /**
     * DeleteRuleTable: drop the server's entry from the named table only;
     * a later fetch gives a fresh empty table.
     */
    method DeleteRuleTable(server: string, tableName: string)
      modifies this`ingRules, this`egressRules
      ensures tableName == IngressTable ==> ingRules == old(ingRules) - {server} && egressRules == old(egressRules)
      ensures tableName == EgressTable ==> egressRules == old(egressRules) - {server} && ingRules == old(ingRules)
      ensures tableName != IngressTable && tableName != EgressTable ==> ingRules == old(ingRules) && egressRules == old(egressRules)
      ensures (tableName == IngressTable || tableName == EgressTable) ==> FetchRuleTable(server, tableName) == Some(map[])
    {
      if tableName == IngressTable {
        ingRules := ingRules - {server};
      } else if tableName == EgressTable {
        egressRules := egressRules - {server};
      }
    }

    // ----- kernel helpers -----

    /** deleteRule for each rule in order, stopping at the first refusal. */
    method DeleteInOrder(rules: seq<Rule>) returns (refused: Option<Rule>)
      modifies kernel`log
      ensures kernel.log == old(kernel.log) + DeleteAttempts(rules, kernel.accepts)
      ensures refused.None? <==> AllDeletable(rules, kernel.accepts)
      ensures refused.Some? ==> refused.value in rules && !kernel.accepts(DeleteCallFor(refused.value))
    {
      for i := 0 to |rules|
        invariant AllDeletable(rules[..i], kernel.accepts)
        invariant kernel.log == old(kernel.log) + DeleteCalls(rules[..i])
      {
        PrefixStep(rules, i);
        ghost var before := kernel.log;
        var ok := kernel.Submit(DeleteCallFor(rules[i]));
        LogStep(old(kernel.log), before, kernel.log, DeleteCalls(rules[..i]), [DeleteCallFor(rules[i])]);
        if !ok {
          DeleteAttemptsStopsAt(rules[..i], rules[i], rules[i + 1..], kernel.accepts);
          return Some(rules[i]);
        }
        DeleteCallsAppend(rules[..i], rules[i]);
        AllDeletableAppend(rules[..i], rules[i], kernel.accepts);
      }
      assert rules[..|rules|] == rules;
      DeleteAttemptsAll(rules, kernel.accepts);
      return None;
    }

    /** deleteRule for each rule in order, carrying on past refusals. */
    method DeleteEach(rules: seq<Rule>)
      modifies kernel`log
      ensures kernel.log == old(kernel.log) + DeleteCalls(rules)
    {
      for i := 0 to |rules|
        invariant kernel.log == old(kernel.log) + DeleteCalls(rules[..i])
      {
        PrefixStep(rules, i);
        ghost var before := kernel.log;
        var _ := kernel.Submit(DeleteCallFor(rules[i]));
        LogStep(old(kernel.log), before, kernel.log, DeleteCalls(rules[..i]), [DeleteCallFor(rules[i])]);
        DeleteCallsAppend(rules[..i], rules[i]);
      }
      assert rules[..|rules|] == rules;
    }

    /** deleteRule for every rule of a rulesMap, destination keys in any order, carrying on past refusals. */
    method DeleteMapRules(rulesMap: map<string, seq<Rule>>)
      modifies kernel`log
      ensures |kernel.log| >= |old(kernel.log)| && kernel.log[..|old(kernel.log)|] == old(kernel.log)
      ensures CallSet(kernel.log[|old(kernel.log)|..]) == DeleteCallsIn(rulesMap, rulesMap.Keys)
    {
      var dsts := rulesMap.Keys;
      ghost var issued: seq<KernelCall> := [];
      while dsts != {}
        invariant dsts <= rulesMap.Keys
        invariant kernel.log == old(kernel.log) + issued
        invariant CallSet(issued) == DeleteCallsIn(rulesMap, rulesMap.Keys - dsts)
        decreases dsts
      {
        var d :| d in dsts;
        ghost var before := kernel.log;
        DeleteEach(rulesMap[d]);
        LogStep(old(kernel.log), before, kernel.log, issued, DeleteCalls(rulesMap[d]));
        CallSetAppend(issued, DeleteCalls(rulesMap[d]));
        CallSetOfDeleteCalls(rulesMap[d]);
        DeleteCallsInStep(rulesMap, dsts, d);
        issued := issued + DeleteCalls(rulesMap[d]);
        dsts := dsts - {d};
      }
      LogTail(old(kernel.log), issued, kernel.log);
    }

    /** deleteRule for every recorded rule of a table, carrying on past refusals. */
    method DeleteTableRules(ruleTable: RuleTable)
      modifies kernel`log
      ensures |kernel.log| >= |old(kernel.log)| && kernel.log[..|old(kernel.log)|] == old(kernel.log)
      ensures CallSet(kernel.log[|old(kernel.log)|..]) == DeleteCallsUnder(ruleTable, ruleTable.Keys)
    {
      var keys := ruleTable.Keys;
      ghost var issued: seq<KernelCall> := [];
      while keys != {}
        invariant keys <= ruleTable.Keys
        invariant kernel.log == old(kernel.log) + issued
        invariant CallSet(issued) == DeleteCallsUnder(ruleTable, ruleTable.Keys - keys)
        decreases keys
      {
        var k :| k in keys;
        ghost var before := kernel.log;
        DeleteMapRules(ruleTable[k].rulesMap);
        ghost var step := kernel.log[|before|..];
        LogSuffix(before, kernel.log);
        LogStep(old(kernel.log), before, kernel.log, issued, step);
        CallSetAppend(issued, step);
        DeleteCallsUnderStep(ruleTable, keys, k);
        issued := issued + step;
        keys := keys - {k};
      }
      LogTail(old(kernel.log), issued, kernel.log);
    }

    /**
     * deleteRule for every rule of a peer, destination keys in any order,
     * each list in order, stopping at the first refusal.
     */
    method DeletePeerRules(rulesMap: map<string, seq<Rule>>) returns (refused: Option<Rule>)
      modifies kernel`log
      ensures |kernel.log| >= |old(kernel.log)| && kernel.log[..|old(kernel.log)|] == old(kernel.log)
      ensures CallSet(kernel.log[|old(kernel.log)|..]) <= DeleteCallsIn(rulesMap, rulesMap.Keys)
      ensures refused.None? <==> CfgDeletable(RulesCfg(false, rulesMap), kernel.accepts)
      ensures refused.None? ==> CallSet(kernel.log[|old(kernel.log)|..]) == DeleteCallsIn(rulesMap, rulesMap.Keys)
      ensures refused.Some? ==> exists d :: d in rulesMap && refused.value in rulesMap[d] && !kernel.accepts(DeleteCallFor(refused.value))
    {
      var dsts := rulesMap.Keys;
      ghost var issued: seq<KernelCall> := [];
      while dsts != {}
        invariant dsts <= rulesMap.Keys
        invariant kernel.log == old(kernel.log) + issued
        invariant CallSet(issued) == DeleteCallsIn(rulesMap, rulesMap.Keys - dsts)
        invariant forall d, r :: d in rulesMap.Keys - dsts && r in rulesMap[d] ==> kernel.accepts(DeleteCallFor(r))
        decreases dsts
      {
        var d :| d in dsts;
        ghost var before := kernel.log;
        var r := DeleteInOrder(rulesMap[d]);
        LogStep(old(kernel.log), before, kernel.log, issued, DeleteAttempts(rulesMap[d], kernel.accepts));
        CallSetAppend(issued, DeleteAttempts(rulesMap[d], kernel.accepts));
        CallSetOfDeleteAttempts(rulesMap[d], kernel.accepts);
        issued := issued + DeleteAttempts(rulesMap[d], kernel.accepts);
        LogTail(old(kernel.log), issued, kernel.log);
        if r.Some? {
          return r;
        }
        DeleteAttemptsAll(rulesMap[d], kernel.accepts);
        CallSetOfDeleteCalls(rulesMap[d]);
        DeleteCallsInStep(rulesMap, dsts, d);
        dsts := dsts - {d};
      }
      LogTail(old(kernel.log), issued, kernel.log);
      return None;
    }

    /** One egress range of an external client: both directions when the range parses, the second only after the first was flushed. */
    method InsertEgressRange(extAddr: string, egressRange: string) returns (added: seq<Rule>)
      modifies kernel`log
      ensures added == EgressRangeEffect(extAddr, egressRange, env, kernel.accepts).recorded
      ensures kernel.log == old(kernel.log) + EgressRangeEffect(extAddr, egressRange, env, kernel.accepts).calls
    {
      added := [];
      if !env.cidrParses(egressRange) {
        return;
      }
      var out := MakeRule(DefaultIpTable, NetmakerFilterChain, ["-s", extAddr, "-d", egressRange, "-j", "ACCEPT"], true);
      var ok := kernel.Submit(InsertRuleCall(out.nfRule));
      if !ok {
        return;
      }
      added := [out];
      var back := MakeRule(DefaultIpTable, NetmakerFilterChain, ["-s", egressRange, "-d", extAddr, "-j", "ACCEPT"], true);
      ok := kernel.Submit(InsertRuleCall(back.nfRule));
      if ok {
        added := added + [back];
      }
    }

    /** The egress-range rules for an external client: the two directions per parseable range, each recorded when flushed. */
    method InsertEgressRanges(extAddr: string, ranges: seq<string>) returns (added: seq<Rule>)
      modifies kernel`log
      ensures added == EgressRangesEffect(extAddr, ranges, env, kernel.accepts).recorded
      ensures kernel.log == old(kernel.log) + EgressRangesEffect(extAddr, ranges, env, kernel.accepts).calls
    {
      added := [];
      for i := 0 to |ranges|
        invariant added == EgressRangesEffect(extAddr, ranges[..i], env, kernel.accepts).recorded
        invariant kernel.log == old(kernel.log) + EgressRangesEffect(extAddr, ranges[..i], env, kernel.accepts).calls
      {
        EgressRangesStep(extAddr, ranges, i, env, kernel.accepts);
        ghost var before := kernel.log;
        var step := InsertEgressRange(extAddr, ranges[i]);
        LogStep(old(kernel.log), before, kernel.log, EgressRangesEffect(extAddr, ranges[..i], env, kernel.accepts).calls,
                EgressRangeEffect(extAddr, ranges[i], env, kernel.accepts).calls);
        added := added + step;
      }
      assert ranges[..|ranges|] == ranges;
    }

    /** One range of a gateway peer: the accept rule when the range parses, recorded when flushed. */
    method InsertPeerRange(peerAddr: string, egressRange: string) returns (rules: seq<Rule>)
      modifies kernel`log
      ensures rules == PeerRangeEffect(peerAddr, egressRange, env, kernel.accepts).recorded
      ensures kernel.log == old(kernel.log) + PeerRangeEffect(peerAddr, egressRange, env, kernel.accepts).calls
    {
      rules := [];
      if !env.cidrParses(egressRange) {
        return;
      }
      var rule := MakeRule(DefaultIpTable, NetmakerFilterChain, ["-s", peerAddr, "-d", egressRange, "-j", "ACCEPT"], false);
      rules := InsertRule(rule);
    }

    /** A gateway peer's accept rules: one per parseable range, recorded when flushed. */
    method InsertPeerRanges(peerAddr: string, ranges: seq<string>) returns (rules: seq<Rule>)
      modifies kernel`log
      ensures rules == PeerRangesEffect(peerAddr, ranges, env, kernel.accepts).recorded
      ensures kernel.log == old(kernel.log) + PeerRangesEffect(peerAddr, ranges, env, kernel.accepts).calls
    {
      rules := [];
      for i := 0 to |ranges|
        invariant rules == PeerRangesEffect(peerAddr, ranges[..i], env, kernel.accepts).recorded
        invariant kernel.log == old(kernel.log) + PeerRangesEffect(peerAddr, ranges[..i], env, kernel.accepts).calls
      {
        PeerRangesStep(peerAddr, ranges, i, env, kernel.accepts);
        ghost var before := kernel.log;
        var step := InsertPeerRange(peerAddr, ranges[i]);
        LogStep(old(kernel.log), before, kernel.log, PeerRangesEffect(peerAddr, ranges[..i], env, kernel.accepts).calls,
                PeerRangeEffect(peerAddr, ranges[i], env, kernel.accepts).calls);
        rules := rules + step;
      }
      assert ranges[..|ranges|] == ranges;
    }

    /** InsertRule + Flush of one rule; the rule is recorded when the flush succeeds. */
    method InsertRule(rule: Rule) returns (recorded: seq<Rule>)
      modifies kernel`log
      ensures recorded == TryInsert(rule, kernel.accepts).recorded
      ensures kernel.log == old(kernel.log) + TryInsert(rule, kernel.accepts).calls
    {
      var ok := kernel.Submit(InsertRuleCall(rule.nfRule));
      recorded := if ok then [rule] else [];
    }

    /** deleteRule of any old copy (its error ignored), then InsertRule + Flush. */
    method ReplaceRule(rule: Rule) returns (recorded: seq<Rule>)
      modifies kernel`log
      ensures recorded == ReplaceEffect(rule, kernel.accepts).recorded
      ensures kernel.log == old(kernel.log) + ReplaceEffect(rule, kernel.accepts).calls
    {
      var _ := kernel.Submit(DeleteCallFor(rule));
      ghost var before := kernel.log;
      recorded := InsertRule(rule);
      LogStep(old(kernel.log), before, kernel.log, [DeleteCallFor(rule)], TryInsert(rule, kernel.accepts).calls);
    }

    /** The MASQUERADE pair of a gateway range: delete any old copy, insert, record when flushed. */
    method InsertNatPair(egressInfo: EgressInfo, egressRange: string) returns (routes: seq<Rule>)
      modifies kernel`log
      ensures routes == NatEffect(egressInfo, egressRange, env, kernel.accepts).recorded
      ensures kernel.log == old(kernel.log) + NatEffect(egressInfo, egressRange, env, kernel.accepts).calls
    {
      routes := [];
      if egressInfo.natEnabled != "yes" {
        return;
      }
      var egressRangeIface := env.interfaceFor(egressRange);
      if egressRangeIface.None? {
        return;
      }
      var iface := egressRangeIface.value;
      var src := MakeRule(DefaultNatTable, NatTablePrtChain, ["-s", egressInfo.network, "-o", iface, "-j", "MASQUERADE"], false);
      var dst := MakeRule(DefaultNatTable, NatTablePrtChain, ["-d", egressInfo.network, "-o", iface, "-j", "MASQUERADE"], false);
      routes := ReplaceRule(src);
      ghost var before := kernel.log;
      var second := ReplaceRule(dst);
      LogStep(old(kernel.log), before, kernel.log, ReplaceEffect(src, kernel.accepts).calls, ReplaceEffect(dst, kernel.accepts).calls);
      routes := routes + second;
    }

    /** One gateway range: the forwarding rule, then the MASQUERADE pair; an unparseable range is skipped. */
    method InsertGatewayRange(egressInfo: EgressInfo, egressGwRange: string) returns (routes: seq<Rule>)
      modifies kernel`log
      ensures routes == GatewayRangeEffect(egressInfo, egressGwRange, env, kernel.accepts).recorded
      ensures kernel.log == old(kernel.log) + GatewayRangeEffect(egressInfo, egressGwRange, env, kernel.accepts).calls
    {
      routes := [];
      if !env.cidrParses(egressGwRange) {
        return;
      }
      var rule := MakeRule(DefaultIpTable, IptableFwdChain, ["-i", env.interfaceName, "-d", egressGwRange, "-j", NetmakerFilterChain], false);
      routes := InsertRule(rule);
      ghost var before := kernel.log;
      var masq := InsertNatPair(egressInfo, egressGwRange);
      LogStep(old(kernel.log), before, kernel.log, TryInsert(rule, kernel.accepts).calls, NatEffect(egressInfo, egressGwRange, env, kernel.accepts).calls);
      routes := routes + masq;
    }

    /** The gateway routes: per parseable range the forwarding rule, then the MASQUERADE pair. */
    method InsertGatewayRoutes(egressInfo: EgressInfo) returns (routes: seq<Rule>)
      modifies kernel`log
      ensures routes == GatewayEffect(egressInfo, egressInfo.ranges, env, kernel.accepts).recorded
      ensures kernel.log == old(kernel.log) + GatewayEffect(egressInfo, egressInfo.ranges, env, kernel.accepts).calls
    {
      var ranges := egressInfo.ranges;
      routes := [];
      for i := 0 to |ranges|
        invariant routes == GatewayEffect(egressInfo, ranges[..i], env, kernel.accepts).recorded
        invariant kernel.log == old(kernel.log) + GatewayEffect(egressInfo, ranges[..i], env, kernel.accepts).calls
      {
        GatewayStep(egressInfo, ranges, i, env, kernel.accepts);
        ghost var before := kernel.log;
        var step := InsertGatewayRange(egressInfo, ranges[i]);
        LogStep(old(kernel.log), before, kernel.log, GatewayEffect(egressInfo, ranges[..i], env, kernel.accepts).calls,
                GatewayRangeEffect(egressInfo, ranges[i], env, kernel.accepts).calls);
        routes := routes + step;
      }
      assert ranges[..|ranges|] == ranges;
    }

    /** The gateway peer loop: each allowed peer's entry is rebuilt from the ranges. */
    method InsertEgressPeers(start: map<string, seq<Rule>>, egressInfo: EgressInfo) returns (rulesMap: map<string, seq<Rule>>)
      modifies kernel`log
      ensures rulesMap == EgressPeersEffect(start, egressInfo.gwPeers, egressInfo.ranges, env, kernel.accepts).rulesMap
      ensures kernel.log == old(kernel.log) + EgressPeersEffect(start, egressInfo.gwPeers, egressInfo.ranges, env, kernel.accepts).calls
    {
      var peers := egressInfo.gwPeers;
      rulesMap := start;
      for i := 0 to |peers|
        invariant rulesMap == EgressPeersEffect(start, peers[..i], egressInfo.ranges, env, kernel.accepts).rulesMap
        invariant kernel.log == old(kernel.log) + EgressPeersEffect(start, peers[..i], egressInfo.ranges, env, kernel.accepts).calls
      {
        EgressPeersStep(start, peers, i, egressInfo.ranges, env, kernel.accepts);
        var peer := peers[i];
        if !peer.allow {
          continue;
        }
        ghost var before := kernel.log;
        var rules := InsertPeerRanges(peer.peerAddr, egressInfo.ranges);
        LogStep(old(kernel.log), before, kernel.log, EgressPeersEffect(start, peers[..i], egressInfo.ranges, env, kernel.accepts).calls,
                PeerRangesEffect(peer.peerAddr, egressInfo.ranges, env, kernel.accepts).calls);
        rulesMap := rulesMap[peer.peerKey := rules];
      }
      assert peers[..|peers|] == peers;
    }

    /** The ingress peer loop: allowed peers other than the client get their accept rule when it is flushed. */
    method InsertIngressPeers(start: map<string, seq<Rule>>, extinfo: ExtClientInfo) returns (rulesMap: map<string, seq<Rule>>)
      modifies kernel`log
      ensures rulesMap == IngressPeersEffect(start, extinfo.extPeerKey, extinfo.extPeerAddr, extinfo.peers, kernel.accepts).rulesMap
      ensures kernel.log == old(kernel.log) + IngressPeersEffect(start, extinfo.extPeerKey, extinfo.extPeerAddr, extinfo.peers, kernel.accepts).calls
    {
      var peers := extinfo.peers;
      rulesMap := start;
      for i := 0 to |peers|
        invariant rulesMap == IngressPeersEffect(start, extinfo.extPeerKey, extinfo.extPeerAddr, peers[..i], kernel.accepts).rulesMap
        invariant kernel.log == old(kernel.log) + IngressPeersEffect(start, extinfo.extPeerKey, extinfo.extPeerAddr, peers[..i], kernel.accepts).calls
      {
        IngressPeersStep(start, extinfo.extPeerKey, extinfo.extPeerAddr, peers, i, kernel.accepts);
        var peerInfo := peers[i];
        if !peerInfo.allow || peerInfo.peerKey == extinfo.extPeerKey {
          continue;
        }
        var rule := MakeRule(DefaultIpTable, NetmakerFilterChain, ["-s", extinfo.extPeerAddr, "-d", peerInfo.peerAddr, "-j", "ACCEPT"], false);
        ghost var before := kernel.log;
        var ok := kernel.Submit(InsertRuleCall(rule.nfRule));
        LogStep(old(kernel.log), before, kernel.log, IngressPeersEffect(start, extinfo.extPeerKey, extinfo.extPeerAddr, peers[..i], kernel.accepts).calls,
                [InsertRuleCall(rule.nfRule)]);
        if !ok {
          continue;
        }
        rulesMap := rulesMap[peerInfo.peerKey := [rule]];
      }
      assert peers[..|peers|] == peers;
    }

    /**
     * The stripping of one client's own list: flagged rules are deleted in
     * order, the others kept in order; the first refused deletion stops it.
     */
    method StripOwnList(rules: seq<Rule>) returns (kept: seq<Rule>, refused: Option<Rule>)
      modifies kernel`log
      ensures kernel.log == old(kernel.log) + DeleteAttempts(Flagged(rules), kernel.accepts)
      ensures refused.None? <==> AllDeletable(Flagged(rules), kernel.accepts)
      ensures refused.None? ==> kept == Unflagged(rules)
      ensures refused.Some? ==> refused.value in Flagged(rules) && !kernel.accepts(DeleteCallFor(refused.value))
    {
      kept := [];
      for i := 0 to |rules|
        invariant kept == Unflagged(rules[..i])
        invariant AllDeletable(Flagged(rules[..i]), kernel.accepts)
        invariant kernel.log == old(kernel.log) + DeleteCalls(Flagged(rules[..i]))
      {
        SplitStep(rules, i);
        var rule := rules[i];
        if rule.egressExtRule {
          ghost var before := kernel.log;
          var ok := kernel.Submit(DeleteCallFor(rule));
          if !ok {
            FlaggedStopsAt(rules, i, kernel.accepts);
            LogStep(old(kernel.log), before, kernel.log, DeleteCalls(Flagged(rules[..i])), [DeleteCallFor(rule)]);
            return kept, Some(rule);
          }
          LogStep(old(kernel.log), before, kernel.log, DeleteCalls(Flagged(rules[..i])), [DeleteCallFor(rule)]);
          DeleteCallsAppend(Flagged(rules[..i]), rule);
          AllDeletableAppend(Flagged(rules[..i]), rule, kernel.accepts);
        } else {
          kept := kept + [rule];
        }
      }
      assert rules[..|rules|] == rules;
      DeleteAttemptsAll(Flagged(rules), kernel.accepts);
      return kept, None;
    }

    /** Strip one client's own list within the table being stripped. */
    method StripEntry(t0: RuleTable, t: RuleTable, extKey: string) returns (stripped: RuleTable, refused: Option<Rule>)
      requires extKey in t0 && t.Keys == t0.Keys && t[extKey] == t0[extKey]
      modifies kernel`log
      ensures kernel.log == old(kernel.log) + DeleteAttempts(FlaggedOwn(extKey, t0[extKey]), kernel.accepts)
      ensures refused.None? <==> AllDeletable(FlaggedOwn(extKey, t0[extKey]), kernel.accepts)
      ensures refused.None? ==> stripped == t[extKey := StripCfg(extKey, t0[extKey])]
      ensures refused.Some? ==> refused.value in FlaggedOwn(extKey, t0[extKey]) && !kernel.accepts(DeleteCallFor(refused.value))
    {
      var rulesCfg := t[extKey];
      if extKey !in rulesCfg.rulesMap {
        return t, None;
      }
      var kept;
      kept, refused := StripOwnList(rulesCfg.rulesMap[extKey]);
      stripped := t[extKey := rulesCfg.(rulesMap := rulesCfg.rulesMap[extKey := kept])];
    }

    /** The stripping loop: clients in `done` are stripped; a refusal stops it at a client outside `done`. */
    method StripLoop(t0: RuleTable) returns (t: RuleTable, done: set<string>, refused: Option<(string, Rule)>)
      modifies kernel`log
      ensures StrippedUpTo(t0, t, done, kernel.accepts)
      ensures refused.None? ==> done == t0.Keys
      ensures refused.Some? ==>
        && refused.value.0 in t0 && refused.value.0 !in done
        && refused.value.1 in FlaggedOwn(refused.value.0, t0[refused.value.0])
        && !kernel.accepts(DeleteCallFor(refused.value.1))
      ensures |kernel.log| >= |old(kernel.log)| && kernel.log[..|old(kernel.log)|] == old(kernel.log)
      ensures CallSet(kernel.log[|old(kernel.log)|..]) <= FlaggedDeleteCalls(t0, t0.Keys)
      ensures refused.None? ==> CallSet(kernel.log[|old(kernel.log)|..]) == FlaggedDeleteCalls(t0, done)
    {
      t := t0;
      done := {};
      ghost var issued: seq<KernelCall> := [];
      while t0.Keys - done != {}
        invariant StrippedUpTo(t0, t, done, kernel.accepts)
        invariant kernel.log == old(kernel.log) + issued
        invariant CallSet(issued) == FlaggedDeleteCalls(t0, done)
        decreases t0.Keys - done
      {
        var extKey :| extKey in t0.Keys - done;
        ghost var step := DeleteAttempts(FlaggedOwn(extKey, t0[extKey]), kernel.accepts);
        ghost var before := kernel.log;
        var stripped, rule := StripEntry(t0, t, extKey);
        LogStep(old(kernel.log), before, kernel.log, issued, step);
        if rule.Some? {
          StoppedStripCalls(t0, done, extKey, issued, kernel.accepts);
          issued := issued + step;
          LogTail(old(kernel.log), issued, kernel.log);
          return t, done, Some((extKey, rule.value));
        }
        AcceptedStripCalls(t0, done, extKey, issued, kernel.accepts);
        StrippedUpToStep(t0, t, done, extKey, kernel.accepts);
        issued := issued + step;
        t := stripped;
        done := done + {extKey};
      }
      assert done == t0.Keys by {
        assert forall k :: k in t0.Keys ==> k in done || k in t0.Keys - done;
      }
      LogTail(old(kernel.log), issued, kernel.log);
      refused := None;
    }

    /**
     * The stripping phase over a whole ingress table: every client's own
     * list loses its flagged rules, until a deletion is refused.
     */
    method StripFlagged(t0: RuleTable) returns (t: RuleTable, err: Option<NftError>)
      modifies kernel`log
      ensures t.Keys == t0.Keys
      ensures forall k :: k in t0 ==> t[k] == t0[k] || t[k] == StripCfg(k, t0[k])
      ensures err.None? <==> forall k :: k in t0 ==> AllDeletable(FlaggedOwn(k, t0[k]), kernel.accepts)
      ensures err.None? ==> t == StrippedTable(t0)
      ensures err.Some? ==>
        && err.value.RuleRemovalFailed? && err.value.peerKey in t0
        && exists r :: r in FlaggedOwn(err.value.peerKey, t0[err.value.peerKey]) && !kernel.accepts(DeleteCallFor(r))
                       && err.value.table == r.table && err.value.rule == r.rule
      ensures |kernel.log| >= |old(kernel.log)| && kernel.log[..|old(kernel.log)|] == old(kernel.log)
      ensures CallSet(kernel.log[|old(kernel.log)|..]) <= FlaggedDeleteCalls(t0, t0.Keys)
      ensures err.None? ==> CallSet(kernel.log[|old(kernel.log)|..]) == FlaggedDeleteCalls(t0, t0.Keys)
    {
      var done, refused;
      t, done, refused := StripLoop(t0);
      if refused.Some? {
        var (extKey, r) := refused.value;
        assert !AllDeletable(FlaggedOwn(extKey, t0[extKey]), kernel.accepts);
        return t, Some(RuleRemovalFailed(r.table, r.rule, extKey));
      }
      StrippedUpToAll(t0, t, kernel.accepts);
      return t, None;
    }

    /** Re-add the egress-range rules to one client's own list, when the client is in the table. */
    method ReAddEntry(t: RuleTable, extinfo: ExtClientInfo, extKey: string, ranges: seq<string>) returns (t': RuleTable)
      modifies kernel`log
      ensures extKey in t ==> t' == t[extKey := ReAddCfg(extKey, t[extKey], extinfo.extPeerAddr, ranges, env, kernel.accepts)]
      ensures extKey in t ==> kernel.log == old(kernel.log) + EgressRangesEffect(extinfo.extPeerAddr, ranges, env, kernel.accepts).calls
      ensures extKey !in t ==> t' == t && kernel.log == old(kernel.log)
    {
      if extKey !in t {
        return t;
      }
      var routes := MapGet(t[extKey].rulesMap, extKey, []);
      var added := InsertEgressRanges(extinfo.extPeerAddr, ranges);
      routes := routes + added;
      t' := t[extKey := t[extKey].(rulesMap := t[extKey].rulesMap[extKey := routes])];
    }

    /**
     * The re-adding phase: every client of the update already in the table
     * gets the egress-range rules for the new ranges appended to its own list.
     */
    method ReAddRanges(t0: RuleTable, update: IngressInfo) returns (t: RuleTable)
      modifies kernel`log
      ensures t == ReAddedTable(t0, update, env, kernel.accepts)
      ensures |kernel.log| >= |old(kernel.log)| && kernel.log[..|old(kernel.log)|] == old(kernel.log)
      ensures CallSet(kernel.log[|old(kernel.log)|..]) == ReAddCallsUnder(t0, update, update.extPeers.Keys, env, kernel.accepts)
    {
      t := t0;
      var done: set<string> := {};
      ghost var issued: seq<KernelCall> := [];
      while update.extPeers.Keys - done != {}
        invariant ReAddedUpTo(t0, t, update, done, env, kernel.accepts)
        invariant kernel.log == old(kernel.log) + issued
        invariant CallSet(issued) == ReAddCallsUnder(t0, update, done, env, kernel.accepts)
        decreases update.extPeers.Keys - done
      {
        var extKey :| extKey in update.extPeers.Keys - done;
        ghost var calls := if extKey in t then EgressRangesEffect(update.extPeers[extKey].extPeerAddr, update.egressRanges, env, kernel.accepts).calls else [];
        ReAddedUpToStep(t0, t, update, done, extKey, env, kernel.accepts);
        ReAddCallsStep(t0, update, done, extKey, env, kernel.accepts);
        CallSetAppend(issued, calls);
        ghost var before := kernel.log;
        t := ReAddEntry(t, update.extPeers[extKey], extKey, update.egressRanges);
        LogStep(old(kernel.log), before, kernel.log, issued, calls);
        issued := issued + calls;
        done := done + {extKey};
      }
      assert done == update.extPeers.Keys by {
        assert forall k :: k in update.extPeers.Keys ==> k in done || k in update.extPeers.Keys - done;
      }
      LogTail(old(kernel.log), issued, kernel.log);
      ReAddedUpToAll(t0, t, update, env, kernel.accepts);
    }

    // ----- operations -----

    /**
     * CleanRoutingRules: ask the kernel to delete every recorded rule of
     * the server's table, carrying on past refusals, then drop the server's
     * entry from the named table.
     */
    method CleanRoutingRules(server: string, ruleTableName: string)
      modifies this`ingRules, this`egressRules, kernel`log
      ensures ruleTableName == IngressTable ==> ingRules == old(ingRules) - {server} && egressRules == old(egressRules)
      ensures ruleTableName == EgressTable ==> egressRules == old(egressRules) - {server} && ingRules == old(ingRules)
      ensures ruleTableName != IngressTable && ruleTableName != EgressTable ==> ingRules == old(ingRules) && egressRules == old(egressRules)
      ensures |kernel.log| >= |old(kernel.log)| && kernel.log[..|old(kernel.log)|] == old(kernel.log)
      ensures var t := old(FetchRuleTable(server, ruleTableName));
        CallSet(kernel.log[|old(kernel.log)|..]) == (if t.Some? then DeleteCallsUnder(t.value, t.value.Keys) else {})
    {
      var fetched := FetchRuleTable(server, ruleTableName);
      if fetched.Some? {
        DeleteTableRules(fetched.value);
      } else {
        LogTail(kernel.log, [], kernel.log);
      }
      DeleteRuleTable(server, ruleTableName);
    }

    /**
     * RemoveRoutingRules: forget a peer once all its recorded rules are
     * deleted from the kernel. A peer missing from the table is an error
     * and changes nothing; the first refused deletion ends the operation
     * with an error and the peer kept; when every deletion is accepted the
     * peer's entry is removed.
     */
    method RemoveRoutingRules(server: string, ruleTableName: string, peerKey: string) returns (outcome: Outcome)
      modifies this`ingRules, this`egressRules, kernel`log
      ensures outcome != Panicked
      ensures |kernel.log| >= |old(kernel.log)| && kernel.log[..|old(kernel.log)|] == old(kernel.log)
      ensures var t := old(FetchRuleTable(server, ruleTableName));
        t.None? ==>
          outcome == Failed(PeerNotFound(peerKey)) && ingRules == old(ingRules) && egressRules == old(egressRules) && kernel.log == old(kernel.log)
      ensures var t := old(FetchRuleTable(server, ruleTableName));
        t.Some? && peerKey !in t.value ==>
          outcome == Failed(PeerNotFound(peerKey)) && StoredAs(server, ruleTableName, t.value) && kernel.log == old(kernel.log)
      ensures var t := old(FetchRuleTable(server, ruleTableName));
        t.Some? && peerKey in t.value ==>
          var rulesMap := t.value[peerKey].rulesMap;
          && (outcome == Done <==> CfgDeletable(t.value[peerKey], kernel.accepts))
          && (outcome == Done ==> StoredAs(server, ruleTableName, t.value - {peerKey}))
          && (outcome != Done ==> StoredAs(server, ruleTableName, t.value))
          && (outcome != Done ==>
                exists d, r :: d in rulesMap && r in rulesMap[d] && !kernel.accepts(DeleteCallFor(r)) && outcome == Failed(RuleRemovalFailed(r.table, r.rule, peerKey)))
          && CallSet(kernel.log[|old(kernel.log)|..]) <= DeleteCallsIn(rulesMap, rulesMap.Keys)
          && (outcome == Done ==> CallSet(kernel.log[|old(kernel.log)|..]) == DeleteCallsIn(rulesMap, rulesMap.Keys))
    {
      var fetched := FetchRuleTable(server, ruleTableName);
      if fetched.None? {
        return Failed(PeerNotFound(peerKey));
      }
      var rulesTable := fetched.value;
      if peerKey !in rulesTable {
        SaveRules(server, ruleTableName, rulesTable);
        return Failed(PeerNotFound(peerKey));
      }
      var refused := DeletePeerRules(rulesTable[peerKey].rulesMap);
      if refused.Some? {
        var r := refused.value;
        SaveRules(server, ruleTableName, rulesTable);
        return Failed(RuleRemovalFailed(r.table, r.rule, peerKey));
      }
      rulesTable := rulesTable - {peerKey};
      SaveRules(server, ruleTableName, rulesTable);
      return Done;
    }

    /**
     * DeleteRoutingRule: delete from the kernel, in order, the rules
     * recorded under srcPeerKey for dstPeerKey, stopping at the first
     * refusal. Either key missing is an error. The table itself is never
     * changed (a missing server gets its fresh empty table stored).
     */
    method DeleteRoutingRule(server: string, ruleTableName: string, srcPeerKey: string, dstPeerKey: string) returns (outcome: Outcome)
      modifies this`ingRules, this`egressRules, kernel`log
      ensures outcome != Panicked
      ensures FetchRuleTable(server, ruleTableName) == old(FetchRuleTable(server, ruleTableName))
      ensures var t := old(FetchRuleTable(server, ruleTableName));
        && (t.Some? ==> StoredAs(server, ruleTableName, t.value))
        && (t.None? ==> ingRules == old(ingRules) && egressRules == old(egressRules))
      ensures var t := old(FetchRuleTable(server, ruleTableName));
        t.None? || srcPeerKey !in t.value ==> outcome == Failed(PeerNotFound(srcPeerKey)) && kernel.log == old(kernel.log)
      ensures var t := old(FetchRuleTable(server, ruleTableName));
        t.Some? && srcPeerKey in t.value && dstPeerKey !in t.value[srcPeerKey].rulesMap ==>
          outcome == Failed(RulesNotFound(dstPeerKey)) && kernel.log == old(kernel.log)
      ensures var t := old(FetchRuleTable(server, ruleTableName));
        t.Some? && srcPeerKey in t.value && dstPeerKey in t.value[srcPeerKey].rulesMap ==>
          var rules := t.value[srcPeerKey].rulesMap[dstPeerKey];
          && kernel.log == old(kernel.log) + DeleteAttempts(rules, kernel.accepts)
          && (outcome == Done <==> AllDeletable(rules, kernel.accepts))
          && (outcome != Done ==>
                exists r :: r in rules && !kernel.accepts(DeleteCallFor(r)) && outcome == Failed(RuleRemovalFailed(r.table, r.rule, srcPeerKey)))
    {
      var fetched := FetchRuleTable(server, ruleTableName);
      if fetched.None? {
        return Failed(PeerNotFound(srcPeerKey));
      }
      var rulesTable := fetched.value;
      if srcPeerKey !in rulesTable {
        SaveRules(server, ruleTableName, rulesTable);
        return Failed(PeerNotFound(srcPeerKey));
      }
      if dstPeerKey in rulesTable[srcPeerKey].rulesMap {
        var rules := rulesTable[srcPeerKey].rulesMap[dstPeerKey];
        var refused := DeleteInOrder(rules);
        if refused.Some? {
          var r := refused.value;
          SaveRules(server, ruleTableName, rulesTable);
          return Failed(RuleRemovalFailed(r.table, r.rule, srcPeerKey));
        }
      } else {
        SaveRules(server, ruleTableName, rulesTable);
        return Failed(RulesNotFound(dstPeerKey));
      }
      SaveRules(server, ruleTableName, rulesTable);
      return Done;
    }

    /** A gateway's fresh rulesCfg: its peers' accept rules, and the gateway routes under its own ID. */
    method BuildEgressCfg(egressInfo: EgressInfo) returns (cfg: RulesCfg)
      modifies kernel`log
      ensures cfg == EgressCfgEffect(egressInfo, env, kernel.accepts).0
      ensures kernel.log == old(kernel.log) + EgressCfgEffect(egressInfo, env, kernel.accepts).1
    {
      var isIpv4 := env.isAddrIpv4(egressInfo.egressGwAddr);
      var egressGwRoutes := InsertGatewayRoutes(egressInfo);
      ghost var before := kernel.log;
      var rulesMap := InsertEgressPeers(map[], egressInfo);
      LogStep(old(kernel.log), before, kernel.log, GatewayEffect(egressInfo, egressInfo.ranges, env, kernel.accepts).calls,
              EgressPeersEffect(map[], egressInfo.gwPeers, egressInfo.ranges, env, kernel.accepts).calls);
      rulesMap := rulesMap[egressInfo.egressID := egressGwRoutes];
      cfg := RulesCfg(isIpv4, rulesMap);
    }

    /**
     * InsertEgressRoutingRules: the gateway's entry in the egress table is
     * replaced by a fresh rulesCfg holding, per allowed gateway peer, the
     * accept rules the kernel took, and under the gateway's own ID the
     * gateway routes.
     */
    method InsertEgressRoutingRules(server: string, egressInfo: EgressInfo) returns (outcome: Outcome)
      modifies this`ingRules, this`egressRules, kernel`log
      ensures outcome == Done
      ensures var t := old(FetchRuleTable(server, EgressTable)).value;
        var eff := EgressCfgEffect(egressInfo, env, kernel.accepts);
        StoredAs(server, EgressTable, t[egressInfo.egressID := eff.0]) && kernel.log == old(kernel.log) + eff.1
    {
      var ruleTable := FetchRuleTable(server, EgressTable).value;
      var cfg := BuildEgressCfg(egressInfo);
      ruleTable := ruleTable[egressInfo.egressID := cfg];
      SaveRules(server, EgressTable, ruleTable);
      return Done;
    }

    /**
     * AddEgressRoutingRule: a disallowed peer changes nothing; otherwise the
     * peer's entry under the gateway is rebuilt from the ranges. A gateway
     * missing from the table has no rulesMap to write into (a nil map in
     * the source), which panics; the deferred save still runs.
     */
    method AddEgressRoutingRule(server: string, egressInfo: EgressInfo, peer: PeerRouteInfo) returns (outcome: Outcome)
      modifies this`ingRules, this`egressRules, kernel`log
      ensures !peer.allow ==>
        outcome == Done && ingRules == old(ingRules) && egressRules == old(egressRules) && kernel.log == old(kernel.log)
      ensures var t := old(FetchRuleTable(server, EgressTable)).value;
        peer.allow && egressInfo.egressID !in t ==>
          outcome == Panicked && StoredAs(server, EgressTable, t) && kernel.log == old(kernel.log)
      ensures var t := old(FetchRuleTable(server, EgressTable)).value;
        var id := egressInfo.egressID;
        var eff := PeerRangesEffect(peer.peerAddr, egressInfo.ranges, env, kernel.accepts);
        peer.allow && id in t ==>
          && outcome == Done
          && StoredAs(server, EgressTable, t[id := t[id].(rulesMap := t[id].rulesMap[peer.peerKey := eff.recorded])])
          && kernel.log == old(kernel.log) + eff.calls
    {
      if !peer.allow {
        return Done;
      }
      var ruleTable := FetchRuleTable(server, EgressTable).value;
      if egressInfo.egressID !in ruleTable {
        SaveRules(server, EgressTable, ruleTable);
        return Panicked;
      }
      var cfg := ruleTable[egressInfo.egressID];
      var rules := InsertPeerRanges(peer.peerAddr, egressInfo.ranges);
      ruleTable := ruleTable[egressInfo.egressID := cfg.(rulesMap := cfg.rulesMap[peer.peerKey := rules])];
      SaveRules(server, EgressTable, ruleTable);
      return Done;
    }

    /**
     * AddIngressRoutingRule: an unparseable peer address is an error; else
     * the accept rule from the external client to the peer is inserted and
     * recorded as the peer's entry under the client whatever the kernel
     * answers. A client missing from the table panics (nil rulesMap).
     */
    method AddIngressRoutingRule(server: string, extPeerKey: string, extPeerAddr: string, peerInfo: PeerRouteInfo) returns (outcome: Outcome)
      modifies this`ingRules, this`egressRules, kernel`log
      ensures var t := old(FetchRuleTable(server, IngressTable)).value;
        env.prefixIs6(peerInfo.peerAddr).None? ==>
          outcome == Failed(InvalidPrefix(peerInfo.peerAddr)) && StoredAs(server, IngressTable, t) && kernel.log == old(kernel.log)
      ensures var t := old(FetchRuleTable(server, IngressTable)).value;
        var rule := MakeRule(DefaultIpTable, NetmakerFilterChain, ["-s", extPeerAddr, "-d", peerInfo.peerAddr, "-j", "ACCEPT"], false);
        env.prefixIs6(peerInfo.peerAddr).Some? ==>
          && kernel.log == old(kernel.log) + [InsertRuleCall(rule.nfRule)]
          && (extPeerKey !in t ==> outcome == Panicked && StoredAs(server, IngressTable, t))
          && (extPeerKey in t ==>
                outcome == Done &&
                StoredAs(server, IngressTable, t[extPeerKey := t[extPeerKey].(rulesMap := t[extPeerKey].rulesMap[peerInfo.peerKey := [rule]])]))
    {
      var ruleTable := FetchRuleTable(server, IngressTable).value;
      var prefix := env.prefixIs6(peerInfo.peerAddr);
      if prefix.None? {
        SaveRules(server, IngressTable, ruleTable);
        return Failed(InvalidPrefix(peerInfo.peerAddr));
      }
      var rule := MakeRule(DefaultIpTable, NetmakerFilterChain, ["-s", extPeerAddr, "-d", peerInfo.peerAddr, "-j", "ACCEPT"], false);
      var _ := kernel.Submit(InsertRuleCall(rule.nfRule));
      if extPeerKey !in ruleTable {
        SaveRules(server, IngressTable, ruleTable);
        return Panicked;
      }
      var cfg := ruleTable[extPeerKey];
      ruleTable := ruleTable[extPeerKey := cfg.(rulesMap := cfg.rulesMap[peerInfo.peerKey := [rule]])];
      SaveRules(server, IngressTable, ruleTable);
      return Done;
    }

    /** The external client's MASQUERADE pair, when masquerading is on, each recorded when flushed. */
    method InsertMasquerade(extinfo: ExtClientInfo) returns (routes: seq<Rule>)
      modifies kernel`log
      ensures routes == MasqueradeEffect(extinfo, env, kernel.accepts).recorded
      ensures kernel.log == old(kernel.log) + MasqueradeEffect(extinfo, env, kernel.accepts).calls
    {
      routes := [];
      if !extinfo.masquerade {
        return;
      }
      var src := MakeRule(DefaultNatTable, NetmakerNatChain, ["-s", extinfo.extPeerAddr, "-o", env.interfaceName, "-j", "MASQUERADE"], false);
      var dst := MakeRule(DefaultNatTable, NetmakerNatChain, ["-d", extinfo.extPeerAddr, "-o", env.interfaceName, "-j", "MASQUERADE"], false);
      routes := InsertRule(src);
      ghost var before := kernel.log;
      var second := InsertRule(dst);
      LogStep(old(kernel.log), before, kernel.log, TryInsert(src, kernel.accepts).calls, TryInsert(dst, kernel.accepts).calls);
      routes := routes + second;
    }

    /** An external client's fresh rulesCfg; its jump rule is remembered for later removal. */
    method BuildIngressCfg(extinfo: ExtClientInfo, egressRanges: seq<string>, isIpv4: bool) returns (cfg: RulesCfg)
      modifies this`jumpRules, kernel`log
      ensures cfg == IngressCfgEffect(extinfo, egressRanges, isIpv4, env, kernel.accepts).0
      ensures kernel.log == old(kernel.log) + IngressCfgEffect(extinfo, egressRanges, isIpv4, env, kernel.accepts).1
      ensures jumpRules == old(jumpRules) + [IngressFwdRule(extinfo)]
    {
      var ext := extinfo.extPeerKey;
      var fwdJumpRule := IngressFwdRule(extinfo);
      var _ := kernel.Submit(InsertRuleCall(fwdJumpRule.nfRule));
      jumpRules := jumpRules + [fwdJumpRule];
      var acc := IngressAcceptRule(extinfo);
      ghost var log1 := kernel.log;
      var _ := kernel.Submit(InsertRuleCall(acc.nfRule));
      ghost var head := [InsertRuleCall(fwdJumpRule.nfRule), InsertRuleCall(acc.nfRule)];
      LogStep(old(kernel.log), log1, kernel.log, [InsertRuleCall(fwdJumpRule.nfRule)], [InsertRuleCall(acc.nfRule)]);
      var rulesMap: map<string, seq<Rule>> := map[ext := [fwdJumpRule, acc]];
      var routes := rulesMap[ext];
      ghost var peers := IngressPeersEffect(rulesMap, ext, extinfo.extPeerAddr, extinfo.peers, kernel.accepts);
      ghost var ranges := EgressRangesEffect(extinfo.extPeerAddr, egressRanges, env, kernel.accepts);
      ghost var log2 := kernel.log;
      rulesMap := InsertIngressPeers(rulesMap, extinfo);
      LogStep(old(kernel.log), log2, kernel.log, head, peers.calls);
      ghost var log3 := kernel.log;
      var added := InsertEgressRanges(extinfo.extPeerAddr, egressRanges);
      LogStep(old(kernel.log), log3, kernel.log, head + peers.calls, ranges.calls);
      routes := routes + added;
      ghost var log4 := kernel.log;
      var masq := InsertMasquerade(extinfo);
      LogStep(old(kernel.log), log4, kernel.log, head + peers.calls + ranges.calls, MasqueradeEffect(extinfo, env, kernel.accepts).calls);
      routes := routes + masq;
      rulesMap := rulesMap[ext := routes];
      cfg := RulesCfg(isIpv4, rulesMap);
    }

    /**
     * InsertIngressRoutingRules: an unparseable client address is an error;
     * else the client's entry is replaced by a fresh rulesCfg (its own list:
     * jump and accept rules, the egress-range rules, the MASQUERADE pair;
     * one entry per allowed peer) and the jump rule is remembered.
     */
    method InsertIngressRoutingRules(server: string, extinfo: ExtClientInfo, egressRanges: seq<string>) returns (outcome: Outcome)
      modifies this`ingRules, this`egressRules, this`jumpRules, kernel`log
      ensures var t := old(FetchRuleTable(server, IngressTable)).value;
        env.prefixIs6(extinfo.extPeerAddr).None? ==>
          && outcome == Failed(InvalidPrefix(extinfo.extPeerAddr)) && StoredAs(server, IngressTable, t)
          && kernel.log == old(kernel.log) && jumpRules == old(jumpRules)
      ensures var t := old(FetchRuleTable(server, IngressTable)).value;
        var prefix := env.prefixIs6(extinfo.extPeerAddr);
        prefix.Some? ==>
          var eff := IngressCfgEffect(extinfo, egressRanges, !prefix.value, env, kernel.accepts);
          && outcome == Done
          && StoredAs(server, IngressTable, t[extinfo.extPeerKey := eff.0])
          && kernel.log == old(kernel.log) + eff.1
          && jumpRules == old(jumpRules) + [IngressFwdRule(extinfo)]
    {
      var ruleTable := FetchRuleTable(server, IngressTable).value;
      var prefix := env.prefixIs6(extinfo.extPeerAddr);
      if prefix.None? {
        SaveRules(server, IngressTable, ruleTable);
        return Failed(InvalidPrefix(extinfo.extPeerAddr));
      }
      var cfg := BuildIngressCfg(extinfo, egressRanges, !prefix.value);
      ruleTable := ruleTable[extinfo.extPeerKey := cfg];
      SaveRules(server, IngressTable, ruleTable);
      return Done;
    }

    /**
     * The ingress table agrees with the server's current egress ranges: each
     * client of `extPeers` in the table has, as the flagged rules of its own
     * list, exactly the rules the insertion of those ranges records.
     */
    predicate IngressConsistent(server: string, extPeers: map<string, ExtClientInfo>)
      reads this
    {
      var t := FetchRuleTable(server, IngressTable).value;
      forall k :: k in t && k in extPeers ==>
        Flagged(MapGet(t[k].rulesMap, k, []))
          == EgressRangesEffect(extPeers[k].extPeerAddr, MapGet(currEgressRanges, server, []), env, kernel.accepts).recorded
    }

    /**
     * What a refresh found to be a change does to an ingress table t0: the
     * result t, the outcome and the set of kernel requests issued. The
     * flagged rules are stripped (a refused deletion is an error, leaving
     * each client either as it was or stripped), then, for a non-empty
     * list, re-added for the update's clients already in the table.
     */
    ghost predicate Rebuilt(t0: RuleTable, update: IngressInfo, t: RuleTable, outcome: Outcome, issued: set<KernelCall>) {
      && (outcome == Done <==> forall k :: k in t0 ==> AllDeletable(FlaggedOwn(k, t0[k]), kernel.accepts))
      && (outcome != Done ==>
            && t.Keys == t0.Keys
            && (forall k :: k in t0 ==> t[k] == t0[k] || t[k] == StripCfg(k, t0[k]))
            && issued <= FlaggedDeleteCalls(t0, t0.Keys)
            && outcome.Failed? && outcome.error.RuleRemovalFailed? && outcome.error.peerKey in t0
            && exists r :: r in FlaggedOwn(outcome.error.peerKey, t0[outcome.error.peerKey]) && !kernel.accepts(DeleteCallFor(r))
                           && outcome.error.table == r.table && outcome.error.rule == r.rule)
      && (outcome == Done && update.egressRanges == [] ==>
            t == StrippedTable(t0) && issued == FlaggedDeleteCalls(t0, t0.Keys))
      && (outcome == Done && update.egressRanges != [] ==>
            && t == ReAddedTable(StrippedTable(t0), update, env, kernel.accepts)
            && issued == FlaggedDeleteCalls(t0, t0.Keys) + ReAddCallsUnder(StrippedTable(t0), update, update.extPeers.Keys, env, kernel.accepts))
    }

    /**
     * The state after refreshing the server's ingress table to `update`,
     * where `changed` says whether the refresh found the ranges changed.
     * The new ranges are remembered and the table saved on every path.
     * Unchanged: nothing else happens. Changed: the table is Rebuilt.
     */
    twostate predicate Refreshed(server: string, update: IngressInfo, changed: bool, outcome: Outcome)
      reads this, kernel
    {
      var t := old(FetchRuleTable(server, IngressTable)).value;
      var log0 := old(kernel.log);
      && currEgressRanges == old(currEgressRanges)[server := update.egressRanges]
      && egressRules == old(egressRules)
      && server in ingRules && ingRules == old(ingRules)[server := ingRules[server]]
      && |kernel.log| >= |log0| && kernel.log[..|log0|] == log0
      && (!changed ==> outcome == Done && ingRules[server] == t && kernel.log == log0)
      && (changed ==> Rebuilt(t, update, ingRules[server], outcome, CallSet(kernel.log[|log0|..])))
    }

    /**
     * The kernel side of a refresh that found a change: strip the flagged
     * rules, then re-add them for a non-empty list. Each client of the
     * update then has, as its flagged rules, exactly those of the new ranges.
     */
    method RebuildFlagged(t0: RuleTable, update: IngressInfo) returns (t: RuleTable, outcome: Outcome)
      modifies kernel`log
      ensures |kernel.log| >= |old(kernel.log)| && kernel.log[..|old(kernel.log)|] == old(kernel.log)
      ensures Rebuilt(t0, update, t, outcome, CallSet(kernel.log[|old(kernel.log)|..]))
      ensures outcome == Done ==> forall k :: k in t && k in update.extPeers ==>
        Flagged(MapGet(t[k].rulesMap, k, [])) == EgressRangesEffect(update.extPeers[k].extPeerAddr, update.egressRanges, env, kernel.accepts).recorded
    {
      var err;
      t, err := StripFlagged(t0);
      ghost var log1 := kernel.log;
      if err.Some? {
        return t, Failed(err.value);
      }
      if |update.egressRanges| == 0 {
        StrippedConsistent(t0);
        return t, Done;
      }
      t := ReAddRanges(t, update);
      LogChain(old(kernel.log), log1, kernel.log);
      CallSetAppend(log1[|old(kernel.log)|..], kernel.log[|log1|..]);
      forall k | k in t && k in update.extPeers
        ensures Flagged(MapGet(t[k].rulesMap, k, []))
             == EgressRangesEffect(update.extPeers[k].extPeerAddr, update.egressRanges, env, kernel.accepts).recorded
      {
        RefreshRebuildsFlaggedRules(t0, update, env, kernel.accepts, k);
      }
      return t, Done;
    }

    /** The refresh of the server's ingress table, once the guard has decided whether the ranges changed. */
    method RefreshIngressTable(server: string, update: IngressInfo, changed: bool) returns (outcome: Outcome)
      modifies this`ingRules, this`egressRules, this`currEgressRanges, kernel`log
      ensures Refreshed(server, update, changed, outcome)
      ensures changed && outcome == Done ==> IngressConsistent(server, update.extPeers)
    {
      var ruleTable := FetchRuleTable(server, IngressTable).value;
      if !changed {
        currEgressRanges := currEgressRanges[server := update.egressRanges];
        SaveRules(server, IngressTable, ruleTable);
        return Done;
      }
      ruleTable, outcome := RebuildFlagged(ruleTable, update);
      currEgressRanges := currEgressRanges[server := update.egressRanges];
      SaveRules(server, IngressTable, ruleTable);
    }

    /**
     * RefreshEgressRangesOnIngressGw as written: the ranges count as
     * changed when the new list is empty or its length differs.
     */
    method RefreshEgressRangesOnIngressGw(server: string, ingressUpdate: IngressInfo) returns (outcome: Outcome)
      modifies this`ingRules, this`egressRules, this`currEgressRanges, kernel`log
      ensures Refreshed(server, ingressUpdate,
                        RangesChangedAsWritten(MapGet(old(currEgressRanges), server, []), ingressUpdate.egressRanges), outcome)
      ensures RangesChangedAsWritten(MapGet(old(currEgressRanges), server, []), ingressUpdate.egressRanges) && outcome == Done ==>
        IngressConsistent(server, ingressUpdate.extPeers)
    {
      var currRanges := MapGet(currEgressRanges, server, []);
      outcome := RefreshIngressTable(server, ingressUpdate, RangesChangedAsWritten(currRanges, ingressUpdate.egressRanges));
    }

    /**
     * The refresh with the guard it evidently intends: the ranges count as
     * changed when the new list is empty or differs from the current one.
     * A successful refresh then keeps the ingress table consistent with the
     * remembered ranges, whatever the update.
     */
    method RefreshEgressRangesCorrected(server: string, ingressUpdate: IngressInfo) returns (outcome: Outcome)
      modifies this`ingRules, this`egressRules, this`currEgressRanges, kernel`log
      ensures Refreshed(server, ingressUpdate,
                        RangesChanged(MapGet(old(currEgressRanges), server, []), ingressUpdate.egressRanges), outcome)
      ensures old(IngressConsistent(server, ingressUpdate.extPeers)) && outcome == Done ==> IngressConsistent(server, ingressUpdate.extPeers)
      ensures RangesChanged(MapGet(old(currEgressRanges), server, []), ingressUpdate.egressRanges) && outcome == Done ==>
        IngressConsistent(server, ingressUpdate.extPeers)
    {
      var currRanges := MapGet(currEgressRanges, server, []);
      outcome := RefreshIngressTable(server, ingressUpdate, RangesChanged(currRanges, ingressUpdate.egressRanges));
    }
  }
}
