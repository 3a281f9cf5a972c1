/** plugins/meta/portmap: port mappings compiled to nat chains, and what those do to packets. */
module Portmap {
  import opened Options
  import opened GoNet
  import opened IPTables
  import opened Chains

  const TOP_LEVEL_DNAT := "CNI-HOSTPORT-DNAT"
  const SET_MARK := "CNI-HOSTPORT-SETMARK"
  const MARK_MASQ := "CNI-HOSTPORT-MASQ"
  const LOCALHOST: IP := [127, 0, 0, 1]

  /** A HostIP that is given is one that parses. */
  datatype PortMapEntry = PortMapEntry(hostPort: int, containerPort: int, protocol: string, hostIP: Option<IP>)

  datatype PortMapConf = PortMapConf(name: string, containerID: string, snat: bool,
                                     conditionsV4: Option<seq<string>>, conditionsV6: Option<seq<string>>,
                                     markMasqBit: nat, externalSetMarkChain: Option<string>,
                                     portMaps: seq<PortMapEntry>)

  predicate IsV6(ip: IP) { To4(ip).None? }

  predicate IsUnspecified(ip: IP) { Equal(ip, [0, 0, 0, 0]) || Equal(ip, seq(16, _ => 0)) }

  // ---------- utils.go ----------

  function TrimComment(val: string): string { if |val| <= 255 then val else val[0..253] + "..." }

  /** Cutting a comment that is too long leaves 256 characters, one more than the limit it is to keep. */
  lemma TrimCommentExactly(val: string)
    ensures |TrimComment(val)| <= 255 <==> |val| <= 255
    ensures if |val| <= 255 then TrimComment(val) == val
            else |TrimComment(val)| == 256 && TrimComment(val)[..253] == val[..253]
  {
    if |val| > COMMENT_LIMIT { assert |TrimComment(val)| == |val[0..253]| + 3; }
  }

  /** The host ports of one protocol, in order. */
  function PortsOf(entries: seq<PortMapEntry>, proto: string): seq<int> {
    if entries == [] then []
    else
      var last := entries[|entries| - 1];
      PortsOf(entries[..|entries| - 1], proto) + (if last.protocol == proto then [last.hostPort] else [])
  }

  predicate HasProto(entries: seq<PortMapEntry>, proto: string) {
    exists i :: 0 <= i < |entries| && entries[i].protocol == proto
  }

  method GroupByProto(entries: seq<PortMapEntry>) returns (out: map<string, seq<int>>)
    ensures forall proto :: proto in out <==> HasProto(entries, proto)
    ensures forall proto :: proto in out ==> out[proto] == PortsOf(entries, proto)
  {
    out := map[];
    for i := 0 to |entries|
      invariant forall proto :: proto in out <==> HasProto(entries[..i], proto)
      invariant forall proto :: PortsOf(entries[..i], proto) == if proto in out then out[proto] else []
    {
      var e := entries[i];
      GroupStep(entries, i);
      if e.protocol in out {
        out := out[e.protocol := out[e.protocol] + [e.hostPort]];
      } else {
        out := out[e.protocol := [e.hostPort]];
      }
    }
    assert entries[..|entries|] == entries;
  }

  lemma GroupStep(entries: seq<PortMapEntry>, i: nat)
    requires i < |entries|
    ensures forall proto ::
      HasProto(entries[..i + 1], proto) <==> HasProto(entries[..i], proto) || proto == entries[i].protocol
    ensures forall proto :: PortsOf(entries[..i + 1], proto) ==
              PortsOf(entries[..i], proto) + if entries[i].protocol == proto then [entries[i].hostPort] else []
  {
    assert entries[..i + 1][..i] == entries[..i];
    forall proto
      ensures HasProto(entries[..i + 1], proto) <==> HasProto(entries[..i], proto) || proto == entries[i].protocol
    {
      assert entries[..i + 1][i] == entries[i];
      assert forall k :: 0 <= k < i ==> entries[..i + 1][k] == entries[..i][k];
    }
  }

  /** A port list in pieces that one multiport match can take. */
  function Chunks(l: seq<int>): seq<seq<int>> {
    if l == [] then []
    else if |l| <= MULTIPORT_LIMIT then [l]
    else [l[..MULTIPORT_LIMIT]] + Chunks(l[MULTIPORT_LIMIT..])
  }

  method SplitPortList(l: seq<int>) returns (out: seq<seq<int>>)
    ensures out == Chunks(l)
  {
    out := [];
    var acc := [];
    assert acc + l[0..] == l;
    for i := 0 to |l|
      invariant |acc| < MULTIPORT_LIMIT && Chunks(l) == out + Chunks(acc + l[i..])
    {
      assert acc + l[i..] == acc + [l[i]] + l[i + 1..];
      acc := acc + [l[i]];
      if |acc| == MULTIPORT_LIMIT {
        FullChunk(acc, l[i + 1..]);
        out := out + [acc];
        acc := [];
        assert [] + l[i + 1..] == l[i + 1..];
      }
    }
    assert acc + l[|l|..] == acc;
    if |acc| > 0 { out := out + [acc]; }
  }

  lemma FullChunk(acc: seq<int>, rest: seq<int>)
    requires |acc| == MULTIPORT_LIMIT
    ensures Chunks(acc + rest) == [acc] + Chunks(rest)
  {
    if rest == [] {
      assert acc + rest == acc;
    } else {
      assert (acc + rest)[..MULTIPORT_LIMIT] == acc && (acc + rest)[MULTIPORT_LIMIT..] == rest;
    }
  }

  function Flatten(chunks: seq<seq<int>>): seq<int> { if chunks == [] then [] else chunks[0] + Flatten(chunks[1..]) }

  /** Splitting keeps every port in order, in pieces that are not empty and not too long. */
  lemma {:induction false} ChunksFacts(l: seq<int>)
    ensures Flatten(Chunks(l)) == l
    ensures forall i :: 0 <= i < |Chunks(l)| ==> 0 < |Chunks(l)[i]| <= 15
    ensures forall i :: 0 <= i < |Chunks(l)| - 1 ==> |Chunks(l)[i]| == 15
  {
    if l == [] {
    } else if |l| <= MULTIPORT_LIMIT {
      assert [l][1..] == [];
    } else {
      ChunksFacts(l[MULTIPORT_LIMIT..]);
      assert Chunks(l)[1..] == Chunks(l[MULTIPORT_LIMIT..]);
      assert l == l[..MULTIPORT_LIMIT] + l[MULTIPORT_LIMIT..];
    }
  }

  lemma {:induction false} ChunkOfPort(l: seq<int>, port: int)
    ensures port in l <==> exists i :: 0 <= i < |Chunks(l)| && port in Chunks(l)[i]
  {
    if l == [] {
    } else if |l| <= MULTIPORT_LIMIT {
      assert Chunks(l)[0] == l;
    } else {
      var rest := l[MULTIPORT_LIMIT..];
      ChunkOfPort(rest, port);
      assert l == l[..MULTIPORT_LIMIT] + rest;
      assert Chunks(l)[0] == l[..MULTIPORT_LIMIT];
      assert forall i :: 0 <= i < |Chunks(rest)| ==> Chunks(l)[i + 1] == Chunks(rest)[i];
      if i :| 0 <= i < |Chunks(l)| && port in Chunks(l)[i] && i > 0 {
        assert port in Chunks(rest)[i - 1];
      }
    }
  }

  lemma {:induction false} PortsOfMembers(entries: seq<PortMapEntry>, proto: string, port: int)
    ensures port in PortsOf(entries, proto) <==>
            exists i :: 0 <= i < |entries| && entries[i].protocol == proto && entries[i].hostPort == port
  {
    if entries != [] {
      var init := entries[..|entries| - 1];
      PortsOfMembers(init, proto, port);
      assert forall i :: 0 <= i < |init| ==> init[i] == entries[i];
      if i :| 0 <= i < |entries| && entries[i].protocol == proto && entries[i].hostPort == port && i < |init| {
        assert init[i].protocol == proto;
      }
    }
  }

  // ---------- portmap.go: generating the chains ----------

  function GenToplevelDnatChain(): Chain {
    Chain(TOP_LEVEL_DNAT, ["PREROUTING", "OUTPUT"], [[DstLocal]], [], false)
  }

  /** The container's chain; its name, a hash of network and container, is given. */
  function GenDnatChain(name: string): Chain { Chain(name, [TOP_LEVEL_DNAT], [], [], false) }

  function GenSetMarkChain(bit: nat): Chain {
    Chain(SET_MARK, [], [], [Rule([Comment("CNI portfwd masquerade mark")], SetMark(bit))], false)
  }

  function GenMarkMasqChain(bit: nat): Chain {
    Chain(MARK_MASQ, ["POSTROUTING"], [[Comment("CNI portfwd requiring masquerade")]],
          [Rule([MarkSet(bit)], Masquerade)], true)
  }

  function SetMarkChainOf(config: PortMapConf): string {
    if config.externalSetMarkChain.Some? then config.externalSetMarkChain.value else SET_MARK
  }

  function ConditionsOf(config: PortMapConf, isV6: bool): seq<Match> {
    var c := if isV6 then config.conditionsV6 else config.conditionsV4;
    if c.Some? && |c.value| > 0 then [Condition(c.value)] else []
  }

  function CommentOf(config: PortMapConf): string {
    "dnat name: \"" + config.name + "\" id: \"" + config.containerID + "\""
  }

  function EntryRule(config: PortMapConf, isV6: bool, proto: string, ports: seq<int>): seq<Match> {
    [Comment(TrimComment(CommentOf(config))), Proto(proto), DestPorts(ports)] + ConditionsOf(config, isV6)
  }

  function ChunkRules(config: PortMapConf, isV6: bool, proto: string, chunks: seq<seq<int>>): (r: seq<seq<Match>>)
    ensures |r| == |chunks| && forall i :: 0 <= i < |r| ==> r[i] == EntryRule(config, isV6, proto, chunks[i])
  {
    seq(|chunks|, i requires 0 <= i < |chunks| => EntryRule(config, isV6, proto, chunks[i]))
  }

  /** The entry rules of the given protocols, one after the other. */
  function EntryRules(config: PortMapConf, isV6: bool, protos: seq<string>): seq<seq<Match>> {
    if protos == [] then []
    else
      var proto := protos[|protos| - 1];
      EntryRules(config, isV6, protos[..|protos| - 1])
      + ChunkRules(config, isV6, proto, Chunks(PortsOf(config.portMaps, proto)))
  }

  /** A mapping with a host address is for that address's family only. */
  predicate FamilyFits(e: PortMapEntry, isV6: bool) { e.hostIP.Some? ==> IsV6(e.hostIP.value) == isV6 }

  function RuleBase(e: PortMapEntry): seq<Match> {
    [Proto(e.protocol), DPort(e.hostPort)]
    + if e.hostIP.Some? && !IsUnspecified(e.hostIP.value) then [DstIs(e.hostIP.value)] else []
  }

  function MarkRules(config: PortMapConf, net: IPNet, e: PortMapEntry): seq<Rule> {
    if !config.snat then []
    else
      [Rule(RuleBase(e) + [SrcNet(net.ip, net.mask)], Jump(SetMarkChainOf(config)))]
      + if IsV6(net.ip) then [] else [Rule(RuleBase(e) + [SrcIs(LOCALHOST)], Jump(SetMarkChainOf(config)))]
  }

  function MappingRules(config: PortMapConf, net: IPNet, e: PortMapEntry): seq<Rule> {
    if !FamilyFits(e, IsV6(net.ip)) then []
    else MarkRules(config, net, e) + [Rule(RuleBase(e), DNAT(net.ip, e.containerPort))]
  }

  function DnatRules(config: PortMapConf, net: IPNet, entries: seq<PortMapEntry>): seq<Rule> {
    if entries == [] then [] else MappingRules(config, net, entries[0]) + DnatRules(config, net, entries[1..])
  }

  /** Every protocol of the mappings, once, in some order. */
  ghost predicate ProtosOf(entries: seq<PortMapEntry>, protos: seq<string>) {
    && (forall i, j :: 0 <= i < j < |protos| ==> protos[i] != protos[j])
    && forall proto :: proto in protos <==> HasProto(entries, proto)
  }

  /** Fills in entry rules and rules. Which order the protocols come in is left open here. */
  method FillDnatRules(c: Chain, config: PortMapConf, net: IPNet) returns (filled: Chain, protos: seq<string>)
    ensures ProtosOf(config.portMaps, protos)
    ensures filled == c.(entryRules := c.entryRules + EntryRules(config, IsV6(net.ip), protos),
                         rules := DnatRules(config, net, config.portMaps))
  {
    var entryRules;
    entryRules, protos := FillEntryRules(config, IsV6(net.ip));
    var rules := [];
    var entries := config.portMaps;
    for i := 0 to |entries|
      invariant DnatRules(config, net, entries) == rules + DnatRules(config, net, entries[i..])
    {
      assert entries[i..][0] == entries[i] && entries[i..][1..] == entries[i + 1..];
      var more := RulesOfMapping(config, net, entries[i]);
      rules := rules + more;
    }
    filled := c.(entryRules := c.entryRules + entryRules, rules := rules);
  }

  /** The rules of one mapping: mark hairpin, mark localhost (for IPv4), redirect. */
  method RulesOfMapping(config: PortMapConf, net: IPNet, e: PortMapEntry) returns (rules: seq<Rule>)
    ensures rules == MappingRules(config, net, e)
  {
    rules := [];
    if e.hostIP.Some? && IsV6(e.hostIP.value) != IsV6(net.ip) { return; }
    var addRuleBaseDst := e.hostIP.Some? && !IsUnspecified(e.hostIP.value);
    var ruleBase := [Proto(e.protocol), DPort(e.hostPort)];
    if addRuleBaseDst { ruleBase := ruleBase + [DstIs(e.hostIP.value)]; }
    assert ruleBase == RuleBase(e);
    if config.snat {
      rules := rules + [Rule(ruleBase + [SrcNet(net.ip, net.mask)], Jump(SetMarkChainOf(config)))];
      if !IsV6(net.ip) {
        rules := rules + [Rule(ruleBase + [SrcIs(LOCALHOST)], Jump(SetMarkChainOf(config)))];
      }
    }
    assert rules == MarkRules(config, net, e);
    rules := rules + [Rule(ruleBase, DNAT(net.ip, e.containerPort))];
  }

  method FillEntryRules(config: PortMapConf, isV6: bool) returns (entryRules: seq<seq<Match>>, protos: seq<string>)
    ensures ProtosOf(config.portMaps, protos) && entryRules == EntryRules(config, isV6, protos)
  {
    var protoPorts := GroupByProto(config.portMaps);
    var left := protoPorts.Keys;
    entryRules, protos := [], [];
    while left != {}
      invariant left <= protoPorts.Keys
      invariant forall proto :: proto in protos <==> proto in protoPorts && proto !in left
      invariant forall i, j :: 0 <= i < j < |protos| ==> protos[i] != protos[j]
      invariant entryRules == EntryRules(config, isV6, protos)
      decreases left
    {
      var proto :| proto in left;
      var more := ProtoRules(config, isV6, proto, protoPorts[proto]);
      entryRules := entryRules + more;
      assert (protos + [proto])[..|protos|] == protos;
      protos := protos + [proto];
      left := left - {proto};
    }
  }

  method ProtoRules(config: PortMapConf, isV6: bool, proto: string, ports: seq<int>) returns (rules: seq<seq<Match>>)
    ensures rules == ChunkRules(config, isV6, proto, Chunks(ports))
  {
    var specs := SplitPortList(ports);
    rules := [];
    for i := 0 to |specs|
      invariant rules == ChunkRules(config, isV6, proto, specs)[..i]
    {
      rules := rules + [EntryRule(config, isV6, proto, specs[i])];
    }
  }

  // ---------- What the mappings mean ----------

  predicate MappingMatches(e: PortMapEntry, isV6: bool, p: Packet) {
    && FamilyFits(e, isV6)
    && p.proto == e.protocol && p.dport == e.hostPort
    && (e.hostIP.Some? && !IsUnspecified(e.hostIP.value) ==> Equal(p.dst, e.hostIP.value))
  }

  function FirstMapping(entries: seq<PortMapEntry>, isV6: bool, p: Packet): Option<PortMapEntry> {
    if entries == [] then None
    else if MappingMatches(entries[0], isV6, p) then Some(entries[0])
    else FirstMapping(entries[1..], isV6, p)
  }

  predicate NeedsMasquerade(config: PortMapConf, net: IPNet, p: Packet) {
    config.snat && (NetContains(net.ip, net.mask, p.src) || (!IsV6(net.ip) && Equal(p.src, LOCALHOST)))
  }

  predicate ConditionsHold(config: PortMapConf, isV6: bool, p: Packet) {
    forall m :: m in ConditionsOf(config, isV6) ==> Matches(m, p)
  }

  /** To the container port of the first mapping that matches, marked if it is to be masqueraded. */
  function Mapped(config: PortMapConf, net: IPNet, entries: seq<PortMapEntry>, p: Packet): Outcome {
    match FirstMapping(entries, IsV6(net.ip), p)
    case None => Outcome(p, Through)
    case Some(e) =>
      Outcome(if NeedsMasquerade(config, net, p) then Marked(p, config.markMasqBit) else p,
              Redirected(net.ip, e.containerPort))
  }

  function Forwarded(config: PortMapConf, net: IPNet, p: Packet): Outcome {
    if ConditionsHold(config, IsV6(net.ip), p) then Mapped(config, net, config.portMaps, p) else Outcome(p, Through)
  }

  function Marked(p: Packet, bit: nat): Packet { p.(marks := p.marks + {bit}) }

  /** The chain sets the mark bit, does nothing else, and comes back. */
  ghost predicate Marks(t: Table, depth: nat, chain: string, bit: nat) {
    forall p {:trigger EvalChain(t, depth, chain, p)} ::
      EvalChain(t, depth, chain, p) == Outcome(Marked(p, bit), Through)
  }

  // ---------- The container's chain ----------

  lemma MatchesAppend(a: seq<Match>, b: seq<Match>, target: Target, p: Packet)
    ensures RuleMatches(Rule(a + b, target), p) <==> RuleMatches(Rule(a, target), p) && RuleMatches(Rule(b, target), p)
  {
  }

  lemma BaseMatches(e: PortMapEntry, isV6: bool, target: Target, p: Packet)
    requires FamilyFits(e, isV6)
    ensures RuleMatches(Rule(RuleBase(e), target), p) <==> MappingMatches(e, isV6, p)
  {
    var b, dst := RuleBase(e), e.hostIP.Some? && !IsUnspecified(e.hostIP.value);
    assert b[0] == Proto(e.protocol) && b[1] == DPort(e.hostPort) && (dst ==> b[2] == DstIs(e.hostIP.value));
    assert forall i :: 0 <= i < |b| ==> b[i] in b;
    assert forall m :: m in b ==> m == b[0] || m == b[1] || (dst && m == b[2]);
    assert Matches(b[0], p) <==> p.proto == e.protocol;
    assert Matches(b[1], p) <==> p.dport == e.hostPort;
    assert dst ==> (Matches(b[2], p) <==> Equal(p.dst, e.hostIP.value));
    assert RuleMatches(Rule(b, target), p) <==> Matches(b[0], p) && Matches(b[1], p) && (dst ==> Matches(b[2], p));
  }

  lemma WithSourceMatches(e: PortMapEntry, isV6: bool, m: Match, target: Target, p: Packet)
    requires FamilyFits(e, isV6)
    ensures RuleMatches(Rule(RuleBase(e) + [m], target), p) <==> MappingMatches(e, isV6, p) && Matches(m, p)
  {
    MatchesAppend(RuleBase(e), [m], target, p);
    BaseMatches(e, isV6, target, p);
    assert m in [m];
  }

  lemma {:induction false} EvalOne(t: Table, depth: nat, r: Rule, p: Packet)
    ensures Eval(t, depth, [r], p) == EvalRule(t, depth, r, p)
  {
    var o := EvalRule(t, depth, r, p);
    assert [r][1..] == [];
    assert Eval(t, depth, [r][1..], o.packet) == Outcome(o.packet, Through);
  }

  /** The mark rules of one mapping. */
  lemma MarkRulesMean(t: Table, depth: nat, config: PortMapConf, net: IPNet, e: PortMapEntry, p: Packet)
    requires FamilyFits(e, IsV6(net.ip)) && depth > 0
    requires config.snat ==> Marks(t, depth - 1, SetMarkChainOf(config), config.markMasqBit)
    ensures Eval(t, depth, MarkRules(config, net, e), p) ==
            Outcome(if MappingMatches(e, IsV6(net.ip), p) && NeedsMasquerade(config, net, p)
                    then Marked(p, config.markMasqBit) else p, Through)
  {
    if config.snat {
      var v6, jump := IsV6(net.ip), Jump(SetMarkChainOf(config));
      var hairpin := Rule(RuleBase(e) + [SrcNet(net.ip, net.mask)], jump);
      var local := Rule(RuleBase(e) + [SrcIs(LOCALHOST)], jump);
      var o := EvalRule(t, depth, hairpin, p);
      WithSourceMatches(e, v6, SrcNet(net.ip, net.mask), jump, p);
      EvalOne(t, depth, hairpin, p);
      if !v6 {
        WithSourceMatches(e, v6, SrcIs(LOCALHOST), jump, o.packet);
        EvalAppend(t, depth, [hairpin], [local], p);
        EvalOne(t, depth, local, o.packet);
        assert Marked(Marked(p, config.markMasqBit), config.markMasqBit) == Marked(p, config.markMasqBit);
      } else {
        assert MarkRules(config, net, e) == [hairpin];
      }
    }
  }

  lemma MappingRulesMean(t: Table, depth: nat, config: PortMapConf, net: IPNet, e: PortMapEntry, p: Packet)
    requires depth > 0 && (config.snat ==> Marks(t, depth - 1, SetMarkChainOf(config), config.markMasqBit))
    ensures Eval(t, depth, MappingRules(config, net, e), p) ==
            if MappingMatches(e, IsV6(net.ip), p)
            then Outcome(if NeedsMasquerade(config, net, p) then Marked(p, config.markMasqBit) else p,
                         Redirected(net.ip, e.containerPort))
            else Outcome(p, Through)
  {
    if FamilyFits(e, IsV6(net.ip)) {
      var dnat := Rule(RuleBase(e), DNAT(net.ip, e.containerPort));
      MarkRulesMean(t, depth, config, net, e, p);
      var q := Eval(t, depth, MarkRules(config, net, e), p).packet;
      EvalAppend(t, depth, MarkRules(config, net, e), [dnat], p);
      EvalOne(t, depth, dnat, q);
      BaseMatches(e, IsV6(net.ip), dnat.target, q);
    }
  }

  /** The container's rules redirect to the first mapping that matches and leave other packets alone. */
  lemma {:induction false} DnatRulesMean(t: Table, depth: nat, config: PortMapConf, net: IPNet,
                                         entries: seq<PortMapEntry>, p: Packet)
    requires depth > 0 && (config.snat ==> Marks(t, depth - 1, SetMarkChainOf(config), config.markMasqBit))
    ensures Eval(t, depth, DnatRules(config, net, entries), p) == Mapped(config, net, entries, p)
  {
    if entries != [] {
      EvalAppend(t, depth, MappingRules(config, net, entries[0]), DnatRules(config, net, entries[1..]), p);
      MappingRulesMean(t, depth, config, net, entries[0], p);
      DnatRulesMean(t, depth, config, net, entries[1..], p);
    }
  }

  // ---------- ... in the terms of the configuration ----------

  /** The extra conditions of the container's own family, if any are configured, hold for the packet. */
  predicate OwnConditions(config: PortMapConf, net: IPNet, p: Packet) {
    var c := if To4(net.ip).Some? then config.conditionsV4 else config.conditionsV6;
    c.None? || c.value == [] || c.value in p.held
  }

  lemma ConditionsExactly(config: PortMapConf, net: IPNet, p: Packet)
    ensures ConditionsHold(config, IsV6(net.ip), p) <==> OwnConditions(config, net, p)
  {
    var c := if To4(net.ip).Some? then config.conditionsV4 else config.conditionsV6;
    if c.Some? && |c.value| > 0 {
      assert ConditionsOf(config, IsV6(net.ip)) == [Condition(c.value)];
      assert Condition(c.value) in ConditionsOf(config, IsV6(net.ip));
      assert Matches(Condition(c.value), p) <==> c.value in p.held;
    }
  }

  /** The mapping has the packet's protocol and port, and its host address, if it has one, is of the container's
      family and either unspecified or the packet's destination. */
  predicate Hits(e: PortMapEntry, net: IPNet, p: Packet) {
    && e.protocol == p.proto && e.hostPort == p.dport
    && match e.hostIP
       case None => true
       case Some(h) =>
         && To4(h).Some? == To4(net.ip).Some?
         && (To4(h) == Some([0, 0, 0, 0]) || h == seq(16, _ => 0) || Equal(p.dst, h))
  }

  lemma HitsExactly(e: PortMapEntry, net: IPNet, p: Packet)
    ensures MappingMatches(e, IsV6(net.ip), p) <==> Hits(e, net, p)
  {
    if e.hostIP.Some? {
      var h, zeros := e.hostIP.value, seq(16, _ => 0);
      assert zeros[10] == 0 && !IsV4InV6(zeros);
      assert Equal(h, [0, 0, 0, 0]) <==> To4(h) == Some([0, 0, 0, 0]);
    }
  }

  /** The first mapping that hits. */
  predicate FirstHit(config: PortMapConf, net: IPNet, p: Packet, i: nat) {
    && i < |config.portMaps| && Hits(config.portMaps[i], net, p)
    && forall j :: 0 <= j < i ==> !Hits(config.portMaps[j], net, p)
  }

  lemma {:induction false} FirstMappingExactly(entries: seq<PortMapEntry>, net: IPNet, p: Packet)
    ensures FirstMapping(entries, IsV6(net.ip), p).None? <==>
            forall i :: 0 <= i < |entries| ==> !Hits(entries[i], net, p)
    ensures forall i :: 0 <= i < |entries| && Hits(entries[i], net, p)
                        && (forall j :: 0 <= j < i ==> !Hits(entries[j], net, p)) ==>
              FirstMapping(entries, IsV6(net.ip), p) == Some(entries[i])
  {
    if entries != [] {
      HitsExactly(entries[0], net, p);
      FirstMappingExactly(entries[1..], net, p);
      assert forall i :: 0 < i < |entries| ==> entries[i] == entries[1..][i - 1];
      assert forall i :: 0 <= i < |entries[1..]| ==> entries[1..][i] == entries[i + 1];
    }
  }

  /** Outside its family's conditions, or hit by no mapping, a packet goes through unchanged; else it is redirected to
      the container's address and the container port of the first mapping that hits, and marked if SNAT is on and
      it comes from the container's net or, for IPv4, from 127.0.0.1. */
  lemma ForwardedExactly(config: PortMapConf, net: IPNet, p: Packet)
    ensures !OwnConditions(config, net, p) ==> Forwarded(config, net, p) == Outcome(p, Through)
    ensures (forall i: nat :: !FirstHit(config, net, p, i)) ==> Forwarded(config, net, p) == Outcome(p, Through)
    ensures forall i: nat :: OwnConditions(config, net, p) && FirstHit(config, net, p, i) ==>
              var local := To4(net.ip).Some? && Equal(p.src, [127, 0, 0, 1]);
              Forwarded(config, net, p) ==
              Outcome(if config.snat && (NetContains(net.ip, net.mask, p.src) || local)
                      then p.(marks := p.marks + {config.markMasqBit}) else p,
                      Redirected(net.ip, config.portMaps[i].containerPort))
  {
    ConditionsExactly(config, net, p);
    FirstMappingExactly(config.portMaps, net, p);
    if i :| 0 <= i < |config.portMaps| && Hits(config.portMaps[i], net, p) {
      var k := LeastHit(config, net, p, i);
    }
  }

  lemma {:induction false} LeastHit(config: PortMapConf, net: IPNet, p: Packet, i: nat) returns (k: nat)
    requires i < |config.portMaps| && Hits(config.portMaps[i], net, p)
    ensures FirstHit(config, net, p, k)
    decreases i
  {
    if j :| 0 <= j < i && Hits(config.portMaps[j], net, p) { k := LeastHit(config, net, p, j); } else { k := i; }
  }

  /** Every rule redirects to the container, at the container port of a mapping, or jumps to the chain that sets the
      mark: the configured external one, or the plugin's own. */
  lemma {:induction false} TargetsExactly(config: PortMapConf, net: IPNet, entries: seq<PortMapEntry>, r: Rule)
    requires r in DnatRules(config, net, entries)
    ensures (exists i :: 0 <= i < |entries| && r.target == DNAT(net.ip, entries[i].containerPort))
            || (config.snat && r.target == Jump(if config.externalSetMarkChain.Some?
                                                then config.externalSetMarkChain.value else "CNI-HOSTPORT-SETMARK"))
  {
    if r in MappingRules(config, net, entries[0]) {
      assert r.target.DNAT? ==> r.target == DNAT(net.ip, entries[0].containerPort);
    } else {
      TargetsExactly(config, net, entries[1..], r);
      assert forall i :: 0 <= i < |entries[1..]| ==> entries[1..][i] == entries[i + 1];
    }
  }

  // ---------- Dropping duplicate rules loses nothing ----------

  /** The rule does nothing to the packet. */
  predicate Idle(t: Table, depth: nat, r: Rule, p: Packet) { EvalRule(t, depth, r, p) == Outcome(p, Through) }

  /** Once it has let a packet through, the rule has no more to do, and other rules do not change that. */
  ghost predicate Settles(t: Table, depth: nat, rules: seq<Rule>) {
    && (forall r, p {:trigger EvalRule(t, depth, r, p)} ::
          r in rules && EvalRule(t, depth, r, p).verdict.Through? ==>
            Idle(t, depth, r, EvalRule(t, depth, r, p).packet))
    && (forall r, r', p {:trigger Idle(t, depth, r, p), EvalRule(t, depth, r', p)} ::
          r in rules && r' in rules && Idle(t, depth, r, p) && EvalRule(t, depth, r', p).verdict.Through? ==>
            Idle(t, depth, r, EvalRule(t, depth, r', p).packet))
  }

  lemma {:induction false} IdleLater(t: Table, depth: nat, all: seq<Rule>, rules: seq<Rule>, r: Rule, p: Packet)
    requires Settles(t, depth, all) && (forall x :: x in rules ==> x in all) && r in all
    requires r in rules || Idle(t, depth, r, p)
    ensures var o := Eval(t, depth, rules, p); o.verdict.Through? ==> Idle(t, depth, r, o.packet)
    decreases |rules|
  {
    if rules != [] {
      var o := EvalRule(t, depth, rules[0], p);
      assert rules[0] in all;
      if o.verdict.Through? {
        assert forall x :: x in rules[1..] ==> x in rules;
        assert r == rules[0] || r in rules[1..] || Idle(t, depth, r, p);
        IdleLater(t, depth, all, rules[1..], r, o.packet);
      }
    }
  }

  lemma {:induction false} FreshMeansSame(t: Table, depth: nat, all: seq<Rule>, rules: seq<Rule>, p: Packet)
    requires Settles(t, depth, all) && forall r :: r in rules ==> r in all
    ensures Eval(t, depth, Fresh([], rules), p) == Eval(t, depth, rules, p)
    decreases |rules|
  {
    if rules != [] {
      var init, last := rules[..|rules| - 1], rules[|rules| - 1];
      assert rules == init + [last] && forall r :: r in init ==> r in rules;
      FreshMeansSame(t, depth, all, init, p);
      FreshMembers([], init, last);
      EvalAppend(t, depth, init, [last], p);
      EvalAppend(t, depth, Fresh([], init), [last], p);
      var o := Eval(t, depth, init, p);
      EvalOne(t, depth, last, o.packet);
      if last in init { IdleLater(t, depth, all, init, last, p); }
    }
  }

  /** The rules of mappings: redirect, or mark and come back, by tests that do not look at the marks. */
  predicate Simple(r: Rule, setMark: string) {
    (forall m :: m in r.matches ==> !m.MarkSet?) && (r.target.DNAT? || r.target == Jump(setMark))
  }

  lemma MatchIgnoresMarks(r: Rule, p: Packet, bit: nat)
    requires forall m :: m in r.matches ==> !m.MarkSet?
    ensures RuleMatches(r, Marked(p, bit)) <==> RuleMatches(r, p)
  {
    forall m | m in r.matches ensures Matches(m, Marked(p, bit)) <==> Matches(m, p) { }
    assert RuleMatches(r, p) ==> forall m :: m in r.matches ==> Matches(m, Marked(p, bit));
    assert RuleMatches(r, Marked(p, bit)) ==> forall m :: m in r.matches ==> Matches(m, p);
  }

  lemma SimpleStep(t: Table, depth: nat, r: Rule, setMark: string, bit: nat, p: Packet)
    requires depth > 0 && Simple(r, setMark) && (r.target.Jump? ==> Marks(t, depth - 1, setMark, bit))
    ensures EvalRule(t, depth, r, p) ==
            if !RuleMatches(r, p) then Outcome(p, Through)
            else if r.target.DNAT? then Outcome(p, Redirected(r.target.ip, r.target.port))
            else Outcome(Marked(p, bit), Through)
    ensures Idle(t, depth, r, p) <==> !RuleMatches(r, p) || (r.target.Jump? && bit in p.marks)
  {
    if r.target.Jump? { assert EvalChain(t, depth - 1, setMark, p) == Outcome(Marked(p, bit), Through); }
    assert bit in p.marks ==> p.marks + {bit} == p.marks;
    assert bit in Marked(p, bit).marks;
  }

  lemma SimpleSettles(t: Table, depth: nat, rules: seq<Rule>, setMark: string, bit: nat)
    requires depth > 0
    requires forall r :: r in rules ==> Simple(r, setMark) && (r.target.Jump? ==> Marks(t, depth - 1, setMark, bit))
    ensures Settles(t, depth, rules)
  {
    forall r, p | r in rules && EvalRule(t, depth, r, p).verdict.Through?
      ensures Idle(t, depth, r, EvalRule(t, depth, r, p).packet)
    {
      SimpleStep(t, depth, r, setMark, bit, p);
      SimpleStep(t, depth, r, setMark, bit, EvalRule(t, depth, r, p).packet);
    }
    forall r, r', p | r in rules && r' in rules && Idle(t, depth, r, p) && EvalRule(t, depth, r', p).verdict.Through?
      ensures Idle(t, depth, r, EvalRule(t, depth, r', p).packet)
    {
      SimpleStep(t, depth, r, setMark, bit, p);
      SimpleStep(t, depth, r', setMark, bit, p);
      SimpleStep(t, depth, r, setMark, bit, EvalRule(t, depth, r', p).packet);
      MatchIgnoresMarks(r, p, bit);
    }
  }

  lemma {:induction false} DnatRulesSimple(config: PortMapConf, net: IPNet, entries: seq<PortMapEntry>, r: Rule)
    requires r in DnatRules(config, net, entries)
    ensures Simple(r, SetMarkChainOf(config)) && (r.target.Jump? ==> config.snat)
  {
    if r in MappingRules(config, net, entries[0]) {
      MappingRulesSimple(config, net, entries[0], r);
    } else {
      DnatRulesSimple(config, net, entries[1..], r);
    }
  }

  lemma MappingRulesSimple(config: PortMapConf, net: IPNet, e: PortMapEntry, r: Rule)
    requires r in MappingRules(config, net, e)
    ensures Simple(r, SetMarkChainOf(config)) && (r.target.Jump? ==> config.snat)
  {
    assert forall m :: m in RuleBase(e) ==> !m.MarkSet?;
  }

  /** The chain as setup leaves it: each rule once. */
  lemma ContainerChainMeans(t: Table, depth: nat, config: PortMapConf, net: IPNet, name: string, p: Packet)
    requires depth > 0 && (config.snat ==> Marks(t, depth - 1, SetMarkChainOf(config), config.markMasqBit))
    requires name in t && t[name] == Fresh([], DnatRules(config, net, config.portMaps))
    ensures EvalChain(t, depth, name, p) == Mapped(config, net, config.portMaps, p)
  {
    var rules := DnatRules(config, net, config.portMaps);
    forall r | r in rules
      ensures Simple(r, SetMarkChainOf(config))
              && (r.target.Jump? ==> Marks(t, depth - 1, SetMarkChainOf(config), config.markMasqBit))
    {
      DnatRulesSimple(config, net, config.portMaps, r);
    }
    SimpleSettles(t, depth, rules, SetMarkChainOf(config), config.markMasqBit);
    FreshMeansSame(t, depth, rules, rules, p);
    DnatRulesMean(t, depth, config, net, config.portMaps, p);
  }

  // ---------- The entry rules ----------

  predicate SomeMatch(rules: seq<Rule>, p: Packet) { exists i :: 0 <= i < |rules| && RuleMatches(rules[i], p) }

  /** Rules that all jump to one chain run it if any of them matches: running it again changes nothing. */
  lemma {:induction false} JumpsMean(t: Table, depth: nat, rules: seq<Rule>, name: string, p: Packet)
    requires depth > 0 && AllJump(rules, name)
    requires EvalChain(t, depth - 1, name, p).verdict.Through? ==> EvalChain(t, depth - 1, name, p).packet == p
    ensures Eval(t, depth, rules, p) ==
            if SomeMatch(rules, p) then EvalChain(t, depth - 1, name, p) else Outcome(p, Through)
    decreases |rules|
  {
    if rules != [] {
      var rest := rules[1..];
      assert JumpsTo(rules[0], name);
      assert AllJump(rest, name) by {
        forall i | 0 <= i < |rest| ensures JumpsTo(rest[i], name) { assert rest[i] == rules[i + 1]; }
      }
      JumpsMean(t, depth, rest, name, p);
      assert SomeMatch(rules, p) <==> RuleMatches(rules[0], p) || SomeMatch(rest, p) by {
        if i :| 0 <= i < |rest| && RuleMatches(rest[i], p) { assert RuleMatches(rules[i + 1], p); }
        if i :| 0 <= i < |rules| && RuleMatches(rules[i], p) && i > 0 { assert RuleMatches(rest[i - 1], p); }
      }
    }
  }

  predicate PortMapped(entries: seq<PortMapEntry>, p: Packet) {
    exists i :: 0 <= i < |entries| && entries[i].protocol == p.proto && entries[i].hostPort == p.dport
  }

  lemma EntryRuleMatches(config: PortMapConf, isV6: bool, proto: string, ports: seq<int>, target: Target, p: Packet)
    ensures RuleMatches(Rule(EntryRule(config, isV6, proto, ports), target), p) <==>
            p.proto == proto && p.dport in ports && ConditionsHold(config, isV6, p)
  {
    var ms := EntryRule(config, isV6, proto, ports);
    var head := ms[..3];
    assert ms == head + ConditionsOf(config, isV6);
    MatchesAppend(head, ConditionsOf(config, isV6), target, p);
    assert head[1] == Proto(proto) && head[2] == DestPorts(ports);
    assert forall m :: m in head ==> m == head[0] || m == head[1] || m == head[2];
    assert Matches(head[0], p);
    assert Matches(head[1], p) <==> p.proto == proto;
    assert Matches(head[2], p) <==> p.dport in ports;
  }

  /** The entry rules of one protocol: the splitting loses no port. */
  lemma ChunkRulesMatch(config: PortMapConf, isV6: bool, proto: string, name: string, p: Packet)
    ensures var rules := Entries(ChunkRules(config, isV6, proto, Chunks(PortsOf(config.portMaps, proto))), name);
      SomeMatch(rules, p) <==> p.proto == proto && PortMapped(config.portMaps, p) && ConditionsHold(config, isV6, p)
  {
    var chunks := Chunks(PortsOf(config.portMaps, proto));
    var rules := Entries(ChunkRules(config, isV6, proto, chunks), name);
    forall i | 0 <= i < |chunks|
      ensures RuleMatches(rules[i], p) <==> p.proto == proto && p.dport in chunks[i] && ConditionsHold(config, isV6, p)
    {
      EntryRuleMatches(config, isV6, proto, chunks[i], Jump(name), p);
    }
    ChunkOfPort(PortsOf(config.portMaps, proto), p.dport);
    PortsOfMembers(config.portMaps, proto, p.dport);
  }

  lemma SomeMatchAppend(a: seq<Rule>, b: seq<Rule>, p: Packet)
    ensures SomeMatch(a + b, p) <==> SomeMatch(a, p) || SomeMatch(b, p)
  {
    if i :| 0 <= i < |a| && RuleMatches(a[i], p) { assert (a + b)[i] == a[i]; }
    if i :| 0 <= i < |b| && RuleMatches(b[i], p) { assert (a + b)[|a| + i] == b[i]; }
  }

  /** All entry rules: grouping by protocol loses no mapping. */
  lemma {:induction false} EntryRulesMatch(config: PortMapConf, isV6: bool, protos: seq<string>, name: string,
                                           p: Packet)
    ensures SomeMatch(Entries(EntryRules(config, isV6, protos), name), p) <==>
            p.proto in protos && PortMapped(config.portMaps, p) && ConditionsHold(config, isV6, p)
    decreases |protos|
  {
    if protos != [] {
      var init, last := protos[..|protos| - 1], protos[|protos| - 1];
      EntryRulesMatch(config, isV6, init, name, p);
      ChunkRulesMatch(config, isV6, last, name, p);
      var chunks := Chunks(PortsOf(config.portMaps, last));
      EntriesAppend(EntryRules(config, isV6, init), ChunkRules(config, isV6, last, chunks), name, p);
      LastOrBefore(protos, p.proto);
    }
  }

  lemma LastOrBefore(protos: seq<string>, proto: string)
    requires protos != []
    ensures proto in protos <==> proto in protos[..|protos| - 1] || proto == protos[|protos| - 1]
  {
    InAppended(protos[..|protos| - 1], protos[|protos| - 1], proto);
    assert protos == protos[..|protos| - 1] + [protos[|protos| - 1]];
  }

  lemma EntriesAppend(a: seq<seq<Match>>, b: seq<seq<Match>>, name: string, p: Packet)
    ensures SomeMatch(Entries(a + b, name), p) <==> SomeMatch(Entries(a, name), p) || SomeMatch(Entries(b, name), p)
  {
    assert Entries(a + b, name) == Entries(a, name) + Entries(b, name);
    SomeMatchAppend(Entries(a, name), Entries(b, name), p);
  }

  lemma {:induction false} MappedNeedsPort(config: PortMapConf, net: IPNet, entries: seq<PortMapEntry>, p: Packet)
    ensures Mapped(config, net, entries, p).verdict.Through? ==> Mapped(config, net, entries, p).packet == p
    ensures !PortMapped(entries, p) ==> Mapped(config, net, entries, p) == Outcome(p, Through)
    decreases |entries|
  {
    if entries != [] {
      MappedNeedsPort(config, net, entries[1..], p);
      if PortMapped(entries[1..], p) {
        var i :| 0 <= i < |entries[1..]| && entries[1..][i].protocol == p.proto && entries[1..][i].hostPort == p.dport;
        assert entries[i + 1] == entries[1..][i];
      }
      if MappingMatches(entries[0], IsV6(net.ip), p) { assert PortMapped(entries, p); }
    }
  }

  /** Entry rules and container chain together: the mappings, behind the conditions. */
  lemma EntriesMean(t: Table, depth: nat, config: PortMapConf, net: IPNet, name: string, rules: seq<Rule>, p: Packet)
    requires depth > 1 && (config.snat ==> Marks(t, depth - 2, SetMarkChainOf(config), config.markMasqBit))
    requires name in t && t[name] == Fresh([], DnatRules(config, net, config.portMaps))
    requires AllJump(rules, name)
    requires SomeMatch(rules, p) <==> PortMapped(config.portMaps, p) && ConditionsHold(config, IsV6(net.ip), p)
    ensures Eval(t, depth, rules, p) == Forwarded(config, net, p)
  {
    ContainerChainMeans(t, depth - 1, config, net, name, p);
    MappedNeedsPort(config, net, config.portMaps, p);
    JumpsMean(t, depth, rules, name, p);
  }

  lemma ProtoListed(config: PortMapConf, isV6: bool, protos: seq<string>, name: string, p: Packet)
    requires ProtosOf(config.portMaps, protos)
    ensures SomeMatch(Entries(EntryRules(config, isV6, protos), name), p) <==>
            PortMapped(config.portMaps, p) && ConditionsHold(config, isV6, p)
  {
    EntryRulesMatch(config, isV6, protos, name, p);
    if PortMapped(config.portMaps, p) { assert HasProto(config.portMaps, p.proto); }
  }

  // ---------- The whole table ----------

  function DnatChain(config: PortMapConf, net: IPNet, name: string, protos: seq<string>): Chain {
    GenDnatChain(name).(entryRules := EntryRules(config, IsV6(net.ip), protos),
                        rules := DnatRules(config, net, config.portMaps))
  }

  predicate Into(rules: seq<Rule>, chains: set<string>) {
    forall i {:trigger rules[i]} :: 0 <= i < |rules| && rules[i].target.Jump? ==> rules[i].target.chain in chains
  }

  /** The chains are there and jump to none but each other. */
  predicate Closed(t: Table, chains: set<string>) {
    forall k {:trigger k in chains} :: k in chains ==> k in t && Into(t[k], chains)
  }

  predicate Agree(t: Table, t': Table, chains: set<string>) {
    forall k {:trigger k in chains} :: k in chains ==> k in t && k in t' && t'[k] == t[k]
  }

  /** Rules mean the same in two tables that agree on the chains they can reach. */
  lemma {:induction false} EvalElsewhere(t: Table, t': Table, chains: set<string>, depth: nat, rules: seq<Rule>,
                                         p: Packet)
    requires Closed(t, chains) && Into(rules, chains) && Agree(t, t', chains)
    ensures Eval(t', depth, rules, p) == Eval(t, depth, rules, p)
    decreases depth, |rules|
  {
    if rules != [] {
      var r, rest := rules[0], rules[1..];
      if r.target.Jump? && depth > 0 {
        var k := r.target.chain;
        assert k in chains && t'[k] == t[k] && Into(t[k], chains);
        EvalElsewhere(t, t', chains, depth - 1, t[k], p);
      }
      assert EvalRule(t', depth, r, p) == EvalRule(t, depth, r, p);
      assert Into(rest, chains) by {
        forall i | 0 <= i < |rest| && rest[i].target.Jump? ensures rest[i].target.chain in chains {
          assert rest[i] == rules[i + 1];
        }
      }
      EvalElsewhere(t, t', chains, depth, rest, EvalRule(t, depth, r, p).packet);
    }
  }

  lemma FreshEntriesMatch(have: seq<Rule>, entries: seq<Rule>, name: string, p: Packet)
    requires !Refers(have, name) && AllJump(entries, name)
    ensures AllJump(Fresh(have, entries), name)
    ensures SomeMatch(Fresh(have, entries), p) <==> SomeMatch(entries, p)
  {
    var f := Fresh(have, entries);
    forall i | 0 <= i < |f| ensures JumpsTo(f[i], name) && f[i] in entries {
      FreshMembers(have, entries, f[i]);
    }
    if i :| 0 <= i < |entries| && RuleMatches(entries[i], p) {
      FreshMembers(have, entries, entries[i]);
      assert JumpsTo(entries[i], name);
      assert entries[i] in f;
    }
  }

  /** The top-level chain before the container's rules were added, of which no rule can tell the difference. */
  ghost predicate Before(t: Table, others: set<string>, depth: nat, config: PortMapConf, name: string) {
    && Consistent(t) && name !in t && TOP_LEVEL_DNAT in t && depth > 1
    && Closed(t, others) && TOP_LEVEL_DNAT !in others && Into(t[TOP_LEVEL_DNAT], others)
    && (config.snat ==> SetMarkChainOf(config) in others
                        && Marks(t, depth - 2, SetMarkChainOf(config), config.markMasqBit))
  }

  /** A packet goes where the rules that were there send it, and otherwise where the mappings do. */
  lemma TableMeaning(t: Table, t': Table, others: set<string>, depth: nat, config: PortMapConf, net: IPNet,
                     name: string, rules: seq<Rule>, p: Packet)
    requires Before(t, others, depth, config, name) && Agree(t, t', others)
    requires name in t' && t'[name] == Fresh([], DnatRules(config, net, config.portMaps))
    requires TOP_LEVEL_DNAT in t' && t'[TOP_LEVEL_DNAT] == t[TOP_LEVEL_DNAT] + rules && AllJump(rules, name)
    requires forall q ::
      SomeMatch(rules, q) <==> PortMapped(config.portMaps, q) && ConditionsHold(config, IsV6(net.ip), q)
    ensures Eval(t', depth, t'[TOP_LEVEL_DNAT], p) ==
            var o := Eval(t, depth, t[TOP_LEVEL_DNAT], p);
            if o.verdict.Through? then Forwarded(config, net, o.packet) else o
  {
    var have := t[TOP_LEVEL_DNAT];
    EvalElsewhere(t, t', others, depth, have, p);
    EvalAppend(t', depth, have, rules, p);
    if config.snat { MarksElsewhere(t, t', others, depth - 2, SetMarkChainOf(config), config.markMasqBit); }
    EntriesMean(t', depth, config, net, name, rules, Eval(t, depth, have, p).packet);
  }

  /** Main result. After the container's chain has been set up, a packet in the top-level chain goes where the
      rules that were there send it, and otherwise where the first matching mapping sends it. */
  lemma PortmapMeaning(t: Table, others: set<string>, depth: nat, config: PortMapConf, net: IPNet, name: string,
                       protos: seq<string>, p: Packet)
    requires Before(t, others, depth, config, name) && ProtosOf(config.portMaps, protos)
    requires SetUp(t, DnatChain(config, net, name, protos)).err.None?
    ensures var t' := SetUp(t, DnatChain(config, net, name, protos)).table;
      && TOP_LEVEL_DNAT in t'
      && Eval(t', depth, t'[TOP_LEVEL_DNAT], p) ==
         var o := Eval(t, depth, t[TOP_LEVEL_DNAT], p);
         if o.verdict.Through? then Forwarded(config, net, o.packet) else o
  {
    var t' := SetUp(t, DnatChain(config, net, name, protos)).table;
    DnatTable(t, config, net, name, protos);
    NewEntriesMatch(t[TOP_LEVEL_DNAT], config, IsV6(net.ip), name, protos);
    AbsentIsUnreferenced(t, name, TOP_LEVEL_DNAT);
    var rules := Added(t[TOP_LEVEL_DNAT], config, IsV6(net.ip), name, protos);
    TableMeaning(t, t', others, depth, config, net, name, rules, p);
  }

  /** So a packet that the earlier rules let through goes on unchanged outside the conditions of the container's
      family or where no mapping hits it, and else to the first mapping that does. */
  lemma PacketGoes(t: Table, others: set<string>, depth: nat, config: PortMapConf, net: IPNet, name: string,
                   protos: seq<string>, p: Packet)
    requires Before(t, others, depth, config, name) && ProtosOf(config.portMaps, protos)
    requires SetUp(t, DnatChain(config, net, name, protos)).err.None?
    requires Eval(t, depth, t[TOP_LEVEL_DNAT], p).verdict.Through?
    ensures var t' := SetUp(t, DnatChain(config, net, name, protos)).table;
      TOP_LEVEL_DNAT in t' &&
      var q, o := Eval(t, depth, t[TOP_LEVEL_DNAT], p).packet, Eval(t', depth, t'[TOP_LEVEL_DNAT], p);
      && (!OwnConditions(config, net, q) ==> o == Outcome(q, Through))
      && ((forall i: nat :: !FirstHit(config, net, q, i)) ==> o == Outcome(q, Through))
      && forall i: nat :: OwnConditions(config, net, q) && FirstHit(config, net, q, i) ==>
           o.verdict == Redirected(net.ip, config.portMaps[i].containerPort)
  {
    PortmapMeaning(t, others, depth, config, net, name, protos, p);
    ForwardedExactly(config, net, Eval(t, depth, t[TOP_LEVEL_DNAT], p).packet);
  }

  /** The entry rules that setup adds to a chain. */
  function Added(have: seq<Rule>, config: PortMapConf, isV6: bool, name: string, protos: seq<string>): seq<Rule> {
    Fresh(have, Entries(EntryRules(config, isV6, protos), name))
  }

  lemma DnatTable(t: Table, config: PortMapConf, net: IPNet, name: string, protos: seq<string>)
    requires name !in t && TOP_LEVEL_DNAT in t && SetUp(t, DnatChain(config, net, name, protos)).err.None?
    ensures var have := t[TOP_LEVEL_DNAT];
      SetUp(t, DnatChain(config, net, name, protos)).table ==
      t[name := Fresh([], DnatRules(config, net, config.portMaps))]
       [TOP_LEVEL_DNAT := have + Added(have, config, IsV6(net.ip), name, protos)]
  {
    SetUpTable(t, DnatChain(config, net, name, protos), TOP_LEVEL_DNAT);
    var rules := DnatRules(config, net, config.portMaps);
    assert [] + Fresh([], rules) == Fresh([], rules);
  }

  lemma NewEntriesMatch(have: seq<Rule>, config: PortMapConf, isV6: bool, name: string, protos: seq<string>)
    requires !Refers(have, name) && ProtosOf(config.portMaps, protos)
    ensures var rules := Added(have, config, isV6, name, protos);
      && AllJump(rules, name)
      && forall q :: SomeMatch(rules, q) <==> PortMapped(config.portMaps, q) && ConditionsHold(config, isV6, q)
  {
    var entries := Entries(EntryRules(config, isV6, protos), name);
    forall q ensures AllJump(Fresh(have, entries), name)
      && (SomeMatch(Fresh(have, entries), q) <==> PortMapped(config.portMaps, q) && ConditionsHold(config, isV6, q))
    {
      FreshEntriesMatch(have, entries, name, q);
      ProtoListed(config, isV6, protos, name, q);
    }
    FreshEntriesJump(have, entries, name);
  }

  lemma FreshEntriesJump(have: seq<Rule>, entries: seq<Rule>, name: string)
    requires AllJump(entries, name)
    ensures AllJump(Fresh(have, entries), name)
  {
    var f := Fresh(have, entries);
    forall i | 0 <= i < |f| ensures JumpsTo(f[i], name) {
      FreshMembers(have, entries, f[i]);
      var j :| 0 <= j < |entries| && entries[j] == f[i];
      assert JumpsTo(entries[j], name);
    }
  }

  lemma MarksElsewhere(t: Table, t': Table, chains: set<string>, depth: nat, chain: string, bit: nat)
    requires Closed(t, chains) && chain in chains && Agree(t, t', chains)
    requires Marks(t, depth, chain, bit)
    ensures Marks(t', depth, chain, bit)
  {
    forall p ensures EvalChain(t', depth, chain, p) == Outcome(Marked(p, bit), Through) {
      EvalElsewhere(t, t', chains, depth, t[chain], p);
      assert EvalChain(t, depth, chain, p) == Outcome(Marked(p, bit), Through);
    }
  }

  /** The plugin's own mark chain does what is asked of an external one. */
  lemma OwnMarkChain(t: Table, depth: nat, bit: nat)
    requires SET_MARK in t && t[SET_MARK] == GenSetMarkChain(bit).rules
    ensures Marks(t, depth, SET_MARK, bit)
  {
    var r := t[SET_MARK][0];
    forall p ensures EvalChain(t, depth, SET_MARK, p) == Outcome(Marked(p, bit), Through) {
      EvalOne(t, depth, r, p);
      assert RuleMatches(r, p);
    }
  }

  /** A packet that is redirected is masqueraded after routing exactly when SNAT is on and it comes from the
      container's net or (for IPv4) from 127.0.0.1; mappings that do not match never mark. */
  lemma MasqueradeExactly(t: Table, depth: nat, config: PortMapConf, net: IPNet, p: Packet)
    requires MARK_MASQ in t && t[MARK_MASQ] == GenMarkMasqChain(config.markMasqBit).rules
    requires config.markMasqBit !in p.marks
    ensures var o := Forwarded(config, net, p);
      EvalChain(t, depth, MARK_MASQ, o.packet).verdict.Masqueraded? <==>
      && o.verdict.Redirected? && config.snat
      && (NetContains(net.ip, net.mask, p.src) || (To4(net.ip).Some? && Equal(p.src, [127, 0, 0, 1])))
  {
    var q, r := Forwarded(config, net, p).packet, t[MARK_MASQ][0];
    EvalOne(t, depth, r, q);
    assert MarkSet(config.markMasqBit) in r.matches;
    assert forall m :: m in r.matches ==> m == MarkSet(config.markMasqBit);
    assert Matches(MarkSet(config.markMasqBit), q) <==> config.markMasqBit in q.marks;
    assert RuleMatches(r, q) <==> config.markMasqBit in q.marks;
  }

  /** Thanks to the splitting iptables takes every generated rule, except that a name and an id that are too
      long for a comment are not cut short enough: then setup fails. */
  lemma GeneratedIsAccepted(t: Table, config: PortMapConf, net: IPNet, name: string, protos: seq<string>)
    requires Consistent(t) && name !in t && ProtosOf(config.portMaps, protos)
    requires TOP_LEVEL_DNAT in t && (config.snat ==> SetMarkChainOf(config) in t)
    ensures SetUp(t, DnatChain(config, net, name, protos)).err.None? <==>
            config.portMaps == [] || |CommentOf(config)| <= COMMENT_LIMIT
    ensures |CommentOf(config)| <= COMMENT_LIMIT <==> |config.name| + |config.containerID| <= 235
  {
    var c := DnatChain(config, net, name, protos);
    var t0 := Ensured(t, name);
    SetupSucceedsExactly(t, c);
    RulesInsertable(t0, config, net, name);
    EntriesInsertable(t, config, IsV6(net.ip), name, protos);
    var e := Entries(c.entryRules, name);
    assert c.entryChains[0] == TOP_LEVEL_DNAT;
    assert AllInsertableIn(t0, c.entryChains, e) <==> AllInsertable(t0, c.entryChains[0], e);
  }

  /** One mapping of a network whose name has 256 letters is enough. */
  lemma LongNameFails(t: Table, net: IPNet, name: string)
    requires Consistent(t) && name !in t && TOP_LEVEL_DNAT in t
    ensures var config := PortMapConf(seq(256, _ => 'n'), "c", false, None, None, 13, None,
                                      [PortMapEntry(8080, 80, "tcp", None)]);
      SetUp(t, DnatChain(config, net, name, ["tcp"])).err.Some?
  {
    var config := PortMapConf(seq(256, _ => 'n'), "c", false, None, None, 13, None,
                              [PortMapEntry(8080, 80, "tcp", None)]);
    assert config.portMaps[0].protocol == "tcp";
    GeneratedIsAccepted(t, config, net, name, ["tcp"]);
  }

  lemma RulesInsertable(t: Table, config: PortMapConf, net: IPNet, name: string)
    requires name in t && (config.snat ==> SetMarkChainOf(config) in t)
    ensures AllInsertable(t, name, DnatRules(config, net, config.portMaps))
  {
    var rules := DnatRules(config, net, config.portMaps);
    forall i | 0 <= i < |rules| ensures Insertable(t, name, rules[i]) {
      DnatRulesAccepted(config, net, config.portMaps, rules[i]);
      DnatRulesSimple(config, net, config.portMaps, rules[i]);
      assert Accepts(t, rules[i]);
    }
  }

  lemma EntriesInsertable(t: Table, config: PortMapConf, isV6: bool, name: string, protos: seq<string>)
    requires Consistent(t) && name !in t && TOP_LEVEL_DNAT in t && ProtosOf(config.portMaps, protos)
    ensures AllInsertable(t[name := []], TOP_LEVEL_DNAT, Entries(EntryRules(config, isV6, protos), name)) <==>
            config.portMaps == [] || |CommentOf(config)| <= COMMENT_LIMIT
  {
    var t0, rules := t[name := []], EntryRules(config, isV6, protos);
    var e := Entries(rules, name);
    TrimCommentExactly(CommentOf(config));
    AbsentIsUnreferenced(t, name, TOP_LEVEL_DNAT);
    EntryRulesEmpty(config, isV6, protos);
    forall i | 0 <= i < |e|
      ensures Insertable(t0, TOP_LEVEL_DNAT, e[i]) <==> |CommentOf(config)| <= COMMENT_LIMIT
    {
      EntryRulesAccepted(config, isV6, protos, rules[i]);
      assert JumpsTo(e[i], name) && e[i] !in t[TOP_LEVEL_DNAT];
      assert Accepts(t0, e[i]) <==> |CommentOf(config)| <= COMMENT_LIMIT;
    }
    if rules != [] && AllInsertable(t0, TOP_LEVEL_DNAT, e) { assert Insertable(t0, TOP_LEVEL_DNAT, e[0]); }
  }

  /** Some entry rule is generated if there is any mapping. */
  lemma EntryRulesEmpty(config: PortMapConf, isV6: bool, protos: seq<string>)
    requires ProtosOf(config.portMaps, protos)
    ensures EntryRules(config, isV6, protos) == [] <==> config.portMaps == []
  {
    if protos != [] {
      assert protos[0] in protos;
      assert HasProto(config.portMaps, protos[0]);
    }
    if config.portMaps != [] {
      assert HasProto(config.portMaps, config.portMaps[0].protocol);
      var last := protos[|protos| - 1];
      assert last in protos;
      var i :| 0 <= i < |config.portMaps| && config.portMaps[i].protocol == last;
      PortsOfMembers(config.portMaps, last, config.portMaps[i].hostPort);
      assert Chunks(PortsOf(config.portMaps, last)) != [];
    }
  }

  lemma {:induction false} DnatRulesAccepted(config: PortMapConf, net: IPNet, entries: seq<PortMapEntry>, r: Rule)
    requires r in DnatRules(config, net, entries)
    ensures forall m :: m in r.matches ==> MatchAccepted(m)
  {
    if r !in MappingRules(config, net, entries[0]) { DnatRulesAccepted(config, net, entries[1..], r); }
  }

  lemma {:induction false} EntryRulesAccepted(config: PortMapConf, isV6: bool, protos: seq<string>, ms: seq<Match>)
    requires ms in EntryRules(config, isV6, protos)
    ensures (forall m :: m in ms ==> MatchAccepted(m)) <==> |TrimComment(CommentOf(config))| <= COMMENT_LIMIT
  {
    var init, last := protos[..|protos| - 1], protos[|protos| - 1];
    if ms in EntryRules(config, isV6, init) {
      EntryRulesAccepted(config, isV6, init, ms);
    } else {
      ChunkRulesAccepted(config, isV6, last, PortsOf(config.portMaps, last), ms);
    }
  }

  lemma ChunkRulesAccepted(config: PortMapConf, isV6: bool, proto: string, ports: seq<int>, ms: seq<Match>)
    requires ms in ChunkRules(config, isV6, proto, Chunks(ports))
    ensures (forall m :: m in ms ==> MatchAccepted(m)) <==> |TrimComment(CommentOf(config))| <= COMMENT_LIMIT
  {
    var i :| 0 <= i < |Chunks(ports)| && ms == EntryRule(config, isV6, proto, Chunks(ports)[i]);
    ChunksFacts(ports);
    EntryRuleAccepted(config, isV6, proto, Chunks(ports)[i]);
  }

  lemma EntryRuleAccepted(config: PortMapConf, isV6: bool, proto: string, chunk: seq<int>)
    requires 0 < |chunk| <= MULTIPORT_LIMIT
    ensures (forall m :: m in EntryRule(config, isV6, proto, chunk) ==> MatchAccepted(m)) <==>
            |TrimComment(CommentOf(config))| <= COMMENT_LIMIT
  {
    var ms := EntryRule(config, isV6, proto, chunk);
    assert ms[0] == Comment(TrimComment(CommentOf(config))) && ms[0] in ms;
    assert forall m :: m in ms ==> m == ms[0] || m == Proto(proto) || m == DestPorts(chunk) || m.Condition?;
  }
}
