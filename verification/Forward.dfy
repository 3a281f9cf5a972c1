/** plugins/meta/portmap/portmap.go: forwardPorts and unforwardPorts on the table of one address family. */
module Forward {
  import opened Options
  import opened GoNet
  import opened IPTables
  import opened Chains
  import opened Portmap

  function Then(d: Done, c: Chain): Done { if d.err.Some? then d else SetUp(d.table, c) }

  /** The chains that all containers share. */
  function SharedChains(config: PortMapConf): seq<Chain> {
    (if config.snat && config.externalSetMarkChain.None?
     then [GenSetMarkChain(config.markMasqBit), GenMarkMasqChain(config.markMasqBit)] else [])
    + [GenToplevelDnatChain()]
  }

  /** One chain after the other, up to the first failure. */
  function SetUpAll(t: Table, chains: seq<Chain>): Done {
    if chains == [] then Done(t, None) else Then(SetUpAll(t, chains[..|chains| - 1]), chains[|chains| - 1])
  }

  function ChainsOf(config: PortMapConf, net: IPNet, name: string, protos: seq<string>): seq<Chain> {
    SharedChains(config) + [DnatChain(config, net, name, protos)]
  }

  lemma SetUpMore(t: Table, chains: seq<Chain>, c: Chain)
    ensures SetUpAll(t, chains + [c]) == Then(SetUpAll(t, chains), c)
  {
    assert (chains + [c])[..|chains|] == chains;
  }

  method ForwardPorts(ipt: IPTables, config: PortMapConf, net: IPNet, name: string)
    returns (err: Option<Failure>, protos: seq<string>)
    modifies ipt
    ensures ProtosOf(config.portMaps, protos)
    ensures Done(ipt.chains, err) == SetUpAll(old(ipt.chains), ChainsOf(config, net, name, protos))
  {
    err := SetupShared(ipt, config);
    var dnatChain;
    dnatChain, protos := FillDnatRules(GenDnatChain(name), config, net);
    SetUpMore(old(ipt.chains), SharedChains(config), DnatChain(config, net, name, protos));
    if err.Some? { return; }
    assert [] + EntryRules(config, IsV6(net.ip), protos) == EntryRules(config, IsV6(net.ip), protos);
    err := Setup(dnatChain, ipt);
  }

  method SetupShared(ipt: IPTables, config: PortMapConf) returns (err: Option<Failure>)
    modifies ipt
    ensures Done(ipt.chains, err) == SetUpAll(old(ipt.chains), SharedChains(config))
  {
    SharedInOrder(ipt.chains, config);
    if config.snat && config.externalSetMarkChain.None? {
      err := Setup(GenSetMarkChain(config.markMasqBit), ipt);
      if err.Some? { return; }
      err := Setup(GenMarkMasqChain(config.markMasqBit), ipt);
      if err.Some? { return; }
    }
    err := Setup(GenToplevelDnatChain(), ipt);
  }

  /** What older versions left behind. */
  function GenOldSnatChain(name: string): Chain { Chain(name, ["CNI-HOSTPORT-SNAT"], [], [], false) }

  /** The name of the container's chain, and that of the chain older versions gave it. */
  function Unforwarded(t: Table, name: string, oldName: string): Done {
    var d := TearDown(t, GenDnatChain(name));
    if d.err.Some? then d else Done(TearDown(d.table, GenOldSnatChain(oldName)).table, None)
  }

  method UnforwardPorts(ipt: IPTables, name: string, oldName: string) returns (err: Option<Failure>)
    modifies ipt
    ensures Done(ipt.chains, err) == Unforwarded(old(ipt.chains), name, oldName)
  {
    err := Teardown(GenDnatChain(name), ipt);
    if err.Some? { return; }
    var _ := Teardown(GenOldSnatChain(oldName), ipt);
  }

  /** checkPorts in one table: a chain that is missing altogether is passed over. */
  predicate PassesIn(t: Table, c: Chain) { c.name !in t || Checked(t, c) }

  /** In both tables, None where iptables cannot be used for the family. When the IPv4 chain is missing the IPv6
      table is not looked at. */
  predicate PortsPass(t4: Option<Table>, t6: Option<Table>, c: Chain) {
    && (t4.Some? || t6.Some?)
    && (t4.Some? ==> PassesIn(t4.value, c))
    && (t6.Some? && (t4.None? || c.name in t4.value) ==> PassesIn(t6.value, c))
  }

  /** The order of the protocols is no matter. */
  ghost predicate NetPasses(t4: Option<Table>, t6: Option<Table>, config: PortMapConf, net: IPNet, name: string) {
    forall protos {:trigger ProtosOf(config.portMaps, protos)} :: ProtosOf(config.portMaps, protos) ==>
      PortsPass(t4, t6, DnatChain(config, net, name, protos))
  }

  function TableOf(ipt: IPTables?): Option<Table>
    reads ipt
  {
    if ipt == null then None else Some(ipt.chains)
  }

  method CheckPorts(ip4t: IPTables?, ip6t: IPTables?, config: PortMapConf, net: IPNet, name: string) returns (ok: bool)
    ensures ok <==> NetPasses(TableOf(ip4t), TableOf(ip6t), config, net, name)
  {
    var dnatChain, protos := FillDnatRules(GenDnatChain(name), config, net);
    assert [] + EntryRules(config, IsV6(net.ip), protos) == EntryRules(config, IsV6(net.ip), protos);
    PassesInAnyOrder(TableOf(ip4t), TableOf(ip6t), config, net, name, protos);
    if ip4t == null && ip6t == null { return false; }
    if ip4t != null {
      if dnatChain.name !in ip4t.chains { return true; }
      ok := Check(dnatChain, ip4t);
      if !ok { return; }
    }
    if ip6t != null {
      if dnatChain.name !in ip6t.chains { return true; }
      ok := Check(dnatChain, ip6t);
      if !ok { return; }
    }
    ok := true;
  }

  /** cmdCheck: each of the container's addresses in turn, if there is any mapping. */
  ghost predicate CheckPasses(t4: Option<Table>, t6: Option<Table>, config: PortMapConf, cont4: Option<IPNet>,
                              cont6: Option<IPNet>, name: string) {
    config.portMaps == []
    || ((cont4.Some? ==> NetPasses(t4, t6, config, cont4.value, name))
        && (cont6.Some? ==> NetPasses(t4, t6, config, cont6.value, name)))
  }

  method CmdCheck(ip4t: IPTables?, ip6t: IPTables?, config: PortMapConf, cont4: Option<IPNet>, cont6: Option<IPNet>,
                  name: string) returns (ok: bool)
    ensures ok <==> CheckPasses(TableOf(ip4t), TableOf(ip6t), config, cont4, cont6, name)
  {
    if |config.portMaps| == 0 { return true; }
    if cont4.Some? {
      ok := CheckPorts(ip4t, ip6t, config, cont4.value, name);
      if !ok { return; }
    }
    if cont6.Some? {
      ok := CheckPorts(ip4t, ip6t, config, cont6.value, name);
      if !ok { return; }
    }
    ok := true;
  }

  /** An entry rule is one for a piece of the ports of some protocol. */
  predicate IsEntryRule(config: PortMapConf, isV6: bool, protos: seq<string>, ms: seq<Match>) {
    exists proto, i {:trigger EntryRule(config, isV6, proto, Chunks(PortsOf(config.portMaps, proto))[i])} ::
      proto in protos && 0 <= i < |Chunks(PortsOf(config.portMaps, proto))|
      && ms == EntryRule(config, isV6, proto, Chunks(PortsOf(config.portMaps, proto))[i])
  }

  lemma {:induction false} EntryRulesMembers(config: PortMapConf, isV6: bool, protos: seq<string>, ms: seq<Match>)
    ensures ms in EntryRules(config, isV6, protos) <==> IsEntryRule(config, isV6, protos, ms)
    decreases |protos|
  {
    if protos != [] {
      var init, last := protos[..|protos| - 1], protos[|protos| - 1];
      EntryRulesMembers(config, isV6, init, ms);
      var chunks := Chunks(PortsOf(config.portMaps, last));
      assert protos == init + [last];
      forall proto ensures proto in protos <==> proto in init || proto == last { LastOrBefore(protos, proto); }
      if ms in ChunkRules(config, isV6, last, chunks) {
        var i :| 0 <= i < |chunks| && ms == EntryRule(config, isV6, last, chunks[i]);
      }
    }
  }

  lemma SameEntryRules(config: PortMapConf, isV6: bool, protos: seq<string>, other: seq<string>, name: string, r: Rule)
    requires ProtosOf(config.portMaps, protos) && ProtosOf(config.portMaps, other)
    requires r in Entries(EntryRules(config, isV6, protos), name)
    ensures r in Entries(EntryRules(config, isV6, other), name)
  {
    var a, b := EntryRules(config, isV6, protos), EntryRules(config, isV6, other);
    var i :| 0 <= i < |a| && Entries(a, name)[i] == r;
    EntryRulesMembers(config, isV6, protos, a[i]);
    EntryRulesMembers(config, isV6, other, a[i]);
    var j :| 0 <= j < |b| && b[j] == a[i];
    assert Entries(b, name)[j] == r;
  }

  lemma CheckedInAnyOrder(t: Table, config: PortMapConf, net: IPNet, name: string, protos: seq<string>,
                          other: seq<string>)
    requires ProtosOf(config.portMaps, protos) && ProtosOf(config.portMaps, other)
    requires Checked(t, DnatChain(config, net, name, protos))
    ensures Checked(t, DnatChain(config, net, name, other))
  {
    var c, d := DnatChain(config, net, name, protos), DnatChain(config, net, name, other);
    forall k, r | k in d.entryChains && r in Entries(d.entryRules, name) ensures Has(t, k, r) {
      SameEntryRules(config, IsV6(net.ip), other, protos, name, r);
      assert k in c.entryChains && r in Entries(c.entryRules, name);
    }
  }

  lemma PassesInAnyOrder(t4: Option<Table>, t6: Option<Table>, config: PortMapConf, net: IPNet, name: string,
                         protos: seq<string>)
    requires ProtosOf(config.portMaps, protos)
    ensures NetPasses(t4, t6, config, net, name) <==> PortsPass(t4, t6, DnatChain(config, net, name, protos))
  {
    forall other, t | ProtosOf(config.portMaps, other)
      ensures PassesIn(t, DnatChain(config, net, name, other)) <==> PassesIn(t, DnatChain(config, net, name, protos))
    {
      if Checked(t, DnatChain(config, net, name, other)) { CheckedInAnyOrder(t, config, net, name, other, protos); }
      if Checked(t, DnatChain(config, net, name, protos)) { CheckedInAnyOrder(t, config, net, name, protos, other); }
    }
  }

  // ---------- Laws ----------

  lemma ConsistentGrows(t: Table, t': Table)
    requires Consistent(t) && Grown(t, t') && OnlyAccepted(t, t')
    ensures Consistent(t')
  {
    forall k, i | k in t' && 0 <= i < |t'[k]| && t'[k][i].target.Jump? ensures t'[k][i].target.chain in t' {
      assert Has(t', k, t'[k][i]);
      if Has(t, k, t'[k][i]) {
        var j :| 0 <= j < |t[k]| && t[k][j] == t'[k][i];
      }
    }
  }

  lemma SetUpGrows(t: Table, c: Chain)
    ensures var t' := SetUp(t, c).table; Grown(Ensured(t, c.name), t') && OnlyAccepted(Ensured(t, c.name), t')
  {
    var t0, e := Ensured(t, c.name), Entries(c.entryRules, c.name);
    var d := InsertedAll(t0, c.name, false, c.rules);
    InsertedAllFacts(t0, c.name, false, c.rules);
    InsertedInAllFacts(d.table, c.entryChains, c.prependEntry, e);
    if d.err.None? { GrownTwice(t0, d.table, SetUp(t, c).table); }
  }

  /** setup, successful or not, leaves no jump without its chain. */
  lemma SetUpConsistent(t: Table, c: Chain)
    requires Consistent(t)
    ensures Consistent(SetUp(t, c).table)
  {
    SetUpGrows(t, c);
    ConsistentGrows(Ensured(t, c.name), SetUp(t, c).table);
  }

  lemma {:induction false} SetUpAllConsistent(t: Table, chains: seq<Chain>)
    requires Consistent(t)
    ensures Consistent(SetUpAll(t, chains).table)
    ensures forall k :: k in SetUpAll(t, chains).table ==>
      k in t || exists i :: 0 <= i < |chains| && chains[i].name == k
  {
    if chains != [] {
      var init := chains[..|chains| - 1];
      SetUpAllConsistent(t, init);
      assert forall i :: 0 <= i < |init| ==> init[i] == chains[i];
      SetUpConsistent(SetUpAll(t, init).table, chains[|chains| - 1]);
      SetUpKeys(SetUpAll(t, init).table, chains[|chains| - 1]);
    }
  }

  /** Setting up the shared chains adds no other chain. */
  lemma SharedKeys(t: Table, config: PortMapConf)
    requires Consistent(t)
    ensures SetUpAll(t, SharedChains(config)).table.Keys <= t.Keys + {SET_MARK, MARK_MASQ, TOP_LEVEL_DNAT}
  {
    SetUpAllConsistent(t, SharedChains(config));
    forall i | 0 <= i < |SharedChains(config)|
      ensures SharedChains(config)[i].name in {SET_MARK, MARK_MASQ, TOP_LEVEL_DNAT}
    {
    }
  }

  /** One chain's setup does not undo another's. */
  lemma CheckedGrows(t: Table, t': Table, c: Chain)
    requires Checked(t, c) && forall k, r :: Has(t, k, r) ==> Has(t', k, r)
    requires t.Keys <= t'.Keys
    ensures Checked(t', c)
  {
  }

  lemma {:induction false} SetUpAllChecked(t: Table, chains: seq<Chain>, i: nat)
    requires i < |chains| && SetUpAll(t, chains).err.None?
    ensures Checked(SetUpAll(t, chains).table, chains[i])
    decreases |chains|
  {
    var init, last := chains[..|chains| - 1], chains[|chains| - 1];
    var d := SetUpAll(t, init);
    if i == |chains| - 1 {
      SetupThenCheck(d.table, last);
    } else {
      SetUpAllChecked(t, init, i);
      SetUpGrows(d.table, last);
      forall k, r | Has(d.table, k, r) ensures Has(SetUp(d.table, last).table, k, r) {
        assert Has(Ensured(d.table, last.name), k, r);
      }
      SetUpKeys(d.table, last);
      CheckedGrows(d.table, SetUp(d.table, last).table, init[i]);
    }
  }

  lemma {:induction false} AllCheckedStays(t: Table, chains: seq<Chain>)
    requires forall i :: 0 <= i < |chains| ==> Checked(t, chains[i])
    ensures SetUpAll(t, chains) == Done(t, None)
  {
    if chains != [] {
      var init := chains[..|chains| - 1];
      assert forall i :: 0 <= i < |init| ==> init[i] == chains[i];
      AllCheckedStays(t, init);
      CheckIsFixpoint(t, chains[|chains| - 1]);
    }
  }

  /** Forwarding the same ports twice is forwarding them once. */
  lemma ForwardIdempotent(t: Table, chains: seq<Chain>)
    requires SetUpAll(t, chains).err.None?
    ensures SetUpAll(SetUpAll(t, chains).table, chains) == SetUpAll(t, chains)
  {
    forall i | 0 <= i < |chains| ensures Checked(SetUpAll(t, chains).table, chains[i]) {
      SetUpAllChecked(t, chains, i);
    }
    AllCheckedStays(SetUpAll(t, chains).table, chains);
  }

  lemma TeardownAbsent(t: Table, c: Chain)
    requires Consistent(t) && c.name !in t
    ensures TearDown(t, c) == Done(t, None)
  {
    var u := Unlinked(t, c);
    UnlinkedName(t, c);
    forall k | k in t ensures u[k] == t[k] && !Refers(t[k], c.name) {
      AbsentIsUnreferenced(t, c.name, k);
      NoJumpsLeft(t[k], c.name);
    }
    assert u - {c.name} == t;
  }

  /** Unforwarding leaves exactly the chains that containers share, as forwarding had set them up. */
  lemma UnforwardUndoesForward(t: Table, config: PortMapConf, net: IPNet, name: string, oldName: string,
                               protos: seq<string>)
    requires Consistent(t) && SetUpAll(t, SharedChains(config)).err.None?
    requires name !in t && oldName !in t && name !in {SET_MARK, MARK_MASQ, TOP_LEVEL_DNAT}
    requires oldName !in {SET_MARK, MARK_MASQ, TOP_LEVEL_DNAT}
    ensures Unforwarded(SetUpAll(t, ChainsOf(config, net, name, protos)).table, name, oldName) ==
            SetUpAll(t, SharedChains(config))
  {
    var shared := SetUpAll(t, SharedChains(config)).table;
    var c := DnatChain(config, net, name, protos);
    SetUpMore(t, SharedChains(config), c);
    SetUpAllConsistent(t, SharedChains(config));
    SharedKeys(t, config);
    UnforwardOne(shared, c, name, oldName);
  }

  lemma UnforwardOne(t: Table, c: Chain, name: string, oldName: string)
    requires Consistent(t) && name !in t && oldName !in t
    requires c.name == name && c.entryChains == GenDnatChain(name).entryChains
    ensures Unforwarded(SetUp(t, c).table, name, oldName) == Done(t, None)
  {
    var t' := SetUp(t, c).table;
    SetupThenTeardown(t, c);
    assert TearDown(t', GenDnatChain(name)) == TearDown(t', c);
    TeardownAbsent(t, GenOldSnatChain(oldName));
  }

  /** The old chain that the second teardown is for goes too, with the jumps to it from the top-level SNAT chain and
      nothing else, unless some other chain jumps to it; then it stays, empty, and that is no error. */
  lemma UnforwardRemovesOld(t: Table, name: string, oldName: string)
    requires TearDown(t, GenDnatChain(name)).err.None? && oldName !in {name, TOP_LEVEL_DNAT, "CNI-HOSTPORT-SNAT"}
    ensures var u := TearDown(t, GenDnatChain(name)).table; var v := Unforwarded(t, name, oldName).table;
      && Unforwarded(t, name, oldName).err.None?
      && (forall k :: k in u && k != oldName ==>
            k in v && v[k] == if k == "CNI-HOSTPORT-SNAT" then RemoveJumps(u[k], oldName) else u[k])
      && (forall k :: k in v ==> k in u || k == oldName)
      && (oldName in v <==> exists k :: k in u && k != oldName && k != "CNI-HOSTPORT-SNAT" && Refers(u[k], oldName))
      && (oldName in v ==> v[oldName] == [])
  {
    var u, c := TearDown(t, GenDnatChain(name)).table, GenOldSnatChain(oldName);
    TeardownFailsExactly(u, c);
    UnlinkedName(u, c);
  }

  /** The chains that forwarding adds, besides the container's own. */
  lemma SharedChainsExactly(t: Table, config: PortMapConf)
    requires SetUpAll(t, SharedChains(config)).err.None?
    ensures SetUpAll(t, SharedChains(config)).table.Keys ==
            t.Keys + {"CNI-HOSTPORT-DNAT"}
            + if config.snat && config.externalSetMarkChain.None? then {"CNI-HOSTPORT-SETMARK", "CNI-HOSTPORT-MASQ"}
              else {}
  {
    SharedInOrder(t, config);
    var setMark, masq := GenSetMarkChain(config.markMasqBit), GenMarkMasqChain(config.markMasqBit);
    var u := Then(SetUp(t, setMark), masq).table;
    SetUpKeys(t, setMark);
    SetUpKeys(SetUp(t, setMark).table, masq);
    SetUpKeys(u, GenToplevelDnatChain());
    SetUpKeys(t, GenToplevelDnatChain());
  }

  // ---------- How packets get into the shared chains ----------

  lemma InsertedSingle(t: Table, chain: string, prepend: bool, e: Rule)
    ensures InsertedAll(t, chain, prepend, [e]) == InsertedUnique(t, chain, prepend, e)
  {
    var rules := [e];
    assert rules[..|rules| - 1] == [];
    assert InsertedAll(t, chain, prepend, rules[..|rules| - 1]) == Done(t, None);
  }

  /** One entry rule, in every entry chain. */
  lemma {:induction false} EntryInserted(t: Table, chains: seq<string>, prepend: bool, e: Rule, k: string)
    requires k in t && e !in t[k] && InsertedInAll(t, chains, prepend, [e]).err.None?
    ensures var t' := InsertedInAll(t, chains, prepend, [e]).table;
      k in t' && t'[k] == if k !in chains then t[k] else if prepend then [e] + t[k] else t[k] + [e]
  {
    if chains != [] {
      var init, last := chains[..|chains| - 1], chains[|chains| - 1];
      EntryInserted(t, init, prepend, e, k);
      EntryInsertedLast(InsertedInAll(t, init, prepend, [e]).table, last, prepend, e, k);
      assert chains == init + [last];
      InAppended(init, last, k);
    }
  }

  lemma EntryInsertedLast(t: Table, chain: string, prepend: bool, e: Rule, k: string)
    requires k in t && InsertedAll(t, chain, prepend, [e]).err.None?
    ensures var t' := InsertedAll(t, chain, prepend, [e]).table;
      k in t' && t'[k] == if k != chain || e in t[k] then t[k] else if prepend then [e] + t[k] else t[k] + [e]
  {
    InsertedSingle(t, chain, prepend, e);
  }

  /** A chain with one entry rule, set up on a table that does not have it. */
  lemma SetUpEntry(t: Table, c: Chain, ms: seq<Match>, k: string)
    requires Consistent(t) && c.name !in t && c.entryRules == [ms] && k in t && k in c.entryChains
    requires SetUp(t, c).err.None?
    ensures var t' := SetUp(t, c).table; var e := Rule(ms, Jump(c.name));
      k in t' && t'[k] == if c.prependEntry then [e] + t[k] else t[k] + [e]
  {
    var t0, e := Ensured(t, c.name), Rule(ms, Jump(c.name));
    AbsentIsUnreferenced(t, c.name, k);
    assert JumpsTo(e, c.name) && e !in t[k];
    InsertedAllElse(t0, c.name, false, c.rules, k);
    assert Entries(c.entryRules, c.name) == [e];
    EntryInserted(InsertedAll(t0, c.name, false, c.rules).table, c.entryChains, c.prependEntry, e, k);
  }

  /** A marked packet is masqueraded before any other rule of POSTROUTING sees it; others are not affected. */
  lemma MasqueradeComesFirst(t: Table, depth: nat, bit: nat, p: Packet)
    requires Consistent(t) && MARK_MASQ !in t && "POSTROUTING" in t && depth > 0
    requires SetUp(t, GenMarkMasqChain(bit)).err.None?
    ensures var t' := SetUp(t, GenMarkMasqChain(bit)).table;
      && "POSTROUTING" in t'
      && Eval(t', depth, t'["POSTROUTING"], p) ==
         if bit in p.marks then Outcome(p, Masqueraded) else Eval(t', depth, t["POSTROUTING"], p)
  {
    var c := GenMarkMasqChain(bit);
    var t', e := SetUp(t, c).table, Rule(c.entryRules[0], Jump(MARK_MASQ));
    SetUpEntry(t, c, c.entryRules[0], "POSTROUTING");
    SetUpOwn(t, c);
    FreshOfOne(c.rules[0]);
    EvalOne(t', depth - 1, c.rules[0], p);
    MarkTest(c.rules[0], bit, p);
    assert RuleMatches(e, p);
    EvalAppend(t', depth, [e], t["POSTROUTING"], p);
    EvalOne(t', depth, e, p);
  }

  lemma MarkTest(r: Rule, bit: nat, p: Packet)
    requires r.matches == [MarkSet(bit)]
    ensures RuleMatches(r, p) <==> bit in p.marks
  {
    assert MarkSet(bit) in r.matches && forall m :: m in r.matches ==> m == MarkSet(bit);
    assert Matches(MarkSet(bit), p) <==> bit in p.marks;
  }

  /** A packet for a local address that PREROUTING or OUTPUT lets through goes on in the top-level chain. */
  lemma TopLevelEntered(t: Table, depth: nat, k: string, p: Packet)
    requires Consistent(t) && TOP_LEVEL_DNAT !in t && k in t && (k == "PREROUTING" || k == "OUTPUT") && depth > 0
    requires SetUp(t, GenToplevelDnatChain()).err.None?
    ensures var t' := SetUp(t, GenToplevelDnatChain()).table;
      && k in t'
      && Eval(t', depth, t'[k], p) ==
         var o := Eval(t', depth, t[k], p);
         if o.verdict.Through? && o.packet.dstLocal then EvalChain(t', depth - 1, TOP_LEVEL_DNAT, o.packet) else o
  {
    var c := GenToplevelDnatChain();
    var t', e := SetUp(t, c).table, Rule([DstLocal], Jump(TOP_LEVEL_DNAT));
    assert c.entryChains[0] == "PREROUTING" && c.entryChains[1] == "OUTPUT";
    SetUpEntry(t, c, [DstLocal], k);
    EvalAppend(t', depth, t[k], [e], p);
    var q := Eval(t', depth, t[k], p).packet;
    EvalOne(t', depth, e, q);
    assert DstLocal in e.matches && forall m :: m in e.matches ==> m == DstLocal;
    assert Matches(DstLocal, q) <==> q.dstLocal;
  }

  // ---------- The first container's ports ----------

  lemma SetUpOwn(t: Table, c: Chain)
    requires c.name !in t && c.name !in c.entryChains && SetUp(t, c).err.None?
    ensures c.name in SetUp(t, c).table && SetUp(t, c).table[c.name] == Fresh([], c.rules)
  {
    var t0, e := t[c.name := []], Entries(c.entryRules, c.name);
    InsertedAllFacts(t0, c.name, false, c.rules);
    InsertedAllAppends(t0, c.name, c.rules);
    InsertedInAllElse(InsertedAll(t0, c.name, false, c.rules).table, c.entryChains, c.prependEntry, e, c.name, c.name);
    assert t0[c.name] + Fresh(t0[c.name], c.rules) == Fresh([], c.rules);
  }

  lemma FreshOfOne(r: Rule)
    ensures Fresh([], [r]) == [r]
  {
    assert [r][..0] == [];
  }

  lemma SharedInOrder(t: Table, config: PortMapConf)
    ensures SetUpAll(t, SharedChains(config)) ==
            var marks := Then(SetUp(t, GenSetMarkChain(config.markMasqBit)), GenMarkMasqChain(config.markMasqBit));
            Then(if config.snat && config.externalSetMarkChain.None? then marks else Done(t, None),
                 GenToplevelDnatChain())
  {
    var setMark, masq := GenSetMarkChain(config.markMasqBit), GenMarkMasqChain(config.markMasqBit);
    var top := GenToplevelDnatChain();
    SetUpMore(t, [], setMark);
    SetUpMore(t, [setMark], masq);
    SetUpMore(t, [setMark, masq], top);
    SetUpMore(t, [], top);
    assert [] + [setMark] == [setMark] && [setMark] + [masq] == [setMark, masq] && [] + [top] == [top];
  }

  lemma MarkTables(t: Table, bit: nat)
    requires SET_MARK !in t && MARK_MASQ !in t && TOP_LEVEL_DNAT !in t
    requires Then(SetUp(t, GenSetMarkChain(bit)), GenMarkMasqChain(bit)).err.None?
    ensures var u := Then(SetUp(t, GenSetMarkChain(bit)), GenMarkMasqChain(bit)).table;
      && TOP_LEVEL_DNAT !in u
      && SET_MARK in u && u[SET_MARK] == GenSetMarkChain(bit).rules
      && MARK_MASQ in u && u[MARK_MASQ] == GenMarkMasqChain(bit).rules
  {
    var setMark, masq := GenSetMarkChain(bit), GenMarkMasqChain(bit);
    var t1 := SetUp(t, setMark).table;
    SetUpOwn(t, setMark);
    SetUpKeys(t, setMark);
    FreshOfOne(setMark.rules[0]);
    SetUpOwn(t1, masq);
    SetUpKeys(t1, masq);
    FreshOfOne(masq.rules[0]);
    SetUpElse(t1, masq, SET_MARK);
  }

  /** The shared chains on a table that has none of them. */
  lemma SharedTables(t: Table, config: PortMapConf)
    requires SET_MARK !in t && MARK_MASQ !in t && TOP_LEVEL_DNAT !in t
    requires config.externalSetMarkChain.None? && SetUpAll(t, SharedChains(config)).err.None?
    ensures var s := SetUpAll(t, SharedChains(config)).table;
      && TOP_LEVEL_DNAT in s && s[TOP_LEVEL_DNAT] == []
      && (config.snat ==> SET_MARK in s && s[SET_MARK] == GenSetMarkChain(config.markMasqBit).rules)
      && (config.snat ==> MARK_MASQ in s && s[MARK_MASQ] == GenMarkMasqChain(config.markMasqBit).rules)
  {
    var top := GenToplevelDnatChain();
    SharedInOrder(t, config);
    if config.snat {
      var u := Then(SetUp(t, GenSetMarkChain(config.markMasqBit)), GenMarkMasqChain(config.markMasqBit)).table;
      MarkTables(t, config.markMasqBit);
      SetUpOwn(u, top);
      SetUpElse(u, top, SET_MARK);
      SetUpElse(u, top, MARK_MASQ);
    } else {
      SetUpOwn(t, top);
    }
  }

  /** On a table without the plugin's chains, forwarding does to every packet in the top-level chain what the
      mappings say, and masquerading what `MasqueradeExactly` says. */
  lemma ForwardMeaning(t: Table, config: PortMapConf, net: IPNet, name: string, protos: seq<string>, depth: nat,
                       p: Packet)
    requires Consistent(t) && SET_MARK !in t && MARK_MASQ !in t && TOP_LEVEL_DNAT !in t && name !in t
    requires name !in {SET_MARK, MARK_MASQ, TOP_LEVEL_DNAT} && config.externalSetMarkChain.None?
    requires ProtosOf(config.portMaps, protos) && depth > 1
    requires SetUpAll(t, ChainsOf(config, net, name, protos)).err.None?
    ensures var t' := SetUpAll(t, ChainsOf(config, net, name, protos)).table;
      && EvalChain(t', depth, TOP_LEVEL_DNAT, p) == Forwarded(config, net, p)
      && (config.snat ==> MARK_MASQ in t' && t'[MARK_MASQ] == GenMarkMasqChain(config.markMasqBit).rules)
  {
    var c := DnatChain(config, net, name, protos);
    var shared := SetUpAll(t, SharedChains(config)).table;
    SetUpMore(t, SharedChains(config), c);
    SharedBefore(t, config, name, depth);
    if config.snat { SetUpElse(shared, c, MARK_MASQ); }
    PortmapMeaning(shared, OwnMarks(config), depth, config, net, name, protos, p);
  }

  /** The chains that a container's rules may jump to. */
  function OwnMarks(config: PortMapConf): set<string> { if config.snat then {SET_MARK} else {} }

  /** The shared chains are what `PortmapMeaning` needs, with an empty top-level chain. */
  lemma SharedBefore(t: Table, config: PortMapConf, name: string, depth: nat)
    requires Consistent(t) && SET_MARK !in t && MARK_MASQ !in t && TOP_LEVEL_DNAT !in t && name !in t
    requires name !in {SET_MARK, MARK_MASQ, TOP_LEVEL_DNAT} && config.externalSetMarkChain.None? && depth > 1
    requires SetUpAll(t, SharedChains(config)).err.None?
    ensures var s := SetUpAll(t, SharedChains(config)).table;
      && Before(s, OwnMarks(config), depth, config, name) && s[TOP_LEVEL_DNAT] == []
      && (config.snat ==> MARK_MASQ in s && s[MARK_MASQ] == GenMarkMasqChain(config.markMasqBit).rules)
  {
    var s := SetUpAll(t, SharedChains(config)).table;
    SetUpAllConsistent(t, SharedChains(config));
    SharedKeys(t, config);
    SharedTables(t, config);
    if config.snat { OwnMarkChain(s, depth - 2, config.markMasqBit); }
  }

  // ---------- When forwarding succeeds ----------

  /** With one entry rule, setup needs the entry chains. */
  lemma OneEntrySucceeds(t: Table, c: Chain, ms: seq<Match>)
    requires c.entryRules == [ms] && (forall m :: m in ms ==> MatchAccepted(m))
    requires forall i :: 0 <= i < |c.rules| ==> Accepts(Ensured(t, c.name), c.rules[i])
    ensures SetUp(t, c).err.None? <==> forall i :: 0 <= i < |c.entryChains| ==> c.entryChains[i] in Ensured(t, c.name)
  {
    var t0, e := Ensured(t, c.name), Entries(c.entryRules, c.name);
    SetupSucceedsExactly(t, c);
    assert e == [Rule(ms, Jump(c.name))] && Accepts(t0, e[0]);
    forall i | 0 <= i < |c.entryChains| ensures AllInsertable(t0, c.entryChains[i], e) <==> c.entryChains[i] in t0 {
      assert Insertable(t0, c.entryChains[i], e[0]) <==> c.entryChains[i] in t0;
    }
  }

  lemma MarkChainsSucceed(t: Table, bit: nat)
    ensures Then(SetUp(t, GenSetMarkChain(bit)), GenMarkMasqChain(bit)).err.None? <==> "POSTROUTING" in t
  {
    var setMark, masq := GenSetMarkChain(bit), GenMarkMasqChain(bit);
    SetupSucceedsExactly(t, setMark);
    assert Accepts(Ensured(t, SET_MARK), setMark.rules[0]);
    var t1 := SetUp(t, setMark).table;
    SetUpKeys(t, setMark);
    assert masq.entryRules == [masq.entryRules[0]] && |masq.entryChains| == 1;
    OneEntrySucceeds(t1, masq, masq.entryRules[0]);
  }

  lemma TopLevelSucceeds(t: Table)
    ensures SetUp(t, GenToplevelDnatChain()).err.None? <==> "PREROUTING" in t && "OUTPUT" in t
  {
    var c := GenToplevelDnatChain();
    OneEntrySucceeds(t, c, [DstLocal]);
    assert c.entryChains[0] == "PREROUTING" && c.entryChains[1] == "OUTPUT";
  }

  lemma SharedSucceed(t: Table, config: PortMapConf)
    requires config.externalSetMarkChain.None?
    ensures SetUpAll(t, SharedChains(config)).err.None? <==>
            "PREROUTING" in t && "OUTPUT" in t && (config.snat ==> "POSTROUTING" in t)
  {
    SharedInOrder(t, config);
    MarkChainsSucceed(t, config.markMasqBit);
    if config.snat {
      var u := Then(SetUp(t, GenSetMarkChain(config.markMasqBit)), GenMarkMasqChain(config.markMasqBit)).table;
      SetUpKeys(t, GenSetMarkChain(config.markMasqBit));
      SetUpKeys(SetUp(t, GenSetMarkChain(config.markMasqBit)).table, GenMarkMasqChain(config.markMasqBit));
      TopLevelSucceeds(u);
    } else {
      TopLevelSucceeds(t);
    }
  }

  /** On a table without the plugin's chains forwarding succeeds exactly when the built-in chains it enters from
      are there and the comment is within its limit. */
  lemma ForwardSucceedsExactly(t: Table, config: PortMapConf, net: IPNet, name: string, protos: seq<string>)
    requires Consistent(t) && SET_MARK !in t && MARK_MASQ !in t && TOP_LEVEL_DNAT !in t && name !in t
    requires name !in {SET_MARK, MARK_MASQ, TOP_LEVEL_DNAT} && config.externalSetMarkChain.None?
    requires ProtosOf(config.portMaps, protos)
    ensures SetUpAll(t, ChainsOf(config, net, name, protos)).err.None? <==>
            && "PREROUTING" in t && "OUTPUT" in t && (config.snat ==> "POSTROUTING" in t)
            && (config.portMaps == [] || |CommentOf(config)| <= COMMENT_LIMIT)
  {
    var shared := SetUpAll(t, SharedChains(config));
    SetUpMore(t, SharedChains(config), DnatChain(config, net, name, protos));
    SharedSucceed(t, config);
    if shared.err.None? {
      SetUpAllConsistent(t, SharedChains(config));
      SharedTables(t, config);
      GeneratedIsAccepted(shared.table, config, net, name, protos);
    }
  }

  // ---------- What CHECK passing means ----------

  /** The tables that checkPorts looks at, in order. */
  function Usable(t4: Option<Table>, t6: Option<Table>): seq<Table> {
    (if t4.Some? then [t4.value] else []) + (if t6.Some? then [t6.value] else [])
  }

  predicate ChainInAll(tables: seq<Table>, name: string) {
    forall i {:trigger tables[i]} :: 0 <= i < |tables| ==> name in tables[i]
  }

  predicate CheckedInAll(tables: seq<Table>, c: Chain) {
    forall i {:trigger tables[i]} :: 0 <= i < |tables| ==> Checked(tables[i], c)
  }

  /** The chain is complete in the first `n` tables, which are all, or the next one lacks it. */
  predicate CompleteUpTo(tables: seq<Table>, c: Chain, n: nat) {
    && n <= |tables| && CheckedInAll(tables[..n], c)
    && (n < |tables| ==> c.name !in tables[n])
  }

  /** checkPorts passes exactly when some table is usable and the chain is complete in those before the first that
      lacks it. What the tables after that one hold is no matter. */
  lemma PassesExactly(t4: Option<Table>, t6: Option<Table>, c: Chain)
    ensures PortsPass(t4, t6, c) <==>
            Usable(t4, t6) != [] && exists n: nat :: CompleteUpTo(Usable(t4, t6), c, n)
  {
    var tables := Usable(t4, t6);
    if PortsPass(t4, t6, c) {
      var n := if c.name !in tables[0] then 0 else if |tables| == 2 && c.name !in tables[1] then 1 else |tables|;
      assert CompleteUpTo(tables, c, n);
    }
    if tables != [] {
      if n: nat :| CompleteUpTo(tables, c, n) {
        assert n > 0 ==> tables[..n][0] == tables[0];
        assert n > 1 ==> tables[..n][1] == tables[1];
      }
    }
  }

  /** So when it passes, all rules of the chain are in every usable table exactly if the chain is. */
  lemma CompleteExactly(t4: Option<Table>, t6: Option<Table>, c: Chain)
    requires PortsPass(t4, t6, c)
    ensures CheckedInAll(Usable(t4, t6), c) <==> ChainInAll(Usable(t4, t6), c.name)
  {
    PassesExactly(t4, t6, c);
    var tables := Usable(t4, t6);
    var n: nat :| CompleteUpTo(tables, c, n);
    assert tables[..|tables|] == tables;
  }

  predicate RulesInAll(t4: Option<Table>, t6: Option<Table>, config: PortMapConf, cont: Option<IPNet>, name: string,
                       protos: seq<string>) {
    cont.Some? ==> CheckedInAll(Usable(t4, t6), DnatChain(config, cont.value, name, protos))
  }

  /** Likewise CHECK of a container with mappings: when it passes, the rules for its addresses are in place exactly
      if its chain is in every usable table. */
  lemma CheckPassMeans(t4: Option<Table>, t6: Option<Table>, config: PortMapConf, cont4: Option<IPNet>,
                       cont6: Option<IPNet>, name: string, protos: seq<string>)
    requires ProtosOf(config.portMaps, protos) && config.portMaps != [] && (cont4.Some? || cont6.Some?)
    requires CheckPasses(t4, t6, config, cont4, cont6, name)
    ensures RulesInAll(t4, t6, config, cont4, name, protos) && RulesInAll(t4, t6, config, cont6, name, protos) <==>
            ChainInAll(Usable(t4, t6), name)
  {
    if cont4.Some? { NetPassMeans(t4, t6, config, cont4.value, name, protos); }
    if cont6.Some? { NetPassMeans(t4, t6, config, cont6.value, name, protos); }
  }

  lemma NetPassMeans(t4: Option<Table>, t6: Option<Table>, config: PortMapConf, net: IPNet, name: string,
                     protos: seq<string>)
    requires ProtosOf(config.portMaps, protos) && NetPasses(t4, t6, config, net, name)
    ensures CheckedInAll(Usable(t4, t6), DnatChain(config, net, name, protos)) <==> ChainInAll(Usable(t4, t6), name)
  {
    PassesInAnyOrder(t4, t6, config, net, name, protos);
    CompleteExactly(t4, t6, DnatChain(config, net, name, protos));
  }

  /** Where iptables is usable for IPv4 and has no such chain, as for a container with only an IPv6 address, CHECK
      passes whatever the IPv6 table holds. */
  lemma MissingFromIPv4Passes(t4: Table, t6: Option<Table>, config: PortMapConf, cont4: Option<IPNet>,
                              cont6: Option<IPNet>, name: string)
    requires name !in t4
    ensures CheckPasses(Some(t4), t6, config, cont4, cont6, name)
  {
    forall net, protos {:trigger DnatChain(config, net, name, protos)} | true
      ensures PortsPass(Some(t4), t6, DnatChain(config, net, name, protos))
    {
    }
  }

  /** The container fd00::5 with port 8080 mapped, its chain flushed: CHECK passes. */
  lemma FlushedChainPasses(name: string, mask: seq<Byte>)
    ensures var config := PortMapConf("net", "c", false, None, None, 13, None, [PortMapEntry(8080, 80, "tcp", None)]);
      var net := IPNet([0xfd, 0, 0, 0, 0, 0, 0, 0, 0, 0, 0, 0, 0, 0, 0, 5], mask);
      && CheckPasses(Some(map[]), Some(map[name := []]), config, None, Some(net), name)
      && !Checked(map[name := []], DnatChain(config, net, name, ["tcp"]))
  {
    var config := PortMapConf("net", "c", false, None, None, 13, None, [PortMapEntry(8080, 80, "tcp", None)]);
    var net := IPNet([0xfd, 0, 0, 0, 0, 0, 0, 0, 0, 0, 0, 0, 0, 0, 0, 5], mask);
    MissingFromIPv4Passes(map[], Some(map[name := []]), config, None, Some(net), name);
    var rules := MappingRules(config, net, config.portMaps[0]);
    assert rules[|rules| - 1] in DnatRules(config, net, config.portMaps);
  }

  // ---------- CHECK after ADD ----------

  /** The table after a successful ADD for one address, of which the chain's name is new. */
  ghost predicate AddedTo(t: Table, t': Table, config: PortMapConf, net: IPNet, name: string, protos: seq<string>) {
    && ProtosOf(config.portMaps, protos)
    && name !in SetUpAll(t, SharedChains(config)).table
    && SetUpAll(t, ChainsOf(config, net, name, protos)) == Done(t', None)
  }

  lemma AddedTable(t: Table, t': Table, config: PortMapConf, net: IPNet, name: string, protos: seq<string>)
    requires AddedTo(t, t', config, net, name, protos) && name != TOP_LEVEL_DNAT
    ensures Checked(t', DnatChain(config, net, name, protos))
    ensures name in t' && t'[name] == Fresh([], DnatRules(config, net, config.portMaps))
  {
    var chains, c := ChainsOf(config, net, name, protos), DnatChain(config, net, name, protos);
    SetUpMore(t, SharedChains(config), c);
    assert chains[|chains| - 1] == c;
    SetUpAllChecked(t, chains, |chains| - 1);
    SetUpOwn(SetUpAll(t, SharedChains(config)).table, c);
  }

  /** For a container with one address CHECK after ADD passes, with the rules in place, but for an IPv6 address
      beside a usable IPv4 table: there it passes without a look at any rule, whatever has become of the table. */
  lemma CheckAfterSingleAdd(t: Table, t': Table, other: Option<Table>, config: PortMapConf, net: IPNet, name: string,
                            protos: seq<string>)
    requires AddedTo(t, t', config, net, name, protos) && name != TOP_LEVEL_DNAT
    requires other.Some? ==> name !in other.value
    ensures Checked(t', DnatChain(config, net, name, protos))
    ensures !IsV6(net.ip) ==> CheckPasses(Some(t'), other, config, Some(net), None, name)
    ensures IsV6(net.ip) && other.None? ==> CheckPasses(None, Some(t'), config, None, Some(net), name)
    ensures IsV6(net.ip) && other.Some? ==> forall t6 :: CheckPasses(other, t6, config, None, Some(net), name)
  {
    AddedTable(t, t', config, net, name, protos);
    PassesInAnyOrder(other, Some(t'), config, net, name, protos);
    PassesInAnyOrder(Some(t'), other, config, net, name, protos);
    if other.Some? {
      forall t6 ensures CheckPasses(other, t6, config, None, Some(net), name) {
        MissingFromIPv4Passes(other.value, t6, config, None, Some(net), name);
      }
    }
  }

  lemma {:induction false} RedirectsToNet(config: PortMapConf, net: IPNet, entries: seq<PortMapEntry>, r: Rule)
    requires r in DnatRules(config, net, entries) && r.target.DNAT?
    ensures r.target.ip == net.ip
  {
    if r !in MappingRules(config, net, entries[0]) { RedirectsToNet(config, net, entries[1..], r); }
  }

  /** A mapping that fits a family has its redirect in that family's chain, so not in the other's. */
  lemma OtherFamilyFails(t: Table, config: PortMapConf, net: IPNet, other: IPNet, name: string, protos: seq<string>)
    requires IsV6(net.ip) != IsV6(other.ip) && config.portMaps != [] && FamilyFits(config.portMaps[0], IsV6(net.ip))
    requires name in t && t[name] == Fresh([], DnatRules(config, other, config.portMaps))
    ensures !Checked(t, DnatChain(config, net, name, protos))
  {
    var e := config.portMaps[0];
    var r := Rule(RuleBase(e), DNAT(net.ip, e.containerPort));
    var own := MappingRules(config, net, e);
    assert own[|own| - 1] == r;
    assert r in DnatRules(config, net, config.portMaps);
    FreshMembers([], DnatRules(config, other, config.portMaps), r);
    if r in DnatRules(config, other, config.portMaps) { RedirectsToNet(config, other, config.portMaps, r); }
  }

  /** For a container with addresses of both families CHECK after ADD passes only if there is no mapping: each
      family's rules are also looked for in the other's table, where the chain has the same name. */
  lemma CheckAfterDualAdd(t4: Table, t4': Table, t6: Table, t6': Table, config: PortMapConf, net4: IPNet, net6: IPNet,
                          name: string, protos: seq<string>)
    requires AddedTo(t4, t4', config, net4, name, protos) && AddedTo(t6, t6', config, net6, name, protos)
    requires !IsV6(net4.ip) && IsV6(net6.ip) && name != TOP_LEVEL_DNAT
    ensures CheckPasses(Some(t4'), Some(t6'), config, Some(net4), Some(net6), name) <==> config.portMaps == []
  {
    AddedTable(t4, t4', config, net4, name, protos);
    AddedTable(t6, t6', config, net6, name, protos);
    if config.portMaps != [] {
      PassesInAnyOrder(Some(t4'), Some(t6'), config, net4, name, protos);
      PassesInAnyOrder(Some(t4'), Some(t6'), config, net6, name, protos);
      if FamilyFits(config.portMaps[0], false) {
        OtherFamilyFails(t6', config, net4, net6, name, protos);
      } else {
        OtherFamilyFails(t4', config, net6, net4, name, protos);
      }
    }
  }
}
