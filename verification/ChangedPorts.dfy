/** plugins/meta/portmap/portmap.go: forwarding for a container whose chain an earlier setup has filled. */
module ChangedPorts {
  import opened Options
  import opened GoNet
  import opened IPTables
  import opened Chains
  import opened Portmap

  function With(config: PortMapConf, portMaps: seq<PortMapEntry>): PortMapConf { config.(portMaps := portMaps) }

  lemma {:induction false} DnatRulesAppend(config: PortMapConf, net: IPNet, a: seq<PortMapEntry>, b: seq<PortMapEntry>)
    ensures DnatRules(config, net, a + b) == DnatRules(config, net, a) + DnatRules(config, net, b)
  {
    if a == [] {
      assert a + b == b;
    } else {
      assert (a + b)[1..] == a[1..] + b;
      DnatRulesAppend(config, net, a[1..], b);
    }
  }

  /** The rules depend on the configuration but not on its mappings. */
  lemma {:induction false} SameDnatRules(config: PortMapConf, net: IPNet, pm: seq<PortMapEntry>,
                                         entries: seq<PortMapEntry>)
    ensures DnatRules(With(config, pm), net, entries) == DnatRules(config, net, entries)
  {
    if entries != [] { SameDnatRules(config, net, pm, entries[1..]); }
  }

  lemma PortMappedAppend(a: seq<PortMapEntry>, b: seq<PortMapEntry>, p: Packet)
    ensures PortMapped(a + b, p) <==> PortMapped(a, p) || PortMapped(b, p)
  {
    if i :| 0 <= i < |a| && a[i].protocol == p.proto && a[i].hostPort == p.dport { assert (a + b)[i] == a[i]; }
    if i :| 0 <= i < |b| && b[i].protocol == p.proto && b[i].hostPort == p.dport { assert (a + b)[|a| + i] == b[i]; }
  }

  /** Two setups of the same chain, for the old mappings and then for those of the configuration. */
  ghost predicate SetUpTwice(t: Table, t': Table, config: PortMapConf, net: IPNet, name: string,
                             earlier: seq<PortMapEntry>, earlierProtos: seq<string>, protos: seq<string>) {
    && ProtosOf(earlier, earlierProtos) && ProtosOf(config.portMaps, protos)
    && var once := SetUp(t, DnatChain(With(config, earlier), net, name, earlierProtos));
       && once.err.None?
       && SetUp(once.table, DnatChain(config, net, name, protos)) == Done(t', None)
  }

  /** The entry rules that both add. */
  function AddedTwice(have: seq<Rule>, config: PortMapConf, v6: bool, name: string, earlier: seq<PortMapEntry>,
                      earlierProtos: seq<string>, protos: seq<string>): seq<Rule> {
    var first := Added(have, With(config, earlier), v6, name, earlierProtos);
    first + Added(have + first, config, v6, name, protos)
  }

  /** The container's chain then has the rules of the old mappings followed by those of the new. */
  lemma ChainOfBoth(t: Table, t': Table, config: PortMapConf, net: IPNet, name: string,
                    earlier: seq<PortMapEntry>, earlierProtos: seq<string>, protos: seq<string>)
    requires name !in t && TOP_LEVEL_DNAT in t && SetUpTwice(t, t', config, net, name, earlier, earlierProtos, protos)
    ensures var have := t[TOP_LEVEL_DNAT];
      t' == Filled(t, name, Fresh([], DnatRules(config, net, earlier + config.portMaps)),
                   have + AddedTwice(have, config, IsV6(net.ip), name, earlier, earlierProtos, protos))
  {
    var have, v6 := t[TOP_LEVEL_DNAT], IsV6(net.ip);
    var first := Added(have, With(config, earlier), v6, name, earlierProtos);
    var more := Added(have + first, config, v6, name, protos);
    var a := Fresh([], DnatRules(config, net, earlier));
    var both := Fresh([], DnatRules(config, net, earlier + config.portMaps));
    FirstTable(t, config, net, name, earlier, earlierProtos);
    SecondTable(Filled(t, name, a, have + first), config, net, name, earlier, protos);
    FilledTwice(t, name, a, have, first, more, both);
  }

  /** The table with the two chains that the container's setup changes. */
  function Filled(t: Table, name: string, rules: seq<Rule>, top: seq<Rule>): Table {
    t[name := rules][TOP_LEVEL_DNAT := top]
  }

  lemma FirstTable(t: Table, config: PortMapConf, net: IPNet, name: string, earlier: seq<PortMapEntry>,
                   protos: seq<string>)
    requires name !in t && TOP_LEVEL_DNAT in t
    requires SetUp(t, DnatChain(With(config, earlier), net, name, protos)).err.None?
    ensures SetUp(t, DnatChain(With(config, earlier), net, name, protos)).table ==
            Filled(t, name, Fresh([], DnatRules(config, net, earlier)),
                   t[TOP_LEVEL_DNAT] + Added(t[TOP_LEVEL_DNAT], With(config, earlier), IsV6(net.ip), name, protos))
  {
    DnatTable(t, With(config, earlier), net, name, protos);
    SameDnatRules(config, net, earlier, earlier);
  }

  lemma FilledTwice(t: Table, name: string, a: seq<Rule>, have: seq<Rule>, first: seq<Rule>, more: seq<Rule>,
                    both: seq<Rule>)
    requires name != TOP_LEVEL_DNAT
    ensures Filled(Filled(t, name, a, have + first), name, both, have + first + more) ==
            Filled(t, name, both, have + (first + more))
  {
    assert have + first + more == have + (first + more);
  }

  lemma SecondTable(t: Table, config: PortMapConf, net: IPNet, name: string, earlier: seq<PortMapEntry>,
                    protos: seq<string>)
    requires name in t && t[name] == Fresh([], DnatRules(config, net, earlier)) && name != TOP_LEVEL_DNAT
    requires TOP_LEVEL_DNAT in t && SetUp(t, DnatChain(config, net, name, protos)).err.None?
    ensures var have := t[TOP_LEVEL_DNAT];
      SetUp(t, DnatChain(config, net, name, protos)).table ==
      Filled(t, name, Fresh([], DnatRules(config, net, earlier + config.portMaps)),
             have + Added(have, config, IsV6(net.ip), name, protos))
  {
    SetUpTable(t, DnatChain(config, net, name, protos), TOP_LEVEL_DNAT);
    FreshAppend(DnatRules(config, net, earlier), DnatRules(config, net, config.portMaps));
    DnatRulesAppend(config, net, earlier, config.portMaps);
  }

  /** An entry rule that is already there loses no match. */
  lemma MoreEntriesMatch(have: seq<Rule>, first: seq<Rule>, entries: seq<Rule>, name: string, p: Packet)
    requires !Refers(have, name) && AllJump(entries, name)
    ensures SomeMatch(first + Fresh(have + first, entries), p) <==> SomeMatch(first, p) || SomeMatch(entries, p)
  {
    var more := Fresh(have + first, entries);
    SomeMatchAppend(first, more, p);
    if i :| 0 <= i < |more| && RuleMatches(more[i], p) {
      FreshMembers(have + first, entries, more[i]);
      var j :| 0 <= j < |entries| && entries[j] == more[i];
    }
    if i :| 0 <= i < |entries| && RuleMatches(entries[i], p) {
      FreshMembers(have + first, entries, entries[i]);
      assert JumpsTo(entries[i], name);
      if entries[i] in first {
        var j :| 0 <= j < |first| && first[j] == entries[i];
      } else {
        var j :| 0 <= j < |more| && more[j] == entries[i];
      }
    }
  }

  lemma JumpsOfBoth(have: seq<Rule>, config: PortMapConf, v6: bool, name: string, earlier: seq<PortMapEntry>,
                    earlierProtos: seq<string>, protos: seq<string>)
    requires !Refers(have, name) && ProtosOf(earlier, earlierProtos) && ProtosOf(config.portMaps, protos)
    ensures var rules := AddedTwice(have, config, v6, name, earlier, earlierProtos, protos);
      && AllJump(rules, name)
      && forall q :: SomeMatch(rules, q) <==> PortMapped(earlier + config.portMaps, q) && ConditionsHold(config, v6, q)
  {
    var first := Added(have, With(config, earlier), v6, name, earlierProtos);
    var entries := Entries(EntryRules(config, v6, protos), name);
    var more := Added(have + first, config, v6, name, protos);
    NewEntriesMatch(have, With(config, earlier), v6, name, earlierProtos);
    FreshEntriesJump(have + first, entries, name);
    forall q ensures SomeMatch(first + more, q) <==>
                     PortMapped(earlier + config.portMaps, q) && ConditionsHold(config, v6, q)
    {
      MoreEntriesMatch(have, first, entries, name, q);
      ProtoListed(config, v6, protos, name, q);
      PortMappedAppend(earlier, config.portMaps, q);
      assert ConditionsOf(With(config, earlier), v6) == ConditionsOf(config, v6);
    }
    forall i | 0 <= i < |first + more| ensures JumpsTo((first + more)[i], name) {
      if i < |first| { assert JumpsTo(first[i], name); } else { assert JumpsTo(more[i - |first|], name); }
    }
  }

  /** Setting up changed mappings without tearing down has the effect of the old mappings followed by the new. */
  lemma ChangedMeaning(t: Table, t': Table, others: set<string>, depth: nat, config: PortMapConf, net: IPNet,
                       name: string, earlier: seq<PortMapEntry>, earlierProtos: seq<string>, protos: seq<string>,
                       p: Packet)
    requires Before(t, others, depth, config, name)
    requires SetUpTwice(t, t', config, net, name, earlier, earlierProtos, protos)
    ensures TOP_LEVEL_DNAT in t'
    ensures Eval(t', depth, t'[TOP_LEVEL_DNAT], p) ==
            var o := Eval(t, depth, t[TOP_LEVEL_DNAT], p);
            if o.verdict.Through? then Forwarded(With(config, earlier + config.portMaps), net, o.packet) else o
  {
    var have, both := t[TOP_LEVEL_DNAT], With(config, earlier + config.portMaps);
    AbsentIsUnreferenced(t, name, TOP_LEVEL_DNAT);
    ChainOfBoth(t, t', config, net, name, earlier, earlierProtos, protos);
    JumpsOfBoth(have, config, IsV6(net.ip), name, earlier, earlierProtos, protos);
    SameDnatRules(config, net, both.portMaps, both.portMaps);
    forall q ensures ConditionsHold(both, IsV6(net.ip), q) == ConditionsHold(config, IsV6(net.ip), q) {
      assert ConditionsOf(both, IsV6(net.ip)) == ConditionsOf(config, IsV6(net.ip));
    }
    TableMeaning(t, t', others, depth, both, net, name,
                 AddedTwice(have, config, IsV6(net.ip), name, earlier, earlierProtos, protos), p);
  }

  lemma {:induction false} FirstMappingAppend(a: seq<PortMapEntry>, b: seq<PortMapEntry>, isV6: bool, p: Packet)
    ensures FirstMapping(a + b, isV6, p) ==
            if FirstMapping(a, isV6, p).Some? then FirstMapping(a, isV6, p) else FirstMapping(b, isV6, p)
  {
    if a == [] {
      assert a + b == b;
    } else {
      assert (a + b)[1..] == a[1..] + b;
      FirstMappingAppend(a[1..], b, isV6, p);
    }
  }

  /** So a packet goes where the new mappings alone would send it exactly when the conditions do not hold for
      it, or no old mapping matches it, or the first new one sends it to the same port. */
  lemma ChangedExactly(config: PortMapConf, net: IPNet, earlier: seq<PortMapEntry>, p: Packet)
    ensures Forwarded(With(config, earlier + config.portMaps), net, p) == Forwarded(config, net, p) <==>
            var v6 := IsV6(net.ip);
            var before, after := FirstMapping(earlier, v6, p), FirstMapping(config.portMaps, v6, p);
            || !ConditionsHold(config, v6, p)
            || before.None?
            || (after.Some? && after.value.containerPort == before.value.containerPort)
  {
    FirstMappingAppend(earlier, config.portMaps, IsV6(net.ip), p);
    assert ConditionsOf(With(config, earlier + config.portMaps), IsV6(net.ip)) == ConditionsOf(config, IsV6(net.ip));
  }

  /** Host port 8080 moved from container port 80 to 81: packets to it still go to port 80. */
  lemma MovedPortStays(config: PortMapConf, net: IPNet, p: Packet)
    requires config.conditionsV4.None? && config.conditionsV6.None?
    requires config.portMaps == [PortMapEntry(8080, 81, "tcp", None)] && p.proto == "tcp" && p.dport == 8080
    ensures Forwarded(config, net, p).verdict == Redirected(net.ip, 81)
    ensures Forwarded(With(config, [PortMapEntry(8080, 80, "tcp", None)] + config.portMaps), net, p).verdict ==
            Redirected(net.ip, 80)
  {
    var earlier := [PortMapEntry(8080, 80, "tcp", None)];
    FirstMappingAppend(earlier, config.portMaps, IsV6(net.ip), p);
    assert MappingMatches(earlier[0], IsV6(net.ip), p) && MappingMatches(config.portMaps[0], IsV6(net.ip), p);
  }
}
