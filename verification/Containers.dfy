/** plugins/meta/portmap/portmap.go for several containers that share one table. */
module Containers {
  import opened Options
  import opened GoNet
  import opened IPTables
  import opened Chains
  import opened Portmap
  import opened Forward

  /** What forwardPorts is called with: the chain's name comes from the container's id. */
  datatype Container = Container(config: PortMapConf, net: IPNet, name: string, protos: seq<string>)

  function DnatOf(c: Container): Chain { DnatChain(c.config, c.net, c.name, c.protos) }

  function ForwardOne(t: Table, c: Container): Done { SetUpAll(t, ChainsOf(c.config, c.net, c.name, c.protos)) }

  /** One container after the other. */
  function ForwardAll(t: Table, cs: seq<Container>): Table
    decreases |cs|
  {
    if cs == [] then t else ForwardAll(ForwardOne(t, cs[0]).table, cs[1..])
  }

  /** The first container that has a mapping for the packet decides. */
  function FirstForwarded(cs: seq<Container>, p: Packet): Outcome {
    if cs == [] then Outcome(p, Through)
    else
      var o := Forwarded(cs[0].config, cs[0].net, p);
      if o.verdict.Through? then FirstForwarded(cs[1..], o.packet) else o
  }

  /** The shared chains are complete. */
  predicate SharedThere(t: Table, config: PortMapConf) {
    forall i {:trigger SharedChains(config)[i]} :: 0 <= i < |SharedChains(config)| ==>
      Checked(t, SharedChains(config)[i])
  }

  /** A container that can be forwarded next: its chain is new, its comment within the limit. */
  ghost predicate Next(t: Table, others: set<string>, depth: nat, c: Container) {
    && Before(t, others, depth, c.config, c.name) && SharedThere(t, c.config)
    && ProtosOf(c.config.portMaps, c.protos)
    && (c.config.portMaps == [] || |CommentOf(c.config)| <= COMMENT_LIMIT)
  }

  /** They can be forwarded one after the other. */
  ghost predicate Waiting(t: Table, others: set<string>, depth: nat, cs: seq<Container>) {
    && (forall i {:trigger cs[i]} :: 0 <= i < |cs| ==> Next(t, others, depth, cs[i]))
    && forall i, j {:trigger cs[i], cs[j]} :: 0 <= i < j < |cs| ==> cs[i].name != cs[j].name
  }

  /** Where the shared chains are complete, forwarding is setting up the container's chain, and succeeds. */
  lemma ForwardIsSetUp(t: Table, others: set<string>, depth: nat, c: Container)
    requires Next(t, others, depth, c)
    ensures ForwardOne(t, c) == SetUp(t, DnatOf(c)) && ForwardOne(t, c).err.None?
  {
    SetUpMore(t, SharedChains(c.config), DnatOf(c));
    AllCheckedStays(t, SharedChains(c.config));
    GeneratedIsAccepted(t, c.config, c.net, c.name, c.protos);
  }

  /** The table after it. */
  lemma ForwardTable(t: Table, others: set<string>, depth: nat, c: Container)
    requires Next(t, others, depth, c)
    ensures var have := t[TOP_LEVEL_DNAT]; var added := Added(have, c.config, IsV6(c.net.ip), c.name, c.protos);
      && ForwardOne(t, c).table == t[c.name := Fresh([], DnatRules(c.config, c.net, c.config.portMaps))]
                                    [TOP_LEVEL_DNAT := have + added]
      && AllJump(added, c.name)
  {
    ForwardIsSetUp(t, others, depth, c);
    DnatTable(t, c.config, c.net, c.name, c.protos);
    FreshEntriesJump(t[TOP_LEVEL_DNAT], Entries(EntryRules(c.config, IsV6(c.net.ip), c.protos), c.name), c.name);
  }

  lemma RulesInto(c: Container, others: set<string>)
    requires c.config.snat ==> SetMarkChainOf(c.config) in others
    ensures Into(Fresh([], DnatRules(c.config, c.net, c.config.portMaps)), others)
  {
    var rules := DnatRules(c.config, c.net, c.config.portMaps);
    var f := Fresh([], rules);
    forall i | 0 <= i < |f| && f[i].target.Jump? ensures f[i].target.chain in others {
      FreshMembers([], rules, f[i]);
      DnatRulesSimple(c.config, c.net, c.config.portMaps, f[i]);
    }
  }

  // ---------- Each container finds what it needs ----------

  /** The chains that others may reach, with this container's own. */
  lemma StillClosed(t: Table, others: set<string>, depth: nat, c: Container)
    requires Next(t, others, depth, c)
    ensures var t' := ForwardOne(t, c).table; var more := others + {c.name};
      && Agree(t, t', others) && Closed(t', more) && TOP_LEVEL_DNAT !in more
      && TOP_LEVEL_DNAT in t' && Into(t'[TOP_LEVEL_DNAT], more)
  {
    ForwardTable(t, others, depth, c);
    RulesInto(c, others);
    var t' := ForwardOne(t, c).table;
    forall k | k in others + {c.name} ensures k in t' && Into(t'[k], others + {c.name}) {
      if k != c.name { assert Into(t[k], others); }
    }
    var have := t[TOP_LEVEL_DNAT];
    var added := Added(have, c.config, IsV6(c.net.ip), c.name, c.protos);
    var top: seq<Rule> := have + added;
    forall i | 0 <= i < |top| && top[i].target.Jump? ensures top[i].target.chain in others + {c.name} {
      if i >= |have| { assert JumpsTo(added[i - |have|], c.name); }
    }
  }

  lemma SharedStays(t: Table, t': Table, config: PortMapConf)
    requires SharedThere(t, config) && t.Keys <= t'.Keys && forall k, r :: Has(t, k, r) ==> Has(t', k, r)
    ensures SharedThere(t', config)
  {
    forall i | 0 <= i < |SharedChains(config)| ensures Checked(t', SharedChains(config)[i]) {
      CheckedGrows(t, t', SharedChains(config)[i]);
    }
  }

  /** Forwarding one container leaves another one that waits able to be forwarded. */
  lemma StillNext(t: Table, others: set<string>, depth: nat, c: Container, d: Container)
    requires Next(t, others, depth, c) && Next(t, others, depth, d) && c.name != d.name
    ensures Next(ForwardOne(t, c).table, others + {c.name}, depth, d)
  {
    var t' := ForwardOne(t, c).table;
    ForwardIsSetUp(t, others, depth, c);
    SetUpConsistent(t, DnatOf(c));
    SetUpKeys(t, DnatOf(c));
    SetUpGrows(t, DnatOf(c));
    StillClosed(t, others, depth, c);
    SharedStays(t, t', d.config);
    if d.config.snat {
      MarksElsewhere(t, t', others, depth - 2, SetMarkChainOf(d.config), d.config.markMasqBit);
    }
  }

  lemma StillWaiting(t: Table, others: set<string>, depth: nat, cs: seq<Container>)
    requires cs != [] && Waiting(t, others, depth, cs)
    ensures Waiting(ForwardOne(t, cs[0]).table, others + {cs[0].name}, depth, cs[1..])
  {
    var rest := cs[1..];
    forall i | 0 <= i < |rest| ensures Next(ForwardOne(t, cs[0]).table, others + {cs[0].name}, depth, rest[i]) {
      assert rest[i] == cs[i + 1];
      StillNext(t, others, depth, cs[0], cs[i + 1]);
    }
    forall i, j | 0 <= i < j < |rest| ensures rest[i].name != rest[j].name {
      assert rest[i] == cs[i + 1] && rest[j] == cs[j + 1];
    }
  }

  /** After any containers have been forwarded, a packet goes where the rules that were there send it, and otherwise
      where the first container that has a mapping for it sends it. */
  lemma {:induction false} SeveralMeaning(t: Table, others: set<string>, depth: nat, cs: seq<Container>, p: Packet)
    requires Waiting(t, others, depth, cs) && TOP_LEVEL_DNAT in t
    ensures var t' := ForwardAll(t, cs);
      && TOP_LEVEL_DNAT in t'
      && Eval(t', depth, t'[TOP_LEVEL_DNAT], p) ==
         var o := Eval(t, depth, t[TOP_LEVEL_DNAT], p);
         if o.verdict.Through? then FirstForwarded(cs, o.packet) else o
    decreases |cs|
  {
    if cs != [] {
      var c := cs[0];
      StillWaiting(t, others, depth, cs);
      ForwardIsSetUp(t, others, depth, c);
      PortmapMeaning(t, others, depth, c.config, c.net, c.name, c.protos, p);
      SeveralMeaning(ForwardOne(t, c).table, others + {c.name}, depth, cs[1..], p);
    }
  }

  // ---------- The containers of one network ----------

  predicate SameNetwork(config: PortMapConf, base: PortMapConf) {
    && config.snat == base.snat && config.markMasqBit == base.markMasqBit
    && config.externalSetMarkChain == base.externalSetMarkChain
  }

  /** Containers of one network, on a table that has none of the plugin's chains. */
  ghost predicate FreshNetwork(t: Table, base: PortMapConf, cs: seq<Container>) {
    && Consistent(t) && SET_MARK !in t && MARK_MASQ !in t && TOP_LEVEL_DNAT !in t
    && base.externalSetMarkChain.None? && SetUpAll(t, SharedChains(base)).err.None?
    && (forall i {:trigger cs[i]} :: 0 <= i < |cs| ==>
          && SameNetwork(cs[i].config, base) && ProtosOf(cs[i].config.portMaps, cs[i].protos)
          && cs[i].name !in t && cs[i].name !in {SET_MARK, MARK_MASQ, TOP_LEVEL_DNAT}
          && (cs[i].config.portMaps == [] || |CommentOf(cs[i].config)| <= COMMENT_LIMIT))
    && forall i, j {:trigger cs[i], cs[j]} :: 0 <= i < j < |cs| ==> cs[i].name != cs[j].name
  }

  /** Once the shared chains are set up they can all be forwarded. */
  lemma NetworkWaits(t: Table, base: PortMapConf, cs: seq<Container>, depth: nat)
    requires FreshNetwork(t, base, cs) && depth > 1
    ensures Waiting(SetUpAll(t, SharedChains(base)).table, OwnMarks(base), depth, cs)
  {
    var s := SetUpAll(t, SharedChains(base)).table;
    forall i | 0 <= i < |cs| ensures Next(s, OwnMarks(base), depth, cs[i]) {
      SameShared(cs[i].config, base);
      SharedBefore(t, cs[i].config, cs[i].name, depth);
      forall k | 0 <= k < |SharedChains(base)| ensures Checked(s, SharedChains(base)[k]) {
        SetUpAllChecked(t, SharedChains(base), k);
      }
    }
  }

  /** Forwarding a network's containers, whichever comes first and sets up the shared chains: a packet in the
      top-level chain goes where the first container that has a mapping for it sends it. */
  lemma NetworkMeaning(t: Table, base: PortMapConf, cs: seq<Container>, depth: nat, p: Packet)
    requires FreshNetwork(t, base, cs) && depth > 1 && cs != []
    ensures var t' := ForwardAll(t, cs);
      TOP_LEVEL_DNAT in t' && Eval(t', depth, t'[TOP_LEVEL_DNAT], p) == FirstForwarded(cs, p)
  {
    NetworkWaits(t, base, cs, depth);
    SharedOnce(t, base, cs, depth);
    SharedIsEmpty(t, base, cs, depth);
    SeveralOnEmpty(SetUpAll(t, SharedChains(base)).table, OwnMarks(base), depth, cs, p);
  }

  lemma SharedIsEmpty(t: Table, base: PortMapConf, cs: seq<Container>, depth: nat)
    requires FreshNetwork(t, base, cs) && depth > 1 && cs != []
    ensures var s := SetUpAll(t, SharedChains(base)).table; TOP_LEVEL_DNAT in s && s[TOP_LEVEL_DNAT] == []
  {
    SameShared(cs[0].config, base);
    SharedBefore(t, cs[0].config, cs[0].name, depth);
  }

  lemma SeveralOnEmpty(t: Table, others: set<string>, depth: nat, cs: seq<Container>, p: Packet)
    requires Waiting(t, others, depth, cs) && TOP_LEVEL_DNAT in t && t[TOP_LEVEL_DNAT] == []
    ensures var t' := ForwardAll(t, cs);
      TOP_LEVEL_DNAT in t' && Eval(t', depth, t'[TOP_LEVEL_DNAT], p) == FirstForwarded(cs, p)
  {
    SeveralMeaning(t, others, depth, cs, p);
  }

  /** Setting up the shared chains beforehand makes no difference. */
  lemma SharedOnce(t: Table, base: PortMapConf, cs: seq<Container>, depth: nat)
    requires FreshNetwork(t, base, cs) && depth > 1 && cs != []
    ensures ForwardAll(t, cs) == ForwardAll(SetUpAll(t, SharedChains(base)).table, cs)
  {
    NetworkWaits(t, base, cs, depth);
    FirstOnce(t, base, OwnMarks(base), depth, cs[0]);
  }

  lemma FirstOnce(t: Table, base: PortMapConf, others: set<string>, depth: nat, c: Container)
    requires SetUpAll(t, SharedChains(base)).err.None? && SameNetwork(c.config, base)
    requires Next(SetUpAll(t, SharedChains(base)).table, others, depth, c)
    ensures ForwardOne(t, c) == ForwardOne(SetUpAll(t, SharedChains(base)).table, c)
  {
    SameShared(c.config, base);
    SetUpMore(t, SharedChains(base), DnatOf(c));
    ForwardIsSetUp(SetUpAll(t, SharedChains(base)).table, others, depth, c);
  }

  lemma SameShared(config: PortMapConf, base: PortMapConf)
    requires SameNetwork(config, base)
    ensures SharedChains(config) == SharedChains(base)
  {
  }

  // ---------- DEL of one leaves the others ----------

  lemma {:induction false} FreshOfOthers(a: seq<Rule>, b: seq<Rule>, rules: seq<Rule>)
    requires forall r :: r in rules ==> r !in a && r !in b
    ensures Fresh(a, rules) == Fresh(b, rules)
  {
    if rules != [] { FreshOfOthers(a, b, rules[..|rules| - 1]); }
  }

  /** Entry rules of one chain are new wherever nothing jumps to it. */
  lemma SameAdded(a: seq<Rule>, b: seq<Rule>, c: Container)
    requires !Refers(a, c.name) && !Refers(b, c.name)
    ensures var v6 := IsV6(c.net.ip);
      Added(a, c.config, v6, c.name, c.protos) == Added(b, c.config, v6, c.name, c.protos)
  {
    var e := Entries(EntryRules(c.config, IsV6(c.net.ip), c.protos), c.name);
    forall r | r in e ensures r !in a && r !in b {
      assert JumpsTo(r, c.name);
    }
    FreshOfOthers(a, b, e);
  }

  /** What the other container's setup adds has no jumps to this one. */
  lemma NoJumpsIn(rules: seq<Rule>, name: string, other: string)
    requires AllJump(rules, other) && name != other
    ensures !Refers(rules, name) && RemoveJumps(rules, name) == rules
  {
    NoJumpsLeft(rules, name);
  }

  /** The table has the chain `name`, which only the top-level chain jumps to; without it, it would be `v`. */
  ghost predicate Extra(u: Table, v: Table, name: string) {
    && name in u && name != TOP_LEVEL_DNAT && TOP_LEVEL_DNAT in u
    && v.Keys == u.Keys - {name} && v[TOP_LEVEL_DNAT] == RemoveJumps(u[TOP_LEVEL_DNAT], name)
    && forall k {:trigger v[k]} :: k in v && k != TOP_LEVEL_DNAT ==> v[k] == u[k] && !Refers(u[k], name)
  }

  /** That is what teardown makes of it. */
  lemma ExtraTornDown(u: Table, v: Table, name: string)
    requires Extra(u, v, name)
    ensures TearDown(u, GenDnatChain(name)) == Done(v, None)
  {
    var c := GenDnatChain(name);
    var w := Unlinked(u, c);
    UnlinkedName(u, c);
    NoJumpsLeft(u[TOP_LEVEL_DNAT], name);
    forall k | k in w ensures !Refers(w[k], name) && (k in v ==> w[k] == v[k]) {
      if k != name { assert k in v && (k != TOP_LEVEL_DNAT ==> v[k] == u[k]); }
    }
    assert w - {name} == v;
  }

  lemma ForwardedIsExtra(t: Table, others: set<string>, depth: nat, c: Container)
    requires Next(t, others, depth, c)
    ensures Extra(ForwardOne(t, c).table, t, c.name)
  {
    var u, have := ForwardOne(t, c).table, t[TOP_LEVEL_DNAT];
    var added := Added(have, c.config, IsV6(c.net.ip), c.name, c.protos);
    ForwardTable(t, others, depth, c);
    forall k | k in t ensures !Refers(t[k], c.name) { AbsentIsUnreferenced(t, c.name, k); }
    NoJumpsLeft(have, c.name);
    AllJumpsGone(added, c.name);
    RemoveJumpsAppend(have, added, c.name);
  }

  lemma {:induction false} AllJumpsGone(rules: seq<Rule>, name: string)
    requires AllJump(rules, name)
    ensures RemoveJumps(rules, name) == []
  {
    if rules != [] {
      var init := rules[..|rules| - 1];
      assert forall i :: 0 <= i < |init| ==> init[i] == rules[i];
      AllJumpsGone(init, name);
    }
  }

  /** Forwarding another container keeps the relation: setup of one and teardown of the other commute. */
  lemma ExtraStays(u: Table, v: Table, name: string, others: set<string>, more: set<string>, depth: nat, c: Container)
    requires Extra(u, v, name) && name !in others && c.name != name
    requires Next(v, others, depth, c) && Next(u, more, depth, c)
    ensures Extra(ForwardOne(u, c).table, ForwardOne(v, c).table, name)
  {
    ForwardTable(u, more, depth, c);
    ForwardTable(v, others, depth, c);
    AbsentIsUnreferenced(u, c.name, TOP_LEVEL_DNAT);
    AbsentIsUnreferenced(v, c.name, TOP_LEVEL_DNAT);
    TopStays(u[TOP_LEVEL_DNAT], v[TOP_LEVEL_DNAT], name, c);
    RulesInto(c, others);
  }

  lemma TopStays(have: seq<Rule>, kept: seq<Rule>, name: string, c: Container)
    requires kept == RemoveJumps(have, name) && c.name != name && !Refers(have, c.name) && !Refers(kept, c.name)
    ensures var v6 := IsV6(c.net.ip);
      RemoveJumps(have + Added(have, c.config, v6, c.name, c.protos), name) ==
      kept + Added(kept, c.config, v6, c.name, c.protos)
  {
    var added := Added(have, c.config, IsV6(c.net.ip), c.name, c.protos);
    FreshEntriesJump(have, Entries(EntryRules(c.config, IsV6(c.net.ip), c.protos), c.name), c.name);
    SameAdded(have, kept, c);
    NoJumpsIn(added, name, c.name);
    RemoveJumpsAppend(have, added, name);
  }

  lemma {:induction false} ExtraAfterAll(u: Table, v: Table, name: string, others: set<string>, more: set<string>,
                                         depth: nat, cs: seq<Container>)
    requires Extra(u, v, name) && name !in others && Waiting(v, others, depth, cs) && Waiting(u, more, depth, cs)
    ensures Extra(ForwardAll(u, cs), ForwardAll(v, cs), name)
    decreases |cs|
  {
    if cs != [] {
      var c := cs[0];
      ExtraStays(u, v, name, others, more, depth, c);
      StillWaiting(u, more, depth, cs);
      StillWaiting(v, others, depth, cs);
      ExtraAfterAll(ForwardOne(u, c).table, ForwardOne(v, c).table, name, others + {c.name}, more + {c.name}, depth,
                    cs[1..]);
    }
  }

  lemma WaitingTail(t: Table, others: set<string>, depth: nat, a: Container, cs: seq<Container>)
    requires Waiting(t, others, depth, [a] + cs)
    ensures Waiting(t, others, depth, cs) && Next(t, others, depth, a)
    ensures Waiting(ForwardOne(t, a).table, others + {a.name}, depth, cs)
  {
    var all := [a] + cs;
    assert all[0] == a && all[1..] == cs;
    forall i | 0 <= i < |cs| ensures Next(t, others, depth, cs[i]) { assert all[i + 1] == cs[i]; }
    forall i, j | 0 <= i < j < |cs| ensures cs[i].name != cs[j].name {
      assert all[i + 1] == cs[i] && all[j + 1] == cs[j];
    }
    StillWaiting(t, others, depth, all);
  }

  /** ADD of any containers, then DEL of one of them: the table is as if that one had never been added, so that
      `SeveralMeaning` holds for the others. */
  lemma {:induction false} UnforwardLeavesOthers(t: Table, others: set<string>, depth: nat, before: seq<Container>,
                                                 a: Container, after: seq<Container>)
    requires Waiting(t, others, depth, before + [a] + after)
    ensures TearDown(ForwardAll(t, before + [a] + after), GenDnatChain(a.name)) ==
            Done(ForwardAll(t, before + after), None)
    decreases |before|
  {
    if before == [] {
      assert [] + [a] + after == [a] + after && [] + after == after;
      WaitingTail(t, others, depth, a, after);
      assert ([a] + after)[1..] == after;
      ForwardedIsExtra(t, others, depth, a);
      ExtraAfterAll(ForwardOne(t, a).table, t, a.name, others, others + {a.name}, depth, after);
      ExtraTornDown(ForwardAll(t, [a] + after), ForwardAll(t, after), a.name);
    } else {
      assert (before + [a] + after)[1..] == before[1..] + [a] + after && (before + after)[1..] == before[1..] + after;
      StillWaiting(t, others, depth, before + [a] + after);
      UnforwardLeavesOthers(ForwardOne(t, before[0]).table, others + {before[0].name}, depth, before[1..], a, after);
    }
  }
}
