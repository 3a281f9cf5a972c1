/** plugins/meta/portmap/chain.go: setting up, checking and tearing down a chain with its entry rules. */
module Chains {
  import opened Options
  import opened IPTables

  /** The entry rules are to get "-j <name>" appended. */
  datatype Chain = Chain(name: string, entryChains: seq<string>, entryRules: seq<seq<Match>>, rules: seq<Rule>,
                         prependEntry: bool)

  datatype Done = Done(table: Table, err: Option<Failure>)

  function Entries(entryRules: seq<seq<Match>>, name: string): (e: seq<Rule>)
    ensures |e| == |entryRules| && forall i :: 0 <= i < |e| ==> e[i] == Rule(entryRules[i], Jump(name))
  {
    seq(|entryRules|, i requires 0 <= i < |entryRules| => Rule(entryRules[i], Jump(name)))
  }

  predicate Has(t: Table, chain: string, rule: Rule) { chain in t && rule in t[chain] }

  // ---------- setup and teardown as functions of the table ----------

  function InsertedUnique(t: Table, chain: string, prepend: bool, rule: Rule): Done {
    if Has(t, chain, rule) then Done(t, None)
    else if Refusal(t, chain, rule).Some? then Done(t, Refusal(t, chain, rule))
    else Done(t[chain := if prepend then [rule] + t[chain] else t[chain] + [rule]], None)
  }

  /** One rule after the other, up to the first failure. */
  function InsertedAll(t: Table, chain: string, prepend: bool, rules: seq<Rule>): Done {
    if rules == [] then Done(t, None)
    else
      var d := InsertedAll(t, chain, prepend, rules[..|rules| - 1]);
      if d.err.Some? then d else InsertedUnique(d.table, chain, prepend, rules[|rules| - 1])
  }

  function InsertedInAll(t: Table, chains: seq<string>, prepend: bool, rules: seq<Rule>): Done {
    if chains == [] then Done(t, None)
    else
      var d := InsertedInAll(t, chains[..|chains| - 1], prepend, rules);
      if d.err.Some? then d else InsertedAll(d.table, chains[|chains| - 1], prepend, rules)
  }

  function Ensured(t: Table, name: string): Table { if name in t then t else t[name := []] }

  function SetUp(t: Table, c: Chain): Done {
    var d := InsertedAll(Ensured(t, c.name), c.name, false, c.rules);
    if d.err.Some? then d else InsertedInAll(d.table, c.entryChains, c.prependEntry, Entries(c.entryRules, c.name))
  }

  function RemoveJumps(rules: seq<Rule>, name: string): seq<Rule> {
    if rules == [] then []
    else RemoveJumps(rules[..|rules| - 1], name)
         + (if JumpsTo(rules[|rules| - 1], name) then [] else [rules[|rules| - 1]])
  }

  /** The chain flushed, and the jumps to it gone from its entry chains. */
  function Unlinked(t: Table, c: Chain): Table { UnlinkedFrom(t[c.name := []], c.name, c.entryChains) }

  function UnlinkedFrom(t: Table, name: string, entryChains: seq<string>): Table {
    map k | k in t :: if k in entryChains then RemoveJumps(t[k], name) else t[k]
  }

  /** The chain is deleted unless some other chain still jumps to it. */
  function TearDown(t: Table, c: Chain): Done {
    var u := Unlinked(t, c);
    if Referenced(u, c.name) then Done(u, Some(ChainInUse)) else Done(u - {c.name}, None)
  }

  predicate Checked(t: Table, c: Chain) {
    && c.name in t
    && (forall r {:trigger r in c.rules} :: r in c.rules ==> Has(t, c.name, r))
    && (forall k, e {:trigger Has(t, k, e)} ::
          k in c.entryChains && e in Entries(c.entryRules, c.name) ==> Has(t, k, e))
  }

  // ---------- The methods ----------

  method InsertUnique(ipt: IPTables, chain: string, prepend: bool, rule: Rule) returns (err: Option<Failure>)
    modifies ipt
    ensures Done(ipt.chains, err) == InsertedUnique(old(ipt.chains), chain, prepend, rule)
  {
    var found := ipt.Exists(chain, rule);
    if found { return None; }
    if prepend {
      err := ipt.Prepend(chain, rule);
    } else {
      err := ipt.Append(chain, rule);
    }
  }

  method Setup(c: Chain, ipt: IPTables) returns (err: Option<Failure>)
    modifies ipt
    ensures Done(ipt.chains, err) == SetUp(old(ipt.chains), c)
  {
    err := EnsureChain(ipt, c.name);
    ghost var t := ipt.chains;
    for i := 0 to |c.rules|
      invariant InsertedAll(t, c.name, false, c.rules[..i]) == Done(ipt.chains, None)
    {
      assert c.rules[..i + 1][..i] == c.rules[..i];
      err := InsertUnique(ipt, c.name, false, c.rules[i]);
      if err.Some? {
        InsertedAllStops(t, c.name, false, c.rules, i + 1);
        return;
      }
    }
    assert c.rules[..|c.rules|] == c.rules;
    err := SetupEntries(c, ipt);
  }

  /** The loops over the entry chains and the entry rules. */
  method SetupEntries(c: Chain, ipt: IPTables) returns (err: Option<Failure>)
    modifies ipt
    ensures Done(ipt.chains, err) ==
            InsertedInAll(old(ipt.chains), c.entryChains, c.prependEntry, Entries(c.entryRules, c.name))
  {
    ghost var t, all := ipt.chains, Entries(c.entryRules, c.name);
    for k := 0 to |c.entryChains|
      invariant InsertedInAll(t, c.entryChains[..k], c.prependEntry, all) == Done(ipt.chains, None)
    {
      InsertedInAllNext(t, c.entryChains, c.prependEntry, all, k);
      err := SetupEntry(c, ipt, c.entryChains[k]);
      if err.Some? {
        InsertedInAllStops(t, c.entryChains, c.prependEntry, all, k + 1);
        return;
      }
    }
    assert c.entryChains[..|c.entryChains|] == c.entryChains;
    return None;
  }

  lemma InsertedInAllNext(t: Table, chains: seq<string>, prepend: bool, rules: seq<Rule>, k: nat)
    requires k < |chains| && InsertedInAll(t, chains[..k], prepend, rules).err.None?
    ensures InsertedInAll(t, chains[..k + 1], prepend, rules) ==
            InsertedAll(InsertedInAll(t, chains[..k], prepend, rules).table, chains[k], prepend, rules)
  {
    assert chains[..k + 1][..k] == chains[..k];
  }

  method SetupEntry(c: Chain, ipt: IPTables, entryChain: string) returns (err: Option<Failure>)
    modifies ipt
    ensures Done(ipt.chains, err) ==
            InsertedAll(old(ipt.chains), entryChain, c.prependEntry, Entries(c.entryRules, c.name))
  {
    ghost var t, all := ipt.chains, Entries(c.entryRules, c.name);
    for i := 0 to |c.entryRules|
      invariant InsertedAll(t, entryChain, c.prependEntry, all[..i]) == Done(ipt.chains, None)
    {
      assert all[..i + 1][..i] == all[..i];
      err := InsertUnique(ipt, entryChain, c.prependEntry, Rule(c.entryRules[i], Jump(c.name)));
      if err.Some? {
        InsertedAllStops(t, entryChain, c.prependEntry, all, i + 1);
        return;
      }
    }
    assert all[..|all|] == all;
    return None;
  }

  lemma {:induction false} InsertedAllStops(t: Table, chain: string, prepend: bool, rules: seq<Rule>, n: nat)
    requires n <= |rules| && InsertedAll(t, chain, prepend, rules[..n]).err.Some?
    ensures InsertedAll(t, chain, prepend, rules) == InsertedAll(t, chain, prepend, rules[..n])
    decreases |rules|
  {
    if n == |rules| {
      assert rules[..n] == rules;
    } else {
      assert rules[..|rules| - 1][..n] == rules[..n];
      InsertedAllStops(t, chain, prepend, rules[..|rules| - 1], n);
    }
  }

  lemma {:induction false} InsertedInAllStops(t: Table, chains: seq<string>, prepend: bool, rules: seq<Rule>, n: nat)
    requires n <= |chains| && InsertedInAll(t, chains[..n], prepend, rules).err.Some?
    ensures InsertedInAll(t, chains, prepend, rules) == InsertedInAll(t, chains[..n], prepend, rules)
    decreases |chains|
  {
    if n == |chains| {
      assert chains[..n] == chains;
    } else {
      assert chains[..|chains| - 1][..n] == chains[..n];
      InsertedInAllStops(t, chains[..|chains| - 1], prepend, rules, n);
    }
  }

  method Check(c: Chain, ipt: IPTables) returns (ok: bool)
    ensures ok <==> Checked(ipt.chains, c)
  {
    if c.name !in ipt.chains { return false; }
    var i := |c.rules|;
    while i > 0
      invariant 0 <= i <= |c.rules|
      invariant forall j :: i <= j < |c.rules| ==> Has(ipt.chains, c.name, c.rules[j])
    {
      i := i - 1;
      var found := ipt.Exists(c.name, c.rules[i]);
      if !found {
        assert c.rules[i] in c.rules && !Has(ipt.chains, c.name, c.rules[i]);
        return false;
      }
    }
    ghost var all := Entries(c.entryRules, c.name);
    for k := 0 to |c.entryChains|
      invariant forall m, j :: 0 <= m < k && 0 <= j < |all| ==> Has(ipt.chains, c.entryChains[m], all[j])
    {
      i := |c.entryRules|;
      while i > 0
        invariant 0 <= i <= |c.entryRules|
        invariant forall j :: i <= j < |all| ==> Has(ipt.chains, c.entryChains[k], all[j])
      {
        i := i - 1;
        var found := ipt.Exists(c.entryChains[k], Rule(c.entryRules[i], Jump(c.name)));
        if !found {
          assert c.entryChains[k] in c.entryChains && all[i] in all && !Has(ipt.chains, c.entryChains[k], all[i]);
          return false;
        }
      }
    }
    return true;
  }

  method Teardown(c: Chain, ipt: IPTables) returns (err: Option<Failure>)
    modifies ipt
    ensures Done(ipt.chains, err) == TearDown(old(ipt.chains), c)
  {
    err := ipt.ClearChain(c.name);
    ghost var t := ipt.chains;
    for k := 0 to |c.entryChains|
      invariant ipt.chains == UnlinkedFrom(t, c.name, c.entryChains[..k])
    {
      assert c.entryChains[..k + 1] == c.entryChains[..k] + [c.entryChains[k]];
      UnlinkStep(t, c.name, c.entryChains[..k], c.entryChains[k]);
      TeardownEntry(c, ipt, c.entryChains[k]);
    }
    assert c.entryChains[..|c.entryChains|] == c.entryChains;
    UnlinkedName(old(ipt.chains), c);
    err := DeleteChain(ipt, c.name);
  }

  /** Deletes the rules that jump to the chain, found in a listing made beforehand. */
  method TeardownEntry(c: Chain, ipt: IPTables, entryChain: string)
    modifies ipt
    ensures ipt.chains == if entryChain in old(ipt.chains)
                          then old(ipt.chains)[entryChain := RemoveJumps(old(ipt.chains)[entryChain], c.name)]
                          else old(ipt.chains)
  {
    var listed := ipt.List(entryChain);
    if listed.None? { return; }
    var rules := listed.value;
    ghost var t := ipt.chains;
    RemovedBounds(rules, c.name);
    assert t[entryChain := rules] == t;
    for i := 0 to |rules|
      invariant ipt.chains == t[entryChain := Removed(rules, c.name, i)]
    {
      TeardownRule(c, ipt, entryChain, rules, i);
    }
  }

  /** The jumps among the first `i` rules are gone. */
  function Removed(rules: seq<Rule>, name: string, i: nat): seq<Rule>
    requires i <= |rules|
  {
    RemoveJumps(rules[..i], name) + rules[i..]
  }

  lemma RemovedBounds(rules: seq<Rule>, name: string)
    ensures Removed(rules, name, 0) == rules && Removed(rules, name, |rules|) == RemoveJumps(rules, name)
  {
    assert rules[..|rules|] == rules;
  }

  method TeardownRule(c: Chain, ipt: IPTables, entryChain: string, rules: seq<Rule>, i: nat)
    requires i < |rules| && entryChain in ipt.chains
    requires ipt.chains[entryChain] == Removed(rules, c.name, i)
    modifies ipt
    ensures ipt.chains == old(ipt.chains)[entryChain := Removed(rules, c.name, i + 1)]
  {
    ghost var kept := RemoveJumps(rules[..i], c.name);
    assert rules[..i + 1][..i] == rules[..i] && rules[i..] == [rules[i]] + rules[i + 1..];
    assert kept + rules[i..] == kept + [rules[i]] + rules[i + 1..];
    if JumpsTo(rules[i], c.name) {
      NoJumpsLeft(rules[..i], c.name);
      assert rules[i] !in kept;
      WithoutFirstAfter(kept, rules[i], rules[i + 1..]);
      assert ipt.chains[entryChain][|kept|] == rules[i];
      assert RemoveJumps(rules[..i + 1], c.name) == kept;
      var _ := DeleteRule(ipt, entryChain, rules[i]);
    } else {
      assert RemoveJumps(rules[..i + 1], c.name) == kept + [rules[i]];
      assert ipt.chains[entryChain := ipt.chains[entryChain]] == ipt.chains;
    }
  }

  // ---------- Removing jumps ----------

  lemma {:induction false} NoJumpsLeft(rules: seq<Rule>, name: string)
    ensures !Refers(RemoveJumps(rules, name), name)
    ensures !Refers(rules, name) ==> RemoveJumps(rules, name) == rules
  {
    if rules != [] {
      var init := rules[..|rules| - 1];
      NoJumpsLeft(init, name);
      if !Refers(rules, name) {
        assert JumpsTo(rules[|rules| - 1], name) ==> Refers(rules, name);
        assert forall i :: 0 <= i < |init| ==> init[i] == rules[i];
      }
    }
  }

  lemma {:induction false} RemoveJumpsAppend(a: seq<Rule>, b: seq<Rule>, name: string)
    ensures RemoveJumps(a + b, name) == RemoveJumps(a, name) + RemoveJumps(b, name)
    decreases |b|
  {
    if b == [] {
      assert a + b == a;
    } else {
      assert (a + b)[..|a + b| - 1] == a + b[..|b| - 1];
      RemoveJumpsAppend(a, b[..|b| - 1], name);
    }
  }

  /** The rules that are kept stay in order: they are all but the jumps. */
  lemma {:induction false} KeptInOrder(rules: seq<Rule>, name: string, i: nat, j: nat)
    requires i < j < |rules| && !JumpsTo(rules[i], name) && !JumpsTo(rules[j], name)
    ensures exists m, n :: 0 <= m < n < |RemoveJumps(rules, name)|
              && RemoveJumps(rules, name)[m] == rules[i] && RemoveJumps(rules, name)[n] == rules[j]
  {
    assert rules == rules[..i] + [rules[i]] + rules[i + 1..j] + [rules[j]] + rules[j + 1..];
    var a, b, c, d, e := rules[..i], [rules[i]], rules[i + 1..j], [rules[j]], rules[j + 1..];
    RemoveJumpsAppend(a, b, name);
    RemoveJumpsAppend(a + b, c, name);
    RemoveJumpsAppend(a + b + c, d, name);
    RemoveJumpsAppend(a + b + c + d, e, name);
    assert RemoveJumps(b, name) == b by { assert b[..0] == []; }
    assert RemoveJumps(d, name) == d by { assert d[..0] == []; }
    var m := |RemoveJumps(a, name)|;
    var n := m + 1 + |RemoveJumps(c, name)|;
    assert RemoveJumps(rules, name)[m] == rules[i] && RemoveJumps(rules, name)[n] == rules[j];
  }

  lemma {:induction false} WithoutFirstAfter(kept: seq<Rule>, rule: Rule, rest: seq<Rule>)
    requires rule !in kept
    ensures WithoutFirst(kept + [rule] + rest, rule) == kept + rest
  {
    var all := kept + [rule] + rest;
    if kept == [] {
      assert all[1..] == rest && kept + rest == rest;
    } else {
      assert all[1..] == kept[1..] + [rule] + rest;
      WithoutFirstAfter(kept[1..], rule, rest);
      assert all[0] == kept[0] != rule;
      assert [kept[0]] + (kept[1..] + rest) == kept + rest;
    }
  }

  lemma RemoveJumpsTwice(rules: seq<Rule>, name: string)
    ensures RemoveJumps(RemoveJumps(rules, name), name) == RemoveJumps(rules, name)
  {
    NoJumpsLeft(rules, name);
    NoJumpsLeft(RemoveJumps(rules, name), name);
  }

  lemma UnlinkStep(t: Table, name: string, entryChains: seq<string>, e: string)
    ensures var u := UnlinkedFrom(t, name, entryChains);
      UnlinkedFrom(t, name, entryChains + [e]) == if e in u then u[e := RemoveJumps(u[e], name)] else u
  {
    if e in t { RemoveJumpsTwice(t[e], name); }
    var u, v := UnlinkedFrom(t, name, entryChains), UnlinkedFrom(t, name, entryChains + [e]);
    var u' := if e in u then u[e := RemoveJumps(u[e], name)] else u;
    assert v.Keys == u'.Keys;
    forall k | k in t ensures v[k] == u'[k] {
      InAppended(entryChains, e, k);
    }
  }

  lemma InAppended(s: seq<string>, e: string, k: string)
    ensures k in s + [e] <==> k in s || k == e
  {
    assert (s + [e])[|s|] == e;
  }

  lemma UnlinkedName(t: Table, c: Chain)
    ensures c.name in Unlinked(t, c) && Unlinked(t, c)[c.name] == []
  {
    assert RemoveJumps([], c.name) == [];
  }

  // ---------- What setup does ----------

  /** The table has every chain and rule it had. */
  ghost predicate Grown(t: Table, t': Table) {
    t'.Keys == t.Keys && forall k, r {:trigger Has(t', k, r)} :: Has(t, k, r) ==> Has(t', k, r)
  }

  lemma InsertedUniqueFacts(t: Table, chain: string, prepend: bool, rule: Rule)
    ensures var d := InsertedUnique(t, chain, prepend, rule);
      && Grown(t, d.table)
      && (d.err.None? <==> Has(t, chain, rule) || Refusal(t, chain, rule).None?)
      && (d.err.None? <==> Has(d.table, chain, rule))
  {
  }

  /** Accepted or there already. */
  predicate Insertable(t: Table, chain: string, rule: Rule) {
    Has(t, chain, rule) || Refusal(t, chain, rule).None?
  }

  lemma InsertableGrows(t: Table, t': Table, chain: string, rule: Rule)
    requires Grown(t, t') && (forall k, r :: Has(t', k, r) && !Has(t, k, r) ==> Accepts(t, r))
    ensures Insertable(t', chain, rule) <==> Insertable(t, chain, rule)
  {
  }

  ghost predicate OnlyAccepted(t: Table, t': Table) {
    forall k, r {:trigger Has(t', k, r)} :: Has(t', k, r) && !Has(t, k, r) ==> Accepts(t, r)
  }

  predicate AllInsertable(t: Table, chain: string, rules: seq<Rule>) {
    forall i {:trigger rules[i]} :: 0 <= i < |rules| ==> Insertable(t, chain, rules[i])
  }

  predicate HasAll(t: Table, chain: string, rules: seq<Rule>) {
    forall i {:trigger rules[i]} :: 0 <= i < |rules| ==> Has(t, chain, rules[i])
  }

  lemma {:induction false} InsertedAllFacts(t: Table, chain: string, prepend: bool, rules: seq<Rule>)
    ensures var d := InsertedAll(t, chain, prepend, rules);
      && Grown(t, d.table) && OnlyAccepted(t, d.table)
      && (d.err.None? <==> AllInsertable(t, chain, rules))
      && (d.err.None? ==> HasAll(d.table, chain, rules))
  {
    if rules != [] {
      var init, last := rules[..|rules| - 1], rules[|rules| - 1];
      InsertedAllFacts(t, chain, prepend, init);
      var d := InsertedAll(t, chain, prepend, init);
      InsertedUniqueFacts(d.table, chain, prepend, last);
      InsertableGrows(t, d.table, chain, last);
      assert AllInsertable(t, chain, rules) <==> AllInsertable(t, chain, init) && Insertable(t, chain, last) by {
        assert forall i :: 0 <= i < |init| ==> init[i] == rules[i];
      }
    }
  }

  /** All there already: nothing happens. */
  lemma {:induction false} InsertedAllAgain(t: Table, chain: string, prepend: bool, rules: seq<Rule>)
    requires HasAll(t, chain, rules)
    ensures InsertedAll(t, chain, prepend, rules) == Done(t, None)
  {
    if rules != [] {
      var init := rules[..|rules| - 1];
      assert forall i :: 0 <= i < |init| ==> init[i] == rules[i];
      InsertedAllAgain(t, chain, prepend, init);
      assert Has(t, chain, rules[|rules| - 1]);
    }
  }

  predicate AllInsertableIn(t: Table, chains: seq<string>, rules: seq<Rule>) {
    forall i {:trigger chains[i]} :: 0 <= i < |chains| ==> AllInsertable(t, chains[i], rules)
  }

  predicate HaveAll(t: Table, chains: seq<string>, rules: seq<Rule>) {
    forall i {:trigger chains[i]} :: 0 <= i < |chains| ==> HasAll(t, chains[i], rules)
  }

  lemma GrownInsertable(t: Table, t': Table, chain: string, rules: seq<Rule>)
    requires Grown(t, t') && OnlyAccepted(t, t')
    ensures AllInsertable(t', chain, rules) <==> AllInsertable(t, chain, rules)
    ensures HasAll(t, chain, rules) ==> HasAll(t', chain, rules)
  {
    forall i | 0 <= i < |rules| ensures Insertable(t', chain, rules[i]) <==> Insertable(t, chain, rules[i]) {
      InsertableGrows(t, t', chain, rules[i]);
    }
    if AllInsertable(t, chain, rules) {
      forall i | 0 <= i < |rules| ensures Insertable(t', chain, rules[i]) { assert Insertable(t, chain, rules[i]); }
    }
    if AllInsertable(t', chain, rules) {
      forall i | 0 <= i < |rules| ensures Insertable(t, chain, rules[i]) { assert Insertable(t', chain, rules[i]); }
    }
    if HasAll(t, chain, rules) {
      forall i | 0 <= i < |rules| ensures Has(t', chain, rules[i]) { assert Has(t, chain, rules[i]); }
    }
  }

  lemma GrownTwice(t: Table, u: Table, v: Table)
    requires Grown(t, u) && OnlyAccepted(t, u) && Grown(u, v) && OnlyAccepted(u, v)
    ensures Grown(t, v) && OnlyAccepted(t, v)
  {
    forall k, r | Has(t, k, r) ensures Has(v, k, r) { assert Has(u, k, r); }
    forall k, r | Has(v, k, r) && !Has(t, k, r) ensures Accepts(t, r) { assert Has(u, k, r) || Accepts(u, r); }
  }

  lemma {:induction false} InsertedInAllFacts(t: Table, chains: seq<string>, prepend: bool, rules: seq<Rule>)
    ensures var d := InsertedInAll(t, chains, prepend, rules);
      && Grown(t, d.table) && OnlyAccepted(t, d.table)
      && (d.err.None? <==> AllInsertableIn(t, chains, rules))
      && (d.err.None? ==> HaveAll(d.table, chains, rules))
  {
    if chains != [] {
      var init, last := chains[..|chains| - 1], chains[|chains| - 1];
      InsertedInAllFacts(t, init, prepend, rules);
      var d := InsertedInAll(t, init, prepend, rules);
      var e := InsertedAll(d.table, last, prepend, rules);
      InsertedAllFacts(d.table, last, prepend, rules);
      GrownInsertable(t, d.table, last, rules);
      GrownTwice(t, d.table, e.table);
      AllInsertableSplit(t, chains, rules);
      if d.err.None? && e.err.None? {
        forall i | 0 <= i < |init| ensures HasAll(e.table, chains[i], rules) {
          assert HasAll(d.table, init[i], rules);
          GrownInsertable(d.table, e.table, chains[i], rules);
        }
      }
    }
  }

  lemma AllInsertableSplit(t: Table, chains: seq<string>, rules: seq<Rule>)
    requires chains != []
    ensures AllInsertableIn(t, chains, rules) <==>
            AllInsertableIn(t, chains[..|chains| - 1], rules) && AllInsertable(t, chains[|chains| - 1], rules)
  {
    var init := chains[..|chains| - 1];
    assert forall i :: 0 <= i < |init| ==> init[i] == chains[i];
    if AllInsertableIn(t, init, rules) && AllInsertable(t, chains[|chains| - 1], rules) {
      forall i | 0 <= i < |chains| ensures AllInsertable(t, chains[i], rules) {
        if i < |init| { assert AllInsertable(t, init[i], rules); }
      }
    }
  }

  lemma {:induction false} InsertedInAllAgain(t: Table, chains: seq<string>, prepend: bool, rules: seq<Rule>)
    requires HaveAll(t, chains, rules)
    ensures InsertedInAll(t, chains, prepend, rules) == Done(t, None)
  {
    if chains != [] {
      var init := chains[..|chains| - 1];
      assert forall i :: 0 <= i < |init| ==> init[i] == chains[i];
      InsertedInAllAgain(t, init, prepend, rules);
      InsertedAllAgain(t, chains[|chains| - 1], prepend, rules);
    }
  }

  // ---------- The laws ----------

  lemma CheckedIsHaveAll(t: Table, c: Chain)
    ensures Checked(t, c) <==>
            c.name in t && HasAll(t, c.name, c.rules) && HaveAll(t, c.entryChains, Entries(c.entryRules, c.name))
  {
    var e := Entries(c.entryRules, c.name);
    HasAllMembers(t, c.name, c.rules);
    forall k ensures HasAll(t, k, e) <==> forall r {:trigger r in e} :: r in e ==> Has(t, k, r) {
      HasAllMembers(t, k, e);
    }
    if HaveAll(t, c.entryChains, e) {
      forall k, r | k in c.entryChains && r in e ensures Has(t, k, r) {
        var i :| 0 <= i < |c.entryChains| && c.entryChains[i] == k;
        assert HasAll(t, c.entryChains[i], e);
      }
    }
    if Checked(t, c) {
      forall i | 0 <= i < |c.entryChains| ensures HasAll(t, c.entryChains[i], e) {
        assert c.entryChains[i] in c.entryChains;
        forall r | r in e ensures Has(t, c.entryChains[i], r) { }
      }
    }
  }

  lemma HasAllMembers(t: Table, chain: string, rules: seq<Rule>)
    ensures HasAll(t, chain, rules) <==> forall r {:trigger r in rules} :: r in rules ==> Has(t, chain, r)
  {
    if forall r :: r in rules ==> Has(t, chain, r) {
      forall i | 0 <= i < |rules| ensures Has(t, chain, rules[i]) { assert rules[i] in rules; }
    }
    if HasAll(t, chain, rules) {
      forall r | r in rules ensures Has(t, chain, r) {
        var i :| 0 <= i < |rules| && rules[i] == r;
        assert Has(t, chain, rules[i]);
      }
    }
  }

  /** setup succeeds exactly when every rule is there already or iptables takes it: each entry chain exists,
      each jump has its chain, no port list is too long. */
  lemma SetupSucceedsExactly(t: Table, c: Chain)
    ensures SetUp(t, c).err.None? <==>
            var t0 := Ensured(t, c.name);
            && AllInsertable(t0, c.name, c.rules)
            && AllInsertableIn(t0, c.entryChains, Entries(c.entryRules, c.name))
  {
    var t0, e := Ensured(t, c.name), Entries(c.entryRules, c.name);
    var d := InsertedAll(t0, c.name, false, c.rules);
    InsertedAllFacts(t0, c.name, false, c.rules);
    InsertedInAllFacts(d.table, c.entryChains, c.prependEntry, e);
    forall i | 0 <= i < |c.entryChains|
      ensures AllInsertable(d.table, c.entryChains[i], e) <==> AllInsertable(t0, c.entryChains[i], e)
    {
      GrownInsertable(t0, d.table, c.entryChains[i], e);
    }
  }

  /** After a successful setup, check succeeds. */
  lemma SetupThenCheck(t: Table, c: Chain)
    requires SetUp(t, c).err.None?
    ensures Checked(SetUp(t, c).table, c)
  {
    var t0, e := Ensured(t, c.name), Entries(c.entryRules, c.name);
    var d := InsertedAll(t0, c.name, false, c.rules);
    InsertedAllFacts(t0, c.name, false, c.rules);
    InsertedInAllFacts(d.table, c.entryChains, c.prependEntry, e);
    GrownInsertable(d.table, SetUp(t, c).table, c.name, c.rules);
    CheckedIsHaveAll(SetUp(t, c).table, c);
  }

  /** check succeeds exactly when setup would change nothing. */
  lemma CheckIsFixpoint(t: Table, c: Chain)
    ensures Checked(t, c) <==> SetUp(t, c) == Done(t, None)
  {
    if Checked(t, c) {
      CheckedIsHaveAll(t, c);
      InsertedAllAgain(t, c.name, false, c.rules);
      InsertedInAllAgain(t, c.entryChains, c.prependEntry, Entries(c.entryRules, c.name));
    }
    if SetUp(t, c) == Done(t, None) { SetupThenCheck(t, c); }
  }

  /** A second setup changes nothing. */
  lemma SetupIdempotent(t: Table, c: Chain)
    requires SetUp(t, c).err.None?
    ensures SetUp(SetUp(t, c).table, c) == SetUp(t, c)
  {
    SetupThenCheck(t, c);
    CheckIsFixpoint(SetUp(t, c).table, c);
  }

  predicate AllJump(rules: seq<Rule>, name: string) {
    forall i {:trigger rules[i]} :: 0 <= i < |rules| ==> JumpsTo(rules[i], name)
  }

  lemma InsertedUniqueJump(t: Table, chain: string, prepend: bool, rule: Rule, name: string)
    requires chain in t && JumpsTo(rule, name)
    ensures var t' := InsertedUnique(t, chain, prepend, rule).table;
      chain in t' && RemoveJumps(t'[chain], name) == RemoveJumps(t[chain], name)
  {
    RemoveJumpsAppend(t[chain], [rule], name);
    RemoveJumpsAppend([rule], t[chain], name);
    assert RemoveJumps([rule], name) == [] by { assert [rule][..0] == []; }
  }

  /** Rules go into their own chain. */
  lemma {:induction false} InsertedAllElse(t: Table, chain: string, prepend: bool, rules: seq<Rule>, k: string)
    requires k in t
    ensures var t' := InsertedAll(t, chain, prepend, rules).table; k in t' && (k != chain ==> t'[k] == t[k])
  {
    if rules != [] { InsertedAllElse(t, chain, prepend, rules[..|rules| - 1], k); }
  }

  /** Those that jump to `name` vanish again with the jumps. */
  lemma {:induction false} InsertedAllJumps(t: Table, chain: string, prepend: bool, rules: seq<Rule>, name: string)
    requires chain in t && AllJump(rules, name)
    ensures var t' := InsertedAll(t, chain, prepend, rules).table;
      chain in t' && RemoveJumps(t'[chain], name) == RemoveJumps(t[chain], name)
  {
    if rules != [] {
      var init := rules[..|rules| - 1];
      assert forall i :: 0 <= i < |init| ==> init[i] == rules[i];
      InsertedAllJumps(t, chain, prepend, init, name);
      var d := InsertedAll(t, chain, prepend, init);
      if d.err.None? { InsertedUniqueJump(d.table, chain, prepend, rules[|rules| - 1], name); }
    }
  }

  lemma {:induction false} InsertedInAllElse(t: Table, chains: seq<string>, prepend: bool, rules: seq<Rule>,
                                             name: string, k: string)
    requires k in t && AllJump(rules, name)
    ensures var t' := InsertedInAll(t, chains, prepend, rules).table;
      && k in t' && (k !in chains ==> t'[k] == t[k]) && RemoveJumps(t'[k], name) == RemoveJumps(t[k], name)
  {
    if chains != [] {
      var init := chains[..|chains| - 1];
      InsertedInAllElse(t, init, prepend, rules, name, k);
      var d, last := InsertedInAll(t, init, prepend, rules), chains[|chains| - 1];
      if last == k {
        InsertedAllJumps(d.table, last, prepend, rules, name);
      } else {
        InsertedAllElse(d.table, last, prepend, rules, k);
        InAppended(init, last, k);
        assert chains == init + [last];
      }
    }
  }

  lemma SetUpElse(t: Table, c: Chain, k: string)
    requires k in t && k != c.name
    ensures var t' := SetUp(t, c).table;
      && k in t' && (k !in c.entryChains ==> t'[k] == t[k]) && RemoveJumps(t'[k], c.name) == RemoveJumps(t[k], c.name)
  {
    var t0, e := Ensured(t, c.name), Entries(c.entryRules, c.name);
    var d := InsertedAll(t0, c.name, false, c.rules);
    InsertedAllElse(t0, c.name, false, c.rules, k);
    InsertedInAllElse(d.table, c.entryChains, c.prependEntry, e, c.name, k);
  }

  lemma SetUpKeys(t: Table, c: Chain)
    ensures SetUp(t, c).table.Keys == t.Keys + {c.name}
  {
    var t0, e := Ensured(t, c.name), Entries(c.entryRules, c.name);
    InsertedAllFacts(t0, c.name, false, c.rules);
    InsertedInAllFacts(InsertedAll(t0, c.name, false, c.rules).table, c.entryChains, c.prependEntry, e);
  }

  lemma AbsentIsUnreferenced(t: Table, name: string, k: string)
    requires Consistent(t) && name !in t && k in t
    ensures !Refers(t[k], name)
  {
  }

  lemma UnlinkRestores(t: Table, c: Chain)
    requires Consistent(t) && c.name !in t
    ensures Unlinked(SetUp(t, c).table, c) == t[c.name := []]
  {
    var t' := SetUp(t, c).table;
    SetUpKeys(t, c);
    UnlinkedName(t', c);
    forall k | k in t ensures Unlinked(t', c)[k] == t[k] {
      SetUpElse(t, c, k);
      AbsentIsUnreferenced(t, c.name, k);
      NoJumpsLeft(t[k], c.name);
    }
  }

  /** teardown undoes setup, whether or not setup got to its end: the table is restored exactly when the
      chain was not there before. */
  lemma SetupThenTeardown(t: Table, c: Chain)
    requires Consistent(t)
    ensures TearDown(SetUp(t, c).table, c) == Done(t, None) <==> c.name !in t
  {
    if c.name !in t {
      UnlinkRestores(t, c);
      forall k | k in t ensures !Refers(t[k], c.name) { AbsentIsUnreferenced(t, c.name, k); }
      assert t[c.name := []] - {c.name} == t;
    }
  }

  /** teardown fails exactly when a chain other than the entry chains jumps to this one. */
  lemma TeardownFailsExactly(t: Table, c: Chain)
    ensures TearDown(t, c).err.Some? <==>
            exists k :: k in t && k != c.name && k !in c.entryChains && Refers(t[k], c.name)
  {
    var u := Unlinked(t, c);
    UnlinkedName(t, c);
    forall k | k in u && k != c.name
      ensures Refers(u[k], c.name) <==> k !in c.entryChains && Refers(t[k], c.name)
    {
      NoJumpsLeft(t[k], c.name);
    }
    if Referenced(u, c.name) {
      var k :| k in u && Refers(u[k], c.name);
      assert k in t && k != c.name && k !in c.entryChains && Refers(t[k], c.name);
    }
    if k :| k in t && k != c.name && k !in c.entryChains && Refers(t[k], c.name) {
      assert k in u && Refers(u[k], c.name);
    }
  }

  /** A second teardown changes nothing and succeeds too. */
  lemma TeardownIdempotent(t: Table, c: Chain)
    requires TearDown(t, c).err.None?
    ensures TearDown(TearDown(t, c).table, c) == TearDown(t, c)
  {
    var u := TearDown(t, c).table;
    var v := Unlinked(u, c);
    UnlinkedName(t, c);
    UnlinkedName(u, c);
    forall k | k in u ensures v[k] == u[k] && !Refers(u[k], c.name) {
      if k in c.entryChains { RemoveJumpsTwice(t[k], c.name); }
      assert Unlinked(t, c)[k] == u[k];
    }
    assert v - {c.name} == u;
  }

  // ---------- What a chain holds after setup ----------

  /** The rules that are not there yet, each once. */
  function Fresh(have: seq<Rule>, rules: seq<Rule>): seq<Rule> {
    if rules == [] then []
    else
      var added, last := Fresh(have, rules[..|rules| - 1]), rules[|rules| - 1];
      if last in have || last in added then added else added + [last]
  }

  lemma {:induction false} FreshMembers(have: seq<Rule>, rules: seq<Rule>, r: Rule)
    ensures r in Fresh(have, rules) <==> r in rules && r !in have
  {
    if rules != [] {
      FreshMembers(have, rules[..|rules| - 1], r);
      assert rules == rules[..|rules| - 1] + [rules[|rules| - 1]];
    }
  }

  /** Appending leaves what was there first, stale or not. */
  lemma {:induction false} InsertedAllAppends(t: Table, chain: string, rules: seq<Rule>)
    requires chain in t && InsertedAll(t, chain, false, rules).err.None?
    ensures InsertedAll(t, chain, false, rules).table == t[chain := t[chain] + Fresh(t[chain], rules)]
  {
    if rules == [] {
      assert t[chain] + [] == t[chain] && t[chain := t[chain]] == t;
    } else {
      var init, last := rules[..|rules| - 1], rules[|rules| - 1];
      InsertedAllAppends(t, chain, init);
      var added := Fresh(t[chain], init);
      assert t[chain] + added + [last] == t[chain] + (added + [last]);
      assert last in t[chain] + added <==> last in t[chain] || last in added;
    }
  }

  lemma InsertedInOne(t: Table, chain: string, prepend: bool, rules: seq<Rule>)
    ensures InsertedInAll(t, [chain], prepend, rules) == InsertedAll(t, chain, prepend, rules)
  {
    var chains := [chain];
    assert chains[..|chains| - 1] == [];
    assert InsertedInAll(t, chains[..|chains| - 1], prepend, rules) == Done(t, None);
  }

  /** After setup the chain has its rules appended, each once, and so has its one entry chain the entry rules;
      nothing else changes. */
  lemma SetUpTable(t: Table, c: Chain, entry: string)
    requires c.entryChains == [entry] && entry in t && entry != c.name && !c.prependEntry && SetUp(t, c).err.None?
    ensures var had := Ensured(t, c.name)[c.name];
      SetUp(t, c).table ==
      t[c.name := had + Fresh(had, c.rules)][entry := t[entry] + Fresh(t[entry], Entries(c.entryRules, c.name))]
  {
    var t0, e := Ensured(t, c.name), Entries(c.entryRules, c.name);
    InsertedAllFacts(t0, c.name, false, c.rules);
    var d := InsertedAll(t0, c.name, false, c.rules);
    InsertedInOne(d.table, entry, false, e);
    InsertedAllAppends(t0, c.name, c.rules);
    var rules := t0[c.name] + Fresh(t0[c.name], c.rules);
    assert t0[c.name := rules] == t[c.name := rules];
    InsertedAllAppends(d.table, entry, e);
  }

  /** Inserting one list after another is inserting both. */
  lemma {:induction false} FreshAppend(a: seq<Rule>, b: seq<Rule>)
    ensures Fresh([], a + b) == Fresh([], a) + Fresh(Fresh([], a), b)
    decreases |b|
  {
    if b == [] {
      assert a + b == a;
    } else {
      var init, last := b[..|b| - 1], b[|b| - 1];
      assert (a + b)[..|a + b| - 1] == a + init;
      FreshAppend(a, init);
      assert last in Fresh([], a + init) <==> last in Fresh([], a) || last in Fresh(Fresh([], a), init);
    }
  }
}
