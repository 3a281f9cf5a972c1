/**
 The nat table of iptables as far as the plugins use it: what a rule says, how go-iptables changes the
 table, the helpers of pkg/utils/iptables.go, and what the kernel does with a packet.
 */
module IPTables {
  import opened Options
  import opened GoNet

  datatype Match =
    | Comment(text: string)
    | Proto(proto: string)
    | DPort(port: int)
    | DestPorts(ports: seq<int>)
    | SrcNet(ip: IP, mask: seq<Byte>)
    | SrcIs(src: IP)
    | DstIs(dst: IP)
    | DstLocal
    | MarkSet(bit: nat)
    | Condition(tokens: seq<string>)

  datatype Target =
    | Jump(chain: string)
    | DNAT(ip: IP, port: int)
    | SetMark(bit: nat)
    | Masquerade
    | Accept
    | Return

  datatype Rule = Rule(matches: seq<Match>, target: Target)

  type Table = map<string, seq<Rule>>

  // ---------- Changing the table ----------

  datatype Failure = NoChain | BadRule | NoRule | ChainExists | ChainInUse

  const MULTIPORT_LIMIT := 15
  const COMMENT_LIMIT := 255

  predicate MatchAccepted(m: Match) {
    && (m.DestPorts? ==> 0 < |m.ports| <= MULTIPORT_LIMIT)
    && (m.Comment? ==> |m.text| <= COMMENT_LIMIT)
  }

  /** iptables takes a rule if its matches are well formed and the chain it jumps to exists. */
  predicate Accepts(t: Table, rule: Rule) {
    && (forall m :: m in rule.matches ==> MatchAccepted(m))
    && (rule.target.Jump? ==> rule.target.chain in t)
  }

  /** Why a rule cannot be added to a chain, if it cannot. */
  function Refusal(t: Table, chain: string, rule: Rule): Option<Failure> {
    if chain !in t then Some(NoChain) else if !Accepts(t, rule) then Some(BadRule) else None
  }

  predicate JumpsTo(rule: Rule, name: string) { rule.target == Jump(name) }

  predicate Refers(rules: seq<Rule>, name: string) { exists i :: 0 <= i < |rules| && JumpsTo(rules[i], name) }

  predicate Referenced(t: Table, name: string) { exists k :: k in t && Refers(t[k], name) }

  /** The kernel holds no rule that jumps to a chain that is not there. */
  predicate Consistent(t: Table) {
    forall k, i {:trigger t[k][i]} :: k in t && 0 <= i < |t[k]| && t[k][i].target.Jump? ==> t[k][i].target.chain in t
  }

  /** A rule is taken exactly if its chain and the chain it jumps to exist, its port lists have one to fifteen
      ports, and its comments at most 255 characters. */
  lemma RefusedExactly(t: Table, chain: string, rule: Rule)
    ensures Refusal(t, chain, rule) == Some(NoChain) <==> chain !in t
    ensures Refusal(t, chain, rule).None? <==>
            && chain in t && (rule.target.Jump? ==> rule.target.chain in t)
            && forall m {:trigger m in rule.matches} :: m in rule.matches ==>
                 && (m.DestPorts? ==> 1 <= |m.ports| <= 15) && (m.Comment? ==> |m.text| <= 255)
    ensures Refusal(t, chain, rule).Some? && chain in t ==> Refusal(t, chain, rule) == Some(BadRule)
  {
  }

  /** A chain's rules without the first one that equals `rule`. */
  function WithoutFirst(rules: seq<Rule>, rule: Rule): seq<Rule> {
    if rules == [] then [] else if rules[0] == rule then rules[1..] else [rules[0]] + WithoutFirst(rules[1..], rule)
  }

  class IPTables {
    var chains: Table

    constructor (chains: Table)
      ensures this.chains == chains
    {
      this.chains := chains;
    }

    method NewChain(chain: string) returns (err: Option<Failure>)
      modifies this
      ensures err == if chain in old(chains) then Some(ChainExists) else None
      ensures chains == if chain in old(chains) then old(chains) else old(chains)[chain := []]
    {
      if chain in chains { return Some(ChainExists); }
      chains := chains[chain := []];
      return None;
    }

    /** Creates the chain, or flushes it if it is there. */
    method ClearChain(chain: string) returns (err: Option<Failure>)
      modifies this
      ensures err.None? && chains == old(chains)[chain := []]
    {
      err := NewChain(chain);
      if err.Some? { chains := chains[chain := []]; }
      return None;
    }

    /** iptables -C: false also when the chain does not exist. */
    method Exists(chain: string, rule: Rule) returns (found: bool)
      ensures found <==> chain in chains && rule in chains[chain]
    {
      return chain in chains && rule in chains[chain];
    }

    method Append(chain: string, rule: Rule) returns (err: Option<Failure>)
      modifies this
      ensures err == Refusal(old(chains), chain, rule)
      ensures chains == if err.None? then old(chains)[chain := old(chains)[chain] + [rule]] else old(chains)
    {
      err := Refusal(chains, chain, rule);
      if err.None? { chains := chains[chain := chains[chain] + [rule]]; }
    }

    /** Inserts at position 1, the front. */
    method Prepend(chain: string, rule: Rule) returns (err: Option<Failure>)
      modifies this
      ensures err == Refusal(old(chains), chain, rule)
      ensures chains == if err.None? then old(chains)[chain := [rule] + old(chains)[chain]] else old(chains)
    {
      err := Refusal(chains, chain, rule);
      if err.None? { chains := chains[chain := [rule] + chains[chain]]; }
    }

    method List(chain: string) returns (rules: Option<seq<Rule>>)
      ensures rules == if chain in chains then Some(chains[chain]) else None
    {
      return if chain in chains then Some(chains[chain]) else None;
    }

    /** Deletes the first rule that equals `rule`. */
    method Delete(chain: string, rule: Rule) returns (err: Option<Failure>)
      modifies this
      ensures err == if chain !in old(chains) then Some(NoChain)
                     else if rule !in old(chains)[chain] then Some(NoRule) else None
      ensures chains == if err.None? then old(chains)[chain := WithoutFirst(old(chains)[chain], rule)] else old(chains)
    {
      if chain !in chains { return Some(NoChain); }
      if rule !in chains[chain] { return Some(NoRule); }
      chains := chains[chain := WithoutFirst(chains[chain], rule)];
      return None;
    }

    /** Fails on a chain that is missing, not empty, or jumped to. */
    method DeleteChain(chain: string) returns (err: Option<Failure>)
      modifies this
      ensures err == if chain !in old(chains) then Some(NoChain)
                     else if old(chains)[chain] != [] || Referenced(old(chains), chain) then Some(ChainInUse)
                     else None
      ensures chains == if err.None? then old(chains) - {chain} else old(chains)
    {
      if chain !in chains { return Some(NoChain); }
      if chains[chain] != [] || Referenced(chains, chain) { return Some(ChainInUse); }
      chains := chains - {chain};
      return None;
    }
  }

  // ---------- pkg/utils/iptables.go ----------

  method EnsureChain(ipt: IPTables, chain: string) returns (err: Option<Failure>)
    modifies ipt
    ensures err.None?
    ensures ipt.chains == if chain in old(ipt.chains) then old(ipt.chains) else old(ipt.chains)[chain := []]
  {
    var exists_ := chain in ipt.chains;
    err := None;
    if !exists_ {
      err := ipt.NewChain(chain);
      if err == Some(ChainExists) { err := None; }
    }
  }

  /** A chain or rule that is already gone is no error. */
  method DeleteRule(ipt: IPTables, chain: string, rule: Rule) returns (err: Option<Failure>)
    modifies ipt
    ensures err.None?
    ensures ipt.chains == if chain in old(ipt.chains) && rule in old(ipt.chains)[chain]
                          then old(ipt.chains)[chain := WithoutFirst(old(ipt.chains)[chain], rule)]
                          else old(ipt.chains)
  {
    err := ipt.Delete(chain, rule);
    if err == Some(NoRule) || err == Some(NoChain) { err := None; }
  }

  method DeleteChain(ipt: IPTables, chain: string) returns (err: Option<Failure>)
    modifies ipt
    ensures err == if chain in old(ipt.chains) && (old(ipt.chains)[chain] != [] || Referenced(old(ipt.chains), chain))
                   then Some(ChainInUse) else None
    ensures ipt.chains == if err.None? then old(ipt.chains) - {chain} else old(ipt.chains)
  {
    err := ipt.DeleteChain(chain);
    if err == Some(NoChain) {
      err := None;
      assert ipt.chains - {chain} == ipt.chains;
    }
  }

  // ---------- What happens to a packet ----------

  /** `held` are the extra conditions of the configuration that hold for the packet. */
  datatype Packet = Packet(proto: string, src: IP, dst: IP, dport: int, dstLocal: bool, held: set<seq<string>>,
                           marks: set<nat>)

  predicate Matches(m: Match, p: Packet) {
    match m
    case Comment(_) => true
    case Proto(proto) => p.proto == proto
    case DPort(port) => p.dport == port
    case DestPorts(ports) => p.dport in ports
    case SrcNet(ip, mask) => NetContains(ip, mask, p.src)
    case SrcIs(src) => Equal(p.src, src)
    case DstIs(dst) => Equal(p.dst, dst)
    case DstLocal => p.dstLocal
    case MarkSet(bit) => bit in p.marks
    case Condition(tokens) => tokens in p.held
  }

  predicate RuleMatches(r: Rule, p: Packet) { forall m {:trigger Matches(m, p)} :: m in r.matches ==> Matches(m, p) }

  datatype Verdict = Through | Returned | Accepted | Redirected(ip: IP, port: int) | Masqueraded

  /** The packet as the rules leave it, and where it goes. */
  datatype Outcome = Outcome(packet: Packet, verdict: Verdict)

  /** Coming back from a chain, by its end or by RETURN, the rules after the jump are next. */
  function Back(o: Outcome): Outcome { if o.verdict.Returned? then o.(verdict := Through) else o }

  /** First match, with jumps up to the given depth: the kernel refuses deeper ones. */
  function Eval(t: Table, depth: nat, rules: seq<Rule>, p: Packet): Outcome
    decreases depth, |rules|
  {
    if rules == [] then Outcome(p, Through)
    else
      var o := EvalRule(t, depth, rules[0], p);
      if o.verdict.Through? then Eval(t, depth, rules[1..], o.packet) else o
  }

  function EvalRule(t: Table, depth: nat, r: Rule, p: Packet): Outcome
    decreases depth, 0
  {
    if !RuleMatches(r, p) then Outcome(p, Through)
    else
      match r.target
      case Jump(chain) => if depth > 0 then EvalChain(t, depth - 1, chain, p) else Outcome(p, Through)
      case DNAT(ip, port) => Outcome(p, Redirected(ip, port))
      case SetMark(bit) => Outcome(p.(marks := p.marks + {bit}), Through)
      case Masquerade => Outcome(p, Masqueraded)
      case Accept => Outcome(p, Accepted)
      case Return => Outcome(p, Returned)
  }

  /** What a chain does to a packet. */
  function EvalChain(t: Table, depth: nat, chain: string, p: Packet): Outcome
    decreases depth, if chain in t then |t[chain]| + 1 else 0
  {
    if chain in t then Back(Eval(t, depth, t[chain], p)) else Outcome(p, Through)
  }

  /** First `a`, and where it lets the packet through, `b`. */
  lemma {:induction false} EvalAppend(t: Table, depth: nat, a: seq<Rule>, b: seq<Rule>, p: Packet)
    ensures Eval(t, depth, a + b, p) ==
            var o := Eval(t, depth, a, p); if o.verdict.Through? then Eval(t, depth, b, o.packet) else o
    decreases |a|
  {
    if a == [] {
      assert a + b == b;
    } else {
      assert (a + b)[1..] == a[1..] + b;
      EvalAppend(t, depth, a[1..], b, EvalRule(t, depth, a[0], p).packet);
    }
  }
}
