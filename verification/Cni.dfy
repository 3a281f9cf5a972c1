/** lib/cni.go: CmdAdd's random-address path over several range sets, and CmdDel. */
module Cni {
  import opened Options
  import opened GoNet
  import opened Ranges
  import opened RangeSets
  import opened Rounds
  import opened Walk
  import opened Stores
  import opened Allocator
  import opened Config

  datatype AddResult = Added(ips: seq<IPConfig>) | AddFailed

  /** No address belongs to two range sets, which LoadIPAMConfig has checked. */
  ghost predicate SetsApart(ranges: seq<seq<Conf>>) {
    forall i, j, a {:trigger SetContains(ranges[i], a), SetContains(ranges[j], a)} ::
      0 <= i < |ranges| && 0 <= j < |ranges| && SetContains(ranges[i], a) && SetContains(ranges[j], a) ==> i == j
  }

  predicate AllWalkable(ranges: seq<seq<Conf>>) {
    forall i {:trigger Walkable(ranges[i])} :: 0 <= i < |ranges| ==> Walkable(ranges[i])
  }

  predicate InSome(ranges: seq<seq<Conf>>, ip: IP) {
    exists i {:trigger SetContains(ranges[i], ip)} :: 0 <= i < |ranges| && SetContains(ranges[i], ip)
  }

  /** The requested addresses that lie in a set. */
  function Hits(s: seq<Conf>, requested: set<IP>): set<IP> { set ip | ip in requested && SetContains(s, ip) }

  /** What one set yields for a request, if at most one requested address lies in it. */
  function Outcome(s: seq<Conf>, used: map<IP, string>, last: Option<IP>, requested: set<IP>): GetResult
    requires Walkable(s)
  {
    var hits := Hits(s, requested);
    if hits == {} then DynamicResult(s, used, last)
    else if ip :| ip in hits && hits == {ip} then RequestedChoice(s, used, ip)
    else Failed(BadRequest)
  }

  /** The state in which ADD begins, and what it is asked for. */
  datatype Request = Request(ranges: seq<seq<Conf>>, used: map<IP, string>, last: map<nat, IP>,
                             ips: set<IP>, id: string)

  /** What LoadIPAMConfig has checked, and that every dynamic Get will come to an end. */
  ghost predicate Proper(q: Request) {
    && AllWalkable(q.ranges) && SetsApart(q.ranges)
    && (forall ip :: ip in q.ips ==> IsCanonical(ip))
    && forall n {:trigger Hits(q.ranges[n], q.ips)} :: 0 <= n < |q.ranges| && Hits(q.ranges[n], q.ips) == {} ==>
         MayEnd(q.ranges[n], q.used, StoredLast(q.last, n))
  }

  /** When ADD succeeds: every requested address lies in some set, no two of them in one set, and every
      set has an address to give. */
  predicate AddSucceeds(q: Request)
    requires AllWalkable(q.ranges)
  {
    && (forall ip {:trigger InSome(q.ranges, ip)} :: ip in q.ips ==> InSome(q.ranges, ip))
    && forall n {:trigger Gives(q, n)} :: 0 <= n < |q.ranges| ==> Gives(q, n)
  }

  predicate Gives(q: Request, n: nat)
    requires AllWalkable(q.ranges) && n < |q.ranges|
  {
    |Hits(q.ranges[n], q.ips)| <= 1 && OutcomeOf(q, n).Allocated?
  }

  function OutcomeOf(q: Request, n: nat): GetResult
    requires AllWalkable(q.ranges) && n < |q.ranges|
  {
    Outcome(q.ranges[n], q.used, StoredLast(q.last, n), q.ips)
  }

  /** The reservations and last reserved addresses after one address per set was taken, from set 0 on. */
  function Holding(used: map<IP, string>, ips: seq<IPConfig>, id: string): map<IP, string> {
    if ips == [] then used else Holding(used, ips[..|ips| - 1], id)[Key(ips[|ips| - 1].addr) := id]
  }

  function LastTaken(last: map<nat, IP>, ips: seq<IPConfig>): map<nat, IP> {
    if ips == [] then last else LastTaken(last, ips[..|ips| - 1])[|ips| - 1 := Key(ips[|ips| - 1].addr)]
  }

  predicate Takes(ips: seq<IPConfig>, a: IP) { exists j :: 0 <= j < |ips| && Key(ips[j].addr) == a }

  lemma TakesSplit(ips: seq<IPConfig>, a: IP)
    requires ips != []
    ensures Takes(ips, a) <==> Takes(ips[..|ips| - 1], a) || Key(ips[|ips| - 1].addr) == a
  {
    var init := ips[..|ips| - 1];
    if Takes(init, a) { var j :| 0 <= j < |init| && Key(init[j].addr) == a; assert Key(ips[j].addr) == a; }
    if j :| 0 <= j < |ips| && Key(ips[j].addr) == a && j < |init| { assert Key(init[j].addr) == a; }
  }

  lemma {:induction false} HoldingAt(used: map<IP, string>, ips: seq<IPConfig>, id: string, a: IP)
    ensures a in Holding(used, ips, id) <==> Takes(ips, a) || a in used
    ensures a in Holding(used, ips, id) ==> Holding(used, ips, id)[a] == if Takes(ips, a) then id else used[a]
    decreases |ips|
  {
    if ips != [] {
      HoldingAt(used, ips[..|ips| - 1], id, a);
      TakesSplit(ips, a);
    }
  }

  lemma {:induction false} LastTakenAt(last: map<nat, IP>, ips: seq<IPConfig>, n: nat)
    ensures n < |ips| ==> n in LastTaken(last, ips) && LastTaken(last, ips)[n] == Key(ips[n].addr)
    ensures n >= |ips| ==> StoredLast(LastTaken(last, ips), n) == StoredLast(last, n)
    decreases |ips|
  {
    if ips != [] { LastTakenAt(last, ips[..|ips| - 1], n); }
  }

  predicate NoneHeld(used: map<IP, string>, ips: seq<IPConfig>) {
    forall j {:trigger ips[j]} :: 0 <= j < |ips| ==> Key(ips[j].addr) !in used
  }

  /** Releasing the container gives back what it took, and whatever it held before. */
  lemma ReleaseUndoes(used: map<IP, string>, ips: seq<IPConfig>, id: string)
    requires NoneHeld(used, ips)
    ensures Without(Holding(used, ips, id), id) == Without(used, id)
  {
    forall a ensures a in Without(Holding(used, ips, id), id) <==> a in Without(used, id) {
      HoldingAt(used, ips, id, a);
    }
    forall a | a in Without(used, id) ensures Without(Holding(used, ips, id), id)[a] == used[a] {
      HoldingAt(used, ips, id, a);
    }
  }

  // ---------- One set does not see what was taken from another ----------

  /** The two reservation maps agree on the addresses of a set. */
  ghost predicate SameIn(s: seq<Conf>, used: map<IP, string>, used': map<IP, string>) {
    forall a {:trigger SetContains(s, a)} :: SetContains(s, a) ==> (a in used <==> a in used')
  }

  lemma SameFree(s: seq<Conf>, used: map<IP, string>, used': map<IP, string>, places: seq<Place>)
    requires Walkable(s) && SameIn(s, used, used')
    requires forall p :: p in places ==> p in Places(Sizes(s))
    ensures Free(s, used, places) == Free(s, used', places)
  {
    forall p | p in places ensures IsFree(s, used, p) == IsFree(s, used', p) {
      var n :| 0 <= n < |Places(Sizes(s))| && Places(Sizes(s))[n] == p;
      PlaceIsValid(Sizes(s), n);
      PlaceFacts(s, p);
      assert SetContains(s, AddrOf(s, p));
    }
    FilterSame(p => IsFree(s, used, p), p => IsFree(s, used', p), places);
  }

  lemma SameChoice(s: seq<Conf>, used: map<IP, string>, used': map<IP, string>, last: Option<IP>)
    requires Walkable(s) && SameIn(s, used, used')
    ensures DynamicChoice(s, used, last) == DynamicChoice(s, used', last)
    ensures DynamicResult(s, used, last) == DynamicResult(s, used', last)
    ensures MayEnd(s, used, last) <==> MayEnd(s, used', last)
  {
    SameFree(s, used, used', Places(Sizes(s)));
    forall p | p in Candidates(s, last) ensures p in Places(Sizes(s)) {
      CandidatesDistinct(s, last);
      assert p in multiset(Candidates(s, last));
    }
    SameFree(s, used, used', Candidates(s, last));
  }

  /** What Get answers for a set, in terms of the reservations. */
  function Answer(s: seq<Conf>, used: map<IP, string>, last: Option<IP>, requestedIP: Option<IP>): GetResult
    requires Walkable(s)
  {
    if requestedIP.Some? then RequestedChoice(s, used, requestedIP.value) else DynamicResult(s, used, last)
  }

  lemma SameAnswer(s: seq<Conf>, used: map<IP, string>, used': map<IP, string>, last: Option<IP>,
                   requestedIP: Option<IP>)
    requires Walkable(s) && SameIn(s, used, used')
    ensures Answer(s, used, last, requestedIP) == Answer(s, used', last, requestedIP)
  {
    if requestedIP.None? {
      SameChoice(s, used, used', last);
    } else if Canon(requestedIP.value).Some? {
      var a := Canon(requestedIP.value).value;
      assert SetContains(s, a) ==> (a in used <==> a in used');
    }
  }

  /** An address that Get gives out is one of the set's, was free, and is the one asked for. */
  lemma AnswerInSet(s: seq<Conf>, used: map<IP, string>, last: Option<IP>, requestedIP: Option<IP>)
    requires Walkable(s) && Answer(s, used, last, requestedIP).Allocated?
    ensures var a := Answer(s, used, last, requestedIP).config.addr;
      && SetContains(s, a) && a !in used && IsCanonical(a)
      && (requestedIP.Some? ==> Some(a) == Canon(requestedIP.value))
  {
    if requestedIP.Some? { CanonIsCanonical(requestedIP.value); }
    if requestedIP.None? {
      var p := DynamicChoice(s, used, last).value;
      FilterMembers((p: Place) => IsFree(s, used, p), Candidates(s, last), p);
      var c :| 0 <= c < |Candidates(s, last)| && Candidates(s, last)[c] == p;
      CandidateIsValid(s, last, c);
      PlaceFacts(s, p);
    }
  }

  // ---------- The loop over the sets ----------

  predicate Picked(s: seq<Conf>, left: set<IP>, ip: Option<IP>, rest: set<IP>) {
    match ip
    case None => rest == left && Hits(s, left) == {}
    case Some(a) => a in Hits(s, left) && rest == left - {a}
  }

  /** Picks a requested address of the set, whichever comes first, and takes it off the requests. */
  method PickRequested(s: seq<Conf>, requested: set<IP>) returns (ip: Option<IP>, rest: set<IP>)
    ensures Picked(s, requested, ip, rest)
  {
    var left := requested;
    while left != {}
      invariant left <= requested
      invariant forall a :: a in requested && a !in left ==> !SetContains(s, a)
      decreases left
    {
      var a :| a in left;
      if SetContains(s, a) {
        assert a in Hits(s, requested);
        return Some(a), requested - {a};
      }
      left := left - {a};
    }
    return None, requested;
  }

  /** What the set whose turn comes after `ips` finds reserved, and its last reserved address. */
  function UsedAt(q: Request, ips: seq<IPConfig>): map<IP, string> { Holding(q.used, ips, q.id) }

  function LastAt(q: Request, ips: seq<IPConfig>): Option<IP> { StoredLast(LastTaken(q.last, ips), |ips|) }

  ghost predicate TurnReturns(q: Request, ips: seq<IPConfig>, ip: Option<IP>)
    requires |ips| < |q.ranges|
  {
    ip.None? ==> GetEnds(q.ranges[|ips|], UsedAt(q, ips), LastAt(q, ips))
  }

  /** What Get answers in that turn, whatever the set is. */
  ghost function Turn(q: Request, ips: seq<IPConfig>, ip: Option<IP>): GetResult
    requires |ips| < |q.ranges| && TurnReturns(q, ips, ip)
  {
    match ip
    case Some(a) => RequestedChoice(q.ranges[|ips|], UsedAt(q, ips), a)
    case None => GetOutcome(q.ranges[|ips|], UsedAt(q, ips), LastAt(q, ips))
  }

  /** The round after `ips`: some request is picked, if there is one, and Get answers `r`. */
  ghost predicate Round(q: Request, left: set<IP>, ips: seq<IPConfig>, rest: set<IP>, r: GetResult) {
    |ips| < |q.ranges| &&
    exists ip {:trigger Picked(q.ranges[|ips|], left, ip, rest)} ::
      Picked(q.ranges[|ips|], left, ip, rest) && TurnReturns(q, ips, ip) && r == Turn(q, ips, ip)
  }

  /** The requests left and the addresses taken after some rounds, each of which gave an address. */
  ghost predicate Reached(q: Request, left: set<IP>, ips: seq<IPConfig>)
    decreases |ips|
  {
    if ips == [] then left == q.ips
    else
      var init := ips[..|ips| - 1];
      exists before {:trigger Reached(q, before, init)} ::
        Reached(q, before, init) && Round(q, before, init, left, Allocated(ips[|ips| - 1]))
  }

  /** The last round. */
  lemma LastRound(q: Request, left: set<IP>, ips: seq<IPConfig>) returns (before: set<IP>)
    requires Reached(q, left, ips) && ips != []
    ensures var init := ips[..|ips| - 1];
      Reached(q, before, init) && Round(q, before, init, left, Allocated(ips[|ips| - 1]))
  {
    var init := ips[..|ips| - 1];
    before :| Reached(q, before, init) && Round(q, before, init, left, Allocated(ips[|ips| - 1]));
  }

  /** Every dynamic Get that ADD can come to returns. */
  ghost predicate AddReturns(q: Request) {
    forall left, ips {:trigger Reached(q, left, ips)} ::
      Reached(q, left, ips) && |ips| < |q.ranges| && Hits(q.ranges[|ips|], left) == {} ==> TurnReturns(q, ips, None)
  }

  /** The loop ends here without success. */
  ghost predicate Stuck(q: Request, left: set<IP>, ips: seq<IPConfig>) {
    if |ips| == |q.ranges| then left != {} else exists rest, r :: Round(q, left, ips, rest, r) && r.Failed?
  }

  /** ADD gave up after some rounds, and has released the container once for each. */
  ghost predicate GaveUp(q: Request, left: set<IP>, ips: seq<IPConfig>, used: map<IP, string>, last: map<nat, IP>) {
    && Reached(q, left, ips) && Stuck(q, left, ips)
    && used == (if ips == [] then q.used else Without(q.used, q.id))
    && last == LastTaken(q.last, ips)
  }

  /** What ADD does, whatever the sets are. */
  ghost predicate AddRan(q: Request, r: AddResult, used: map<IP, string>, last: map<nat, IP>) {
    match r
    case Added(ips) =>
      && |ips| == |q.ranges| && Reached(q, {}, ips)
      && used == Holding(q.used, ips, q.id) && last == LastTaken(q.last, ips)
    case AddFailed => exists left, ips :: GaveUp(q, left, ips, used, last)
  }

  /** An address that is given was not reserved, and is the requested one. */
  lemma TurnIsFree(q: Request, ips: seq<IPConfig>, ip: Option<IP>)
    requires |ips| < |q.ranges| && TurnReturns(q, ips, ip) && Turn(q, ips, ip).Allocated?
    ensures Key(Turn(q, ips, ip).config.addr) !in UsedAt(q, ips)
    ensures ip.Some? ==> Canon(ip.value) == Some(Key(Turn(q, ips, ip).config.addr))
  {
    if ip.Some? { CanonIsCanonical(ip.value); }
  }

  predicate AllDifferent(ips: seq<IPConfig>) {
    forall j, k {:trigger ips[j], ips[k]} :: 0 <= j < k < |ips| ==> Key(ips[j].addr) != Key(ips[k].addr)
  }

  /** Every request that is no longer left was granted. */
  predicate AllGranted(q: Request, left: set<IP>, ips: seq<IPConfig>) {
    forall a {:trigger a in left} :: a in q.ips && a !in left ==> Canon(a).Some? && Takes(ips, Canon(a).value)
  }

  lemma {:induction false} ReachedFacts(q: Request, left: set<IP>, ips: seq<IPConfig>)
    requires Reached(q, left, ips)
    ensures NoneHeld(q.used, ips) && AllDifferent(ips) && AllGranted(q, left, ips)
    decreases |ips|
  {
    if ips != [] {
      var before := LastRound(q, left, ips);
      ReachedFacts(q, before, ips[..|ips| - 1]);
      RoundFacts(q, before, left, ips);
      NewIsDifferent(q, ips);
    }
  }

  lemma RoundFacts(q: Request, before: set<IP>, left: set<IP>, ips: seq<IPConfig>)
    requires ips != [] && AllGranted(q, before, ips[..|ips| - 1])
    requires Round(q, before, ips[..|ips| - 1], left, Allocated(ips[|ips| - 1]))
    ensures Key(ips[|ips| - 1].addr) !in UsedAt(q, ips[..|ips| - 1]) && AllGranted(q, left, ips)
  {
    var n := |ips| - 1;
    var init := ips[..n];
    var ip :| Picked(q.ranges[n], before, ip, left) && TurnReturns(q, init, ip)
              && Allocated(ips[n]) == Turn(q, init, ip);
    TurnIsFree(q, init, ip);
    forall a | a in q.ips && a !in left ensures Canon(a).Some? && Takes(ips, Canon(a).value) {
      if a in before {
        assert Key(ips[n].addr) == Canon(a).value;
      } else {
        TakesSplit(ips, Canon(a).value);
      }
    }
  }

  lemma NewIsDifferent(q: Request, ips: seq<IPConfig>)
    requires ips != [] && Key(ips[|ips| - 1].addr) !in UsedAt(q, ips[..|ips| - 1])
    requires NoneHeld(q.used, ips[..|ips| - 1]) && AllDifferent(ips[..|ips| - 1])
    ensures NoneHeld(q.used, ips) && AllDifferent(ips)
  {
    var n := |ips| - 1;
    var init := ips[..n];
    HoldingAt(q.used, init, q.id, Key(ips[n].addr));
    forall j | 0 <= j < |ips| ensures Key(ips[j].addr) !in q.used { assert j < n ==> ips[j] == init[j]; }
    forall j, k | 0 <= j < k < |ips| ensures Key(ips[j].addr) != Key(ips[k].addr) {
      assert ips[j] == init[j] && (k < n ==> ips[k] == init[k]);
    }
  }

  // ---------- Sets that share no address and can be walked ----------

  /** What has become of set `n` once it has had its turn; `left` are the requests not yet taken. */
  predicate Served(q: Request, n: nat, left: set<IP>, c: IPConfig)
    requires AllWalkable(q.ranges) && n < |q.ranges|
  {
    && SetContains(q.ranges[n], c.addr) && c.addr !in q.used && IsCanonical(c.addr)
    && if |Hits(q.ranges[n], q.ips)| <= 1
       then OutcomeOf(q, n) == Allocated(c) && Hits(q.ranges[n], left) == {}
       else Hits(q.ranges[n], left) != {}
  }

  /** The first sets have had their turn, and each has given an address. */
  ghost predicate Progress(q: Request, left: set<IP>, ips: seq<IPConfig>)
    requires AllWalkable(q.ranges)
  {
    && |ips| <= |q.ranges| && left <= q.ips
    && (forall n {:trigger ips[n]} :: 0 <= n < |ips| ==> Served(q, n, left, ips[n]))
    && (forall n {:trigger Hits(q.ranges[n], left)} :: |ips| <= n < |q.ranges| ==>
          Hits(q.ranges[n], left) == Hits(q.ranges[n], q.ips))
    && (forall ip {:trigger InSome(q.ranges, ip)} :: ip in q.ips && ip !in left ==> InSome(q.ranges, ip))
  }

  /** The set whose turn it is sees none of the addresses taken so far. */
  lemma TurnUnaffected(q: Request, left: set<IP>, ips: seq<IPConfig>)
    requires Proper(q) && Progress(q, left, ips) && |ips| < |q.ranges|
    ensures SameIn(q.ranges[|ips|], UsedAt(q, ips), q.used) && LastAt(q, ips) == StoredLast(q.last, |ips|)
  {
    LastTakenAt(q.last, ips, |ips|);
    forall a | SetContains(q.ranges[|ips|], a) ensures a in UsedAt(q, ips) <==> a in q.used {
      HoldingAt(q.used, ips, q.id, a);
      forall j | 0 <= j < |ips| ensures Key(ips[j].addr) != a { assert Served(q, j, left, ips[j]); }
    }
  }

  /** Its Get returns, with the answer it would give if it came first. */
  lemma TurnFromStart(q: Request, left: set<IP>, ips: seq<IPConfig>, ip: Option<IP>, rest: set<IP>)
    requires Proper(q) && Progress(q, left, ips) && |ips| < |q.ranges| && Picked(q.ranges[|ips|], left, ip, rest)
    ensures TurnReturns(q, ips, ip)
    ensures Turn(q, ips, ip) == Answer(q.ranges[|ips|], q.used, StoredLast(q.last, |ips|), ip)
  {
    TurnUnaffected(q, left, ips);
    SameAnswer(q.ranges[|ips|], UsedAt(q, ips), q.used, StoredLast(q.last, |ips|), ip);
    if ip.None? {
      assert Hits(q.ranges[|ips|], left) == Hits(q.ranges[|ips|], q.ips);
      SameChoice(q.ranges[|ips|], UsedAt(q, ips), q.used, StoredLast(q.last, |ips|));
      OutcomeIsChoice(q.ranges[|ips|], UsedAt(q, ips), LastAt(q, ips));
    }
  }

  lemma PickedIsOutcome(s: seq<Conf>, used: map<IP, string>, last: Option<IP>, left: set<IP>, ip: Option<IP>,
                        rest: set<IP>)
    requires Walkable(s) && Picked(s, left, ip, rest) && |Hits(s, left)| <= 1
    ensures Outcome(s, used, last, left) == Answer(s, used, last, ip)
  {
    if ip.Some? { OnlyElement(Hits(s, left), ip.value); }
  }

  lemma TurnIsOutcome(q: Request, left: set<IP>, ips: seq<IPConfig>, ip: Option<IP>, rest: set<IP>)
    requires Proper(q) && Progress(q, left, ips) && |ips| < |q.ranges|
    requires Picked(q.ranges[|ips|], left, ip, rest) && |Hits(q.ranges[|ips|], q.ips)| <= 1
    ensures TurnReturns(q, ips, ip) && Turn(q, ips, ip) == OutcomeOf(q, |ips|)
  {
    var n := |ips|;
    TurnFromStart(q, left, ips, ip, rest);
    assert Hits(q.ranges[n], left) == Hits(q.ranges[n], q.ips);
    PickedIsOutcome(q.ranges[n], q.used, StoredLast(q.last, n), left, ip, rest);
  }

  lemma OnlyElement<T>(s: set<T>, x: T)
    requires |s| <= 1 && x in s
    ensures s == {x}
  {
    assert |s - {x}| == 0;
  }

  lemma HitsAfterPick(q: Request, left: set<IP>, n: nat, ip: Option<IP>, rest: set<IP>)
    requires Proper(q) && n < |q.ranges| && Picked(q.ranges[n], left, ip, rest)
    ensures forall m :: 0 <= m < |q.ranges| && m != n ==> Hits(q.ranges[m], rest) == Hits(q.ranges[m], left)
    ensures Hits(q.ranges[n], rest) == {} <==> |Hits(q.ranges[n], left)| <= 1
  {
    var hits := Hits(q.ranges[n], left);
    if ip.Some? {
      assert Hits(q.ranges[n], rest) == hits - {ip.value};
      assert |hits - {ip.value}| == |hits| - 1;
      forall m | 0 <= m < |q.ranges| && m != n ensures Hits(q.ranges[m], rest) == Hits(q.ranges[m], left) {
        assert SetContains(q.ranges[n], ip.value);
        assert ip.value !in Hits(q.ranges[m], left);
      }
    }
  }

  lemma ProgressStep(q: Request, left: set<IP>, ips: seq<IPConfig>, ip: Option<IP>, rest: set<IP>)
    requires Proper(q) && Progress(q, left, ips) && |ips| < |q.ranges|
    requires Picked(q.ranges[|ips|], left, ip, rest)
    ensures TurnReturns(q, ips, ip)
    ensures match Turn(q, ips, ip)
            case Allocated(c) => Progress(q, rest, ips + [c])
            case Failed(_) => !AddSucceeds(q)
  {
    var n := |ips|;
    TurnFromStart(q, left, ips, ip, rest);
    if |Hits(q.ranges[n], q.ips)| <= 1 { TurnIsOutcome(q, left, ips, ip, rest); }
    HitsAfterPick(q, left, n, ip, rest);
    assert Hits(q.ranges[n], left) == Hits(q.ranges[n], q.ips);
    match Turn(q, ips, ip) {
      case Failed(_) => assert !Gives(q, n);
      case Allocated(c) =>
        AnswerInSet(q.ranges[n], q.used, StoredLast(q.last, n), ip);
        ProgressGiven(q, left, ips, ip, rest, c);
    }
  }

  lemma ProgressGiven(q: Request, left: set<IP>, ips: seq<IPConfig>, ip: Option<IP>, rest: set<IP>, c: IPConfig)
    requires Proper(q) && Progress(q, left, ips) && |ips| < |q.ranges|
    requires Picked(q.ranges[|ips|], left, ip, rest) && Served(q, |ips|, rest, c)
    ensures Progress(q, rest, ips + [c])
  {
    HitsAfterPick(q, left, |ips|, ip, rest);
    forall m | 0 <= m < |ips| ensures Served(q, m, rest, ips[m]) { assert Served(q, m, left, ips[m]); }
    forall x | x in q.ips && x !in rest ensures InSome(q.ranges, x) {
      if x in left { assert SetContains(q.ranges[|ips|], x); }
    }
  }

  /** When all sets have had their turn, no request is left exactly when ADD is to succeed. */
  lemma ProgressEnd(q: Request, left: set<IP>, ips: seq<IPConfig>)
    requires Proper(q) && Progress(q, left, ips) && |ips| == |q.ranges|
    ensures left == {} <==> AddSucceeds(q)
    ensures left == {} ==> forall n {:trigger ips[n]} :: 0 <= n < |ips| ==> OutcomeOf(q, n) == Allocated(ips[n])
  {
    if left == {} {
      forall n | 0 <= n < |ips| ensures Gives(q, n) && OutcomeOf(q, n) == Allocated(ips[n]) {
        assert Served(q, n, left, ips[n]);
      }
    }
    if AddSucceeds(q) {
      forall ip | ip in q.ips ensures ip !in left {
        assert InSome(q.ranges, ip);
        var n :| 0 <= n < |q.ranges| && SetContains(q.ranges[n], ip);
        assert Served(q, n, left, ips[n]) && Gives(q, n);
        assert ip !in Hits(q.ranges[n], left);
      }
    }
  }

  lemma ProgressHeld(q: Request, left: set<IP>, ips: seq<IPConfig>)
    requires AllWalkable(q.ranges) && Progress(q, left, ips)
    ensures NoneHeld(q.used, ips)
  {
    forall j | 0 <= j < |ips| ensures ips[j].addr !in q.used { assert Served(q, j, left, ips[j]); }
  }

  // ---------- ADD and DEL ----------

  function RequestOf(store: Store, ranges: seq<seq<Conf>>, ipArgs: seq<IP>, id: string): Request
    reads store
  {
    Request(ranges, store.used, store.lastReserved, (set ip | ip in ipArgs), id)
  }

  /** What ADD leaves behind: one more reservation per set, or nothing but what the container held before. */
  ghost predicate AddOutcome(q: Request, r: AddResult, used: map<IP, string>, last: map<nat, IP>)
    requires AllWalkable(q.ranges)
  {
    && (r.Added? <==> AddSucceeds(q))
    && match r
       case Added(ips) =>
         && |ips| == |q.ranges| && NoneHeld(q.used, ips)
         && (forall n {:trigger ips[n]} :: 0 <= n < |ips| ==> OutcomeOf(q, n) == Allocated(ips[n]))
         && used == Holding(q.used, ips, q.id) && last == LastTaken(q.last, ips)
       case AddFailed => used == q.used || used == Without(q.used, q.id)
  }

  /** The requested addresses as a map, of which only the keys matter. */
  method CollectRequests(ipArgs: seq<IP>) returns (requested: set<IP>)
    ensures requested == set ip | ip in ipArgs
  {
    requested := {};
    for k := 0 to |ipArgs|
      invariant requested == set ip | ip in ipArgs[..k]
    {
      assert ipArgs[..k + 1] == ipArgs[..k] + [ipArgs[k]];
      requested := requested + {ipArgs[k]};
    }
    assert ipArgs[..|ipArgs|] == ipArgs;
  }

  predicate AllOn(allocs: seq<IPAllocator>, store: Store) {
    forall k {:trigger allocs[k]} :: 0 <= k < |allocs| ==> allocs[k].store == store
  }

  /** The state of the loop: the first sets have been served. */
  ghost predicate Adding(q: Request, left: set<IP>, ips: seq<IPConfig>, used: map<IP, string>, last: map<nat, IP>) {
    && AddReturns(q) && Reached(q, left, ips)
    && used == Holding(q.used, ips, q.id) && last == LastTaken(q.last, ips)
  }

  method CmdAdd(store: Store, ranges: seq<seq<Conf>>, ipArgs: seq<IP>, id: string) returns (r: AddResult)
    requires AddReturns(RequestOf(store, ranges, ipArgs, id))
    modifies store
    ensures AddRan(old(RequestOf(store, ranges, ipArgs, id)), r, store.used, store.lastReserved)
  {
    var requested := CollectRequests(ipArgs);
    ghost var q := RequestOf(store, ranges, ipArgs, id);
    var allocs: seq<IPAllocator>, ips: seq<IPConfig> := [], [];
    while |ips| < |ranges|
      invariant |allocs| == |ips| <= |ranges| && AllOn(allocs, store)
      invariant Adding(q, requested, ips, store.used, store.lastReserved)
      decreases |ranges| - |ips|
    {
      var a := new IPAllocator(ranges[|ips|], store, |ips|);
      ghost var before := requested;
      var c;
      c, requested := Serve(q, a, requested, ips, id);
      if c.Failed? {
        RollBack(q, store, allocs, before, ips, id);
        return AddFailed;
      }
      allocs, ips := allocs + [a], ips + [c.config];
    }
    if requested != {} {
      RollBack(q, store, allocs, requested, ips, id);
      return AddFailed;
    }
    return Added(ips);
  }

  /** One round of the loop: pick a requested address of the set, and reserve it or any. */
  method Serve(ghost q: Request, a: IPAllocator, requested: set<IP>, ghost ips: seq<IPConfig>, id: string)
    returns (r: GetResult, rest: set<IP>)
    requires Adding(q, requested, ips, a.store.used, a.store.lastReserved) && |ips| < |q.ranges|
    requires id == q.id && a.rangeset == q.ranges[|ips|] && a.rangeID == |ips|
    modifies a.store
    ensures Round(q, requested, ips, rest, r)
    ensures match r
            case Failed(_) => Adding(q, requested, ips, a.store.used, a.store.lastReserved)
            case Allocated(c) => Adding(q, rest, ips + [c], a.store.used, a.store.lastReserved)
  {
    var ip;
    ip, rest := PickRequested(a.rangeset, requested);
    TurnIsRound(q, requested, ips, ip, rest);
    r := a.Get(id, ip);
    ServedAdding(q, requested, ips, rest, r, a.store.used, a.store.lastReserved);
  }

  lemma TurnIsRound(q: Request, left: set<IP>, ips: seq<IPConfig>, ip: Option<IP>, rest: set<IP>)
    requires AddReturns(q) && Reached(q, left, ips) && |ips| < |q.ranges| && Picked(q.ranges[|ips|], left, ip, rest)
    ensures TurnReturns(q, ips, ip) && Round(q, left, ips, rest, Turn(q, ips, ip))
  {
    if ip.None? { assert TurnReturns(q, ips, None); }
  }

  lemma ServedAdding(q: Request, left: set<IP>, ips: seq<IPConfig>, rest: set<IP>, r: GetResult,
                     used: map<IP, string>, last: map<nat, IP>)
    requires AddReturns(q) && Reached(q, left, ips) && Round(q, left, ips, rest, r)
    requires (used, last) == StoreAfter(UsedAt(q, ips), LastTaken(q.last, ips), r, q.id, |ips|)
    ensures match r
            case Failed(_) => Adding(q, left, ips, used, last)
            case Allocated(c) => Adding(q, rest, ips + [c], used, last)
  {
    if r.Allocated? { RoundReaches(q, left, ips, rest, r.config); }
  }

  lemma RoundReaches(q: Request, left: set<IP>, ips: seq<IPConfig>, rest: set<IP>, c: IPConfig)
    requires Reached(q, left, ips) && Round(q, left, ips, rest, Allocated(c))
    ensures Reached(q, rest, ips + [c])
    ensures Holding(q.used, ips + [c], q.id) == Holding(q.used, ips, q.id)[Key(c.addr) := q.id]
    ensures LastTaken(q.last, ips + [c]) == LastTaken(q.last, ips)[|ips| := Key(c.addr)]
  {
    assert (ips + [c])[..|ips|] == ips;
  }

  /** Releases the container once for every allocator used so far. */
  method RollBack(ghost q: Request, store: Store, allocs: seq<IPAllocator>, ghost left: set<IP>,
                  ghost ips: seq<IPConfig>, id: string)
    requires Adding(q, left, ips, store.used, store.lastReserved) && Stuck(q, left, ips)
    requires id == q.id && |allocs| == |ips| && AllOn(allocs, store)
    modifies store
    ensures GaveUp(q, left, ips, store.used, store.lastReserved)
    ensures AddRan(q, AddFailed, store.used, store.lastReserved)
  {
    ReachedFacts(q, left, ips);
    ReleaseUndoes(q.used, ips, q.id);
    ReleaseAll(store, allocs, id);
    GaveUpRan(q, left, ips, store.used, store.lastReserved);
  }

  lemma GaveUpRan(q: Request, left: set<IP>, ips: seq<IPConfig>, used: map<IP, string>, last: map<nat, IP>)
    requires GaveUp(q, left, ips, used, last)
    ensures AddRan(q, AddFailed, used, last)
  {
  }

  method ReleaseAll(store: Store, allocs: seq<IPAllocator>, id: string)
    requires AllOn(allocs, store)
    modifies store
    ensures store.used == if |allocs| == 0 then old(store.used) else Without(old(store.used), id)
    ensures store.lastReserved == old(store.lastReserved)
  {
    for k := 0 to |allocs|
      invariant store.used == if k == 0 then old(store.used) else Without(old(store.used), id)
      invariant store.lastReserved == old(store.lastReserved)
    {
      allocs[k].Release(id);
    }
  }

  /** Releases the container once for every range set. */
  method CmdDel(store: Store, ranges: seq<seq<Conf>>, id: string)
    modifies store
    ensures store.used == if |ranges| == 0 then old(store.used) else Without(old(store.used), id)
    ensures store.lastReserved == old(store.lastReserved)
  {
    for idx := 0 to |ranges|
      invariant store.used == if idx == 0 then old(store.used) else Without(old(store.used), id)
      invariant store.lastReserved == old(store.lastReserved)
    {
      var a := new IPAllocator(ranges[idx], store, idx);
      a.Release(id);
    }
  }

  // ---------- All or nothing ----------

  /** A failed ADD leaves the reservations of a container that held nothing exactly as they were. */
  lemma FailedAddChangesNothing(q: Request, used: map<IP, string>, last: map<nat, IP>)
    requires AddRan(q, AddFailed, used, last)
    ensures used == q.used || used == Without(q.used, q.id)
    ensures q.id !in q.used.Values ==> used == q.used
  {
    if q.id !in q.used.Values { NothingHeld(q.used, q.id); }
  }

  /** A successful ADD reserves exactly one address for every set, all of them different and free before, and
      among them is every requested one. */
  lemma AddTakesOneEach(q: Request, ips: seq<IPConfig>, used: map<IP, string>, last: map<nat, IP>)
    requires AddRan(q, Added(ips), used, last)
    ensures |ips| == |q.ranges| && AllDifferent(ips) && NoneHeld(q.used, ips)
    ensures forall a :: a in used <==> a in q.used || Takes(ips, a)
    ensures forall a :: a in used ==> used[a] == if a in q.used then q.used[a] else q.id
    ensures forall a :: a in q.ips ==> Canon(a).Some? && Takes(ips, Canon(a).value)
  {
    ReachedFacts(q, {}, ips);
    HoldingFacts(q.used, ips, q.id);
    var none: set<IP> := {};
    assert forall a :: a in q.ips ==> a !in none;
  }

  lemma HoldingFacts(used: map<IP, string>, ips: seq<IPConfig>, id: string)
    requires NoneHeld(used, ips)
    ensures var h := Holding(used, ips, id);
      && (forall a :: a in h <==> a in used || Takes(ips, a))
      && (forall a :: a in h ==> h[a] == if a in used then used[a] else id)
  {
    forall a
      ensures var h := Holding(used, ips, id);
        (a in h <==> a in used || Takes(ips, a)) && (a in h ==> h[a] == if a in used then used[a] else id)
    {
      HoldingAt(used, ips, id, a);
    }
  }

  /** DEL takes back what ADD took, and a second DEL changes nothing. */
  lemma DelUndoesAdd(q: Request, r: AddResult, used: map<IP, string>, last: map<nat, IP>)
    requires AddRan(q, r, used, last)
    ensures Without(used, q.id) == Without(q.used, q.id)
    ensures q.id !in q.used.Values ==> Without(used, q.id) == q.used
    ensures Without(Without(used, q.id), q.id) == Without(used, q.id)
  {
    if r.Added? {
      ReachedFacts(q, {}, r.ips);
      ReleaseUndoes(q.used, r.ips, q.id);
    }
    if q.id !in q.used.Values { NothingHeld(q.used, q.id); }
  }

  // ---------- When ADD succeeds ----------

  lemma {:induction false} ReachedProgress(q: Request, left: set<IP>, ips: seq<IPConfig>)
    requires Proper(q) && Reached(q, left, ips)
    ensures Progress(q, left, ips)
    decreases |ips|
  {
    if ips == [] {
      NoProgress(q);
    } else {
      var before := LastRound(q, left, ips);
      ReachedProgress(q, before, ips[..|ips| - 1]);
      LastProgress(q, before, left, ips);
    }
  }

  lemma NoProgress(q: Request)
    requires AllWalkable(q.ranges)
    ensures Progress(q, q.ips, [])
  {
  }

  lemma LastProgress(q: Request, before: set<IP>, left: set<IP>, ips: seq<IPConfig>)
    requires Proper(q) && ips != [] && Progress(q, before, ips[..|ips| - 1])
    requires Round(q, before, ips[..|ips| - 1], left, Allocated(ips[|ips| - 1]))
    ensures Progress(q, left, ips)
  {
    SplitLast(ips);
    RoundProgress(q, before, ips[..|ips| - 1], left, Allocated(ips[|ips| - 1]));
  }

  lemma SplitLast(ips: seq<IPConfig>)
    requires ips != []
    ensures ips[..|ips| - 1] + [ips[|ips| - 1]] == ips
  {
  }

  lemma RoundProgress(q: Request, left: set<IP>, ips: seq<IPConfig>, rest: set<IP>, r: GetResult)
    requires Proper(q) && Progress(q, left, ips) && Round(q, left, ips, rest, r)
    ensures if r.Allocated? then Progress(q, rest, ips + [r.config]) else !AddSucceeds(q)
  {
    var ip :| Picked(q.ranges[|ips|], left, ip, rest) && TurnReturns(q, ips, ip) && r == Turn(q, ips, ip);
    ProgressStep(q, left, ips, ip, rest);
  }

  /** Range sets that can be walked and share no address: ADD returns if each set that is not asked for a
      particular address may end a dynamic Get at the beginning. */
  lemma ProperReturns(q: Request)
    requires Proper(q)
    ensures AddReturns(q)
  {
    forall left, ips | Reached(q, left, ips) && |ips| < |q.ranges| && Hits(q.ranges[|ips|], left) == {}
      ensures TurnReturns(q, ips, None)
    {
      ReachedProgress(q, left, ips);
      TurnFromStart(q, left, ips, None, left);
    }
  }

  /** It then succeeds exactly when it should, and each set gives what it would give alone. */
  lemma AddIsOutcome(q: Request, r: AddResult, used: map<IP, string>, last: map<nat, IP>)
    requires Proper(q) && AddRan(q, r, used, last)
    ensures AddOutcome(q, r, used, last)
  {
    match r
    case Added(ips) =>
      ReachedProgress(q, {}, ips);
      ProgressEnd(q, {}, ips);
      ProgressHeld(q, {}, ips);
    case AddFailed =>
      var left, ips :| GaveUp(q, left, ips, used, last);
      StuckFails(q, left, ips);
  }

  lemma StuckFails(q: Request, left: set<IP>, ips: seq<IPConfig>)
    requires Proper(q) && Reached(q, left, ips) && Stuck(q, left, ips) && |ips| <= |q.ranges|
    ensures !AddSucceeds(q)
  {
    ReachedProgress(q, left, ips);
    if |ips| == |q.ranges| {
      ProgressEnd(q, left, ips);
    } else {
      var rest, r :| Round(q, left, ips, rest, r) && r.Failed?;
      RoundProgress(q, left, ips, rest, r);
    }
  }

  /** The result and the reservations left behind depend on nothing but the request: not on the order in
      which the requested addresses are picked. */
  lemma AddIsDeterministic(q: Request, r: AddResult, used: map<IP, string>, last: map<nat, IP>,
                           r': AddResult, used': map<IP, string>, last': map<nat, IP>)
    requires AllWalkable(q.ranges) && q.id !in q.used.Values
    requires AddOutcome(q, r, used, last) && AddOutcome(q, r', used', last')
    ensures r == r' && used == used' && (r.Added? ==> last == last')
  {
    NothingHeld(q.used, q.id);
    if r.Added? {
      forall n | 0 <= n < |r.ips| ensures r.ips[n] == r'.ips[n] {
        assert Allocated(r.ips[n]) == OutcomeOf(q, n) == Allocated(r'.ips[n]);
      }
      assert r.ips == r'.ips;
    }
  }

  lemma NothingHeld(used: map<IP, string>, id: string)
    requires id !in used.Values
    ensures Without(used, id) == used
  {
  }

  /** A successful ADD reserves exactly one address in every set, all of them different and free before, and
      among them is every requested one. */
  lemma AddTakesOnePerSet(q: Request, ips: seq<IPConfig>, used: map<IP, string>, last: map<nat, IP>)
    requires Proper(q) && AddOutcome(q, Added(ips), used, last)
    ensures forall n, m :: 0 <= n < |ips| && 0 <= m < |ips| ==> (SetContains(q.ranges[m], ips[n].addr) <==> n == m)
    ensures forall a :: a in used <==> a in q.used || Takes(ips, a)
    ensures forall a :: a in used ==> used[a] == if a in q.used then q.used[a] else q.id
    ensures forall a :: a in q.ips ==> Takes(ips, a)
  {
    forall n | 0 <= n < |ips| ensures SetContains(q.ranges[n], ips[n].addr) { TakenInSet(q, ips, n); }
    HoldingFacts(q.used, ips, q.id);
    forall a | a in q.ips ensures Takes(ips, a) {
      assert InSome(q.ranges, a);
      var n :| 0 <= n < |q.ranges| && SetContains(q.ranges[n], a);
      RequestedTaken(q, ips, n, a);
    }
  }

  /** A set with one requested address gives that one, and any set gives an address of its own. */
  lemma OutcomeInSet(s: seq<Conf>, used: map<IP, string>, last: Option<IP>, requested: set<IP>)
    requires Walkable(s) && Outcome(s, used, last, requested).Allocated?
    ensures SetContains(s, Outcome(s, used, last, requested).config.addr)
    ensures forall a :: a in Hits(s, requested) && IsCanonical(a) ==> Outcome(s, used, last, requested).config.addr == a
  {
    var hits := Hits(s, requested);
    if hits == {} {
      AnswerInSet(s, used, last, None);
    } else if ip :| ip in hits && hits == {ip} {
      AnswerInSet(s, used, last, Some(ip));
    }
  }

  lemma TakenInSet(q: Request, ips: seq<IPConfig>, n: nat)
    requires AllWalkable(q.ranges) && n < |q.ranges| == |ips| && OutcomeOf(q, n) == Allocated(ips[n])
    ensures SetContains(q.ranges[n], ips[n].addr)
  {
    OutcomeInSet(q.ranges[n], q.used, StoredLast(q.last, n), q.ips);
  }

  lemma RequestedTaken(q: Request, ips: seq<IPConfig>, n: nat, a: IP)
    requires AllWalkable(q.ranges) && n < |q.ranges| == |ips| && OutcomeOf(q, n) == Allocated(ips[n])
    requires a in q.ips && IsCanonical(a) && SetContains(q.ranges[n], a)
    ensures ips[n].addr == a
  {
    OutcomeInSet(q.ranges[n], q.used, StoredLast(q.last, n), q.ips);
    assert a in Hits(q.ranges[n], q.ips);
  }

  predicate AllRegular(sets: seq<seq<Conf>>) {
    forall m, n {:trigger sets[m][n]} :: 0 <= m < |sets| && 0 <= n < |sets[m]| ==> RegularStart(sets[m][n])
  }

  /** The range sets of an accepted configuration whose starts are regular share no address. */
  lemma LoadedSetsAreApart(copy: Copy, net: Net, ranges: seq<seq<Conf>>)
    requires ConfigAccepted(copy, net) && ranges == CanonicalizedSets(copy, Assembled(net))
    requires AllRegular(Assembled(net))
    ensures SetsApart(ranges)
  {
    forall i, j, a | 0 <= i < |ranges| && 0 <= j < |ranges| && SetContains(ranges[i], a) && SetContains(ranges[j], a)
      ensures i == j
    {
      var k, l := RangeFor(ranges[i], a).value, RangeFor(ranges[j], a).value;
      CanonicalizedSetsAt(copy, Assembled(net), i);
      CanonicalizedSetsAt(copy, Assembled(net), j);
      assert RegularStart(Assembled(net)[i][k]) && RegularStart(Assembled(net)[j][l]);
      ConfigIsDisjoint(copy, net, ranges, i, k, j, l, a);
    }
  }

  /** They can be walked exactly when every range, as given, counts up. */
  lemma LoadedSetsAreWalkable(copy: Copy, net: Net, ranges: seq<seq<Conf>>)
    requires ConfigAccepted(copy, net) && ranges == CanonicalizedSets(copy, Assembled(net))
    ensures AllWalkable(ranges) <==> forall i :: 0 <= i < |ranges| ==> AllCountUp(Assembled(net)[i])
  {
    forall i | 0 <= i < |ranges| ensures Walkable(ranges[i]) <==> AllCountUp(Assembled(net)[i]) {
      CanonicalizedSetsAt(copy, Assembled(net), i);
      AcceptedIsWalkable(copy, Assembled(net)[i]);
    }
  }
}
