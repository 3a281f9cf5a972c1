/** plugins/ipam/host-local/main.go: cmdAdd and cmdDel, with the interface name and the duplicate check. */
module HostCni {
  import opened Options
  import opened GoNet
  import opened Ranges
  import opened RangeSets
  import opened Walk
  import Stores
  import opened Allocator
  import opened Cni
  import opened Fairness
  import opened HostLocal

  // ---------- Releasing more than once ----------

  /** Release, called once for every range set. */
  function ReleasedTimes(owners: map<IP, Owner>, id: string, ifname: string, n: nat): map<IP, Owner> {
    if n == 0 then owners else Released(ReleasedTimes(owners, id, ifname, n - 1), id, ifname)
  }

  lemma ReleasedAgain(owners: map<IP, Owner>, id: string, ifname: string)
    ensures var once := Released(owners, id, ifname);
      && Released(once, id, ifname) == Stores.Without(once, OldOwned(id))
      && Owned(id, ifname) !in once.Values
  {
    var once := Released(owners, id, ifname);
    if Owned(id, ifname) in owners.Values {
      assert Owned(id, ifname) !in once.Values;
    } else {
      assert once == Stores.Without(owners, OldOwned(id));
      assert Owned(id, ifname) !in once.Values;
    }
  }

  /** The first release removes the interface's files; only one that finds none removes those of older
      versions. So a second release changes nothing exactly when there are not files of both kinds. */
  lemma SecondRelease(owners: map<IP, Owner>, id: string, ifname: string)
    ensures Released(Released(owners, id, ifname), id, ifname) == Released(owners, id, ifname) <==>
            !(Owned(id, ifname) in owners.Values && OldOwned(id) in owners.Values)
  {
    var once := Released(owners, id, ifname);
    ReleasedAgain(owners, id, ifname);
    if Owned(id, ifname) in owners.Values && OldOwned(id) in owners.Values {
      var a :| a in owners && owners[a] == OldOwned(id);
      assert a in once && a !in Stores.Without(once, OldOwned(id));
    } else if Owned(id, ifname) in owners.Values {
      assert Stores.Without(once, OldOwned(id)) == once;
    }
  }

  /** A third release never changes anything. */
  lemma {:induction false} FurtherReleases(owners: map<IP, Owner>, id: string, ifname: string, n: nat)
    requires n >= 2
    ensures ReleasedTimes(owners, id, ifname, n) ==
            Stores.Without(Stores.Without(owners, Owned(id, ifname)), OldOwned(id))
    decreases n
  {
    var once := Released(owners, id, ifname);
    var both := Stores.Without(Stores.Without(owners, Owned(id, ifname)), OldOwned(id));
    ReleasedAgain(owners, id, ifname);
    if n == 2 {
      assert ReleasedTimes(owners, id, ifname, 0) == owners;
      assert ReleasedTimes(owners, id, ifname, 1) == once;
      assert Stores.Without(once, OldOwned(id)) == both;
    } else {
      FurtherReleases(owners, id, ifname, n - 1);
      assert Owned(id, ifname) !in both.Values;
      assert Stores.Without(both, OldOwned(id)) == both;
    }
  }

  lemma {:induction false} TimesAdd(owners: map<IP, Owner>, id: string, ifname: string, m: nat, n: nat)
    ensures ReleasedTimes(ReleasedTimes(owners, id, ifname, n), id, ifname, m) ==
            ReleasedTimes(owners, id, ifname, n + m)
    decreases m
  {
    if m > 0 { TimesAdd(owners, id, ifname, m - 1, n); }
  }

  /** DEL, one release for each of `n` range sets, is idempotent exactly when there are not files of both kinds
      and one range set only. */
  lemma DelTwice(owners: map<IP, Owner>, id: string, ifname: string, n: nat)
    ensures var once := ReleasedTimes(owners, id, ifname, n);
      ReleasedTimes(once, id, ifname, n) == once <==>
      !(n == 1 && Owned(id, ifname) in owners.Values && OldOwned(id) in owners.Values)
  {
    TimesAdd(owners, id, ifname, n, n);
    if n == 1 {
      assert ReleasedTimes(owners, id, ifname, 0) == owners;
      SecondRelease(owners, id, ifname);
    } else if n > 1 {
      FurtherReleases(owners, id, ifname, n);
      FurtherReleases(owners, id, ifname, n + n);
    }
  }

  /** One file of each kind and one range set: the second DEL removes the file the first one left. */
  lemma DelTwiceDiffers(a: IP, b: IP)
    requires a != b
    ensures var owners := map[a := Owned("c1", "eth0"), b := OldOwned("c1")];
      && ReleasedTimes(owners, "c1", "eth0", 1) == map[b := OldOwned("c1")]
      && ReleasedTimes(owners, "c1", "eth0", 2) == map[]
  {
    var owners := map[a := Owned("c1", "eth0"), b := OldOwned("c1")];
    assert owners[a] == Owned("c1", "eth0") && Owned("c1", "eth0") in owners.Values;
    assert ReleasedTimes(owners, "c1", "eth0", 0) == owners;
    assert Released(owners, "c1", "eth0") == map[b := OldOwned("c1")];
    FurtherReleases(owners, "c1", "eth0", 2);
  }

  predicate AllOn(allocs: seq<HostAllocator>, store: HostLocal.Store) {
    forall k {:trigger allocs[k]} :: 0 <= k < |allocs| ==> allocs[k].store == store
  }

  method ReleaseAll(store: HostLocal.Store, allocs: seq<HostAllocator>, id: string, ifname: string)
    requires AllOn(allocs, store)
    modifies store
    ensures store.View() == Disk(ReleasedTimes(old(store.owners), id, ifname, |allocs|), old(store.lastReserved))
  {
    for k := 0 to |allocs|
      invariant store.View() == Disk(ReleasedTimes(old(store.owners), id, ifname, k), old(store.lastReserved))
    {
      allocs[k].Release(id, ifname);
    }
  }

  /** Releases the interface once for every range set. */
  method CmdDel(store: HostLocal.Store, ranges: seq<seq<Conf>>, id: string, ifname: string)
    modifies store
    ensures store.View() == Disk(ReleasedTimes(old(store.owners), id, ifname, |ranges|), old(store.lastReserved))
  {
    for idx := 0 to |ranges|
      invariant store.View() == Disk(ReleasedTimes(old(store.owners), id, ifname, idx), old(store.lastReserved))
    {
      var a := new HostAllocator(ranges[idx], store, idx);
      a.Release(id, ifname);
    }
  }

  // ---------- ADD ----------

  /** One more reservation per set, from set 0 on. */
  function HostHolding(owners: map<IP, Owner>, ips: seq<IPConfig>, id: string, ifname: string): map<IP, Owner> {
    if ips == [] then owners
    else HostHolding(owners, ips[..|ips| - 1], id, ifname)[Stores.Key(ips[|ips| - 1].addr) := Owned(id, ifname)]
  }

  lemma {:induction false} HostHoldingAt(owners: map<IP, Owner>, ips: seq<IPConfig>, id: string, ifname: string, a: IP)
    ensures var h := HostHolding(owners, ips, id, ifname);
      && (a in h <==> Takes(ips, a) || a in owners)
      && (a in h ==> h[a] == if Takes(ips, a) then Owned(id, ifname) else owners[a])
    decreases |ips|
  {
    if ips != [] {
      HostHoldingAt(owners, ips[..|ips| - 1], id, ifname, a);
      TakesSplit(ips, a);
    }
  }

  /** As far as the choice of addresses goes, the directory is a map from addresses to containers. */
  lemma {:induction false} NamesOfHolding(owners: map<IP, Owner>, ips: seq<IPConfig>, id: string, ifname: string)
    ensures Names(HostHolding(owners, ips, id, ifname)) == Holding(Names(owners), ips, id)
    decreases |ips|
  {
    if ips != [] { NamesOfHolding(owners, ips[..|ips| - 1], id, ifname); }
  }

  /** No file of either kind names the interface. */
  predicate HoldsNothing(owners: map<IP, Owner>, id: string, ifname: string) {
    Owned(id, ifname) !in owners.Values && OldOwned(id) !in owners.Values
  }

  lemma HoldsNothingStays(owners: map<IP, Owner>, id: string, ifname: string)
    requires HoldsNothing(owners, id, ifname)
    ensures Released(owners, id, ifname) == owners
  {
  }

  /** Releasing gives back what was taken, if nothing was held before. */
  lemma {:induction false} RollBackRestores(owners: map<IP, Owner>, ips: seq<IPConfig>, id: string, ifname: string,
                                            n: nat)
    requires HoldsNothing(owners, id, ifname) && NoneHeld(Names(owners), ips) && n >= 1
    ensures ReleasedTimes(HostHolding(owners, ips, id, ifname), id, ifname, n) == owners
    decreases n
  {
    if n == 1 {
      var h := HostHolding(owners, ips, id, ifname);
      assert ReleasedTimes(h, id, ifname, 0) == h;
      OneRollBack(owners, ips, id, ifname);
    } else {
      RollBackRestores(owners, ips, id, ifname, n - 1);
      HoldsNothingStays(owners, id, ifname);
    }
  }

  lemma OneRollBack(owners: map<IP, Owner>, ips: seq<IPConfig>, id: string, ifname: string)
    requires HoldsNothing(owners, id, ifname) && NoneHeld(Names(owners), ips)
    ensures Released(HostHolding(owners, ips, id, ifname), id, ifname) == owners
  {
    var h := HostHolding(owners, ips, id, ifname);
    forall a ensures (a in Stores.Without(h, Owned(id, ifname)) <==> a in owners)
                     && (a in owners ==> a in h && h[a] == owners[a])
    {
      HostHoldingAt(owners, ips, id, ifname, a);
      assert a in Names(owners) <==> a in owners;
    }
    assert Stores.Without(h, Owned(id, ifname)) == owners;
    if ips == [] {
      HoldsNothingStays(owners, id, ifname);
    } else {
      HostHoldingAt(owners, ips, id, ifname, Stores.Key(ips[0].addr));
      assert h[Stores.Key(ips[0].addr)] == Owned(id, ifname);
    }
  }

  lemma HoldingKeeps(owners: map<IP, Owner>, taken: seq<IPConfig>, id: string, ifname: string)
    requires NoneHeld(Names(owners), taken)
    ensures var h := HostHolding(owners, taken, id, ifname);
      forall a :: a in owners ==> a in h && h[a] == owners[a]
  {
    forall a | a in owners
      ensures var h := HostHolding(owners, taken, id, ifname); a in h && h[a] == owners[a]
    {
      HostHoldingAt(owners, taken, id, ifname, a);
      assert a in Names(owners);
    }
  }

  /** The state in which ADD begins, what it is asked for, and what will go wrong with the files of each set. */
  datatype HostAdd = HostAdd(ranges: seq<seq<Conf>>, disk: Disk, ips: set<IP>, id: string, ifname: string,
                             faults: seq<Fault>)
  {
    /** ... as a request to kube-ipam. */
    function Plain(): Request { Request(ranges, Names(disk.owners), disk.last, ips, id) }

    /** The directory after these addresses were taken, one from each set. */
    function Now(taken: seq<IPConfig>): Disk {
      Disk(HostHolding(disk.owners, taken, id, ifname), LastTaken(disk.last, taken))
    }
  }

  /** What Get returns in the turn of the set after `ips`, and that it does return. */
  ghost predicate TurnIs(h: HostAdd, ips: seq<IPConfig>, ip: Option<IP>, r: HostResult)
    requires |ips| < |h.ranges| == |h.faults|
  {
    && Returns(h.Now(ips), h.ranges[|ips|], |ips|, h.id, h.ifname, ip)
    && r == Under(h.faults[|ips|], Answered(h.Now(ips), h.ranges[|ips|], |ips|, h.id, h.ifname, ip))
  }

  /** The round after `ips`: some request is picked, if there is one, and Get answers `r`. */
  ghost predicate HostRound(h: HostAdd, left: set<IP>, ips: seq<IPConfig>, rest: set<IP>, r: HostResult) {
    |ips| < |h.ranges| == |h.faults| &&
    exists ip {:trigger Picked(h.ranges[|ips|], left, ip, rest)} ::
      Picked(h.ranges[|ips|], left, ip, rest) && TurnIs(h, ips, ip, r)
  }

  ghost predicate HostReached(h: HostAdd, left: set<IP>, ips: seq<IPConfig>)
    decreases |ips|
  {
    if ips == [] then left == h.ips
    else
      var init := ips[..|ips| - 1];
      exists before {:trigger HostReached(h, before, init)} ::
        HostReached(h, before, init) && HostRound(h, before, init, left, Given(ips[|ips| - 1]))
  }

  lemma LastHostRound(h: HostAdd, left: set<IP>, ips: seq<IPConfig>) returns (before: set<IP>)
    requires HostReached(h, left, ips) && ips != []
    ensures var init := ips[..|ips| - 1];
      HostReached(h, before, init) && HostRound(h, before, init, left, Given(ips[|ips| - 1]))
  {
    var init := ips[..|ips| - 1];
    before :| HostReached(h, before, init) && HostRound(h, before, init, left, Given(ips[|ips| - 1]));
  }

  /** Every dynamic Get that ADD can come to returns. */
  ghost predicate HostAddReturns(h: HostAdd) {
    forall left, ips {:trigger HostReached(h, left, ips)} ::
      HostReached(h, left, ips) && |ips| < |h.ranges| && Hits(h.ranges[|ips|], left) == {} ==>
        Returns(h.Now(ips), h.ranges[|ips|], |ips|, h.id, h.ifname, None)
  }

  /** The loop ends here without success, having created the address files of `taken`. */
  ghost predicate HostStuck(h: HostAdd, left: set<IP>, ips: seq<IPConfig>, taken: seq<IPConfig>) {
    if |ips| == |h.ranges| then left != {} && taken == ips
    else exists rest, r :: HostRound(h, left, ips, rest, r) && !r.Given? && taken == Files(ips, r)
  }

  /** The address files after a round that ended in `r`. */
  function Files(ips: seq<IPConfig>, r: HostResult): seq<IPConfig> { if r.NotNoted? then ips + [r.config] else ips }

  /** ADD gave up after some rounds, and has released the interface once for each. */
  ghost predicate HostGaveUp(h: HostAdd, left: set<IP>, ips: seq<IPConfig>, taken: seq<IPConfig>, d: Disk) {
    && HostReached(h, left, ips) && HostStuck(h, left, ips, taken)
    && d == Disk(ReleasedTimes(h.Now(taken).owners, h.id, h.ifname, |ips|), h.Now(ips).last)
  }

  /** What ADD does, whatever the sets are. */
  ghost predicate HostRan(h: HostAdd, r: AddResult, d: Disk) {
    match r
    case Added(ips) => |ips| == |h.ranges| && HostReached(h, {}, ips) && d == h.Now(ips)
    case AddFailed => exists left, ips, taken :: HostGaveUp(h, left, ips, taken, d)
  }

  ghost predicate Serving(h: HostAdd, left: set<IP>, ips: seq<IPConfig>, d: Disk) {
    |h.faults| == |h.ranges| && HostAddReturns(h) && HostReached(h, left, ips) && d == h.Now(ips)
  }

  function HostAddOf(store: HostLocal.Store, ranges: seq<seq<Conf>>, ipArgs: seq<IP>, id: string, ifname: string,
                     faults: seq<Fault>): HostAdd
    reads store
  {
    HostAdd(ranges, store.View(), (set ip | ip in ipArgs), id, ifname, faults)
  }

  method CmdAdd(store: HostLocal.Store, ranges: seq<seq<Conf>>, ipArgs: seq<IP>, id: string, ifname: string,
                faults: seq<Fault>) returns (r: AddResult)
    requires |faults| == |ranges| && HostAddReturns(HostAddOf(store, ranges, ipArgs, id, ifname, faults))
    modifies store
    ensures HostRan(old(HostAddOf(store, ranges, ipArgs, id, ifname, faults)), r, store.View())
  {
    var requested := CollectRequests(ipArgs);
    ghost var h := HostAddOf(store, ranges, ipArgs, id, ifname, faults);
    var allocs: seq<HostAllocator>, ips: seq<IPConfig> := [], [];
    while |ips| < |ranges|
      invariant |allocs| == |ips| <= |ranges| && AllOn(allocs, store)
      invariant Serving(h, requested, ips, store.View())
      decreases |ranges| - |ips|
    {
      var a := new HostAllocator(ranges[|ips|], store, |ips|);
      ghost var left := requested;
      var got;
      got, requested := Serve(h, a, requested, ips, id, ifname, faults[|ips|]);
      if !got.Given? {
        ghost var taken := StuckAfter(h, left, ips, requested, got, store.View());
        GiveUp(h, store, allocs, left, ips, taken, id, ifname);
        return AddFailed;
      }
      allocs, ips := allocs + [a], ips + [got.config];
    }
    if requested != {} {
      GiveUp(h, store, allocs, requested, ips, ips, id, ifname);
      return AddFailed;
    }
    return Added(ips);
  }

  /** One round of the loop. */
  method Serve(ghost h: HostAdd, a: HostAllocator, requested: set<IP>, ghost ips: seq<IPConfig>,
               id: string, ifname: string, fault: Fault) returns (r: HostResult, rest: set<IP>)
    requires Serving(h, requested, ips, a.store.View()) && |ips| < |h.ranges|
    requires id == h.id && ifname == h.ifname && fault == h.faults[|ips|]
    requires a.rangeset == h.ranges[|ips|] && a.rangeID == |ips|
    modifies a.store
    ensures HostRound(h, requested, ips, rest, r)
    ensures a.store.View() == AfterGet(h.Now(ips), r, |ips|, h.id, h.ifname)
    ensures r.Given? ==> Serving(h, rest, ips + [r.config], a.store.View())
  {
    var ip;
    ip, rest := PickRequested(a.rangeset, requested);
    TurnCanBeTaken(h, requested, ips, ip, rest);
    r := a.Get(id, ifname, ip, fault);
    assert TurnIs(h, ips, ip, r) && Picked(h.ranges[|ips|], requested, ip, rest);
    if r.Given? { HostRoundReaches(h, requested, ips, rest, r.config); }
  }

  lemma TurnCanBeTaken(h: HostAdd, left: set<IP>, ips: seq<IPConfig>, ip: Option<IP>, rest: set<IP>)
    requires HostAddReturns(h) && HostReached(h, left, ips) && |ips| < |h.ranges|
    requires Picked(h.ranges[|ips|], left, ip, rest)
    ensures Returns(h.Now(ips), h.ranges[|ips|], |ips|, h.id, h.ifname, ip)
  {
    if ip.None? { assert Returns(h.Now(ips), h.ranges[|ips|], |ips|, h.id, h.ifname, None); }
  }

  lemma OneMore(h: HostAdd, ips: seq<IPConfig>, c: IPConfig)
    ensures AfterGet(h.Now(ips), Given(c), |ips|, h.id, h.ifname) == h.Now(ips + [c])
    ensures AfterGet(h.Now(ips), NotNoted(c), |ips|, h.id, h.ifname).owners == h.Now(ips + [c]).owners
  {
    assert (ips + [c])[..|ips|] == ips;
  }

  lemma HostRoundReaches(h: HostAdd, left: set<IP>, ips: seq<IPConfig>, rest: set<IP>, c: IPConfig)
    requires HostReached(h, left, ips) && HostRound(h, left, ips, rest, Given(c))
    ensures HostReached(h, rest, ips + [c])
    ensures AfterGet(h.Now(ips), Given(c), |ips|, h.id, h.ifname) == h.Now(ips + [c])
  {
    assert (ips + [c])[..|ips|] == ips;
    OneMore(h, ips, c);
  }

  lemma StuckAfter(h: HostAdd, left: set<IP>, ips: seq<IPConfig>, rest: set<IP>, r: HostResult, d: Disk)
    returns (taken: seq<IPConfig>)
    requires HostReached(h, left, ips) && HostRound(h, left, ips, rest, r) && !r.Given?
    requires d == AfterGet(h.Now(ips), r, |ips|, h.id, h.ifname)
    ensures HostStuck(h, left, ips, taken)
    ensures d.owners == h.Now(taken).owners && d.last == h.Now(ips).last
  {
    taken := Files(ips, r);
    if r.NotNoted? { OneMore(h, ips, r.config); }
  }

  method GiveUp(ghost h: HostAdd, store: HostLocal.Store, allocs: seq<HostAllocator>, ghost left: set<IP>,
                ghost ips: seq<IPConfig>, ghost taken: seq<IPConfig>, id: string, ifname: string)
    requires HostReached(h, left, ips) && HostStuck(h, left, ips, taken) && id == h.id && ifname == h.ifname
    requires store.View() == Disk(h.Now(taken).owners, h.Now(ips).last)
    requires |allocs| == |ips| && AllOn(allocs, store)
    modifies store
    ensures HostGaveUp(h, left, ips, taken, store.View())
    ensures HostRan(h, AddFailed, store.View())
  {
    ReleaseAll(store, allocs, id, ifname);
    GaveUpRan(h, left, ips, taken, store.View());
  }

  lemma GaveUpRan(h: HostAdd, left: set<IP>, ips: seq<IPConfig>, taken: seq<IPConfig>, d: Disk)
    requires HostGaveUp(h, left, ips, taken, d)
    ensures HostRan(h, AddFailed, d)
  {
  }

  // ---------- As far as the addresses go it is kube-ipam's ADD ----------

  /** If Get gives an address, or would but for the files, kube-ipam's gives the same. */
  lemma SameTurn(h: HostAdd, ips: seq<IPConfig>, ip: Option<IP>, r: HostResult)
    requires |ips| < |h.ranges| == |h.faults| && TurnIs(h, ips, ip, r)
    requires !(ip.None? && HasAny(h.Now(ips).owners, h.ranges[|ips|], h.id, h.ifname))
    ensures TurnReturns(h.Plain(), ips, ip)
    ensures r == Under(h.faults[|ips|], FromGet(Turn(h.Plain(), ips, ip)))
  {
    NamesOfHolding(h.disk.owners, ips, h.id, h.ifname);
  }

  lemma GivenTurn(h: HostAdd, ips: seq<IPConfig>, ip: Option<IP>, r: HostResult)
    requires |ips| < |h.ranges| == |h.faults| && TurnIs(h, ips, ip, r) && (r.Given? || r.NotNoted?)
    ensures TurnReturns(h.Plain(), ips, ip) && Turn(h.Plain(), ips, ip) == Allocated(r.config)
    ensures ip.None? ==> !HasAny(h.Now(ips).owners, h.ranges[|ips|], h.id, h.ifname)
    ensures if r.Given? then h.faults[|ips|].NoFault? else h.faults[|ips|].CannotNote?
  {
    SameTurn(h, ips, ip, r);
  }

  lemma {:induction false} HostReachedIsReached(h: HostAdd, left: set<IP>, ips: seq<IPConfig>)
    requires HostReached(h, left, ips)
    ensures Reached(h.Plain(), left, ips)
    decreases |ips|
  {
    if ips != [] {
      var init, r := ips[..|ips| - 1], Given(ips[|ips| - 1]);
      var before := LastHostRound(h, left, ips);
      var ip :| Picked(h.ranges[|init|], before, ip, left) && TurnIs(h, init, ip, r);
      HostReachedIsReached(h, before, init);
      GivenTurn(h, init, ip, r);
    }
  }

  /** A successful ADD is one of kube-ipam's, so `AddTakesOneEach` and, for proper sets, `AddIsOutcome` hold of it
      too. */
  lemma HostAddIsAdd(h: HostAdd, ips: seq<IPConfig>, d: Disk)
    requires HostRan(h, Added(ips), d)
    ensures AddRan(h.Plain(), Added(ips), Names(d.owners), d.last)
  {
    HostReachedIsReached(h, {}, ips);
    NamesOfHolding(h.disk.owners, ips, h.id, h.ifname);
  }

  // ---------- All or nothing ----------

  /** No address that ADD takes, given up or not, was held before. */
  lemma TakenWasFree(h: HostAdd, left: set<IP>, ips: seq<IPConfig>, taken: seq<IPConfig>)
    requires HostReached(h, left, ips) && HostStuck(h, left, ips, taken)
    ensures NoneHeld(Names(h.disk.owners), taken)
    ensures taken == ips || (|taken| == |ips| + 1 && |ips| < |h.faults| && h.faults[|ips|].CannotNote?)
  {
    var q := h.Plain();
    HostReachedIsReached(h, left, ips);
    ReachedFacts(q, left, ips);
    if taken != ips {
      var rest, r :| HostRound(h, left, ips, rest, r) && r.NotNoted? && taken == ips + [r.config];
      var ip :| Picked(h.ranges[|ips|], left, ip, rest) && TurnIs(h, ips, ip, r);
      GivenTurn(h, ips, ip, r);
      TurnIsFree(q, ips, ip);
      assert taken[..|taken| - 1] == ips;
      NewIsDifferent(q, taken);
    }
  }

  /** A failed ADD by an interface that held nothing leaves the address files as they were, unless the last-reserved
      file of the first set cannot be written: then that set's address file may stay, for there is no allocator
      to release yet. */
  lemma FailedAddKeepsFiles(h: HostAdd, d: Disk)
    requires HostRan(h, AddFailed, d) && HoldsNothing(h.disk.owners, h.id, h.ifname)
    ensures d.owners != h.disk.owners ==> |h.faults| > 0 && h.faults[0].CannotNote?
  {
    var left, ips, taken :| HostGaveUp(h, left, ips, taken, d);
    TakenWasFree(h, left, ips, taken);
    if ips != [] { RollBackRestores(h.disk.owners, taken, h.id, h.ifname, |ips|); }
  }

  lemma {:induction false} ServedWithoutFault(h: HostAdd, left: set<IP>, ips: seq<IPConfig>)
    requires HostReached(h, left, ips) && ips != []
    ensures |h.faults| > 0 && h.faults[0].NoFault?
    decreases |ips|
  {
    var init, r := ips[..|ips| - 1], Given(ips[|ips| - 1]);
    var before := LastHostRound(h, left, ips);
    if init == [] {
      var ip :| Picked(h.ranges[0], before, ip, left) && TurnIs(h, init, ip, r);
      GivenTurn(h, init, ip, r);
    } else {
      ServedWithoutFault(h, before, init);
    }
  }

  /** The first round of an interface that held nothing, with at most one address of the set asked for. */
  lemma FirstRound(h: HostAdd, rest: set<IP>, r: HostResult)
    requires AllWalkable(h.ranges) && |h.faults| == |h.ranges| > 0 && |Hits(h.ranges[0], h.ips)| <= 1
    requires HoldsNothing(h.disk.owners, h.id, h.ifname) && HostRound(h, h.ips, [], rest, r)
    ensures r == Under(h.faults[0], FromGet(OutcomeOf(h.Plain(), 0)))
  {
    var ip :| Picked(h.ranges[0], h.ips, ip, rest) && TurnIs(h, [], ip, r);
    FirstTurn(h, ip, rest, r);
  }

  lemma FirstTurn(h: HostAdd, ip: Option<IP>, rest: set<IP>, r: HostResult)
    requires AllWalkable(h.ranges) && |h.faults| == |h.ranges| > 0 && |Hits(h.ranges[0], h.ips)| <= 1
    requires HoldsNothing(h.disk.owners, h.id, h.ifname)
    requires Picked(h.ranges[0], h.ips, ip, rest) && TurnIs(h, [], ip, r)
    ensures r == Under(h.faults[0], FromGet(OutcomeOf(h.Plain(), 0)))
  {
    var q, s := h.Plain(), h.ranges[0];
    var last := Stores.StoredLast(q.last, 0);
    SameTurn(h, [], ip, r);
    if ip.None? {
      GetEndsExactly(s, q.used, last);
      OutcomeIsChoice(s, q.used, last);
    }
    PickedIsOutcome(s, q.used, last, h.ips, ip, rest);
  }

  /** Where at most one address of the first set is asked for: the file stays exactly if that set has an address to
      give and its last-reserved file cannot be written. */
  lemma FailedAddExactly(h: HostAdd, d: Disk)
    requires AllWalkable(h.ranges) && |h.faults| == |h.ranges| > 0 && |Hits(h.ranges[0], h.ips)| <= 1
    requires HostRan(h, AddFailed, d) && HoldsNothing(h.disk.owners, h.id, h.ifname)
    ensures d.owners == h.disk.owners <==> !(h.faults[0].CannotNote? && OutcomeOf(h.Plain(), 0).Allocated?)
  {
    var left, ips, taken :| HostGaveUp(h, left, ips, taken, d);
    TakenWasFree(h, left, ips, taken);
    if ips != [] {
      RollBackRestores(h.disk.owners, taken, h.id, h.ifname, |ips|);
      ServedWithoutFault(h, left, ips);
    } else {
      StuckAtFirst(h, taken);
      if taken != [] { TakenStays(h, taken, d); }
    }
  }

  lemma StuckAtFirst(h: HostAdd, taken: seq<IPConfig>)
    requires AllWalkable(h.ranges) && |h.faults| == |h.ranges| > 0 && |Hits(h.ranges[0], h.ips)| <= 1
    requires HostStuck(h, h.ips, [], taken) && HoldsNothing(h.disk.owners, h.id, h.ifname)
    ensures taken == [] <==> !(h.faults[0].CannotNote? && OutcomeOf(h.Plain(), 0).Allocated?)
  {
    var ips: seq<IPConfig> := [];
    var rest, r :| HostRound(h, h.ips, ips, rest, r) && !r.Given? && taken == Files(ips, r);
    FirstRound(h, rest, r);
    FilesUnder(h.faults[0], OutcomeOf(h.Plain(), 0), r);
  }

  lemma FilesUnder(fault: Fault, outcome: GetResult, r: HostResult)
    requires r == Under(fault, FromGet(outcome)) && !r.Given?
    ensures Files([], r) == [] <==> !(fault.CannotNote? && outcome.Allocated?)
  {
  }

  lemma TakenStays(h: HostAdd, taken: seq<IPConfig>, d: Disk)
    requires d.owners == h.Now(taken).owners && taken != [] && NoneHeld(Names(h.disk.owners), taken)
    ensures d.owners != h.disk.owners
  {
    HostHoldingAt(h.disk.owners, taken, h.id, h.ifname, Stores.Key(taken[0].addr));
    assert Stores.Key(taken[0].addr) !in Names(h.disk.owners);
  }

  /** One set of the one address 10.0.0.2, nothing reserved. */
  lemma OneHostIsProper(q: Request)
    requires q.ranges == [[OneHost(2)]] && q.used == map[] && q.ips == {}
    ensures Proper(q) && OutcomeOf(q, 0).Allocated?
  {
    OneHostGives(q.ranges[0], Stores.StoredLast(q.last, 0));
    OneSetIsProper(q);
  }

  lemma OneSetIsProper(q: Request)
    requires |q.ranges| == 1 && |q.ranges[0]| == 1 && Walkable(q.ranges[0]) && q.ips == {}
    ensures Proper(q)
  {
    OneSetIsApart(q.ranges);
    forall n | 0 <= n < |q.ranges| ensures MayEnd(q.ranges[n], q.used, Stores.StoredLast(q.last, n)) {
      OneRangeMayEnd(q.ranges[n], q.used, Stores.StoredLast(q.last, n));
    }
  }

  lemma OneSetIsApart(ranges: seq<seq<Conf>>)
    requires |ranges| == 1 && Walkable(ranges[0])
    ensures SetsApart(ranges) && AllWalkable(ranges)
  {
  }

  lemma OneRangeMayEnd(s: seq<Conf>, used: map<IP, string>, last: Option<IP>)
    requires |s| == 1
    ensures MayEnd(s, used, last)
  {
  }

  lemma OneHostGives(s: seq<Conf>, last: Option<IP>)
    requires s == [OneHost(2)]
    ensures Walkable(s) && DynamicResult(s, map[], last).Allocated?
  {
    var a: IP := [10, 0, 0, 2];
    OneHostContains(2, a);
    FreeAddressGives(s, map[], last, 0, a);
  }

  /** ... and a last-reserved file that cannot be written: ADD fails, and the address file stays. */
  lemma FileStays(r: AddResult, d: Disk)
    ensures var h := HostAdd([[OneHost(2)]], Disk(map[], map[]), {}, "c1", "eth0", [CannotNote]);
      HostAddReturns(h) && (HostRan(h, r, d) ==> r.AddFailed? && d.owners != map[])
  {
    var h := HostAdd([[OneHost(2)]], Disk(map[], map[]), {}, "c1", "eth0", [CannotNote]);
    OneHostIsProper(h.Plain());
    HostAddExactly(h, r, d);
    FaultIsFailure(h);
    if HostRan(h, r, d) { FailedAddExactly(h, d); }
  }

  lemma FaultIsFailure(h: HostAdd)
    requires AllWalkable(h.ranges) && |h.faults| == |h.ranges| > 0 && !h.faults[0].NoFault?
    ensures !HostAddSucceeds(h)
  {
    var _ := NoDuplicate(h.Plain(), h.disk.owners, h.ifname, 0);
  }

  /** What an interface held before survives a failed ADD that has served no set; after one set its files of the
      current version are gone, after two those of older versions too. Nobody else loses anything. */
  lemma FailedAddOfHolder(h: HostAdd, d: Disk, left: set<IP>, ips: seq<IPConfig>, taken: seq<IPConfig>)
    requires HostGaveUp(h, left, ips, taken, d)
    ensures |ips| == 0 ==> forall a :: a in h.disk.owners ==> a in d.owners && d.owners[a] == h.disk.owners[a]
    ensures |ips| >= 1 ==> Owned(h.id, h.ifname) !in d.owners.Values
    ensures |ips| >= 2 ==> OldOwned(h.id) !in d.owners.Values
    ensures forall a :: a in h.disk.owners && !Mine(h.disk.owners[a], h.id, h.ifname) ==>
              a in d.owners && d.owners[a] == h.disk.owners[a]
  {
    TakenWasFree(h, left, ips, taken);
    HoldingKeeps(h.disk.owners, taken, h.id, h.ifname);
    OthersKept(h.Now(taken).owners, h.id, h.ifname, |ips|);
  }

  /** What some releases leave of the interface, and of others. */
  lemma OthersKept(owners: map<IP, Owner>, id: string, ifname: string, n: nat)
    ensures var after := ReleasedTimes(owners, id, ifname, n);
      && (n >= 1 ==> Owned(id, ifname) !in after.Values) && (n >= 2 ==> OldOwned(id) !in after.Values)
      && (forall a :: a in owners && (n == 0 || !Mine(owners[a], id, ifname)) ==> a in after && after[a] == owners[a])
  {
    if n == 1 {
      assert ReleasedTimes(owners, id, ifname, 0) == owners;
      ReleasedAgain(owners, id, ifname);
    } else if n >= 2 {
      FurtherReleases(owners, id, ifname, n);
    }
  }

  /** DEL after a successful ADD by an interface that held nothing restores the directory. */
  lemma DelUndoesAdd(h: HostAdd, ips: seq<IPConfig>, d: Disk)
    requires HostRan(h, Added(ips), d) && h.ranges != [] && HoldsNothing(h.disk.owners, h.id, h.ifname)
    ensures ReleasedTimes(d.owners, h.id, h.ifname, |h.ranges|) == h.disk.owners
  {
    HostReachedIsReached(h, {}, ips);
    ReachedFacts(h.Plain(), {}, ips);
    RollBackRestores(h.disk.owners, ips, h.id, h.ifname, |h.ranges|);
  }

  // ---------- When ADD succeeds ----------

  /** The interface holds no address of a set that it is not asked to take a particular address from. */
  predicate NoDuplicate(q: Request, owners: map<IP, Owner>, ifname: string, n: nat)
    requires n < |q.ranges|
  {
    Hits(q.ranges[n], q.ips) == {} ==> !HasAny(owners, q.ranges[n], q.id, ifname)
  }

  /** Neither duplicate nor fault in the first sets. */
  predicate ClearUpTo(h: HostAdd, n: nat)
    requires n <= |h.ranges| == |h.faults|
  {
    forall m {:trigger NoDuplicate(h.Plain(), h.disk.owners, h.ifname, m)} :: 0 <= m < n ==>
      NoDuplicate(h.Plain(), h.disk.owners, h.ifname, m) && h.faults[m].NoFault?
  }

  predicate HostAddSucceeds(h: HostAdd)
    requires AllWalkable(h.ranges) && |h.faults| == |h.ranges|
  {
    AddSucceeds(h.Plain()) && ClearUpTo(h, |h.ranges|)
  }

  /** The duplicate check of a set does not see the addresses taken from the sets before it. */
  lemma SameDuplicates(h: HostAdd, left: set<IP>, ips: seq<IPConfig>)
    requires Proper(h.Plain()) && Progress(h.Plain(), left, ips) && |ips| < |h.ranges|
    ensures HasAny(h.Now(ips).owners, h.ranges[|ips|], h.id, h.ifname) <==>
            HasAny(h.disk.owners, h.ranges[|ips|], h.id, h.ifname)
  {
    var now, s := h.Now(ips).owners, h.ranges[|ips|];
    forall a ensures HasIn(now, s, h.id, h.ifname, a) <==> HasIn(h.disk.owners, s, h.id, h.ifname, a) {
      HostHoldingAt(h.disk.owners, ips, h.id, h.ifname, a);
      if SetContains(s, a) {
        forall j | 0 <= j < |ips| ensures Stores.Key(ips[j].addr) != a { assert Served(h.Plain(), j, left, ips[j]); }
      }
    }
  }

  /** In a set's turn the check finds a duplicate exactly if it would have done so at the beginning. */
  lemma TurnDuplicate(h: HostAdd, left: set<IP>, ips: seq<IPConfig>, ip: Option<IP>, rest: set<IP>)
    requires Proper(h.Plain()) && Progress(h.Plain(), left, ips) && |ips| < |h.ranges|
    requires Picked(h.ranges[|ips|], left, ip, rest)
    ensures ip.None? && HasAny(h.Now(ips).owners, h.ranges[|ips|], h.id, h.ifname) <==>
            !NoDuplicate(h.Plain(), h.disk.owners, h.ifname, |ips|)
  {
    SameDuplicates(h, left, ips);
    assert Hits(h.ranges[|ips|], left) == Hits(h.ranges[|ips|], h.ips);
  }

  lemma HostReachedProgress(h: HostAdd, left: set<IP>, ips: seq<IPConfig>)
    requires Proper(h.Plain()) && HostReached(h, left, ips)
    ensures Progress(h.Plain(), left, ips)
  {
    HostReachedIsReached(h, left, ips);
    ReachedProgress(h.Plain(), left, ips);
  }

  lemma {:induction false} ReachedIsClear(h: HostAdd, left: set<IP>, ips: seq<IPConfig>, m: nat)
    requires Proper(h.Plain()) && HostReached(h, left, ips) && |h.faults| == |h.ranges| && m < |ips| <= |h.ranges|
    ensures NoDuplicate(h.Plain(), h.disk.owners, h.ifname, m) && h.faults[m].NoFault?
    decreases |ips|
  {
    var before := LastHostRound(h, left, ips);
    if m == |ips| - 1 {
      RoundIsClear(h, before, ips[..m], left, Given(ips[m]));
    } else {
      ReachedIsClear(h, before, ips[..|ips| - 1], m);
    }
  }

  lemma RoundIsClear(h: HostAdd, left: set<IP>, ips: seq<IPConfig>, rest: set<IP>, r: HostResult)
    requires Proper(h.Plain()) && HostReached(h, left, ips) && |h.faults| == |h.ranges|
    requires HostRound(h, left, ips, rest, r) && r.Given?
    ensures NoDuplicate(h.Plain(), h.disk.owners, h.ifname, |ips|) && h.faults[|ips|].NoFault?
  {
    HostReachedProgress(h, left, ips);
    var ip :| Picked(h.ranges[|ips|], left, ip, rest) && TurnIs(h, ips, ip, r);
    GivenTurn(h, ips, ip, r);
    TurnDuplicate(h, left, ips, ip, rest);
  }

  lemma HostStuckFails(h: HostAdd, left: set<IP>, ips: seq<IPConfig>, taken: seq<IPConfig>)
    requires Proper(h.Plain()) && |h.faults| == |h.ranges| && |ips| <= |h.ranges|
    requires HostReached(h, left, ips) && HostStuck(h, left, ips, taken)
    ensures !HostAddSucceeds(h)
  {
    HostReachedProgress(h, left, ips);
    if |ips| == |h.ranges| {
      ProgressEnd(h.Plain(), left, ips);
    } else {
      var rest, r :| HostRound(h, left, ips, rest, r) && !r.Given?;
      var ip :| Picked(h.ranges[|ips|], left, ip, rest) && TurnIs(h, ips, ip, r);
      TurnDuplicate(h, left, ips, ip, rest);
      if NoDuplicate(h.Plain(), h.disk.owners, h.ifname, |ips|) {
        SameTurn(h, ips, ip, r);
        ProgressStep(h.Plain(), left, ips, ip, rest);
      }
    }
  }

  /** On sets that can be walked and share no address, if every dynamic Get may end: ADD returns, and succeeds
      exactly when kube-ipam's does and there is neither a duplicate nor a fault. */
  lemma HostAddExactly(h: HostAdd, r: AddResult, d: Disk)
    requires Proper(h.Plain()) && |h.faults| == |h.ranges|
    ensures HostAddReturns(h)
    ensures HostRan(h, r, d) ==> (r.Added? <==> HostAddSucceeds(h))
  {
    HostProperReturns(h);
    if HostRan(h, r, d) {
      match r
      case Added(ips) =>
        HostReachedProgress(h, {}, ips);
        forall m | 0 <= m < |ips|
          ensures NoDuplicate(h.Plain(), h.disk.owners, h.ifname, m) && h.faults[m].NoFault?
        {
          ReachedIsClear(h, {}, ips, m);
        }
        ProgressEnd(h.Plain(), {}, ips);
      case AddFailed =>
        var left, ips, taken :| HostGaveUp(h, left, ips, taken, d);
        ReachedWithin(h, left, ips);
        HostStuckFails(h, left, ips, taken);
    }
  }

  lemma ReachedWithin(h: HostAdd, left: set<IP>, ips: seq<IPConfig>)
    requires HostReached(h, left, ips)
    ensures |ips| <= |h.ranges|
  {
  }

  lemma HostProperReturns(h: HostAdd)
    requires Proper(h.Plain())
    ensures HostAddReturns(h)
  {
    forall left, ips | HostReached(h, left, ips) && |ips| < |h.ranges| && Hits(h.ranges[|ips|], left) == {}
      ensures Returns(h.Now(ips), h.ranges[|ips|], |ips|, h.id, h.ifname, None)
    {
      HostReachedIsReached(h, left, ips);
      ReachedProgress(h.Plain(), left, ips);
      TurnFromStart(h.Plain(), left, ips, None, left);
      NamesOfHolding(h.disk.owners, ips, h.id, h.ifname);
    }
  }
}
