/**
 plugins/ipam/host-local: the disk store, one file per address, and the allocator's check that a container
 interface is not given a second address of a range set.
 */
module HostLocal {
  import opened Options
  import opened GoNet
  import opened Ranges
  import opened RangeSets
  import opened Rounds
  import opened Walk
  import Stores
  import opened Allocator
  import opened Cni

  /** What an address file holds: container and interface, or the container alone (older versions). */
  datatype Owner = Owned(id: string, ifname: string) | OldOwned(id: string)

  predicate Mine(o: Owner, id: string, ifname: string) { o == Owned(id, ifname) || o == OldOwned(id) }

  /** The directory: the owner of every address file, and the last reserved address of every range set. */
  datatype Disk = Disk(owners: map<IP, Owner>, last: map<nat, IP>)

  function Names(owners: map<IP, Owner>): map<IP, string> { map a | a in owners :: owners[a].id }

  /** ReleaseByID: the files of the container's interface, or else those of the container. */
  function Released(owners: map<IP, Owner>, id: string, ifname: string): map<IP, Owner> {
    if Owned(id, ifname) in owners.Values then Stores.Without(owners, Owned(id, ifname))
    else Stores.Without(owners, OldOwned(id))
  }

  /** The addresses of a range set that a container's interface holds. */
  predicate HasIn(owners: map<IP, Owner>, s: seq<Conf>, id: string, ifname: string, a: IP) {
    a in owners && Mine(owners[a], id, ifname) && SetContains(s, a)
  }

  predicate HasAny(owners: map<IP, Owner>, s: seq<Conf>, id: string, ifname: string) {
    exists a {:trigger HasIn(owners, s, id, ifname, a)} :: a in owners && HasIn(owners, s, id, ifname, a)
  }

  /** What goes wrong with the files, if anything: the address file cannot be created or written (it is removed
      again), or it can, but not the last-reserved file. */
  datatype Fault = NoFault | CannotCreate | CannotNote

  datatype HostResult =
    | Given(config: IPConfig)
    | Duplicate
    | NotGiven(error: AllocError)
    | NotCreated
    | NotNoted(config: IPConfig) // an error, but the address file stays

  function FromGet(r: GetResult): HostResult {
    match r
    case Allocated(c) => Given(c)
    case Failed(e) => NotGiven(e)
  }

  /** A fault turns a reservation into an error. */
  function Under(fault: Fault, r: HostResult): HostResult {
    match (r, fault)
    case (Given(_), CannotCreate) => NotCreated
    case (Given(c), CannotNote) => NotNoted(c)
    case _ => r
  }

  /** Get with no requested address: the duplicate check, then the first free address. */
  function DynamicAnswer(d: Disk, s: seq<Conf>, n: nat, id: string, ifname: string): HostResult
    requires Walkable(s)
  {
    if HasAny(d.owners, s, id, ifname) then Duplicate
    else FromGet(DynamicResult(s, Names(d.owners), Stores.StoredLast(d.last, n)))
  }

  /** Get with a requested address: no duplicate check. */
  function RequestedAnswer(d: Disk, s: seq<Conf>, ip: IP): HostResult {
    FromGet(RequestedChoice(s, Names(d.owners), ip))
  }

  /** The directory after Get. */
  function AfterGet(d: Disk, r: HostResult, n: nat, id: string, ifname: string): Disk {
    match r
    case Given(c) => Disk(d.owners[Stores.Key(c.addr) := Owned(id, ifname)], d.last[n := Stores.Key(c.addr)])
    case NotNoted(c) => Disk(d.owners[Stores.Key(c.addr) := Owned(id, ifname)], d.last)
    case _ => d
  }

  // ---------- The store ----------

  datatype Reservation = Reserved | Taken | Refused | Unnoted

  class Store {
    var owners: map<IP, Owner>
    var lastReserved: map<nat, IP>

    function View(): Disk
      reads this
    {
      Disk(owners, lastReserved)
    }

    /** Exclusive create of the address file, then the last-reserved file. */
    method Reserve(id: string, ifname: string, ip: IP, rangeID: nat, fault: Fault) returns (r: Reservation)
      modifies this
      ensures r == if Stores.Key(ip) in old(owners) then Taken
                   else match fault
                        case NoFault => Reserved
                        case CannotCreate => Refused
                        case CannotNote => Unnoted
      ensures owners == if r.Reserved? || r.Unnoted? then old(owners)[Stores.Key(ip) := Owned(id, ifname)]
                        else old(owners)
      ensures lastReserved == if r.Reserved? then old(lastReserved)[rangeID := Stores.Key(ip)] else old(lastReserved)
    {
      var key := Stores.Key(ip);
      if key in owners { return Taken; }
      if fault.CannotCreate? { return Refused; }
      owners := owners[key := Owned(id, ifname)];
      if fault.CannotNote? { return Unnoted; }
      lastReserved := lastReserved[rangeID := key];
      return Reserved;
    }

    function LastReservedIP(rangeID: nat): Option<IP>
      reads this
    {
      Stores.StoredLast(lastReserved, rangeID)
    }

    /** Walks the directory and removes every file that holds `match`. */
    method ReleaseByKey(o: Owner) returns (found: bool)
      modifies this`owners
      ensures owners == Stores.Without(old(owners), o) && (found <==> o in old(owners).Values)
    {
      found := false;
      var files := owners;
      var paths := files.Keys;
      while paths != {}
        invariant paths <= files.Keys
        invariant owners == map a | a in files && (a in paths || files[a] != o) :: files[a]
        invariant found <==> exists a :: a in files && a !in paths && files[a] == o
        decreases paths
      {
        var a :| a in paths;
        if files[a] == o {
          owners := owners - {a};
          found := true;
        }
        paths := paths - {a};
      }
    }

    method ReleaseByID(id: string, ifname: string)
      modifies this`owners
      ensures owners == Released(old(owners), id, ifname)
    {
      var found := ReleaseByKey(Owned(id, ifname));
      if !found {
        assert owners == old(owners);
        found := ReleaseByKey(OldOwned(id));
      }
    }

    /** The addresses of a container's interface, parsed from the file names. */
    method GetByID(id: string, ifname: string) returns (ips: seq<IP>)
      ensures forall ip :: ip in ips <==> exists a :: a in owners && Mine(owners[a], id, ifname) && To16(a) == Some(ip)
    {
      ips := [];
      var paths := owners.Keys;
      while paths != {}
        invariant paths <= owners.Keys
        invariant forall ip :: ip in ips <==>
          exists a :: a in owners && a !in paths && Mine(owners[a], id, ifname) && To16(a) == Some(ip)
        decreases paths
      {
        var a :| a in paths;
        if Mine(owners[a], id, ifname) && To16(a).Some? { ips := ips + [To16(a).value]; }
        paths := paths - {a};
      }
    }
  }

  // ---------- The allocator ----------

  lemma {:induction false} SameForm(s: seq<Conf>, a: IP, b: IP)
    requires Canon(a) == Canon(b)
    ensures RangeFor(s, a) == RangeFor(s, b)
  {
    if s != [] { SameForm(s[1..], a, b); }
  }

  /** Get returns: a dynamic one finds a duplicate or comes to an end. */
  ghost predicate Returns(d: Disk, s: seq<Conf>, n: nat, id: string, ifname: string, requestedIP: Option<IP>) {
    requestedIP.None? && !HasAny(d.owners, s, id, ifname) ==> GetEnds(s, Names(d.owners), Stores.StoredLast(d.last, n))
  }

  /** What it returns if nothing goes wrong with the files, whatever the ranges are. */
  ghost function Answered(d: Disk, s: seq<Conf>, n: nat, id: string, ifname: string, requestedIP: Option<IP>)
    : HostResult
    requires Returns(d, s, n, id, ifname, requestedIP)
  {
    match requestedIP
    case Some(ip) => RequestedAnswer(d, s, ip)
    case None =>
      if HasAny(d.owners, s, id, ifname) then Duplicate
      else FromGet(GetOutcome(s, Names(d.owners), Stores.StoredLast(d.last, n)))
  }

  /** In a walkable set the answer is the simple form. */
  lemma AnsweredInWalkable(d: Disk, s: seq<Conf>, n: nat, id: string, ifname: string)
    requires Walkable(s) && MayEnd(s, Names(d.owners), Stores.StoredLast(d.last, n))
    ensures Returns(d, s, n, id, ifname, None)
    ensures Answered(d, s, n, id, ifname, None) == DynamicAnswer(d, s, n, id, ifname)
    ensures DynamicAnswer(d, s, n, id, ifname).Given? ==> IsCanonical(DynamicAnswer(d, s, n, id, ifname).config.addr)
  {
    OutcomeIsChoice(s, Names(d.owners), Stores.StoredLast(d.last, n));
  }

  class HostAllocator {
    const rangeset: seq<Conf>
    const store: Store
    const rangeID: nat

    constructor (rangeset: seq<Conf>, store: Store, id: nat)
      ensures this.rangeset == rangeset && this.store == store && this.rangeID == id
    {
      this.rangeset, this.store, this.rangeID := rangeset, store, id;
    }

    method Get(id: string, ifname: string, requestedIP: Option<IP>, fault: Fault) returns (r: HostResult)
      requires Returns(store.View(), rangeset, rangeID, id, ifname, requestedIP)
      modifies store
      ensures r == Under(fault, Answered(old(store.View()), rangeset, rangeID, id, ifname, requestedIP))
      ensures store.View() == AfterGet(old(store.View()), r, rangeID, id, ifname)
    {
      if requestedIP.Some? {
        r := GetRequested(id, ifname, requestedIP.value, fault);
        return;
      }
      var duplicate := HoldsOne(id, ifname);
      if duplicate { return Duplicate; }
      r := GetDynamic(id, ifname, fault);
    }

    /** Whether some address allocated to the container's interface belongs to this range set. */
    method HoldsOne(id: string, ifname: string) returns (found: bool)
      ensures found <==> HasAny(store.owners, rangeset, id, ifname)
    {
      var ips := store.GetByID(id, ifname);
      found := false;
      for k := 0 to |ips|
        invariant found <==> exists j :: 0 <= j < k && SetContains(rangeset, ips[j])
      {
        if SetContains(rangeset, ips[k]) { found := true; }
      }
      HeldIsListed(store.owners, rangeset, id, ifname, ips);
    }

    method GetRequested(id: string, ifname: string, ip: IP, fault: Fault) returns (r: HostResult)
      modifies store
      ensures r == Under(fault, RequestedAnswer(old(store.View()), rangeset, ip))
      ensures store.View() == AfterGet(old(store.View()), r, rangeID, id, ifname)
    {
      var c := Canon(ip);
      if c.None? { return NotGiven(BadRequest); }
      CanonIsCanonical(ip);
      var i := RangeFor(rangeset, c.value);
      if i.None? { return NotGiven(NotInRangeSet); }
      var range := rangeset[i.value];
      if IsGateway(range, c.value) { return NotGiven(RequestedGateway); }
      var reserved := store.Reserve(id, ifname, c.value, rangeID, fault);
      match reserved {
        case Taken => r := NotGiven(RequestedTaken);
        case Refused => r := NotCreated;
        case Unnoted => r := NotNoted(ConfigOf(c.value, range));
        case Reserved => r := Given(ConfigOf(c.value, range));
      }
    }

    method GetDynamic(id: string, ifname: string, fault: Fault) returns (r: HostResult)
      requires GetEnds(rangeset, Names(store.owners), store.LastReservedIP(rangeID))
      modifies store
      ensures var outcome := GetOutcome(rangeset, Names(old(store.owners)), old(store.LastReservedIP(rangeID)));
        r == Under(fault, FromGet(outcome))
      ensures store.View() == AfterGet(old(store.View()), r, rangeID, id, ifname)
    {
      var last := store.LastReservedIP(rangeID);
      var iter := new RangeIter(rangeset, last);
      var done := false;
      r := NotGiven(NoAddresses);
      while !done
        invariant !done ==> Searching(iter, rangeset, Names(store.owners), last) && store.View() == old(store.View())
        invariant done ==> r == Under(fault, FromGet(GetOutcome(rangeset, Names(old(store.owners)), last)))
        invariant done ==> store.View() == AfterGet(old(store.View()), r, rangeID, id, ifname)
        decreases !done, FirstEnd(rangeset, Names(old(store.owners)), last) - iter.passes
      {
        done, r := Attempt(iter, id, ifname, last, fault);
      }
    }

    /** One round of the loop: the next address is tried, or there is none. */
    method Attempt(iter: RangeIter, id: string, ifname: string, ghost last: Option<IP>, fault: Fault)
      returns (done: bool, r: HostResult)
      requires Searching(iter, rangeset, Names(store.owners), last)
      modifies store, iter
      ensures done ==> r == Under(fault, FromGet(GetOutcome(rangeset, Names(old(store.owners)), last)))
      ensures done ==> store.View() == AfterGet(old(store.View()), r, rangeID, id, ifname)
      ensures !done ==> Searching(iter, rangeset, Names(store.owners), last) && iter.passes > old(iter.passes)
      ensures !done ==> store.View() == old(store.View())
    {
      NextFound(rangeset, Names(store.owners), last, iter.passes);
      done, r := true, NotGiven(NoAddresses);
      var found := iter.Next();
      if found.None? { return; }
      var config := Configured(found.value.addr, found.value.mask, found.value.gateway);
      var reserved := store.Reserve(id, ifname, found.value.addr, rangeID, fault);
      match reserved {
        case Taken => done := false;
        case Refused => r := NotCreated;
        case Unnoted => r := NotNoted(config);
        case Reserved => r := Given(config);
      }
    }

    method Release(id: string, ifname: string)
      modifies store
      ensures store.View() == Disk(Released(old(store.owners), id, ifname), old(store.lastReserved))
    {
      store.ReleaseByID(id, ifname);
    }
  }

  lemma HeldIsListed(owners: map<IP, Owner>, s: seq<Conf>, id: string, ifname: string, ips: seq<IP>)
    requires forall ip :: ip in ips <==> exists a :: a in owners && Mine(owners[a], id, ifname) && To16(a) == Some(ip)
    ensures (exists j :: 0 <= j < |ips| && SetContains(s, ips[j])) <==> HasAny(owners, s, id, ifname)
  {
    if j :| 0 <= j < |ips| && SetContains(s, ips[j]) {
      assert ips[j] in ips;
      var a :| a in owners && Mine(owners[a], id, ifname) && To16(a) == Some(ips[j]);
      To16Form(a);
      SameForm(s, a, ips[j]);
      assert HasIn(owners, s, id, ifname, a);
    }
    if HasAny(owners, s, id, ifname) {
      var a :| a in owners && HasIn(owners, s, id, ifname, a);
      ContainedHasForm(s, a);
      To16Form(a);
      SameForm(s, a, To16(a).value);
      assert To16(a).value in ips;
    }
  }

  lemma To16Form(a: IP)
    ensures To16(a).Some? <==> Canon(a).Some?
    ensures To16(a).Some? ==> Canon(To16(a).value) == Canon(a)
  {
    if |a| == 4 { To16KeepsCanon(a); }
  }

  lemma ContainedHasForm(s: seq<Conf>, a: IP)
    requires SetContains(s, a)
    ensures Canon(a).Some?
  {
    assert s[RangeFor(s, a).value].Contains(a);
  }

  // ---------- At most one address per interface and range set ----------

  datatype Op =
    | Get(n: nat, id: string, ifname: string, fault: Fault)
    | Del(id: string, ifname: string)
    | Rewrite(last: map<nat, IP>) // the last-reserved files are lost or replaced

  /** One operation under the store's lock; a Get is one without a requested address. */
  function Step(sets: seq<seq<Conf>>, d: Disk, op: Op): Disk
    requires AllWalkable(sets)
  {
    match op
    case Get(n, id, ifname, fault) =>
      if n < |sets| then AfterGet(d, Under(fault, DynamicAnswer(d, sets[n], n, id, ifname)), n, id, ifname) else d
    case Del(id, ifname) => Disk(Released(d.owners, id, ifname), d.last)
    case Rewrite(last) => Disk(d.owners, last)
  }

  function Run(sets: seq<seq<Conf>>, d: Disk, ops: seq<Op>): Disk
    requires AllWalkable(sets)
    decreases |ops|
  {
    if ops == [] then d else Run(sets, Step(sets, d, ops[0]), ops[1..])
  }

  ghost predicate OneIn(owners: map<IP, Owner>, s: seq<Conf>) {
    forall id, ifname, a, b {:trigger HasIn(owners, s, id, ifname, a), HasIn(owners, s, id, ifname, b)} ::
      HasIn(owners, s, id, ifname, a) && HasIn(owners, s, id, ifname, b) ==> a == b
  }

  ghost predicate OnePerSet(owners: map<IP, Owner>, sets: seq<seq<Conf>>) {
    forall m {:trigger sets[m]} :: 0 <= m < |sets| ==> OneIn(owners, sets[m])
  }

  lemma FewerKeepsOne(owners: map<IP, Owner>, owners': map<IP, Owner>, s: seq<Conf>)
    requires OneIn(owners, s) && forall a :: a in owners' ==> a in owners && owners'[a] == owners[a]
    ensures OneIn(owners', s)
  {
    forall id, ifname, a, b | HasIn(owners', s, id, ifname, a) && HasIn(owners', s, id, ifname, b) ensures a == b {
      assert HasIn(owners, s, id, ifname, a) && HasIn(owners, s, id, ifname, b);
    }
  }

  /** A new reservation of an address inside or outside a set. */
  lemma NewKeepsOne(owners: map<IP, Owner>, s: seq<Conf>, id: string, ifname: string, a: IP)
    requires OneIn(owners, s) && a !in owners
    ensures OneIn(owners[a := Owned(id, ifname)], s) <==> !SetContains(s, a) || !HasAny(owners, s, id, ifname)
  {
    var owners' := owners[a := Owned(id, ifname)];
    if SetContains(s, a) && HasAny(owners, s, id, ifname) {
      var b :| b in owners && HasIn(owners, s, id, ifname, b);
      assert HasIn(owners', s, id, ifname, a) && HasIn(owners', s, id, ifname, b);
    } else {
      forall id', ifname', x, y | HasIn(owners', s, id', ifname', x) && HasIn(owners', s, id', ifname', y)
        ensures x == y
      {
        assert x != a ==> HasIn(owners, s, id', ifname', x);
        assert y != a ==> HasIn(owners, s, id', ifname', y);
      }
    }
  }

  lemma GivenInSet(d: Disk, s: seq<Conf>, n: nat, id: string, ifname: string)
    requires Walkable(s) && DynamicAnswer(d, s, n, id, ifname).Given?
    ensures var a := DynamicAnswer(d, s, n, id, ifname).config.addr;
      SetContains(s, a) && Stores.Key(a) == a && a !in d.owners && !HasAny(d.owners, s, id, ifname)
  {
    AnswerInSet(s, Names(d.owners), Stores.StoredLast(d.last, n), None);
  }

  lemma StepKeepsOne(sets: seq<seq<Conf>>, d: Disk, op: Op)
    requires AllWalkable(sets) && SetsApart(sets) && OnePerSet(d.owners, sets)
    ensures OnePerSet(Step(sets, d, op).owners, sets)
  {
    forall m | 0 <= m < |sets| ensures OneIn(Step(sets, d, op).owners, sets[m]) {
      match op {
        case Rewrite(_) =>
        case Del(id, ifname) => FewerKeepsOne(d.owners, Released(d.owners, id, ifname), sets[m]);
        case Get(n, id, ifname, fault) =>
          if n < |sets| { GetKeepsOne(sets, d, n, id, ifname, fault, m); }
      }
    }
  }

  lemma GetKeepsOne(sets: seq<seq<Conf>>, d: Disk, n: nat, id: string, ifname: string, fault: Fault, m: nat)
    requires AllWalkable(sets) && SetsApart(sets) && n < |sets| && m < |sets| && OneIn(d.owners, sets[m])
    ensures OneIn(AfterGet(d, Under(fault, DynamicAnswer(d, sets[n], n, id, ifname)), n, id, ifname).owners, sets[m])
  {
    var r := DynamicAnswer(d, sets[n], n, id, ifname);
    if r.Given? {
      GivenInSet(d, sets[n], n, id, ifname);
      NewKeepsOne(d.owners, sets[m], id, ifname, r.config.addr);
      assert m != n ==> !SetContains(sets[m], r.config.addr);
    }
  }

  /** Over any run of dynamic Gets and Releases every container interface holds at most one address of each
      range set, whatever the last-reserved files say. */
  lemma {:induction false} RunKeepsOne(sets: seq<seq<Conf>>, d: Disk, ops: seq<Op>)
    requires AllWalkable(sets) && SetsApart(sets) && OnePerSet(d.owners, sets)
    ensures OnePerSet(Run(sets, d, ops).owners, sets)
    decreases |ops|
  {
    if ops != [] {
      StepKeepsOne(sets, d, ops[0]);
      RunKeepsOne(sets, Step(sets, d, ops[0]), ops[1..]);
    }
  }

  /** A requested address skips the check: it keeps the property exactly when the interface holds no address
      of that set yet. */
  lemma RequestedKeepsOneExactly(sets: seq<seq<Conf>>, d: Disk, n: nat, id: string, ifname: string, ip: IP)
    requires AllWalkable(sets) && SetsApart(sets) && OnePerSet(d.owners, sets) && n < |sets|
    requires RequestedAnswer(d, sets[n], ip).Given?
    ensures OnePerSet(AfterGet(d, RequestedAnswer(d, sets[n], ip), n, id, ifname).owners, sets) <==>
            !HasAny(d.owners, sets[n], id, ifname)
  {
    var a := RequestedAnswer(d, sets[n], ip).config.addr;
    AnswerInSet(sets[n], Names(d.owners), None, Some(ip));
    forall m | 0 <= m < |sets|
      ensures OneIn(d.owners[a := Owned(id, ifname)], sets[m]) <==> m != n || !HasAny(d.owners, sets[n], id, ifname)
    {
      NewKeepsOne(d.owners, sets[m], id, ifname, a);
    }
  }

  /** Release of an interface undoes its Get, also one that failed after the address file was written, if
      nothing was held before. */
  lemma ReleaseUndoesGet(d: Disk, n: nat, id: string, ifname: string, c: IPConfig, r: HostResult)
    requires Stores.Key(c.addr) !in d.owners && Owned(id, ifname) !in d.owners.Values
    requires r == Given(c) || r == NotNoted(c)
    ensures Released(AfterGet(d, r, n, id, ifname).owners, id, ifname) == d.owners
  {
    var after := AfterGet(d, r, n, id, ifname).owners;
    assert after[Stores.Key(c.addr)] == Owned(id, ifname) && Owned(id, ifname) in after.Values;
  }
}
