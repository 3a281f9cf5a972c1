/** backend/allocator/allocator.go: the iterator and IPAllocator over a store. */
module Allocator {
  import opened Options
  import opened GoNet
  import opened Cidr
  import opened Ranges
  import opened RangeSets
  import opened Rounds
  import opened Walk
  import opened Stores

  datatype IPConfig = IPConfig(version: string, addr: IP, mask: seq<Byte>, gateway: Option<IP>)

  datatype AllocError = BadRequest | NotInRangeSet | RequestedGateway | RequestedTaken | NoAddresses

  datatype GetResult = Allocated(config: IPConfig) | Failed(error: AllocError)

  // ---------- Where Next stops ----------

  predicate IsOpen(s: seq<Conf>, p: Place)
    requires p.range < |s|
  {
    var g := s[p.range].gateway; g.None? || !Equal(AddrOf(s, p), g.value)
  }

  /** The `k`-th pass returns to the caller instead of calling Next again. */
  predicate Stops(s: seq<Conf>, last: Option<IP>, k: nat) { s != [] && !StepOf(s, last, k).Skip? }

  ghost predicate Halts(s: seq<Conf>, last: Option<IP>, k: nat) { exists m :: k <= m && Stops(s, last, m) }

  /** The first pass from the `k`-th on that stops. */
  ghost function FirstStop(s: seq<Conf>, last: Option<IP>, k: nat): (m: nat)
    requires Halts(s, last, k)
    ensures k <= m && Stops(s, last, m) && forall j :: k <= j < m ==> !Stops(s, last, j)
  {
    var f := (m: nat) => Stops(s, last, m);
    var bound :| k <= bound && Stops(s, last, bound);
    var m := Least(f, k, bound);
    assert forall j: nat :: f(j) == Stops(s, last, j);
    m
  }

  lemma FirstStopStep(s: seq<Conf>, last: Option<IP>, k: nat)
    requires Halts(s, last, k)
    ensures Stops(s, last, k) ==> FirstStop(s, last, k) == k
    ensures !Stops(s, last, k) ==> Halts(s, last, k + 1) && FirstStop(s, last, k + 1) == FirstStop(s, last, k)
  {
    if !Stops(s, last, k) {
      var m :| k <= m && Stops(s, last, m);
      assert k + 1 <= m;
      var a, b := FirstStop(s, last, k), FirstStop(s, last, k + 1);
      assert a <= b && b <= a;
    }
  }

  /** In a walkable set Next returns, now and later, exactly when the walk closes or some address is not a
      gateway. */
  lemma HaltsExactly(s: seq<Conf>, last: Option<IP>, k: nat)
    requires Walkable(s)
    ensures Halts(s, last, k) <==>
            !LastAtRangeEnd(s, last) || exists p :: p in Places(Sizes(s)) && p.range < |s| && IsOpen(s, p)
  {
    if !LastAtRangeEnd(s, last) { HaltsWhenClosing(s, last, k); }
    if p :| p in Places(Sizes(s)) && p.range < |s| && IsOpen(s, p) { HaltsAtOpen(s, last, k, p); }
    if m :| k <= m && Stops(s, last, m) {
      StepIsExpected(s, last, m);
      ClosesExactly(s, last);
      if !Wraps(s, last, m) {
        var i := Index(|Candidates(s, last)|, m);
        CandidateInPlaces(s, last, i);
        assert IsOpen(s, Candidates(s, last)[i]);
      }
    }
  }

  lemma HaltsWhenClosing(s: seq<Conf>, last: Option<IP>, k: nat)
    requires Walkable(s) && !LastAtRangeEnd(s, last)
    ensures Halts(s, last, k)
  {
    ClosesExactly(s, last);
    var m := IndexReaches(|Candidates(s, last)|, k + 1, 0);
    StepIsExpected(s, last, m);
    assert Stops(s, last, m);
  }

  lemma HaltsAtOpen(s: seq<Conf>, last: Option<IP>, k: nat, p: Place)
    requires Walkable(s) && p in Places(Sizes(s)) && p.range < |s| && IsOpen(s, p)
    ensures Halts(s, last, k)
  {
    var c := Candidates(s, last);
    CandidatesDistinct(s, last);
    assert p in multiset(c);
    var i :| 0 <= i < |c| && c[i] == p;
    var m := IndexReaches(|c|, k, i);
    StepIsExpected(s, last, m);
    assert Stops(s, last, m);
  }

  lemma CandidateInPlaces(s: seq<Conf>, last: Option<IP>, i: nat)
    requires Walkable(s) && i < |Candidates(s, last)|
    ensures Candidates(s, last)[i] in Places(Sizes(s)) && Valid(Sizes(s), Candidates(s, last)[i])
  {
    CandidatesDistinct(s, last);
    CandidateIsValid(s, last, i);
    assert Candidates(s, last)[i] in multiset(Places(Sizes(s)));
  }

  // ---------- The iterator object ----------

  datatype Found = Found(addr: IP, mask: seq<Byte>, gateway: Option<IP>)

  function Reported(step: Step): Option<Found> {
    match step
    case Yield(a, m, g) => Some(Found(a, m, g))
    case _ => None
  }

  /** What Next returns when it next stops. */
  ghost function NextAnswer(s: seq<Conf>, last: Option<IP>, k: nat): Option<Found>
    requires Halts(s, last, k)
  {
    Reported(StepOf(s, last, FirstStop(s, last, k)))
  }

  /** What one pass means for the call of Next it is part of. */
  lemma AfterPass(s: seq<Conf>, last: Option<IP>, k: nat, range: Conf, a: IP, done: bool)
    requires s != [] && Halts(s, last, k) && StepOf(s, last, k) == if done then Exhausted else Visit(range, a)
    ensures done ==> FirstStop(s, last, k) == k && NextAnswer(s, last, k) == None
    ensures !done && !IsGateway(range, a) ==>
              FirstStop(s, last, k) == k && NextAnswer(s, last, k) == Some(Found(a, range.mask, range.gateway))
    ensures !done && IsGateway(range, a) ==>
              && k < FirstStop(s, last, k) && Halts(s, last, k + 1)
              && FirstStop(s, last, k + 1) == FirstStop(s, last, k)
  {
    FirstStopStep(s, last, k);
  }

  class RangeIter {
    const rangeset: seq<Conf>
    var rangeIdx: nat
    var cur: Option<IP>
    var startIP: Option<IP>
    var startRange: nat
    ghost const last: Option<IP>
    ghost var passes: nat

    ghost function View(): Iter
      reads this
    {
      Iter(rangeIdx, cur, startIP, startRange)
    }

    ghost predicate Valid()
      reads this
    {
      rangeset != [] && View() == IterAt(rangeset, last, passes)
    }

    /** GetIter, from the last reserved address. */
    constructor (rangeset: seq<Conf>, lastReservedIP: Option<IP>)
      requires rangeset != []
      ensures this.rangeset == rangeset && last == lastReservedIP && passes == 0
      ensures Valid() && View() == GetIter(rangeset, lastReservedIP)
    {
      this.rangeset, this.last, this.passes := rangeset, lastReservedIP, 0;
      if lastReservedIP.Some? && SetContains(rangeset, lastReservedIP.value) {
        var i := RangeFor(rangeset, lastReservedIP.value).value;
        this.rangeIdx, this.startRange := i, i;
        this.cur, this.startIP := lastReservedIP, None;
      } else {
        this.rangeIdx, this.startRange := 0, 0;
        this.cur, this.startIP := None, rangeset[0].start;
      }
    }

    /** The next address with its mask and gateway, or none when the walk has come round. */
    method Next() returns (r: Option<Found>)
      requires Valid() && Halts(rangeset, last, passes)
      modifies this
      ensures Valid() && passes == FirstStop(rangeset, last, old(passes)) + 1
      ensures r == NextAnswer(rangeset, last, old(passes))
      decreases FirstStop(rangeset, last, passes) - passes
    {
      ghost var k := passes;
      var range, done := Move();
      AfterPass(rangeset, last, k, range, Get(cur), done);
      if done { return None; }
      if IsGateway(range, Get(cur)) {
        r := Next();
      } else {
        r := Some(Found(Get(cur), range.mask, range.gateway));
      }
    }

    /** The part of Next before its gateway test: moves the cursor, and says whether it is back at the start. */
    method Move() returns (range: Conf, done: bool)
      requires Valid()
      modifies this
      ensures Valid() && passes == old(passes) + 1
      ensures StepOf(rangeset, last, old(passes)) == if done then Exhausted else Visit(range, Get(cur))
    {
      passes := passes + 1;
      range, done := MoveCursor();
    }

    method MoveCursor() returns (range: Conf, done: bool)
      requires rangeIdx < |rangeset|
      modifies this`rangeIdx, this`cur, this`startIP
      ensures View() == Pass(rangeset, old(View())).0
      ensures Pass(rangeset, old(View())).1 == if done then Exhausted else Visit(range, Get(cur))
    {
      range, done := rangeset[rangeIdx], false;
      if cur.None? {
        cur := range.start;
        startIP := cur;
        return;
      }
      if range.end.Some? && Equal(cur.value, range.end.value) {
        rangeIdx := if rangeIdx + 1 == |rangeset| then 0 else rangeIdx + 1;
        range := rangeset[rangeIdx];
        cur := range.start;
      } else {
        cur := Some(NextIP(cur.value));
      }
      if startIP.None? {
        startIP := cur;
      } else if rangeIdx == startRange && Equal(Get(cur), startIP.value) {
        done := true;
      }
    }
  }

  // ---------- Get and Release ----------

  function Configured(addr: IP, mask: seq<Byte>, gateway: Option<IP>): IPConfig {
    IPConfig(if To4(addr).Some? then "4" else "6", addr, mask, gateway)
  }

  function ConfigOf(addr: IP, r: Conf): IPConfig { Configured(addr, r.mask, r.gateway) }

  predicate IsFree(s: seq<Conf>, used: map<IP, string>, p: Place) {
    p.range < |s| && IsOpen(s, p) && AddrOf(s, p) !in used
  }

  /** The free places among `places`, in order. */
  function Free(s: seq<Conf>, used: map<IP, string>, places: seq<Place>): seq<Place> {
    Filter(p => IsFree(s, used, p), places)
  }

  /** The simple form of a dynamic Get: the first free address of the rotated list. */
  function DynamicChoice(s: seq<Conf>, used: map<IP, string>, last: Option<IP>): (r: Option<Place>)
    requires Walkable(s)
    ensures r.Some? ==> IsFree(s, used, r.value)
  {
    var free := Free(s, used, Candidates(s, last));
    if free == [] then None
    else
      FilterMembers(p => IsFree(s, used, p), Candidates(s, last), free[0]);
      Some(free[0])
  }

  /** ... with the mask and gateway of the range that holds it. */
  function DynamicResult(s: seq<Conf>, used: map<IP, string>, last: Option<IP>): GetResult
    requires Walkable(s)
  {
    match DynamicChoice(s, used, last)
    case None => Failed(NoAddresses)
    case Some(p) => Allocated(ConfigOf(AddrOf(s, p), s[p.range]))
  }

  /** The pass that brings Get's loop to an end: the walk is over, or its address is not reserved. */
  predicate EndsGet(used: map<IP, string>, step: Step) {
    match step
    case Exhausted => true
    case Skip => false
    case Yield(a, _, _) => Key(a) !in used
  }

  predicate EndsAt(s: seq<Conf>, used: map<IP, string>, last: Option<IP>, k: nat) {
    s != [] && EndsGet(used, StepOf(s, last, k))
  }

  /** A dynamic Get comes to an end, ... */
  ghost predicate GetEnds(s: seq<Conf>, used: map<IP, string>, last: Option<IP>) {
    exists k :: EndsAt(s, used, last, k)
  }

  /** ... after this pass, ... */
  ghost function FirstEnd(s: seq<Conf>, used: map<IP, string>, last: Option<IP>): (m: nat)
    requires GetEnds(s, used, last)
    ensures EndsAt(s, used, last, m) && forall j :: 0 <= j < m ==> !EndsAt(s, used, last, j)
  {
    var f := (m: nat) => EndsAt(s, used, last, m);
    var bound :| EndsAt(s, used, last, bound);
    var m := Least(f, 0, bound);
    assert forall j: nat :: f(j) == EndsAt(s, used, last, j);
    m
  }

  /** ... with this result, whatever the ranges are. */
  ghost function GetOutcome(s: seq<Conf>, used: map<IP, string>, last: Option<IP>): GetResult
    requires GetEnds(s, used, last)
  {
    match StepOf(s, last, FirstEnd(s, used, last))
    case Yield(a, m, g) => Allocated(Configured(a, m, g))
    case _ => Failed(NoAddresses)
  }

  /** The store after a Get: the new reservation, noted as the last one, or nothing new. */
  function StoreAfter(used: map<IP, string>, lastReserved: map<nat, IP>, r: GetResult, id: string, n: nat)
    : (map<IP, string>, map<nat, IP>)
  {
    match r
    case Failed(_) => (used, lastReserved)
    case Allocated(c) => (used[Key(c.addr) := id], lastReserved[n := Key(c.addr)])
  }

  /** In a walkable set it does when some address is free, or the walk closes. */
  predicate MayEnd(s: seq<Conf>, used: map<IP, string>, last: Option<IP>) {
    !LastAtRangeEnd(s, last) || Free(s, used, Places(Sizes(s))) != []
  }

  /** The outcome of asking for one address. */
  function RequestedChoice(s: seq<Conf>, used: map<IP, string>, ip: IP): GetResult {
    match Canon(ip)
    case None => Failed(BadRequest)
    case Some(a) =>
      match RangeFor(s, a)
      case None => Failed(NotInRangeSet)
      case Some(i) =>
        if IsGateway(s[i], a) then Failed(RequestedGateway)
        else if a in used then Failed(RequestedTaken)
        else Allocated(ConfigOf(a, s[i]))
  }

  /** The iterator has not yet passed the end. */
  ghost predicate Searching(iter: RangeIter, s: seq<Conf>, used: map<IP, string>, last: Option<IP>)
    reads iter
  {
    && iter.rangeset == s && iter.last == last && iter.Valid()
    && GetEnds(s, used, last) && iter.passes <= FirstEnd(s, used, last)
  }

  /** What the next call of Next finds, and whether that is the end. */
  lemma NextFound(s: seq<Conf>, used: map<IP, string>, last: Option<IP>, k: nat)
    requires GetEnds(s, used, last) && k <= FirstEnd(s, used, last)
    ensures Halts(s, last, k)
    ensures var m, end := FirstStop(s, last, k), FirstEnd(s, used, last);
      k <= m <= end && (EndsAt(s, used, last, m) <==> m == end)
  {
    assert Stops(s, last, FirstEnd(s, used, last));
  }

  class IPAllocator {
    const rangeset: seq<Conf>
    const store: Store
    const rangeID: nat

    constructor (rangeset: seq<Conf>, store: Store, id: nat)
      ensures this.rangeset == rangeset && this.store == store && this.rangeID == id
    {
      this.rangeset, this.store, this.rangeID := rangeset, store, id;
    }

    method Get(id: string, requestedIP: Option<IP>) returns (r: GetResult)
      requires requestedIP.None? ==> GetEnds(rangeset, store.used, store.LastReservedIP(rangeID))
      modifies store
      ensures r == match requestedIP
                   case Some(ip) => RequestedChoice(rangeset, old(store.used), ip)
                   case None => GetOutcome(rangeset, old(store.used), old(store.LastReservedIP(rangeID)))
      ensures Recorded(r, id)
    {
      if requestedIP.Some? {
        r := GetRequested(id, requestedIP.value);
      } else {
        r := GetDynamic(id);
      }
    }

    /** The store holds the new reservation, or is unchanged if there is none. */
    twostate predicate Recorded(r: GetResult, id: string)
      reads store
    {
      && (store.used, store.lastReserved) == StoreAfter(old(store.used), old(store.lastReserved), r, id, rangeID)
      && (r.Allocated? ==> Key(r.config.addr) !in old(store.used))
    }

    method GetRequested(id: string, ip: IP) returns (r: GetResult)
      modifies store
      ensures r == RequestedChoice(rangeset, old(store.used), ip)
      ensures Recorded(r, id)
    {
      var c := Canon(ip);
      if c.None? { return Failed(BadRequest); }
      CanonIsCanonical(ip);
      var i := RangeFor(rangeset, c.value);
      if i.None? { return Failed(NotInRangeSet); }
      var range := rangeset[i.value];
      if IsGateway(range, c.value) { return Failed(RequestedGateway); }
      var reserved := store.Reserve(id, c.value, rangeID);
      if !reserved { return Failed(RequestedTaken); }
      return Allocated(ConfigOf(c.value, range));
    }

    method GetDynamic(id: string) returns (r: GetResult)
      requires GetEnds(rangeset, store.used, store.LastReservedIP(rangeID))
      modifies store
      ensures r == GetOutcome(rangeset, old(store.used), old(store.LastReservedIP(rangeID)))
      ensures Recorded(r, id)
    {
      var last := store.LastReservedIP(rangeID);
      var iter := new RangeIter(rangeset, last);
      var done := false;
      r := Failed(NoAddresses);
      while !done
        invariant !done ==> Searching(iter, rangeset, old(store.used), last)
        invariant !done ==> store.used == old(store.used) && store.lastReserved == old(store.lastReserved)
        invariant done ==> r == GetOutcome(rangeset, old(store.used), last) && Recorded(r, id)
        decreases !done, FirstEnd(rangeset, old(store.used), last) - iter.passes
      {
        done, r := Attempt(iter, id, last);
      }
    }

    /** One round of Get's loop: the next address is tried, or there is none. */
    method Attempt(iter: RangeIter, id: string, ghost last: Option<IP>) returns (done: bool, r: GetResult)
      requires Searching(iter, rangeset, store.used, last)
      modifies store, iter
      ensures done ==> r == GetOutcome(rangeset, old(store.used), last) && Recorded(r, id)
      ensures !done ==> Searching(iter, rangeset, store.used, last) && iter.passes > old(iter.passes)
      ensures !done ==> store.used == old(store.used) && store.lastReserved == old(store.lastReserved)
    {
      NextFound(rangeset, store.used, last, iter.passes);
      r := Failed(NoAddresses);
      var found := iter.Next();
      if found.None? { return true, r; }
      done := store.Reserve(id, found.value.addr, rangeID);
      if done {
        r := Allocated(Configured(found.value.addr, found.value.mask, found.value.gateway));
      }
    }

    method Release(id: string)
      modifies store
      ensures store.used == Without(old(store.used), id) && store.lastReserved == old(store.lastReserved)
    {
      store.ReleaseByID(id);
    }
  }

  // ---------- Why the loop of Get finds the first free candidate ----------

  lemma {:induction false} NoneFree(s: seq<Conf>, used: map<IP, string>, c: seq<Place>, k: nat, m: nat)
    requires k <= m <= |c| && Free(s, used, c[..k]) == []
    requires forall j :: k <= j < m ==> !IsFree(s, used, c[j])
    ensures Free(s, used, c[..m]) == []
  {
    if k < m {
      NoneFree(s, used, c, k, m - 1);
      assert c[..m][..m - 1] == c[..m - 1];
    }
  }

  lemma FreeCandidates(s: seq<Conf>, used: map<IP, string>, last: Option<IP>)
    requires Walkable(s)
    ensures Free(s, used, Candidates(s, last)) != [] <==> Free(s, used, Places(Sizes(s))) != []
  {
    var f := p => IsFree(s, used, p);
    var a, b := Places(Sizes(s)), Candidates(s, last);
    CandidatesDistinct(s, last);
    forall p ensures p in a <==> p in b { assert p in multiset(a) <==> p in multiset(b); }
    if Filter(f, a) != [] { FilterMembers(f, a, Filter(f, a)[0]); FilterMembers(f, b, Filter(f, a)[0]); }
    if Filter(f, b) != [] { FilterMembers(f, b, Filter(f, b)[0]); FilterMembers(f, a, Filter(f, b)[0]); }
  }

  lemma ExpectedInRound(s: seq<Conf>, last: Option<IP>, j: nat)
    requires Walkable(s) && j < |Candidates(s, last)|
    ensures var p := Candidates(s, last)[j];
      && Valid(Sizes(s), p) && Expected(s, last, j) == Visit(s[p.range], AddrOf(s, p))
  {
    IndexInFirstRound(|Candidates(s, last)|, j);
    CandidateIsValid(s, last, j);
  }

  /** A candidate ends the search exactly when it is free. */
  lemma EndsAtFree(s: seq<Conf>, used: map<IP, string>, last: Option<IP>, j: nat)
    requires Walkable(s) && j < |Candidates(s, last)|
    ensures EndsAt(s, used, last, j) <==> IsFree(s, used, Candidates(s, last)[j])
  {
    StepIsExpected(s, last, j);
    ExpectedInRound(s, last, j);
    PlaceFacts(s, Candidates(s, last)[j]);
  }

  /** Past the last candidate the walk is over or begins again. */
  lemma EndsAfterRound(s: seq<Conf>, used: map<IP, string>, last: Option<IP>)
    requires Walkable(s)
    ensures var n := |Candidates(s, last)|;
      EndsAt(s, used, last, n) <==> !LastAtRangeEnd(s, last) || EndsAt(s, used, last, 0)
    ensures StepOf(s, last, |Candidates(s, last)|).Exhausted? <==> !LastAtRangeEnd(s, last)
  {
    var n := |Candidates(s, last)|;
    StepIsExpected(s, last, n);
    StepIsExpected(s, last, 0);
    IndexInFirstRound(n, n);
    ClosesExactly(s, last);
  }

  /** When it may end, it does by the end of the round. */
  lemma EndsInRound(s: seq<Conf>, used: map<IP, string>, last: Option<IP>) returns (m: nat)
    requires Walkable(s) && MayEnd(s, used, last)
    ensures m <= |Candidates(s, last)| && EndsAt(s, used, last, m)
  {
    var c := Candidates(s, last);
    if !LastAtRangeEnd(s, last) {
      EndsAfterRound(s, used, last);
      m := |c|;
    } else {
      FreeCandidates(s, used, last);
      m := FilterIndex((p: Place) => IsFree(s, used, p), c, 0);
      EndsAtFree(s, used, last, m);
    }
  }

  /** The first free candidate. */
  lemma ChosenAt(s: seq<Conf>, used: map<IP, string>, last: Option<IP>, m: nat)
    requires Walkable(s) && m < |Candidates(s, last)| && EndsAt(s, used, last, m)
    requires Free(s, used, Candidates(s, last)[..m]) == []
    ensures DynamicChoice(s, used, last) == Some(Candidates(s, last)[m])
    ensures DynamicResult(s, used, last).Allocated? && IsCanonical(DynamicResult(s, used, last).config.addr)
    ensures Reported(StepOf(s, last, m)).Some?
    ensures var f := Reported(StepOf(s, last, m)).value;
      DynamicResult(s, used, last) == Allocated(Configured(f.addr, f.mask, f.gateway))
  {
    var c := Candidates(s, last);
    EndsAtFree(s, used, last, m);
    FirstKept(p => IsFree(s, used, p), c, m);
    StepIsExpected(s, last, m);
    ExpectedInRound(s, last, m);
    PlaceFacts(s, c[m]);
  }

  /** In a walkable set the outcome is the simple form: the first free address of the rotated list. */
  lemma OutcomeIsChoice(s: seq<Conf>, used: map<IP, string>, last: Option<IP>)
    requires Walkable(s) && MayEnd(s, used, last)
    ensures GetEnds(s, used, last) && GetOutcome(s, used, last) == DynamicResult(s, used, last)
    ensures DynamicResult(s, used, last).Allocated? ==> IsCanonical(DynamicResult(s, used, last).config.addr)
  {
    var c := Candidates(s, last);
    var bound := EndsInRound(s, used, last);
    var m := FirstEnd(s, used, last);
    assert m <= bound;
    forall j | 0 <= j < m ensures !IsFree(s, used, c[j]) { EndsAtFree(s, used, last, j); }
    assert c[..0] == [];
    NoneFree(s, used, c, 0, m);
    if m < |c| {
      ChosenAt(s, used, last, m);
    } else {
      EndsAfterRound(s, used, last);
      assert c[..m] == c;
    }
  }

  // ---------- What is handed out is never a gateway ----------

  /** Standing at the address `a` in range `r`: if that is the range's gateway it is passed over, else it is returned
      with the range's mask and gateway. */
  predicate Meets(r: Conf, a: IP, step: Step) {
    step == if r.gateway.Some? && Equal(a, r.gateway.value) then Skip else Yield(a, r.mask, r.gateway)
  }

  /** Each pass is over, or stands at some address of some range. */
  lemma StepMeans(s: seq<Conf>, last: Option<IP>, k: nat)
    requires s != []
    ensures StepOf(s, last, k).Exhausted? || exists i, a :: 0 <= i < |s| && Meets(s[i], a, StepOf(s, last, k))
  {
    var it' := IterAt(s, last, k + 1);
    if !StepOf(s, last, k).Exhausted? {
      assert Meets(s[it'.rangeIdx], Get(it'.cur), StepOf(s, last, k));
    }
  }

  /** The address with the family's version, and the mask and gateway of one range, whose gateway it is not. */
  predicate ConfigFrom(c: IPConfig, r: Conf) {
    && c.version == (if To4(c.addr).Some? then "4" else "6")
    && c.mask == r.mask && c.gateway == r.gateway
    && (r.gateway.None? || !Equal(c.addr, r.gateway.value))
  }

  /** So whatever the ranges are, a dynamic Get allocates no gateway of the range it took the address from. */
  lemma AllocatedConfig(s: seq<Conf>, used: map<IP, string>, last: Option<IP>)
    requires GetEnds(s, used, last) && GetOutcome(s, used, last).Allocated?
    ensures var c := GetOutcome(s, used, last).config;
      Key(c.addr) !in used && exists i :: 0 <= i < |s| && ConfigFrom(c, s[i])
  {
    var m := FirstEnd(s, used, last);
    StepMeans(s, last, m);
    var c := GetOutcome(s, used, last).config;
    var i, a :| 0 <= i < |s| && Meets(s[i], a, StepOf(s, last, m));
    assert ConfigFrom(c, s[i]);
  }

  /** In a walkable set that range is the one that contains the address. */
  lemma AllocatedFromOwnRange(s: seq<Conf>, used: map<IP, string>, last: Option<IP>)
    requires Walkable(s) && DynamicResult(s, used, last).Allocated?
    ensures var c := DynamicResult(s, used, last).config;
      IsCanonical(c.addr) && c.addr !in used && exists i :: 0 <= i < |s| && s[i].Contains(c.addr) && ConfigFrom(c, s[i])
  {
    var p := DynamicChoice(s, used, last).value;
    FilterMembers((q: Place) => IsFree(s, used, q), Candidates(s, last), p);
    var n :| 0 <= n < |Candidates(s, last)| && Candidates(s, last)[n] == p;
    CandidateIsValid(s, last, n);
    PlaceFacts(s, p);
    assert ConfigFrom(DynamicResult(s, used, last).config, s[p.range]);
  }

  /** The first range that contains the address. */
  predicate FirstHolder(s: seq<Conf>, a: IP, i: nat) {
    i < |s| && s[i].Contains(a) && forall j :: 0 <= j < i ==> !s[j].Contains(a)
  }

  /** What asking for one address comes to: an error if it has no standard form, lies in no range, is the gateway of
      the first range that contains it, or is reserved; else it is allocated from that range. */
  lemma RequestedExactly(s: seq<Conf>, used: map<IP, string>, ip: IP)
    ensures RequestedChoice(s, used, ip) == Failed(BadRequest) <==> |ip| != 4 && |ip| != 16
    ensures RequestedChoice(s, used, ip) == Failed(NotInRangeSet) <==>
            Canon(ip).Some? && forall i :: 0 <= i < |s| ==> !s[i].Contains(Canon(ip).value)
    ensures RequestedChoice(s, used, ip) == Failed(RequestedGateway) <==>
            Canon(ip).Some? && exists i: nat :: FirstHolder(s, Canon(ip).value, i)
                                           && s[i].gateway.Some? && Equal(Canon(ip).value, s[i].gateway.value)
    ensures RequestedChoice(s, used, ip) == Failed(RequestedTaken) <==>
            Canon(ip).Some? && Canon(ip).value in used
            && exists i: nat :: FirstHolder(s, Canon(ip).value, i)
                           && !(s[i].gateway.Some? && Equal(Canon(ip).value, s[i].gateway.value))
    ensures forall c :: RequestedChoice(s, used, ip) == Allocated(c) <==>
            Canon(ip) == Some(c.addr) && c.addr !in used
            && exists i: nat :: FirstHolder(s, c.addr, i) && ConfigFrom(c, s[i])
  {
    if Canon(ip).Some? {
      var a := Canon(ip).value;
      FirstHolderIsRangeFor(s, a);
    }
  }

  lemma FirstHolderIsRangeFor(s: seq<Conf>, a: IP)
    ensures forall i: nat :: FirstHolder(s, a, i) <==> RangeFor(s, a) == Some(i)
  {
    forall i: nat ensures FirstHolder(s, a, i) <==> RangeFor(s, a) == Some(i) {
      if FirstHolder(s, a, i) && RangeFor(s, a).Some? {
        var j := RangeFor(s, a).value;
        assert s[j].Contains(a) && s[i].Contains(a);
        assert j <= i && i <= j;
      }
    }
  }
}
