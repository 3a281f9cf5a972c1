/** What the choice of a dynamic Get means over one call and over many. */
module Fairness {
  import opened Options
  import opened GoNet
  import opened Cidr
  import opened Network
  import opened Ranges
  import opened RangeSets
  import opened Rounds
  import opened Walk
  import opened Stores
  import opened Allocator

  // ---------- One call ----------

  /** `p` is the first candidate that is free, at position `m`. */
  predicate FirstFreeAt(s: seq<Conf>, used: map<IP, string>, c: seq<Place>, p: Place, m: nat) {
    m < |c| && c[m] == p && IsFree(s, used, p) && forall j {:trigger c[j]} :: 0 <= j < m ==> !IsFree(s, used, c[j])
  }

  lemma ChoiceIsBeforeAll(s: seq<Conf>, used: map<IP, string>, last: Option<IP>, p: Place) returns (m: nat)
    requires Walkable(s) && DynamicChoice(s, used, last) == Some(p)
    ensures FirstFreeAt(s, used, Candidates(s, last), p, m)
  {
    var c, f := Candidates(s, last), (p: Place) => IsFree(s, used, p);
    m := FilterIndex(f, c, 0);
    assert c[..m + 1][..m] == c[..m];
    assert Filter(f, c[..m]) == [];
    forall j | 0 <= j < m ensures !IsFree(s, used, c[j]) {
      assert c[..m][j] == c[j];
      FilterMembers(f, c[..m], c[j]);
    }
  }

  lemma FirstFreeIsChoice(s: seq<Conf>, used: map<IP, string>, last: Option<IP>, p: Place, m: nat)
    requires Walkable(s) && FirstFreeAt(s, used, Candidates(s, last), p, m)
    ensures DynamicChoice(s, used, last) == Some(p)
  {
    var c, f := Candidates(s, last), (p: Place) => IsFree(s, used, p);
    NoneFree(s, used, c, 0, m);
    assert c == c[..m] + c[m..] && c[m..] == [p] + c[m + 1..];
    FilterAppend(f, c[..m], c[m..]);
    FilterAppend(f, [p], c[m + 1..]);
    assert Filter(f, [p]) == [p] by { assert [p][..0] == []; }
  }

  /** The chosen address is free, and every address tried before it is a gateway or reserved. */
  lemma ChoiceIsFirstFree(s: seq<Conf>, used: map<IP, string>, last: Option<IP>, p: Place)
    requires Walkable(s)
    ensures DynamicChoice(s, used, last) == Some(p) <==>
            exists m :: FirstFreeAt(s, used, Candidates(s, last), p, m)
  {
    if DynamicChoice(s, used, last) == Some(p) {
      var m := ChoiceIsBeforeAll(s, used, last, p);
    }
    if m :| FirstFreeAt(s, used, Candidates(s, last), p, m) {
      FirstFreeIsChoice(s, used, last, p, m);
    }
  }

  /** Get finds nothing exactly when every address of the set is a gateway or reserved. */
  lemma FailsExactly(s: seq<Conf>, used: map<IP, string>, last: Option<IP>)
    requires Walkable(s)
    ensures DynamicChoice(s, used, last).None? <==>
            forall i, a :: 0 <= i < |s| && IsCanonical(a) && s[i].Contains(a) ==>
              (s[i].gateway.Some? && Equal(a, s[i].gateway.value)) || a in used
  {
    FreeCandidates(s, used, last);
    var list, f := Places(Sizes(s)), (p: Place) => IsFree(s, used, p);
    if Filter(f, list) != [] {
      var p := Filter(f, list)[0];
      FilterMembers(f, list, p);
      var n :| 0 <= n < |list| && list[n] == p;
      PlaceIsValid(Sizes(s), n);
      PlaceFacts(s, p);
    }
    if i, a :| 0 <= i < |s| && IsCanonical(a) && s[i].Contains(a) && !IsGateway(s[i], a) && a !in used {
      ContainedPlace(s, i, a);
      PlaceAt(Sizes(s), PlaceOf(s, i, a));
      FilterMembers(f, list, PlaceOf(s, i, a));
    }
  }

  /** A dynamic Get ends exactly when some address is free or the last reserved one is not a RangeEnd with
      another range after it. Otherwise it tries reserved addresses for ever. */
  lemma GetEndsExactly(s: seq<Conf>, used: map<IP, string>, last: Option<IP>)
    requires Walkable(s)
    ensures GetEnds(s, used, last) <==> MayEnd(s, used, last)
  {
    if MayEnd(s, used, last) { OutcomeIsChoice(s, used, last); }
    if k :| EndsAt(s, used, last, k) { EndIsAllowed(s, used, last, k); }
  }

  lemma EndIsAllowed(s: seq<Conf>, used: map<IP, string>, last: Option<IP>, k: nat)
    requires Walkable(s) && EndsAt(s, used, last, k)
    ensures MayEnd(s, used, last)
  {
    var c := Candidates(s, last);
    StepIsExpected(s, last, k);
    ClosesExactly(s, last);
    if !Wraps(s, last, k) {
      var p := c[Index(|c|, k)];
      CandidateInPlaces(s, last, Index(|c|, k));
      PlaceFacts(s, p);
      FilterMembers((p: Place) => IsFree(s, used, p), Places(Sizes(s)), p);
    }
  }

  /** A free address of the set is enough. */
  lemma FreeAddressGives(s: seq<Conf>, used: map<IP, string>, last: Option<IP>, i: nat, a: IP)
    requires Walkable(s) && i < |s| && IsCanonical(a) && s[i].Contains(a) && !IsGateway(s[i], a) && a !in used
    ensures DynamicResult(s, used, last).Allocated?
  {
    FailsExactly(s, used, last);
  }

  // ---------- Many calls: round robin ----------

  /** The choice after the last reserved address, and the last reserved address after a choice. */
  function NextChoice(s: seq<Conf>, used: map<IP, string>, last: Option<IP>): Option<Place> {
    if Walkable(s) then DynamicChoice(s, used, last) else None
  }

  function LastAfter(s: seq<Conf>, p: Place): Option<IP> {
    if p.range < |s| then To16(AddrOf(s, p)) else None
  }

  /** The addresses returned by `n` pairs of Get and Release of one container that holds nothing else.
      Every pair leaves the reservations as they were and moves the last reserved address on. */
  function Pairs(s: seq<Conf>, used: map<IP, string>, last: Option<IP>, n: nat): seq<Place> {
    Iterate(l => NextChoice(s, used, l), p => LastAfter(s, p), last, n)
  }

  /** A Get followed by a Release by a container that held nothing restores the reservations. */
  lemma PairRestores(used: map<IP, string>, a: IP, id: string)
    requires a !in used && id !in used.Values
    ensures Without(used[a := id], id) == used
  {
  }

  /** One such pair on the store: the step that `Pairs` repeats. */
  method GetThenRelease(a: IPAllocator, id: string) returns (r: GetResult)
    requires Walkable(a.rangeset) && id !in a.store.used.Values
    requires MayEnd(a.rangeset, a.store.used, a.store.LastReservedIP(a.rangeID))
    modifies a.store
    ensures r == DynamicResult(a.rangeset, old(a.store.used), old(a.store.LastReservedIP(a.rangeID)))
    ensures a.store.used == old(a.store.used)
    ensures r.Allocated? ==> a.store.LastReservedIP(a.rangeID) == To16(r.config.addr)
  {
    ghost var used := a.store.used;
    OutcomeIsChoice(a.rangeset, used, a.store.LastReservedIP(a.rangeID));
    r := a.Get(id, None);
    a.Release(id);
    if r.Allocated? {
      PairRestores(used, r.config.addr, id);
    } else {
      assert Without(used, id) == used;
    }
  }

  function Configs(s: seq<Conf>, places: seq<Place>): seq<GetResult> {
    seq(|places|, i requires 0 <= i < |places| =>
      if places[i].range < |s| then Allocated(ConfigOf(AddrOf(s, places[i]), s[places[i].range]))
      else Failed(NoAddresses))
  }

  /** What `n` such pairs return. */
  function PairResults(s: seq<Conf>, used: map<IP, string>, last: Option<IP>, n: nat): seq<GetResult> {
    Configs(s, Pairs(s, used, last, n))
  }

  /** The store can go on with such pairs. */
  ghost predicate Repeatable(a: IPAllocator, id: string, used: map<IP, string>)
    reads a.store
  {
    && Walkable(a.rangeset) && a.store.used == used && id !in used.Values
    && Free(a.rangeset, used, Places(Sizes(a.rangeset))) != []
  }

  /** What was returned, and what the next `n` pairs will return, is `all`. */
  ghost predicate Returning(a: IPAllocator, used: map<IP, string>, all: seq<GetResult>, results: seq<GetResult>, n: nat)
    reads a.store
  {
    all == results + PairResults(a.rangeset, used, a.store.LastReservedIP(a.rangeID), n)
  }

  /** `n` pairs on the store, while some address is free, return the addresses of `Pairs`. */
  method GetAndReleaseRepeatedly(a: IPAllocator, id: string, n: nat) returns (results: seq<GetResult>)
    requires Repeatable(a, id, a.store.used)
    modifies a.store
    ensures results == PairResults(a.rangeset, old(a.store.used), old(a.store.LastReservedIP(a.rangeID)), n)
    ensures a.store.used == old(a.store.used)
  {
    ghost var used := a.store.used;
    ghost var all := PairResults(a.rangeset, used, a.store.LastReservedIP(a.rangeID), n);
    results := [];
    for i := 0 to n
      invariant Repeatable(a, id, used) && Returning(a, used, all, results, n - i)
    {
      results := OnePair(a, id, n - i, all, results);
    }
  }

  method OnePair(a: IPAllocator, id: string, ghost n: nat, ghost all: seq<GetResult>, results: seq<GetResult>)
    returns (results': seq<GetResult>)
    requires n > 0 && Repeatable(a, id, a.store.used) && Returning(a, a.store.used, all, results, n)
    modifies a.store
    ensures Repeatable(a, id, old(a.store.used)) && Returning(a, a.store.used, all, results', n - 1)
  {
    PairStep(a.rangeset, a.store.used, a.store.LastReservedIP(a.rangeID), n);
    var r := GetThenRelease(a, id);
    results' := results + [r];
  }

  lemma PairStep(s: seq<Conf>, used: map<IP, string>, last: Option<IP>, n: nat)
    requires Walkable(s) && n > 0 && Free(s, used, Places(Sizes(s))) != []
    ensures MayEnd(s, used, last) && DynamicResult(s, used, last).Allocated?
    ensures var r := DynamicResult(s, used, last);
      PairResults(s, used, last, n) == [r] + PairResults(s, used, To16(r.config.addr), n - 1)
  {
    FreeCandidates(s, used, last);
    var p := DynamicChoice(s, used, last).value;
    FirstPair(s, used, last, n, p);
    ConfigsOfRest(s, p, Pairs(s, used, To16(AddrOf(s, p)), n - 1));
  }

  lemma FirstPair(s: seq<Conf>, used: map<IP, string>, last: Option<IP>, n: nat, p: Place)
    requires Walkable(s) && n > 0 && p.range < |s| && NextChoice(s, used, last) == Some(p)
    ensures Pairs(s, used, last, n) == [p] + Pairs(s, used, To16(AddrOf(s, p)), n - 1)
  {
  }

  lemma ConfigsOfRest(s: seq<Conf>, p: Place, rest: seq<Place>)
    requires p.range < |s|
    ensures Configs(s, [p] + rest) == [Allocated(ConfigOf(AddrOf(s, p), s[p.range]))] + Configs(s, rest)
  {
    assert forall i :: 0 <= i < |rest| ==> Configs(s, [p] + rest)[i + 1] == Configs(s, rest)[i];
  }

  /** Starting from a chosen address, the rotated list is the old one turned to start after it. */
  lemma CandidatesAfter(s: seq<Conf>, last: Option<IP>, c: nat, p: Place)
    requires Walkable(s) && c < |Candidates(s, last)| && p == Candidates(s, last)[c]
    ensures Valid(Sizes(s), p)
    ensures Candidates(s, To16(AddrOf(s, p))) == Candidates(s, last)[c + 1..] + Candidates(s, last)[..c + 1]
  {
    CandidateIsValid(s, last, c);
    StartsAfter(s, p);
    TurnedList(Places(Sizes(s)), Sizes(s), StartPos(s, last), c, p);
  }

  lemma TurnedList(list: seq<Place>, sizes: seq<nat>, start: nat, c: nat, p: Place)
    requires list == Places(sizes) && start < |list| && c < |list| && p == Rotate(list, start)[c] && Valid(sizes, p)
    ensures var q := Offset(sizes, p.range) + p.index;
      q < |list| && Rotate(list, Succ(|list|, q)) == Rotate(list, start)[c + 1..] + Rotate(list, start)[..c + 1]
  {
    PlaceAt(sizes, p);
    PlacesDistinct(sizes);
    RotateAgain(list, start, c, Offset(sizes, p.range) + p.index);
  }

  lemma StartsAfter(s: seq<Conf>, p: Place)
    requires Walkable(s) && Valid(Sizes(s), p)
    ensures Offset(Sizes(s), p.range) + p.index < |Places(Sizes(s))|
    ensures StartPos(s, To16(AddrOf(s, p))) == Succ(|Places(Sizes(s))|, Offset(Sizes(s), p.range) + p.index)
  {
    var a := AddrOf(s, p);
    PlaceFacts(s, p);
    To16KeepsCanon(a);
    SameRange(s, p.range, a, To16(a).value);
    PlaceAt(Sizes(s), p);
  }

  /** The form in which an address is stored does not change where it is found. */
  lemma SameRange(s: seq<Conf>, i: nat, a: IP, b: IP)
    requires Walkable(s) && i < |s| && s[i].Contains(a) && Canon(a).Some? && Canon(a) == Canon(b)
    ensures SetContains(s, b) && RangeFor(s, b) == Some(i) && PlaceOf(s, i, b) == PlaceOf(s, i, a)
  {
    assert Fits(s[i]);
    ContainsIsInterval(s[i], a);
    ContainsIsInterval(s[i], b);
    OnlyRange(s, i, RangeFor(s, b).value, b);
    IpToIntOfCanon(a);
    IpToIntOfCanon(b);
  }

  lemma CandidateMember(s: seq<Conf>, last: Option<IP>, p: Place)
    requires Walkable(s)
    ensures p in Candidates(s, last) <==> p in Places(Sizes(s))
  {
    CandidatesDistinct(s, last);
    assert p in multiset(Candidates(s, last)) <==> p in multiset(Places(Sizes(s)));
  }

  /** After the `j`-th free candidate was chosen, the next choice is the one after it. */
  lemma ChoiceAfter(s: seq<Conf>, used: map<IP, string>, last: Option<IP>, j: nat)
    requires Walkable(s) && j + 1 < |Free(s, used, Candidates(s, last))|
    ensures var free := Free(s, used, Candidates(s, last));
      && free[j].range < |s|
      && DynamicChoice(s, used, To16(AddrOf(s, free[j]))) == Some(free[j + 1])
  {
    var c, f := Candidates(s, last), (p: Place) => IsFree(s, used, p);
    var at := FilterIndex(f, c, j);
    CandidatesAfter(s, last, at, c[at]);
    FilterRound(f, c, j, at);
  }

  lemma FreeIsLinked(s: seq<Conf>, used: map<IP, string>, last: Option<IP>, k: nat)
    requires Walkable(s) && k + 1 < |Free(s, used, Candidates(s, last))|
    ensures Linked(l => NextChoice(s, used, l), p => LastAfter(s, p), Free(s, used, Candidates(s, last)), k)
  {
    ChoiceAfter(s, used, last, k);
  }

  lemma PairsAreFree(s: seq<Conf>, used: map<IP, string>, last: Option<IP>)
    requires Walkable(s)
    ensures var free := Free(s, used, Candidates(s, last)); Pairs(s, used, last, |free|) == free
  {
    var free := Free(s, used, Candidates(s, last));
    var next, back := l => NextChoice(s, used, l), p => LastAfter(s, p);
    forall k | 0 <= k < |free| - 1 ensures Linked(next, back, free, k) {
      FreeIsLinked(s, used, last, k);
    }
    IterateChain(next, back, last, free, 0);
    assert free[0..] == free;
  }

  /** Round robin: as many pairs as there are free addresses return each of them once, in rotated order. */
  lemma RoundRobin(s: seq<Conf>, used: map<IP, string>, last: Option<IP>)
    requires Walkable(s)
    ensures var free := Free(s, used, Candidates(s, last));
      && Pairs(s, used, last, |free|) == free
      && Distinct(free)
      && forall p :: p in free <==> p in Places(Sizes(s)) && IsFree(s, used, p)
  {
    var c, f := Candidates(s, last), (p: Place) => IsFree(s, used, p);
    PairsAreFree(s, used, last);
    CandidatesDistinct(s, last);
    FilterDistinct(f, c);
    forall p ensures p in Filter(f, c) <==> p in Places(Sizes(s)) && IsFree(s, used, p) {
      FilterMembers(f, c, p);
      CandidateMember(s, last, p);
    }
  }

  // ---------- A Get that never ends ----------

  function OneHost(n: Byte): Conf {
    Conf([10, 0, 0, 0], [255, 255, 255, 0], Some([10, 0, 0, n]), Some([10, 0, 0, n]), Some([10, 0, 0, 1]))
  }

  lemma OneHostContains(n: Byte, a: IP)
    ensures Fits(OneHost(n)) && TopByteSet(OneHost(n).subnetIP)
    ensures OneHost(n).Contains(a) <==> Canon(a) == Some([10, 0, 0, n])
  {
    var r, b: IP := OneHost(n), [10, 0, 0, n];
    assert b[..3] == r.subnetIP[..3];
    SlashTwentyFour();
    InSlashTwentyFour(r.subnetIP, r.mask, b);
    NetContainsIsInNetwork(r, b);
    ContainsIsInterval(r, a);
    if Canon(a).Some? && |Canon(a).value| == 4 && Value(Canon(a).value) == Value(b) {
      ValueInjective(Canon(a).value, b);
    }
  }

  function TwoHosts(): seq<Conf> { [OneHost(2), OneHost(3)] }

  lemma TwoHostsApart()
    ensures NoOverlaps(TwoHosts()) && Walkable(TwoHosts())
  {
    OneHostContains(2, [10, 0, 0, 2]);
    OneHostContains(2, [10, 0, 0, 3]);
    OneHostContains(3, [10, 0, 0, 2]);
    OneHostContains(3, [10, 0, 0, 3]);
  }

  lemma TwoHostsAccepted(copy: Copy)
    ensures SetAccepted(copy, TwoHosts()) && CanonicalizedAll(copy, TwoHosts()) == TwoHosts()
  {
    var s := TwoHosts();
    var sip, g, a, b: IP := [10, 0, 0, 0], [10, 0, 0, 1], [10, 0, 0, 2], [10, 0, 0, 3];
    assert sip[..3] == g[..3] == a[..3] == b[..3];
    OneHostAccepted(copy, sip, a, g);
    OneHostAccepted(copy, sip, b, g);
    assert s[..1] == [s[0]] && [s[0]][..0] == [];
    assert CanonicalizedAll(copy, [s[0]]) == [s[0]] && AllCanonicalizable(copy, [s[0]]);
    TwoHostsApart();
  }

  /** 10.0.0.2 and 10.0.0.3, each a range of its own in one set that either copy accepts, are both reserved, the
      former last: Get does not report that there is no address, but looks for one for ever. */
  lemma FullSetIsNeverLeft(copy: Copy)
    ensures SetAccepted(copy, TwoHosts()) && CanonicalizedAll(copy, TwoHosts()) == TwoHosts()
    ensures !GetEnds(TwoHosts(), map[[10, 0, 0, 2] := "a", [10, 0, 0, 3] := "b"],
                     StoredLast(map[0 := [10, 0, 0, 2]], 0))
  {
    var s, last := TwoHosts(), StoredLast(map[0 := [10, 0, 0, 2]], 0);
    var used: map<IP, string> := map[[10, 0, 0, 2] := "a", [10, 0, 0, 3] := "b"];
    TwoHostsAccepted(copy);
    TwoHostsApart();
    To16KeepsCanon([10, 0, 0, 2]);
    RangeEndNeverCloses(s, 0, last.value);
    forall i, a | 0 <= i < |s| && IsCanonical(a) && s[i].Contains(a) ensures a in used {
      OneHostContains(2, a);
      OneHostContains(3, a);
    }
    FailsExactly(s, used, last);
    FreeCandidates(s, used, last);
    GetEndsExactly(s, used, last);
  }

  // ---------- A Get outside the subnet ----------

  /** What kube-ipam's copy makes of 10.0.0.255/24. */
  lemma EmptyRangeFilled()
    ensures Canonicalized(KubeIpam, Conf([10, 0, 0, 255], [255, 255, 255, 0], None, None, None)) ==
            (Conf([10, 0, 0, 255], [255, 255, 255, 0], Some([10, 0, 1, 0]), Some([10, 0, 0, 254]), Some([10, 0, 1, 0])),
             None)
  {
    var sip: IP, mask: seq<Byte> := [10, 0, 0, 255], [255, 255, 255, 0];
    SlashTwentyFour();
    BroadcastOfSlashTwentyFour(sip, mask);
    NextOf(sip, [10, 0, 1, 0]);
    assert LastIP(sip, mask) == [10, 0, 0, 254];
  }

  lemma NextOf(a: IP, b: IP)
    requires |a| == 4 && a[0] == 10 && Increment(a) == b
    ensures NextIP(a) == b
  {
    NextIPIsIncrement(a);
  }

  /** The first pass over such a range meets its gateway, the second one the address after it. */
  lemma SecondPassYields(c: Conf)
    requires c.start == c.gateway == Some([10, 0, 1, 0]) && c.end == Some([10, 0, 0, 254])
    ensures StepOf([c], None, 0) == Skip && StepOf([c], None, 1) == Yield([10, 0, 1, 1], c.mask, c.gateway)
  {
    NextOf([10, 0, 1, 0], [10, 0, 1, 1]);
    assert IterAt([c], None, 0) == GetIter([c], None);
    assert IterAt([c], None, 1) == Iter(0, c.start, c.start, 0);
  }

  /** That range is empty. Where it is the set, the first dynamic Get gives 10.0.1.1. */
  lemma EmptyRangeGivesOutside(used: map<IP, string>)
    requires [10, 0, 1, 1] !in used
    ensures var c := Canonicalized(KubeIpam, Conf([10, 0, 0, 255], [255, 255, 255, 0], None, None, None)).0;
      && GetEnds([c], used, None)
      && GetOutcome([c], used, None) == Allocated(ConfigOf([10, 0, 1, 1], c))
      && !NetContains(c.subnetIP, c.mask, [10, 0, 1, 1])
  {
    EmptyRangeFilled();
    SecondPassEnds(Canonicalized(KubeIpam, Conf([10, 0, 0, 255], [255, 255, 255, 0], None, None, None)).0, used);
    NotInSubnet([10, 0, 0, 255], [255, 255, 255, 0]);
  }

  lemma SecondPassEnds(c: Conf, used: map<IP, string>)
    requires c.start == c.gateway == Some([10, 0, 1, 0]) && c.end == Some([10, 0, 0, 254])
    requires [10, 0, 1, 1] !in used
    ensures GetEnds([c], used, None) && GetOutcome([c], used, None) == Allocated(ConfigOf([10, 0, 1, 1], c))
  {
    SecondPassYields(c);
    assert EndsAt([c], used, None, 1) && !EndsAt([c], used, None, 0);
  }

  lemma NotInSubnet(sip: IP, mask: seq<Byte>)
    requires sip == [10, 0, 0, 255] && mask == [255, 255, 255, 0]
    ensures !NetContains(sip, mask, [10, 0, 1, 1])
  {
    var a: IP := [10, 0, 1, 1];
    FullByte(sip[2]);
    FullByte(a[2]);
    assert AndByte(sip[2], mask[2]) != AndByte(a[2], mask[2]);
  }
}
