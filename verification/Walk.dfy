/**
 The round-robin walk of backend/allocator/allocator.go (GetIter and Next) against a list: all addresses
 of a range set in order, rotated to start after the last reserved one.
 */
module Walk {
  import opened Options
  import opened GoNet
  import opened Cidr
  import opened Ranges
  import opened RangeSets
  import opened Rounds

  // ---------- The addresses of a set as a list of places ----------

  /** A non-empty range that NextIP can count through. */
  predicate Fits(r: Conf) { Ready(r) && TopByteSet(r.start.value) }

  predicate Walkable(s: seq<Conf>) {
    s != [] && NoOverlaps(s) && forall i {:trigger Fits(s[i])} :: 0 <= i < |s| ==> Fits(s[i])
  }

  function Size(r: Conf): nat { if First(r) <= Last(r) then Last(r) - First(r) + 1 else 0 }

  function Sizes(s: seq<Conf>): (sizes: seq<nat>)
    ensures |sizes| == |s| && forall i :: 0 <= i < |s| ==> sizes[i] == Size(s[i])
  {
    seq(|s|, i requires 0 <= i < |s| => Size(s[i]))
  }

  function AddrOf(s: seq<Conf>, p: Place): IP
    requires p.range < |s|
  {
    Bytes(First(s[p.range]) + p.index)
  }

  function PlaceOf(s: seq<Conf>, i: nat, a: IP): Place
    requires i < |s|
  {
    Place(i, if First(s[i]) <= IpToInt(a) then IpToInt(a) - First(s[i]) else 0)
  }

  lemma SizesPositive(s: seq<Conf>)
    requires Walkable(s)
    ensures Positive(Sizes(s)) && |Places(Sizes(s))| > 0
  {
    forall i | 0 <= i < |s| ensures Sizes(s)[i] > 0 { assert Fits(s[i]); }
    PlaceAt(Sizes(s), Place(0, 0));
  }

  /** Every place holds an address of its range, and no other place does. */
  lemma PlaceFacts(s: seq<Conf>, p: Place)
    requires Walkable(s) && Valid(Sizes(s), p)
    ensures IsCanonical(AddrOf(s, p)) && s[p.range].Contains(AddrOf(s, p))
    ensures PlaceOf(s, p.range, AddrOf(s, p)) == p
  {
    var r := s[p.range];
    assert Fits(r);
    AddressOfValue(First(r) + p.index, r.start.value, r.end.value);
    ContainsIsInterval(r, AddrOf(s, p));
  }

  lemma ContainedPlace(s: seq<Conf>, i: nat, a: IP)
    requires Walkable(s) && i < |s| && s[i].Contains(a)
    ensures Canon(a).Some? && Valid(Sizes(s), PlaceOf(s, i, a)) && AddrOf(s, PlaceOf(s, i, a)) == Canon(a).value
  {
    var r := s[i];
    assert Fits(r);
    ContainsIsInterval(r, a);
    var c := Canon(a).value;
    AddressOfValue(Value(c), r.start.value, r.end.value);
    ValueInjective(Bytes(Value(c)), c);
  }

  lemma OnlyRange(s: seq<Conf>, i: nat, j: nat, a: IP)
    requires Walkable(s) && i < |s| && j < |s| && s[i].Contains(a) && s[j].Contains(a)
    ensures i == j
  {
    forall k | 0 <= k < |s| ensures WellStarted(s[k]) {
      assert Fits(s[k]);
      SaneIsWellStarted(s[k]);
    }
    NoOverlapsIsDisjoint(s);
  }

  lemma SameAddress(s: seq<Conf>, p: Place, q: Place)
    requires Walkable(s) && Valid(Sizes(s), p) && Valid(Sizes(s), q)
    requires AddrOf(s, p) == AddrOf(s, q)
    ensures p == q
  {
    PlaceFacts(s, p);
    PlaceFacts(s, q);
    OnlyRange(s, p.range, q.range, AddrOf(s, p));
  }

  // ---------- The iterator ----------

  /** The cursor after `cur` in range `i`: the next address, or the start of the next range. */
  function Advance(s: seq<Conf>, i: nat, cur: IP): (next: (nat, Option<IP>))
    requires i < |s|
    ensures next.0 < |s|
  {
    if s[i].end.Some? && Equal(cur, s[i].end.value) then
      var j := Succ(|s|, i);
      (j, s[j].start)
    else (i, Some(NextIP(cur)))
  }

  lemma AdvanceIsNextPlace(s: seq<Conf>, i: nat, cur: IP)
    requires Walkable(s) && i < |s| && s[i].Contains(cur)
    ensures Valid(Sizes(s), PlaceOf(s, i, cur))
    ensures var q := NextPlace(Sizes(s), PlaceOf(s, i, cur));
      Valid(Sizes(s), q) && Advance(s, i, cur) == (q.range, Some(AddrOf(s, q)))
  {
    SizesPositive(s);
    var r := s[i];
    assert Fits(r);
    ContainsIsInterval(r, cur);
    ContainedPlace(s, i, cur);
    CanonIsCanonical(cur);
    EqualIsSameCanon(cur, r.end.value);
    if Equal(cur, r.end.value) {
      StartAddress(s, Succ(|s|, i));
    } else if IpToInt(cur) == Last(r) {
      ValueInjective(Canon(cur).value, r.end.value);
    }
  }

  lemma StartAddress(s: seq<Conf>, i: nat)
    requires Walkable(s) && i < |s|
    ensures s[i].start == Some(AddrOf(s, Place(i, 0)))
  {
    assert Fits(s[i]);
    BytesOfValue(s[i].start.value);
  }

  datatype Iter = Iter(rangeIdx: nat, cur: Option<IP>, startIP: Option<IP>, startRange: nat)

  datatype Step = Yield(addr: IP, mask: seq<Byte>, gateway: Option<IP>) | Skip | Exhausted

  /** GetIter: start at the last reserved address if the set contains it, else before range 0. */
  function GetIter(s: seq<Conf>, last: Option<IP>): (it: Iter)
    requires s != []
    ensures it.rangeIdx < |s|
  {
    if last.Some? && SetContains(s, last.value) then
      var i := RangeFor(s, last.value).value;
      Iter(i, last, None, i)
    else
      Iter(0, None, s[0].start, 0)
  }

  predicate IsGateway(r: Conf, a: IP) { r.gateway.Some? && Equal(a, r.gateway.value) }

  /** Gateways are passed over ("call Next again"), any other address is returned. */
  function Visit(r: Conf, a: IP): Step {
    if IsGateway(r, a) then Skip else Yield(a, r.mask, r.gateway)
  }

  /** The body of Next with its recursive call cut: Skip stands for that call. */
  function Pass(s: seq<Conf>, it: Iter): (r: (Iter, Step))
    requires it.rangeIdx < |s|
    ensures r.0.rangeIdx < |s|
  {
    if it.cur.None? then
      var start := s[it.rangeIdx].start;
      (it.(cur := start, startIP := start), Visit(s[it.rangeIdx], Get(start)))
    else
      var (i, cur) := Advance(s, it.rangeIdx, it.cur.value);
      var it' := it.(rangeIdx := i, cur := cur);
      if it.startIP.None? then (it'.(startIP := cur), Visit(s[i], Get(cur)))
      else if i == it.startRange && Equal(Get(cur), it.startIP.value) then (it', Exhausted)
      else (it', Visit(s[i], Get(cur)))
  }

  /** A nil address is an empty byte string. */
  function Get(ip: Option<IP>): IP { if ip.Some? then ip.value else [] }

  // ---------- The rotated list ----------

  function StartPos(s: seq<Conf>, last: Option<IP>): (p: nat)
    requires Walkable(s)
    ensures p < |Places(Sizes(s))|
  {
    SizesPositive(s);
    if last.Some? && SetContains(s, last.value) then
      var i := RangeFor(s, last.value).value;
      ContainedPlace(s, i, last.value);
      PlaceAt(Sizes(s), PlaceOf(s, i, last.value));
      Succ(|Places(Sizes(s))|, Offset(Sizes(s), i) + PlaceOf(s, i, last.value).index)
    else 0
  }

  /** All addresses of the set, in the order in which they are tried. */
  function Candidates(s: seq<Conf>, last: Option<IP>): (c: seq<Place>)
    requires Walkable(s)
    ensures |c| == |Places(Sizes(s))| > 0
  {
    Rotate(Places(Sizes(s)), StartPos(s, last))
  }

  lemma CandidateIsValid(s: seq<Conf>, last: Option<IP>, c: nat)
    requires Walkable(s) && c < |Candidates(s, last)|
    ensures Valid(Sizes(s), Candidates(s, last)[c])
  {
    var list, p := Places(Sizes(s)), StartPos(s, last);
    RotateAt(list, p, c);
    PlaceIsValid(Sizes(s), if p + c < |list| then p + c else p + c - |list|);
  }

  lemma CandidateNext(s: seq<Conf>, last: Option<IP>, c: nat)
    requires Walkable(s) && c < |Candidates(s, last)|
    ensures Valid(Sizes(s), Candidates(s, last)[c])
    ensures Candidates(s, last)[Succ(|Candidates(s, last)|, c)] == NextPlace(Sizes(s), Candidates(s, last)[c])
  {
    var list, p := Places(Sizes(s)), StartPos(s, last);
    SizesPositive(s);
    PlacesDistinct(Sizes(s));
    RotateAt(list, p, c);
    var q := if p + c < |list| then p + c else p + c - |list|;
    RotateSucc(list, p, c, q);
    NextPlaceIsNext(Sizes(s), q);
  }

  // ---------- The walk visits the rotated list ----------

  /** The iterator after `k` passes. */
  predicate Walked(s: seq<Conf>, last: Option<IP>, it: Iter, k: nat)
    requires Walkable(s)
  {
    if k == 0 then it == GetIter(s, last)
    else
      var c := Candidates(s, last);
      var p := c[Index(|c|, k - 1)];
      && p.range < |s| && c[0].range < |s|
      && it == Iter(p.range, Some(AddrOf(s, p)), Some(AddrOf(s, c[0])), GetIter(s, last).startRange)
  }

  /** Whether the walk recognizes the place where it began: the first address tried has to be in the range
      recorded as the starting one. */
  predicate Closes(s: seq<Conf>, last: Option<IP>)
    requires Walkable(s)
  {
    Candidates(s, last)[0].range == GetIter(s, last).startRange
  }

  predicate Wraps(s: seq<Conf>, last: Option<IP>, k: nat)
    requires Walkable(s)
  {
    k > 0 && Index(|Candidates(s, last)|, k) == 0 && Closes(s, last)
  }

  /** What the `k`-th pass does. */
  function Expected(s: seq<Conf>, last: Option<IP>, k: nat): Step
    requires Walkable(s)
  {
    var c := Candidates(s, last);
    CandidateIsValid(s, last, Index(|c|, k));
    var p := c[Index(|c|, k)];
    if Wraps(s, last, k) then Exhausted else Visit(s[p.range], AddrOf(s, p))
  }

  lemma FirstPass(s: seq<Conf>, last: Option<IP>)
    requires Walkable(s)
    ensures Walked(s, last, Pass(s, GetIter(s, last)).0, 1)
    ensures Pass(s, GetIter(s, last)).1 == Expected(s, last, 0)
  {
    CandidateIsValid(s, last, 0);
    if GetIter(s, last).cur.Some? { FirstFromLast(s, last); } else { FirstFromStart(s, last); }
  }

  lemma FirstFromLast(s: seq<Conf>, last: Option<IP>)
    requires Walkable(s) && last.Some? && SetContains(s, last.value)
    ensures var p := Candidates(s, last)[0];
      p.range < |s| && Advance(s, GetIter(s, last).rangeIdx, last.value) == (p.range, Some(AddrOf(s, p)))
  {
    FirstIsNext(s, last);
    AdvanceIsNextPlace(s, GetIter(s, last).rangeIdx, last.value);
  }

  lemma FirstIsNext(s: seq<Conf>, last: Option<IP>)
    requires Walkable(s) && last.Some? && SetContains(s, last.value)
    ensures var at := PlaceOf(s, RangeFor(s, last.value).value, last.value);
      Valid(Sizes(s), at) && Candidates(s, last)[0] == NextPlace(Sizes(s), at)
  {
    var at := PlaceOf(s, RangeFor(s, last.value).value, last.value);
    StartAfterLast(s, last, at);
    SizesPositive(s);
    RotatedAfter(Sizes(s), at, StartPos(s, last));
  }

  lemma StartAfterLast(s: seq<Conf>, last: Option<IP>, at: Place)
    requires Walkable(s) && last.Some? && SetContains(s, last.value)
    requires at == PlaceOf(s, RangeFor(s, last.value).value, last.value)
    ensures Valid(Sizes(s), at) && Offset(Sizes(s), at.range) + at.index < |Places(Sizes(s))|
    ensures StartPos(s, last) == Succ(|Places(Sizes(s))|, Offset(Sizes(s), at.range) + at.index)
  {
    ContainedPlace(s, at.range, last.value);
    PlaceAt(Sizes(s), at);
  }

  lemma FirstFromStart(s: seq<Conf>, last: Option<IP>)
    requires Walkable(s) && !(last.Some? && SetContains(s, last.value))
    ensures Candidates(s, last)[0] == Place(0, 0) && s[0].start == Some(AddrOf(s, Place(0, 0)))
  {
    RotateAt(Places(Sizes(s)), StartPos(s, last), 0);
    SizesPositive(s);
    PlaceAt(Sizes(s), Place(0, 0));
    StartAddress(s, 0);
  }

  /** From one candidate the cursor moves to the next. */
  lemma LaterAdvance(s: seq<Conf>, last: Option<IP>, i: nat)
    requires Walkable(s) && i < |Candidates(s, last)|
    ensures var c := Candidates(s, last); var q := c[Succ(|c|, i)];
      && c[i].range < |s| && q.range < |s|
      && Advance(s, c[i].range, AddrOf(s, c[i])) == (q.range, Some(AddrOf(s, q)))
  {
    CandidateNext(s, last, i);
    PlaceFacts(s, Candidates(s, last)[i]);
    AdvanceIsNextPlace(s, Candidates(s, last)[i].range, AddrOf(s, Candidates(s, last)[i]));
  }

  /** The cursor is at the first candidate's address only there. */
  lemma BackAtFirst(s: seq<Conf>, last: Option<IP>, i: nat)
    requires Walkable(s) && i < |Candidates(s, last)|
    ensures var c := Candidates(s, last);
      c[i].range < |s| && c[0].range < |s| && (Equal(AddrOf(s, c[i]), AddrOf(s, c[0])) <==> i == 0)
  {
    var c := Candidates(s, last);
    CandidateIsValid(s, last, i);
    CandidateIsValid(s, last, 0);
    PlaceFacts(s, c[i]);
    PlaceFacts(s, c[0]);
    EqualIsSameCanon(AddrOf(s, c[i]), AddrOf(s, c[0]));
    if AddrOf(s, c[i]) == AddrOf(s, c[0]) {
      SameAddress(s, c[i], c[0]);
      CandidatesDistinct(s, last);
    }
  }

  lemma LaterPass(s: seq<Conf>, last: Option<IP>, it: Iter, k: nat)
    requires Walkable(s) && k > 0 && Walked(s, last, it, k)
    ensures it.rangeIdx < |s| && Walked(s, last, Pass(s, it).0, k + 1)
    ensures Pass(s, it).1 == Expected(s, last, k)
  {
    var n := |Candidates(s, last)|;
    LaterAdvance(s, last, Index(n, k - 1));
    BackAtFirst(s, last, Index(n, k));
  }

  lemma CandidatesDistinct(s: seq<Conf>, last: Option<IP>)
    requires Walkable(s)
    ensures Distinct(Candidates(s, last)) && multiset(Candidates(s, last)) == multiset(Places(Sizes(s)))
  {
    PlacesDistinct(Sizes(s));
    RotateDistinct(Places(Sizes(s)), StartPos(s, last));
  }

  lemma PassIsExpected(s: seq<Conf>, last: Option<IP>, it: Iter, k: nat)
    requires Walkable(s) && Walked(s, last, it, k)
    ensures it.rangeIdx < |s| && Walked(s, last, Pass(s, it).0, k + 1)
    ensures Pass(s, it).1 == Expected(s, last, k)
  {
    if k == 0 { FirstPass(s, last); } else { LaterPass(s, last, it, k); }
  }

  /** The last reserved address is its range's RangeEnd, and there is another range to go on in. */
  predicate LastAtRangeEnd(s: seq<Conf>, last: Option<IP>) {
    && |s| > 1 && last.Some? && SetContains(s, last.value)
    && var r := s[RangeFor(s, last.value).value]; r.end.Some? && Equal(last.value, r.end.value)
  }

  /** The starting range is fixed before the cursor first moves, so the walk closes unless that move
      leaves the range. */
  lemma ClosesExactly(s: seq<Conf>, last: Option<IP>)
    requires Walkable(s)
    ensures Closes(s, last) <==> !LastAtRangeEnd(s, last)
  {
    FirstPass(s, last);
    CandidateIsValid(s, last, 0);
  }

  // ---------- Exhaustion ----------

  /** What `n` passes do. */
  function Run(s: seq<Conf>, it: Iter, n: nat): (r: (Iter, seq<Step>))
    requires it.rangeIdx < |s|
    ensures r.0.rangeIdx < |s| && |r.1| == n
    decreases n
  {
    if n == 0 then (it, [])
    else
      var (it', steps) := Run(s, it, n - 1);
      var (it'', step) := Pass(s, it');
      (it'', steps + [step])
  }

  predicate AllExpected(s: seq<Conf>, last: Option<IP>, steps: seq<Step>)
    requires Walkable(s)
  {
    forall k {:trigger steps[k]} :: 0 <= k < |steps| ==> steps[k] == Expected(s, last, k)
  }

  lemma {:induction false} RunIsExpected(s: seq<Conf>, last: Option<IP>, n: nat)
    requires Walkable(s)
    ensures var (it, steps) := Run(s, GetIter(s, last), n);
      Walked(s, last, it, n) && AllExpected(s, last, steps)
  {
    if n > 0 {
      RunIsExpected(s, last, n - 1);
      var (it, steps) := Run(s, GetIter(s, last), n - 1);
      PassIsExpected(s, last, it, n - 1);
      ExtendExpected(s, last, steps, Pass(s, it).1);
    }
  }

  lemma ExtendExpected(s: seq<Conf>, last: Option<IP>, steps: seq<Step>, step: Step)
    requires Walkable(s) && AllExpected(s, last, steps) && step == Expected(s, last, |steps|)
    ensures AllExpected(s, last, steps + [step])
  {
  }

  function Steps(s: seq<Conf>, last: Option<IP>, n: nat): (steps: seq<Step>)
    requires s != []
    ensures |steps| == n
  {
    Run(s, GetIter(s, last), n).1
  }

  /** The iterator after `k` passes over any set, and what the next one does. */
  function IterAt(s: seq<Conf>, last: Option<IP>, k: nat): (it: Iter)
    requires s != []
    ensures it.rangeIdx < |s|
  {
    Run(s, GetIter(s, last), k).0
  }

  function StepOf(s: seq<Conf>, last: Option<IP>, k: nat): Step
    requires s != []
  {
    Pass(s, IterAt(s, last, k)).1
  }

  lemma StepIsExpected(s: seq<Conf>, last: Option<IP>, k: nat)
    requires Walkable(s)
    ensures StepOf(s, last, k) == Expected(s, last, k)
  {
    RunIsExpected(s, last, k);
    PassIsExpected(s, last, IterAt(s, last, k), k);
  }

  /** One round visits every address of the set once, in rotated order, and does not end the walk. */
  lemma OneRound(s: seq<Conf>, last: Option<IP>)
    requires Walkable(s)
    ensures var c := Candidates(s, last);
      && Distinct(c) && multiset(c) == multiset(Places(Sizes(s)))
      && forall k :: 0 <= k < |c| ==>
           c[k].range < |s| && Steps(s, last, |c|)[k] == Visit(s[c[k].range], AddrOf(s, c[k]))
  {
    var c := Candidates(s, last);
    CandidatesDistinct(s, last);
    RunIsExpected(s, last, |c|);
    forall k | 0 <= k < |c|
      ensures c[k].range < |s| && Steps(s, last, |c|)[k] == Visit(s[c[k].range], AddrOf(s, c[k]))
    {
      CandidateIsValid(s, last, k);
      IndexInFirstRound(|c|, k);
    }
  }

  /** What the first pass after the round does, and what any pass does. */
  lemma PassAfterRound(s: seq<Conf>, last: Option<IP>)
    requires Walkable(s)
    ensures Wraps(s, last, |Places(Sizes(s))|) <==> Closes(s, last)
  {
    IndexInFirstRound(|Candidates(s, last)|, |Candidates(s, last)|);
  }

  lemma StepAt(s: seq<Conf>, last: Option<IP>, m: nat, k: nat)
    requires Walkable(s) && k < m
    ensures Steps(s, last, m)[k] == Expected(s, last, k)
    ensures Steps(s, last, m)[k] == Exhausted <==> Wraps(s, last, k)
  {
    RunIsExpected(s, last, m);
  }

  /** After it the walk ends if and only if it closes; otherwise no number of passes ever ends it. */
  lemma ExhaustionExactly(s: seq<Conf>, last: Option<IP>)
    requires Walkable(s)
    ensures var n := |Places(Sizes(s))|; !LastAtRangeEnd(s, last) ==> Steps(s, last, n + 1)[n] == Exhausted
    ensures LastAtRangeEnd(s, last) ==> forall m, k :: 0 <= k < m ==> Steps(s, last, m)[k] != Exhausted
  {
    var n := |Places(Sizes(s))|;
    ClosesExactly(s, last);
    PassAfterRound(s, last);
    StepAt(s, last, n + 1, n);
    if LastAtRangeEnd(s, last) {
      forall m, k | 0 <= k < m ensures Steps(s, last, m)[k] != Exhausted {
        StepAt(s, last, m, k);
      }
    }
  }

  /** So every set of several ranges has last-reserved addresses from which the walk never ends, in whatever form
      they are stored. */
  lemma RangeEndNeverCloses(s: seq<Conf>, i: nat, a: IP)
    requires Walkable(s) && i < |s| && |s| > 1 && Canon(a) == s[i].end
    ensures LastAtRangeEnd(s, Some(a))
  {
    assert Fits(s[i]);
    CanonIsCanonical(a);
    ContainsIsInterval(s[i], a);
    EqualIsSameCanon(a, s[i].end.value);
    OnlyRange(s, i, RangeFor(s, a).value, a);
  }

  // ---------- Which configured sets can be walked ----------

  predicate AllCountUp(s: seq<Conf>) { forall i {:trigger s[i]} :: 0 <= i < |s| ==> CountsUp(s[i]) }

  /** The sets that Canonicalize accepts can be walked exactly when each of their ranges, as given, counts up. */
  lemma AcceptedIsWalkable(copy: Copy, s: seq<Conf>)
    requires SetAccepted(copy, s)
    ensures Walkable(CanonicalizedAll(copy, s)) <==> AllCountUp(s)
  {
    var c := CanonicalizedAll(copy, s);
    forall i | 0 <= i < |s| ensures Fits(c[i]) <==> CountsUp(s[i]) {
      CanonicalizedAt(copy, s, i);
      CountsUpExactly(copy, s[i]);
    }
    if Walkable(c) {
      forall i | 0 <= i < |s| ensures CountsUp(s[i]) { assert Fits(c[i]); }
    }
    if AllCountUp(s) {
      forall i | 0 <= i < |s| ensures Fits(c[i]) { assert CountsUp(s[i]); }
    }
  }

  /** In the copy that checks host bits: a given start has a top byte that is not zero, or else the subnet has;
      the default end is an address; and no start is the IPv4 broadcast address with no end given. */
  lemma HostLocalCountsUp(r: Conf)
    requires Canonicalized(HostLocal, r).1.None?
    ensures var c := Canonicalized(HostLocal, r).0;
      && |c.mask| == |c.subnetIP|
      && (CountsUp(r) <==> && TopByteSet(if r.start.Some? then c.start.value else c.subnetIP)
                           && RegularEnd(r) && !StartsAtBroadcast(r, c))
  {
    var c := Canonicalized(HostLocal, r).0;
    HostLocalReady(r);
    CountsUpExactly(HostLocal, r);
    CanonicalizedFields(HostLocal, r);
  }
}
