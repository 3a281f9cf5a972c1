/** backend/allocator/range_set.go: a set of ranges of one family, pairwise disjoint once canonicalized. */
module RangeSets {
  import opened Options
  import opened GoNet
  import opened Cidr
  import opened Ranges

  /** RangeFor: the first range that contains the address (its position), or none. */
  function RangeFor(s: seq<Conf>, addr: IP): (r: Option<nat>)
    ensures r.Some? ==> r.value < |s| && s[r.value].Contains(addr)
    ensures r.Some? ==> forall k :: 0 <= k < r.value ==> !s[k].Contains(addr)
    ensures r.None? <==> forall k :: 0 <= k < |s| ==> !s[k].Contains(addr)
  {
    if s == [] then None
    else if s[0].Contains(addr) then Some(0)
    else
      match RangeFor(s[1..], addr)
      case None => assert forall k :: 0 < k < |s| ==> s[k] == s[1..][k - 1]; None
      case Some(k) => assert forall j :: 0 < j < |s| ==> s[j] == s[1..][j - 1]; Some(k + 1)
  }

  predicate SetContains(s: seq<Conf>, addr: IP) { RangeFor(s, addr).Some? }

  /** Overlaps: some range of one set overlaps some range of the other. */
  predicate SetsOverlap(s: seq<Conf>, t: seq<Conf>) {
    exists i, j :: 0 <= i < |s| && 0 <= j < |t| && s[i].Overlaps(t[j])
  }

  function CanonicalizedAll(copy: Copy, s: seq<Conf>): (c: seq<Conf>)
    ensures |c| == |s|
  {
    if s == [] then []
    else CanonicalizedAll(copy, s[..|s| - 1]) + [Canonicalized(copy, s[|s| - 1]).0]
  }

  predicate AllCanonicalizable(copy: Copy, s: seq<Conf>) {
    s == [] || (AllCanonicalizable(copy, s[..|s| - 1]) && Canonicalized(copy, s[|s| - 1]).1.None?)
  }

  lemma {:induction false} CanonicalizedAt(copy: Copy, s: seq<Conf>, i: nat)
    requires i < |s|
    ensures CanonicalizedAll(copy, s)[i] == Canonicalized(copy, s[i]).0
    ensures AllCanonicalizable(copy, s) ==> Canonicalized(copy, s[i]).1.None?
    ensures CanonicalizedAll(copy, s)[..i] == CanonicalizedAll(copy, s[..i])
  {
    if i < |s| - 1 {
      CanonicalizedAt(copy, s[..|s| - 1], i);
      assert s[..|s| - 1][..i] == s[..i];
    }
  }

  predicate OneFamily(s: seq<Conf>) {
    forall i :: 0 <= i < |s| ==> Len(s[i].start) == Len(s[0].start)
  }

  predicate NoOverlaps(s: seq<Conf>) {
    forall i, j {:trigger s[i].Overlaps(s[j])} :: 0 <= i < j < |s| ==> !s[i].Overlaps(s[j])
  }

  /** What Canonicalize of a set accepts. */
  predicate SetAccepted(copy: Copy, s: seq<Conf>) {
    && s != [] && AllCanonicalizable(copy, s)
    && OneFamily(CanonicalizedAll(copy, s))
    && NoOverlaps(CanonicalizedAll(copy, s))
  }

  /** What the loop of Canonicalize stops with: an error of the first range that has one, or a family other than
      the first range's. */
  function LoopError(copy: Copy, s: seq<Conf>): Option<Error> {
    if s == [] then None
    else
      var e, c := LoopError(copy, s[..|s| - 1]), Canonicalized(copy, s[|s| - 1]);
      if e.Some? then e
      else if c.1.Some? then c.1
      else if Len(c.0.start) != Len(Canonicalized(copy, s[0]).0.start) then Some(MixedFamilies)
      else None
  }

  function SetError(copy: Copy, s: seq<Conf>): Option<Error> {
    if s == [] then Some(EmptySet)
    else if LoopError(copy, s).Some? then LoopError(copy, s)
    else if !NoOverlaps(CanonicalizedAll(copy, s)) then Some(SubnetsOverlap)
    else None
  }

  lemma {:induction false} LoopErrorNone(copy: Copy, s: seq<Conf>)
    ensures LoopError(copy, s).None? <==> AllCanonicalizable(copy, s) && OneFamily(CanonicalizedAll(copy, s))
  {
    if s != [] {
      var init, c := s[..|s| - 1], CanonicalizedAll(copy, s);
      LoopErrorNone(copy, init);
      CanonicalizedAt(copy, s, |s| - 1);
      CanonicalizedAt(copy, s, 0);
      assert c[..|s| - 1] == CanonicalizedAll(copy, init);
      OneFamilySplit(c);
      if init != [] { assert init[0] == s[0]; }
    }
  }

  lemma OneFamilySplit(c: seq<Conf>)
    requires c != []
    ensures OneFamily(c) <==> OneFamily(c[..|c| - 1]) && Len(c[|c| - 1].start) == Len(c[0].start)
  {
    var init := c[..|c| - 1];
    assert forall i :: 0 <= i < |init| ==> init[i] == c[i];
  }

  lemma SetErrorNone(copy: Copy, s: seq<Conf>)
    ensures SetError(copy, s).None? <==> SetAccepted(copy, s)
  {
    LoopErrorNone(copy, s);
  }

  /** An error of some range stays that of the whole set. */
  lemma {:induction false} LoopErrorStays(copy: Copy, s: seq<Conf>, n: nat)
    requires n <= |s| && LoopError(copy, s[..n]).Some?
    ensures LoopError(copy, s) == LoopError(copy, s[..n])
    decreases |s|
  {
    if n == |s| {
      assert s[..n] == s;
    } else {
      assert s[..|s| - 1][..n] == s[..n];
      LoopErrorStays(copy, s[..|s| - 1], n);
    }
  }

  ghost predicate DistinctObjects(s: seq<Range>) { forall i, j :: 0 <= i < j < |s| ==> s[i] != s[j] }

  function Views(s: seq<Range>): (v: seq<Conf>)
    reads s
    ensures |v| == |s| && forall i :: 0 <= i < |s| ==> v[i] == s[i].View()
  {
    seq(|s|, i requires 0 <= i < |s| reads s => s[i].View())
  }

  /** Canonicalize of a set: every range in place, then the family and overlap checks. */
  method CanonicalizeSet(copy: Copy, s: seq<Range>) returns (err: Option<Error>)
    requires DistinctObjects(s)
    modifies s
    ensures err == SetError(copy, old(Views(s)))
    ensures err.None? ==> Views(s) == CanonicalizedAll(copy, old(Views(s)))
  {
    if |s| == 0 { return Some(EmptySet); }
    err := CanonicalizeRanges(copy, s);
    if err.Some? { return err; }
    var overlap := FindOverlap(Views(s));
    return if overlap then Some(SubnetsOverlap) else None;
  }

  method CanonicalizeRanges(copy: Copy, s: seq<Range>) returns (err: Option<Error>)
    requires DistinctObjects(s) && s != []
    modifies s
    ensures err == LoopError(copy, old(Views(s)))
    ensures err.None? ==> Views(s) == CanonicalizedAll(copy, old(Views(s)))
  {
    ghost var before := Views(s);
    ghost var after := CanonicalizedAll(copy, before);
    var fam := 0;
    for i := 0 to |s|
      invariant DoneUpTo(s, i, before, after) && LoopError(copy, before[..i]).None?
      invariant i > 0 ==> fam == Len(after[0].start)
    {
      LoopStep(copy, before, i);
      err := CanonicalizeAt(copy, s, i, before);
      if err.Some? { return; }
      if i == 0 {
        fam := Len(s[0].rangeStart);
      } else if fam != Len(s[i].rangeStart) {
        return Some(MixedFamilies);
      }
    }
    assert before[..|s|] == before;
    return None;
  }

  /** The first `i` ranges have become what they are to be, the others are untouched. */
  ghost predicate DoneUpTo(s: seq<Range>, i: nat, before: seq<Conf>, after: seq<Conf>)
    reads s
  {
    && i <= |s| == |before| == |after|
    && (forall k :: 0 <= k < i ==> s[k].View() == after[k])
    && (forall k :: i <= k < |s| ==> s[k].View() == before[k])
  }

  /** What one round of the loop finds in a range. */
  function RoundError(copy: Copy, s: seq<Conf>, i: nat): Option<Error>
    requires i < |s|
  {
    var c := Canonicalized(copy, s[i]);
    if c.1.Some? then c.1
    else if Len(c.0.start) != Len(Canonicalized(copy, s[0]).0.start) then Some(MixedFamilies)
    else None
  }

  /** ... and what that means for the whole set if it stops here. */
  lemma LoopStep(copy: Copy, s: seq<Conf>, i: nat)
    requires i < |s| && LoopError(copy, s[..i]).None?
    ensures LoopError(copy, s[..i + 1]) == RoundError(copy, s, i)
    ensures RoundError(copy, s, i).Some? ==> LoopError(copy, s) == RoundError(copy, s, i)
    ensures CanonicalizedAll(copy, s)[0] == Canonicalized(copy, s[0]).0
  {
    LastRoundError(copy, s[..i + 1], s, i);
    CanonicalizedAt(copy, s, 0);
    if RoundError(copy, s, i).Some? { LoopErrorStays(copy, s, i + 1); }
  }

  lemma LastRoundError(copy: Copy, front: seq<Conf>, s: seq<Conf>, i: nat)
    requires i < |s| && front == s[..i + 1] && LoopError(copy, s[..i]).None?
    ensures LoopError(copy, front) == RoundError(copy, s, i)
  {
    assert front[..i] == s[..i] && front[0] == s[0] && front[i] == s[i];
  }

  /** One element, in terms of what becomes of the whole set. */
  method CanonicalizeAt(copy: Copy, s: seq<Range>, i: nat, ghost before: seq<Conf>) returns (err: Option<Error>)
    requires DistinctObjects(s) && i < |s| == |before| && s[i].View() == before[i]
    modifies s[i]
    ensures s[i].View() == CanonicalizedAll(copy, before)[i]
    ensures (s[i].View(), err) == Canonicalized(copy, before[i])
    ensures forall k :: 0 <= k < |s| && k != i ==> s[k].View() == old(s[k].View())
  {
    CanonicalizedAt(copy, before, i);
    err := s[i].Canonicalize(copy);
  }

  method FindOverlap(s: seq<Conf>) returns (found: bool)
    ensures found <==> !NoOverlaps(s)
  {
    for i := 0 to |s|
      invariant forall k, l :: 0 <= k < i && k < l < |s| ==> !s[k].Overlaps(s[l])
    {
      for j := i + 1 to |s|
        invariant forall l :: i < l < j ==> !s[i].Overlaps(s[l])
      {
        if s[i].Overlaps(s[j]) { return true; }
      }
    }
    return false;
  }

  // ---------- Disjointness ----------

  /** No two positions of the set contain the same address. */
  ghost predicate Disjoint(s: seq<Conf>) {
    forall i, j, a {:trigger s[i].Contains(a), s[j].Contains(a)} ::
      0 <= i < |s| && 0 <= j < |s| && s[i].Contains(a) && s[j].Contains(a) ==> i == j
  }

  predicate AllWellStarted(s: seq<Conf>) {
    forall i {:trigger s[i]} :: 0 <= i < |s| ==> WellStarted(s[i])
  }

  /** On well-started ranges the overlap test leaves a disjoint set. */
  lemma NoOverlapsIsDisjoint(s: seq<Conf>)
    requires AllWellStarted(s) && NoOverlaps(s)
    ensures Disjoint(s)
  {
    forall i, j, a | 0 <= i < |s| && 0 <= j < |s| && s[i].Contains(a) && s[j].Contains(a)
      ensures i == j
    {
      SharedIsFound(s[i], s[j], a);
    }
  }

  /** So RangeFor's answer is the only range that contains the address. */
  lemma RangeForIsUnique(s: seq<Conf>, addr: IP, k: nat)
    requires AllWellStarted(s) && NoOverlaps(s) && k < |s|
    ensures s[k].Contains(addr) <==> RangeFor(s, addr) == Some(k)
  {
    NoOverlapsIsDisjoint(s);
  }

  predicate AllReady(s: seq<Conf>) { forall i {:trigger s[i]} :: 0 <= i < |s| ==> Ready(s[i]) }

  /** On ranges that are not empty it finds nothing else: a set passes exactly if no address is in two ranges, ... */
  lemma NoOverlapsExactly(s: seq<Conf>)
    requires AllReady(s)
    ensures NoOverlaps(s) <==> Disjoint(s)
  {
    forall i | 0 <= i < |s| ensures WellStarted(s[i]) { SaneIsWellStarted(s[i]); }
    if NoOverlaps(s) { NoOverlapsIsDisjoint(s); }
    forall i, j | 0 <= i < j < |s| && s[i].Overlaps(s[j]) ensures !Disjoint(s) {
      OverlapsIsExact(s[i], s[j]);
      var a :| s[i].Contains(a) && s[j].Contains(a);
    }
  }

  /** ... and two sets overlap exactly if they share one. */
  lemma SetsOverlapExactly(s: seq<Conf>, t: seq<Conf>)
    requires AllReady(s) && AllReady(t)
    ensures SetsOverlap(s, t) <==> exists a :: SetContains(s, a) && SetContains(t, a)
  {
    if i, j :| 0 <= i < |s| && 0 <= j < |t| && s[i].Overlaps(t[j]) {
      OverlapsIsExact(s[i], t[j]);
      var a :| s[i].Contains(a) && t[j].Contains(a);
      assert SetContains(s, a) && SetContains(t, a);
    }
    if a :| SetContains(s, a) && SetContains(t, a) {
      OverlapsIsExact(s[RangeFor(s, a).value], t[RangeFor(t, a).value]);
    }
  }

  /** What Canonicalize of a set accepts, range by range. */
  lemma SetAcceptedExactly(copy: Copy, s: seq<Conf>)
    ensures SetAccepted(copy, s) <==>
            && s != []
            && (forall i :: 0 <= i < |s| ==> Canonicalized(copy, s[i]).1.None?)
            && (forall i :: 0 <= i < |s| ==> |Start(copy, s[i])| == |Start(copy, s[0])|)
            && forall i, j :: 0 <= i < j < |s| ==>
                 !Canonicalized(copy, s[i]).0.Overlaps(Canonicalized(copy, s[j]).0)
  {
    var c := CanonicalizedAll(copy, s);
    CanonicalizableExactly(copy, s);
    forall i | 0 <= i < |s| ensures c[i] == Canonicalized(copy, s[i]).0 { CanonicalizedAt(copy, s, i); }
    if AllCanonicalizable(copy, s) {
      forall i | 0 <= i < |s| ensures c[i].start == Some(Start(copy, s[i])) {
        CanonicalizedFields(copy, s[i]);
      }
    }
  }

  /** The start of the range once canonicalized. */
  function Start(copy: Copy, r: Conf): IP {
    var start := Canonicalized(copy, r).0.start;
    if start.Some? then start.value else []
  }

  lemma CanonicalizableExactly(copy: Copy, s: seq<Conf>)
    ensures AllCanonicalizable(copy, s) <==> forall i :: 0 <= i < |s| ==> Canonicalized(copy, s[i]).1.None?
  {
    if AllCanonicalizable(copy, s) {
      forall i | 0 <= i < |s| ensures Canonicalized(copy, s[i]).1.None? { CanonicalizedAt(copy, s, i); }
    } else {
      var i := NotCanonicalizable(copy, s);
    }
  }

  lemma {:induction false} NotCanonicalizable(copy: Copy, s: seq<Conf>) returns (i: nat)
    requires !AllCanonicalizable(copy, s)
    ensures i < |s| && Canonicalized(copy, s[i]).1.Some?
  {
    i := |s| - 1;
    if Canonicalized(copy, s[i]).1.None? { i := NotCanonicalizable(copy, s[..i]); }
  }
}
