/** backend/allocator/config.go, LoadIPAMConfig from decoded JSON on: assembling and validating the ranges. */
module Config {
  import opened Options
  import opened GoNet
  import opened Cidr
  import opened Network
  import opened Ranges
  import opened RangeSets

  /** The versions of the 0.2.0 result type, which has room for one address per family. */
  predicate IsVersion020(version: string) { version == "" || version == "0.1.0" || version == "0.2.0" }

  /** The decoded input: the "ipam" section's old-style range and range sets, the runtime ranges, the
      addresses requested through the environment and the args, and the CNI version. */
  datatype Net = Net(single: Option<Conf>, ranges: seq<seq<Conf>>, runtime: seq<seq<Conf>>,
                     envIP: Option<IP>, argIPs: seq<IP>, version: string)

  datatype IPAMConfig = IPAMConfig(ranges: seq<seq<Conf>>, ipArgs: seq<IP>)

  datatype LoadResult = Loaded(config: IPAMConfig) | Refused(error: Error)

  /** Runtime ranges come first, then the old-style range (if it has a subnet), then the configured sets. */
  function Assembled(net: Net): seq<seq<Conf>> {
    net.runtime
    + (if net.single.Some? && net.single.value.subnetIP != [] then [[net.single.value]] else [])
    + net.ranges
  }

  function Requested(net: Net): seq<IP> {
    (if net.envIP.Some? then [net.envIP.value] else []) + net.argIPs
  }

  /** The requested addresses in standard form, if they all have one. */
  function Canons(ips: seq<IP>): (r: Option<seq<IP>>)
    ensures r.Some? ==> |r.value| == |ips|
  {
    if ips == [] then Some([])
    else
      var init, last := Canons(ips[..|ips| - 1]), Canon(ips[|ips| - 1]);
      if init.Some? && last.Some? then Some(init.value + [last.value]) else None
  }

  function CanonicalizedSets(copy: Copy, sets: seq<seq<Conf>>): (c: seq<seq<Conf>>)
    ensures |c| == |sets|
  {
    if sets == [] then []
    else CanonicalizedSets(copy, sets[..|sets| - 1]) + [CanonicalizedAll(copy, sets[|sets| - 1])]
  }

  predicate AllSetsAccepted(copy: Copy, sets: seq<seq<Conf>>) {
    sets == [] || (AllSetsAccepted(copy, sets[..|sets| - 1]) && SetAccepted(copy, sets[|sets| - 1]))
  }

  lemma {:induction false} CanonicalizedSetsAt(copy: Copy, sets: seq<seq<Conf>>, i: nat)
    requires i < |sets|
    ensures CanonicalizedSets(copy, sets)[i] == CanonicalizedAll(copy, sets[i])
    ensures CanonicalizedSets(copy, sets)[..i] == CanonicalizedSets(copy, sets[..i])
    ensures AllSetsAccepted(copy, sets) ==> SetAccepted(copy, sets[i])
  {
    if i < |sets| - 1 {
      CanonicalizedSetsAt(copy, sets[..|sets| - 1], i);
      assert sets[..|sets| - 1][..i] == sets[..i];
    }
  }

  predicate IsV4Set(s: seq<Conf>) { s != [] && s[0].start.Some? && To4(s[0].start.value).Some? }

  function CountV4(sets: seq<seq<Conf>>): nat {
    if sets == [] then 0 else CountV4(sets[..|sets| - 1]) + (if IsV4Set(sets[|sets| - 1]) then 1 else 0)
  }

  predicate NoSetsOverlap(sets: seq<seq<Conf>>) {
    forall i, j :: 0 <= i < j < |sets| ==> !SetsOverlap(sets[i], sets[j])
  }

  predicate FamiliesFit(sets: seq<seq<Conf>>, version: string) {
    IsVersion020(version) ==> CountV4(sets) <= 1 && |sets| - CountV4(sets) <= 1
  }

  predicate SetsAccepted(copy: Copy, sets: seq<seq<Conf>>, version: string) {
    && AllSetsAccepted(copy, sets)
    && FamiliesFit(CanonicalizedSets(copy, sets), version)
    && NoSetsOverlap(CanonicalizedSets(copy, sets))
  }

  predicate ConfigAccepted(copy: Copy, net: Net) {
    && Canons(Requested(net)).Some?
    && Assembled(net) != []
    && SetsAccepted(copy, Assembled(net), net.version)
  }

  /** The first set that is refused, and why. */
  function SetsError(copy: Copy, sets: seq<seq<Conf>>): Option<Error> {
    if sets == [] then None
    else
      var e := SetsError(copy, sets[..|sets| - 1]);
      if e.Some? then e else SetError(copy, sets[|sets| - 1])
  }

  function ValidationError(copy: Copy, sets: seq<seq<Conf>>, version: string): Option<Error> {
    if SetsError(copy, sets).Some? then SetsError(copy, sets)
    else if !FamiliesFit(CanonicalizedSets(copy, sets), version) then Some(TooManyPerFamily)
    else if !NoSetsOverlap(CanonicalizedSets(copy, sets)) then Some(RangeSetsOverlap)
    else None
  }

  function LoadError(copy: Copy, net: Net): Option<Error> {
    if Canons(Requested(net)).None? then Some(NotV4NorV6)
    else if Assembled(net) == [] then Some(NoRanges)
    else ValidationError(copy, Assembled(net), net.version)
  }

  lemma {:induction false} SetsErrorNone(copy: Copy, sets: seq<seq<Conf>>)
    ensures SetsError(copy, sets).None? <==> AllSetsAccepted(copy, sets)
  {
    if sets != [] {
      SetsErrorNone(copy, sets[..|sets| - 1]);
      SetErrorNone(copy, sets[|sets| - 1]);
    }
  }

  lemma LoadErrorNone(copy: Copy, net: Net)
    ensures LoadError(copy, net).None? <==> ConfigAccepted(copy, net)
  {
    SetsErrorNone(copy, Assembled(net));
  }

  lemma {:induction false} SetsErrorStays(copy: Copy, sets: seq<seq<Conf>>, n: nat)
    requires n <= |sets| && SetsError(copy, sets[..n]).Some?
    ensures SetsError(copy, sets) == SetsError(copy, sets[..n])
    decreases |sets|
  {
    if n == |sets| {
      assert sets[..n] == sets;
    } else {
      assert sets[..|sets| - 1][..n] == sets[..n];
      SetsErrorStays(copy, sets[..|sets| - 1], n);
    }
  }

  method LoadIPAMConfig(copy: Copy, net: Net) returns (r: LoadResult)
    ensures r.Loaded? <==> ConfigAccepted(copy, net)
    ensures r.Refused? ==> Some(r.error) == LoadError(copy, net)
    ensures r.Loaded? ==> r.config.ranges == CanonicalizedSets(copy, Assembled(net))
                          && Some(r.config.ipArgs) == Canons(Requested(net))
  {
    LoadErrorNone(copy, net);
    var ipArgs := [];
    if net.envIP.Some? { ipArgs := [net.envIP.value]; }
    ipArgs := ipArgs + net.argIPs;
    var ips := CanonicalizeIPs(ipArgs);
    if ips.None? { return Refused(NotV4NorV6); }

    var ranges := net.ranges;
    if net.single.Some? && net.single.value.subnetIP != [] { ranges := [[net.single.value]] + ranges; }
    if |net.runtime| > 0 { ranges := net.runtime + ranges; }
    if |ranges| == 0 { return Refused(NoRanges); }
    assert ranges == Assembled(net);

    var err;
    err, ranges := ValidateRanges(copy, ranges, net.version);
    if err.Some? { return Refused(err.value); }
    return Loaded(IPAMConfig(ranges, ips.value));
  }

  /** The checks on the assembled sets. */
  method ValidateRanges(copy: Copy, sets: seq<seq<Conf>>, version: string)
    returns (err: Option<Error>, ranges: seq<seq<Conf>>)
    ensures err == ValidationError(copy, sets, version)
    ensures err.None? ==> ranges == CanonicalizedSets(copy, sets)
  {
    var numV4, numV6;
    err, ranges, numV4, numV6 := ValidateSets(copy, sets);
    if err.Some? { return; }
    if (numV4 > 1 || numV6 > 1) && IsVersion020(version) { return Some(TooManyPerFamily), ranges; }
    var overlap := FindSetOverlap(ranges);
    err := if overlap then Some(RangeSetsOverlap) else None;
  }

  method CanonicalizeIPs(ips: seq<IP>) returns (r: Option<seq<IP>>)
    ensures r == Canons(ips)
  {
    var out := [];
    for i := 0 to |ips|
      invariant Canons(ips[..i]) == Some(out)
    {
      var c := Canon(ips[i]);
      assert ips[..i + 1][..i] == ips[..i];
      if c.None? {
        CanonsPrefix(ips, i + 1);
        return None;
      }
      out := out + [c.value];
    }
    assert ips[..|ips|] == ips;
    return Some(out);
  }

  lemma {:induction false} CanonsPrefix(ips: seq<IP>, n: nat)
    requires n <= |ips| && Canons(ips[..n]).None?
    ensures Canons(ips).None?
    decreases |ips|
  {
    if n < |ips| {
      assert ips[..|ips| - 1][..n] == ips[..n];
      CanonsPrefix(ips[..|ips| - 1], n);
    } else {
      assert ips[..n] == ips;
    }
  }

  /** The first `i` sets have been canonicalized in place, and their families counted. */
  predicate Validated(copy: Copy, sets: seq<seq<Conf>>, ranges: seq<seq<Conf>>, i: nat, numV4: nat, numV6: nat)
    requires i <= |sets|
  {
    && |ranges| == |sets| && ranges[i..] == sets[i..]
    && SetsError(copy, sets[..i]).None?
    && ranges[..i] == CanonicalizedSets(copy, sets[..i])
    && numV4 == CountV4(ranges[..i]) && numV4 + numV6 == i
  }

  lemma ValidatedStep(copy: Copy, sets: seq<seq<Conf>>, ranges: seq<seq<Conf>>, i: nat, numV4: nat, numV6: nat)
    requires i < |sets| && Validated(copy, sets, ranges, i, numV4, numV6) && SetError(copy, sets[i]).None?
    ensures var c := CanonicalizedAll(copy, sets[i]);
      Validated(copy, sets, ranges[i := c], i + 1,
                if IsV4Set(c) then numV4 + 1 else numV4, if IsV4Set(c) then numV6 else numV6 + 1)
  {
    var c := CanonicalizedAll(copy, sets[i]);
    var next := ranges[i := c];
    assert sets[..i + 1][..i] == sets[..i];
    assert next[..i + 1] == ranges[..i] + [c] && next[..i + 1][..i] == ranges[..i];
    assert next[i + 1..] == ranges[i..][1..] && sets[i + 1..] == sets[i..][1..];
  }

  /** Canonicalizes every set in turn and counts the families. */
  method ValidateSets(copy: Copy, sets: seq<seq<Conf>>)
    returns (err: Option<Error>, ranges: seq<seq<Conf>>, numV4: nat, numV6: nat)
    ensures err == SetsError(copy, sets)
    ensures err.None? ==> ranges == CanonicalizedSets(copy, sets)
    ensures err.None? ==> numV4 == CountV4(ranges) && numV4 + numV6 == |ranges|
  {
    ranges, numV4, numV6 := sets, 0, 0;
    for i := 0 to |sets|
      invariant Validated(copy, sets, ranges, i, numV4, numV6)
    {
      err, ranges, numV4, numV6 := ValidateNext(copy, sets, ranges, i, numV4, numV6);
      if err.Some? { return; }
    }
    assert sets[..|sets|] == sets && ranges[..|sets|] == ranges;
    err := None;
  }

  /** One round of the loop: the set's own Canonicalize, and its family's count. */
  method ValidateNext(copy: Copy, ghost sets: seq<seq<Conf>>, ranges: seq<seq<Conf>>, i: nat, numV4: nat, numV6: nat)
    returns (err: Option<Error>, ranges': seq<seq<Conf>>, numV4': nat, numV6': nat)
    requires i < |sets| && Validated(copy, sets, ranges, i, numV4, numV6)
    ensures err.None? ==> Validated(copy, sets, ranges', i + 1, numV4', numV6')
    ensures err.Some? ==> err == SetsError(copy, sets)
  {
    ranges', numV4', numV6' := ranges, numV4, numV6;
    assert ranges[i] == ranges[i..][0] == sets[i];
    var c;
    err, c := ValidateSet(copy, ranges[i]);
    if err.Some? {
      assert sets[..i + 1][..i] == sets[..i];
      SetsErrorStays(copy, sets, i + 1);
      return;
    }
    ValidatedStep(copy, sets, ranges, i, numV4, numV6);
    ranges' := ranges[i := c];
    if IsV4Set(c) { numV4' := numV4 + 1; } else { numV6' := numV6 + 1; }
  }

  /** RangeSet.Canonicalize on one set of the slice. */
  method ValidateSet(copy: Copy, s: seq<Conf>) returns (err: Option<Error>, c: seq<Conf>)
    ensures err == SetError(copy, s)
    ensures err.None? ==> c == CanonicalizedAll(copy, s)
  {
    var objects := Allocate(s);
    assert Views(objects) == s;
    err := CanonicalizeSet(copy, objects);
    c := Views(objects);
  }

  method Allocate(s: seq<Conf>) returns (objects: seq<Range>)
    ensures fresh(objects) && DistinctObjects(objects) && |objects| == |s|
    ensures forall i :: 0 <= i < |s| ==> objects[i].View() == s[i]
  {
    objects := [];
    for i := 0 to |s|
      invariant fresh(objects) && DistinctObjects(objects) && |objects| == i
      invariant forall k :: 0 <= k < i ==> objects[k].View() == s[k]
    {
      var r := new Range(s[i]);
      objects := objects + [r];
    }
  }

  method FindSetOverlap(sets: seq<seq<Conf>>) returns (found: bool)
    ensures found <==> !NoSetsOverlap(sets)
  {
    for i := 0 to |sets|
      invariant forall k, l :: 0 <= k < i && k < l < |sets| ==> !SetsOverlap(sets[k], sets[l])
    {
      for j := i + 1 to |sets|
        invariant forall l :: i < l < j ==> !SetsOverlap(sets[i], sets[l])
      {
        if SetsOverlap(sets[i], sets[j]) { return true; }
      }
    }
    return false;
  }

  // ---------- What is loaded, and from where ----------

  predicate HasSingle(net: Net) { net.single.Some? && net.single.value.subnetIP != [] }

  /** A loaded configuration has the canonical runtime sets, then that of the old-style range, if it has a subnet,
      then the configured ones. */
  lemma LoadedInOrder(copy: Copy, net: Net, ranges: seq<seq<Conf>>)
    requires ConfigAccepted(copy, net) && ranges == CanonicalizedSets(copy, Assembled(net))
    ensures |ranges| == |net.runtime| + (if HasSingle(net) then 1 else 0) + |net.ranges|
    ensures forall i :: 0 <= i < |net.runtime| ==> ranges[i] == CanonicalizedAll(copy, net.runtime[i])
    ensures HasSingle(net) ==> ranges[|net.runtime|] == [Canonicalized(copy, net.single.value).0]
    ensures forall i :: 0 <= i < |net.ranges| ==>
              ranges[|ranges| - |net.ranges| + i] == CanonicalizedAll(copy, net.ranges[i])
  {
    var sets := Assembled(net);
    forall i | 0 <= i < |sets| ensures ranges[i] == CanonicalizedAll(copy, sets[i]) {
      CanonicalizedSetsAt(copy, sets, i);
    }
    if HasSingle(net) { OnlyRangeCanonicalized(copy, net.single.value); }
  }

  lemma OnlyRangeCanonicalized(copy: Copy, r: Conf)
    ensures CanonicalizedAll(copy, [r]) == [Canonicalized(copy, r).0]
    ensures SetError(copy, [r]) == Canonicalized(copy, r).1
  {
    assert [r][..0] == [];
    assert CanonicalizedAll(copy, [r][..0]) == [] && LoopError(copy, [r][..0]).None?;
  }

  /** The requested addresses are those of the environment first and then those of the args, in standard form. */
  lemma LoadedAddresses(net: Net, ips: seq<IP>)
    ensures Canons(Requested(net)) == Some(ips) <==>
            var env := if net.envIP.Some? then 1 else 0;
            && |ips| == env + |net.argIPs|
            && (net.envIP.Some? ==> Canon(net.envIP.value) == Some(ips[0]))
            && forall i :: 0 <= i < |net.argIPs| ==> Canon(net.argIPs[i]) == Some(ips[env + i])
  {
    CanonsExactly(Requested(net), ips);
    if net.envIP.None? {
      assert Requested(net) == net.argIPs;
    } else {
      assert Requested(net) == [net.envIP.value] + net.argIPs;
      if |ips| == 1 + |net.argIPs| { FrontAndRest(net.envIP.value, net.argIPs, ips); }
    }
  }

  lemma FrontAndRest(ip: IP, rest: seq<IP>, out: seq<IP>)
    requires |out| == 1 + |rest|
    ensures (forall i :: 0 <= i <= |rest| ==> Canon(([ip] + rest)[i]) == Some(out[i])) <==>
            Canon(ip) == Some(out[0]) && forall i :: 0 <= i < |rest| ==> Canon(rest[i]) == Some(out[1 + i])
  {
    var all := [ip] + rest;
    assert forall i :: 0 <= i < |rest| ==> all[1 + i] == rest[i];
    assert forall i :: 0 < i <= |rest| ==> all[i] == rest[i - 1];
  }

  lemma {:induction false} CanonsExactly(ips: seq<IP>, out: seq<IP>)
    ensures Canons(ips) == Some(out) <==>
            |out| == |ips| && forall i :: 0 <= i < |ips| ==> Canon(ips[i]) == Some(out[i])
  {
    if ips != [] {
      var n := |ips| - 1;
      if |out| == |ips| {
        CanonsExactly(ips[..n], out[..n]);
        assert out == out[..n] + [out[n]];
        assert forall i :: 0 <= i < n ==> ips[..n][i] == ips[i] && out[..n][i] == out[i];
      }
      if Canons(ips) == Some(out) { assert out[..n] == Canons(ips[..n]).value; }
    }
  }

  /** No ranges is the error exactly if there are none of any kind (and the requested addresses parse). */
  lemma NoRangesExactly(copy: Copy, net: Net)
    ensures LoadError(copy, net) == Some(NoRanges) <==>
            Canons(Requested(net)).Some? && net.runtime == [] && !HasSingle(net) && net.ranges == []
  {
    SetsErrorKinds(copy, Assembled(net));
    assert Assembled(net) == [] <==> net.runtime == [] && !HasSingle(net) && net.ranges == [];
  }

  lemma {:induction false} SetsErrorKinds(copy: Copy, sets: seq<seq<Conf>>)
    ensures SetsError(copy, sets) != Some(NoRanges)
  {
    if sets != [] {
      SetsErrorKinds(copy, sets[..|sets| - 1]);
      LoopErrorKinds(copy, sets[|sets| - 1]);
    }
  }

  lemma {:induction false} LoopErrorKinds(copy: Copy, s: seq<Conf>)
    ensures LoopError(copy, s) != Some(NoRanges)
  {
    if s != [] { LoopErrorKinds(copy, s[..|s| - 1]); }
  }

  /** An old-style range alone is a configuration, accepted exactly if the range is. */
  lemma SingleAlone(copy: Copy, r: Conf, version: string)
    requires r.subnetIP != []
    ensures LoadError(copy, Net(Some(r), [], [], None, [], version)) == Canonicalized(copy, r).1
  {
    assert Assembled(Net(Some(r), [], [], None, [], version)) == [[r]];
    OneSetValidated(copy, [r], version);
    OnlyRangeCanonicalized(copy, r);
  }

  lemma OneSetValidated(copy: Copy, s: seq<Conf>, version: string)
    ensures ValidationError(copy, [s], version) == SetError(copy, s)
  {
    var none, c: seq<seq<Conf>> := [s][..0], [CanonicalizedAll(copy, s)];
    assert none == [] && c[..0] == [];
    assert SetsError(copy, none).None? && CanonicalizedSets(copy, none) == [];
    assert CanonicalizedSets(copy, [s]) == c;
    assert CountV4(c[..0]) == 0;
  }

  /** For CNI 0.2.0 and before at most one set of each family, for later versions any number. */
  lemma FamiliesFitExactly(sets: seq<seq<Conf>>, version: string)
    requires forall i {:trigger sets[i]} :: 0 <= i < |sets| ==> sets[i] != [] && sets[i][0].start.Some?
    ensures FamiliesFit(sets, version) <==>
            (version in {"", "0.1.0", "0.2.0"} ==>
               forall i, j :: 0 <= i < j < |sets| ==>
                 To4(sets[i][0].start.value).Some? != To4(sets[j][0].start.value).Some?)
  {
    CountAtMostOne(sets, true);
    CountAtMostOne(sets, false);
  }

  function CountFamily(sets: seq<seq<Conf>>, v4: bool): nat {
    if v4 then CountV4(sets) else if CountV4(sets) <= |sets| then |sets| - CountV4(sets) else 0
  }

  lemma {:induction false} CountAtMostOne(sets: seq<seq<Conf>>, v4: bool)
    ensures CountV4(sets) <= |sets|
    ensures CountFamily(sets, v4) == 0 <==> forall i :: 0 <= i < |sets| ==> IsV4Set(sets[i]) != v4
    ensures CountFamily(sets, v4) <= 1 <==>
            forall i, j :: 0 <= i < j < |sets| ==> !(IsV4Set(sets[i]) == v4 && IsV4Set(sets[j]) == v4)
  {
    if sets != [] {
      var init := sets[..|sets| - 1];
      CountAtMostOne(init, v4);
      assert forall i :: 0 <= i < |init| ==> init[i] == sets[i];
    }
  }

  // ---------- Every address belongs to at most one range of one set ----------

  /** After LoadIPAMConfig accepts, two ranges with regular starts that contain a common address are the same
      range of the same set. */
  lemma ConfigIsDisjoint(copy: Copy, net: Net, ranges: seq<seq<Conf>>, i: nat, k: nat, j: nat, l: nat, a: IP)
    requires ConfigAccepted(copy, net) && ranges == CanonicalizedSets(copy, Assembled(net))
    requires i < |ranges| && k < |Assembled(net)[i]| && RegularStart(Assembled(net)[i][k])
    requires j < |ranges| && l < |Assembled(net)[j]| && RegularStart(Assembled(net)[j][l])
    requires k < |ranges[i]| && ranges[i][k].Contains(a) && l < |ranges[j]| && ranges[j][l].Contains(a)
    ensures i == j && k == l
  {
    var sets := Assembled(net);
    RangeInConfig(copy, sets, i, k);
    RangeInConfig(copy, sets, j, l);
    SharedIsFound(ranges[i][k], ranges[j][l], a);
    if i != j { SetsApartAt(ranges, i, k, j, l); }
  }

  /** What is known of one range of an accepted configuration. */
  lemma RangeInConfig(copy: Copy, sets: seq<seq<Conf>>, i: nat, k: nat)
    requires AllSetsAccepted(copy, sets) && i < |sets| && k < |sets[i]|
    ensures var c := CanonicalizedSets(copy, sets)[i];
      && |c| == |sets[i]| && NoOverlaps(c)
      && c[k] == Canonicalized(copy, sets[i][k]).0 && Canonicalized(copy, sets[i][k]).1.None?
      && (WellStarted(c[k]) <==> RegularStart(sets[i][k]))
  {
    CanonicalizedSetsAt(copy, sets, i);
    CanonicalizedAt(copy, sets[i], k);
    CanonicalizedIsWellStarted(copy, sets[i][k]);
  }

  lemma SetsApartAt(ranges: seq<seq<Conf>>, i: nat, k: nat, j: nat, l: nat)
    requires NoSetsOverlap(ranges) && i < |ranges| && j < |ranges| && i != j && k < |ranges[i]| && l < |ranges[j]|
    ensures !ranges[i][k].Overlaps(ranges[j][l]) || !ranges[j][l].Overlaps(ranges[i][k])
  {
    if i < j {
      assert !SetsOverlap(ranges[i], ranges[j]);
    } else {
      assert !SetsOverlap(ranges[j], ranges[i]);
    }
  }

  // ---------- An irregular start is never safe ----------

  /** A range of one address in the subnet of `r`, which every copy accepts. */
  function OnlyAddress(r: Conf, a: IP): Conf { Conf(r.subnetIP, r.mask, Some(a), Some(a), Some(a)) }

  lemma OnlyAddressAccepted(copy: Copy, r: Conf, a: IP)
    requires Canonicalized(copy, r).1.None? && IsCanonical(a) && Canonicalized(copy, r).0.Contains(a)
    ensures var c, b := Canonicalized(copy, r).0, Canonicalized(copy, OnlyAddress(r, a));
      b == (OnlyAddress(c, a), None) && b.0.Contains(a)
  {
    CanonicalizedFields(copy, r);
  }

  function TwoSets(r: Conf, b: Conf): Net { Net(None, [[r], [b]], [], None, [], "0.4.0") }

  lemma SingletonAccepted(copy: Copy, r: Conf)
    requires Canonicalized(copy, r).1.None?
    ensures SetAccepted(copy, [r]) && CanonicalizedAll(copy, [r]) == [Canonicalized(copy, r).0]
  {
    assert [r][..0] == [];
    assert CanonicalizedAll(copy, [r][..0]) == [] && AllCanonicalizable(copy, [r][..0]);
  }

  lemma PairOfSets(copy: Copy, s: seq<Conf>, t: seq<Conf>)
    ensures CanonicalizedSets(copy, [s, t]) == [CanonicalizedAll(copy, s), CanonicalizedAll(copy, t)]
    ensures AllSetsAccepted(copy, [s, t]) <==> SetAccepted(copy, s) && SetAccepted(copy, t)
  {
    assert [s, t][..1] == [s] && [s][..0] == [];
    assert CanonicalizedSets(copy, [s]) == [CanonicalizedAll(copy, s)];
    assert AllSetsAccepted(copy, [s]) <==> SetAccepted(copy, s);
  }

  lemma TwoSetsAccepted(copy: Copy, r: Conf, b: Conf)
    requires Canonicalized(copy, r).1.None? && Canonicalized(copy, b).1.None?
    requires !Canonicalized(copy, r).0.Overlaps(Canonicalized(copy, b).0)
    ensures ConfigAccepted(copy, TwoSets(r, b))
    ensures CanonicalizedSets(copy, Assembled(TwoSets(r, b))) ==
            [[Canonicalized(copy, r).0], [Canonicalized(copy, b).0]]
  {
    SingletonAccepted(copy, r);
    SingletonAccepted(copy, b);
    PairOfSets(copy, [r], [b]);
    assert Assembled(TwoSets(r, b)) == [[r], [b]];
    assert !SetsOverlap([Canonicalized(copy, r).0], [Canonicalized(copy, b).0]);
  }

  /** So the condition of `ConfigIsDisjoint` cannot be dropped for any range: one with an irregular start that
      contains some address is accepted together with another that contains it too. */
  lemma IrregularIsUnsafe(copy: Copy, r: Conf, a: IP)
    requires Canonicalized(copy, r).1.None? && !RegularStart(r)
    requires IsCanonical(a) && Canonicalized(copy, r).0.Contains(a)
    ensures var net := TwoSets(r, OnlyAddress(r, a));
      && ConfigAccepted(copy, net)
      && var ranges := CanonicalizedSets(copy, Assembled(net));
         |ranges| == 2 && SetContains(ranges[0], a) && SetContains(ranges[1], a)
  {
    var c, b := Canonicalized(copy, r).0, OnlyAddress(r, a);
    CanonicalizedFields(copy, r);
    CanonIsCanonical(r.subnetIP);
    RegularNext(c.subnetIP);
    OnlyAddressAccepted(copy, r, a);
    TwoSetsAccepted(copy, r, b);
  }

  /** Past 255.255.255.255 lie five bytes, no address, which count as the number 0. */
  lemma NextOfAllOnes(ip: IP)
    requires |ip| == 4 && AllOnes(ip)
    ensures |NextIP(ip)| == 5 && IpToInt(NextIP(ip)) == 0
  {
    var n := 8 * |ip|;
    ValueOfAllOnes(ip);
    Pow2Monotone(n + 1, n + 8);
    assert Pow2(n) < Pow2(n + 1);
    LengthOfBytes(Value(ip) + 1, |ip| + 1);
  }

  /** 255.255.255.255/24 is such a range in kube-ipam's copy: its default start has five bytes, which count as
      another family and as the number 0. */
  lemma KubeIpamSharesAddress()
    ensures var r, a := Conf([255, 255, 255, 255], [255, 255, 255, 0], None, None, None), [255, 255, 255, 15];
      && ConfigAccepted(KubeIpam, TwoSets(r, OnlyAddress(r, a)))
      && var ranges := CanonicalizedSets(KubeIpam, Assembled(TwoSets(r, OnlyAddress(r, a))));
         |ranges| == 2 && SetContains(ranges[0], a) && SetContains(ranges[1], a)
  {
    var r := Conf([255, 255, 255, 255], [255, 255, 255, 0], None, None, None);
    var a: IP := [255, 255, 255, 15];
    AllOnesSubnetContains(r, a);
    IrregularIsUnsafe(KubeIpam, r, a);
  }

  /** 64:ff9b::/96 is one in host-local's copy too: its address begins with a zero byte, so that its default start
      has fifteen bytes. */
  lemma HostLocalSharesAddress()
    ensures var r, a := Conf(Nat64(0), SlashNinetySix(), None, None, None), Nat64(10);
      && ConfigAccepted(HostLocal, TwoSets(r, OnlyAddress(r, a)))
      && var ranges := CanonicalizedSets(HostLocal, Assembled(TwoSets(r, OnlyAddress(r, a))));
         |ranges| == 2 && SetContains(ranges[0], a) && SetContains(ranges[1], a)
  {
    var r := Conf(Nat64(0), SlashNinetySix(), None, None, None);
    Nat64Accepted(r);
    Nat64Contains(r);
    IrregularIsUnsafe(HostLocal, r, Nat64(10));
  }

  /** 64:ff9b::n */
  function Nat64(n: Byte): IP { [0, 0x64, 0xff, 0x9b, 0, 0, 0, 0, 0, 0, 0, 0, 0, 0, 0, n] }

  function SlashNinetySix(): seq<Byte> { seq(12, _ => 255) + seq(4, _ => 0) }

  lemma {:induction false} FullMaskBytes(n: nat, z: nat)
    requires n + z > 0
    ensures MaskOnes(seq(n, _ => 255) + seq(z, _ => 0)) == Some(8 * n)
  {
    var m: seq<Byte> := seq(n, _ => 255) + seq(z, _ => 0);
    if n > 0 {
      assert m[1..] == seq(n - 1, _ => 255) + seq(z, _ => 0);
      if n + z > 1 { FullMaskBytes(n - 1, z); }
    }
  }

  lemma Nat64Network(n: Byte)
    ensures Masked(Nat64(n), SlashNinetySix()) == Nat64(0)
    ensures NetContains(Nat64(0), SlashNinetySix(), Nat64(n))
  {
    var mask := SlashNinetySix();
    forall i | 0 <= i < 16
      ensures AndByte(Nat64(n)[i], mask[i]) == Nat64(0)[i] == AndByte(Nat64(0)[i], mask[i])
    {
      FullByte(Nat64(n)[i]);
      FullByte(Nat64(0)[i]);
    }
  }

  lemma Nat64Accepted(r: Conf)
    requires r == Conf(Nat64(0), SlashNinetySix(), None, None, None)
    ensures Canonicalized(HostLocal, r) ==
            (r.(start := Some(NextIP(r.subnetIP)), end := Some(LastIP(r.subnetIP, r.mask)),
                gateway := Some(NextIP(r.subnetIP))), None)
    ensures !RegularStart(r)
  {
    FullMaskBytes(12, 4);
    Nat64Network(0);
    DefaultsAccepted(r);
    assert r.subnetIP[1..][0] == 0x64;
  }

  lemma DefaultsAccepted(r: Conf)
    requires IsCanonical(r.subnetIP) && |r.mask| == |r.subnetIP| && RoomForHosts(r.mask)
    requires Masked(r.subnetIP, r.mask) == r.subnetIP && r.start.None? && r.end.None? && r.gateway.None?
    ensures Canonicalized(HostLocal, r) ==
            (r.(start := Some(NextIP(r.subnetIP)), end := Some(LastIP(r.subnetIP, r.mask)),
                gateway := Some(NextIP(r.subnetIP))), None)
  {
  }

  /** The default start of such a subnet counts as a number that is no higher than the next one, ... */
  lemma ShortStart(sip: IP)
    requires IsCanonical(sip) && !NextKeepsLength(sip)
    ensures IpToInt(NextIP(sip)) <= IpToInt(sip) + 1
  {
    RegularNext(sip);
    ValueOfBytes(IpToInt(sip) + 1);
  }

  /** ... and its default end as the highest one. */
  lemma LastOfIPv6(sip: IP, mask: seq<Byte>)
    requires |sip| == |mask| == 16 && sip[1] != 0
    ensures To4(LastIP(sip, mask)).None? && IpToInt(LastIP(sip, mask)) == Value(Highest(sip, mask))
  {
    Pow2Of8();
    OrAtLeast(8, sip[1], NotByte(mask[1]));
    assert Highest(sip, mask)[1] > 0;
  }

  lemma ShortStartContains(r: Conf, a: IP)
    requires |r.subnetIP| == |r.mask| == 16 && r.subnetIP[1] != 0 && MaskOnes(r.mask).Some?
    requires IsCanonical(r.subnetIP) && !NextKeepsLength(r.subnetIP)
    requires r.start == Some(NextIP(r.subnetIP)) && r.end == Some(LastIP(r.subnetIP, r.mask))
    requires IsCanonical(a) && NetContains(r.subnetIP, r.mask, a) && Value(a) > IpToInt(r.subnetIP)
    ensures r.Contains(a)
  {
    ShortStart(r.subnetIP);
    LastOfIPv6(r.subnetIP, r.mask);
    NetContainsIsInNetwork(r, a);
  }

  lemma Nat64Contains(r: Conf)
    requires r == Conf(Nat64(0), SlashNinetySix(), None, None, None)
    ensures Canonicalized(HostLocal, r).0.Contains(Nat64(10))
  {
    Nat64Accepted(r);
    FullMaskBytes(12, 4);
    Nat64Network(10);
    Nat64Order();
    assert Nat64(0)[1..][0] == 0x64;
    ShortStartContains(Canonicalized(HostLocal, r).0, Nat64(10));
  }

  lemma Nat64Order()
    ensures Value(Nat64(10)) == Value(Nat64(0)) + 10
  {
    assert Nat64(10)[..15] == Nat64(0)[..15];
  }

  lemma AllOnesSubnetContains(r: Conf, a: IP)
    requires r == Conf([255, 255, 255, 255], [255, 255, 255, 0], None, None, None) && a == [255, 255, 255, 15]
    ensures Canonicalized(KubeIpam, r).1.None? && Canonicalized(KubeIpam, r).0.Contains(a) && !RegularStart(r)
  {
    SlashTwentyFour();
    assert a[..3] == r.subnetIP[..3];
    NextOfAllOnes(r.subnetIP);
    InSlashTwentyFour(r.subnetIP, r.mask, a);
    LastOfSlashTwentyFour(r.subnetIP, r.mask, a);
  }

  lemma LastOfSlashTwentyFour(sip: IP, mask: seq<Byte>, a: IP)
    requires |sip| == 4 && |a| == 4 && mask == [255, 255, 255, 0] && a[..3] == sip[..3]
    ensures LastIP(sip, mask)[..3] == sip[..3] && LastIP(sip, mask)[3] == 254
    ensures a[3] <= 254 ==> Value(a) <= Value(LastIP(sip, mask))
  {
    BroadcastOfSlashTwentyFour(sip, mask);
    assert LastIP(sip, mask)[..3] == sip[..3];
  }
}
