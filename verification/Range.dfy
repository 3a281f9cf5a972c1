/**
 backend/allocator/range.go and its host-local copy. `Conf` is the value of a Range; class `Range` is the
 record whose fields Canonicalize fills in. A nil IP is None.
 */
module Ranges {
  import opened Options
  import opened GoNet
  import opened Cidr
  import opened Network

  datatype Error =
    | NotV4NorV6 | TooSmall | VersionMismatch | HostBitsSet | GatewayOutside | StartOutside | EndOutside
    | EmptySet | MixedFamilies | SubnetsOverlap | NoRanges | TooManyPerFamily | RangeSetsOverlap

  /** The two copies of range.go: only kube-ipam's checks the gateway, only host-local's the host bits. */
  datatype Copy = KubeIpam | HostLocal

  function Len(ip: Option<IP>): nat { if ip.Some? then |ip.value| else 0 }

  datatype Conf = Conf(subnetIP: IP, mask: seq<Byte>, start: Option<IP>, end: Option<IP>, gateway: Option<IP>) {
    predicate Contains(addr: IP) {
      match Canon(addr)
      case None => false
      case Some(a) =>
        && |a| == |subnetIP|
        && NetContains(subnetIP, mask, a)
        && (start.Some? ==> Cmp(a, start.value) >= 0)
        && (end.Some? ==> Cmp(a, end.value) <= 0)
    }

    predicate Holds(addr: Option<IP>) { addr.Some? && Contains(addr.value) }

    predicate Overlaps(other: Conf) {
      Len(start) == Len(other.start) &&
      (Holds(other.start) || Holds(other.end) || other.Holds(start) || other.Holds(end))
    }
  }

  function Decrement(b: Byte): Byte { if b == 0 then 255 else b - 1 }

  function LastIP(ip: IP, mask: seq<Byte>): (end: IP)
    requires |ip| == |mask|
    ensures |end| == |ip|
  {
    var end := Highest(ip, mask);
    if To4(ip).Some? then end[3 := Decrement(end[3])] else end
  }

  predicate TopByteSet(ip: IP) { ip != [] && ip[0] != 0 }

  predicate RoomForHosts(mask: seq<Byte>) {
    match MaskOnes(mask)
    case None => false
    case Some(ones) => ones + 2 <= 8 * |mask|
  }

  // ---------- Canonicalize as a function of the record's value ----------

  function FillGateway(copy: Copy, r: Conf): (Conf, Option<Error>) {
    match r.gateway
    case None => (r.(gateway := Some(NextIP(r.subnetIP))), None)
    case Some(g) =>
      match Canon(g)
      case None => (r, Some(NotV4NorV6))
      case Some(c) =>
        (r.(gateway := Some(c)),
         if copy.KubeIpam? && !NetContains(r.subnetIP, r.mask, c) then Some(GatewayOutside) else None)
  }

  function FillStart(r: Conf): (Conf, Option<Error>) {
    match r.start
    case None => (r.(start := Some(NextIP(r.subnetIP))), None)
    case Some(s) =>
      match Canon(s)
      case None => (r, Some(NotV4NorV6))
      case Some(c) =>
        var r' := r.(start := Some(c));
        (r', if r'.Contains(c) then None else Some(StartOutside))
  }

  function FillEnd(r: Conf): (Conf, Option<Error>)
    requires |r.subnetIP| == |r.mask|
  {
    match r.end
    case None => (r.(end := Some(LastIP(r.subnetIP, r.mask))), None)
    case Some(e) =>
      match Canon(e)
      case None => (r, Some(NotV4NorV6))
      case Some(c) =>
        var r' := r.(end := Some(c));
        (r', if r'.Contains(c) then None else Some(EndOutside))
  }

  function Canonicalized(copy: Copy, r: Conf): (Conf, Option<Error>) {
    match Canon(r.subnetIP)
    case None => (r, Some(NotV4NorV6))
    case Some(sip) =>
      var r1 := r.(subnetIP := sip);
      if !RoomForHosts(r.mask) then (r1, Some(TooSmall))
      else if |sip| != |r.mask| then (r1, Some(VersionMismatch))
      else if copy.HostLocal? && !Equal(sip, Masked(sip, r.mask)) then (r1, Some(HostBitsSet))
      else
        var (r2, e2) := FillGateway(copy, r1);
        if e2.Some? then (r2, e2)
        else
          var (r3, e3) := FillStart(r2);
          if e3.Some? then (r3, e3) else FillEnd(r3)
  }

  class Range {
    var subnetIP: IP
    var mask: seq<Byte>
    var rangeStart: Option<IP>
    var rangeEnd: Option<IP>
    var gateway: Option<IP>

    function View(): Conf
      reads this
    {
      Conf(subnetIP, mask, rangeStart, rangeEnd, gateway)
    }

    constructor (c: Conf)
      ensures View() == c
    {
      subnetIP, mask, rangeStart, rangeEnd, gateway := c.subnetIP, c.mask, c.start, c.end, c.gateway;
    }

    /** Fills in the defaults; on an error the fields set so far stay set. */
    method Canonicalize(copy: Copy) returns (err: Option<Error>)
      modifies this
      ensures (View(), err) == Canonicalized(copy, old(View()))
    {
      var sip := Canon(subnetIP);
      if sip.None? { return Some(NotV4NorV6); }
      subnetIP := sip.value;
      if !RoomForHosts(mask) { return Some(TooSmall); }
      if |subnetIP| != |mask| { return Some(VersionMismatch); }
      if copy.HostLocal? && !Equal(subnetIP, Masked(subnetIP, mask)) { return Some(HostBitsSet); }

      if gateway.None? {
        gateway := Some(NextIP(subnetIP));
      } else {
        var gw := Canon(gateway.value);
        if gw.None? { return Some(NotV4NorV6); }
        gateway := gw;
        if copy.KubeIpam? && !NetContains(subnetIP, mask, gateway.value) { return Some(GatewayOutside); }
      }

      if rangeStart.Some? {
        var s := Canon(rangeStart.value);
        if s.None? { return Some(NotV4NorV6); }
        rangeStart := s;
        if !View().Contains(rangeStart.value) { return Some(StartOutside); }
      } else {
        rangeStart := Some(NextIP(subnetIP));
      }

      if rangeEnd.Some? {
        var e := Canon(rangeEnd.value);
        if e.None? { return Some(NotV4NorV6); }
        rangeEnd := e;
        if !View().Contains(rangeEnd.value) { return Some(EndOutside); }
      } else {
        var last := ComputeLastIP(subnetIP, mask);
        rangeEnd := Some(last);
      }
      return None;
    }
  }

  /** The byte loop of lastIP. */
  method ComputeLastIP(ip: IP, mask: seq<Byte>) returns (end: IP)
    requires |ip| == |mask|
    ensures end == LastIP(ip, mask)
  {
    end := [];
    for i := 0 to |ip|
      invariant end == Highest(ip, mask)[..i]
    {
      end := end + [OrByte(ip[i], NotByte(mask[i]))];
    }
    if To4(ip).Some? { end := end[3 := Decrement(end[3])]; }
  }

  // ---------- What a range is after Canonicalize ----------

  function Base(r: Conf): nat requires |r.subnetIP| == |r.mask| { Value(Masked(r.subnetIP, r.mask)) }
  function Top(r: Conf): nat requires |r.subnetIP| == |r.mask| { Value(Highest(r.subnetIP, r.mask)) }

  predicate InNetwork(r: Conf, a: IP)
    requires |r.subnetIP| == |r.mask|
  {
    IsCanonical(a) && |a| == |r.subnetIP| && Base(r) <= Value(a) <= Top(r)
  }

  /** A range whose end points are addresses of its own family, inside its subnet unless it is empty. */
  predicate Sane(r: Conf) {
    && IsCanonical(r.subnetIP) && |r.mask| == |r.subnetIP| && MaskOnes(r.mask).Some?
    && r.start.Some? && IsCanonical(r.start.value) && |r.start.value| == |r.subnetIP|
    && r.end.Some? && IsCanonical(r.end.value) && |r.end.value| == |r.subnetIP|
    && (First(r) <= Last(r) ==> InNetwork(r, r.start.value) && InNetwork(r, r.end.value))
  }

  function First(r: Conf): nat { if r.start.Some? then Value(r.start.value) else 0 }
  function Last(r: Conf): nat { if r.end.Some? then Value(r.end.value) else 0 }

  /** A sane range that is not empty. */
  predicate Ready(r: Conf) { Sane(r) && First(r) <= Last(r) }

  lemma NetContainsIsInNetwork(r: Conf, a: IP)
    requires IsCanonical(r.subnetIP) && IsCanonical(a) && |r.mask| == |r.subnetIP| && MaskOnes(r.mask).Some?
    ensures NetContains(r.subnetIP, r.mask, a) <==> InNetwork(r, a)
  {
    if |a| == |r.subnetIP| {
      NetworkInterval(r.subnetIP, r.mask, a);
      assert SameBits(r.subnetIP, r.mask, a) <==> NetContains(r.subnetIP, r.mask, a);
    }
  }

  predicate Between(r: Conf, a: Option<IP>)
    requires r.start.Some? && r.end.Some?
  {
    a.Some? && |a.value| == |r.start.value| && First(r) <= Value(a.value) <= Last(r)
  }

  /** Contains is the interval test between the two end points, in whatever form the address is stored. */
  lemma ContainsIsInterval(r: Conf, addr: IP)
    requires Sane(r)
    ensures r.Contains(addr) <==> Between(r, Canon(addr))
  {
    if Canon(addr).Some? {
      CanonIsCanonical(addr);
      NetContainsIsInNetwork(r, Canon(addr).value);
    }
  }

  /** The four end-point tests of Overlaps find every shared address, and on non-empty ranges nothing else. */
  lemma OverlapsIsExact(r: Conf, s: Conf)
    requires Sane(r) && Sane(s)
    ensures (exists a :: r.Contains(a) && s.Contains(a)) ==> r.Overlaps(s)
    ensures Ready(r) && Ready(s) && r.Overlaps(s) ==> exists a :: r.Contains(a) && s.Contains(a)
  {
    EndPoints(r, s);
    EndPoints(s, r);
    if a :| r.Contains(a) && s.Contains(a) {
      ContainsIsInterval(r, a);
      ContainsIsInterval(s, a);
      assert if First(r) <= First(s) then r.Contains(s.start.value) else s.Contains(r.start.value);
    }
    if Ready(r) && Ready(s) && r.Overlaps(s) {
      EndPoints(r, r);
      EndPoints(s, s);
      assert exists a :: (a == r.start.value || a == r.end.value || a == s.start.value || a == s.end.value)
                         && r.Contains(a) && s.Contains(a);
    }
  }

  /** On ranges that may be empty it is a test on the four numbers: some end point of the one lies between those of the
      other. */
  lemma OverlapsOfSane(r: Conf, s: Conf)
    requires Sane(r) && Sane(s)
    ensures r.Overlaps(s) <==>
            && |r.start.value| == |s.start.value|
            && (First(r) <= First(s) <= Last(r) || First(r) <= Last(s) <= Last(r)
                || First(s) <= First(r) <= Last(s) || First(s) <= Last(r) <= Last(s))
  {
    EndPoints(r, s);
    EndPoints(s, r);
  }

  lemma EndPoints(r: Conf, s: Conf)
    requires Sane(r) && Sane(s)
    ensures r.Contains(s.start.value) <==> |s.start.value| == |r.start.value| && First(r) <= First(s) <= Last(r)
    ensures r.Contains(s.end.value) <==> |s.end.value| == |r.start.value| && First(r) <= Last(s) <= Last(r)
  {
    ContainsIsInterval(r, s.start.value);
    ContainsIsInterval(r, s.end.value);
  }

  /** All that finding shared addresses needs: the start is an address of the subnet's family, and unless the
      range is empty not before the subnet. */
  predicate WellStarted(r: Conf) {
    && IsCanonical(r.subnetIP) && |r.mask| == |r.subnetIP| && MaskOnes(r.mask).Some?
    && r.start.Some? && IsCanonical(r.start.value) && |r.start.value| == |r.subnetIP|
    && r.end.Some? && (First(r) <= IpToInt(r.end.value) ==> Base(r) <= First(r))
  }

  lemma SaneIsWellStarted(r: Conf)
    requires Sane(r)
    ensures WellStarted(r)
  {
  }

  lemma StartContained(r: Conf, s: Conf, a: IP)
    requires WellStarted(r) && WellStarted(s) && r.Contains(a) && s.Contains(a) && First(r) <= First(s)
    ensures r.Contains(s.start.value)
  {
    CanonIsCanonical(a);
    NetContainsIsInNetwork(r, Canon(a).value);
    NetContainsIsInNetwork(r, s.start.value);
  }

  /** Between well-started ranges the overlap test finds every shared address, whatever their ends are. */
  lemma SharedIsFound(r: Conf, s: Conf, a: IP)
    requires WellStarted(r) && WellStarted(s) && r.Contains(a) && s.Contains(a)
    ensures r.Overlaps(s) && s.Overlaps(r)
  {
    CanonIsCanonical(a);
    if First(r) <= First(s) { StartContained(r, s, a); } else { StartContained(s, r, a); }
  }

  // ---------- Defaults ----------

  lemma {:induction false} LastMaskByte(ones: nat, len: nat) returns (k: nat)
    requires len > 0 && ones + 2 <= 8 * len
    ensures k <= 6 && CidrMask(ones, len)[len - 1] == PartialByte(k)
    decreases len
  {
    if len == 1 {
      k := ones;
    } else if ones >= 8 {
      k := LastMaskByte(ones - 8, len - 1);
    } else {
      k := LastMaskByte(0, len - 1);
    }
  }

  lemma DecrementLast(h: seq<Byte>)
    requires |h| == 4 && h[3] > 0
    ensures Value(h[3 := Decrement(h[3])]) == Value(h) - 1
  {
    var d := h[3 := Decrement(h[3])];
    assert d[..3] == h[..3];
  }

  lemma LastByteNotZero(ip: IP, mask: seq<Byte>)
    requires |ip| == |mask| == 4 && RoomForHosts(mask)
    ensures Highest(ip, mask)[3] > 0
  {
    ContiguousMask(mask);
    var k := LastMaskByte(MaskOnes(mask).value, 4);
    ByteInterval(k, ip[3], ip[3]);
    Pow2Monotone(2, 8 - k);
  }

  /** The default RangeEnd: all host bits set for IPv6, one less (no broadcast) for IPv4. The prefix
      check leaves two host bits, so the byte decrement cannot wrap. */
  lemma LastIPValue(ip: IP, mask: seq<Byte>)
    requires IsCanonical(ip) && |ip| == |mask| && RoomForHosts(mask)
    ensures Value(LastIP(ip, mask)) ==
            Value(Masked(ip, mask)) + Pow2(HostBits(mask)) - (if |ip| == 4 then 2 else 1)
  {
    NetworkWidth(ip, mask);
    if |ip| == 4 {
      LastByteNotZero(ip, mask);
      DecrementLast(Highest(ip, mask));
    }
  }

  lemma TopByteByValue(s: seq<Byte>)
    requires s != []
    ensures s[0] != 0 <==> Value(s) >= Pow2(8 * (|s| - 1))
  {
    ValueBounds(s);
    SplitFront(s);
    ValueBounds(s[1..]);
  }

  /** The start is given, or counting up from the subnet's address yields an address of its length. */
  predicate RegularStart(r: Conf) {
    match Canon(r.subnetIP)
    case None => false
    case Some(sip) => r.start.Some? || (sip != [] && NextKeepsLength(sip))
  }

  /** The end is given, or the default one is not an IPv4 address in its 16-byte form. */
  predicate RegularEnd(r: Conf) {
    match Canon(r.subnetIP)
    case None => false
    case Some(sip) => r.end.Some? || (|sip| == |r.mask| && IsCanonical(LastIP(sip, r.mask)))
  }

  lemma TopByteRegular(r: Conf, sip: IP)
    requires Canon(r.subnetIP) == Some(sip) && TopByteSet(sip) && |sip| == |r.mask|
    ensures RegularEnd(r) && (RegularStart(r) <==> r.start.Some? || !AllOnes(sip))
  {
    CanonIsCanonical(r.subnetIP);
    DefaultEndCanonical(sip, r.mask);
  }

  /** What the unset end points of `r` become, as a test on the input: the defaults leave an empty range or
      an address that is none. `sip` and `last` are the subnet's address and its default RangeEnd. */
  predicate EmptyDefaults(r: Conf, sip: IP, last: nat) {
    match (r.start, r.end)
    case (Some(s), Some(_)) => false
    case (Some(s), None) => IpToInt(s) > last
    case (None, Some(_)) => AllOnes(sip)
    case (None, None) => Value(sip) + 1 > last
  }

  lemma DefaultEndValue(sip: IP, mask: seq<Byte>)
    requires IsCanonical(sip) && |sip| == |mask| && RoomForHosts(mask)
    ensures Value(LastIP(sip, mask)) == Value(Highest(sip, mask)) - (if |sip| == 4 then 1 else 0)
    ensures Value(Masked(sip, mask)) < Value(LastIP(sip, mask))
  {
    LastIPValue(sip, mask);
    NetworkWidth(sip, mask);
    FourHostsAtLeast(HostBits(mask));
  }

  lemma {:induction false} OrAtLeast(w: nat, a: nat, b: nat)
    requires a < Pow2(w)
    ensures Or(w, a, b) >= a
    decreases w
  {
    if w > 0 { OrAtLeast(w - 1, a / 2, b / 2); }
  }

  lemma DefaultEndCanonical(sip: IP, mask: seq<Byte>)
    requires IsCanonical(sip) && |sip| == |mask| && TopByteSet(sip)
    ensures IsCanonical(LastIP(sip, mask)) && |LastIP(sip, mask)| == |sip|
  {
    Pow2Of8();
    OrAtLeast(8, sip[0], NotByte(mask[0]));
  }

  predicate SubnetChecked(copy: Copy, r: Conf, c: Conf) {
    && Canon(r.subnetIP) == Some(c.subnetIP) && c.mask == r.mask
    && |c.mask| == |c.subnetIP| && RoomForHosts(c.mask)
    && (copy.HostLocal? ==> Equal(c.subnetIP, Masked(c.subnetIP, c.mask)))
  }

  predicate StartFilled(r: Conf, c: Conf) {
    match r.start
    case None => c.start == Some(NextIP(c.subnetIP))
    case Some(s) => c.start.Some? && c.start == Canon(s) && NetContains(c.subnetIP, c.mask, c.start.value)
  }

  predicate EndFilled(r: Conf, c: Conf)
    requires |c.mask| == |c.subnetIP| && c.start.Some?
  {
    match r.end
    case None => c.end == Some(LastIP(c.subnetIP, c.mask))
    case Some(e) => c.end.Some? && c.end == Canon(e) && NetContains(c.subnetIP, c.mask, c.end.value)
                    && IpToInt(c.start.value) <= IpToInt(c.end.value)
  }

  predicate Filled(copy: Copy, r: Conf, c: Conf) {
    && SubnetChecked(copy, r, c) && StartFilled(r, c) && EndFilled(r, c)
    && GatewayFilled(copy, r, c)
  }

  predicate GatewayFilled(copy: Copy, r: Conf, c: Conf) {
    match r.gateway
    case None => c.gateway == Some(NextIP(c.subnetIP))
    case Some(g) => c.gateway.Some? && c.gateway == Canon(g)
                    && (copy.KubeIpam? ==> NetContains(c.subnetIP, c.mask, c.gateway.value))
  }

  lemma FillStartFields(r: Conf)
    requires FillStart(r).1.None?
    ensures var c := FillStart(r).0; StartFilled(r, c) && c.start.Some? && c == r.(start := c.start)
  {
    if r.start.Some? { CanonIsCanonical(r.start.value); }
  }

  lemma FillEndFields(r: Conf)
    requires |r.subnetIP| == |r.mask| && r.start.Some? && FillEnd(r).1.None?
    ensures var c := FillEnd(r).0; EndFilled(r, c) && c == r.(end := c.end)
  {
    if r.end.Some? { CanonIsCanonical(r.end.value); }
  }

  /** Which fields Canonicalize changes, and what it has checked about the others. */
  lemma CanonicalizedFields(copy: Copy, r: Conf)
    requires Canonicalized(copy, r).1.None?
    ensures Filled(copy, r, Canonicalized(copy, r).0)
  {
    var r2 := FillGateway(copy, r.(subnetIP := Canon(r.subnetIP).value)).0;
    FillStartFields(r2);
    FillEndFields(FillStart(r2).0);
  }

  lemma RegularNext(sip: IP)
    requires IsCanonical(sip)
    ensures |NextIP(sip)| == |sip| <==> NextKeepsLength(sip)
    ensures NextKeepsLength(sip) ==> IsCanonical(NextIP(sip)) && Value(NextIP(sip)) == Value(sip) + 1
  {
    NextIPIsIncrement(sip);
    ValueOfIncrement(sip);
    if NextKeepsLength(sip) { LeadingByteOfIncrement(sip); }
  }

  lemma StartFacts(copy: Copy, r: Conf, c: Conf)
    requires SubnetChecked(copy, r, c) && StartFilled(r, c)
    ensures |c.start.value| == |c.subnetIP| <==> RegularStart(r)
    ensures RegularStart(r) ==> IsCanonical(c.start.value) && Base(c) <= First(c)
    ensures RegularStart(r) && r.start.None? ==> First(c) == Value(c.subnetIP) + 1
    ensures r.start.Some? ==> First(c) == IpToInt(r.start.value)
  {
    CanonIsCanonical(r.subnetIP);
    OwnNetwork(c.subnetIP, c.mask);
    RegularNext(c.subnetIP);
    if r.start.Some? {
      CanonIsCanonical(r.start.value);
      NetContainsIsInNetwork(c, c.start.value);
    }
  }

  lemma EndFacts(copy: Copy, r: Conf, c: Conf)
    requires SubnetChecked(copy, r, c) && c.start.Some? && EndFilled(r, c)
    ensures c.end.Some? && (IsCanonical(c.end.value) <==> RegularEnd(r))
    ensures RegularEnd(r) ==> InNetwork(c, c.end.value)
    ensures Value(LastIP(c.subnetIP, c.mask)) <= Top(c)
  {
    CanonIsCanonical(r.subnetIP);
    DefaultEndValue(c.subnetIP, c.mask);
    if r.end.Some? {
      CanonIsCanonical(r.end.value);
      NetContainsIsInNetwork(c, c.end.value);
    }
  }

  /** When Canonicalize succeeds the range is sane exactly when its unset end points have regular defaults, and
      it is non-empty exactly when these are not the wrong way round either. */
  lemma CanonicalizedIsSane(copy: Copy, r: Conf)
    requires Canonicalized(copy, r).1.None?
    ensures var c := Canonicalized(copy, r).0;
      && |c.mask| == |c.subnetIP|
      && (Sane(c) <==> RegularStart(r) && RegularEnd(r))
      && (Ready(c) <==> RegularStart(r) && RegularEnd(r)
                        && !EmptyDefaults(r, c.subnetIP, Value(LastIP(c.subnetIP, c.mask))))
  {
    CanonicalizedFields(copy, r);
    FilledIsSane(copy, r, Canonicalized(copy, r).0);
  }

  /** And it is well started exactly when its unset start has a regular default. */
  lemma CanonicalizedIsWellStarted(copy: Copy, r: Conf)
    requires Canonicalized(copy, r).1.None?
    ensures WellStarted(Canonicalized(copy, r).0) <==> RegularStart(r)
  {
    var c := Canonicalized(copy, r).0;
    CanonicalizedFields(copy, r);
    CanonIsCanonical(r.subnetIP);
    StartFacts(copy, r, c);
    EndFacts(copy, r, c);
  }

  lemma FilledIsSane(copy: Copy, r: Conf, c: Conf)
    requires Filled(copy, r, c)
    ensures Sane(c) <==> RegularStart(r) && RegularEnd(r)
    ensures Ready(c) <==> RegularStart(r) && RegularEnd(r)
                          && !EmptyDefaults(r, c.subnetIP, Value(LastIP(c.subnetIP, c.mask)))
  {
    CanonIsCanonical(r.subnetIP);
    StartFacts(copy, r, c);
    EndFacts(copy, r, c);
    ValueOfAllOnes(c.subnetIP);
    ValueBounds(LastIP(c.subnetIP, c.mask));
  }

  /** A test on the input for a non-empty range that NextIP can count through: both end points regular and in
      order, and a given start with a top byte that is not zero. */
  predicate CountsUp(r: Conf) {
    match Canon(r.subnetIP)
    case None => false
    case Some(sip) =>
      && |sip| == |r.mask| && RegularStart(r) && RegularEnd(r)
      && !EmptyDefaults(r, sip, Value(LastIP(sip, r.mask)))
      && (r.start.Some? ==> Canon(r.start.value).Some? && TopByteSet(Canon(r.start.value).value))
  }

  lemma CountsUpExactly(copy: Copy, r: Conf)
    requires Canonicalized(copy, r).1.None?
    ensures var c := Canonicalized(copy, r).0; Ready(c) && TopByteSet(c.start.value) <==> CountsUp(r)
  {
    var c := Canonicalized(copy, r).0;
    CanonicalizedFields(copy, r);
    FilledIsSane(copy, r, c);
    CanonIsCanonical(r.subnetIP);
    if r.start.None? && NextKeepsLength(c.subnetIP) {
      NextIPIsIncrement(c.subnetIP);
      LeadingByteOfIncrement(c.subnetIP);
    }
  }

  // ---------- The host-local copy: host bits are clear ----------

  lemma HostBitsClear(r: Conf, c: Conf)
    requires SubnetChecked(HostLocal, r, c)
    ensures Base(c) == Value(c.subnetIP) && !AllOnes(c.subnetIP) && Base(c) + 3 <= Top(c)
  {
    NetworkWidth(c.subnetIP, c.mask);
    FourHostsAtLeast(HostBits(c.mask));
    ValueOfAllOnes(c.subnetIP);
    ValueBounds(Highest(c.subnetIP, c.mask));
  }

  /** The start is the broadcast address of an IPv4 subnet, and no end is given. */
  predicate StartsAtBroadcast(r: Conf, c: Conf)
    requires |c.mask| == |c.subnetIP|
  {
    |c.subnetIP| == 4 && r.end.None? && r.start.Some? && IpToInt(r.start.value) == Top(c)
  }

  /** With clear host bits the successor of the subnet's address is an address of its length exactly if the top
      byte is not zero. */
  lemma HostLocalStart(r: Conf, c: Conf)
    requires SubnetChecked(HostLocal, r, c)
    ensures NextKeepsLength(c.subnetIP) <==> TopByteSet(c.subnetIP)
    ensures RegularStart(r) <==> r.start.Some? || TopByteSet(c.subnetIP)
  {
    var ip := c.subnetIP;
    HostBitsClear(r, c);
    CanonIsCanonical(r.subnetIP);
    LastByteClear(r, c);
    assert ip[1..][|ip| - 2] == ip[|ip| - 1];
  }

  lemma LastByteClear(r: Conf, c: Conf)
    requires SubnetChecked(HostLocal, r, c)
    ensures c.subnetIP[|c.subnetIP| - 1] < 255
  {
    var ip := c.subnetIP;
    CanonIsCanonical(r.subnetIP);
    HostBitsClear(r, c);
    ContiguousMask(c.mask);
    var k := LastMaskByte(MaskOnes(c.mask).value, |ip|);
    var at := |ip| - 1;
    assert Masked(ip, c.mask)[at] == AndByte(ip[at], PartialByte(k));
    ByteInterval(k, ip[at], ip[at]);
    Pow2Monotone(2, 8 - k);
  }

  /** With host bits checked the range is sane unless a default end point is no address, and it is empty only if
      RangeStart is the IPv4 broadcast address and RangeEnd was left out. */
  lemma HostLocalReady(r: Conf)
    requires Canonicalized(HostLocal, r).1.None?
    ensures var c := Canonicalized(HostLocal, r).0;
      && |c.mask| == |c.subnetIP|
      && (Sane(c) <==> (r.start.Some? || TopByteSet(c.subnetIP)) && RegularEnd(r))
      && (Ready(c) <==> Sane(c) && !StartsAtBroadcast(r, c))
      && (TopByteSet(c.subnetIP) ==> Sane(c) && TopByteSet(c.start.value))
  {
    CanonicalizedFields(HostLocal, r);
    var c := Canonicalized(HostLocal, r).0;
    FilledHostLocalReady(r, c);
    if TopByteSet(c.subnetIP) {
      CanonIsCanonical(r.subnetIP);
      TopByteRegular(r, c.subnetIP);
      FilledHostLocalTopByte(r, c);
    }
  }

  lemma FilledHostLocalReady(r: Conf, c: Conf)
    requires Filled(HostLocal, r, c)
    ensures Sane(c) <==> (r.start.Some? || TopByteSet(c.subnetIP)) && RegularEnd(r)
    ensures Ready(c) <==> Sane(c) && !StartsAtBroadcast(r, c)
  {
    FilledIsSane(HostLocal, r, c);
    HostLocalStart(r, c);
    HostBitsClear(r, c);
    CanonIsCanonical(r.subnetIP);
    DefaultEndValue(c.subnetIP, c.mask);
    if r.start.Some? {
      CanonIsCanonical(r.start.value);
      NetContainsIsInNetwork(c, c.start.value);
    }
  }

  lemma FilledHostLocalTopByte(r: Conf, c: Conf)
    requires Filled(HostLocal, r, c) && TopByteSet(c.subnetIP)
    ensures TopByteSet(c.start.value)
  {
    HostBitsClear(r, c);
    CanonIsCanonical(r.subnetIP);
    StartFacts(HostLocal, r, c);
    TopByteRegular(r, c.subnetIP);
    TopByteByValue(c.subnetIP);
    TopByteByValue(c.start.value);
  }

  /** The default start (the default gateway too) is the subnet's first host address, in the subnet exactly if the
      top byte is not zero; the default end is its last, in the subnet exactly if it is an address at all. */
  lemma HostLocalDefaults(r: Conf)
    requires Canonicalized(HostLocal, r).1.None?
    ensures var c := Canonicalized(HostLocal, r).0;
      && |c.mask| == |c.subnetIP|
      && (InNetwork(c, NextIP(c.subnetIP)) <==> TopByteSet(c.subnetIP))
      && (TopByteSet(c.subnetIP) ==> Value(NextIP(c.subnetIP)) == Base(c) + 1)
      && (r.gateway.None? ==> c.gateway == Some(NextIP(c.subnetIP)))
      && (r.start.None? ==> c.start == Some(NextIP(c.subnetIP)))
      && (r.end.None? ==> Last(c) == DefaultLast(c) && (InNetwork(c, c.end.value) <==> RegularEnd(r)))
  {
    CanonicalizedFields(HostLocal, r);
    FilledHostLocalDefaults(r, Canonicalized(HostLocal, r).0);
  }

  /** Base plus 2^hostbits, less one, and less the broadcast address for IPv4. */
  function DefaultLast(c: Conf): int
    requires |c.mask| == |c.subnetIP| && RoomForHosts(c.mask)
  {
    Base(c) + Pow2(HostBits(c.mask)) - (if |c.subnetIP| == 4 then 2 else 1)
  }

  lemma FilledHostLocalDefaults(r: Conf, c: Conf)
    requires Filled(HostLocal, r, c)
    ensures InNetwork(c, NextIP(c.subnetIP)) <==> TopByteSet(c.subnetIP)
    ensures TopByteSet(c.subnetIP) ==> Value(NextIP(c.subnetIP)) == Base(c) + 1
    ensures r.end.None? ==> Last(c) == DefaultLast(c) && (InNetwork(c, c.end.value) <==> RegularEnd(r))
  {
    HostBitsClear(r, c);
    HostLocalStart(r, c);
    EndFacts(HostLocal, r, c);
    CanonIsCanonical(r.subnetIP);
    RegularNext(c.subnetIP);
    if r.end.None? { LastIPValue(c.subnetIP, c.mask); }
  }

  predicate GatewayAccepted(copy: Copy, c: Conf) {
    && c.gateway.Some? && IsCanonical(c.gateway.value)
    && (copy.KubeIpam? ==> NetContains(c.subnetIP, c.mask, c.gateway.value))
  }

  lemma FilledStays(copy: Copy, c: Conf)
    requires Ready(c)
    ensures FillGateway(copy, c) == (c, None) <==> GatewayAccepted(copy, c)
    ensures FillStart(c) == (c, None)
    ensures FillEnd(c) == (c, None)
  {
    EndPoints(c, c);
  }

  /** The gateway is given, or the default one is an address, and (in kube-ipam's copy) of the subnet. */
  predicate RegularGateway(copy: Copy, r: Conf) {
    match Canon(r.subnetIP)
    case None => false
    case Some(sip) =>
      r.gateway.Some?
      || (IsCanonical(NextIP(sip)) && (copy.KubeIpam? ==> NetContains(sip, r.mask, NextIP(sip))))
  }

  /** A second Canonicalize changes nothing exactly when the first left a non-empty range and the gateway was
      given or has a regular default. */
  lemma CanonicalizeTwice(copy: Copy, r: Conf, c: Conf)
    requires Canonicalized(copy, r) == (c, None)
    ensures Canonicalized(copy, c) == (c, None) <==> Ready(c) && RegularGateway(copy, r)
  {
    CanonicalizedFields(copy, r);
    CanonIsCanonical(r.subnetIP);
    if r.gateway.Some? { CanonIsCanonical(r.gateway.value); }
    FilledTwice(copy, c);
  }

  /** In the host-local copy a non-empty range stays as it is, unless its start is given and its unset gateway has
      a default that is no address: only below a zero top byte. */
  lemma HostLocalTwice(r: Conf, c: Conf)
    requires Canonicalized(HostLocal, r) == (c, None)
    ensures Canonicalized(HostLocal, c) == (c, None) <==>
            Ready(c) && (r.gateway.Some? || IsCanonical(NextIP(c.subnetIP)))
    ensures r.gateway.Some? || r.start.None? || TopByteSet(c.subnetIP) ==>
              (Canonicalized(HostLocal, c) == (c, None) <==> Ready(c))
  {
    CanonicalizedFields(HostLocal, r);
    CanonicalizeTwice(HostLocal, r, c);
    HostLocalStart(r, c);
    CanonIsCanonical(r.subnetIP);
    RegularNext(c.subnetIP);
  }

  lemma FilledTwice(copy: Copy, c: Conf)
    requires SubnetChecked(copy, c, c) && c.gateway.Some? && c.start.Some? && c.end.Some?
    ensures Canonicalized(copy, c) == (c, None) <==> Ready(c) && GatewayAccepted(copy, c)
  {
    if Ready(c) { FilledStays(copy, c); }
    if Canonicalized(copy, c) == (c, None) {
      CanonicalizedFields(copy, c);
      FilledIsSane(copy, c, c);
    }
  }

  // ---------- What Canonicalize accepts, as a test on the input ----------

  /** A prefix that leaves two host bits at least. */
  ghost predicate LeavesTwoBits(mask: seq<Byte>) {
    exists n: nat {:trigger CidrMask(n, |mask|)} :: n + 2 <= 8 * |mask| && mask == CidrMask(n, |mask|)
  }

  lemma RoomExactly(mask: seq<Byte>)
    ensures RoomForHosts(mask) <==> LeavesTwoBits(mask)
  {
    if RoomForHosts(mask) { ContiguousMask(mask); }
    if n: nat :| n + 2 <= 8 * |mask| && mask == CidrMask(n, |mask|) { MaskOnesOfCidrMask(n, |mask|); }
  }

  /** An address that is given has a standard form, and that one lies in the subnet. */
  predicate GivenInside(a: Option<IP>, sip: IP, mask: seq<Byte>) {
    a.Some? ==> Canon(a.value).Some? && NetContains(sip, mask, Canon(a.value).value)
  }

  /** The number that the start will count as. */
  function StartNumber(r: Conf, sip: IP): nat { if r.start.Some? then IpToInt(r.start.value) else IpToInt(NextIP(sip)) }

  /** Canonicalize succeeds exactly on subnets with a prefix of their own length that leaves two host bits, with
      clear host bits in host-local's copy, whose given addresses parse, lie in the subnet (in host-local's copy
      not necessarily the gateway), and are in order. */
  lemma CanonicalizeSucceedsExactly(copy: Copy, r: Conf)
    ensures Canonicalized(copy, r).1.None? <==>
            && Canon(r.subnetIP).Some?
            && var sip := Canon(r.subnetIP).value;
               && |r.mask| == |sip| && LeavesTwoBits(r.mask)
               && (copy.HostLocal? ==> sip == Masked(sip, r.mask))
               && (copy.KubeIpam? ==> GivenInside(r.gateway, sip, r.mask))
               && (r.gateway.Some? ==> Canon(r.gateway.value).Some?)
               && GivenInside(r.start, sip, r.mask) && GivenInside(r.end, sip, r.mask)
               && (r.end.Some? ==> StartNumber(r, sip) <= IpToInt(r.end.value))
  {
    CanonicalizeFailsWith(copy, r);
    RoomExactly(r.mask);
  }

  /** Which error comes, in the order of the tests. */
  ghost function FirstError(copy: Copy, r: Conf): Option<Error> {
    match Canon(r.subnetIP)
    case None => Some(NotV4NorV6)
    case Some(sip) =>
      if !LeavesTwoBits(r.mask) then Some(TooSmall)
      else if |r.mask| != |sip| then Some(VersionMismatch)
      else if copy.HostLocal? && sip != Masked(sip, r.mask) then Some(HostBitsSet)
      else if GatewayError(copy, r, sip).Some? then GatewayError(copy, r, sip)
      else if StartError(r, sip).Some? then StartError(r, sip)
      else EndError(r, sip)
  }

  function GatewayError(copy: Copy, r: Conf, sip: IP): Option<Error> {
    if r.gateway.Some? && Canon(r.gateway.value).None? then Some(NotV4NorV6)
    else if copy.KubeIpam? && !GivenInside(r.gateway, sip, r.mask) then Some(GatewayOutside)
    else None
  }

  /** A start after a given end is refused before the end is looked at. */
  function StartError(r: Conf, sip: IP): Option<Error> {
    if r.start.None? then None
    else if Canon(r.start.value).None? then Some(NotV4NorV6)
    else if !GivenInside(r.start, sip, r.mask) then Some(StartOutside)
    else if r.end.Some? && IpToInt(r.start.value) > IpToInt(r.end.value) then Some(StartOutside)
    else None
  }

  function EndError(r: Conf, sip: IP): Option<Error> {
    if r.end.None? then None
    else if Canon(r.end.value).None? then Some(NotV4NorV6)
    else if !GivenInside(r.end, sip, r.mask) || StartNumber(r, sip) > IpToInt(r.end.value) then Some(EndOutside)
    else None
  }

  lemma CanonicalizeFailsWith(copy: Copy, r: Conf)
    ensures Canonicalized(copy, r).1 == FirstError(copy, r)
  {
    RoomExactly(r.mask);
    if Canon(r.subnetIP).Some? {
      CanonIsCanonical(r.subnetIP);
      var sip := Canon(r.subnetIP).value;
      var r2 := FillGateway(copy, r.(subnetIP := sip)).0;
      assert r2 == r.(subnetIP := sip, gateway := r2.gateway);
      StartFailsWith(r, r2, sip);
      if |r.mask| == |sip| && FillStart(r2).1.None? { EndFailsWith(r, r2, sip); }
    }
  }

  lemma StartFailsWith(r: Conf, r2: Conf, sip: IP)
    requires IsCanonical(sip) && r2 == r.(subnetIP := sip, gateway := r2.gateway)
    ensures FillStart(r2).1 == StartError(r, sip)
  {
    if r.start.Some? && Canon(r.start.value).Some? {
      CanonIsCanonical(r.start.value);
      NetContainsLength(sip, r.mask, Canon(r.start.value).value);
      IpToIntOfCanon(r.start.value);
    }
  }

  lemma EndFailsWith(r: Conf, r2: Conf, sip: IP)
    requires IsCanonical(sip) && r2 == r.(subnetIP := sip, gateway := r2.gateway)
    requires |r.mask| == |sip| && FillStart(r2).1.None?
    ensures FillEnd(FillStart(r2).0).1 == EndError(r, sip)
  {
    StartFailsWith(r, r2, sip);
    if r.start.Some? {
      CanonIsCanonical(r.start.value);
      IpToIntOfCanon(r.start.value);
    }
    if r.end.Some? && Canon(r.end.value).Some? {
      CanonIsCanonical(r.end.value);
      NetContainsLength(sip, r.mask, Canon(r.end.value).value);
      IpToIntOfCanon(r.end.value);
    }
  }

  lemma NetContainsLength(sip: IP, mask: seq<Byte>, a: IP)
    requires IsCanonical(sip) && IsCanonical(a)
    ensures NetContains(sip, mask, a) ==> |a| == |sip|
  {
  }

  /** A /30 is the smallest subnet there is. */
  lemma SlashThirty(n: nat)
    requires n <= 32
    ensures Canonicalized(KubeIpam, Conf([10, 0, 0, 0], CidrMask(n, 4), None, None, None)).1 ==
            if n <= 30 then None else Some(TooSmall)
  {
    MaskOnesOfCidrMask(n, 4);
  }

  lemma SlashTwentyFour()
    ensures MaskOnes([255, 255, 255, 0]) == Some(24)
  {
    assert [255, 255, 255, 0][1..] == [255, 255, 0] && [255, 255, 0][1..] == [255, 0] && [255, 0][1..] == [0];
    assert MaskOnes([0]) == Some(0);
    assert MaskOnes([255, 0]) == Some(8);
    assert MaskOnes([255, 255, 0]) == Some(16);
  }

  lemma BroadcastOfSlashTwentyFour(sip: IP, mask: seq<Byte>)
    requires |sip| == 4 && mask == [255, 255, 255, 0]
    ensures Highest(sip, mask) == sip[3 := 255] && Masked(sip, mask) == sip[3 := 0]
  {
    forall i | 0 <= i < 4
      ensures Highest(sip, mask)[i] == sip[3 := 255][i] && Masked(sip, mask)[i] == sip[3 := 0][i]
    {
      FullByte(sip[i]);
    }
  }

  lemma InSlashTwentyFour(sip: IP, mask: seq<Byte>, a: IP)
    requires |sip| == 4 && |a| == 4 && mask == [255, 255, 255, 0] && a[..3] == sip[..3]
    ensures NetContains(sip, mask, a)
  {
    forall i | 0 <= i < 4 ensures AndByte(sip[i], mask[i]) == AndByte(a[i], mask[i]) {
      assert i < 3 ==> a[i] == a[..3][i] == sip[..3][i] == sip[i];
      FullByte(sip[i]);
      FullByte(a[i]);
    }
  }

  /** Without the host-bit check every subnet address is accepted, and the default start counts up from it: where
      both defaults are addresses, the range is then empty exactly when that address is one of the subnet's last. */
  lemma KubeIpamDefaults(r: Conf)
    requires IsCanonical(r.subnetIP) && |r.mask| == |r.subnetIP| && RoomForHosts(r.mask)
    requires r.start.None? && r.end.None? && r.gateway.None?
    ensures Canonicalized(KubeIpam, r).1.None?
    ensures Ready(Canonicalized(KubeIpam, r).0) <==>
            && NextKeepsLength(r.subnetIP) && IsCanonical(LastIP(r.subnetIP, r.mask))
            && Value(r.subnetIP) + (if |r.subnetIP| == 4 then 2 else 1) <= Top(r)
    ensures TopByteSet(r.subnetIP) && Value(r.subnetIP) < Top(r) ==>
              NextKeepsLength(r.subnetIP) && IsCanonical(LastIP(r.subnetIP, r.mask))
  {
    CanonicalizedFields(KubeIpam, r);
    FilledKubeIpamDefaults(r, Canonicalized(KubeIpam, r).0);
    if AllOnes(r.subnetIP) { NotBeforeTop(r); }
    if TopByteSet(r.subnetIP) { DefaultEndCanonical(r.subnetIP, r.mask); }
  }

  lemma FilledKubeIpamDefaults(r: Conf, c: Conf)
    requires Filled(KubeIpam, r, c) && r.start.None? && r.end.None?
    ensures Ready(c) <==> RegularStart(r) && RegularEnd(r)
                          && Value(c.subnetIP) + (if |c.subnetIP| == 4 then 2 else 1) <= Top(c)
  {
    FilledIsSane(KubeIpam, r, c);
    CanonIsCanonical(r.subnetIP);
    DefaultEndValue(c.subnetIP, c.mask);
  }

  lemma NotBeforeTop(c: Conf)
    requires |c.subnetIP| == |c.mask| && AllOnes(c.subnetIP)
    ensures Value(c.subnetIP) >= Top(c)
  {
    ValueOfAllOnes(c.subnetIP);
    ValueBounds(Highest(c.subnetIP, c.mask));
  }

  /** 10.0.0.255/24 is such a subnet: its default start is 10.0.1.0. */
  lemma KubeIpamAcceptsEmptyRange()
    ensures var r := Conf([10, 0, 0, 255], [255, 255, 255, 0], None, None, None);
      Canonicalized(KubeIpam, r).1.None? && !Ready(Canonicalized(KubeIpam, r).0)
  {
    var r := Conf([10, 0, 0, 255], [255, 255, 255, 0], None, None, None);
    SlashTwentyFour();
    BroadcastOfSlashTwentyFour(r.subnetIP, r.mask);
    KubeIpamDefaults(r);
  }

  /** 10.0.0.0/24 with RangeStart 10.0.0.255 and no RangeEnd: host-local's copy accepts it too, with the end
      10.0.0.254 before the start. */
  lemma HostLocalAcceptsEmptyRange()
    ensures var r := Conf([10, 0, 0, 0], [255, 255, 255, 0], Some([10, 0, 0, 255]), None, None);
      Canonicalized(HostLocal, r).1.None? && !Ready(Canonicalized(HostLocal, r).0)
  {
    var sip: IP, mask: seq<Byte>, a: IP := [10, 0, 0, 0], [255, 255, 255, 0], [10, 0, 0, 255];
    var r := Conf(sip, mask, Some(a), None, None);
    SlashTwentyFour();
    BroadcastOfSlashTwentyFour(sip, mask);
    assert a[..3] == sip[..3];
    InSlashTwentyFour(sip, mask, a);
    HostLocalReady(r);
  }

  /** A range of the one host address `a`, with its gateway, is accepted as it is in either copy. */
  lemma OneHostAccepted(copy: Copy, sip: IP, a: IP, g: IP)
    requires |sip| == 4 && |a| == 4 && |g| == 4 && sip[3] == 0 && a[..3] == sip[..3] && g[..3] == sip[..3]
    ensures var c := Conf(sip, [255, 255, 255, 0], Some(a), Some(a), Some(g)); Canonicalized(copy, c) == (c, None)
  {
    var mask: seq<Byte> := [255, 255, 255, 0];
    SlashTwentyFour();
    BroadcastOfSlashTwentyFour(sip, mask);
    InSlashTwentyFour(sip, mask, a);
    InSlashTwentyFour(sip, mask, g);
  }
}
