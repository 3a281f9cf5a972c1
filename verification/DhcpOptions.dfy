/**
 plugins/ipam/dhcp/options.go: the classless static routes of RFC 3442, section "Classless Route Option
 Format". A descriptor is the width of the subnet mask, the significant octets of the subnet, and the router.
 */
module DhcpOptions {
  import opened Options
  import opened GoNet
  import opened CniTypes

  /** A route before its mask is spelled out. */
  datatype Descriptor = Descriptor(width: nat, subnet: IP, router: IP)

  const MAX_WIDTH := 32

  function Octets(width: nat): nat { if width > 0 then (width - 1) / 8 + 1 else 0 }

  predicate Valid(d: Descriptor) {
    && d.width <= MAX_WIDTH && |d.subnet| == 4 && |d.router| == 4
    && forall i {:trigger d.subnet[i]} :: Octets(d.width) <= i < 4 ==> d.subnet[i] == 0
  }

  predicate AllValid(ds: seq<Descriptor>) { forall i {:trigger ds[i]} :: 0 <= i < |ds| ==> Valid(ds[i]) }

  function Encode(d: Descriptor): seq<Byte>
    requires Valid(d)
  {
    [d.width] + d.subnet[..Octets(d.width)] + d.router
  }

  function EncodeAll(ds: seq<Descriptor>): seq<Byte>
    requires AllValid(ds)
  {
    if ds == [] then [] else Encode(ds[0]) + EncodeAll(ds[1..])
  }

  function RouteOf(d: Descriptor): Route
    requires d.width <= MAX_WIDTH
  {
    Route(IPNet(d.subnet, CidrMask(d.width, 4)), Some(d.router))
  }

  // ---------- The decoder ----------

  function Zeros(n: nat): seq<Byte> { seq(n, _ => 0) }

  /** The first descriptor and the length it takes, unless the width is too large or the bytes run out. */
  function DecodeFirst(opt: seq<Byte>): (r: Option<Descriptor>)
    requires |opt| >= 5
    ensures r.Some? ==> r.value.width <= MAX_WIDTH && 5 <= 1 + Octets(r.value.width) + 4 <= |opt|
  {
    var octets := Octets(opt[0]);
    if opt[0] > MAX_WIDTH || |opt| < 1 + octets + 4 then None
    else Some(Descriptor(opt[0], opt[1..octets + 1] + Zeros(4 - octets), opt[octets + 1..octets + 5]))
  }

  /** None stands for the nil that reports an error. */
  function Decode(opt: seq<Byte>): Option<seq<Descriptor>> {
    if |opt| < 5 then Some([])
    else
      var d := DecodeFirst(opt);
      if d.None? then None
      else
        var rest := Decode(opt[Octets(d.value.width) + 5..]);
        if rest.None? then None else Some([d.value] + rest.value)
  }

  function RoutesOf(ds: seq<Descriptor>): (r: seq<Route>)
    requires forall i {:trigger ds[i]} :: 0 <= i < |ds| ==> ds[i].width <= MAX_WIDTH
    ensures |r| == |ds| && forall i :: 0 <= i < |r| ==> r[i] == RouteOf(ds[i])
  {
    seq(|ds|, i requires 0 <= i < |ds| => RouteOf(ds[i]))
  }

  function After(done: seq<Descriptor>, rest: Option<seq<Descriptor>>): Option<seq<Descriptor>> {
    if rest.Some? then Some(done + rest.value) else None
  }

  /** The loop over the option's bytes; an absent option has no routes. */
  method ParseCIDRRoutes(option: Option<seq<Byte>>) returns (routes: Option<seq<Route>>)
    ensures option.None? ==> routes == Some([])
    ensures option.Some? ==> (routes.Some? <==> Decode(option.value).Some?)
    ensures option.Some? && routes.Some? ==>
      AllValid(Decode(option.value).value) && routes.value == RoutesOf(Decode(option.value).value)
  {
    routes := Some([]);
    if option.None? { return; }
    var opt := option.value;
    ghost var done: seq<Descriptor> := [];
    AfterNothing(Decode(opt));
    while |opt| >= 5
      invariant routes.Some? && AllValid(done) && routes.value == RoutesOf(done)
      invariant Decode(option.value) == After(done, Decode(opt))
      decreases |opt|
    {
      AfterOne(done, opt);
      ghost var first := DecodeFirst(opt);
      var rt;
      rt, opt := ParseDescriptor(opt);
      if rt.None? { return None; }
      routes := Some(routes.value + [rt.value]);
      done := done + [first.value];
    }
  }

  lemma AfterNothing(rest: Option<seq<Descriptor>>)
    ensures After([], rest) == rest
  {
    if rest.Some? { assert [] + rest.value == rest.value; }
  }

  lemma AfterOne(done: seq<Descriptor>, opt: seq<Byte>)
    requires |opt| >= 5
    ensures match DecodeFirst(opt)
            case None => After(done, Decode(opt)) == None
            case Some(d) =>
              Valid(d) && After(done, Decode(opt)) == After(done + [d], Decode(opt[Octets(d.width) + 5..]))
  {
    DecodeFirstValid(opt);
    if DecodeFirst(opt).Some? {
      var d := DecodeFirst(opt).value;
      var rest := Decode(opt[Octets(d.width) + 5..]);
      if rest.Some? { assert done + ([d] + rest.value) == done + [d] + rest.value; }
    }
  }

  /** One round: the first descriptor as a route, and the bytes after it. */
  method ParseDescriptor(opt: seq<Byte>) returns (rt: Option<Route>, rest: seq<Byte>)
    requires |opt| >= 5
    ensures match DecodeFirst(opt)
            case None => rt == None && rest == opt
            case Some(d) => rt == Some(RouteOf(d)) && rest == opt[Octets(d.width) + 5..]
  {
    var width := opt[0];
    if width > 32 { return None, opt; }
    var octets := 0;
    if width > 0 { octets := (width - 1) / 8 + 1; }
    if |opt| < 1 + octets + 4 { return None, opt; }
    var sn := opt[1..octets + 1] + Zeros(4 - octets);
    var gw := opt[octets + 1..octets + 5];
    return Some(Route(IPNet(sn, CidrMask(width, 4)), Some(gw))), opt[octets + 5..];
  }

  lemma DecodeFirstValid(opt: seq<Byte>)
    requires |opt| >= 5
    ensures DecodeFirst(opt).Some? ==> Valid(DecodeFirst(opt).value)
    ensures DecodeFirst(opt).Some? ==>
      opt == Encode(DecodeFirst(opt).value) + opt[Octets(DecodeFirst(opt).value.width) + 5..]
  {
    if DecodeFirst(opt).Some? {
      var d := DecodeFirst(opt).value;
      var n := Octets(d.width);
      assert d.subnet[..n] == opt[1..n + 1];
    }
  }

  // ---------- The decoder against the encoding ----------

  lemma DecodeEncodedFirst(d: Descriptor, rest: seq<Byte>)
    requires Valid(d)
    ensures |Encode(d) + rest| >= 5 && DecodeFirst(Encode(d) + rest) == Some(d)
    ensures (Encode(d) + rest)[Octets(d.width) + 5..] == rest
  {
    var opt, n := Encode(d) + rest, Octets(d.width);
    assert opt[0] == d.width;
    assert opt[1..n + 1] == d.subnet[..n] && opt[n + 1..n + 5] == d.router;
    assert d.subnet[..n] + Zeros(4 - n) == d.subnet;
  }

  /** Decoding any concatenation of descriptors returns exactly those; up to four bytes after it are ignored. */
  lemma {:induction false} DecodeEncoded(ds: seq<Descriptor>, tail: seq<Byte>)
    requires AllValid(ds) && |tail| < 5
    ensures Decode(EncodeAll(ds) + tail) == Some(ds)
    decreases |ds|
  {
    if ds == [] {
      assert [] + tail == tail;
    } else {
      var rest := EncodeAll(ds[1..]) + tail;
      EncodedSplit(ds, tail);
      DecodeEncodedFirst(ds[0], rest);
      DecodeEncoded(ds[1..], tail);
      assert ds == [ds[0]] + ds[1..];
    }
  }

  lemma EncodedSplit(ds: seq<Descriptor>, tail: seq<Byte>)
    requires AllValid(ds) && ds != []
    ensures Valid(ds[0]) && AllValid(ds[1..])
    ensures EncodeAll(ds) + tail == Encode(ds[0]) + (EncodeAll(ds[1..]) + tail)
  {
  }

  lemma {:induction false} DecodedIsEncoded(opt: seq<Byte>)
    requires Decode(opt).Some?
    ensures AllValid(Decode(opt).value)
    ensures EncodeAll(Decode(opt).value) <= opt && |opt| - |EncodeAll(Decode(opt).value)| < 5
    decreases |opt|
  {
    if |opt| >= 5 {
      DecodeFirstValid(opt);
      var d := DecodeFirst(opt).value;
      var rest := opt[Octets(d.width) + 5..];
      DecodedIsEncoded(rest);
      EncodedFront(opt, d, Decode(rest).value, rest);
    }
  }

  lemma EncodedFront(opt: seq<Byte>, d: Descriptor, ds: seq<Descriptor>, rest: seq<Byte>)
    requires Valid(d) && AllValid(ds) && opt == Encode(d) + rest && EncodeAll(ds) <= rest
    ensures AllValid([d] + ds) && EncodeAll([d] + ds) == Encode(d) + EncodeAll(ds)
    ensures EncodeAll([d] + ds) <= opt && |opt| - |EncodeAll([d] + ds)| == |rest| - |EncodeAll(ds)|
  {
    assert ([d] + ds)[1..] == ds;
    assert opt == Encode(d) + EncodeAll(ds) + rest[|EncodeAll(ds)|..];
  }

  /** A width needs the least number of octets that hold as many bits. */
  lemma OctetsHoldWidth(width: nat)
    requires width <= 32
    ensures Octets(width) <= 4 && width <= 8 * Octets(width) && (width > 0 ==> 8 * Octets(width) < width + 8)
    ensures width == 0 ==> Octets(width) == 0
  {
  }

  /** The decoded routes: each leads to its subnet, with a mask of as many ones as the width byte says, by its
      router. */
  lemma RoutesExactly(opt: seq<Byte>, ds: seq<Descriptor>, i: nat)
    requires Decode(opt) == Some(ds) && i < |ds|
    ensures (forall k {:trigger ds[k]} :: 0 <= k < |ds| ==> ds[k].width <= 32)
            && |ds[i].subnet| == 4 && |ds[i].router| == 4
    ensures RoutesOf(ds)[i] == Route(IPNet(ds[i].subnet, CidrMask(ds[i].width, 4)), Some(ds[i].router))
    ensures MaskOnes(RoutesOf(ds)[i].dst.mask) == Some(ds[i].width)
  {
    DecodedIsEncoded(opt);
    assert Valid(ds[i]);
    MaskOnesOfCidrMask(ds[i].width, 4);
  }

  /** 10.17.0.0/16 by 192.0.2.1 and a default route by 192.0.2.2. */
  lemma TwoRoutes()
    ensures Decode([16, 10, 17, 192, 0, 2, 1, 0, 192, 0, 2, 2]) ==
            Some([Descriptor(16, [10, 17, 0, 0], [192, 0, 2, 1]), Descriptor(0, [0, 0, 0, 0], [192, 0, 2, 2])])
  {
    var a, b := Descriptor(16, [10, 17, 0, 0], [192, 0, 2, 1]), Descriptor(0, [0, 0, 0, 0], [192, 0, 2, 2]);
    assert [a, b][1..] == [b] && [b][1..] == [];
    assert Encode(a) == [16, 10, 17, 192, 0, 2, 1] && Encode(b) == [0, 192, 0, 2, 2];
    assert EncodeAll([b]) == Encode(b);
    assert EncodeAll([a, b]) == [16, 10, 17, 192, 0, 2, 1, 0, 192, 0, 2, 2];
    DecodeExactly(EncodeAll([a, b]), [a, b]);
  }

  /** The decoder returns `ds` exactly on their encoding with fewer than five bytes after it. */
  lemma DecodeExactly(opt: seq<Byte>, ds: seq<Descriptor>)
    ensures Decode(opt) == Some(ds) <==>
            AllValid(ds) && EncodeAll(ds) <= opt && |opt| - |EncodeAll(ds)| < 5
  {
    if Decode(opt) == Some(ds) { DecodedIsEncoded(opt); }
    if AllValid(ds) && EncodeAll(ds) <= opt && |opt| - |EncodeAll(ds)| < 5 { DecodePrefix(opt, ds); }
  }

  lemma DecodePrefix(opt: seq<Byte>, ds: seq<Descriptor>)
    requires AllValid(ds) && EncodeAll(ds) <= opt && |opt| - |EncodeAll(ds)| < 5
    ensures Decode(opt) == Some(ds)
  {
    var tail := opt[|EncodeAll(ds)|..];
    assert opt == EncodeAll(ds) + tail;
    DecodeEncoded(ds, tail);
  }
}
