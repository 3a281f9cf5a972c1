/**
 The parts of Go's `net` package that the allocator relies on: addresses are byte strings of any
 length (only 4 and 16 bytes are meaningful), masks are byte strings combined bit by bit.
 */
module GoNet {
  import opened Options

  type Byte = b: int | 0 <= b < 256
  type IP = seq<Byte>

  /** An address or network, with its mask. */
  datatype IPNet = IPNet(ip: IP, mask: seq<Byte>)

  const V4_IN_V6_PREFIX: seq<Byte> := [0, 0, 0, 0, 0, 0, 0, 0, 0, 0, 255, 255]

  predicate IsV4InV6(ip: IP) {
    |ip| == 16 && (forall i :: 0 <= i < 10 ==> ip[i] == 0) && ip[10] == 255 && ip[11] == 255
  }

  function To4(ip: IP): Option<IP> {
    if |ip| == 4 then Some(ip) else if IsV4InV6(ip) then Some(ip[12..]) else None
  }

  function To16(ip: IP): Option<IP> {
    if |ip| == 4 then Some(V4_IN_V6_PREFIX + ip)
    else if |ip| == 16 then Some(ip)
    else None
  }

  /** An IPv4 address equals its own IPv4-in-IPv6 form. */
  predicate Equal(x: IP, y: IP) {
    if |x| == |y| then x == y
    else if |x| == 4 && |y| == 16 then IsV4InV6(y) && x == y[12..]
    else if |x| == 16 && |y| == 4 then IsV4InV6(x) && x[12..] == y
    else false
  }

  /** The standard form of an address: 4 bytes for IPv4, 16 otherwise, none for other lengths. */
  function Canon(ip: IP): Option<IP> {
    if To4(ip).Some? then To4(ip) else To16(ip)
  }

  predicate IsCanonical(ip: IP) { Canon(ip) == Some(ip) }

  lemma CanonIsCanonical(ip: IP)
    requires Canon(ip).Some?
    ensures IsCanonical(Canon(ip).value)
    ensures |Canon(ip).value| == 4 || |Canon(ip).value| == 16
  {
  }

  /** `Equal` is equality of standard forms: the forms an address can be stored in do not matter. */
  lemma EqualIsSameCanon(x: IP, y: IP)
    requires Canon(x).Some? && Canon(y).Some?
    ensures Equal(x, y) <==> Canon(x) == Canon(y)
  {
    if |x| == 16 && |y| == 16 && To4(x).Some? && To4(y).Some? {
      assert forall i :: 0 <= i < 12 ==> x[i] == y[i];
      assert x == x[..12] + x[12..] && y == y[..12] + y[12..];
    }
  }

  lemma To16KeepsCanon(ip: IP)
    requires IsCanonical(ip)
    ensures To16(ip).Some? && Canon(To16(ip).value) == Some(ip)
  {
    assert |ip| == 4 ==> (V4_IN_V6_PREFIX + ip)[12..] == ip;
  }

  function Pow2(n: nat): (p: nat)
    ensures p >= 1
  {
    if n == 0 then 1 else 2 * Pow2(n - 1)
  }

  /** Bitwise AND and OR on the `w` low bits. */
  function And(w: nat, a: nat, b: nat): nat {
    if w == 0 then 0 else 2 * And(w - 1, a / 2, b / 2) + (if a % 2 == 1 && b % 2 == 1 then 1 else 0)
  }

  function Or(w: nat, a: nat, b: nat): nat {
    if w == 0 then 0 else 2 * Or(w - 1, a / 2, b / 2) + (if a % 2 == 1 || b % 2 == 1 then 1 else 0)
  }

  lemma {:induction false} BitsFit(w: nat, a: nat, b: nat)
    ensures And(w, a, b) < Pow2(w) && Or(w, a, b) < Pow2(w)
    decreases w
  {
    if w > 0 { BitsFit(w - 1, a / 2, b / 2); }
  }

  lemma Pow2Of8()
    ensures Pow2(8) == 256
  {
    assert Pow2(4) == 16;
    assert Pow2(6) == 64;
  }

  function AndByte(a: Byte, b: Byte): Byte {
    BitsFit(8, a, b);
    Pow2Of8();
    And(8, a, b)
  }

  function OrByte(a: Byte, b: Byte): Byte {
    BitsFit(8, a, b);
    Pow2Of8();
    Or(8, a, b)
  }

  function NotByte(a: Byte): Byte { 255 - a }

  /** `IP.Mask` and, with the complement, the highest address of the same network. */
  function Masked(ip: seq<Byte>, mask: seq<Byte>): (r: seq<Byte>)
    requires |ip| == |mask|
  {
    seq(|ip|, i requires 0 <= i < |ip| => AndByte(ip[i], mask[i]))
  }

  function Highest(ip: seq<Byte>, mask: seq<Byte>): (r: seq<Byte>)
    requires |ip| == |mask|
  {
    seq(|ip|, i requires 0 <= i < |ip| => OrByte(ip[i], NotByte(mask[i])))
  }

  /** `CIDRMask`: `ones` leading one bits in `len` bytes. */
  function CidrMask(ones: nat, len: nat): (m: seq<Byte>)
    requires ones <= 8 * len
    ensures |m| == len
    decreases len
  {
    if len == 0 then []
    else if ones >= 8 then [255] + CidrMask(ones - 8, len - 1)
    else [PartialByte(ones)] + CidrMask(0, len - 1)
  }

  function PartialByte(ones: nat): Byte
    requires ones < 8
  {
    [0, 128, 192, 224, 240, 248, 252, 254][ones]
  }

  function PartialOnes(b: Byte): Option<nat> {
    if b == 0 then Some(0) else if b == 128 then Some(1) else if b == 192 then Some(2)
    else if b == 224 then Some(3) else if b == 240 then Some(4) else if b == 248 then Some(5)
    else if b == 252 then Some(6) else if b == 254 then Some(7) else None
  }

  /** Number of leading one bits if the mask is contiguous (`IPMask.Size`, whose 0,0 is None here). */
  function MaskOnes(mask: seq<Byte>): Option<nat> {
    if mask == [] then Some(0)
    else if mask[0] == 255 then
      match MaskOnes(mask[1..])
      case Some(n) => Some(n + 8)
      case None => None
    else if forall i :: 0 < i < |mask| ==> mask[i] == 0 then PartialOnes(mask[0])
    else None
  }

  lemma CidrMaskOfZero(len: nat)
    ensures CidrMask(0, len) == seq(len, _ => 0)
  {
  }

  lemma {:induction false} ContiguousMask(mask: seq<Byte>)
    requires MaskOnes(mask).Some?
    ensures MaskOnes(mask).value <= 8 * |mask| && mask == CidrMask(MaskOnes(mask).value, |mask|)
  {
    if mask != [] {
      if mask[0] == 255 {
        ContiguousMask(mask[1..]);
      } else {
        CidrMaskOfZero(|mask| - 1);
        assert mask == [mask[0]] + mask[1..];
      }
    }
  }

  lemma {:induction false} MaskOnesOfCidrMask(ones: nat, len: nat)
    requires ones <= 8 * len
    ensures MaskOnes(CidrMask(ones, len)) == Some(ones)
    decreases len
  {
    if len > 0 {
      var m := CidrMask(ones, len);
      if ones >= 8 {
        assert m[1..] == CidrMask(ones - 8, len - 1);
        MaskOnesOfCidrMask(ones - 8, len - 1);
      } else {
        CidrMaskOfZero(len - 1);
      }
    }
  }

  /** The network number and mask `IPNet.Contains` works with; a mismatch leaves the number empty. */
  function NetworkNumberAndMask(net: IP, mask: seq<Byte>): (r: (IP, seq<Byte>))
    ensures r.0 == [] || |r.0| == |r.1|
  {
    var nn := if To4(net).Some? then To4(net).value else if |net| == 16 then net else [];
    if |mask| == 4 && |nn| == 4 then (nn, mask)
    else if |mask| == 16 && |nn| == 4 then (nn, mask[12..])
    else if |mask| == 16 && |nn| == 16 then (nn, mask)
    else ([], [])
  }

  /** `IPNet.Contains`: same length, and the same bytes under the mask. */
  predicate NetContains(net: IP, mask: seq<Byte>, ip: IP) {
    var (nn, m) := NetworkNumberAndMask(net, mask);
    var addr := if To4(ip).Some? then To4(ip).value else ip;
    |addr| == |nn| && forall i :: 0 <= i < |nn| ==> AndByte(nn[i], m[i]) == AndByte(addr[i], m[i])
  }
}
