/** A CIDR network is an interval of addresses: the byte-wise mask test as an arithmetic one. */
module Network {
  import opened Options
  import opened GoNet
  import opened Cidr

  lemma DivModUnique(a: nat, p: nat, q: nat, r: nat)
    requires r < p && a == p * q + r
    ensures a / p == q && a % p == r
  {
    assert a == p * (a / p) + a % p;
    if a / p < q { TimesMonotone(a / p + 1, q, p); }
    if q < a / p { TimesMonotone(q + 1, a / p, p); }
  }

  lemma ModDouble(a: nat, p: nat)
    requires p > 0
    ensures a % (2 * p) == 2 * ((a / 2) % p) + a % 2
  {
    var q := (a / 2) / p;
    assert a / 2 == p * q + (a / 2) % p;
    assert (2 * p) * q == 2 * (p * q);
    DivModUnique(a, 2 * p, q, 2 * ((a / 2) % p) + a % 2);
  }

  /** The `h` low bits of `a`. */
  function LowBits(h: nat, a: nat): nat {
    if h == 0 then 0 else 2 * LowBits(h - 1, a / 2) + a % 2
  }

  lemma {:induction false} LowBitsIsModulo(h: nat, a: nat)
    ensures LowBits(h, a) == a % Pow2(h)
  {
    if h > 0 {
      LowBitsIsModulo(h - 1, a / 2);
      ModDouble(a, Pow2(h - 1));
    }
  }

  lemma AndStep(w: nat, a: nat, m: nat, bit: nat)
    requires w > 0 && bit < 2
    ensures And(w, a, 2 * m + bit) == 2 * And(w - 1, a / 2, m) + (if a % 2 == 1 then bit else 0)
  {
    assert (2 * m + bit) / 2 == m && (2 * m + bit) % 2 == bit;
  }

  lemma OrStep(w: nat, a: nat, m: nat, bit: nat)
    requires w > 0 && bit < 2
    ensures Or(w, a, 2 * m + bit) == 2 * Or(w - 1, a / 2, m) + (if a % 2 == 1 then 1 else bit)
  {
    assert (2 * m + bit) / 2 == m && (2 * m + bit) % 2 == bit;
  }

  /** Keeping the bits above `h` rounds down to a multiple of 2^h. */
  lemma {:induction false} RoundDown(w: nat, h: nat, a: nat)
    requires h <= w && a < Pow2(w)
    ensures Pow2(h) <= Pow2(w)
    ensures And(w, a, Pow2(w) - Pow2(h)) == a - LowBits(h, a)
    decreases w
  {
    Pow2Monotone(h, w);
    if w > 0 {
      if h == 0 {
        RoundDown(w - 1, 0, a / 2);
        AndStep(w, a, Pow2(w - 1) - 1, 1);
      } else {
        RoundDown(w - 1, h - 1, a / 2);
        AndStep(w, a, Pow2(w - 1) - Pow2(h - 1), 0);
      }
    }
  }

  /** Setting the bits below `h` goes to the end of that block. */
  lemma {:induction false} RoundUp(w: nat, h: nat, a: nat)
    requires h <= w && a < Pow2(w)
    ensures Or(w, a, Pow2(h) - 1) == a - LowBits(h, a) + (Pow2(h) - 1)
    decreases w
  {
    if w > 0 {
      if h == 0 {
        RoundUp(w - 1, 0, a / 2);
        OrStep(w, a, 0, 0);
      } else {
        RoundUp(w - 1, h - 1, a / 2);
        OrStep(w, a, Pow2(h - 1) - 1, 1);
      }
    }
  }

  lemma PartialByteValue(k: nat)
    requires k < 8
    ensures PartialByte(k) == Pow2(8) - Pow2(8 - k)
  {
    Pow2Of8();
    assert Pow2(2) == 4 && Pow2(4) == 16 && Pow2(6) == 64;
  }

  lemma BlockTest(a: nat, b: nat, p: nat)
    requires p > 0
    ensures b - b % p == a - a % p <==> b - b % p <= a <= b - b % p + (p - 1)
  {
    assert b == p * (b / p) + b % p;
    if b - b % p <= a <= b - b % p + (p - 1) {
      DivModUnique(a, p, b / p, a - (b - b % p));
    }
  }

  lemma PartialByteRounds(k: nat, a: Byte)
    requires k < 8
    ensures AndByte(a, PartialByte(k)) == a - a % Pow2(8 - k)
    ensures OrByte(a, NotByte(PartialByte(k))) == a - a % Pow2(8 - k) + (Pow2(8 - k) - 1)
  {
    PartialByteValue(k);
    Pow2Of8();
    RoundByte(8, 8 - k, a, 256, Pow2(8 - k));
  }

  lemma RoundByte(w: nat, h: nat, a: nat, all: nat, p: nat)
    requires h <= w && a < all && all == Pow2(w) && p == Pow2(h)
    ensures p <= all
    ensures And(w, a, all - p) == a - a % p
    ensures Or(w, a, p - 1) == a - a % p + (p - 1)
  {
    RoundDown(w, h, a);
    RoundUp(w, h, a);
    LowBitsIsModulo(h, a);
  }

  /** One byte under a mask of `k` ones. */
  lemma ByteInterval(k: nat, a: Byte, b: Byte)
    requires k < 8
    ensures var m := PartialByte(k);
      && AndByte(b, m) <= b <= OrByte(b, NotByte(m)) == AndByte(b, m) + Pow2(8 - k) - 1
      && (AndByte(b, m) == AndByte(a, m) <==> AndByte(b, m) <= a <= OrByte(b, NotByte(m)))
  {
    PartialByteRounds(k, a);
    PartialByteRounds(k, b);
    BlockTest(a, b, Pow2(8 - k));
  }

  lemma FullByte(a: Byte)
    ensures AndByte(a, 255) == a && OrByte(a, 0) == a && AndByte(a, 0) == 0 && OrByte(a, 255) == 255
  {
    Pow2Of8();
    RoundDown(8, 0, a);
    RoundDown(8, 8, a);
    RoundUp(8, 0, a);
    RoundUp(8, 8, a);
    LowBitsIsModulo(8, a);
    assert a % 256 == a;
  }

  predicate SameBits(b: seq<Byte>, m: seq<Byte>, a: seq<Byte>)
    requires |a| == |b| == |m|
  {
    forall i :: 0 <= i < |b| ==> AndByte(b[i], m[i]) == AndByte(a[i], m[i])
  }

  lemma SameBitsFront(b: seq<Byte>, m: seq<Byte>, a: seq<Byte>)
    requires |a| == |b| == |m| > 0
    ensures SameBits(b, m, a) <==> AndByte(b[0], m[0]) == AndByte(a[0], m[0]) && SameBits(b[1..], m[1..], a[1..])
  {
    if AndByte(b[0], m[0]) == AndByte(a[0], m[0]) && SameBits(b[1..], m[1..], a[1..]) {
      forall i | 0 <= i < |b| ensures AndByte(b[i], m[i]) == AndByte(a[i], m[i]) {
        if i > 0 { assert b[1..][i - 1] == b[i] && m[1..][i - 1] == m[i] && a[1..][i - 1] == a[i]; }
      }
    }
  }

  /** Two strings compared by front byte first. */
  lemma FrontBetween(lo: seq<Byte>, a: seq<Byte>, hi: seq<Byte>)
    requires |lo| == |a| == |hi| > 0
    ensures Value(lo) <= Value(a) <= Value(hi) ==> lo[0] <= a[0] <= hi[0]
    ensures lo[0] == a[0] == hi[0] ==>
              (Value(lo) <= Value(a) <= Value(hi) <==> Value(lo[1..]) <= Value(a[1..]) <= Value(hi[1..]))
    ensures (lo[0] <= a[0] <= hi[0] && Value(lo[1..]) <= Value(a[1..]) <= Value(hi[1..])) ==>
              Value(lo) <= Value(a) <= Value(hi)
  {
    SplitFront(lo);
    SplitFront(a);
    SplitFront(hi);
    FrontByteDominates(a, lo);
    FrontByteDominates(hi, a);
    var p := Pow2(8 * (|a| - 1));
    if lo[0] <= a[0] { TimesMonotone(lo[0], a[0], p); }
    if a[0] <= hi[0] { TimesMonotone(a[0], hi[0], p); }
  }

  lemma MaskedTail(b: seq<Byte>, m: seq<Byte>)
    requires 0 < |b| == |m|
    ensures Masked(b, m)[1..] == Masked(b[1..], m[1..]) && Highest(b, m)[1..] == Highest(b[1..], m[1..])
  {
  }

  lemma MaskFront(b: seq<Byte>, ones: nat)
    requires 0 < |b| && ones <= 8 * |b|
    ensures var m, rest := CidrMask(ones, |b|), CidrMask(if ones >= 8 then ones - 8 else 0, |b| - 1);
      && m[1..] == rest && m[0] == (if ones >= 8 then 255 else PartialByte(ones))
      && Masked(b, m)[1..] == Masked(b[1..], rest) && Highest(b, m)[1..] == Highest(b[1..], rest)
  {
    MaskedTail(b, CidrMask(ones, |b|));
  }

  lemma {:induction false} ValueOfZeros(s: seq<Byte>)
    requires forall i :: 0 <= i < |s| ==> s[i] == 0
    ensures Value(s) == 0
  {
    if s != [] { ValueOfZeros(s[..|s| - 1]); }
  }

  lemma ZeroMaskBytes(b: seq<Byte>, m: seq<Byte>)
    requires m == CidrMask(0, |b|)
    ensures forall i :: 0 <= i < |b| ==> Masked(b, m)[i] == 0
    ensures AllOnes(Highest(b, m))
  {
    CidrMaskOfZero(|b|);
    forall i | 0 <= i < |b| ensures Masked(b, m)[i] == 0 && Highest(b, m)[i] == 255 {
      FullByte(b[i]);
    }
  }

  /** No ones at all: every address matches. */
  lemma ZeroMask(b: seq<Byte>)
    ensures Value(Masked(b, CidrMask(0, |b|))) == 0
    ensures Value(Highest(b, CidrMask(0, |b|))) == Pow2(8 * |b|) - 1
  {
    var m := CidrMask(0, |b|);
    ZeroMaskBytes(b, m);
    ValueOfZeros(Masked(b, m));
    ValueOfAllOnes(Highest(b, m));
  }

  lemma {:induction false} ZeroMaskMatches(b: seq<Byte>, a: seq<Byte>)
    requires |a| == |b|
    ensures SameBits(b, CidrMask(0, |b|), a)
  {
    CidrMaskOfZero(|b|);
    forall i | 0 <= i < |b| ensures AndByte(b[i], 0) == AndByte(a[i], 0) {
      FullByte(b[i]);
      FullByte(a[i]);
    }
  }

  lemma FullFrontMatches(b: seq<Byte>, ones: nat, a: seq<Byte>)
    requires |a| == |b| > 0 && 8 <= ones <= 8 * |b|
    requires var m := CidrMask(ones - 8, |b| - 1);
      SameBits(b[1..], m, a[1..]) <==> Value(Masked(b[1..], m)) <= Value(a[1..]) <= Value(Highest(b[1..], m))
    ensures var m := CidrMask(ones, |b|);
      SameBits(b, m, a) <==> Value(Masked(b, m)) <= Value(a) <= Value(Highest(b, m))
  {
    var m := CidrMask(ones, |b|);
    MaskFront(b, ones);
    SameBitsFront(b, m, a);
    FrontBetween(Masked(b, m), a, Highest(b, m));
    FullByte(b[0]);
    FullByte(a[0]);
  }

  lemma PartialFrontMatches(b: seq<Byte>, ones: nat, a: seq<Byte>)
    requires |a| == |b| > 0 && ones < 8
    ensures var m := CidrMask(ones, |b|);
      SameBits(b, m, a) <==> Value(Masked(b, m)) <= Value(a) <= Value(Highest(b, m))
  {
    var m := CidrMask(ones, |b|);
    MaskFront(b, ones);
    SameBitsFront(b, m, a);
    FrontBetween(Masked(b, m), a, Highest(b, m));
    ZeroMask(b[1..]);
    ValueBounds(a[1..]);
    ZeroMaskMatches(b[1..], a[1..]);
    ByteInterval(ones, a[0], b[0]);
  }

  /** The mask test of `IPNet.Contains` says that the address lies between the network's lowest and
      highest address. */
  lemma {:induction false} NetworkIsInterval(b: seq<Byte>, ones: nat, a: seq<Byte>)
    requires |a| == |b| && ones <= 8 * |b|
    ensures var m := CidrMask(ones, |b|);
      SameBits(b, m, a) <==> Value(Masked(b, m)) <= Value(a) <= Value(Highest(b, m))
  {
    if b != [] {
      if ones >= 8 {
        NetworkIsInterval(b[1..], ones - 8, a[1..]);
        FullFrontMatches(b, ones, a);
      } else {
        PartialFrontMatches(b, ones, a);
      }
    }
  }

  lemma SameFront(lo: seq<Byte>, hi: seq<Byte>)
    requires |lo| == |hi| > 0 && lo[0] == hi[0]
    ensures Value(hi) - Value(lo) == Value(hi[1..]) - Value(lo[1..])
  {
    SplitFront(lo);
    SplitFront(hi);
  }

  lemma BlockWidth(low: nat, high: nat, block: nat, p: nat, vlow: nat, vhigh: nat)
    requires high == low + block - 1 && vlow == low * p && vhigh == high * p + (p - 1)
    ensures vhigh == vlow + block * p - 1
  {
    assert high * p == (low + block) * p - p;
  }

  lemma BlockFront(lo: seq<Byte>, hi: seq<Byte>, block: nat)
    requires |lo| == |hi| > 0 && block > 0 && hi[0] == lo[0] + block - 1
    requires Value(lo[1..]) == 0 && Value(hi[1..]) == Pow2(8 * (|lo| - 1)) - 1
    ensures Value(hi) == Value(lo) + block * Pow2(8 * (|lo| - 1)) - 1
  {
    SplitFront(lo);
    SplitFront(hi);
    BlockWidth(lo[0], hi[0], block, Pow2(8 * (|lo| - 1)), Value(lo), Value(hi));
  }

  lemma PartialFrontSize(b: seq<Byte>, ones: nat)
    requires |b| > 0 && ones < 8
    ensures var m := CidrMask(ones, |b|);
      Value(Highest(b, m)) == Value(Masked(b, m)) + Pow2(8 - ones) * Pow2(8 * (|b| - 1)) - 1
  {
    var m := CidrMask(ones, |b|);
    MaskFront(b, ones);
    ZeroMask(b[1..]);
    ByteInterval(ones, b[0], b[0]);
    BlockFront(Masked(b, m), Highest(b, m), Pow2(8 - ones));
  }

  lemma PartialSize(b: seq<Byte>, ones: nat, m: seq<Byte>, host: nat)
    requires |b| > 0 && ones < 8 && ones + host == 8 * |b| && m == CidrMask(ones, |b|)
    ensures Value(Highest(b, m)) == Value(Masked(b, m)) + Pow2(host) - 1
  {
    PartialFrontSize(b, ones);
    PowSum(8 - ones, 8 * (|b| - 1), host);
  }

  lemma PowSum(m: nat, n: nat, sum: nat)
    requires sum == m + n
    ensures Pow2(m) * Pow2(n) == Pow2(sum)
  {
    PowProduct(m, n);
  }

  lemma FullFrontSize(b: seq<Byte>, ones: nat)
    requires |b| > 0 && 8 <= ones <= 8 * |b|
    ensures var m, rest := CidrMask(ones, |b|), CidrMask(ones - 8, |b| - 1);
      Value(Highest(b, m)) - Value(Masked(b, m)) == Value(Highest(b[1..], rest)) - Value(Masked(b[1..], rest))
  {
    var m := CidrMask(ones, |b|);
    MaskFront(b, ones);
    FullByte(b[0]);
    SameFront(Masked(b, m), Highest(b, m));
  }

  /** Those two are `2^hostbits - 1` apart. */
  lemma {:induction false} NetworkSize(b: seq<Byte>, ones: nat, m: seq<Byte>, host: nat)
    requires ones + host == 8 * |b| && m == CidrMask(ones, |b|)
    ensures Value(Highest(b, m)) == Value(Masked(b, m)) + Pow2(host) - 1
  {
    if b != [] {
      if ones >= 8 {
        FullFrontSize(b, ones);
        NetworkSize(b[1..], ones - 8, CidrMask(ones - 8, |b| - 1), host);
      } else {
        PartialSize(b, ones, m, host);
      }
    }
  }

  lemma {:induction false} PowProduct(m: nat, n: nat)
    ensures Pow2(m) * Pow2(n) == Pow2(m + n)
  {
    if m > 0 {
      PowProduct(m - 1, n);
      assert (2 * Pow2(m - 1)) * Pow2(n) == 2 * (Pow2(m - 1) * Pow2(n));
    }
  }

  // ---------- The same for any mask that IPMask.Size accepts ----------

  lemma NetworkInterval(b: seq<Byte>, mask: seq<Byte>, a: seq<Byte>)
    requires |a| == |b| == |mask| && MaskOnes(mask).Some?
    ensures SameBits(b, mask, a) <==> Value(Masked(b, mask)) <= Value(a) <= Value(Highest(b, mask))
  {
    ContiguousMask(mask);
    NetworkIsInterval(b, MaskOnes(mask).value, a);
  }

  lemma OwnNetwork(b: seq<Byte>, mask: seq<Byte>)
    requires |b| == |mask| && MaskOnes(mask).Some?
    ensures Value(Masked(b, mask)) <= Value(b) <= Value(Highest(b, mask))
  {
    NetworkInterval(b, mask, b);
  }

  /** Number of host bits of a network. */
  function HostBits(mask: seq<Byte>): nat
    requires MaskOnes(mask).Some?
  {
    ContiguousMask(mask);
    8 * |mask| - MaskOnes(mask).value
  }

  lemma NetworkWidth(b: seq<Byte>, mask: seq<Byte>)
    requires |b| == |mask| && MaskOnes(mask).Some?
    ensures Value(Highest(b, mask)) == Value(Masked(b, mask)) + Pow2(HostBits(mask)) - 1
  {
    ContiguousMask(mask);
    NetworkSize(b, MaskOnes(mask).value, mask, HostBits(mask));
  }

  lemma FourHostsAtLeast(n: nat)
    requires n >= 2
    ensures Pow2(n) >= 4
  {
    assert Pow2(n) == 2 * Pow2(n - 1) && Pow2(n - 1) == 2 * Pow2(n - 2);
  }
}
