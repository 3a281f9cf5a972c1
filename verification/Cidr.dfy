/** plugins/pkg/ip/cidr.go: addresses as big-endian integers. */
module Cidr {
  import opened Options
  import opened GoNet

  /** `big.Int.SetBytes` and `big.Int.Bytes`: big-endian, and no leading zero bytes on the way out. */
  function Value(s: seq<Byte>): nat {
    if s == [] then 0 else 256 * Value(s[..|s| - 1]) + s[|s| - 1]
  }

  function Bytes(n: nat): seq<Byte> {
    if n == 0 then [] else Bytes(n / 256) + [n % 256]
  }

  function IpToInt(ip: IP): nat {
    if To4(ip).Some? then Value(To4(ip).value)
    else if To16(ip).Some? then Value(To16(ip).value)
    else 0
  }

  function NextIP(ip: IP): IP { Bytes(IpToInt(ip) + 1) }

  /** `Bytes` of a negative number are those of its absolute value, hence the last case. */
  function PrevIP(ip: IP): IP { if IpToInt(ip) > 0 then Bytes(IpToInt(ip) - 1) else Bytes(1) }

  function Cmp(a: IP, b: IP): int {
    if IpToInt(a) < IpToInt(b) then -1 else if IpToInt(a) == IpToInt(b) then 0 else 1
  }

  // ---------- The integer view is exact on strings without leading zeros ----------

  lemma {:induction false} ValueOfBytes(n: nat)
    ensures Value(Bytes(n)) == n
    ensures n > 0 ==> Bytes(n) != [] && Bytes(n)[0] != 0
  {
    if n > 0 {
      ValueOfBytes(n / 256);
      assert Bytes(n)[..|Bytes(n)| - 1] == Bytes(n / 256);
    }
  }

  lemma {:induction false} BytesOfValue(s: seq<Byte>)
    requires s == [] || s[0] != 0
    ensures Bytes(Value(s)) == s
  {
    if s != [] {
      var p := s[..|s| - 1];
      BytesOfValue(p);
      if p != [] { ValueBounds(p); }
      assert Value(s) / 256 == Value(p) && Value(s) % 256 == s[|s| - 1];
      assert s == p + [s[|s| - 1]];
    }
  }

  lemma {:induction false} ValueBounds(s: seq<Byte>)
    ensures Value(s) < Pow2(8 * |s|)
    ensures s != [] && s[0] != 0 ==> Value(s) >= Pow2(8 * (|s| - 1))
  {
    if s != [] {
      ValueBounds(s[..|s| - 1]);
      Pow2Plus8(8 * (|s| - 1));
      if |s| > 1 { Pow2Plus8(8 * (|s| - 2)); }
    }
  }

  lemma Pow2Plus8(n: nat)
    ensures Pow2(n + 8) == 256 * Pow2(n)
  {
    assert Pow2(n + 8) == 2 * Pow2(n + 7);
    assert Pow2(n + 6) == 2 * Pow2(n + 5);
    assert Pow2(n + 4) == 2 * Pow2(n + 3);
    assert Pow2(n + 2) == 2 * Pow2(n + 1);
  }

  lemma {:induction false} ValueInjective(a: seq<Byte>, b: seq<Byte>)
    requires |a| == |b| && Value(a) == Value(b)
    ensures a == b
  {
    if a != [] {
      ValueInjective(a[..|a| - 1], b[..|b| - 1]);
      assert a == a[..|a| - 1] + [a[|a| - 1]] && b == b[..|b| - 1] + [b[|b| - 1]];
    }
  }

  /** `Value` read from the front. */
  lemma {:induction false} ValueFromFront(b: Byte, s: seq<Byte>)
    ensures Value([b] + s) == b * Pow2(8 * |s|) + Value(s)
  {
    if s == [] {
      assert Value([b]) == 256 * Value([]) + b by { assert [b][..0] == []; }
    } else {
      var p := s[..|s| - 1];
      ValueFromFront(b, p);
      assert ([b] + s)[..|s|] == [b] + p;
      Pow2Plus8(8 * |p|);
      assert 256 * (b * Pow2(8 * |p|)) == b * (256 * Pow2(8 * |p|));
    }
  }

  /** A byte string of length `k` without leading zero is exactly a number in [256^(k-1), 256^k). */
  lemma {:induction false} LengthOfBytes(n: nat, k: nat)
    requires k > 0
    ensures |Bytes(n)| == k <==> Pow2(8 * (k - 1)) <= n < Pow2(8 * k)
  {
    ValueOfBytes(n);
    ValueBounds(Bytes(n));
    if n > 0 {
      var len := |Bytes(n)|;
      if len < k { Pow2Monotone(8 * len, 8 * (k - 1)); }
      if k < len { Pow2Monotone(8 * k, 8 * (len - 1)); }
    }
  }

  lemma {:induction false} Pow2Monotone(m: nat, n: nat)
    requires m <= n
    ensures Pow2(m) <= Pow2(n)
    decreases n - m
  {
    if m < n { Pow2Monotone(m, n - 1); }
  }

  // ---------- NextIP and PrevIP against byte-wise counting ----------

  /** The address after `s`, byte by byte: add one with carry, wrapping round after all ones. */
  function Increment(s: seq<Byte>): (r: seq<Byte>)
    ensures |r| == |s|
  {
    if s == [] then []
    else if s[|s| - 1] < 255 then s[..|s| - 1] + [s[|s| - 1] + 1]
    else Increment(s[..|s| - 1]) + [0]
  }

  predicate AllOnes(s: seq<Byte>) { forall i :: 0 <= i < |s| ==> s[i] == 255 }

  lemma AllOnesSplit(s: seq<Byte>)
    requires s != []
    ensures AllOnes(s) <==> AllOnes(s[..|s| - 1]) && s[|s| - 1] == 255
  {
    assert s == s[..|s| - 1] + [s[|s| - 1]];
  }

  lemma {:induction false} ValueOfAllOnes(s: seq<Byte>)
    ensures AllOnes(s) <==> Value(s) + 1 == Pow2(8 * |s|)
  {
    if s != [] {
      var p := s[..|s| - 1];
      ValueOfAllOnes(p);
      AllOnesSplit(s);
      ValueBounds(p);
      Pow2Plus8(8 * |p|);
    }
  }

  lemma {:induction false} ValueOfIncrement(s: seq<Byte>)
    ensures Value(Increment(s)) == if AllOnes(s) then 0 else Value(s) + 1
  {
    if s != [] {
      var p, last := s[..|s| - 1], s[|s| - 1];
      AllOnesSplit(s);
      ValueOfIncrement(p);
      assert Increment(s)[..|p|] == if last < 255 then p else Increment(p);
    }
  }

  /** Counting up keeps the number of bytes unless it wraps or the leading byte stays zero. */
  predicate NextKeepsLength(ip: IP)
    requires ip != []
  {
    !AllOnes(ip) && (ip[0] != 0 || AllOnes(ip[1..]))
  }

  lemma {:induction false} LeadingByteOfIncrement(s: seq<Byte>)
    requires s != [] && !AllOnes(s)
    ensures Increment(s)[0] != 0 <==> NextKeepsLength(s)
  {
    var p, last := s[..|s| - 1], s[|s| - 1];
    if p == [] {
      assert s == [last] && AllOnes(s[1..]);
    } else if last == 255 {
      assert s == p + [last];
      assert AllOnes(s[1..]) <==> AllOnes(p[1..]) by { assert s[1..] == p[1..] + [last]; }
      LeadingByteOfIncrement(p);
    } else {
      assert s[1..][|s| - 2] == last;
    }
  }

  /** Exactly when `NextIP` is the next address: no wrap, and the dropped leading zeros do not shorten it. */
  lemma NextIPIsIncrement(ip: IP)
    requires IsCanonical(ip)
    ensures NextIP(ip) == Increment(ip) <==> NextKeepsLength(ip)
    ensures |NextIP(ip)| == |ip| <==> NextKeepsLength(ip)
  {
    var n := |ip|;
    ValueOfIncrement(ip);
    ValueOfAllOnes(ip);
    ValueOfBytes(IpToInt(ip) + 1);
    ValueBounds(ip);
    LengthOfBytes(IpToInt(ip) + 1, n);
    if AllOnes(ip) {
    } else {
      LeadingByteOfIncrement(ip);
      if NextKeepsLength(ip) {
        BytesOfValue(Increment(ip));
      } else if |NextIP(ip)| == n {
        ValueInjective(NextIP(ip), Increment(ip));
        assert false;
      }
    }
  }

  /** The case every allocation range is in: the top byte is non-zero. */
  lemma NextIPAdds(ip: IP)
    requires IsCanonical(ip) && ip[0] != 0 && !AllOnes(ip)
    ensures NextIP(ip) == Increment(ip) && IsCanonical(NextIP(ip)) && NextIP(ip)[0] != 0
    ensures IpToInt(NextIP(ip)) == Value(NextIP(ip)) == Value(ip) + 1
    ensures PrevIP(NextIP(ip)) == ip
  {
    NextIPIsIncrement(ip);
    LeadingByteOfIncrement(ip);
    ValueOfIncrement(ip);
    BytesOfValue(ip);
  }

  /** With a zero top byte the result is too short to be an address: 0.0.0.0/8 starts at the one byte "1". */
  lemma NextIPLosesLeadingZeros()
    ensures NextIP([0, 0, 0, 0]) == [1] && To16(NextIP([0, 0, 0, 0])).None?
  {
    assert Value([0, 0, 0, 0]) == 0 by {
      assert [0, 0, 0, 0][..3] == [0, 0, 0] && [0, 0, 0][..2] == [0, 0] && [0, 0][..1] == [0];
    }
    assert Bytes(1) == Bytes(0) + [1];
  }

  // ---------- Cmp is the byte order ----------

  predicate LexLess(a: seq<Byte>, b: seq<Byte>)
    requires |a| == |b|
  {
    a != [] && (a[0] < b[0] || (a[0] == b[0] && LexLess(a[1..], b[1..])))
  }

  lemma {:induction false} LexLessIsValueLess(a: seq<Byte>, b: seq<Byte>)
    requires |a| == |b|
    ensures LexLess(a, b) <==> Value(a) < Value(b)
  {
    if a != [] {
      LexLessIsValueLess(a[1..], b[1..]);
      FrontByteDominates(a, b);
      FrontByteDominates(b, a);
      SplitFront(a);
      SplitFront(b);
    }
  }

  lemma SplitFront(a: seq<Byte>)
    requires a != []
    ensures Value(a) == a[0] * Pow2(8 * (|a| - 1)) + Value(a[1..])
  {
    ValueFromFront(a[0], a[1..]);
    assert a == [a[0]] + a[1..];
  }

  lemma TimesMonotone(x: nat, y: nat, p: nat)
    requires x <= y
    ensures x * p <= y * p
  {
  }

  lemma FrontByteDominates(a: seq<Byte>, b: seq<Byte>)
    requires |a| == |b| > 0
    ensures a[0] < b[0] ==> Value(a) < Value(b)
  {
    if a[0] < b[0] {
      SplitFront(a);
      SplitFront(b);
      ValueBounds(a[1..]);
      TimesMonotone(a[0] + 1, b[0], Pow2(8 * (|a| - 1)));
    }
  }

  lemma CmpIsByteOrder(a: IP, b: IP)
    requires IsCanonical(a) && IsCanonical(b) && |a| == |b|
    ensures Cmp(a, b) < 0 <==> LexLess(a, b)
    ensures Cmp(a, b) == 0 <==> a == b
    ensures Cmp(a, b) > 0 <==> LexLess(b, a)
  {
    LexLessIsValueLess(a, b);
    LexLessIsValueLess(b, a);
    if IpToInt(a) == IpToInt(b) { ValueInjective(a, b); }
  }

  // ---------- Facts the allocation walk uses ----------

  lemma IpToIntOfCanon(ip: IP)
    requires Canon(ip).Some?
    ensures IpToInt(ip) == Value(Canon(ip).value)
  {
  }

  /** The addresses of one length whose top byte is not zero are the numbers between two bounds. */
  lemma AddressOfValue(n: nat, lo: IP, hi: IP)
    requires IsCanonical(lo) && lo[0] != 0 && |hi| == |lo| && Value(lo) <= n <= Value(hi)
    ensures |Bytes(n)| == |lo| && Value(Bytes(n)) == n && Bytes(n)[0] != 0 && IsCanonical(Bytes(n))
  {
    ValueBounds(lo);
    ValueBounds(hi);
    LengthOfBytes(n, |lo|);
    ValueOfBytes(n);
  }
}
