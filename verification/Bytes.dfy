/** Big-endian bytes and two's-complement integers. */
module Bytes {
  import opened Items

  /** v >> 8 * i */
  function ShiftRight(v: nat, i: nat): nat {
    if i == 0 then v else ShiftRight(v, i - 1) / 0x100
  }

  /** b << 8 * i, without loss */
  function ShiftLeft(b: nat, i: nat): nat {
    if i == 0 then b else ShiftLeft(b, i - 1) * 0x100
  }

  /** The low `w` bytes of `v`, most significant first. */
  function BigEndian(v: nat, w: nat): (bs: seq<byte>)
    ensures |bs| == w
  {
    if w == 0 then [] else BigEndian(v / 0x100, w - 1) + [v % 0x100]
  }

  function ValueOf(bs: seq<byte>): nat {
    if bs == [] then 0 else ValueOf(Front(bs)) * 0x100 + Last(bs)
  }

  /** 256 to the power of `w` */
  function Power(w: nat): (p: nat)
    ensures p > 0
  {
    if w == 0 then 1 else 0x100 * Power(w - 1)
  }

  lemma {:induction false} ValueBound(bs: seq<byte>)
    ensures ValueOf(bs) < Power(|bs|)
  {
    if bs != [] {
      ValueBound(Front(bs));
    }
  }

  lemma {:induction false} ValueOfBigEndian(v: nat, w: nat)
    requires v < Power(w)
    ensures ValueOf(BigEndian(v, w)) == v
  {
    if w > 0 {
      ValueOfBigEndian(v / 0x100, w - 1);
      assert Front(BigEndian(v, w)) == BigEndian(v / 0x100, w - 1);
    }
  }

  lemma {:induction false} BigEndianOfValue(bs: seq<byte>)
    ensures BigEndian(ValueOf(bs), |bs|) == bs
  {
    if bs != [] {
      BigEndianOfValue(Front(bs));
      assert bs == Front(bs) + [Last(bs)];
    }
  }

  /** Bytes above the `w` lowest do not show. */
  lemma {:induction false} BigEndianWraps(v: nat, w: nat, k: nat)
    ensures BigEndian(v + Power(w) * k, w) == BigEndian(v, w)
  {
    if w > 0 {
      var q := Power(w - 1) * k;
      assert Power(w) * k == 0x100 * q;
      assert (v + 0x100 * q) / 0x100 == v / 0x100 + q;
      BigEndianWraps(v / 0x100, w - 1, k);
    }
  }

  lemma PowerOfWidth(w: Width)
    ensures Power(w) == Modulus(w)
  {
    assert Power(2) == 0x100 * Power(1) && Power(1) == 0x100;
    assert Power(4) == 0x100 * (0x100 * Power(2));
    assert Power(6) == 0x100 * (0x100 * Power(4));
    assert Power(8) == 0x100 * (0x100 * Power(6));
  }

  /** The 64-bit pattern of an integer. */
  function Bits(v: int): nat
    requires 0 <= v + Modulus(8)
  {
    if v < 0 then v + Modulus(8) else v
  }

  /** The integer a `w`-byte pattern stands for. */
  function FromBits(u: nat, w: Width): int {
    if u >= Modulus(w) / 2 then u - Modulus(w) else u
  }

  lemma SignedRoundTrip(v: int, w: Width)
    requires Signed(w).Fits(v)
    ensures FromBits(ValueOf(BigEndian(Bits(v), w)), w) == v
  {
    hide Power, BigEndian, ValueOf;
    PowerOfWidth(w);
    if v >= 0 {
      ValueOfBigEndian(v, w);
    } else {
      var low := v + Modulus(w);
      var k := Copies(w);
      assert Bits(v) == low + Power(w) * k by {
        CopiesFill(w);
      }
      BigEndianWraps(low, w, k);
      ValueOfBigEndian(low, w);
    }
  }

  /** How often the `w`-byte range fits into the 64-bit range, once less. */
  function Copies(w: Width): nat {
    if w == 1 then 0xFF_FFFF_FFFF_FFFF else if w == 2 then 0xFFFF_FFFF_FFFF else if w == 4 then 0xFFFF_FFFF else 0
  }

  lemma CopiesFill(w: Width)
    ensures Modulus(w) + Modulus(w) * Copies(w) == Modulus(8)
  {
  }

  lemma FromBitsFits(bs: seq<byte>, w: Width)
    requires |bs| == w
    ensures Signed(w).Fits(FromBits(ValueOf(bs), w)) && Unsigned(w).Fits(ValueOf(bs))
  {
    hide Power, ValueOf;
    PowerOfWidth(w);
    ValueBound(bs);
  }
}
