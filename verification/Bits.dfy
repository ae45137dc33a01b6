/** Bits, most significant first, and packing them into fixed-width values. */
module Bits {

  type Bit = x: int | 0 <= x < 2

  function Pow2(n: nat): (p: nat)
    ensures p >= 1
  {
    if n == 0 then 1 else 2 * Pow2(n - 1)
  }

  /** Bit `i` is `value` shifted right by the places after it, masked with 1. */
  function IntToBits(value: nat, bitCount: nat): seq<Bit> {
    seq(bitCount, i requires 0 <= i < bitCount => value / Pow2(bitCount - 1 - i) % 2)
  }

  /** What shifting the bits in one after the other builds up. */
  function FromBits(bits: seq<Bit>): nat {
    if bits == [] then 0
    else 2 * FromBits(bits[..|bits| - 1]) + bits[|bits| - 1]
  }

  lemma {:induction false} Times(d: nat, a: nat, b: nat)
    requires a < b
    ensures d * a + d <= d * b
  {
    if a + 1 == b {
      assert d * (a + 1) == d * a + d;
    } else {
      Times(d, a, b - 1);
      assert d * b == d * (b - 1) + d;
    }
  }

  lemma QuotientIs(v: nat, d: nat, q: nat, r: nat)
    requires d >= 1 && v == d * q + r && r < d
    ensures v / d == q
  {
    var q' := v / d;
    assert d * q' <= v < d * q' + d;
    if q' < q {
      Times(d, q', q);
    } else if q < q' {
      Times(d, q, q');
    }
  }

  lemma HalvedThenDivided(v: nat, p: nat)
    requires p >= 1
    ensures v / 2 / p == v / (2 * p)
  {
    var s, t := v / 2 / p, v / 2 % p;
    assert v / 2 == p * s + t;
    assert 2 * (p * s) == 2 * p * s;
    QuotientIs(v, 2 * p, s, 2 * t + v % 2);
  }

  lemma BitOfHalf(value: nat, bitCount: nat, i: nat)
    requires i + 1 < bitCount
    ensures IntToBits(value, bitCount)[i] == IntToBits(value / 2, bitCount - 1)[i]
  {
    var p := Pow2(bitCount - 2 - i);
    HalvedThenDivided(value, p);
    assert Pow2(bitCount - 1 - i) == 2 * p;
    assert value / Pow2(bitCount - 1 - i) == value / (2 * p);
    assert IntToBits(value / 2, bitCount - 1)[i] == value / 2 / p % 2;
  }

  /** The low bit, and the others as those of half the value. */
  lemma LastBit(value: nat, bitCount: nat)
    requires bitCount >= 1
    ensures IntToBits(value, bitCount) == IntToBits(value / 2, bitCount - 1) + [value % 2]
  {
    forall i | 0 <= i < bitCount - 1
      ensures IntToBits(value, bitCount)[i] == IntToBits(value / 2, bitCount - 1)[i]
    {
      BitOfHalf(value, bitCount, i);
    }
    assert IntToBits(value, bitCount)[bitCount - 1] == value / Pow2(0) % 2;
  }

  lemma {:induction false} FromBitsOfInt(value: nat, bitCount: nat)
    requires value < Pow2(bitCount)
    ensures FromBits(IntToBits(value, bitCount)) == value
  {
    if bitCount > 0 {
      LastBit(value, bitCount);
      FromBitsOfInt(value / 2, bitCount - 1);
      var bits := IntToBits(value, bitCount);
      assert bits[..bitCount - 1] == IntToBits(value / 2, bitCount - 1);
    }
  }

  lemma {:induction false} IntOfFromBits(bits: seq<Bit>)
    ensures FromBits(bits) < Pow2(|bits|)
    ensures IntToBits(FromBits(bits), |bits|) == bits
  {
    if bits != [] {
      var n := |bits| - 1;
      IntOfFromBits(bits[..n]);
      LastBit(FromBits(bits), |bits|);
      assert FromBits(bits) / 2 == FromBits(bits[..n]);
    }
  }

  /** The values of the whole `width`-bit groups. */
  function Pack(bits: seq<Bit>, width: nat): seq<nat>
    requires width >= 1
  {
    if |bits| < width then [] else [FromBits(bits[..width])] + Pack(bits[width..], width)
  }

  function Unpack(values: seq<nat>, width: nat): seq<Bit> {
    if values == [] then [] else IntToBits(values[0], width) + Unpack(values[1..], width)
  }

  lemma {:induction false} UnpackLength(values: seq<nat>, width: nat)
    ensures |Unpack(values, width)| == width * |values|
  {
    if values != [] {
      UnpackLength(values[1..], width);
      assert |values| == |values[1..]| + 1;
      assert width * |values| == width * |values[1..]| + width;
    } else {
      assert |values| == 0;
    }
  }

  lemma {:induction false} PackInvertsUnpack(values: seq<nat>, width: nat)
    requires width >= 1 && forall i :: 0 <= i < |values| ==> values[i] < Pow2(width)
    ensures Pack(Unpack(values, width), width) == values
  {
    if values != [] {
      PackInvertsUnpack(values[1..], width);
      FromBitsOfInt(values[0], width);
      var bits := Unpack(values, width);
      assert bits[..width] == IntToBits(values[0], width);
      assert bits[width..] == Unpack(values[1..], width);
    }
  }

  lemma {:induction false} UnpackInvertsPack(bits: seq<Bit>, width: nat, count: nat)
    requires width >= 1 && |bits| == width * count
    ensures |Pack(bits, width)| == count
    ensures forall i :: 0 <= i < count ==> Pack(bits, width)[i] < Pow2(width)
    ensures Unpack(Pack(bits, width), width) == bits
  {
    if count == 0 {
      assert bits == [];
    } else {
      assert width * count == width + width * (count - 1);
      UnpackInvertsPack(bits[width..], width, count - 1);
      IntOfFromBits(bits[..width]);
      assert bits == bits[..width] + bits[width..];
    }
  }
}
