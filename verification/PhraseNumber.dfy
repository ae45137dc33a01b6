/** The phrase as arithmetic: a number written in base 256 with a checksum digit, rewritten in base 2048. */
module PhraseNumber {
  import opened Octets
  import opened Bits
  import opened RecoveryPhrase

  /** Most significant digit first. */
  function Number(digits: seq<nat>, base: nat): nat {
    if digits == [] then 0
    else Number(digits[..|digits| - 1], base) * base + digits[|digits| - 1]
  }

  lemma {:induction false} NumberIsInjective(a: seq<nat>, b: seq<nat>, base: nat)
    requires |a| == |b| && Number(a, base) == Number(b, base)
    requires forall i :: 0 <= i < |a| ==> a[i] < base && b[i] < base
    ensures a == b
  {
    if a != [] {
      var n := |a| - 1;
      var x, y := Number(a[..n], base), Number(b[..n], base);
      SameQuotient(base, x, a[n], y, b[n]);
      NumberIsInjective(a[..n], b[..n], base);
      assert a == a[..n] + [a[n]] && b == b[..n] + [b[n]];
    }
  }

  lemma SameQuotient(base: nat, x: nat, c: nat, y: nat, d: nat)
    requires x * base + c == y * base + d && c < base && d < base
    ensures x == y && c == d
  {
    assert x * base == base * x && y * base == base * y;
    if x < y {
      Times(base, x, y);
    } else if y < x {
      Times(base, y, x);
    }
  }

  lemma {:induction false} FromBitsConcat(a: seq<Bit>, b: seq<Bit>)
    ensures FromBits(a + b) == FromBits(a) * Pow2(|b|) + FromBits(b)
  {
    if b == [] {
      assert a + b == a;
    } else {
      var n := |b| - 1;
      FromBitsConcat(a, b[..n]);
      assert (a + b)[..|a + b| - 1] == a + b[..n];
      assert 2 * (FromBits(a) * Pow2(n)) == FromBits(a) * (2 * Pow2(n));
    }
  }

  lemma {:induction false} UnpackLast(values: seq<nat>, width: nat)
    requires values != []
    ensures Unpack(values, width) == Unpack(values[..|values| - 1], width) + IntToBits(values[|values| - 1], width)
  {
    var n := |values| - 1;
    if n > 0 {
      UnpackLast(values[1..], width);
      assert values[1..][..n - 1] == values[..n][1..];
    } else {
      assert values[1..] == [] && values[..n] == [];
    }
  }

  lemma {:induction false} UnpackedNumber(values: seq<nat>, width: nat)
    requires forall i :: 0 <= i < |values| ==> values[i] < Pow2(width)
    ensures FromBits(Unpack(values, width)) == Number(values, Pow2(width))
  {
    if values != [] {
      var n := |values| - 1;
      UnpackedNumber(values[..n], width);
      UnpackLast(values, width);
      FromBitsConcat(Unpack(values[..n], width), IntToBits(values[n], width));
      FromBitsOfInt(values[n], width);
    }
  }

  lemma UpperHalf(bits: seq<Bit>)
    requires |bits| == 8
    ensures FromBits(bits[..4]) == FromBits(bits) / 16
  {
    assert Pow2(4) == 16;
    IntOfFromBits(bits[4..]);
    FromBitsConcat(bits[..4], bits[4..]);
    assert bits == bits[..4] + bits[4..];
  }

  /** The checksum is the upper half of the first byte of the hash. */
  lemma ChecksumIs(sha: Bytes -> Digest, entropy: Bytes)
    ensures FromBits(ChecksumBits(sha, entropy)) == sha(entropy)[0] / 16
  {
    var h := sha(entropy)[0];
    assert h < Pow2(8) by {
      assert Pow2(8) == 256;
    }
    FromBitsOfInt(h, 8);
    UpperHalf(IntToBits(h, 8));
  }

  lemma PhraseBitsNumber(sha: Bytes -> Digest, entropy: Entropy)
    ensures FromBits(PhraseBits(sha, entropy)) == Number(entropy, 256) * 16 + sha(entropy)[0] / 16
  {
    assert Pow2(8) == 256 && Pow2(4) == 16;
    UnpackedNumber(entropy, 8);
    FromBitsConcat(EntropyBits(entropy), ChecksumBits(sha, entropy));
    ChecksumIs(sha, entropy);
  }

  lemma IndicesNumber(sha: Bytes -> Digest, entropy: Entropy)
    ensures var indices := Pack(PhraseBits(sha, entropy), 11);
            && |indices| == 12 && (forall i :: 0 <= i < 12 ==> indices[i] < 2048)
            && Number(indices, 2048) == Number(entropy, 256) * 16 + sha(entropy)[0] / 16
  {
    assert Pow2(11) == 2048;
    PhraseBitsShape(sha, entropy);
    UnpackedNumber(Pack(PhraseBits(sha, entropy), 11), 11);
    PhraseBitsNumber(sha, entropy);
  }

  /**
   Main result: the phrase is the twelve listed words whose places, read as digits of base 2048,
   make the entropy's number followed by the upper four bits of the first byte of its hash.
   */
  lemma PhraseIffNumber(sha: Bytes -> Digest, wordlist: seq<string>, entropy: Entropy, places: seq<nat>)
    requires GoodWordlist(wordlist) && |places| == 12 && forall i :: 0 <= i < 12 ==> places[i] < 2048
    ensures (forall i :: 0 <= i < 12 ==> Phrase(sha, wordlist, entropy)[i] == wordlist[places[i]]) <==>
            Number(places, 2048) == Number(entropy, 256) * 16 + sha(entropy)[0] / 16
  {
    var indices := Pack(PhraseBits(sha, entropy), 11);
    IndicesNumber(sha, entropy);
    assert forall i :: 0 <= i < 12 ==> Phrase(sha, wordlist, entropy)[i] == wordlist[indices[i]];
    if forall i :: 0 <= i < 12 ==> Phrase(sha, wordlist, entropy)[i] == wordlist[places[i]] {
      SameWordsSameIndices(wordlist, places, indices);
    }
    if Number(places, 2048) == Number(indices, 2048) {
      NumberIsInjective(places, indices, 2048);
    }
  }
}
