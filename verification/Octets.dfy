/** Bytes, digests and their lowercase hex form. */
module Octets {
  import opened BlobRefsText

  type Byte = x: int | 0 <= x < 256

  type Bytes = seq<Byte>

  /** A SHA-256 digest. The hash function itself is a parameter wherever it matters. */
  type Digest = d: Bytes | |d| == 32 witness seq(32, i => 0)

  function LowerDigit(n: nat): (c: char)
    requires n < 16
    ensures IsHexDigit(c)
  {
    "0123456789abcdef"[n]
  }

  function LowerHex(bytes: Bytes): string {
    if bytes == [] then ""
    else [LowerDigit(bytes[0] / 16), LowerDigit(bytes[0] % 16)] + LowerHex(bytes[1..])
  }

  lemma {:induction false} LowerHexDigits(bytes: Bytes)
    ensures |LowerHex(bytes)| == 2 * |bytes|
    ensures forall i :: 0 <= i < |LowerHex(bytes)| ==> IsHexDigit(LowerHex(bytes)[i])
  {
    if bytes != [] {
      LowerHexDigits(bytes[1..]);
    }
  }

  lemma DigestNamesBlob(digest: Digest)
    ensures IsBlobId(LowerHex(digest))
  {
    LowerHexDigits(digest);
  }
}
