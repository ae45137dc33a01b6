/** Certificate fingerprints: as the server prints them, as the client prints them, and as the client reads them. */
module Fingerprint {
  import opened Wrappers
  import opened Octets
  import opened Text
  import opened Ascii

  const FINGERPRINT_LENGTH := 32

  predicate IsSeparator(c: char) {
    c == ':' || IsSpace(c) || c == '-'
  }

  /** The value of a hex digit of either case. */
  function DigitValue(c: char): (r: Option<nat>)
    ensures r.Some? ==> r.value < 16
  {
    if '0' <= c <= '9' then Some((c - '0') as nat)
    else if 'a' <= c <= 'f' then Some((c - 'a') as nat + 10)
    else if 'A' <= c <= 'F' then Some((c - 'A') as nat + 10)
    else None
  }

  function UpperDigit(n: nat): (c: char)
    requires n < 16
    ensures DigitValue(c) == Some(n) && UpperChar(c) == c && !IsSeparator(c)
  {
    if n < 10 then '0' + n as char else 'A' + (n - 10) as char
  }

  // ---- The server's printer ----

  /** "%02X" of a byte. */
  function TwoUpperDigits(b: Byte): string {
    [UpperDigit(b / 16), UpperDigit(b % 16)]
  }

  function ServerParts(bytes: Bytes): seq<string> {
    seq(|bytes|, i requires 0 <= i < |bytes| => TwoUpperDigits(bytes[i]))
  }

  function ServerText(bytes: Bytes): string {
    Join(ServerParts(bytes), ":")
  }

  method ServerFingerprint(sum: Digest) returns (text: string)
    ensures text == ServerText(sum)
  {
    var parts := new string[|sum|](_ => "");
    for i := 0 to |sum|
      invariant parts[..i] == ServerParts(sum)[..i]
    {
      parts[i] := TwoUpperDigits(sum[i]);
      assert parts[..i + 1] == parts[..i] + [TwoUpperDigits(sum[i])];
    }
    assert parts[..] == ServerParts(sum);
    text := Join(parts[..], ":");
  }

  // ---- The client's printer ----

  function LowerDigits(b: nat): string {
    if b < 16 then [LowerDigit(b)] else LowerDigits(b / 16) + [LowerDigit(b % 16)]
  }

  function PadLeft(s: string, width: nat, padding: char): string
    decreases width - |s|
  {
    if |s| >= width then s else PadLeft([padding] + s, width, padding)
  }

  function ClientPart(b: Byte): string {
    ToUpper(PadLeft(LowerDigits(b), 2, '0'))
  }

  function FormatFingerprint(bytes: Bytes): string {
    Join(seq(|bytes|, i requires 0 <= i < |bytes| => ClientPart(bytes[i])), ":")
  }

  lemma UpperOfLowerDigit(n: nat)
    requires n < 16
    ensures UpperChar(LowerDigit(n)) == UpperDigit(n)
  {
  }

  lemma SamePart(b: Byte)
    ensures ClientPart(b) == TwoUpperDigits(b)
  {
    UpperOfLowerDigit(b / 16);
    UpperOfLowerDigit(b % 16);
    var h, l := LowerDigit(b / 16), LowerDigit(b % 16);
    assert PadLeft(LowerDigits(b), 2, '0') == [h, l];
  }

  /** The two printers agree on every byte sequence. */
  lemma PrintersAgree(bytes: Bytes)
    ensures FormatFingerprint(bytes) == ServerText(bytes)
  {
    var client := seq(|bytes|, i requires 0 <= i < |bytes| => ClientPart(bytes[i]));
    forall i | 0 <= i < |bytes|
      ensures client[i] == ServerParts(bytes)[i]
    {
      SamePart(bytes[i]);
    }
    assert client == ServerParts(bytes);
  }

  /** Two capital hex digits for each byte, and a colon between one byte and the next. */
  lemma {:induction false} PrintedLayout(bytes: Bytes, i: nat)
    requires i < |bytes|
    ensures |ServerText(bytes)| == 3 * |bytes| - 1
    ensures ServerText(bytes)[3 * i] == UpperDigit(bytes[i] / 16) && ServerText(bytes)[3 * i + 1] == UpperDigit(bytes[i] % 16)
    ensures i + 1 < |bytes| ==> ServerText(bytes)[3 * i + 2] == ':'
  {
    if |bytes| > 1 {
      var rest := bytes[1..];
      assert ServerParts(bytes)[1..] == ServerParts(rest);
      assert ServerText(bytes) == TwoUpperDigits(bytes[0]) + ":" + ServerText(rest);
      PrintedLayout(rest, if i == 0 then 0 else i - 1);
      if i > 0 {
        assert ServerText(bytes)[3 * i] == ServerText(rest)[3 * (i - 1)];
        assert ServerText(bytes)[3 * i + 1] == ServerText(rest)[3 * (i - 1) + 1];
        assert i + 1 < |bytes| ==> ServerText(bytes)[3 * i + 2] == ServerText(rest)[3 * (i - 1) + 2];
      }
    }
  }

  // ---- The client's parser ----

  predicate AllHex(s: string) {
    forall i :: 0 <= i < |s| ==> DigitValue(s[i]).Some?
  }

  function PairValue(s: string, i: nat): (b: Byte)
    requires AllHex(s) && 2 * i + 1 < |s|
  {
    16 * DigitValue(s[2 * i]).value + DigitValue(s[2 * i + 1]).value
  }

  function PairValues(s: string): (bytes: Bytes)
    requires AllHex(s)
    ensures |bytes| == |s| / 2
  {
    seq(|s| / 2, i requires 0 <= i < |s| / 2 => PairValue(s, i))
  }

  function Parsed(input: string): Option<Bytes> {
    var stripped := RemoveAll(input, IsSeparator);
    if |stripped| == 2 * FINGERPRINT_LENGTH && AllHex(stripped) then Some(PairValues(stripped)) else None
  }

  method TryParse(input: string) returns (r: Option<Bytes>)
    ensures r == Parsed(input)
  {
    var stripped := RemoveAll(input, IsSeparator);
    if |stripped| != FINGERPRINT_LENGTH * 2 {
      return None;
    }
    if !AllHex(stripped) {
      return None;
    }
    var bytes := new Byte[FINGERPRINT_LENGTH];
    for i := 0 to FINGERPRINT_LENGTH
      invariant bytes[..i] == PairValues(stripped)[..i]
    {
      bytes[i] := PairValue(stripped, i);
      assert bytes[..i + 1] == bytes[..i] + [PairValue(stripped, i)];
    }
    assert bytes[..] == PairValues(stripped);
    r := Some(bytes[..]);
  }

  // ---- Round trips ----

  predicate EitherCase(c: char, d: char) {
    c == d || ('A' <= d <= 'Z' && c == d - 'A' + 'a')
  }

  /** The digits of the printed form, without the colons. */
  function HexText(bytes: Bytes): string {
    Concat(ServerParts(bytes))
  }

  lemma {:induction false} HexTextDigits(bytes: Bytes)
    ensures |HexText(bytes)| == 2 * |bytes|
    ensures forall i :: 0 <= i < |bytes| ==>
              HexText(bytes)[2 * i] == UpperDigit(bytes[i] / 16) && HexText(bytes)[2 * i + 1] == UpperDigit(bytes[i] % 16)
  {
    if bytes != [] {
      HexTextDigits(bytes[1..]);
      assert ServerParts(bytes)[1..] == ServerParts(bytes[1..]);
      assert HexText(bytes) == TwoUpperDigits(bytes[0]) + HexText(bytes[1..]);
      forall i | 1 <= i < |bytes|
        ensures HexText(bytes)[2 * i] == HexText(bytes[1..])[2 * (i - 1)]
        ensures HexText(bytes)[2 * i + 1] == HexText(bytes[1..])[2 * (i - 1) + 1]
      {
      }
    }
  }

  /** Digit `k` of the hex form. */
  function Nibble(bytes: Bytes, k: nat): (n: nat)
    requires k < 2 * |bytes|
    ensures n < 16
  {
    if k % 2 == 0 then bytes[k / 2] / 16 else bytes[k / 2] % 16
  }

  lemma HexDigitAt(bytes: Bytes, k: nat)
    requires k < 2 * |bytes|
    ensures |HexText(bytes)| == 2 * |bytes| && HexText(bytes)[k] == UpperDigit(Nibble(bytes, k))
  {
    HexTextDigits(bytes);
    assert k == 2 * (k / 2) + k % 2;
  }

  lemma SpellsDigitIff(c: char, n: nat)
    requires n < 16
    ensures DigitValue(c) == Some(n) <==> UpperChar(c) == UpperDigit(n)
    ensures EitherCase(c, UpperDigit(n)) <==> !IsSeparator(c) && UpperChar(c) == UpperDigit(n)
  {
  }

  lemma ValuesMakeNibbles(s: string, bytes: Bytes)
    requires |s| == 2 * |bytes|
    ensures AllHex(s) && PairValues(s) == bytes ==> forall k :: 0 <= k < |s| ==> DigitValue(s[k]) == Some(Nibble(bytes, k))
  {
    if AllHex(s) && PairValues(s) == bytes {
      forall k | 0 <= k < |s|
        ensures DigitValue(s[k]) == Some(Nibble(bytes, k))
      {
        assert PairValues(s)[k / 2] == PairValue(s, k / 2);
        assert k == 2 * (k / 2) + k % 2;
      }
    }
  }

  lemma NibblesMakeValues(s: string, bytes: Bytes)
    requires |s| == 2 * |bytes|
    requires forall k :: 0 <= k < |s| ==> DigitValue(s[k]) == Some(Nibble(bytes, k))
    ensures AllHex(s) && PairValues(s) == bytes
  {
    forall i | 0 <= i < |bytes|
      ensures PairValues(s)[i] == bytes[i]
    {
      assert DigitValue(s[2 * i]) == Some(Nibble(bytes, 2 * i)) && DigitValue(s[2 * i + 1]) == Some(Nibble(bytes, 2 * i + 1));
    }
  }

  /** Hex digits have the values of `bytes` exactly when, in upper case, they are its hex form. */
  lemma ValuesIff(s: string, bytes: Bytes)
    requires |s| == 2 * |bytes|
    ensures AllHex(s) && PairValues(s) == bytes <==> MapText(UpperChar, s) == HexText(bytes)
  {
    HexTextDigits(bytes);
    var upper := MapText(UpperChar, s);
    forall k | 0 <= k < |s|
      ensures DigitValue(s[k]) == Some(Nibble(bytes, k)) <==> upper[k] == HexText(bytes)[k]
    {
      HexDigitAt(bytes, k);
      SpellsDigitIff(s[k], Nibble(bytes, k));
    }
    ValuesMakeNibbles(s, bytes);
    if upper == HexText(bytes) {
      NibblesMakeValues(s, bytes);
    }
  }

  /**
   Main result: an input is read as a digest if and only if it spells out the digest's hex form, in
   either case, with separators anywhere.
   */
  lemma ReadAsIff(input: string, digest: Digest)
    ensures Parsed(input) == Some(digest) <==> Reads(input, HexText(digest), IsSeparator, EitherCase)
    ensures forall c :: IsSeparator(c) <==> c == ':' || c == '-' || c == ' ' || '\t' <= c <= '\r'
  {
    var stripped := RemoveAll(input, IsSeparator);
    HexTextDigits(digest);
    forall c, k | 0 <= k < 64
      ensures EitherCase(c, HexText(digest)[k]) <==> !IsSeparator(c) && UpperChar(c) == HexText(digest)[k]
    {
      HexDigitAt(digest, k);
      SpellsDigitIff(c, Nibble(digest, k));
    }
    ReadsIff(input, HexText(digest), IsSeparator, EitherCase, UpperChar);
    assert |MapText(UpperChar, stripped)| == |stripped|;
    if |stripped| == 64 {
      ValuesIff(stripped, digest);
    }
  }

  /** Reading undoes both printers. */
  lemma ParseInvertsPrinters(digest: Digest)
    ensures Parsed(ServerText(digest)) == Some(digest)
    ensures Parsed(FormatFingerprint(digest)) == Some(digest)
  {
    PrintersAgree(digest);
    RemoveJoints(ServerParts(digest), ':', IsSeparator);
    var hex := HexText(digest);
    HexTextDigits(digest);
    forall k | 0 <= k < |hex|
      ensures UpperChar(hex[k]) == hex[k]
    {
      HexDigitAt(digest, k);
    }
    assert MapText(UpperChar, hex) == hex;
    ValuesIff(hex, digest);
  }

  lemma PairSpells(b: Byte, rest: string, hex: string)
    requires MapText(UpperChar, rest) == hex
    requires forall k :: 0 <= k < |rest| ==> !IsSeparator(rest[k])
    ensures var text := [LowerDigit(b / 16), LowerDigit(b % 16)] + rest;
            && MapText(UpperChar, text) == TwoUpperDigits(b) + hex
            && forall k :: 0 <= k < |text| ==> !IsSeparator(text[k])
  {
    UpperOfLowerDigit(b / 16);
    UpperOfLowerDigit(b % 16);
  }

  lemma {:induction false} LowerHexSpells(bytes: Bytes)
    ensures |LowerHex(bytes)| == 2 * |bytes|
    ensures MapText(UpperChar, LowerHex(bytes)) == HexText(bytes)
    ensures forall k :: 0 <= k < |LowerHex(bytes)| ==> !IsSeparator(LowerHex(bytes)[k])
  {
    if bytes != [] {
      LowerHexSpells(bytes[1..]);
      PairSpells(bytes[0], LowerHex(bytes[1..]), HexText(bytes[1..]));
      assert ServerParts(bytes)[1..] == ServerParts(bytes[1..]);
    } else {
      assert ServerParts(bytes) == [];
    }
  }

  /** So it undoes the plain lowercase form, the one blobs are named by; different digests make different names. */
  lemma ParseInvertsLowerHex(digest: Digest)
    ensures Parsed(LowerHex(digest)) == Some(digest)
  {
    LowerHexSpells(digest);
    NothingToRemove(LowerHex(digest), IsSeparator);
    ValuesIff(LowerHex(digest), digest);
  }

  lemma LowerHexIsInjective(a: Digest, b: Digest)
    requires LowerHex(a) == LowerHex(b)
    ensures a == b
  {
    ParseInvertsLowerHex(a);
    ParseInvertsLowerHex(b);
  }

  // ---- Comparing with a pinned digest ----

  method ConstantTimeBytesEqual(a: seq<bv8>, b: seq<bv8>) returns (equal: bool)
    ensures equal <==> a == b
  {
    if |a| != |b| {
      return false;
    }
    var diff: bv8 := 0;
    for i := 0 to |a|
      invariant diff == 0 <==> a[..i] == b[..i]
    {
      OrOfXor(diff, a[i], b[i]);
      assert a[..i + 1] == a[..i] + [a[i]] && b[..i + 1] == b[..i] + [b[i]];
      diff := diff | (a[i] ^ b[i]);
    }
    assert a[..|a|] == a && b[..|b|] == b;
    equal := diff == 0;
  }

  lemma OrOfXor(d: bv8, x: bv8, y: bv8)
    ensures d | (x ^ y) == 0 <==> d == 0 && x == y
  {
  }
}
