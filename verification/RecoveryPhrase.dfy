/**
 The 12-word recovery phrase: 128 bits of entropy and 4 bits of their SHA-256, in twelve 11-bit
 indices into a list of 2048 words (BIP-39, section "Generating the mnemonic"). The hash and the
 word list are parameters.
 */
module RecoveryPhrase {
  import opened Wrappers
  import opened Octets
  import opened Bits
  import opened Text
  import Ascii

  const WORD_COUNT := 12
  const ENTROPY_BYTES := 16
  const CHECKSUM_BITS := 4
  const BITS_PER_WORD := 11
  const WORDLIST_LENGTH := 2048

  datatype Error = WrongWordlistLength

  type Entropy = e: Bytes | |e| == 16 witness seq(16, i => 0)

  // ---- Encoding ----

  function ChecksumBits(sha: Bytes -> Digest, entropy: Bytes): (bits: seq<Bit>)
    ensures |bits| == CHECKSUM_BITS
  {
    IntToBits(sha(entropy)[0], 8)[0..CHECKSUM_BITS]
  }

  function EntropyBits(entropy: Bytes): seq<Bit> {
    Unpack(entropy, 8)
  }

  function PhraseBits(sha: Bytes -> Digest, entropy: Bytes): seq<Bit> {
    EntropyBits(entropy) + ChecksumBits(sha, entropy)
  }

  function WordsAt(wordlist: seq<string>, indices: seq<nat>): seq<string>
    requires forall i :: 0 <= i < |indices| ==> indices[i] < |wordlist|
  {
    seq(|indices|, i requires 0 <= i < |indices| => wordlist[indices[i]])
  }

  lemma PhraseBitsShape(sha: Bytes -> Digest, entropy: Entropy)
    ensures |EntropyBits(entropy)| == 128 && |PhraseBits(sha, entropy)| == 132
    ensures Pack(EntropyBits(entropy), 8) == entropy
    ensures |Pack(PhraseBits(sha, entropy), BITS_PER_WORD)| == WORD_COUNT
    ensures forall i :: 0 <= i < WORD_COUNT ==> Pack(PhraseBits(sha, entropy), BITS_PER_WORD)[i] < WORDLIST_LENGTH
    ensures Unpack(Pack(PhraseBits(sha, entropy), BITS_PER_WORD), BITS_PER_WORD) == PhraseBits(sha, entropy)
  {
    assert Pow2(8) == 256 && Pow2(11) == 2048;
    UnpackLength(entropy, 8);
    PackInvertsUnpack(entropy, 8);
    UnpackInvertsPack(PhraseBits(sha, entropy), BITS_PER_WORD, WORD_COUNT);
  }

  ghost function Phrase(sha: Bytes -> Digest, wordlist: seq<string>, entropy: Entropy): (words: seq<string>)
    requires |wordlist| == WORDLIST_LENGTH
    ensures |words| == WORD_COUNT
  {
    PhraseBitsShape(sha, entropy);
    WordsAt(wordlist, Pack(PhraseBits(sha, entropy), BITS_PER_WORD))
  }

  // ---- The loops ----

  /** The inner loop of both conversions below. */
  method ShiftIn(bits: seq<Bit>, start: nat, width: nat) returns (value: nat)
    requires start + width <= |bits|
    ensures value == FromBits(bits[start..start + width])
  {
    value := 0;
    for j := 0 to width
      invariant value == FromBits(bits[start..start + j])
    {
      assert bits[start..start + j + 1][..j] == bits[start..start + j];
      value := value * 2 + bits[start + j];
    }
  }

  lemma PackFrom(bits: seq<Bit>, start: nat, width: nat)
    requires width >= 1 && start + width <= |bits|
    ensures |bits[start..start + width]| == width
    ensures Pack(bits[start..], width) == [FromBits(bits[start..start + width])] + Pack(bits[start + width..], width)
  {
    assert bits[start..][..width] == bits[start..start + width];
    assert bits[start..][width..] == bits[start + width..];
  }

  method BitsToIndices(bits: seq<Bit>) returns (indices: seq<nat>)
    requires |bits| % BITS_PER_WORD == 0
    ensures indices == Pack(bits, BITS_PER_WORD)
  {
    indices := [];
    var i := 0;
    assert bits[0..] == bits;
    while i < |bits|
      invariant 0 <= i <= |bits| && i % BITS_PER_WORD == 0
      invariant Pack(bits, BITS_PER_WORD) == indices + Pack(bits[i..], BITS_PER_WORD)
    {
      PackFrom(bits, i, BITS_PER_WORD);
      var value := ShiftIn(bits, i, BITS_PER_WORD);
      Regroup(indices, value, Pack(bits[i + BITS_PER_WORD..], BITS_PER_WORD));
      indices := indices + [value];
      i := i + BITS_PER_WORD;
    }
  }

  lemma EightBits(bits: seq<Bit>)
    requires |bits| == 8
    ensures FromBits(bits) < 256
  {
    IntOfFromBits(bits);
    assert Pow2(8) == 256;
  }

  lemma Regroup(done: seq<nat>, value: nat, rest: seq<nat>)
    ensures done + ([value] + rest) == (done + [value]) + rest
  {
  }

  /** Bits after the last whole byte are left out. */
  method BitsToBytes(bits: seq<Bit>) returns (bytes: array<Byte>)
    ensures fresh(bytes) && bytes[..] == Pack(bits, 8)
  {
    bytes := new Byte[|bits| / 8];
    assert bits[0..] == bits;
    for i := 0 to bytes.Length
      invariant Pack(bits, 8) == bytes[..i] + Pack(bits[8 * i..], 8)
    {
      PackFrom(bits, 8 * i, 8);
      var value := ShiftIn(bits, 8 * i, 8);
      EightBits(bits[8 * i..8 * i + 8]);
      Regroup(bytes[..i], value, Pack(bits[8 * i + 8..], 8));
      bytes[i] := value;
      assert bytes[..i + 1] == bytes[..i] + [value];
      assert 8 * (i + 1) == 8 * i + 8;
    }
    assert Pack(bits[8 * bytes.Length..], 8) == [] && bytes[..bytes.Length] == bytes[..];
  }

  method Generate(sha: Bytes -> Digest, wordlist: seq<string>, entropy: Entropy) returns (r: Result<seq<string>, Error>)
    ensures |wordlist| != WORDLIST_LENGTH ==> r == Err(WrongWordlistLength)
    ensures |wordlist| == WORDLIST_LENGTH ==> r == Ok(Phrase(sha, wordlist, entropy))
  {
    if |wordlist| != WORDLIST_LENGTH {
      return Err(WrongWordlistLength);
    }
    PhraseBitsShape(sha, entropy);
    var indices := BitsToIndices(PhraseBits(sha, entropy));
    r := Ok(WordsAt(wordlist, indices));
  }

  // ---- Validation ----

  function Normalize(word: string): string {
    Ascii.ToLower(Ascii.Trim(word))
  }

  function NormalizeAll(words: seq<string>): seq<string> {
    seq(|words|, i requires 0 <= i < |words| => Normalize(words[i]))
  }

  function IndexOf(wordlist: seq<string>, word: string): Option<nat> {
    if wordlist == [] then None
    else if wordlist[0] == word then Some(0)
    else
      match IndexOf(wordlist[1..], word)
      case None => None
      case Some(i) => Some(i + 1)
  }

  lemma {:induction false} IndexOfIsFirst(wordlist: seq<string>, word: string)
    ensures IndexOf(wordlist, word).None? <==> word !in wordlist
    ensures IndexOf(wordlist, word).Some? ==>
              var i := IndexOf(wordlist, word).value;
              i < |wordlist| && wordlist[i] == word && word !in wordlist[..i]
  {
    if wordlist != [] && wordlist[0] != word {
      IndexOfIsFirst(wordlist[1..], word);
    }
  }

  /** The indices of the words, if all of them are listed. */
  function IndicesOf(wordlist: seq<string>, words: seq<string>): Option<seq<nat>> {
    if words == [] then Some([])
    else
      var n := |words| - 1;
      match (IndicesOf(wordlist, words[..n]), IndexOf(wordlist, Normalize(words[n])))
      case (Some(indices), Some(i)) => Some(indices + [i])
      case _ => None
  }

  /** The decision: twelve listed words whose last four bits are the checksum of the others. */
  predicate Accepts(sha: Bytes -> Digest, wordlist: seq<string>, words: seq<string>) {
    && |words| == WORD_COUNT
    && var indices := IndicesOf(wordlist, words);
    && indices.Some?
    && var bits := Unpack(indices.value, BITS_PER_WORD);
    && |bits| == 132
    && var entropy := Pack(bits[..128], 8);
    && (forall i :: 0 <= i < |entropy| ==> entropy[i] < 256)
    && bits[128..] == ChecksumBits(sha, entropy)
  }

  lemma {:induction false} IndicesAreInList(wordlist: seq<string>, words: seq<string>)
    ensures var found := IndicesOf(wordlist, words);
            && (found.None? <==> exists i :: 0 <= i < |words| && Normalize(words[i]) !in wordlist)
            && (found.Some? ==>
                  && |found.value| == |words|
                  && forall i :: 0 <= i < |words| ==>
                       found.value[i] < |wordlist| && wordlist[found.value[i]] == Normalize(words[i]))
  {
    if words != [] {
      var n := |words| - 1;
      IndicesAreInList(wordlist, words[..n]);
      IndexOfIsFirst(wordlist, Normalize(words[n]));
      assert forall i :: 0 <= i < n ==> words[..n][i] == words[i];
      if i :| 0 <= i < |words| && Normalize(words[i]) !in wordlist {
        assert i < n ==> Normalize(words[..n][i]) !in wordlist;
      }
    }
  }

  lemma BitsOfIndices(wordlist: seq<string>, words: seq<string>)
    requires |wordlist| == WORDLIST_LENGTH && |words| == WORD_COUNT && IndicesOf(wordlist, words).Some?
    ensures var indices := IndicesOf(wordlist, words).value;
            var bits := Unpack(indices, BITS_PER_WORD);
            && |bits| == 132
            && Pack(bits, BITS_PER_WORD) == indices
            && |Pack(bits[..128], 8)| == ENTROPY_BYTES
            && (forall i :: 0 <= i < ENTROPY_BYTES ==> Pack(bits[..128], 8)[i] < 256)
            && Unpack(Pack(bits[..128], 8), 8) == bits[..128]
  {
    IndicesAreInList(wordlist, words);
    assert Pow2(8) == 256 && Pow2(11) == 2048;
    var indices := IndicesOf(wordlist, words).value;
    UnpackLength(indices, BITS_PER_WORD);
    PackInvertsUnpack(indices, BITS_PER_WORD);
    UnpackInvertsPack(Unpack(indices, BITS_PER_WORD)[..128], 8, ENTROPY_BYTES);
  }

  method IndicesOfWords(wordlist: seq<string>, words: seq<string>) returns (r: Option<seq<nat>>)
    ensures r == IndicesOf(wordlist, words)
  {
    IndicesAreInList(wordlist, words);
    var indices: seq<nat> := [];
    for k := 0 to |words|
      invariant IndicesOf(wordlist, words[..k]) == Some(indices)
    {
      assert words[..k + 1][..k] == words[..k];
      var index := IndexOf(wordlist, Normalize(words[k]));
      if index.None? {
        IndexOfIsFirst(wordlist, Normalize(words[k]));
        return None;
      }
      indices := indices + [index.value];
    }
    assert words[..|words|] == words;
    r := Some(indices);
  }

  method SameBits(claimed: seq<Bit>, actual: seq<Bit>) returns (same: bool)
    ensures same <==> claimed == actual
  {
    if |claimed| != |actual| {
      return false;
    }
    for i := 0 to |claimed|
      invariant claimed[..i] == actual[..i]
    {
      if claimed[i] != actual[i] {
        return false;
      }
    }
    assert claimed == claimed[..|claimed|] && actual == actual[..|claimed|];
    same := true;
  }

  method Validate(sha: Bytes -> Digest, wordlist: seq<string>, words: seq<string>) returns (r: Result<bool, Error>)
    ensures |wordlist| != WORDLIST_LENGTH ==> r == Err(WrongWordlistLength)
    ensures |wordlist| == WORDLIST_LENGTH ==> r == Ok(Accepts(sha, wordlist, words))
  {
    if |wordlist| != WORDLIST_LENGTH {
      return Err(WrongWordlistLength);
    }
    if |words| != WORD_COUNT {
      return Ok(false);
    }
    var indices := IndicesOfWords(wordlist, words);
    if indices.None? {
      return Ok(false);
    }
    BitsOfIndices(wordlist, words);
    var bits := Unpack(indices.value, BITS_PER_WORD);
    var entropy := BitsToBytes(bits[..128]);
    var same := SameBits(bits[128..], ChecksumBits(sha, entropy[..]));
    r := Ok(same);
  }

  // ---- How a word may be written ----

  predicate AllSpaces(s: string) {
    forall k :: 0 <= k < |s| ==> s[k] == ' ' || '\t' <= s[k] <= '\r'
  }

  /** Each letter small or capital. */
  predicate EitherCase(core: string, word: string) {
    && |core| == |word|
    && forall k :: 0 <= k < |word| ==> core[k] == word[k] || ('a' <= word[k] <= 'z' && core[k] == word[k] - 'a' + 'A')
  }

  /** `raw` is the word in either case with any space around it. */
  ghost predicate Writes(raw: string, word: string) {
    exists lead, core, trail :: raw == lead + core + trail && AllSpaces(lead) && AllSpaces(trail) && EitherCase(core, word)
  }

  /** Without capitals, and without space at either end. */
  predicate Clean(word: string) {
    && (forall k :: 0 <= k < |word| ==> !('A' <= word[k] <= 'Z'))
    && (word != "" ==> !AllSpaces(word[..1]) && !AllSpaces(word[|word| - 1..]))
  }

  lemma PadFront(c: char, s: string, lead: string, core: string, trail: string)
    requires Ascii.IsSpace(c) && s == lead + core + trail && AllSpaces(lead)
    ensures [c] + s == ([c] + lead) + core + trail && AllSpaces([c] + lead)
  {
  }

  lemma PadBack(c: char, s: string, lead: string, core: string, trail: string)
    requires Ascii.IsSpace(c) && s == lead + core + trail && AllSpaces(trail)
    ensures s + [c] == lead + core + (trail + [c]) && AllSpaces(trail + [c])
  {
  }

  lemma {:induction false} TrimSplits(s: string) returns (lead: string, trail: string)
    ensures s == lead + Ascii.Trim(s) + trail && AllSpaces(lead) && AllSpaces(trail)
    decreases |s|
  {
    if s != "" && Ascii.IsSpace(s[0]) {
      var front, back := TrimSplits(s[1..]);
      PadFront(s[0], s[1..], front, Ascii.Trim(s[1..]), back);
      assert s == [s[0]] + s[1..];
      return [s[0]] + front, back;
    }
    if s != "" && Ascii.IsSpace(s[|s| - 1]) {
      var n := |s| - 1;
      var front, back := TrimSplits(s[..n]);
      PadBack(s[n], s[..n], front, Ascii.Trim(s[..n]), back);
      assert s == s[..n] + [s[n]];
      return front, back + [s[n]];
    }
    return "", "";
  }

  lemma {:induction false} TrimLead(lead: string, s: string)
    requires AllSpaces(lead)
    ensures Ascii.Trim(lead + s) == Ascii.Trim(s)
  {
    if lead == "" {
      assert lead + s == s;
    } else {
      TrimLead(lead[1..], s);
      assert (lead + s)[1..] == lead[1..] + s;
    }
  }

  lemma {:induction false} TrimTrail(core: string, trail: string)
    requires AllSpaces(trail)
    requires core != "" && !Ascii.IsSpace(core[0]) && !Ascii.IsSpace(core[|core| - 1])
    ensures Ascii.Trim(core + trail) == core
  {
    if trail == "" {
      assert core + trail == core;
    } else {
      var n := |trail| - 1;
      TrimTrail(core, trail[..n]);
      assert (core + trail)[..|core + trail| - 1] == core + trail[..n];
    }
  }

  lemma TrimPadded(lead: string, core: string, trail: string)
    requires AllSpaces(lead) && AllSpaces(trail)
    requires core != "" ==> !Ascii.IsSpace(core[0]) && !Ascii.IsSpace(core[|core| - 1])
    ensures Ascii.Trim(lead + core + trail) == core
  {
    assert lead + core + trail == lead + (core + trail);
    TrimLead(lead, core + trail);
    if core == "" {
      assert core + trail == trail && trail + "" == trail;
      TrimLead(trail, "");
    } else {
      TrimTrail(core, trail);
    }
  }

  /** What is read as a clean word is the word in either case with any space around it. */
  lemma NormalizeIff(raw: string, word: string)
    requires Clean(word)
    ensures Normalize(raw) == word <==> Writes(raw, word)
  {
    if Normalize(raw) == word {
      var lead, trail := TrimSplits(raw);
      var core := Ascii.Trim(raw);
      forall k | 0 <= k < |word|
        ensures core[k] == word[k] || ('a' <= word[k] <= 'z' && core[k] == word[k] - 'a' + 'A')
      {
        assert word[k] == Ascii.LowerChar(core[k]);
      }
      assert EitherCase(core, word);
    }
    if lead, core, trail :| raw == lead + core + trail && AllSpaces(lead) && AllSpaces(trail) && EitherCase(core, word) {
      TrimPadded(lead, core, trail);
      assert Ascii.ToLower(core) == word;
    }
  }

  // ---- What validation means ----

  /** 2048 distinct clean words. */
  ghost predicate GoodWordlist(wordlist: seq<string>) {
    && |wordlist| == WORDLIST_LENGTH
    && (forall i, j :: 0 <= i < j < |wordlist| ==> wordlist[i] != wordlist[j])
    && (forall i :: 0 <= i < |wordlist| ==> Clean(wordlist[i]))
  }

  /** Word for word, in either case and with any space around each. */
  ghost predicate WritesOut(words: seq<string>, phrase: seq<string>) {
    |words| == |phrase| && forall i :: 0 <= i < |phrase| ==> Writes(words[i], phrase[i])
  }

  lemma PhraseIsListed(sha: Bytes -> Digest, wordlist: seq<string>, e: Entropy)
    requires GoodWordlist(wordlist)
    ensures forall i :: 0 <= i < WORD_COUNT ==> Phrase(sha, wordlist, e)[i] in wordlist
  {
    PhraseBitsShape(sha, e);
    var p := Pack(PhraseBits(sha, e), BITS_PER_WORD);
    assert forall i :: 0 <= i < WORD_COUNT ==> Phrase(sha, wordlist, e)[i] == wordlist[p[i]];
  }

  lemma NormalizeAllIff(sha: Bytes -> Digest, wordlist: seq<string>, words: seq<string>, e: Entropy)
    requires GoodWordlist(wordlist)
    ensures NormalizeAll(words) == Phrase(sha, wordlist, e) <==> WritesOut(words, Phrase(sha, wordlist, e))
  {
    var phrase := Phrase(sha, wordlist, e);
    PhraseIsListed(sha, wordlist, e);
    forall i | 0 <= i < |words| && i < WORD_COUNT
      ensures NormalizeAll(words)[i] == phrase[i] <==> Writes(words[i], phrase[i])
    {
      NormalizeIff(words[i], phrase[i]);
    }
  }

  lemma SameWordsSameIndices(wordlist: seq<string>, a: seq<nat>, b: seq<nat>)
    requires GoodWordlist(wordlist) && |a| == |b|
    requires forall i :: 0 <= i < |a| ==> a[i] < |wordlist| && b[i] < |wordlist| && wordlist[a[i]] == wordlist[b[i]]
    ensures a == b
  {
    forall i | 0 <= i < |a|
      ensures a[i] == b[i]
    {
    }
  }

  /** Different entropy, different phrase. */
  lemma PhraseIsInjective(sha: Bytes -> Digest, wordlist: seq<string>, e: Entropy, f: Entropy)
    requires GoodWordlist(wordlist) && Phrase(sha, wordlist, e) == Phrase(sha, wordlist, f)
    ensures e == f
  {
    var p, q := Pack(PhraseBits(sha, e), BITS_PER_WORD), Pack(PhraseBits(sha, f), BITS_PER_WORD);
    PhraseBitsShape(sha, e);
    PhraseBitsShape(sha, f);
    assert forall i :: 0 <= i < WORD_COUNT ==> Phrase(sha, wordlist, e)[i] == wordlist[p[i]] && Phrase(sha, wordlist, f)[i] == wordlist[q[i]];
    SameWordsSameIndices(wordlist, p, q);
    assert EntropyBits(e) == PhraseBits(sha, e)[..128] == PhraseBits(sha, f)[..128] == EntropyBits(f);
  }

  /** A phrase that reads as an encoded entropy is accepted. */
  lemma EncodedIsAccepted(sha: Bytes -> Digest, wordlist: seq<string>, words: seq<string>, e: Entropy)
    requires GoodWordlist(wordlist) && NormalizeAll(words) == Phrase(sha, wordlist, e)
    ensures Accepts(sha, wordlist, words)
  {
    var p := Pack(PhraseBits(sha, e), BITS_PER_WORD);
    PhraseBitsShape(sha, e);
    IndicesAreInList(wordlist, words);
    assert |words| == |NormalizeAll(words)| == WORD_COUNT;
    forall i | 0 <= i < WORD_COUNT
      ensures Normalize(words[i]) == wordlist[p[i]]
    {
      assert NormalizeAll(words)[i] == Phrase(sha, wordlist, e)[i];
    }
    var indices := IndicesOf(wordlist, words).value;
    SameWordsSameIndices(wordlist, indices, p);
    assert PhraseBits(sha, e)[..128] == EntropyBits(e) && PhraseBits(sha, e)[128..] == ChecksumBits(sha, e);
  }

  /** An accepted phrase reads as the encoding of the entropy in its first 128 bits. */
  lemma AcceptedIsEncoded(sha: Bytes -> Digest, wordlist: seq<string>, words: seq<string>) returns (e: Entropy)
    requires GoodWordlist(wordlist) && Accepts(sha, wordlist, words)
    ensures NormalizeAll(words) == Phrase(sha, wordlist, e)
  {
    BitsOfIndices(wordlist, words);
    IndicesAreInList(wordlist, words);
    var indices := IndicesOf(wordlist, words).value;
    var bits := Unpack(indices, BITS_PER_WORD);
    e := Pack(bits[..128], 8);
    assert PhraseBits(sha, e) == bits[..128] + bits[128..] == bits;
    PhraseBitsShape(sha, e);
    forall i | 0 <= i < WORD_COUNT
      ensures NormalizeAll(words)[i] == Phrase(sha, wordlist, e)[i]
    {
    }
  }

  /**
   Main result: words are accepted if and only if they write out, in either case and with any space
   around each, the encoding of some entropy, and then of exactly one.
   */
  lemma AcceptsExactlyEncodings(sha: Bytes -> Digest, wordlist: seq<string>, words: seq<string>)
    requires GoodWordlist(wordlist)
    ensures Accepts(sha, wordlist, words) <==> exists e: Entropy :: WritesOut(words, Phrase(sha, wordlist, e))
    ensures forall e: Entropy, f: Entropy ::
              WritesOut(words, Phrase(sha, wordlist, e)) && WritesOut(words, Phrase(sha, wordlist, f)) ==> e == f
  {
    if Accepts(sha, wordlist, words) {
      var e := AcceptedIsEncoded(sha, wordlist, words);
      NormalizeAllIff(sha, wordlist, words, e);
    }
    if e: Entropy :| WritesOut(words, Phrase(sha, wordlist, e)) {
      NormalizeAllIff(sha, wordlist, words, e);
      EncodedIsAccepted(sha, wordlist, words, e);
    }
    forall e: Entropy, f: Entropy | WritesOut(words, Phrase(sha, wordlist, e)) && WritesOut(words, Phrase(sha, wordlist, f))
      ensures e == f
    {
      NormalizeAllIff(sha, wordlist, words, e);
      NormalizeAllIff(sha, wordlist, words, f);
      PhraseIsInjective(sha, wordlist, e, f);
    }
  }

  /** Every generated phrase validates. */
  lemma GeneratedIsAccepted(sha: Bytes -> Digest, wordlist: seq<string>, entropy: Entropy)
    requires GoodWordlist(wordlist)
    ensures Accepts(sha, wordlist, Phrase(sha, wordlist, entropy))
  {
    var words := Phrase(sha, wordlist, entropy);
    forall i | 0 <= i < WORD_COUNT
      ensures Writes(words[i], words[i])
    {
      assert words[i] == "" + words[i] + "" && EitherCase(words[i], words[i]) && AllSpaces("");
    }
    NormalizeAllIff(sha, wordlist, words, entropy);
    EncodedIsAccepted(sha, wordlist, words, entropy);
  }

  // ---- What goes into the key derivation ----

  function ToKdfInput(words: seq<string>): string {
    Join(NormalizeAll(words), " ")
  }

  ghost predicate Spaceless(words: seq<string>) {
    forall i, k :: 0 <= i < |words| && 0 <= k < |words[i]| ==> words[i][k] != ' '
  }

  lemma {:induction false} JoinIsInjective(a: seq<string>, b: seq<string>)
    requires |a| == |b| && Spaceless(a) && Spaceless(b) && Join(a, " ") == Join(b, " ")
    ensures a == b
  {
    if |a| > 1 {
      FirstSpace(a[0], Join(a[1..], " "), b[0], Join(b[1..], " "), Join(a, " "));
      JoinIsInjective(a[1..], b[1..]);
      assert a == [a[0]] + a[1..] && b == [b[0]] + b[1..];
    } else if |a| == 1 {
      assert a == [a[0]] && b == [b[0]];
    }
  }

  lemma FirstSpace(a: string, s: string, b: string, t: string, whole: string)
    requires whole == a + " " + s && whole == b + " " + t
    requires (forall k :: 0 <= k < |a| ==> a[k] != ' ') && (forall k :: 0 <= k < |b| ==> b[k] != ' ')
    ensures a == b && s == t
  {
    assert whole[|a|] == ' ' && whole[|b|] == ' ';
    assert forall k :: 0 <= k < |a| ==> whole[k] == a[k];
    assert forall k :: 0 <= k < |b| ==> whole[k] == b[k];
    assert |a| == |b|;
    assert a == whole[..|a|] && b == whole[..|b|];
    assert s == whole[|a| + 1..] && t == whole[|b| + 1..];
  }

  /**
   However its words are written, a phrase feeds the key derivation the generated words joined by
   single spaces; so two feed it the same exactly when they encode the same entropy.
   */
  lemma KdfInputDeterminesEntropy(sha: Bytes -> Digest, wordlist: seq<string>, words: seq<string>, others: seq<string>, e: Entropy, f: Entropy)
    requires GoodWordlist(wordlist) && Spaceless(wordlist)
    requires WritesOut(words, Phrase(sha, wordlist, e)) && WritesOut(others, Phrase(sha, wordlist, f))
    ensures ToKdfInput(words) == Join(Phrase(sha, wordlist, e), " ")
    ensures ToKdfInput(words) == ToKdfInput(others) <==> e == f
  {
    PhraseBitsShape(sha, e);
    PhraseBitsShape(sha, f);
    NormalizeAllIff(sha, wordlist, words, e);
    NormalizeAllIff(sha, wordlist, others, f);
    if ToKdfInput(words) == ToKdfInput(others) {
      JoinIsInjective(Phrase(sha, wordlist, e), Phrase(sha, wordlist, f));
      PhraseIsInjective(sha, wordlist, e, f);
    }
  }
}
