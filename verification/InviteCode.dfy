/**
 Invite codes: 26 characters of Crockford's Base32 alphabet, shown in hyphenated groups of four and
 read back without regard to case, separators and look-alike letters.
 */
module InviteCode {
  import opened Wrappers
  import opened Text
  import opened Ascii

  const ALPHABET := "0123456789ABCDEFGHJKMNPQRSTVWXYZ"
  const LENGTH := 26
  const GROUP_SIZE := 4

  predicate Canonical(code: string) {
    |code| == LENGTH && forall i :: 0 <= i < |code| ==> code[i] in ALPHABET
  }

  // ---- Printing ----

  function Groups(s: string): seq<string> {
    if |s| <= GROUP_SIZE then (if s == "" then [] else [s])
    else [s[..GROUP_SIZE]] + Groups(s[GROUP_SIZE..])
  }

  /** The display form. Text of any other length is left as it is. */
  function Formatted(canonical: string): string {
    if |canonical| != LENGTH then canonical else Join(Groups(canonical), "-")
  }

  lemma GroupsFrom(s: string, i: nat)
    requires i < |s|
    ensures i + GROUP_SIZE < |s| ==> Groups(s[i..]) == [s[i..i + GROUP_SIZE]] + Groups(s[i + GROUP_SIZE..])
    ensures i + GROUP_SIZE >= |s| ==> Groups(s[i..]) == [s[i..|s|]]
  {
    assert s[i..|s|] == s[i..];
    if i + GROUP_SIZE < |s| {
      assert s[i..][..GROUP_SIZE] == s[i..i + GROUP_SIZE] && s[i..][GROUP_SIZE..] == s[i + GROUP_SIZE..];
    }
  }

  method Format(canonical: string) returns (s: string)
    ensures s == Formatted(canonical)
    ensures |canonical| != 26 ==> s == canonical
    ensures |canonical| == 26 ==> |s| == 32 && Hyphenated(s, canonical)
  {
    if |canonical| == 26 {
      FormatIsHyphenated(canonical);
    }
    if |canonical| != LENGTH {
      return canonical;
    }
    var groups: seq<string> := [];
    var i := 0;
    assert canonical[0..] == canonical;
    while i < |canonical|
      invariant 0 <= i
      invariant Groups(canonical) == groups + (if i < |canonical| then Groups(canonical[i..]) else [])
    {
      var end := if i + GROUP_SIZE < |canonical| then i + GROUP_SIZE else |canonical|;
      GroupsFrom(canonical, i);
      groups := groups + [canonical[i..end]];
      i := i + GROUP_SIZE;
    }
    assert Groups(canonical) == groups;
    s := Join(groups, "-");
  }

  /** Every fifth character is a hyphen, and the others are the code in order. */
  ghost predicate Hyphenated(s: string, code: string) {
    && |s| == |code| + (if |code| == 0 then 0 else (|code| - 1) / GROUP_SIZE)
    && forall k :: 0 <= k < |s| ==> s[k] == if k % 5 == 4 then '-' else code[k - k / 5]
  }

  /** Five characters further on, one group further on. */
  lemma NextGroup(s: string, t: string, code: string, k: nat)
    requires |code| > GROUP_SIZE && Hyphenated(t, code[GROUP_SIZE..])
    requires s == code[..GROUP_SIZE] + "-" + t && 5 <= k < |s|
    ensures k - k / 5 < |code|
    ensures s[k] == if k % 5 == 4 then '-' else code[k - k / 5]
  {
    var j := k - 5;
    assert k / 5 == j / 5 + 1 && k % 5 == j % 5;
    assert s[k] == t[j];
    assert j - j / 5 < |code[GROUP_SIZE..]|;
    assert code[GROUP_SIZE..][j - j / 5] == code[k - k / 5];
  }

  lemma OneMoreGroup(s: string, t: string, code: string)
    requires |code| > GROUP_SIZE && Hyphenated(t, code[GROUP_SIZE..])
    requires s == code[..GROUP_SIZE] + "-" + t
    ensures Hyphenated(s, code)
  {
    forall k | 0 <= k < |s|
      ensures k - k / 5 < |code| && s[k] == if k % 5 == 4 then '-' else code[k - k / 5]
    {
      if k >= 5 {
        NextGroup(s, t, code, k);
      }
    }
  }

  lemma {:induction false} GroupsAreHyphenated(code: string)
    ensures Hyphenated(Join(Groups(code), "-"), code)
  {
    if |code| > GROUP_SIZE {
      var rest := code[GROUP_SIZE..];
      GroupsAreHyphenated(rest);
      assert Groups(code)[1..] == Groups(rest) && Groups(rest) != [];
      OneMoreGroup(Join(Groups(code), "-"), Join(Groups(rest), "-"), code);
    }
  }

  lemma FormatIsHyphenated(code: string)
    requires |code| == LENGTH
    ensures |Formatted(code)| == 32 && Hyphenated(Formatted(code), code)
  {
    GroupsAreHyphenated(code);
  }

  lemma {:induction false} GroupsMakeCode(s: string)
    ensures Concat(Groups(s)) == s
    ensures forall i, k :: 0 <= i < |Groups(s)| && 0 <= k < |Groups(s)[i]| ==> Groups(s)[i][k] in s
  {
    if |s| > GROUP_SIZE {
      GroupsMakeCode(s[GROUP_SIZE..]);
    }
  }

  // ---- Reading ----

  predicate IsSeparator(c: char) {
    IsSpace(c) || c == '-'
  }

  function SubstituteAmbiguous(c: char): char {
    match c
    case 'O' => '0'
    case 'I' => '1'
    case 'L' => '1'
    case _ => c
  }

  function Stripped(input: string): string {
    MapText(SubstituteAmbiguous, RemoveAll(ToUpper(input), IsSeparator))
  }

  function Normalized(input: string): Option<string> {
    if Canonical(Stripped(input)) then Some(Stripped(input)) else None
  }

  method Normalize(input: string) returns (r: Option<string>)
    ensures r == Normalized(input)
  {
    var stripped := Stripped(input);
    if |stripped| != LENGTH {
      return None;
    }
    for i := 0 to |stripped|
      invariant forall k :: 0 <= k < i ==> stripped[k] in ALPHABET
    {
      if stripped[i] !in ALPHABET {
        return None;
      }
    }
    r := Some(stripped);
  }

  /** How a person may write one character of the code. */
  predicate Spells(c: char, d: char) {
    c == d || ('A' <= d <= 'Z' && c == d - 'A' + 'a') || (d == '0' && (c == 'O' || c == 'o')) || (d == '1' && (c == 'I' || c == 'i' || c == 'L' || c == 'l'))
  }

  function Canon(c: char): char {
    SubstituteAmbiguous(UpperChar(c))
  }

  lemma AlphabetIs(d: char)
    requires d in ALPHABET
    ensures '0' <= d <= '9' || 'A' <= d <= 'Z'
    ensures d != 'I' && d != 'L' && d != 'O' && d != 'U'
  {
    var k :| 0 <= k < |ALPHABET| && ALPHABET[k] == d;
  }

  lemma InAlphabet(d: char, k: nat)
    requires k < 32 && ALPHABET[k] == d
    ensures d in ALPHABET
  {
  }

  lemma EarlyInAlphabet(d: char)
    ensures '0' <= d <= '9' || 'A' <= d <= 'H' ==> d in ALPHABET
  {
    if '0' <= d <= '9' {
      InAlphabet(d, (d - '0') as nat);
    } else if 'A' <= d <= 'H' {
      InAlphabet(d, (d - 'A') as nat + 10);
    }
  }

  lemma LateInAlphabet(d: char)
    ensures 'J' <= d <= 'K' || 'M' <= d <= 'N' || 'P' <= d <= 'T' || 'V' <= d <= 'Z' ==> d in ALPHABET
  {
    if 'J' <= d <= 'K' {
      InAlphabet(d, (d - 'J') as nat + 18);
    } else if 'M' <= d <= 'N' {
      InAlphabet(d, (d - 'M') as nat + 20);
    } else if 'P' <= d <= 'T' {
      InAlphabet(d, (d - 'P') as nat + 22);
    } else if 'V' <= d <= 'Z' {
      InAlphabet(d, (d - 'V') as nat + 27);
    }
  }

  /** The digits, and the capital letters but I, L, O and U. */
  lemma AlphabetIff(d: char)
    ensures d in ALPHABET <==> '0' <= d <= '9' || ('A' <= d <= 'Z' && d != 'I' && d != 'L' && d != 'O' && d != 'U')
  {
    if d in ALPHABET {
      AlphabetIs(d);
    }
    EarlyInAlphabet(d);
    LateInAlphabet(d);
  }

  lemma SpellsOneIff(c: char, d: char)
    requires '0' <= d <= '9' || 'A' <= d <= 'Z'
    requires d != 'I' && d != 'L' && d != 'O'
    ensures Spells(c, d) <==> !IsSeparator(c) && Canon(c) == d
  {
  }

  lemma SpellsIff(c: char, d: char)
    requires d in ALPHABET
    ensures Spells(c, d) <==> !IsSeparator(c) && Canon(c) == d
  {
    AlphabetIs(d);
    SpellsOneIff(c, d);
  }

  lemma {:induction false} CaseThenSeparators(input: string)
    ensures Stripped(input) == MapText(Canon, RemoveAll(input, IsSeparator))
  {
    if input != "" {
      var upper := ToUpper(input);
      CaseThenSeparators(input[1..]);
      assert upper[1..] == ToUpper(input[1..]);
      assert IsSeparator(upper[0]) <==> IsSeparator(input[0]);
      if IsSeparator(input[0]) {
        assert Stripped(input) == Stripped(input[1..]);
      } else {
        assert RemoveAll(upper, IsSeparator) == [upper[0]] + RemoveAll(upper[1..], IsSeparator);
        assert Stripped(input) == [Canon(input[0])] + Stripped(input[1..]);
        assert MapText(Canon, RemoveAll(input, IsSeparator)) == [Canon(input[0])] + MapText(Canon, RemoveAll(input[1..], IsSeparator));
      }
    }
  }

  /**
   Main result: a text is read as `code` if and only if the code is canonical and the text spells it
   out in either case, with O for 0, I or L for 1, and separators anywhere.
   */
  lemma ReadAsIff(input: string, code: string)
    ensures Normalized(input) == Some(code) <==> Canonical(code) && Reads(input, code, IsSeparator, Spells)
    ensures forall c :: IsSeparator(c) <==> c == '-' || c == ' ' || '\t' <= c <= '\r'
  {
    CaseThenSeparators(input);
    if Canonical(code) {
      forall c, i | 0 <= i < |code|
        ensures Spells(c, code[i]) <==> !IsSeparator(c) && Canon(c) == code[i]
      {
        SpellsIff(c, code[i]);
      }
      ReadsIff(input, code, IsSeparator, Spells, Canon);
    }
  }

  /** Reading undoes formatting. */
  lemma NormalizeInvertsFormat(code: string)
    requires Canonical(code)
    ensures Normalized(Formatted(code)) == Some(code)
  {
    GroupsMakeCode(code);
    forall d | d in code
      ensures !IsSeparator(d) && Canon(d) == d
    {
      SpellsIff(d, d);
    }
    RemoveJoints(Groups(code), '-', IsSeparator);
    CaseThenSeparators(Formatted(code));
    assert MapText(Canon, code) == code;
  }

  /** What reading accepts, it leaves alone the second time, and formatting it changes nothing. */
  lemma NormalizeSettles(input: string)
    requires Normalized(input).Some?
    ensures var code := Normalized(input).value;
            Normalized(code) == Some(code) && Normalized(Formatted(code)) == Some(code)
  {
    var code := Normalized(input).value;
    NormalizeInvertsFormat(code);
    CaseThenSeparators(code);
    forall d | d in code
      ensures !IsSeparator(d) && Canon(d) == d
    {
      SpellsIff(d, d);
    }
    NothingToRemove(code, IsSeparator);
    assert MapText(Canon, code) == code;
  }
}
