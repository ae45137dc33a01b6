/**
 How the blob ids of an item are stored, and the query that looks for one of them: the column
 holds a compact JSON array of strings, and liveness is asked with a LIKE pattern on the
 quoted id.
 */
module BlobRefsText {

  predicate IsHexDigit(c: char) {
    '0' <= c <= '9' || 'a' <= c <= 'f'
  }

  /** A blob id as uploads make them: the lowercase hex form of a SHA-256 digest. */
  predicate IsBlobId(s: string) {
    |s| == 64 && forall i :: 0 <= i < 64 ==> IsHexDigit(s[i])
  }

  predicate AllBlobIds(refs: seq<string>) {
    forall i :: 0 <= i < |refs| ==> IsBlobId(refs[i])
  }

  function Quoted(id: string): string {
    "\"" + id + "\""
  }

  function Elements(refs: seq<string>): string {
    if refs == [] then ""
    else if |refs| == 1 then Quoted(refs[0])
    else Quoted(refs[0]) + "," + Elements(refs[1..])
  }

  /** The stored text. Ids made of hex digits need no JSON escape. */
  function JsonText(refs: seq<string>): string {
    "[" + Elements(refs) + "]"
  }

  /** SQLite's LIKE ignores the case of ASCII letters. */
  function FoldCase(c: char): char {
    if 'A' <= c <= 'Z' then c - 'A' + 'a' else c
  }

  predicate MatchesAt(text: string, pattern: string, p: nat) {
    p + |pattern| <= |text| && forall k :: 0 <= k < |pattern| ==> FoldCase(text[p + k]) == FoldCase(pattern[k])
  }

  /** `text LIKE '%"' || id || '"%'`, for an id that holds none of LIKE's wildcards. */
  predicate LikeQuoted(text: string, id: string) {
    exists p: nat :: p <= |text| && MatchesAt(text, Quoted(id), p)
  }

  lemma {:induction false} ElementsLength(refs: seq<string>)
    requires refs != [] && AllBlobIds(refs)
    ensures |Elements(refs)| == 67 * |refs| - 1
  {
    if |refs| > 1 {
      ElementsLength(refs[1..]);
    }
  }

  /** Character `k` of the `i`th quoted id. */
  lemma {:induction false} ElementsAt(refs: seq<string>, i: nat, k: nat)
    requires AllBlobIds(refs)
    requires i < |refs| && k < 66
    ensures 67 * i + k < |Elements(refs)|
    ensures Elements(refs)[67 * i + k] == Quoted(refs[i])[k]
  {
    ElementsLength(refs);
    if i > 0 {
      ElementsAt(refs[1..], i - 1, k);
      assert Elements(refs)[67 * i + k] == Elements(refs[1..])[67 * (i - 1) + k];
    }
  }

  /** What follows the `i`th quoted id: a comma, or nothing after the last. */
  lemma {:induction false} SeparatorAt(refs: seq<string>, i: nat)
    requires AllBlobIds(refs)
    requires i + 1 < |refs|
    ensures 67 * i + 66 < |Elements(refs)|
    ensures Elements(refs)[67 * i + 66] == ','
  {
    ElementsLength(refs);
    if i > 0 {
      SeparatorAt(refs[1..], i - 1);
    }
  }

  lemma HexFoldsToItself(c: char, d: char)
    requires IsHexDigit(c) && (IsHexDigit(d) || d in "\",[]")
    ensures FoldCase(c) == FoldCase(d) ==> c == d
  {
  }

  /** A member of the array is found, at the place where the array holds it. */
  lemma MemberIsFound(refs: seq<string>, i: nat)
    requires AllBlobIds(refs)
    requires i < |refs|
    ensures LikeQuoted(JsonText(refs), refs[i])
  {
    var text, pattern := JsonText(refs), Quoted(refs[i]);
    ElementsLength(refs);
    forall k: nat | k < 66
      ensures text[1 + 67 * i + k] == pattern[k]
    {
      ElementsAt(refs, i, k);
    }
    assert MatchesAt(text, pattern, 1 + 67 * i);
  }

  /** A match can only start at the opening quote of a member, so the member is the id asked for. */
  lemma MatchIsMember(refs: seq<string>, id: string, p: nat)
    requires AllBlobIds(refs) && IsBlobId(id)
    requires MatchesAt(JsonText(refs), Quoted(id), p)
    ensures id in refs
  {
    var text, pattern := JsonText(refs), Quoted(id);
    MatchStart(text, id, p);
    if refs != [] {
      ElementsLength(refs);
      assert text[0] == '[' && text[|text| - 1] == ']';
      var i, k := (p - 1) / 67, (p - 1) % 67;
      assert p == 1 + 67 * i + k;
      StartIsOpeningQuote(refs, id, i, k);
      forall j: nat | j < 64
        ensures refs[i][j] == id[j]
      {
        ElementsAt(refs, i, 1 + j);
        assert text[p + (1 + j)] == refs[i][j] && pattern[1 + j] == id[j];
        HexFoldsToItself(id[j], refs[i][j]);
      }
      assert refs[i] == id;
    }
  }

  /** The stored text, character by character: 67 of them for each id, after the opening bracket. */
  lemma TextAt(refs: seq<string>, i: nat, k: nat)
    requires AllBlobIds(refs) && i < |refs| && k < 67
    ensures |JsonText(refs)| == 67 * |refs| + 1
    ensures 0 < k < 65 ==> IsHexDigit(JsonText(refs)[1 + 67 * i + k])
    ensures k == 66 ==> JsonText(refs)[1 + 67 * i + k] == if i + 1 < |refs| then ',' else ']'
  {
    ElementsLength(refs);
    if k < 66 {
      ElementsAt(refs, i, k);
      assert 0 < k < 65 ==> Quoted(refs[i])[k] == refs[i][k - 1];
    } else if i + 1 < |refs| {
      SeparatorAt(refs, i);
    }
  }

  /** The two characters a match begins with. */
  lemma MatchStart(text: string, id: string, p: nat)
    requires IsBlobId(id) && MatchesAt(text, Quoted(id), p)
    ensures p + 66 <= |text|
    ensures FoldCase(text[p]) == '\"' && FoldCase(text[p + 1]) == FoldCase(id[0])
  {
    var pattern := Quoted(id);
    assert FoldCase(text[p + 0]) == FoldCase(pattern[0]) && FoldCase(text[p + 1]) == FoldCase(pattern[1]);
  }

  /** The other places a quote can be matched at are closing quotes, and no hex digit follows those. */
  lemma StartIsOpeningQuote(refs: seq<string>, id: string, i: nat, k: nat)
    requires refs != [] && AllBlobIds(refs) && IsBlobId(id)
    requires k < 67 && MatchesAt(JsonText(refs), Quoted(id), 1 + 67 * i + k)
    ensures i < |refs| && k == 0
  {
    var text, p := JsonText(refs), 1 + 67 * i + k;
    ElementsLength(refs);
    MatchStart(text, id, p);
    TextAt(refs, i, k);
    if k == 65 {
      TextAt(refs, i, 66);
    }
  }

  /** The pattern query is an exact membership test: no id is found inside or across others. */
  lemma LikeIsMembership(refs: seq<string>, id: string)
    requires AllBlobIds(refs) && IsBlobId(id)
    ensures LikeQuoted(JsonText(refs), id) <==> id in refs
  {
    if LikeQuoted(JsonText(refs), id) {
      var p: nat :| p <= |JsonText(refs)| && MatchesAt(JsonText(refs), Quoted(id), p);
      MatchIsMember(refs, id, p);
    }
    if id in refs {
      var i: nat :| i < |refs| && refs[i] == id;
      MemberIsFound(refs, i);
    }
  }
}
