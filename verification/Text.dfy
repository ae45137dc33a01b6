/** Joining and filtering strings, and reading one as a loose spelling of another. */
module Text {

  function Join(parts: seq<string>, separator: string): string {
    if parts == [] then ""
    else if |parts| == 1 then parts[0]
    else parts[0] + separator + Join(parts[1..], separator)
  }

  function RemoveAll(s: string, drop: char -> bool): string {
    if s == "" then ""
    else (if drop(s[0]) then "" else [s[0]]) + RemoveAll(s[1..], drop)
  }

  function MapText(f: char -> char, s: string): string {
    seq(|s|, i requires 0 <= i < |s| => f(s[i]))
  }

  /** Skipping some separators anywhere, `input` spells `text` out character by character. */
  ghost predicate Reads(input: string, text: string, skip: char -> bool, spells: (char, char) -> bool)
    decreases |input|
  {
    if input == "" then text == ""
    else
      || (skip(input[0]) && Reads(input[1..], text, skip, spells))
      || (text != "" && spells(input[0], text[0]) && Reads(input[1..], text[1..], skip, spells))
  }

  /** When each character spells only its canonical form, reading is filtering and canonicalizing. */
  lemma {:induction false} ReadsIff(input: string, text: string, skip: char -> bool, spells: (char, char) -> bool, canon: char -> char)
    requires forall c, i :: 0 <= i < |text| ==> (spells(c, text[i]) <==> !skip(c) && canon(c) == text[i])
    ensures Reads(input, text, skip, spells) <==> MapText(canon, RemoveAll(input, skip)) == text
  {
    if input != "" {
      var kept, more := RemoveAll(input, skip), RemoveAll(input[1..], skip);
      if skip(input[0]) {
        ReadsIff(input[1..], text, skip, spells, canon);
      } else if text == "" {
        assert |MapText(canon, kept)| > 0;
      } else {
        ReadsIff(input[1..], text[1..], skip, spells, canon);
        assert kept[1..] == more;
        assert MapText(canon, kept) == [canon(input[0])] + MapText(canon, more);
        assert text == [text[0]] + text[1..];
      }
    }
  }

  lemma {:induction false} RemoveAllConcat(s: string, t: string, drop: char -> bool)
    ensures RemoveAll(s + t, drop) == RemoveAll(s, drop) + RemoveAll(t, drop)
  {
    if s == "" {
      assert s + t == t;
    } else {
      assert (s + t)[0] == s[0] && (s + t)[1..] == s[1..] + t;
      RemoveAllConcat(s[1..], t, drop);
    }
  }

  lemma {:induction false} NothingToRemove(s: string, drop: char -> bool)
    requires forall i :: 0 <= i < |s| ==> !drop(s[i])
    ensures RemoveAll(s, drop) == s
  {
    if s != "" {
      NothingToRemove(s[1..], drop);
    }
  }

  function Concat(parts: seq<string>): string {
    if parts == [] then "" else parts[0] + Concat(parts[1..])
  }

  /** Removing the separators from a joined text leaves its parts. */
  lemma {:induction false} RemoveJoints(parts: seq<string>, separator: char, drop: char -> bool)
    requires drop(separator)
    requires forall i, k :: 0 <= i < |parts| && 0 <= k < |parts[i]| ==> !drop(parts[i][k])
    ensures RemoveAll(Join(parts, [separator]), drop) == Concat(parts)
  {
    if |parts| == 1 {
      NothingToRemove(parts[0], drop);
    } else if parts != [] {
      var rest := Join(parts[1..], [separator]);
      NothingToRemove(parts[0], drop);
      RemoveJoints(parts[1..], separator, drop);
      RemoveAllConcat(parts[0] + [separator], rest, drop);
      RemoveAllConcat(parts[0], [separator], drop);
    }
  }
}
