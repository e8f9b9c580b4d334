/** Character-level helpers used by the board and by the configuration prompts:
    ASCII upper-casing of guesses and codes, and the letters-only test applied
    to the colour alphabet a player types in. */
module Text {

  predicate IsAsciiLetter(ch: char) {
    'a' <= ch <= 'z' || 'A' <= ch <= 'Z'
  }

  /** ASCII upper-casing of one character; anything that is not a lower-case
      ASCII letter is left alone. */
  function UpcaseChar(ch: char): char {
    if 'a' <= ch <= 'z' then (ch as int - 32) as char else ch
  }

  /** String upcase, character by character. */
  function Upcase(s: string): string {
    seq(|s|, i requires 0 <= i < |s| => UpcaseChar(s[i]))
  }

  /** Upcasing a string twice is the same as upcasing it once, so a guess the
      board has stored (already upcased) is replayed unchanged. */
  lemma UpcaseIdempotent(s: string)
    ensures Upcase(Upcase(s)) == Upcase(s)
  {
  }

  /** A string made only of characters that upcasing fixes is its own upcase. */
  lemma UpcaseFixed(s: string)
    requires forall i :: 0 <= i < |s| ==> UpcaseChar(s[i]) == s[i]
    ensures Upcase(s) == s
  {
  }

  /** True when no character of the text lies outside a-z and A-Z (the empty
      text included), i.e. the text contains no match of the class [^a-zA-Z]. */
  function OnlyAlphabetic(text: string): (r: bool)
    ensures r <==> forall i :: 0 <= i < |text| ==> IsAsciiLetter(text[i])
  {
    if |text| == 0 then true
    else IsAsciiLetter(text[0]) && OnlyAlphabetic(text[1..])
  }

  /** Colours typed as letters become capital letters once upcased, and those
      are fixed by upcasing: the alphabet a codebreaker replays guesses over. */
  lemma {:induction false} AlphabeticColorsAreCapitals(text: string)
    requires OnlyAlphabetic(text)
    ensures forall x :: x in Upcase(text) ==> 'A' <= x <= 'Z' && UpcaseChar(x) == x
  {
    forall x | x in Upcase(text)
      ensures 'A' <= x <= 'Z' && UpcaseChar(x) == x
    {
      var i :| 0 <= i < |text| && Upcase(text)[i] == x;
      assert IsAsciiLetter(text[i]);
    }
  }
}
