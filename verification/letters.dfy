/** The alphabet of the game: the Cyrillic letters accepted from the keyboard
    and the upper-casing applied to keys, letters, guesses and the target word.

    Upper-casing models JavaScript's `toUpperCase` on the characters the game
    ever sees: ASCII letters (in key names such as "Enter") and the Cyrillic
    block U+0400..U+045F. Every other character is left as it is. */
module Letters {

  /** The class `[а-яё]` of the key regular expression, matched with the `i` flag:
      а..я, ё and their capitals А..Я, Ё. */
  predicate IsCyrillicLetter(c: char) {
    || (0x430 <= c as int <= 0x44F)
    || (0x410 <= c as int <= 0x42F)
    || c as int == 0x451
    || c as int == 0x401
  }

  /** A capital Cyrillic letter: А..Я or Ё. */
  predicate IsCapitalLetter(c: char) {
    (0x410 <= c as int <= 0x42F) || c as int == 0x401
  }

  /** Upper-case form of one character. */
  function Upper(c: char): (u: char)
    ensures IsCyrillicLetter(c) ==> IsCapitalLetter(u)
    ensures IsCapitalLetter(c) ==> u == c
    ensures 'a' <= c <= 'z' ==> u as int == c as int - 32
  {
    if 0x430 <= c as int <= 0x44F then (c as int - 0x20) as char
    else if 0x450 <= c as int <= 0x45F then (c as int - 0x50) as char
    else if 'a' <= c <= 'z' then (c as int - 0x20) as char
    else c
  }

  /** `toUpperCase` on a string, character by character. */
  function UpperString(s: string): (u: string)
    ensures |u| == |s|
    ensures forall i :: 0 <= i < |s| ==> u[i] == Upper(s[i])
  {
    seq(|s|, i requires 0 <= i < |s| => Upper(s[i]))
  }

  /** The key test of `handleKeyPress`: the key is exactly one Cyrillic letter. */
  predicate IsLetterKey(key: string) {
    |key| == 1 && IsCyrillicLetter(key[0])
  }

}
