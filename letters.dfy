/**
 * Character classification and case mapping used by the word splitter.
 *
 * The regex class `\P{L}` splits at every character that is not a Unicode
 * letter, and `String.toUpperCase()` normalises the surviving fragments.
 * This model recognises the letters of the ASCII and Latin-1 blocks and
 * uppercases them one character at a time, so a word keeps its length.
 */
module Letters {

  /**
   * A letter of the ASCII or Latin-1 block (general category L). Among the
   * ASCII characters exactly `A`..`Z` and `a`..`z` are letters, so digits,
   * spaces and punctuation all separate words.
   */
  predicate IsLetter(c: char): (b: bool)
    ensures c < '\U{80}' ==> (b <==> ('A' <= c <= 'Z') || ('a' <= c <= 'z'))
    ensures b ==> c <= '\U{FF}'
  {
    || ('A' <= c <= 'Z')
    || ('a' <= c <= 'z')
    || c == '\U{AA}' || c == '\U{B5}' || c == '\U{BA}'
    || ('\U{C0}' <= c <= '\U{D6}')
    || ('\U{D8}' <= c <= '\U{F6}')
    || ('\U{F8}' <= c <= '\U{FF}')
  }

  /**
   * Upper case of one character: ASCII `a`..`z` and the Latin-1 small
   * letters U+00E0..U+00FE (without the division sign U+00F7) move down by
   * 32 code points; every other character is left as it is.
   */
  function Upper(c: char): (u: char)
    ensures !IsLetter(c) ==> u == c
    ensures IsLetter(c) ==> IsLetter(u) && !('a' <= u <= 'z')
  {
    if ('a' <= c <= 'z') || ('\U{E0}' <= c <= '\U{FE}' && c != '\U{F7}') then
      (c as int - 32) as char
    else
      c
  }

  /** `word.toUpperCase()`, character by character. */
  function UpperWord(w: string): (r: string)
    ensures |r| == |w|
    ensures AllLetters(w) ==> AllLetters(r) && IsUpperCase(r)
  {
    seq(|w|, i requires 0 <= i < |w| => Upper(w[i]))
  }

  predicate AllLetters(w: string) {
    forall i :: 0 <= i < |w| ==> IsLetter(w[i])
  }

  predicate IsUpperCase(w: string) {
    forall i :: 0 <= i < |w| ==> Upper(w[i]) == w[i]
  }

  /** What the counting stage receives: two or more letters, upper case. */
  predicate IsWord(w: string) {
    |w| >= 2 && AllLetters(w) && IsUpperCase(w)
  }

  /** Upper-casing twice changes nothing. */
  lemma UpperIdempotent(c: char)
    ensures Upper(Upper(c)) == Upper(c)
  {
  }
}
