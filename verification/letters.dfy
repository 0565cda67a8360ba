/**
 * Letters, words and tile marks shared by the game and the on-screen keyboard.
 * Only ASCII case mapping is modelled: every word and every key the game
 * handles is made of the letters a-z / A-Z.
 */
module Letters {

  /** The three marks a tile or a key can carry (the CSS classes "correct", "present", "absent"). */
  datatype Status = Correct | Present | Absent

  /** Every guess and every target word has exactly this many letters. */
  const WordLength: nat := 5

  predicate IsLower(c: char) { 'a' <= c <= 'z' }

  predicate IsUpper(c: char) { 'A' <= c <= 'Z' }

  predicate IsAsciiLetter(c: char) { IsLower(c) || IsUpper(c) }

  /** `toUpperCase` on one character. */
  function UpperChar(c: char): (u: char)
    ensures IsLower(c) ==> IsUpper(u) && u as int == c as int - 32
    ensures !IsLower(c) ==> u == c
  {
    if IsLower(c) then (c as int - 32) as char else c
  }

  /** `toLowerCase` on one character. */
  function LowerChar(c: char): (l: char)
    ensures IsUpper(c) ==> IsLower(l) && l as int == c as int + 32
    ensures !IsUpper(c) ==> l == c
  {
    if IsUpper(c) then (c as int + 32) as char else c
  }

  /** `toLowerCase` on a string. */
  function Lower(s: string): (r: string)
    ensures |r| == |s|
    ensures forall i :: 0 <= i < |s| ==> r[i] == LowerChar(s[i])
  {
    seq(|s|, i requires 0 <= i < |s| => LowerChar(s[i]))
  }

  lemma CaseRoundTrip(c: char)
    ensures IsLower(c) ==> LowerChar(UpperChar(c)) == c
    ensures IsUpper(c) ==> UpperChar(LowerChar(c)) == c
  {
  }

  /** The upper-case letters A to Z, in order: the letter keys of the on-screen keyboard. */
  function Alphabet(): (a: seq<char>)
    ensures |a| == 26
    ensures forall i :: 0 <= i < |a| ==> a[i] as int == 65 + i && IsUpper(a[i])
  {
    seq(26, i requires 0 <= i < 26 => (65 + i) as char)
  }

  /** Every upper-case letter is on the alphabet, at the position its code gives. */
  lemma AlphabetCovers(c: char)
    requires IsUpper(c)
    ensures c in Alphabet() && Alphabet()[c as int - 65] == c
  {
  }

  /** Occurrences of `c` among the first `n` characters of `s`. */
  function CountBelow(s: seq<char>, c: char, n: nat): nat
    requires n <= |s|
  {
    if n == 0 then 0 else CountBelow(s, c, n - 1) + (if s[n - 1] == c then 1 else 0)
  }

  /** Occurrences of `c` in `s`. */
  function Count(s: seq<char>, c: char): nat
  {
    CountBelow(s, c, |s|)
  }
}
