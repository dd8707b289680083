/** The fixed tables of the breaker and the character classes it relies on. */
module Alphabet {

  /** The rotation alphabet: the 26 ASCII lowercase letters, 'a' at index 0. */
  const ALPHABET: string := "abcdefghijklmnopqrstuvwxyz"

  /** The expected most frequent letter of each supported language. */
  const MOST_FREQUENT_LETTER_BY_LANG: map<string, char> := map["en" := 'e']

  /** A letter of the rotation alphabet. */
  predicate InAlphabet(c: char) {
    'a' <= c <= 'z'
  }

  /** Alphabetic in the sense of `str.isalpha`, restricted to ASCII. */
  predicate IsAlpha(c: char) {
    ('a' <= c <= 'z') || ('A' <= c <= 'Z')
  }

  /** Every alphabetic character of `s` belongs to the rotation alphabet. */
  predicate IsLowered(s: string) {
    forall i :: 0 <= i < |s| && IsAlpha(s[i]) ==> InAlphabet(s[i])
  }

  /** `ALPHABET.index(c)`: the position of `c` in the alphabet. */
  function IndexOf(c: char): (i: nat)
    requires InAlphabet(c)
    ensures i < |ALPHABET| && ALPHABET[i] == c
    ensures forall j :: 0 <= j < i ==> ALPHABET[j] != c
  {
    AlphabetLetters();
    c as int - 'a' as int
  }

  /** `ALPHABET[i]`: the letter at position `i`, the inverse of IndexOf. */
  function LetterAt(i: int): (c: char)
    requires 0 <= i < |ALPHABET|
    ensures InAlphabet(c) && IndexOf(c) == i
  {
    AlphabetLetters();
    ALPHABET[i]
  }

  /** `ALPHABET` holds the 26 consecutive character codes from 'a' on. */
  lemma AlphabetLetters()
    ensures |ALPHABET| == 26
    ensures forall i :: 0 <= i < 26 ==> ALPHABET[i] as int == 'a' as int + i
  {
  }

  /** The alphabet holds exactly the letters 'a' to 'z'. */
  lemma AlphabetMembership(c: char)
    ensures c in ALPHABET <==> InAlphabet(c)
  {
    AlphabetLetters();
    if InAlphabet(c) {
      assert ALPHABET[IndexOf(c)] == c;
    }
  }

  /** Two alphabet letters with the same index are the same letter. */
  lemma IndexOfInjective(c: char, d: char)
    requires InAlphabet(c) && InAlphabet(d)
    ensures IndexOf(c) == IndexOf(d) <==> c == d
  {
  }

  /** English is the only supported language, and its expected letter 'e' is a
      letter of the alphabet, at index 4. */
  lemma LanguageTable(lang: string)
    ensures lang in MOST_FREQUENT_LETTER_BY_LANG <==> lang == "en"
    ensures lang in MOST_FREQUENT_LETTER_BY_LANG ==>
      && MOST_FREQUENT_LETTER_BY_LANG[lang] == 'e'
      && InAlphabet(MOST_FREQUENT_LETTER_BY_LANG[lang])
      && IndexOf(MOST_FREQUENT_LETTER_BY_LANG[lang]) == 4
  {
  }

  /** ASCII `str.lower()` on one character. */
  function LowerChar(c: char): (r: char)
    ensures IsAlpha(r) <==> IsAlpha(c)
    ensures IsAlpha(r) ==> InAlphabet(r)
    ensures InAlphabet(c) || !IsAlpha(c) ==> r == c
    ensures 'A' <= c <= 'Z' ==> IndexOf(r) == c as int - 'A' as int
  {
    if 'A' <= c <= 'Z' then (c as int - 'A' as int + 'a' as int) as char else c
  }

  /** ASCII `str.lower()` on a string: the ciphertext as the driver hands it on. */
  function Lower(s: string): (r: string)
    ensures |r| == |s| && IsLowered(r)
    ensures forall i :: 0 <= i < |s| ==> (IsAlpha(r[i]) <==> IsAlpha(s[i]))
    ensures forall i :: 0 <= i < |s| && !IsAlpha(s[i]) ==> r[i] == s[i]
    ensures forall i :: 0 <= i < |s| && !('A' <= s[i] <= 'Z') ==> r[i] == s[i]
    ensures forall i :: 0 <= i < |s| && 'A' <= s[i] <= 'Z' ==>
      InAlphabet(r[i]) && IndexOf(r[i]) == s[i] as int - 'A' as int
    ensures IsLowered(s) ==> r == s
  {
    seq(|s|, i requires 0 <= i < |s| => LowerChar(s[i]))
  }
}
