/** The frequency mode on a short text: on so few letters the estimated rotation
    does not recover the plaintext that brute force finds. */
module Scenarios {
  import opened Alphabet
  import opened Frequency
  import opened ShiftEstimator
  import opened Decryption
  import opened Breaker

  /** A letter rotates onto the letter whose code is its own moved around the alphabet. */
  lemma RotateCharTo(c: char, rotations: int, d: char)
    requires InAlphabet(c) && InAlphabet(d)
    requires (c as int - 'a' as int + rotations) % 26 == d as int - 'a' as int
    ensures RotateChar(c, rotations) == d
  {
    IndexOfInjective(RotateChar(c, rotations), d);
  }

  /** Rotating "khoor zruog" by 23, which is -3 mod 26, gives back "hello world":
      that plaintext is brute-force candidate 23. */
  lemma ShortTextRecovered(t: string)
    requires t == "khoor zruog"
    ensures IsLowered(t)
    ensures Decrypted(t, 23) == "hello world"
  {
    assert IsLowered(t);
    RotateCharTo('k', 23, 'h');
    RotateCharTo('h', 23, 'e');
    RotateCharTo('o', 23, 'l');
    RotateCharTo('r', 23, 'o');
    RotateCharTo('z', 23, 'w');
    RotateCharTo('u', 23, 'r');
    RotateCharTo('g', 23, 'd');
    DecryptedPointwise(t, 23);
  }

  /** The most frequent letter of "khoor zruog" is 'o' (three times), and for a
      dictionary whose chosen letter is 'o' the English estimate is 4 - 14 = -10. */
  lemma ShortTextShift(f: FrequencyMap)
    requires f.Valid() && |f.keys| > 0 && MostFrequentLetter(f) == 'o'
    ensures CalculateShifts(f, "en") == Ok(-10)
  {
    LanguageTable("en");
  }

  /** "khoor zruog" holds three 'o's. */
  lemma ShortTextCountO(t: string)
    requires t == "khoor zruog"
    ensures multiset(t)['o'] == 3
  {
  }

  /** "khoor zruog" is its two words, the second with its leading space. */
  lemma ShortTextWords(t: string)
    requires t == "khoor zruog"
    ensures t == "khoor" + " zruog"
  {
  }

  /** Apart from 'o', no character occurs twice in "khoor". */
  lemma FirstWordCount(w: string, c: char)
    requires w == "khoor" && c != 'o'
    ensures multiset(w)[c] <= 1
  {
  }

  /** Apart from 'o', no character occurs twice in " zruog". */
  lemma SecondWordCount(w: string, c: char)
    requires w == " zruog" && c != 'o'
    ensures multiset(w)[c] <= 1
  {
  }

  /** Every character other than 'o' occurs in "khoor zruog" at most twice: at
      most once in each word. */
  lemma ShortTextCountOthers(t: string, c: char)
    requires t == "khoor zruog" && c != 'o'
    ensures multiset(t)[c] <= 2
  {
    ShortTextWords(t);
    var w1, w2 := "khoor", " zruog";
    assert multiset(t) == multiset(w1) + multiset(w2);
    FirstWordCount(w1, c);
    SecondWordCount(w2, c);
  }

  /** The counter's most frequent letter of "khoor zruog" is 'o'. */
  lemma ShortTextMostFrequent(t: string)
    requires t == "khoor zruog"
    ensures |LetterFrequency(t).keys| > 0 && MostFrequentLetter(LetterFrequency(t)) == 'o'
  {
    assert t[2] == 'o';
    ShortTextCountO(t);
    forall d | d != 'o'
      ensures multiset(t)[d] < multiset(t)['o']
    {
      ShortTextCountOthers(t, d);
    }
    MostFrequentLetterUnique(t, 'o');
  }

  /** On "khoor zruog" the English estimate is -10, so the frequency mode prints
      the text rotated by -10. */
  lemma ShortTextFrequencyMode(t: string)
    requires t == "khoor zruog"
    ensures IsLowered(t)
    ensures CalculateShifts(LetterFrequency(t), "en") == Ok(-10)
    ensures FrequencyMode(t, "en") == Ok(Decrypted(t, -10))
  {
    assert IsLowered(t);
    ShortTextMostFrequent(t);
    ShortTextShift(LetterFrequency(t));
  }

  /** Rotating "khoor zruog" by the estimate -10 turns its first letter into 'a', so
      the frequency mode does not print "hello world" for it. */
  lemma ShortTextMisdecoded(t: string)
    requires t == "khoor zruog"
    ensures IsLowered(t)
    ensures Decrypted(t, -10)[0] == 'a' && Decrypted(t, -10) != "hello world"
  {
    assert IsLowered(t);
    RotateCharTo('k', -10, 'a');
    DecryptedPointwise(t, -10);
  }
}
