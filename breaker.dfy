/** The two modes of the driver: brute force over every rotation, and a single
    rotation estimated from letter frequencies. */
module Breaker {
  import opened Alphabet
  import opened Frequency
  import opened ShiftEstimator
  import opened Decryption

  /** Brute-force mode: `decrypt(ciphertext, nshift)` for every `nshift` in
      `range(len(ALPHABET))`, in order. Whatever rotation produced the ciphertext
      from a lowercase plaintext, that plaintext is among the candidates. */
  method BruteForce(ciphertext: string) returns (candidates: seq<string>)
    requires IsLowered(ciphertext)
    ensures |candidates| == |ALPHABET| == 26
    ensures forall k :: 0 <= k < |candidates| ==> candidates[k] == Decrypted(ciphertext, k)
    ensures forall plaintext, s :: IsLowered(plaintext) && Decrypted(plaintext, s) == ciphertext ==>
      plaintext in candidates
  {
    AlphabetLetters();
    candidates := [];
    for nshift := 0 to |ALPHABET|
      invariant |candidates| == nshift
      invariant forall k :: 0 <= k < nshift ==> candidates[k] == Decrypted(ciphertext, k)
    {
      var candidate := Decrypt(ciphertext, nshift);
      candidates := candidates + [candidate];
    }
    forall plaintext, s | IsLowered(plaintext) && Decrypted(plaintext, s) == ciphertext
      ensures plaintext in candidates
    {
      BruteForceRecovers(plaintext, s);
      assert candidates[(-s) % 26] == plaintext;
    }
  }

  /** The candidate at index `(-s) mod 26` undoes an encoding by `s`. */
  lemma BruteForceRecovers(plaintext: string, s: int)
    requires IsLowered(plaintext)
    ensures IsLowered(Decrypted(plaintext, s))
    ensures 0 <= (-s) % 26 < 26
    ensures Decrypted(Decrypted(plaintext, s), (-s) % 26) == plaintext
  {
    var k := (-s) % 26;
    DecryptedCompose(plaintext, s, k);
    ModAddAbsorb(-s, s);
    assert (s + k) % 26 == 0 % 26;
    DecryptedModular(plaintext, s + k, 0);
    DecryptedIdentity(plaintext);
  }

  /** Decrypting a text by the estimated shift turns every occurrence of its most
      frequent letter into the language's expected letter. */
  lemma EstimatedShiftHitsTarget(text: string, lang: string)
    requires IsLowered(text)
    requires CalculateShifts(LetterFrequency(text), lang).Ok?
    ensures forall i :: 0 <= i < |text| && text[i] == MostFrequentLetter(LetterFrequency(text)) ==>
      Decrypted(text, CalculateShifts(LetterFrequency(text), lang).value)[i] ==
      MOST_FREQUENT_LETTER_BY_LANG[lang]
  {
    var f := LetterFrequency(text);
    var m, s := MostFrequentLetter(f), CalculateShifts(f, lang).value;
    LetterFrequencyCounts(text);
    LanguageTable(lang);
    DecryptedPointwise(text, s);
    IndexOfInjective(RotateChar(m, s), MOST_FREQUENT_LETTER_BY_LANG[lang]);
  }

  /** For lowercase text the estimate fails only for want of letters or for an
      unsupported language. */
  lemma EstimateOnLoweredText(text: string, lang: string)
    requires IsLowered(text)
    ensures (forall i :: 0 <= i < |text| ==> !IsAlpha(text[i])) ==>
      CalculateShifts(LetterFrequency(text), lang) == Err(EmptyFrequencyMap)
    ensures (exists i :: 0 <= i < |text| && IsAlpha(text[i])) && lang != "en" ==>
      CalculateShifts(LetterFrequency(text), lang) == Err(UnsupportedLanguage(lang))
    ensures (exists i :: 0 <= i < |text| && IsAlpha(text[i])) && lang == "en" ==>
      CalculateShifts(LetterFrequency(text), lang).Ok?
  {
    LetterFrequencyEmpty(text);
    LanguageTable(lang);
    if exists i :: 0 <= i < |text| && IsAlpha(text[i]) {
      MostFrequentLetterOfText(text);
      var m := MostFrequentLetter(LetterFrequency(text));
      var k :| 0 <= k < |text| && text[k] == m;
    }
  }

  /** Frequency mode: the single line the driver prints, or the failure of the
      estimate. It fails exactly when the text has no letters or the language is
      not English; otherwise its line has the text's length and shows the text's
      most frequent letter as 'e'. */
  function FrequencyMode(ciphertext: string, lang: string): (r: Result<string>)
    requires IsLowered(ciphertext)
    ensures (forall i :: 0 <= i < |ciphertext| ==> !IsAlpha(ciphertext[i])) ==> r == Err(EmptyFrequencyMap)
    ensures (exists i :: 0 <= i < |ciphertext| && IsAlpha(ciphertext[i])) && lang != "en" ==>
      r == Err(UnsupportedLanguage(lang))
    ensures (exists i :: 0 <= i < |ciphertext| && IsAlpha(ciphertext[i])) && lang == "en" ==> r.Ok?
    ensures r.Ok? ==> |r.value| == |ciphertext| && |LetterFrequency(ciphertext).keys| > 0
    ensures r.Ok? ==> forall i ::
      (0 <= i < |ciphertext| && ciphertext[i] == MostFrequentLetter(LetterFrequency(ciphertext))) ==>
      r.value[i] == 'e'
  {
    EstimateOnLoweredText(ciphertext, lang);
    match CalculateShifts(LetterFrequency(ciphertext), lang)
    case Ok(shifts) =>
      EstimatedShiftHitsTarget(ciphertext, lang);
      LanguageTable(lang);
      Ok(Decrypted(ciphertext, shifts))
    case Err(e) => Err(e)
  }

  /** Frequency mode as the driver runs it: count, estimate, decrypt once. */
  method BreakByFrequency(ciphertext: string, lang: string) returns (r: Result<string>)
    requires IsLowered(ciphertext)
    ensures r == FrequencyMode(ciphertext, lang)
  {
    var lettersFreq := GetLettersFrequency(ciphertext);
    var shifts := CalculateShifts(lettersFreq, lang);
    if shifts.Err? {
      r := Err(shifts.error);
    } else {
      var plaintext := Decrypt(ciphertext, shifts.value);
      r := Ok(plaintext);
    }
  }

  /** What the driver produces after option parsing: the argument is lowercased,
      then brute-force mode yields 26 lines and frequency mode one line or an error. */
  method Run(argument: string, force: bool, lang: string) returns (r: Result<seq<string>>)
    ensures force ==> r.Ok? && |r.value| == 26
    ensures force ==> forall k :: 0 <= k < 26 ==> r.value[k] == Decrypted(Lower(argument), k)
    ensures !force ==> match FrequencyMode(Lower(argument), lang)
      case Ok(line) => r == Ok([line])
      case Err(e) => r == Err(e)
  {
    var ciphertext := Lower(argument);
    if force {
      var candidates := BruteForce(ciphertext);
      r := Ok(candidates);
    } else {
      var line := BreakByFrequency(ciphertext, lang);
      r := if line.Ok? then Ok([line.value]) else Err(line.error);
    }
  }
}
