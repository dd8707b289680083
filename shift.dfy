/** The shift estimator: `calculate_shifts(letters_frequency, lang)`. */
module ShiftEstimator {
  import opened Alphabet
  import opened Frequency

  /** The ways the estimate fails: `max` of an empty dictionary, a language missing
      from the table (`KeyError`), and a most frequent letter outside the alphabet
      (`ALPHABET.index` raising). */
  datatype ShiftError =
    | EmptyFrequencyMap
    | UnsupportedLanguage(lang: string)
    | LetterNotInAlphabet(letter: char)

  datatype Result<T> = Ok(value: T) | Err(error: ShiftError)

  /** The position of the key that `max(keys, key=counts.get)` returns: the scan
      keeps its current best and replaces it only by a strictly larger count, so
      the first of several tied keys wins. */
  function MaxKeyIndex(keys: seq<char>, counts: map<char, nat>): (best: nat)
    requires |keys| > 0
    requires forall c :: c in keys ==> c in counts
    ensures best < |keys|
    ensures forall j :: 0 <= j < |keys| ==> counts[keys[j]] <= counts[keys[best]]
    ensures forall j :: 0 <= j < best ==> counts[keys[j]] < counts[keys[best]]
  {
    if |keys| == 1 then 0
    else
      var best := MaxKeyIndex(keys[..|keys| - 1], counts);
      if counts[keys[|keys| - 1]] > counts[keys[best]] then |keys| - 1 else best
  }

  /** `max(letters_frequency, key=letters_frequency.get)`. */
  function MostFrequentLetter(f: FrequencyMap): (m: char)
    requires f.Valid() && |f.keys| > 0
    ensures m in f.counts
    ensures forall c :: c in f.counts ==> f.counts[c] <= f.counts[m]
    ensures forall i :: 0 <= i < |f.keys| && f.counts[f.keys[i]] == f.counts[m] ==>
      exists j :: 0 <= j <= i && f.keys[j] == m
  {
    var best := MaxKeyIndex(f.keys, f.counts);
    assert forall c :: c in f.counts ==> exists j :: 0 <= j < |f.keys| && f.keys[j] == c;
    f.keys[best]
  }

  /** `calculate_shifts(letters_frequency, lang)`: the rotation that carries the most
      frequent letter onto the language's expected most frequent letter. */
  function CalculateShifts(f: FrequencyMap, lang: string): (r: Result<int>)
    requires f.Valid()
    ensures r == Err(EmptyFrequencyMap) <==> |f.keys| == 0
    ensures |f.keys| > 0 && lang !in MOST_FREQUENT_LETTER_BY_LANG ==> r == Err(UnsupportedLanguage(lang))
    ensures r.Ok? <==>
      |f.keys| > 0 && lang in MOST_FREQUENT_LETTER_BY_LANG && InAlphabet(MostFrequentLetter(f))
    ensures |f.keys| > 0 && lang in MOST_FREQUENT_LETTER_BY_LANG && !InAlphabet(MostFrequentLetter(f)) ==>
      r == Err(LetterNotInAlphabet(MostFrequentLetter(f)))
    ensures r.Ok? ==> lang == "en" && -21 <= r.value <= 4
    ensures r.Ok? ==>
      (IndexOf(MostFrequentLetter(f)) + r.value) % 26 == IndexOf(MOST_FREQUENT_LETTER_BY_LANG[lang])
  {
    if |f.keys| == 0 then Err(EmptyFrequencyMap)
    else
      var m := MostFrequentLetter(f);
      if lang !in MOST_FREQUENT_LETTER_BY_LANG then Err(UnsupportedLanguage(lang))
      else
        LanguageTable(lang);
        var target := MOST_FREQUENT_LETTER_BY_LANG[lang];
        if !InAlphabet(m) then Err(LetterNotInAlphabet(m))
        else
          var shift := IndexOf(target) - IndexOf(m);
          assert (IndexOf(m) + shift) % 26 == IndexOf(target) % 26 == IndexOf(target);
          Ok(shift)
  }

  /** Applied to the counter's dictionary of a text, the estimator picks a letter of
      the text with the largest number of occurrences, and of several such letters
      the one that occurs first: every other letter with as many occurrences appears
      only after it. */
  lemma MostFrequentLetterOfText(text: string)
    requires exists i :: 0 <= i < |text| && IsAlpha(text[i])
    ensures LetterFrequency(text).Valid() && |LetterFrequency(text).keys| > 0
    ensures MostFrequentLetter(LetterFrequency(text)) in text
    ensures IsAlpha(MostFrequentLetter(LetterFrequency(text)))
    ensures forall c :: c in text && IsAlpha(c) ==>
      multiset(text)[c] <= multiset(text)[MostFrequentLetter(LetterFrequency(text))]
    ensures forall c ::
      (c in text && IsAlpha(c) && c != MostFrequentLetter(LetterFrequency(text)) &&
       multiset(text)[c] == multiset(text)[MostFrequentLetter(LetterFrequency(text))]) ==>
      Precedes(text, MostFrequentLetter(LetterFrequency(text)), c)
  {
    var f := LetterFrequency(text);
    LetterFrequencyCounts(text);
    var i :| 0 <= i < |text| && IsAlpha(text[i]);
    assert text[i] in f.counts;
    var m := MostFrequentLetter(f);
    forall c | c in text && IsAlpha(c) && c != m && multiset(text)[c] == multiset(text)[m]
      ensures Precedes(text, m, c)
    {
      FirstMaximalPrecedes(text, f, c);
    }
  }

  /** A letter that occurs strictly more often than every other letter is the one
      the estimator picks; non-letters are never keys and do not compete. */
  lemma MostFrequentLetterUnique(text: string, c: char)
    requires c in text && IsAlpha(c)
    requires forall d :: d != c && IsAlpha(d) ==> multiset(text)[d] < multiset(text)[c]
    ensures |LetterFrequency(text).keys| > 0 && MostFrequentLetter(LetterFrequency(text)) == c
  {
    var i :| 0 <= i < |text| && text[i] == c;
    MostFrequentLetterOfText(text);
  }

  /** In a dictionary whose keys are in order of first occurrence in `text`, the
      chosen key comes before any other key with the same count. */
  lemma FirstMaximalPrecedes(text: string, f: FrequencyMap, c: char)
    requires f.Valid() && |f.keys| > 0
    requires forall i, j :: 0 <= i < j < |f.keys| ==> Precedes(text, f.keys[i], f.keys[j])
    requires c in f.counts && c != MostFrequentLetter(f)
    requires f.counts[c] == f.counts[MostFrequentLetter(f)]
    ensures Precedes(text, MostFrequentLetter(f), c)
  {
    var m := MostFrequentLetter(f);
    assert c in f.keys;
    var k :| 0 <= k < |f.keys| && f.keys[k] == c;
    assert f.counts[f.keys[k]] == f.counts[m];
    var j :| 0 <= j <= k && f.keys[j] == m;
    assert j != k;
    assert Precedes(text, f.keys[j], f.keys[k]);
  }
}
