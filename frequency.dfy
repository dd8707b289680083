/** The frequency counter: `get_letters_frequency(text)`. */
module Frequency {
  import opened Alphabet

  /** The dictionary the counter builds. Python dictionaries remember insertion
      order, so the map is kept with its keys in the order they were inserted. */
  datatype FrequencyMap = FrequencyMap(keys: seq<char>, counts: map<char, nat>)
  {
    /** Keys are distinct, are exactly the map's domain, and every count is positive. */
    ghost predicate Valid() {
      && (forall i, j :: 0 <= i < j < |keys| ==> keys[i] != keys[j])
      && (forall c :: c in counts <==> c in keys)
      && (forall c :: c in counts ==> counts[c] >= 1)
    }
  }

  /** The empty dictionary `{}`. */
  const EMPTY: FrequencyMap := FrequencyMap([], map[])

  /** One letter seen by the loop: a known key is incremented, a new key is
      inserted at the end with count 1. */
  function Record(f: FrequencyMap, c: char): FrequencyMap {
    if c in f.counts then f.(counts := f.counts[c := f.counts[c] + 1])
    else FrequencyMap(f.keys + [c], f.counts[c := 1])
  }

  /** Recording a letter increments its count (from 0 for a new key), leaves every
      other key and count alone, keeps the earlier keys in their order, and keeps
      the dictionary well formed. */
  lemma RecordUpdates(f: FrequencyMap, c: char)
    requires f.Valid()
    ensures Record(f, c).Valid()
    ensures c in Record(f, c).counts
    ensures Record(f, c).counts[c] == (if c in f.counts then f.counts[c] else 0) + 1
    ensures forall k :: k != c ==> (k in Record(f, c).counts <==> k in f.counts)
    ensures forall k :: k != c && k in f.counts ==> Record(f, c).counts[k] == f.counts[k]
    ensures |f.keys| <= |Record(f, c).keys| <= |f.keys| + 1
    ensures Record(f, c).keys[..|f.keys|] == f.keys
  {
    if c !in f.counts {
      var g := Record(f, c);
      assert g.keys == f.keys + [c] && g.keys[..|f.keys|] == f.keys;
      assert forall i :: 0 <= i < |f.keys| ==> g.keys[i] == f.keys[i] && g.keys[i] != c;
    }
  }

  /** The dictionary after the loop has consumed `text`. */
  function LetterFrequency(text: string): (f: FrequencyMap)
    ensures f.Valid()
  {
    if text == [] then EMPTY
    else
      var f := LetterFrequency(text[..|text| - 1]);
      if IsAlpha(text[|text| - 1]) then Record(f, text[|text| - 1]) else f
  }

  /** Every occurrence of `b` in `t` comes after some occurrence of `a`. */
  ghost predicate Precedes(t: string, a: char, b: char) {
    forall p :: 0 <= p < |t| && t[p] == b ==> exists q :: 0 <= q < p && t[q] == a
  }

  /** The number of alphabetic characters in `text`. */
  function LetterCount(text: string): nat {
    if text == [] then 0
    else LetterCount(text[..|text| - 1]) + (if IsAlpha(text[|text| - 1]) then 1 else 0)
  }

  /** The sum of the counts of `keys`. */
  function SumCounts(keys: seq<char>, counts: map<char, nat>): nat
    requires forall c :: c in keys ==> c in counts
  {
    if keys == [] then 0
    else SumCounts(keys[..|keys| - 1], counts) + counts[keys[|keys| - 1]]
  }

  /** `get_letters_frequency(text)`: one pass over `text`, skipping non-letters. */
  method GetLettersFrequency(text: string) returns (f: FrequencyMap)
    ensures f == LetterFrequency(text)
    ensures f.Valid()
    ensures forall c :: c in f.counts <==> c in text && IsAlpha(c)
    ensures forall c :: c in f.counts ==> f.counts[c] == multiset(text)[c]
    ensures forall i, j :: 0 <= i < j < |f.keys| ==> Precedes(text, f.keys[i], f.keys[j])
    ensures SumCounts(f.keys, f.counts) == LetterCount(text)
  {
    f := EMPTY;
    for i := 0 to |text|
      invariant f == LetterFrequency(text[..i])
    {
      var letter := text[i];
      assert text[..i + 1][..i] == text[..i];
      if IsAlpha(letter) {
        if letter in f.counts {
          f := f.(counts := f.counts[letter := f.counts[letter] + 1]);
        } else {
          f := FrequencyMap(f.keys + [letter], f.counts[letter := 1]);
        }
      }
    }
    assert text[..|text|] == text;
    LetterFrequencyCounts(text);
    LetterFrequencyTotal(text);
  }

  /** A prefix that contains `a` keeps `a` before any new last character. */
  lemma PrecedesExtend(t: string, c: char, a: char, b: char)
    requires Precedes(t, a, b) && a in t
    ensures Precedes(t + [c], a, b)
  {
    var t' := t + [c];
    forall p | 0 <= p < |t'| && t'[p] == b
      ensures exists q :: 0 <= q < p && t'[q] == a
    {
      if p < |t| {
        var q :| 0 <= q < p && t[q] == a;
        assert t'[q] == a;
      } else {
        var q :| 0 <= q < |t| && t[q] == a;
        assert t'[q] == a;
      }
    }
  }

  /** A character first appended after `a` has been seen comes after `a`. */
  lemma PrecedesNew(t: string, a: char, c: char)
    requires a in t && c !in t
    ensures Precedes(t + [c], a, c)
  {
    var t' := t + [c];
    forall p | 0 <= p < |t'| && t'[p] == c
      ensures exists q :: 0 <= q < p && t'[q] == a
    {
      assert p == |t|;
      var q :| 0 <= q < |t| && t[q] == a;
      assert t'[q] == a;
    }
  }

  /** The counter's dictionary is the letter multiset of the text: its keys are the
      letters that occur, in order of first occurrence, and each count is the
      number of occurrences. */
  lemma {:induction false} LetterFrequencyCounts(text: string)
    ensures forall c :: c in LetterFrequency(text).counts <==> c in text && IsAlpha(c)
    ensures forall c :: c in LetterFrequency(text).counts ==>
      LetterFrequency(text).counts[c] == multiset(text)[c]
    ensures forall i, j :: 0 <= i < j < |LetterFrequency(text).keys| ==>
      Precedes(text, LetterFrequency(text).keys[i], LetterFrequency(text).keys[j])
  {
    if text != [] {
      var t, c := text[..|text| - 1], text[|text| - 1];
      assert text == t + [c];
      LetterFrequencyCounts(t);
      var f, g := LetterFrequency(t), LetterFrequency(text);
      assert multiset(text) == multiset(t) + multiset{c};
      forall i, j | 0 <= i < j < |g.keys|
        ensures Precedes(text, g.keys[i], g.keys[j])
      {
        if j < |f.keys| {
          assert g.keys[i] == f.keys[i] && g.keys[j] == f.keys[j];
          assert f.keys[i] in f.counts;
          PrecedesExtend(t, c, f.keys[i], f.keys[j]);
        } else {
          assert g.keys[i] == f.keys[i] && g.keys[j] == c;
          assert f.keys[i] in f.counts;
          PrecedesNew(t, f.keys[i], c);
        }
      }
    }
  }

  /** Changing the count of a key outside `keys` does not change their sum. */
  lemma {:induction false} SumCountsOutside(keys: seq<char>, counts: map<char, nat>, c: char, v: nat)
    requires forall k :: k in keys ==> k in counts
    requires c !in keys
    ensures SumCounts(keys, counts[c := v]) == SumCounts(keys, counts)
  {
    if keys != [] {
      SumCountsOutside(keys[..|keys| - 1], counts, c, v);
    }
  }

  /** Incrementing the count of one of the (distinct) keys adds one to their sum. */
  lemma {:induction false} SumCountsIncrement(keys: seq<char>, counts: map<char, nat>, c: char)
    requires forall k :: k in keys ==> k in counts
    requires forall i, j :: 0 <= i < j < |keys| ==> keys[i] != keys[j]
    requires c in keys
    ensures SumCounts(keys, counts[c := counts[c] + 1]) == SumCounts(keys, counts) + 1
  {
    var init, last := keys[..|keys| - 1], keys[|keys| - 1];
    if last == c {
      assert c !in init;
      SumCountsOutside(init, counts, c, counts[c] + 1);
    } else {
      assert c in init;
      SumCountsIncrement(init, counts, c);
    }
  }

  /** Recording one letter adds one to the sum of the counts. */
  lemma SumCountsRecord(f: FrequencyMap, c: char)
    requires f.Valid()
    ensures forall k :: k in Record(f, c).keys ==> k in Record(f, c).counts
    ensures SumCounts(Record(f, c).keys, Record(f, c).counts) == SumCounts(f.keys, f.counts) + 1
  {
    if c in f.counts {
      assert c in f.keys;
      SumCountsIncrement(f.keys, f.counts, c);
    } else {
      assert c !in f.keys;
      SumCountsAppend(f.keys, f.counts, c);
    }
  }

  /** Inserting a new key with count 1 adds one to the sum of the counts. */
  lemma SumCountsAppend(keys: seq<char>, counts: map<char, nat>, c: char)
    requires forall k :: k in keys ==> k in counts
    requires c !in keys
    ensures forall k :: k in keys + [c] ==> k in counts[c := 1]
    ensures SumCounts(keys + [c], counts[c := 1]) == SumCounts(keys, counts) + 1
  {
    assert (keys + [c])[..|keys|] == keys;
    SumCountsOutside(keys, counts, c, 1);
  }

  /** The counts add up to the number of letters in the text. */
  lemma {:induction false} LetterFrequencyTotal(text: string)
    ensures forall c :: c in LetterFrequency(text).keys ==> c in LetterFrequency(text).counts
    ensures SumCounts(LetterFrequency(text).keys, LetterFrequency(text).counts) == LetterCount(text)
  {
    if text != [] {
      var t, c := text[..|text| - 1], text[|text| - 1];
      LetterFrequencyTotal(t);
      if IsAlpha(c) {
        SumCountsRecord(LetterFrequency(t), c);
      }
    }
  }

  /** A text without letters gives the empty dictionary, and only such a text does. */
  lemma LetterFrequencyEmpty(text: string)
    ensures LetterFrequency(text) == EMPTY <==> forall i :: 0 <= i < |text| ==> !IsAlpha(text[i])
  {
    LetterFrequencyCounts(text);
    var f := LetterFrequency(text);
    if f != EMPTY {
      var c := f.keys[0];
      assert c in f.counts;
    }
  }
}
