# caesar-breaker in Dafny

A model of `caesar-breaker.py`, a command-line breaker for Caesar ciphers. The
program lowercases its ciphertext argument and then works in one of two modes:

- **Brute force** (`-f`): it prints the ciphertext decrypted by each of the 26
  rotations.
- **Frequency**: it counts the letters of the ciphertext and takes the most
  frequent one, which is the first of several tied letters in order of first
  occurrence. It estimates the rotation that carries that letter onto the
  language's most frequent letter (`'e'` for `"en"`, the only entry of the
  table), then prints the ciphertext decrypted by that rotation.

The model has six modules, one per part of the program:

| file | module | models |
|---|---|---|
| `alphabet.dfy` | `Alphabet` | `ALPHABET`, `MOST_FREQUENT_LETTER_BY_LANG`, `ALPHABET.index`, `str.isalpha`, `str.lower` |
| `frequency.dfy` | `Frequency` | `get_letters_frequency` |
| `shift.dfy` | `ShiftEstimator` | `calculate_shifts` |
| `decrypt.dfy` | `Decryption` | `decrypt` and the algebra of rotations |
| `breaker.dfy` | `Breaker` | the two modes of `main` after option parsing |
| `scenarios.dfy` | `Scenarios` | one short ciphertext worked through both modes |

Modelling choices:

- **Imperative parts stay loops.** The loops of the program that the model
  covers are methods with `for` loops: `get_letters_frequency` (line 24,
  `Frequency.GetLettersFrequency`), `decrypt` (line 51, `Decryption.Decrypt`)
  and the brute-force loop of `main` (line 90, `Breaker.BruteForce`). The first
  two are proved against recursive functions that consume the text one
  character at a time from the left (`LetterFrequency`, `Decrypted`), and the
  properties are proved about those functions. The option loop of `main`
  (line 75) is left out with the rest of option parsing.
- **Dictionaries keep their insertion order.** The model assumes Python 3.7 or
  later. From that version on, a dictionary remembers the order in which its
  keys were inserted, and `max(d, key=d.get)` returns the
  first key with the largest count in that order. The counter's dictionary is
  therefore a `FrequencyMap`: the keys in insertion order, plus a map from keys
  to counts.
- **Failures are values.** `calculate_shifts` raises in three places. Each
  becomes an `Err` of `ShiftEstimator.Result`, checked in Python's evaluation
  order:
  - `max` of an empty dictionary (`EmptyFrequencyMap`);
  - a language missing from the table (`UnsupportedLanguage`);
  - a most frequent letter outside the alphabet (`LetterNotInAlphabet`).

  `main` defaults the language to the empty string. So frequency mode without
  `-l en`, on a ciphertext that contains a letter, ends in `UnsupportedLanguage`.
  A ciphertext with no letters ends in `EmptyFrequencyMap` in any language,
  because `max` (line 39) fails before the table lookup (line 40).
- **Python's `%` matches Dafny's.** Python's `%` with the positive modulus 26
  never returns a negative number, and neither does Dafny's `%`. Rotations are
  unbounded integers in both languages, so the model needs no wrap-around.

The estimate does not always recover the plaintext. For `"khoor zruog"`
(`"hello world"` rotated by 3), the most frequent letter is `'o'`. The
estimated rotation is therefore 4 − 14 = −10, and frequency mode prints the text
decrypted by −10, a line starting with `'a'`. The plaintext is brute-force
candidate 23 (`Scenarios.ShortTextFrequencyMode`, `Scenarios.ShortTextMisdecoded`,
`Scenarios.ShortTextRecovered`).

## Model

| member | source | states |
|---|---|---|
| `Alphabet.IndexOf` | caesar-breaker.py:53 | `ALPHABET.index(c)`: the index of a letter is below 26, holds that letter, and no earlier index holds it |
| `Alphabet.LetterAt` | caesar-breaker.py:53 | `ALPHABET[i]` is a letter, and `ALPHABET.index` of it gives `i` back |
| `Alphabet.AlphabetMembership` | caesar-breaker.py:8 | `ALPHABET` holds exactly the letters 'a' to 'z' |
| `Alphabet.IndexOfInjective` | caesar-breaker.py:40 | two letters with the same alphabet index are equal |
| `Alphabet.LanguageTable` | caesar-breaker.py:9 | "en" is the only key of the language table; its letter 'e' is in the alphabet at index 4 |
| `Alphabet.LowerChar` | caesar-breaker.py:86 | lowercasing one character keeps letters letters and non-letters unchanged, and sends 'A'..'Z' onto the letter with the same index |
| `Alphabet.Lower` | caesar-breaker.py:86 | the lowered argument has the same length and no uppercase letters; every character other than 'A'..'Z' is copied at its position, and an uppercase letter becomes the lowercase letter with the same alphabet index |
| `Decryption.RotateChar` | caesar-breaker.py:52-55 | a letter goes to the letter at (its index + rotations) mod 26; any other character is copied |
| `Decryption.Decrypted` | caesar-breaker.py:43-57 | the plaintext has the ciphertext's length and contains no uppercase letter |
| `Decryption.Decrypt` | caesar-breaker.py:43-57 | the loop's output is `Decrypted`, has the input's length, and position i is position i of the input rotated |
| `Decryption.DecryptedPointwise` | caesar-breaker.py:51-55 | position i of the output depends only on position i of the input |
| `Decryption.DecryptedPassThrough` | caesar-breaker.py:52-55 | non-letters pass through at the same position; a letter comes out as `ALPHABET[(index + rotations) % 26]` |
| `Decryption.RotateCharWraps` | caesar-breaker.py:53 | the rotation wraps at both ends of the alphabet, for negative rotations and for rotations above 26, and leaves a space alone |
| `Decryption.RotateCharCompose` | caesar-breaker.py:53 | rotating a character by a and then by b is rotating it by a + b |
| `Decryption.RotateCharModular` | caesar-breaker.py:53 | two rotations equal mod 26 act alike on a character |
| `Decryption.RotateCharZero` | caesar-breaker.py:53 | rotating a character by 0 keeps it |
| `Decryption.DecryptedCompose` | caesar-breaker.py:43-57 | decrypting by a and then by b is decrypting by a + b |
| `Decryption.DecryptedModular` | caesar-breaker.py:43-57 | only the rotation mod 26 matters |
| `Decryption.DecryptedIdentity` | caesar-breaker.py:43-57 | decrypting by 0 returns the text |
| `Decryption.DecryptedPeriod` | caesar-breaker.py:43-57 | the decryption has period 26 in the rotation, in both directions |
| `Decryption.DecryptedInverse` | caesar-breaker.py:43-57 | decrypting by s and then by -s restores the text |
| `Frequency.RecordUpdates` | caesar-breaker.py:26-29 | recording one letter (the dictionary update of the loop, `Record`): its count goes up by one from 0 or from its old count, every other key and count is unchanged, earlier keys keep their order, and the dictionary stays well formed |
| `Frequency.LetterFrequency` | caesar-breaker.py:18-31 | the dictionary the loop builds has distinct keys, its keys are exactly its domain, and every count is at least 1 |
| `Frequency.GetLettersFrequency` | caesar-breaker.py:18-31 | the loop's dictionary has as keys exactly the letters of the text, in order of first occurrence; each count is the number of occurrences; the counts add up to the number of letters |
| `Frequency.LetterFrequencyCounts` | caesar-breaker.py:24-29 | key iff the character is a letter of the text; count equals the number of occurrences; an earlier key first occurs before a later one |
| `Frequency.LetterFrequencyTotal` | caesar-breaker.py:24-29 | the counts add up to the number of letters in the text |
| `Frequency.LetterFrequencyEmpty` | caesar-breaker.py:22-31 | the dictionary is empty iff the text has no letters |
| `ShiftEstimator.MaxKeyIndex` | caesar-breaker.py:39 | the key that `max` returns has the largest count, and every key before it has a strictly smaller count |
| `ShiftEstimator.MostFrequentLetter` | caesar-breaker.py:39 | the chosen key is in the dictionary, has the largest count, and comes no later than any key with the same count |
| `ShiftEstimator.CalculateShifts` | caesar-breaker.py:34-40 | fails with an empty-map error iff the map is empty; fails with the unsupported-language error for a non-empty map and an unknown language; fails with the not-in-alphabet error naming the chosen letter for a non-empty map, a known language and a chosen letter outside the alphabet; succeeds iff the map is non-empty, the language is known and the chosen letter is in the alphabet; then the language is "en", the shift lies in [-21, 4], and the shift carries the chosen letter onto the language's letter mod 26 |
| `ShiftEstimator.MostFrequentLetterOfText` | caesar-breaker.py:24-39 | for a text with a letter, the chosen letter is a letter of the text with the most occurrences, and it occurs before every other letter with as many occurrences |
| `ShiftEstimator.MostFrequentLetterUnique` | caesar-breaker.py:39 | a letter of the text that occurs strictly more often than every other letter is the one `max` picks; non-letters do not compete |
| `ShiftEstimator.FirstMaximalPrecedes` | caesar-breaker.py:39 | with keys in order of first occurrence, the chosen key occurs in the text before any other key with the same count |
| `Breaker.BruteForce` | caesar-breaker.py:89-91 | 26 candidates, the k-th the ciphertext decrypted by k; the plaintext of any rotation of lowercase text is among them |
| `Breaker.BruteForceRecovers` | caesar-breaker.py:89-91 | candidate (-s) mod 26 undoes an encryption by s |
| `Breaker.EstimatedShiftHitsTarget` | caesar-breaker.py:39-40 | decrypting by the estimate turns every occurrence of the most frequent letter into the language's letter |
| `Breaker.EstimateOnLoweredText` | caesar-breaker.py:34-40 | on lowercased text the estimate fails with the empty-map error iff there are no letters, with the language error iff there are letters and the language is not "en", and succeeds otherwise |
| `Breaker.FrequencyMode` | caesar-breaker.py:94-97 | the frequency mode's line or error: the same failure cases; a line has the text's length and shows the most frequent letter as 'e' |
| `Breaker.BreakByFrequency` | caesar-breaker.py:94-97 | counting, estimating and decrypting in sequence yields `FrequencyMode` |
| `Breaker.Run` | caesar-breaker.py:86-97 | after lowercasing the argument, brute force yields the 26 rotations in order and frequency mode yields its single line or its error |
| `Scenarios.ShortTextRecovered` | caesar-breaker.py:89-91 | brute-force candidate 23 of "khoor zruog" is "hello world" |
| `Scenarios.ShortTextShift` | caesar-breaker.py:40 | when the chosen letter is 'o', the English estimate is 4 - 14 = -10 |
| `Scenarios.ShortTextCountO` | caesar-breaker.py:24-29 | 'o' occurs three times in "khoor zruog" |
| `Scenarios.ShortTextCountOthers` | caesar-breaker.py:24-29 | every other character occurs in "khoor zruog" at most twice |
| `Scenarios.ShortTextMostFrequent` | caesar-breaker.py:39 | the counter's most frequent letter of "khoor zruog" is 'o' |
| `Scenarios.ShortTextFrequencyMode` | caesar-breaker.py:94-97 | on "khoor zruog" in English the estimate is -10 and frequency mode prints the text decrypted by -10 |
| `Scenarios.ShortTextMisdecoded` | caesar-breaker.py:97 | "khoor zruog" decrypted by -10 starts with 'a', so it is not "hello world" |

## Left out

- Lines 12-15 and 60-84 are left out: `usage`, the argument-count check, `getopt`, the option loop (line 75) and `sys.exit`. `Breaker.Run` takes the ciphertext argument, the force flag and the language as parameters.
- Printing is left out (lines 91 and 97). `Breaker.Run` returns the lines instead.
- An exception is modelled as an `Err` result. The traceback and exit status that end the program are not modelled.
- `str.isalpha` (`Alphabet.IsAlpha`, lines 25 and 52) and `str.lower` are modelled on ASCII only. The model treats every other Unicode character as a non-letter and copies it unchanged. Python counts non-ASCII letters; `decrypt` raises `ValueError` on most of them in `ALPHABET.index`. `str.lower` also maps a few non-ASCII letters onto ASCII ones (KELVIN SIGN onto 'k'), and one of them onto two characters (U+0130 onto 'i' and a combining dot), so in Python the lowered string can be longer than the argument.
- Decryption.Decrypt: requires a text with no uppercase ASCII letter (`IsLowered`). On an uppercase letter Python raises `ValueError` in `ALPHABET.index`; that error path is not modelled, because the program only decrypts the lowercased argument (line 86).
- Decryption.Decrypted: has the same requirement as `Decrypt`, for the same reason.
- Decryption.RotateChar: has the same requirement as `Decrypt`, for the same reason.
- Dictionary behaviour is modelled only as far as the program uses it: insertion order, lookup, increment and `max` with a key function. Under Python 2, which the shebang `#!/usr/bin/env python` (line 1) may launch, dictionaries follow hash order and `max` may break ties differently; that is not modelled.
