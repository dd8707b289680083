/** The rotator: `decrypt(ciphertext, rotations)` and the algebra of rotations. */
module Decryption {
  import opened Alphabet

  /** One step of `decrypt`: a letter moves `rotations` places forward around the
      alphabet (Python's `%`, never negative for the positive modulus 26); any
      other character is copied. */
  function RotateChar(c: char, rotations: int): (r: char)
    requires IsAlpha(c) ==> InAlphabet(c)
    ensures IsAlpha(c) ==> InAlphabet(r) && IndexOf(r) == (IndexOf(c) + rotations) % 26
    ensures !IsAlpha(c) ==> r == c
  {
    AlphabetLetters();
    if IsAlpha(c) then LetterAt((IndexOf(c) + rotations) % |ALPHABET|) else c
  }

  /** The plaintext `decrypt` builds: the characters of `text`, each rotated, appended
      one by one in order. */
  function Decrypted(text: string, rotations: int): (plaintext: string)
    requires IsLowered(text)
    ensures |plaintext| == |text| && IsLowered(plaintext)
  {
    if text == [] then []
    else Decrypted(text[..|text| - 1], rotations) + [RotateChar(text[|text| - 1], rotations)]
  }

  /** `decrypt(ciphertext, rotations)`: the loop that appends one character per input character. */
  method Decrypt(ciphertext: string, rotations: int) returns (plaintext: string)
    requires IsLowered(ciphertext)
    ensures plaintext == Decrypted(ciphertext, rotations)
    ensures |plaintext| == |ciphertext| && IsLowered(plaintext)
    ensures forall i :: 0 <= i < |ciphertext| ==> plaintext[i] == RotateChar(ciphertext[i], rotations)
  {
    AlphabetLetters();
    plaintext := "";
    for i := 0 to |ciphertext|
      invariant plaintext == Decrypted(ciphertext[..i], rotations)
    {
      var letter := ciphertext[i];
      assert ciphertext[..i + 1][..i] == ciphertext[..i];
      if IsAlpha(letter) {
        plaintext := plaintext + [LetterAt((IndexOf(letter) + rotations) % |ALPHABET|)];
      } else {
        plaintext := plaintext + [letter];
      }
    }
    assert ciphertext[..|ciphertext|] == ciphertext;
    DecryptedPointwise(ciphertext, rotations);
  }

  /** The output has the input's length, and position `i` of the output is the
      rotation of position `i` of the input and of nothing else. */
  lemma {:induction false} DecryptedPointwise(text: string, rotations: int)
    requires IsLowered(text)
    ensures forall i :: 0 <= i < |text| ==> Decrypted(text, rotations)[i] == RotateChar(text[i], rotations)
  {
    if text != [] {
      DecryptedPointwise(text[..|text| - 1], rotations);
    }
  }

  /** Characters outside the alphabet come out unchanged at the same position, and
      letters come out as letters. */
  lemma DecryptedPassThrough(text: string, rotations: int, i: int)
    requires IsLowered(text) && 0 <= i < |text|
    ensures !IsAlpha(text[i]) ==> Decrypted(text, rotations)[i] == text[i]
    ensures IsAlpha(text[i]) ==> InAlphabet(Decrypted(text, rotations)[i])
    ensures IsAlpha(text[i]) ==>
      Decrypted(text, rotations)[i] == LetterAt((IndexOf(text[i]) + rotations) % 26)
  {
    DecryptedPointwise(text, rotations);
  }

  /** The rotation wraps around both ends of the alphabet, whatever the sign of
      the rotation or its size. */
  lemma RotateCharWraps()
    ensures RotateChar('z', 1) == 'a' && RotateChar('a', -1) == 'z'
    ensures RotateChar('k', -10) == 'a' && RotateChar('k', 23) == 'h' && RotateChar('k', 49) == 'h'
    ensures RotateChar(' ', 7) == ' '
  {
  }

  /** Rotating a character twice is rotating it once by the sum. */
  lemma RotateCharCompose(c: char, a: int, b: int)
    requires IsAlpha(c) ==> InAlphabet(c)
    ensures RotateChar(RotateChar(c, a), b) == RotateChar(c, a + b)
  {
    if IsAlpha(c) {
      var i := IndexOf(c);
      ModAddAbsorb(i + a, b);
      IndexOfInjective(RotateChar(RotateChar(c, a), b), RotateChar(c, a + b));
    }
  }

  /** `(x % 26 + y) % 26 == (x + y) % 26`. */
  lemma ModAddAbsorb(x: int, y: int)
    ensures (x % 26 + y) % 26 == (x + y) % 26
  {
    var q := x / 26;
    assert x == 26 * q + x % 26;
    assert x + y == (x % 26 + y) + 26 * q;
  }

  /** A rotated character is still admissible input. */
  lemma RotateCharLowered(c: char, rotations: int)
    requires IsAlpha(c) ==> InAlphabet(c)
    ensures IsAlpha(RotateChar(c, rotations)) ==> InAlphabet(RotateChar(c, rotations))
  {
  }

  /** Only the rotation modulo 26 matters to one character. */
  lemma RotateCharModular(c: char, a: int, b: int)
    requires IsAlpha(c) ==> InAlphabet(c)
    requires a % 26 == b % 26
    ensures RotateChar(c, a) == RotateChar(c, b)
  {
    if IsAlpha(c) {
      ModAddAbsorb(a, IndexOf(c));
      ModAddAbsorb(b, IndexOf(c));
      IndexOfInjective(RotateChar(c, a), RotateChar(c, b));
    }
  }

  /** Rotating one character by zero keeps it. */
  lemma RotateCharZero(c: char)
    requires IsAlpha(c) ==> InAlphabet(c)
    ensures RotateChar(c, 0) == c
  {
    if IsAlpha(c) {
      IndexOfInjective(RotateChar(c, 0), c);
    }
  }

  /** Decrypting a text with one more character appends that character's rotation. */
  lemma DecryptedSnoc(text: string, c: char, rotations: int)
    requires IsLowered(text) && (IsAlpha(c) ==> InAlphabet(c))
    ensures IsLowered(text + [c])
    ensures Decrypted(text + [c], rotations) == Decrypted(text, rotations) + [RotateChar(c, rotations)]
  {
    assert (text + [c])[..|text|] == text;
  }

  /** Decrypting twice is decrypting once by the sum of the rotations. */
  lemma {:induction false} DecryptedCompose(text: string, a: int, b: int)
    requires IsLowered(text)
    ensures IsLowered(Decrypted(text, a))
    ensures Decrypted(Decrypted(text, a), b) == Decrypted(text, a + b)
  {
    if text != [] {
      var init, last := text[..|text| - 1], text[|text| - 1];
      DecryptedCompose(init, a, b);
      RotateCharLowered(last, a);
      DecryptedSnoc(Decrypted(init, a), RotateChar(last, a), b);
      RotateCharCompose(last, a, b);
    }
  }

  /** Only the rotation modulo 26 matters. */
  lemma {:induction false} DecryptedModular(text: string, a: int, b: int)
    requires IsLowered(text)
    requires a % 26 == b % 26
    ensures Decrypted(text, a) == Decrypted(text, b)
  {
    if text != [] {
      DecryptedModular(text[..|text| - 1], a, b);
      RotateCharModular(text[|text| - 1], a, b);
    }
  }

  /** Rotating by zero changes nothing. */
  lemma {:induction false} DecryptedIdentity(text: string)
    requires IsLowered(text)
    ensures Decrypted(text, 0) == text
  {
    if text != [] {
      var init, last := text[..|text| - 1], text[|text| - 1];
      DecryptedIdentity(init);
      RotateCharZero(last);
      assert text == init + [last];
    }
  }

  /** The rotation has period 26, in both directions. */
  lemma DecryptedPeriod(text: string, s: int)
    requires IsLowered(text)
    ensures Decrypted(text, s + 26) == Decrypted(text, s)
    ensures Decrypted(text, s - 26) == Decrypted(text, s)
  {
    DecryptedModular(text, s + 26, s);
    DecryptedModular(text, s - 26, s);
  }

  /** Rotating back by the same amount restores the text. */
  lemma DecryptedInverse(text: string, s: int)
    requires IsLowered(text)
    ensures IsLowered(Decrypted(text, s))
    ensures Decrypted(Decrypted(text, s), -s) == text
  {
    DecryptedCompose(text, s, -s);
    DecryptedIdentity(text);
  }
}
