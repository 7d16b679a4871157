/**
 * The Caesar cipher: every ASCII letter is shifted by a key within its own case, modulo the
 * alphabet size, and every other character is left alone. The program reads a key, refuses
 * keys outside (-26, 26), and prints the shifted text. Reading and printing are not modelled:
 * the text is a parameter and the output a value.
 */
module Encrypt {
  import opened Wrappers

  const ALPHABET_SIZE := 26
  const LOWERCASE_START := 97
  const LOWERCASE_END := 122
  const UPPERCASE_START := 65
  const UPPERCASE_END := 90

  /** The character that ends a C string; the program skips it. */
  const NUL: char := 0 as char

  predicate IsLower(c: char)
  {
    LOWERCASE_START <= c as int <= LOWERCASE_END
  }

  predicate IsUpper(c: char)
  {
    UPPERCASE_START <= c as int <= UPPERCASE_END
  }

  /** C's % on int: the remainder takes the sign of the dividend. */
  function CRem(a: int, b: int): (r: int)
    requires b > 0
    ensures -b < r < b
    ensures a >= 0 ==> r == a % b
  {
    if a >= 0 then a % b else -((-a) % b)
  }

  /** A negative key is first moved up by one alphabet length. */
  function EffectiveKey(key: int): (k: int)
    ensures -ALPHABET_SIZE < key < ALPHABET_SIZE ==> 0 <= k < ALPHABET_SIZE && k % ALPHABET_SIZE == key % ALPHABET_SIZE
  {
    if key < 0 then key + ALPHABET_SIZE else key
  }

  /**
   * Shift a letter by key within its case; anything else is returned as it is. For a key
   * above -26 the shift stays in the letter's case and moves its offset by the key modulo 26.
   */
  function Encrypt(letter: char, key: int): (r: char)
    ensures !IsLower(letter) && !IsUpper(letter) ==> r == letter
    ensures key > -ALPHABET_SIZE && IsLower(letter) ==>
      IsLower(r) && r as int - LOWERCASE_START == (letter as int - LOWERCASE_START + EffectiveKey(key)) % ALPHABET_SIZE
    ensures key > -ALPHABET_SIZE && IsUpper(letter) ==>
      IsUpper(r) && r as int - UPPERCASE_START == (letter as int - UPPERCASE_START + EffectiveKey(key)) % ALPHABET_SIZE
  {
    var k := EffectiveKey(key);
    if IsLower(letter) then
      (CRem(letter as int - LOWERCASE_START + k, ALPHABET_SIZE) + LOWERCASE_START) as char
    else if IsUpper(letter) then
      (CRem(letter as int - UPPERCASE_START + k, ALPHABET_SIZE) + UPPERCASE_START) as char
    else
      letter
  }

  /** A negative key in range shifts exactly like the same key plus 26. */
  lemma NegativeKeyWraps(c: char, key: int)
    requires -ALPHABET_SIZE < key < 0
    ensures Encrypt(c, key) == Encrypt(c, key + ALPHABET_SIZE)
  {
  }

  /** Key 0 changes nothing. */
  lemma KeyZeroIdentity(c: char)
    ensures Encrypt(c, 0) == c
  {
  }

  /** Shifting an offset by a and then by b, with a + b a whole number of alphabets, returns it. */
  lemma ShiftBack(o: int, a: int, b: int)
    requires 0 <= o < ALPHABET_SIZE && 0 <= a < ALPHABET_SIZE && 0 <= b <= ALPHABET_SIZE
    requires a + b == 0 || a + b == ALPHABET_SIZE
    ensures ((o + a) % ALPHABET_SIZE + b) % ALPHABET_SIZE == o
  {
    if o + a < ALPHABET_SIZE {
      assert (o + a) % ALPHABET_SIZE == o + a;
      if a + b == 0 {
        assert o + a + b == o;
      } else {
        assert o + a + b == o + ALPHABET_SIZE;
      }
    } else {
      assert (o + a) % ALPHABET_SIZE == o + a - ALPHABET_SIZE;
      assert o + a - ALPHABET_SIZE + b == o;
    }
  }

  /** The two effective keys of k and -k add up to 0 or 26. */
  lemma OppositeKeys(key: int)
    requires -ALPHABET_SIZE < key < ALPHABET_SIZE
    ensures 0 <= EffectiveKey(key) < ALPHABET_SIZE && 0 <= EffectiveKey(-key) <= ALPHABET_SIZE
    ensures EffectiveKey(key) + EffectiveKey(-key) == 0 || EffectiveKey(key) + EffectiveKey(-key) == ALPHABET_SIZE
  {
  }

  /** Shifting by -key undoes shifting by key, for every key the program accepts. */
  lemma RoundTrip(c: char, key: int)
    requires -ALPHABET_SIZE < key < ALPHABET_SIZE
    ensures Encrypt(Encrypt(c, key), -key) == c
  {
    OppositeKeys(key);
    if IsLower(c) {
      ShiftBack(c as int - LOWERCASE_START, EffectiveKey(key), EffectiveKey(-key));
    } else if IsUpper(c) {
      ShiftBack(c as int - UPPERCASE_START, EffectiveKey(key), EffectiveKey(-key));
    }
  }

  /** Below the accepted range the C remainder goes negative and a letter leaves the alphabet. */
  lemma KeyBelowRangeLeavesAlphabet()
    ensures Encrypt('a', -30) == ']'
  {
  }

  // -------------------------------------------------------------- the program

  /** The key check the program makes before reading the text. */
  predicate ValidKey(key: int)
  {
    -ALPHABET_SIZE < key < ALPHABET_SIZE
  }

  /** The text with its NUL characters removed. */
  function Strip(text: seq<char>): (r: seq<char>)
    ensures |r| <= |text|
    ensures forall i :: 0 <= i < |r| ==> r[i] != NUL
  {
    if |text| == 0 then []
    else (if text[0] == NUL then [] else [text[0]]) + Strip(text[1..])
  }

  /** Strip keeps every character but NUL, as often as the text holds it. */
  lemma {:induction false} StripCounts(text: seq<char>)
    ensures multiset(Strip(text))[NUL] == 0
    ensures forall c :: c != NUL ==> multiset(Strip(text))[c] == multiset(text)[c]
  {
    if |text| > 0 {
      StripCounts(text[1..]);
      assert text == [text[0]] + text[1..];
    }
  }

  /** A single character passes Strip unless it is NUL. */
  lemma StripOne(c: char)
    ensures Strip([c]) == if c == NUL then [] else [c]
  {
  }

  /** Strip works piece by piece: the kept characters of a text keep their order. */
  lemma {:induction false} StripConcat(a: seq<char>, b: seq<char>)
    ensures Strip(a + b) == Strip(a) + Strip(b)
  {
    if |a| == 0 {
      assert a + b == b;
    } else {
      var head := if a[0] == NUL then [] else [a[0]];
      assert (a + b)[1..] == a[1..] + b;
      StripConcat(a[1..], b);
      calc {
        Strip(a + b);
        head + Strip(a[1..] + b);
        head + (Strip(a[1..]) + Strip(b));
        (head + Strip(a[1..])) + Strip(b);
      }
    }
  }

  /** Every non-NUL character of the text, shifted by key, in order. */
  function EncryptText(text: seq<char>, key: int): (r: seq<char>)
    ensures |r| == |Strip(text)|
    ensures forall i :: 0 <= i < |r| ==> r[i] == Encrypt(Strip(text)[i], key)
  {
    if |text| == 0 then []
    else (if text[0] == NUL then [] else [Encrypt(text[0], key)]) + EncryptText(text[1..], key)
  }

  /** A shifted character is never NUL: letters stay letters and NUL only comes from NUL. */
  lemma EncryptKeepsNonNul(c: char, key: int)
    requires -ALPHABET_SIZE < key && c != NUL
    ensures Encrypt(c, key) != NUL
  {
  }

  /** Text without NUL characters passes Strip unchanged. */
  lemma {:induction false} StripNoNul(text: seq<char>)
    requires forall i :: 0 <= i < |text| ==> text[i] != NUL
    ensures Strip(text) == text
  {
    if |text| > 0 {
      StripNoNul(text[1..]);
    }
  }

  /** Running the program with -key on its output for key gives back the input, less its NULs. */
  lemma TextRoundTrip(text: seq<char>, key: int)
    requires ValidKey(key)
    ensures EncryptText(EncryptText(text, key), -key) == Strip(text)
  {
    var once := EncryptText(text, key);
    forall i | 0 <= i < |once| ensures once[i] != NUL {
      EncryptKeepsNonNul(Strip(text)[i], key);
    }
    StripNoNul(once);
    var twice := EncryptText(once, -key);
    forall i | 0 <= i < |twice| ensures twice[i] == Strip(text)[i] {
      RoundTrip(Strip(text)[i], key);
    }
  }

  /**
   * The program: a key that was not read, or one outside (-26, 26), is refused with no
   * output; otherwise the output is the shifted text.
   */
  function EncryptProgram(key: Option<int>, text: seq<char>): (r: Option<seq<char>>)
    ensures r.Some? <==> key.Some? && ValidKey(key.value)
    ensures r.Some? ==> |r.value| == |Strip(text)| && forall i :: 0 <= i < |r.value| ==> r.value[i] == Encrypt(Strip(text)[i], key.value)
    ensures r.Some? ==> EncryptText(r.value, -key.value) == Strip(text)
  {
    if key.None? || !ValidKey(key.value) then None
    else
      TextRoundTrip(text, key.value);
      Some(EncryptText(text, key.value))
  }
}
