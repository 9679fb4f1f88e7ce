/** The working alphabet of the analyser and the modular symbol arithmetic on it
    (core.py:13-26, core.py:270-274). */
module Alphabet {
  import Arith

  /** The 33 lower-case Russian letters in dictionary order (ё after е). */
  const ALPHABET: string := "абвгдеёжзийклмнопрстуфхцчшщъыьэюя"

  /** Number of letters. */
  const N: nat := 33

  /** Letters assumed most frequent in genuine plaintext. */
  const COMMON_SYMBOLS: string := "аеио"

  /** Placeholder for an unresolved key position; also the pattern wildcard. */
  const WILDCARD: char := '?'

  /** Bounds of the key lengths tried by the estimator. */
  const KEY_MIN_LENGTH: nat := 5
  const KEY_MAX_LENGTH: nat := 9

  /** Default minimum repeat counts, and the fixed tally a key-symbol candidate
      must exceed. */
  const GRAMM_REPEATS_MIN_COUNT: nat := 2
  const SYMBOL_REPEATS_MIN_COUNT: nat := 2
  const KEY_CANDIDATE_REPEATS_MIN_COUNT: nat := 2

  /* The proofs work with the letters through their code points rather than
     through the string constant: а..е are U+0430..U+0435, ё is U+0451, and
     ж..я are U+0436..U+044F. `AlphabetAgrees` ties the two views together. */

  /** The i-th letter of ALPHABET. */
  function Letter(i: nat): (c: char)
    requires i < N
  {
    if i < 6 then (0x430 + i) as char
    else if i == 6 then 'ё'
    else (0x42F + i) as char
  }

  /** `c in ALPHABET`. */
  predicate IsLetter(c: char) {
    c == 'ё' || ('а' <= c <= 'я')
  }

  /** Position of a letter in the alphabet (`ALPHABET.index(c)`). */
  function IndexOf(c: char): (i: nat)
    requires IsLetter(c)
    ensures i < N && Letter(i) == c
  {
    if c == 'ё' then 6
    else if c as int <= 0x435 then c as int - 0x430
    else c as int - 0x42F
  }

  /** The string constant spells out the letters in code-point order, ё
      after е. */
  lemma AlphabetIndexed()
    ensures |ALPHABET| == N
    ensures forall i | 0 <= i < N :: ALPHABET[i] == Letter(i)
  {
    forall i | 0 <= i < 6
      ensures ALPHABET[i] == Letter(i)
    {
    }
    forall i | 7 <= i < N
      ensures ALPHABET[i] == Letter(i)
    {
    }
  }

  lemma AlphabetAgrees()
    ensures |ALPHABET| == N
    ensures forall i | 0 <= i < N :: ALPHABET[i] == Letter(i)
    ensures forall c :: c in ALPHABET <==> IsLetter(c)
  {
    AlphabetIndexed();
    forall c
      ensures c in ALPHABET <==> IsLetter(c)
    {
      if IsLetter(c) {
        assert ALPHABET[IndexOf(c)] == c;
      }
    }
  }

  /** No letter occurs twice, so a letter's index is its position. */
  lemma IndexOfLetter(i: nat)
    requires i < N
    ensures IsLetter(Letter(i)) && IndexOf(Letter(i)) == i
  {
  }

  /** Neither the wildcard nor the space is a letter. */
  lemma NotLetters()
    ensures !IsLetter(WILDCARD) && !IsLetter(' ')
  {
  }

  /** Every character of `s` is a letter of the alphabet. */
  predicate OverAlphabet(s: string) {
    forall i | 0 <= i < |s| :: IsLetter(s[i])
  }

  lemma CommonSymbolsAreLetters()
    ensures OverAlphabet(COMMON_SYMBOLS)
  {
  }

  /** `_symbols_addition`: the letter whose index is the sum of the indices,
      wrapped around the alphabet. */
  function Add(a: char, b: char): (r: char)
    requires IsLetter(a) && IsLetter(b)
    ensures IsLetter(r)
    ensures IndexOf(r) == (IndexOf(a) + IndexOf(b)) % N
  {
    var k := (IndexOf(a) + IndexOf(b)) % N;
    IndexOfLetter(k);
    Letter(k)
  }

  /** `_symbols_subtraction`: indexes the alphabet with the plain difference of
      the indices, which Python reads from the end when it is negative. */
  function Sub(a: char, b: char): (r: char)
    requires IsLetter(a) && IsLetter(b)
    ensures IsLetter(r)
    ensures IndexOf(r) == (IndexOf(a) - IndexOf(b)) % N
  {
    var d := IndexOf(a) - IndexOf(b);
    var k := if d < 0 then d + N else d;
    IndexOfLetter(k);
    Letter(k)
  }

  /** An index sum or difference needs at most one wrap around the alphabet. */
  lemma Wrap(x: int)
    requires -(N as int) <= x < 2 * N
    ensures x % N == if x < 0 then x + N else if x >= N then x - N else x
  {
    if x < 0 {
      Arith.DivModUnique(x, -1, x + N, N);
    } else if x >= N {
      Arith.DivModUnique(x, 1, x - N, N);
    } else {
      Arith.DivModUnique(x, 0, x, N);
    }
  }

  /** Subtracting what was added gives the letter back. */
  lemma SubAdd(a: char, b: char)
    requires IsLetter(a) && IsLetter(b)
    ensures Sub(Add(a, b), b) == a
  {
    var i: int, j: int := IndexOf(a), IndexOf(b);
    Wrap(i + j);
    var s := IndexOf(Add(a, b));
    Wrap(s - j);
    var y := Sub(Add(a, b), b);
    assert IndexOf(y) == i;
  }

  /** Adding back what was subtracted gives the letter back: a key symbol
      derived as `Sub(e, s)` turns `s` into `e`. */
  lemma AddSub(e: char, s: char)
    requires IsLetter(e) && IsLetter(s)
    ensures Add(s, Sub(e, s)) == e
  {
    var i: int, j: int := IndexOf(e), IndexOf(s);
    Wrap(i - j);
    var d := IndexOf(Sub(e, s));
    Wrap(j + d);
    var y := Add(s, Sub(e, s));
    assert IndexOf(y) == i;
  }

  /** The only letter that `s` shifts to `Add(s, c)` is `c`: a key symbol is
      recovered from its ciphertext letter by subtraction. */
  lemma AddSolved(s: char, c: char)
    requires IsLetter(s) && IsLetter(c)
    ensures Sub(Add(s, c), s) == c
  {
    var i: int, j: int := IndexOf(s), IndexOf(c);
    Wrap(i + j);
    var a := IndexOf(Add(s, c));
    Wrap(a - i);
    var y := Sub(Add(s, c), s);
    assert IndexOf(y) == j;
  }
}
