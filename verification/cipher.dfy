/** The repeating-key cipher: `_encrypt` and `_decrypt` (core.py:276-304). */
module Cipher {
  import opened Alphabet
  import opened Text
  import Arith

  /** The key characters the loops read are usable: the loop reads `key[0]`
      for the first text character, so an empty key fails unless the text is
      empty, and every key character it reaches must be a letter (the
      alphabet lookup fails otherwise). */
  predicate KeyUsable(text: string, key: string) {
    && (|text| > 0 ==> |key| > 0)
    && forall j | 0 <= j < |key| && j < |text| :: IsLetter(key[j])
  }

  /** The key symbol applied to letter `n` of the text. */
  function KeyAt(text: string, key: string, n: nat): (c: char)
    requires KeyUsable(text, key) && n < |text|
    ensures IsLetter(c)
    ensures c == key[n % |key|]
  {
    assert n % |key| <= n;
    key[n % |key|]
  }

  /** Letter `n` of the ciphertext is letter `n` of the text shifted forward
      by key symbol `n mod |key|`. */
  function Encipher(text: string, key: string): (r: string)
    requires OverAlphabet(text) && KeyUsable(text, key)
    ensures |r| == |text|
    ensures OverAlphabet(r)
  {
    seq(|text|, n requires 0 <= n < |text| => Add(text[n], KeyAt(text, key, n)))
  }

  /** Letter `n` of the plaintext is letter `n` of the text shifted back by
      key symbol `n mod |key|`. */
  function Decipher(text: string, key: string): (r: string)
    requires OverAlphabet(text) && KeyUsable(text, key)
    ensures |r| == |text|
    ensures OverAlphabet(r)
  {
    seq(|text|, n requires 0 <= n < |text| => Sub(text[n], KeyAt(text, key, n)))
  }

  /** `_encrypt`: walk the text with a key index that wraps to 0 after the
      last key symbol; the result is the ciphertext defined above. */
  method Encrypt(text: string, key: string) returns (result: string)
    requires OverAlphabet(text) && KeyUsable(text, key)
    ensures result == Encipher(text, key)
  {
    var i := 0;
    result := [];
    for n := 0 to |text|
      invariant |result| == n
      invariant n > 0 ==> |key| > 0 && i == n % |key|
      invariant n == 0 ==> i == 0
      invariant forall k | 0 <= k < n :: result[k] == Add(text[k], KeyAt(text, key, k))
    {
      assert i == n % |key|;
      assert key[i] == KeyAt(text, key, n);
      result := result + [Add(text[n], key[i])];
      Arith.ModSucc(n, |key|);
      i := (i + 1) % |key|;
    }
  }

  /** `_decrypt`: the same walk, subtracting the key symbol. */
  method Decrypt(text: string, key: string) returns (result: string)
    requires OverAlphabet(text) && KeyUsable(text, key)
    ensures result == Decipher(text, key)
  {
    var i := 0;
    result := [];
    for n := 0 to |text|
      invariant |result| == n
      invariant n > 0 ==> |key| > 0 && i == n % |key|
      invariant n == 0 ==> i == 0
      invariant forall k | 0 <= k < n :: result[k] == Sub(text[k], KeyAt(text, key, k))
    {
      assert i == n % |key|;
      assert key[i] == KeyAt(text, key, n);
      result := result + [Sub(text[n], key[i])];
      Arith.ModSucc(n, |key|);
      i := (i + 1) % |key|;
    }
  }

  /** Decrypting with the key that encrypted gives the text back. */
  lemma RoundTrip(text: string, key: string)
    requires OverAlphabet(text) && KeyUsable(text, key)
    ensures KeyUsable(Encipher(text, key), key)
    ensures Decipher(Encipher(text, key), key) == text
  {
    var c := Encipher(text, key);
    var d := Decipher(c, key);
    forall n | 0 <= n < |text|
      ensures d[n] == text[n]
    {
      SubAdd(text[n], KeyAt(text, key, n));
    }
  }

  /** Encrypting what was decrypted gives the ciphertext back. */
  lemma RoundTripInverse(text: string, key: string)
    requires OverAlphabet(text) && KeyUsable(text, key)
    ensures KeyUsable(Decipher(text, key), key)
    ensures Encipher(Decipher(text, key), key) == text
  {
    var p := Decipher(text, key);
    var e := Encipher(p, key);
    forall n | 0 <= n < |text|
      ensures e[n] == text[n]
    {
      AddSub(text[n], KeyAt(text, key, n));
    }
  }

  /** Column `p` of a ciphertext (every |key|-th letter from `p`) was
      encrypted with the single key symbol `key[p]`: this is what lets the
      analysis attack each column as a Caesar shift. */
  lemma ColumnShift(text: string, key: string, p: nat)
    requires OverAlphabet(text) && KeyUsable(text, key)
    requires p < |key|
    ensures |Every(Encipher(text, key), p, |key|)| == |Every(text, p, |key|)|
    ensures forall j | 0 <= j < |Every(text, p, |key|)| ::
      Every(Encipher(text, key), p, |key|)[j] == Add(Every(text, p, |key|)[j], key[p])
  {
    EveryLength(Encipher(text, key), text, p, |key|);
    forall j | 0 <= j < |Every(text, p, |key|)|
      ensures Every(Encipher(text, key), p, |key|)[j] == Add(Every(text, p, |key|)[j], key[p])
    {
      ColumnLetter(text, key, p, j);
    }
  }

  /** Letter `j` of column `p` is text letter `p + j * |key|`, whose key
      symbol is `key[p]`. */
  lemma ColumnLetter(text: string, key: string, p: nat, j: nat)
    requires OverAlphabet(text) && KeyUsable(text, key)
    requires p < |key| && j < |Every(text, p, |key|)|
    requires |Every(Encipher(text, key), p, |key|)| == |Every(text, p, |key|)|
    ensures Every(Encipher(text, key), p, |key|)[j] == Add(Every(text, p, |key|)[j], key[p])
  {
    var n := ColumnIndex(Encipher(text, key), text, p, |key|, j);
    CipherLetter(text, key, n, p);
  }

  /** Letter `j` of column `p` of two equally long texts sits at the same
      index of both, and that index has remainder `p`. */
  lemma ColumnIndex(a: string, b: string, p: nat, m: nat, j: nat) returns (n: nat)
    requires |a| == |b| && p < m && j < |Every(b, p, m)| && |Every(a, p, m)| == |Every(b, p, m)|
    ensures n < |a| && n % m == p
    ensures Every(a, p, m)[j] == a[n] && Every(b, p, m)[j] == b[n]
  {
    n := p + j * m;
    EveryAt(a, p, m, j);
    EveryAt(b, p, m, j);
    Arith.ModColumn(p, j, m);
  }

  /** A ciphertext letter whose index has remainder `p` was shifted by
      `key[p]`. */
  lemma CipherLetter(text: string, key: string, n: nat, p: nat)
    requires OverAlphabet(text) && KeyUsable(text, key)
    requires n < |text| && p < |key| && n % |key| == p
    ensures Encipher(text, key)[n] == Add(text[n], key[p])
  {
    assert KeyAt(text, key, n) == key[p];
  }

  /** Columns of equally long texts are equally long. */
  lemma {:induction false} EveryLength(a: string, b: string, p: nat, m: nat)
    requires |a| == |b| && m > 0
    ensures |Every(a, p, m)| == |Every(b, p, m)|
    decreases |a| - p
  {
    if p < |a| {
      EveryLength(a, b, p + m, m);
    }
  }
}
