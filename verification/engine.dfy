/** The public operations of the `Vigenere` class: `encrypt` (core.py:51-55),
    `decrypt` (core.py:57-85) and `vigenering` (core.py:87-215). Python
    exceptions become `Failure` values; each call returns a fresh solution
    record. */
module Engine {
  import opened Seqs
  import opened Alphabet
  import opened Text
  import opened Cipher
  import opened Kasiski
  import opened Frequency
  import opened Dictionary

  /** What the source raises: a `KeyError` when the dictionary has no
      bucket for the first key symbol, and an `IndexError`/`ValueError`
      when a key is empty or holds a symbol outside the alphabet. */
  datatype Error = MissingBucket(symbol: char) | InvalidKey(key: string)

  datatype Result<T> = Success(value: T) | Failure(error: Error)

  /** One decryption: the key used and the text it gave, spaces restored. */
  datatype KeyEntry = KeyEntry(value: string, plaintext: string)

  /** The solution record: the roundings count of every tried key length
      (empty when the length was given), the chosen length, the key mask,
      the decryptions and the `is_vigenere` flag. */
  datatype Solution = Solution(
    keyLengths: map<nat, nat>,
    keyLength: nat,
    keyMask: string,
    keys: seq<KeyEntry>,
    isVigenere: bool)

  /** The keys of the decryptions, in order. */
  function KeysOf(entries: seq<KeyEntry>): (r: seq<string>)
    ensures |r| == |entries|
    ensures forall i | 0 <= i < |r| :: r[i] == entries[i].value
  {
    seq(|entries|, i requires 0 <= i < |entries| => entries[i].value)
  }

  /** `encrypt`: remember where the spaces were, normalise, encipher, and
      put the spaces back. */
  function Encrypt(text: string, key: string): (r: Result<string>)
    ensures r.Success? <==> KeyUsable(Prepare(text), key)
    ensures r.Failure? ==> r.error == InvalidKey(key)
    ensures r.Success? ==> |r.value| == |Prepare(text)| + |SpacePositions(text)|
    ensures r.Success? ==> Prepare(r.value) == Encipher(Prepare(text), key)
  {
    var p := Prepare(text);
    if !KeyUsable(p, key) then Failure(InvalidKey(key))
    else
      var c := Encipher(p, key);
      PrepareInsertSpaces(c, SpacePositions(text));
      PrepareKeepsLetters(c);
      Success(InsertChar(c, ' ', SpacePositions(text)))
  }

  /** The space positions `decrypt` re-inserts: the given ones, or those of
      the ciphertext when none (an empty list) are given. */
  function Layout(cipherText: string, spaces: seq<nat>): seq<nat> {
    if spaces == [] then SpacePositions(cipherText) else spaces
  }

  /** Every word the mask suggests can be used as a key on the text. */
  predicate SuggestionsUsable(text: string, key: string, words: seq<string>)
    requires |key| > 0
  {
    forall w | w in Suggestions(key, words, |words|) :: KeyUsable(text, w)
  }

  /** Decrypt the text with each suggested word in turn, stopping at the
      first word the cipher cannot use. */
  function DecryptAll(text: string, words: seq<string>, positions: seq<nat>): (r: Result<seq<KeyEntry>>)
    requires OverAlphabet(text)
    ensures r.Success? <==> forall i | 0 <= i < |words| :: KeyUsable(text, words[i])
    ensures r.Success? ==> |r.value| == |words|
    ensures r.Failure? ==> r.error.InvalidKey? && r.error.key in words && !KeyUsable(text, r.error.key)
  {
    if words == [] then Success([])
    else if !KeyUsable(text, words[0]) then Failure(InvalidKey(words[0]))
    else
      var entry := KeyEntry(words[0], InsertChar(Decipher(text, words[0]), ' ', positions));
      var rest := DecryptAll(text, words[1..], positions);
      assert forall i | 1 <= i < |words| :: words[i] == words[1..][i - 1];
      match rest
      case Failure(e) => Failure(e)
      case Success(entries) => Success([entry] + entries)
  }

  /** On success, entry `i` is word `i` with the text it deciphers. */
  lemma {:induction false} DecryptAllEntries(text: string, words: seq<string>, positions: seq<nat>)
    requires OverAlphabet(text)
    ensures var r := DecryptAll(text, words, positions);
      r.Success? ==> forall i | 0 <= i < |words| ::
        r.value[i] == KeyEntry(words[i], InsertChar(Decipher(text, words[i]), ' ', positions))
  {
    if words != [] && KeyUsable(text, words[0]) {
      DecryptAllEntries(text, words[1..], positions);
      var r := DecryptAll(text, words, positions);
      if r.Success? {
        forall i | 1 <= i < |words|
          ensures r.value[i] == DecryptAll(text, words[1..], positions).value[i - 1]
        {
        }
      }
    }
  }

  /** The decryptions stop at the first word the cipher cannot use, and
      report that word. */
  lemma {:induction false} DecryptAllStops(text: string, words: seq<string>, positions: seq<nat>, i: nat)
    requires OverAlphabet(text) && i < |words| && !KeyUsable(text, words[i])
    requires forall j | 0 <= j < i :: KeyUsable(text, words[j])
    ensures DecryptAll(text, words, positions) == Failure(InvalidKey(words[i]))
  {
    if i > 0 {
      assert words[1..][i - 1] == words[i];
      assert forall j | 0 <= j < i - 1 :: words[1..][j] == words[j + 1];
      DecryptAllStops(text, words[1..], positions, i - 1);
    }
  }

  /** The wildcard branch of `decrypt`: look up the bucket of the mask's
      first symbol, keep the words that fit the mask, and decrypt with each. */
  function DecryptMask(text: string, key: string, positions: seq<nat>, words: seq<string>): (r: Result<seq<KeyEntry>>)
    requires OverAlphabet(text) && WILDCARD in key
    ensures r == Failure(MissingBucket(key[0])) <==> key[0] != WILDCARD && (!IsLetter(key[0]) || words == [])
    ensures r.Success? ==> forall i | 0 <= i < |r.value| ::
      && r.value[i].value in words
      && |r.value[i].value| == |key|
      && Match(key, r.value[i].value)
      && KeyUsable(text, r.value[i].value)
      && r.value[i].plaintext == InsertChar(Decipher(text, r.value[i].value), ' ', positions)
    ensures r.Success? ==> forall i | 0 <= i < |words| && Suggested(key, words, i) :: words[i] in KeysOf(r.value)
    ensures r.Success? ==> KeysOf(r.value) == Suggestions(key, words, |words|)
    ensures r.Failure? && r.error.InvalidKey? ==>
      r.error.key in words && |r.error.key| == |key| && Match(key, r.error.key) && !KeyUsable(text, r.error.key)
    ensures r.Failure? && r.error.InvalidKey? ==> r.error.key in Suggestions(key, words, |words|)
    ensures r.Failure? ==> r.error == MissingBucket(key[0]) || r.error.InvalidKey?
    ensures r.Success? <==> HasBucket(key, words) && SuggestionsUsable(text, key, words)
  {
    var dictionary := BuildDictionary(words);
    NotLetters();
    if key[0] !in dictionary then Failure(MissingBucket(key[0]))
    else
      var candidates := FilterForPattern(key, dictionary[key[0]], |key|);
      SuggestedSound(key, words, candidates);
      SuggestedComplete(key, words, candidates);
      CandidatesAreSuggestions(key, words);
      var r := DecryptAll(text, candidates, positions);
      DecryptedEach(text, candidates, positions, r);
      r
  }

  /** Each decryption of the wildcard branch comes from one filtered word. */
  lemma DecryptedEach(text: string, candidates: seq<string>, positions: seq<nat>, r: Result<seq<KeyEntry>>)
    requires OverAlphabet(text) && r == DecryptAll(text, candidates, positions)
    ensures r.Success? ==> forall i | 0 <= i < |r.value| ::
      r.value[i].value in candidates && KeyUsable(text, r.value[i].value) &&
      r.value[i].plaintext == InsertChar(Decipher(text, r.value[i].value), ' ', positions)
    ensures r.Success? ==> forall w | w in candidates :: w in KeysOf(r.value)
    ensures r.Success? ==> KeysOf(r.value) == candidates
    ensures r.Failure? ==> r.error.InvalidKey? && r.error.key in candidates && !KeyUsable(text, r.error.key)
    ensures r.Success? <==> forall w | w in candidates :: KeyUsable(text, w)
  {
    DecryptAllEntries(text, candidates, positions);
    assert (forall w | w in candidates :: KeyUsable(text, w)) <==>
      forall i | 0 <= i < |candidates| :: KeyUsable(text, candidates[i]);
    if r.Success? {
      assert KeysOf(r.value) == candidates;
      forall w | w in candidates
        ensures w in KeysOf(r.value)
      {
        var i :| 0 <= i < |candidates| && candidates[i] == w;
        assert KeysOf(r.value)[i] == w;
      }
    }
  }

  /** `decrypt(encrypt_text, key, spaces_positions)` against the dictionary
      built from `words`. A key with a wildcard is a mask: the suggested
      dictionary words are tried in turn. Any other key is used as it is. */
  function Decrypt(cipherText: string, key: string, spaces: seq<nat>, words: seq<string>): (r: Result<seq<KeyEntry>>)
    ensures WILDCARD !in key ==> (r.Success? <==> KeyUsable(Prepare(cipherText), key))
    ensures WILDCARD !in key && r.Failure? ==> r.error == InvalidKey(key)
    ensures WILDCARD !in key && r.Success? ==>
      |r.value| == 1 && r.value[0].value == key &&
      r.value[0].plaintext == InsertChar(Decipher(Prepare(cipherText), key), ' ', Layout(cipherText, spaces))
    ensures WILDCARD in key ==>
      (r == Failure(MissingBucket(key[0])) <==> key[0] != WILDCARD && (!IsLetter(key[0]) || words == []))
    ensures WILDCARD in key && r.Success? ==> forall i | 0 <= i < |r.value| ::
      && r.value[i].value in words
      && |r.value[i].value| == |key|
      && Match(key, r.value[i].value)
      && KeyUsable(Prepare(cipherText), r.value[i].value)
      && r.value[i].plaintext ==
        InsertChar(Decipher(Prepare(cipherText), r.value[i].value), ' ', Layout(cipherText, spaces))
    ensures WILDCARD in key && r.Success? ==>
      forall i | 0 <= i < |words| && Suggested(key, words, i) :: words[i] in KeysOf(r.value)
    ensures WILDCARD in key && r.Success? ==> KeysOf(r.value) == Suggestions(key, words, |words|)
    ensures WILDCARD in key && r.Failure? && r.error.InvalidKey? ==>
      r.error.key in words && |r.error.key| == |key| && Match(key, r.error.key) &&
      !KeyUsable(Prepare(cipherText), r.error.key)
    ensures WILDCARD in key && r.Failure? && r.error.InvalidKey? ==>
      r.error.key in Suggestions(key, words, |words|)
    ensures WILDCARD in key && r.Failure? ==> r.error == MissingBucket(key[0]) || r.error.InvalidKey?
    ensures WILDCARD in key ==>
      (r.Success? <==> HasBucket(key, words) && SuggestionsUsable(Prepare(cipherText), key, words))
  {
    var positions := Layout(cipherText, spaces);
    var text := Prepare(cipherText);
    if WILDCARD in key then DecryptMask(text, key, positions, words)
    else if !KeyUsable(text, key) then Failure(InvalidKey(key))
    else Success([KeyEntry(key, InsertChar(Decipher(text, key), ' ', positions))])
  }

  /** The words the wildcard branch filters come from the dictionary. */
  lemma SuggestedSound(key: string, words: seq<string>, candidates: seq<string>)
    requires |key| > 0 && key[0] in BuildDictionary(words)
    requires candidates == FilterForPattern(key, BuildDictionary(words)[key[0]], |key|)
    ensures forall w | w in candidates :: w in words && |w| == |key| && Match(key, w)
  {
    var bucket := BuildDictionary(words)[key[0]];
    forall w | w in candidates
      ensures w in words && |w| == |key| && Match(key, w)
    {
      var i :| 0 <= i < |candidates| && candidates[i] == w;
      assert w in bucket;
      if key[0] != WILDCARD {
        BucketWord(words, key[0], w);
      }
    }
  }

  lemma BucketWord(words: seq<string>, c: char, w: string)
    requires |words| > 0 && w in Bucket(words, c)
    ensures w in words
  {
    var i :| 0 <= i < |Bucket(words, c)| && Bucket(words, c)[i] == w;
    var j :| 0 <= j < |words[1..]| && words[1..][j] == w;
    assert words[j + 1] == w;
  }

  /** Every suggested word survives the filter. */
  lemma SuggestedComplete(key: string, words: seq<string>, candidates: seq<string>)
    requires |key| > 0 && key[0] in BuildDictionary(words)
    requires candidates == FilterForPattern(key, BuildDictionary(words)[key[0]], |key|)
    ensures forall i | 0 <= i < |words| && Suggested(key, words, i) :: words[i] in candidates
  {
    var bucket := BuildDictionary(words)[key[0]];
    forall i | 0 <= i < |words| && Suggested(key, words, i)
      ensures words[i] in candidates
    {
      assert words[i] in bucket;
    }
  }

  /** `decrypt` undoes `encrypt`: a text of lower-case letters and spaces,
      encrypted with a usable key that holds no wildcard, decrypts with the
      same key to the text itself, spaces included. */
  lemma EncryptDecrypt(text: string, key: string, words: seq<string>)
    requires LettersAndSpaces(text) && KeyUsable(Prepare(text), key) && WILDCARD !in key
    ensures Encrypt(text, key).Success?
    ensures Decrypt(Encrypt(text, key).value, key, [], words) == Success([KeyEntry(key, text)])
  {
    var p := Prepare(text);
    LayoutRestores(text);
    var c := Encipher(p, key);
    InsertSpacesLayout(text, c);
    var e := WithSpacesOf(text, c);
    assert Encrypt(text, key) == Success(e);
    LayoutKeeps(text, c);
    RoundTrip(p, key);
    assert Layout(e, []) == SpacePositions(text);
    InsertSpacesLayout(text, p);
  }

  /** Explicit space positions override those of the ciphertext: a
      normalised ciphertext decrypts to the text laid out with the given
      spaces. */
  lemma DecryptWithSpaces(text: string, key: string, words: seq<string>)
    requires LettersAndSpaces(text) && KeyUsable(Prepare(text), key) && WILDCARD !in key
    ensures Decrypt(Encipher(Prepare(text), key), key, SpacePositions(text), words)
      == Success([KeyEntry(key, text)])
  {
    var p := Prepare(text);
    LayoutRestores(text);
    var c := Encipher(p, key);
    NoSpaces(c);
    PrepareKeepsLetters(c);
    RoundTrip(p, key);
    InsertSpacesLayout(text, p);
  }

  /** A normalised text has no spaces to record. */
  lemma NoSpaces(s: string)
    requires OverAlphabet(s)
    ensures SpacePositions(s) == []
  {
    forall i: nat ensures !MatchAt(s, " ", i) {
      if i + 1 <= |s| {
        assert s[i..i + 1][0] == s[i];
      }
    }
    OccurrencesFind(s, " ", 0);
  }

  /** The gramm statistics the key length is chosen from: repeated bigrams
      and trigrams of the normalised text, with their spacings. */
  function Statistics(text: string, grammMin: int): seq<Counted<Spaced>> {
    GrammsWithDistances(text, Gramms(text, 2, grammMin) + Gramms(text, 3, grammMin))
  }

  /** The roundings count of every key length tried. */
  function LengthScores(gramms: seq<Counted<Spaced>>): (m: map<nat, nat>)
    ensures forall l :: l in m <==> KEY_MIN_LENGTH <= l <= KEY_MAX_LENGTH
    ensures forall l | l in m :: m[l] == Score(gramms, l)
  {
    map l: nat | KEY_MIN_LENGTH <= l <= KEY_MAX_LENGTH :: Score(gramms, l)
  }

  /** The key length `vigenering` works with, and the scores behind it. */
  datatype LengthChoice = LengthChoice(scores: map<nat, nat>, length: nat)

  /** A given (non-zero) length is kept as it is; otherwise every length
      from KEY_MIN_LENGTH to KEY_MAX_LENGTH is scored by its roundings count
      and the one with the fewest roundings wins, the longest on a tie. */
  function ChooseLength(text: string, grammMin: int, keyLength: nat): (c: LengthChoice)
    ensures keyLength > 0 ==> c.length == keyLength && c.scores == map[]
    ensures keyLength == 0 ==>
      && KEY_MIN_LENGTH <= c.length <= KEY_MAX_LENGTH
      && (forall l :: l in c.scores <==> KEY_MIN_LENGTH <= l <= KEY_MAX_LENGTH)
      && (forall l | l in c.scores :: c.scores[c.length] <= c.scores[l])
      && (forall l | l in c.scores && l > c.length :: c.scores[c.length] < c.scores[l])
    ensures keyLength == 0 ==> forall l | l in c.scores :: c.scores[l] == Score(Statistics(text, grammMin), l)
  {
    if keyLength > 0 then LengthChoice(map[], keyLength) else BestLength(Statistics(text, grammMin))
  }

  /** The automatic choice from the gramm statistics (core.py:140-160). */
  function BestLength(gramms: seq<Counted<Spaced>>): (c: LengthChoice)
    ensures KEY_MIN_LENGTH <= c.length <= KEY_MAX_LENGTH
    ensures forall l :: l in c.scores <==> KEY_MIN_LENGTH <= l <= KEY_MAX_LENGTH
    ensures forall l | l in c.scores :: c.scores[l] == Score(gramms, l)
    ensures forall l | l in c.scores :: c.scores[c.length] <= c.scores[l]
    ensures forall l | l in c.scores && l > c.length :: c.scores[c.length] < c.scores[l]
  {
    LengthChoice(LengthScores(gramms), SelectKeyLength(gramms))
  }

  /** What `decrypt` makes of a key mask on the normalised text with the
      original text's space positions. */
  lemma MaskOutcome(cipherText: string, mask: string, words: seq<string>)
    requires |mask| > 0 && forall p | 0 <= p < |mask| :: mask[p] == WILDCARD || IsLetter(mask[p])
    ensures var r := Decrypt(Prepare(cipherText), mask, SpacePositions(cipherText), words);
      && (WILDCARD !in mask ==>
            && KeyUsable(Prepare(cipherText), mask)
            && r == Success([KeyEntry(mask,
                 InsertChar(Decipher(Prepare(cipherText), mask), ' ', SpacePositions(cipherText)))]))
      && (WILDCARD in mask && r.Success? ==> forall i | 0 <= i < |r.value| ::
            && r.value[i].value in words && |r.value[i].value| == |mask| && Match(mask, r.value[i].value)
            && KeyUsable(Prepare(cipherText), r.value[i].value)
            && r.value[i].plaintext ==
              InsertChar(Decipher(Prepare(cipherText), r.value[i].value), ' ', SpacePositions(cipherText)))
      && (WILDCARD in mask && r.Success? ==> KeysOf(r.value) == Suggestions(mask, words, |words|))
      && (WILDCARD in mask ==>
            (r.Success? <==> HasBucket(mask, words) && SuggestionsUsable(Prepare(cipherText), mask, words)))
      && (r.Failure? ==> r.error == MissingBucket(mask[0]) || r.error.InvalidKey?)
      && (r.Failure? ==>
            || (r.error.MissingBucket? && IsLetter(r.error.symbol) && words == [])
            || (r.error.InvalidKey? && r.error.key in words))
  {
    var text := Prepare(cipherText);
    var spaces := SpacePositions(cipherText);
    PrepareIdempotent(cipherText);
    NoSpaces(text);
    assert Layout(text, spaces) == spaces;
    var r := Decrypt(text, mask, spaces, words);
    if WILDCARD !in mask {
      assert KeyUsable(text, mask);
    } else if r.Failure? && r.error.MissingBucket? {
      assert r == Failure(MissingBucket(mask[0]));
    }
  }

  /** `vigenering(encrypt_text, gramm_repeats_min_count,
      symbol_repeats_min_count, key_length)`: a `keyLength` of 0 asks for
      the length to be found by Kasiski's test; the key mask is then read
      off the column frequencies and handed to `decrypt` with the
      ciphertext's space positions. */
  function Vigenering(cipherText: string, grammMin: int, symbolMin: int, keyLength: nat, words: seq<string>)
    : (r: Result<Solution>)
    ensures var text := Prepare(cipherText);
      var choice := ChooseLength(text, grammMin, keyLength);
      r.Success? ==>
        r.value == Solution(choice.scores, choice.length, KeyMask(text, choice.length, symbolMin), r.value.keys, true)
    ensures r.Success? ==> |r.value.keyMask| == r.value.keyLength
    ensures r.Success? && keyLength > 0 ==> r.value.keyLength == keyLength && r.value.keyLengths == map[]
    ensures r.Success? && keyLength == 0 ==>
      && KEY_MIN_LENGTH <= r.value.keyLength <= KEY_MAX_LENGTH
      && (forall l :: l in r.value.keyLengths <==> KEY_MIN_LENGTH <= l <= KEY_MAX_LENGTH)
      && (forall l | l in r.value.keyLengths :: r.value.keyLengths[r.value.keyLength] <= r.value.keyLengths[l])
      && (forall l | l in r.value.keyLengths && l > r.value.keyLength ::
            r.value.keyLengths[r.value.keyLength] < r.value.keyLengths[l])
    ensures r.Success? && keyLength == 0 ==> forall l | l in r.value.keyLengths ::
      r.value.keyLengths[l] == Score(Statistics(Prepare(cipherText), grammMin), l)
    ensures r.Success? ==> forall p | 0 <= p < |r.value.keyMask| ::
      r.value.keyMask[p] == WILDCARD || IsLetter(r.value.keyMask[p])
    ensures r.Failure? ==>
      || (r.error.MissingBucket? && IsLetter(r.error.symbol) && words == [])
      || (r.error.InvalidKey? && r.error.key in words)
  {
    var text := Prepare(cipherText);
    var choice := ChooseLength(text, grammMin, keyLength);
    var mask := KeyMask(text, choice.length, symbolMin);
    Solve(cipherText, choice, mask, words)
  }

  /** What the analysis yields with the key mask it reads off the text: a
      mask without wildcards always decrypts the text; a mask with
      wildcards succeeds exactly when its bucket exists and every suggested
      word is usable, and then yields exactly the suggested words, each with
      its decryption; a failure names the mask's bucket or an unusable word. */
  lemma VigeneringOutcome(cipherText: string, grammMin: int, symbolMin: int, keyLength: nat, words: seq<string>)
    ensures var r := Vigenering(cipherText, grammMin, symbolMin, keyLength, words);
      var text := Prepare(cipherText);
      var mask := KeyMask(text, ChooseLength(text, grammMin, keyLength).length, symbolMin);
      && (WILDCARD !in mask ==>
            && r.Success?
            && KeyUsable(text, mask)
            && r.value.keys == [KeyEntry(mask, InsertChar(Decipher(text, mask), ' ', SpacePositions(cipherText)))])
      && (WILDCARD in mask ==> (r.Success? <==> HasBucket(mask, words) && SuggestionsUsable(text, mask, words)))
      && (WILDCARD in mask && r.Success? ==> KeysOf(r.value.keys) == Suggestions(mask, words, |words|))
      && (WILDCARD in mask && r.Success? ==> forall i | 0 <= i < |r.value.keys| ::
            && r.value.keys[i].value in words
            && |r.value.keys[i].value| == |mask|
            && Match(mask, r.value.keys[i].value)
            && KeyUsable(text, r.value.keys[i].value)
            && r.value.keys[i].plaintext ==
              InsertChar(Decipher(text, r.value.keys[i].value), ' ', SpacePositions(cipherText)))
      && (r.Failure? ==> r.error == MissingBucket(mask[0]) || r.error.InvalidKey?)
  {
  }

  /** The last step of `vigenering`: decrypt with the key mask and record
      the solution. */
  function Solve(cipherText: string, choice: LengthChoice, mask: string, words: seq<string>)
    : (r: Result<Solution>)
    requires |mask| == choice.length > 0
    requires forall p | 0 <= p < |mask| :: mask[p] == WILDCARD || IsLetter(mask[p])
    ensures r.Success? ==> r.value == Solution(choice.scores, choice.length, mask, r.value.keys, true)
    ensures r.Success? && WILDCARD !in mask ==>
      && KeyUsable(Prepare(cipherText), mask)
      && r.value.keys == [KeyEntry(mask,
           InsertChar(Decipher(Prepare(cipherText), mask), ' ', SpacePositions(cipherText)))]
    ensures r.Success? && WILDCARD in mask ==> forall i | 0 <= i < |r.value.keys| ::
      && r.value.keys[i].value in words
      && |r.value.keys[i].value| == |mask|
      && Match(mask, r.value.keys[i].value)
      && KeyUsable(Prepare(cipherText), r.value.keys[i].value)
      && r.value.keys[i].plaintext ==
        InsertChar(Decipher(Prepare(cipherText), r.value.keys[i].value), ' ', SpacePositions(cipherText))
    ensures r.Success? && WILDCARD in mask ==> KeysOf(r.value.keys) == Suggestions(mask, words, |words|)
    ensures WILDCARD !in mask ==> r.Success?
    ensures WILDCARD in mask ==>
      (r.Success? <==> HasBucket(mask, words) && SuggestionsUsable(Prepare(cipherText), mask, words))
    ensures r.Failure? ==> r.error == MissingBucket(mask[0]) || r.error.InvalidKey?
    ensures r.Failure? ==>
      || (r.error.MissingBucket? && IsLetter(r.error.symbol) && words == [])
      || (r.error.InvalidKey? && r.error.key in words)
  {
    MaskOutcome(cipherText, mask, words);
    match Decrypt(Prepare(cipherText), mask, SpacePositions(cipherText), words)
    case Failure(e) => Failure(e)
    case Success(keys) => Success(Solution(choice.scores, choice.length, mask, keys, true))
  }

  /** When the analysis recovers the key of an `encrypt`ed text (a mask
      without wildcards equal to the key), the solution holds exactly the
      original text, spaces restored. */
  lemma VigeneringRecovers(text: string, key: string, grammMin: int, symbolMin: int, keyLength: nat,
                           words: seq<string>)
    requires LettersAndSpaces(text) && KeyUsable(Prepare(text), key) && WILDCARD !in key
    requires Vigenering(Encrypt(text, key).value, grammMin, symbolMin, keyLength, words).Success?
    requires Vigenering(Encrypt(text, key).value, grammMin, symbolMin, keyLength, words).value.keyMask == key
    ensures Vigenering(Encrypt(text, key).value, grammMin, symbolMin, keyLength, words).value.keys
      == [KeyEntry(key, text)]
  {
    var p := Prepare(text);
    LayoutRestores(text);
    var c := Encipher(p, key);
    InsertSpacesLayout(text, c);
    var e := WithSpacesOf(text, c);
    assert Encrypt(text, key).value == e;
    LayoutKeeps(text, c);
    RoundTrip(p, key);
    InsertSpacesLayout(text, p);
  }
}
