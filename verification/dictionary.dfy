/** The word dictionary and the wildcard word filter: `_get_dictionary`
    (core.py:219-237, without reading the file) and `_filter_for_regexp`
    (core.py:431-438), and the words `decrypt` draws from them for a key
    mask (core.py:62-64). */
module Dictionary {
  import opened Seqs
  import opened Alphabet

  /** One position of the zip agrees: either side is the wildcard, or the
      characters are equal. */
  predicate Agree(a: char, b: char) {
    a == WILDCARD || b == WILDCARD || a == b
  }

  /** `_match`: walk both strings in step (`zip` stops at the shorter one)
      and fail at the first position that disagrees. */
  function Match(a: string, b: string): (r: bool)
    ensures r <==> forall k | 0 <= k < |a| && k < |b| :: Agree(a[k], b[k])
  {
    if a == [] || b == [] then true
    else if !Agree(a[0], b[0]) then false
    else
      var r := Match(a[1..], b[1..]);
      assert forall k | 1 <= k < |a| && k < |b| :: a[k] == a[1..][k - 1] && b[k] == b[1..][k - 1];
      r
  }

  /** The test a word passes in `_filter_for_regexp`: it matches the
      pattern and, when a length is given (non-zero), has that length. */
  function Accepts(pattern: string, wordLength: nat): string -> bool {
    (word: string) => Match(pattern, word) && (wordLength == 0 || |word| == wordLength)
  }

  /** `_filter_for_regexp(pattern, words, word_length)`: the accepted words,
      in their original order. */
  function FilterForPattern(pattern: string, words: seq<string>, wordLength: nat): (r: seq<string>)
    ensures forall i | 0 <= i < |r| ::
      r[i] in words && Match(pattern, r[i]) && (wordLength == 0 || |r[i]| == wordLength)
    ensures forall i | 0 <= i < |words| && Match(pattern, words[i]) &&
      (wordLength == 0 || |words[i]| == wordLength) :: words[i] in r
  {
    var keep := Accepts(pattern, wordLength);
    var r := Filter(words, keep);
    assert forall i | 0 <= i < |r| :: keep(r[i]);
    assert forall i | 0 <= i < |words| ::
      keep(words[i]) == (Match(pattern, words[i]) && (wordLength == 0 || |words[i]| == wordLength));
    r
  }

  /** The filter tests the words one by one: the list can be split anywhere,
      and a single word is kept exactly when it is accepted, so the kept words
      keep their original order and multiplicity. */
  lemma FilterForPatternAppend(pattern: string, a: seq<string>, b: seq<string>, w: string, wordLength: nat)
    ensures FilterForPattern(pattern, a + b, wordLength)
         == FilterForPattern(pattern, a, wordLength) + FilterForPattern(pattern, b, wordLength)
    ensures FilterForPattern(pattern, [w], wordLength)
         == if Match(pattern, w) && (wordLength == 0 || |w| == wordLength) then [w] else []
  {
    FilterAppend(a, b, Accepts(pattern, wordLength));
    FilterSingle(w, Accepts(pattern, wordLength));
  }

  /** With the pattern's own length, the filter keeps exactly the words as
      long as the pattern that agree with it letter by letter wherever
      neither side is the wildcard. */
  lemma FilterForPatternExact(pattern: string, words: seq<string>, w: string)
    requires |pattern| > 0 && w in words
    ensures w in FilterForPattern(pattern, words, |pattern|) <==>
      |w| == |pattern| && forall k | 0 <= k < |w| :: Agree(pattern[k], w[k])
  {
    var r := FilterForPattern(pattern, words, |pattern|);
    var i :| 0 <= i < |words| && words[i] == w;
    if w in r {
      var j :| 0 <= j < |r| && r[j] == w;
    }
  }

  /** `word.startswith(c)`. */
  function StartsWith(c: char): string -> bool {
    (word: string) => |word| > 0 && word[0] == c
  }

  /** The bucket of a letter. The loop at core.py:227-233 spends the first
      word on creating the bucket without testing it, so `words[0]` never
      enters a letter's bucket. */
  function Bucket(words: seq<string>, c: char): (r: seq<string>)
    requires |words| > 0
    ensures forall i | 0 <= i < |r| :: r[i] in words[1..] && |r[i]| > 0 && r[i][0] == c
    ensures forall i | 1 <= i < |words| && |words[i]| > 0 && words[i][0] == c :: words[i] in r
  {
    var r := Filter(words[1..], StartsWith(c));
    assert forall i | 0 <= i < |r| :: StartsWith(c)(r[i]);
    assert forall i | 1 <= i < |words| :: words[i] == words[1..][i - 1];
    r
  }

  /** `_get_dictionary` on the file's lines: a bucket per letter (none when
      there are no words) and the whole list under the wildcard. */
  function BuildDictionary(words: seq<string>): (d: map<char, seq<string>>)
    ensures WILDCARD in d && d[WILDCARD] == words
    ensures forall c :: c in d <==> c == WILDCARD || (IsLetter(c) && |words| > 0)
    ensures forall c | c in d && c != WILDCARD :: |words| > 0 && d[c] == Bucket(words, c)
  {
    AlphabetAgrees();
    NotLetters();
    if words == [] then map[WILDCARD := words]
    else (map c | c in ALPHABET :: Bucket(words, c))[WILDCARD := words]
  }

  /** The first word is missing from its letter's bucket: with the single
      word "аб", the bucket of 'а' is empty. */
  lemma FirstWordUnbucketed()
    ensures 'а' in BuildDictionary(["аб"])
    ensures BuildDictionary(["аб"])['а'] == []
  {
    assert IsLetter('а');
    assert ["аб"][1..] == [];
  }

  /** A dictionary word `decrypt` tries for a key mask with wildcards: it
      is as long as the mask, matches it, and sits in the bucket of the
      mask's first symbol (the whole list for the wildcard; for a letter,
      the words after the first that start with it). */
  predicate Suggested(key: string, words: seq<string>, i: nat)
    requires |key| > 0 && i < |words|
  {
    && |words[i]| == |key|
    && Match(key, words[i])
    && (key[0] == WILDCARD || (1 <= i && words[i][0] == key[0]))
  }

  /** The words suggested among the first `n` dictionary words, in
      dictionary order, each as often as it is listed. */
  function Suggestions(key: string, words: seq<string>, n: nat): seq<string>
    requires |key| > 0 && n <= |words|
  {
    if n == 0 then []
    else Suggestions(key, words, n - 1) + (if Suggested(key, words, n - 1) then [words[n - 1]] else [])
  }

  /** A word is among the suggestions exactly when some listed copy of it is
      suggested. */
  lemma {:induction false} SuggestionsMember(key: string, words: seq<string>, n: nat, w: string)
    requires |key| > 0 && n <= |words|
    ensures w in Suggestions(key, words, n) <==>
      exists j | 0 <= j < n :: Suggested(key, words, j) && words[j] == w
  {
    if n > 0 {
      var prev := Suggestions(key, words, n - 1);
      var last := if Suggested(key, words, n - 1) then [words[n - 1]] else [];
      assert Suggestions(key, words, n) == prev + last;
      SuggestionsMember(key, words, n - 1, w);
      if w in last {
        assert Suggested(key, words, n - 1) && words[n - 1] == w;
      }
      if exists j | 0 <= j < n :: Suggested(key, words, j) && words[j] == w {
        var j :| 0 <= j < n && Suggested(key, words, j) && words[j] == w;
        if j == n - 1 {
          assert w in last;
        }
      }
    }
  }

  /** With the wildcard first, the filter over the whole word list yields
      the suggestions. */
  lemma {:induction false} WildcardSuggestions(key: string, words: seq<string>, n: nat)
    requires |key| > 0 && key[0] == WILDCARD && n <= |words|
    ensures FilterForPattern(key, words[..n], |key|) == Suggestions(key, words, n)
  {
    if n == 0 {
      assert words[..n] == [];
      FilterForPatternAppend(key, [], [], key, |key|);
    } else {
      WildcardStep(key, words, n);
      WildcardSuggestions(key, words, n - 1);
    }
  }

  /** Extending the word list by one word extends the filtered list by that
      word exactly when the wildcard mask suggests it. */
  lemma WildcardStep(key: string, words: seq<string>, n: nat)
    requires |key| > 0 && key[0] == WILDCARD && 1 <= n <= |words|
    ensures FilterForPattern(key, words[..n], |key|)
         == FilterForPattern(key, words[..n - 1], |key|)
          + (if Suggested(key, words, n - 1) then [words[n - 1]] else [])
  {
    var w := words[n - 1];
    assert words[..n] == words[..n - 1] + [w];
    FilterForPatternAppend(key, words[..n - 1], [w], w, |key|);
  }

  /** With a letter first, the filter over the letter's bucket yields the
      suggestions: the bucket skips the first word and keeps the words
      starting with the letter. */
  lemma {:induction false} LetterSuggestions(key: string, words: seq<string>, n: nat)
    requires |key| > 0 && key[0] != WILDCARD && 1 <= n <= |words|
    ensures FilterForPattern(key, Filter(words[1..n], StartsWith(key[0])), |key|) == Suggestions(key, words, n)
  {
    if n == 1 {
      assert words[1..n] == [];
      assert !Suggested(key, words, 0);
      FilterForPatternAppend(key, [], [], words[0], |key|);
    } else {
      LetterStep(key, words, n);
      LetterSuggestions(key, words, n - 1);
    }
  }

  /** Extending the word list by one word extends the letter's filtered
      bucket by that word exactly when the mask suggests it. */
  lemma LetterStep(key: string, words: seq<string>, n: nat)
    requires |key| > 0 && key[0] != WILDCARD && 2 <= n <= |words|
    ensures FilterForPattern(key, Filter(words[1..n], StartsWith(key[0])), |key|)
         == FilterForPattern(key, Filter(words[1..n - 1], StartsWith(key[0])), |key|)
          + (if Suggested(key, words, n - 1) then [words[n - 1]] else [])
  {
    var starts := StartsWith(key[0]);
    var w := words[n - 1];
    var before := Filter(words[1..n - 1], starts);
    FilterSliceSnoc(words, 1, n, starts);
    FilterForPatternAppend(key, before, Filter([w], starts), w, |key|);
    LetterLast(key, words, n - 1);
  }

  /** A word after the first passes the bucket and the filter exactly when
      the mask suggests it. */
  lemma LetterLast(key: string, words: seq<string>, i: nat)
    requires |key| > 0 && key[0] != WILDCARD && 1 <= i < |words|
    ensures FilterForPattern(key, Filter([words[i]], StartsWith(key[0])), |key|)
         == if Suggested(key, words, i) then [words[i]] else []
  {
    var w := words[i];
    FilterSingle(w, StartsWith(key[0]));
    FilterForPatternAppend(key, [], [], w, |key|);
  }

  /** The words the wildcard branch filters out of the dictionary are
      exactly the suggestions, in dictionary order. */
  lemma CandidatesAreSuggestions(key: string, words: seq<string>)
    requires |key| > 0 && key[0] in BuildDictionary(words)
    ensures FilterForPattern(key, BuildDictionary(words)[key[0]], |key|) == Suggestions(key, words, |words|)
  {
    if key[0] == WILDCARD {
      assert words[..|words|] == words;
      WildcardSuggestions(key, words, |words|);
    } else {
      assert words[1..|words|] == words[1..];
      LetterSuggestions(key, words, |words|);
    }
  }

  /** The dictionary has a bucket for the mask's first symbol: the
      wildcard always has one, a letter has one when there are words. */
  predicate HasBucket(key: string, words: seq<string>)
    requires |key| > 0
  {
    key[0] == WILDCARD || (IsLetter(key[0]) && words != [])
  }
}
