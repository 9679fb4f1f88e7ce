/** Column frequency analysis and key-symbol resolution: `_get_items_repeats`
    and `_get_most_repeatable_items` (core.py:374-391), the key-symbol
    candidates of a ciphertext letter (core.py:396-424), `_get_maxes_count`
    (core.py:427-429) and the loop that builds the key mask
    (core.py:169-203). */
module Frequency {
  import opened Seqs
  import opened Alphabet
  import opened Text
  import opened Kasiski

  /** `_get_items_repeats`: every distinct item once, with `sequence.count`,
      ordered by descending count with ties in order of first appearance. */
  function ItemsRepeats<T(==)>(xs: seq<T>): (r: seq<Counted<T>>)
    ensures NonIncreasing(r)
    ensures Distinct(Items(r))
    ensures forall i | 0 <= i < |r| :: r[i].item in xs && r[i].count == multiset(xs)[r[i].item]
    ensures forall k | 0 <= k < |xs| :: xs[k] in Items(r)
    ensures Sum(Counts(r)) == |xs|
  {
    var tally := Tally(FirstSeen(xs), CountIn(xs));
    // Keeping every entry, the ranking is the sorted tally ...
    FilterAll(tally, KeepAll());
    // ... whose counts add up to the length of the sequence.
    TallyAll(xs);
    Ranked(xs, CountIn(xs), KeepAll())
  }

  /** `_get_most_repeatable_items`: the entries counted at least the
      threshold (`None` or 0 selects SYMBOL_REPEATS_MIN_COUNT), in order. */
  function MostRepeatable<T>(items: seq<Counted<T>>, minCount: int): (r: seq<Counted<T>>)
    ensures forall i | 0 <= i < |r| :: r[i] in items && r[i].count >= Threshold(minCount, SYMBOL_REPEATS_MIN_COUNT)
    ensures forall i | 0 <= i < |items| && items[i].count >= Threshold(minCount, SYMBOL_REPEATS_MIN_COUNT) ::
      items[i] in r
  {
    var th := Threshold(minCount, SYMBOL_REPEATS_MIN_COUNT);
    var r := Filter(items, AtLeast(th));
    assert forall i | 0 <= i < |items| :: AtLeast(th)(items[i]) == (items[i].count >= th);
    r
  }

  /** The threshold is applied entry by entry: the list can be split
      anywhere, and a single entry is kept exactly when its count reaches the
      threshold, so the kept entries stay in their original order. */
  lemma MostRepeatableAppend<T>(a: seq<Counted<T>>, b: seq<Counted<T>>, e: Counted<T>, minCount: int)
    ensures MostRepeatable(a + b, minCount) == MostRepeatable(a, minCount) + MostRepeatable(b, minCount)
    ensures MostRepeatable([e], minCount)
      == if e.count >= Threshold(minCount, SYMBOL_REPEATS_MIN_COUNT) then [e] else []
  {
    var keep := AtLeast<T>(Threshold(minCount, SYMBOL_REPEATS_MIN_COUNT));
    FilterAppend(a, b, keep);
    FilterSingle(e, keep);
  }

  /** Raising the threshold keeps a sub-list: what a higher threshold keeps
      is what it keeps of a lower threshold's result. */
  lemma MostRepeatableMonotone<T>(items: seq<Counted<T>>, low: int, high: int)
    requires Threshold(low, SYMBOL_REPEATS_MIN_COUNT) <= Threshold(high, SYMBOL_REPEATS_MIN_COUNT)
    ensures MostRepeatable(items, high)
      == Filter(MostRepeatable(items, low), AtLeast(Threshold(high, SYMBOL_REPEATS_MIN_COUNT)))
  {
    var lo := AtLeast<T>(Threshold(low, SYMBOL_REPEATS_MIN_COUNT));
    var hi := AtLeast<T>(Threshold(high, SYMBOL_REPEATS_MIN_COUNT));
    forall e: Counted<T> | hi(e)
      ensures lo(e)
    {
    }
    FilterFilter(items, lo, hi);
  }

  /** The key symbols that would turn each common plaintext letter into the
      ciphertext letter `e` (`_get_key_symbols_with_print` without its
      trace). */
  function KeySymbols(e: char): (r: string)
    requires IsLetter(e)
    ensures |r| == |COMMON_SYMBOLS|
    ensures forall i | 0 <= i < |r| :: IsLetter(r[i]) && Add(COMMON_SYMBOLS[i], r[i]) == e
  {
    CommonSymbolsAreLetters();
    var r := seq(|COMMON_SYMBOLS|, i requires 0 <= i < |COMMON_SYMBOLS| => Sub(e, COMMON_SYMBOLS[i]));
    assert forall i | 0 <= i < |r| :: Add(COMMON_SYMBOLS[i], r[i]) == e by {
      forall i | 0 <= i < |r|
        ensures Add(COMMON_SYMBOLS[i], r[i]) == e
      {
        AddSub(e, COMMON_SYMBOLS[i]);
      }
    }
    r
  }

  /** Conversely, any letter that turns common letter `i` into `e` is the
      `i`-th key symbol of `e`. */
  lemma KeySymbolsComplete(e: char, i: nat, c: char)
    requires IsLetter(e) && IsLetter(c) && i < |COMMON_SYMBOLS|
    requires IsLetter(COMMON_SYMBOLS[i]) && Add(COMMON_SYMBOLS[i], c) == e
    ensures KeySymbols(e)[i] == c
  {
    AddSolved(COMMON_SYMBOLS[i], c);
  }

  /** Every item is a letter. */
  predicate LetterItems(xs: seq<Counted<char>>) {
    forall i | 0 <= i < |xs| :: IsLetter(xs[i].item)
  }

  /** The candidates of a column: the key symbols of each frequent letter,
      one block of |COMMON_SYMBOLS| per letter, in order. */
  function Candidates(symbols: seq<Counted<char>>): (r: string)
    requires LetterItems(symbols)
    ensures |r| == |COMMON_SYMBOLS| * |symbols|
    ensures OverAlphabet(r)
  {
    if symbols == [] then []
    else
      var last := symbols[|symbols| - 1];
      Candidates(symbols[..|symbols| - 1]) + KeySymbols(last.item)
  }

  /** Block `k` of the candidates holds the key symbols of frequent letter
      `k`: candidate `4k + t` turns common letter `t` into `symbols[k]`. */
  lemma {:induction false} CandidatesAt(symbols: seq<Counted<char>>, k: nat, t: nat)
    requires LetterItems(symbols) && k < |symbols| && t < |COMMON_SYMBOLS|
    ensures |COMMON_SYMBOLS| * k + t < |Candidates(symbols)|
    ensures Candidates(symbols)[|COMMON_SYMBOLS| * k + t] == KeySymbols(symbols[k].item)[t]
  {
    var w := |COMMON_SYMBOLS|;
    assert w == 4;
    var pre := symbols[..|symbols| - 1];
    if k < |pre| {
      assert pre[k] == symbols[k];
      CandidatesAt(pre, k, t);
    } else {
      assert |Candidates(pre)| == w * k;
    }
  }

  /** Every candidate explains a frequent letter: it shifts some common
      letter onto it. */
  lemma {:induction false} CandidatesExplained(symbols: seq<Counted<char>>, j: nat)
    requires LetterItems(symbols) && j < |Candidates(symbols)|
    ensures exists k, i | 0 <= k < |symbols| && 0 <= i < |COMMON_SYMBOLS| ::
      IsLetter(COMMON_SYMBOLS[i]) && Add(COMMON_SYMBOLS[i], Candidates(symbols)[j]) == symbols[k].item
  {
    CommonSymbolsAreLetters();
    var pre := symbols[..|symbols| - 1];
    var last := symbols[|symbols| - 1];
    var c := Candidates(symbols);
    if j < |Candidates(pre)| {
      CandidatesExplained(pre, j);
      var k, i :| 0 <= k < |pre| && 0 <= i < |COMMON_SYMBOLS|
        && IsLetter(COMMON_SYMBOLS[i]) && Add(COMMON_SYMBOLS[i], Candidates(pre)[j]) == pre[k].item;
      assert c[j] == Candidates(pre)[j] && pre[k] == symbols[k];
    } else {
      var i := j - |Candidates(pre)|;
      assert c[j] == KeySymbols(last.item)[i];
      assert symbols[|symbols| - 1] == last;
    }
  }

  /** The test "count above `m`". */
  function MoreThan<T>(m: int): Counted<T> -> bool {
    (e: Counted<T>) => e.count > m
  }

  /** A filter keeps the descending order of counts. */
  lemma {:induction false} FilterNonIncreasing<T>(xs: seq<Counted<T>>, keep: Counted<T> -> bool)
    requires NonIncreasing(xs)
    ensures NonIncreasing(Filter(xs, keep))
  {
    if xs != [] {
      var xs' := xs[..|xs| - 1];
      FilterNonIncreasing(xs', keep);
      var f := Filter(xs', keep);
      forall i | 0 <= i < |f|
        ensures f[i].count >= xs[|xs| - 1].count
      {
        var a :| 0 <= a < |xs'| && xs'[a] == f[i];
      }
    }
  }

  /** The largest number of a non-empty list, and where it first stands. */
  function ArgMax(numbers: seq<nat>): (k: nat)
    requires |numbers| > 0
    ensures k < |numbers|
    ensures forall j | 0 <= j < |numbers| :: numbers[j] <= numbers[k]
  {
    if |numbers| == 1 then 0
    else
      var k := ArgMax(numbers[..|numbers| - 1]);
      if numbers[|numbers| - 1] > numbers[k] then |numbers| - 1 else k
  }

  /** `_get_maxes_count`: how often the maximum occurs. */
  function MaxesCount(numbers: seq<nat>): (r: nat)
    requires |numbers| > 0
    ensures r >= 1
    ensures r == 1 <==> exists i | 0 <= i < |numbers| ::
      forall j | 0 <= j < |numbers| && j != i :: numbers[j] < numbers[i]
  {
    var k := ArgMax(numbers);
    MaxesCountFacts(numbers, k);
    multiset(numbers)[numbers[k]]
  }

  lemma MaxesCountFacts(numbers: seq<nat>, k: nat)
    requires k < |numbers| && forall j | 0 <= j < |numbers| :: numbers[j] <= numbers[k]
    ensures multiset(numbers)[numbers[k]] >= 1
    ensures multiset(numbers)[numbers[k]] == 1 <==> exists i | 0 <= i < |numbers| ::
      forall j | 0 <= j < |numbers| && j != i :: numbers[j] < numbers[i]
  {
    assert numbers[k] in multiset(numbers);
    if multiset(numbers)[numbers[k]] == 1 {
      forall j | 0 <= j < |numbers| && j != k
        ensures numbers[j] < numbers[k]
      {
        if numbers[j] == numbers[k] {
          if j < k { TwiceCounted(numbers, j, k); } else { TwiceCounted(numbers, k, j); }
        }
      }
    }
    if exists i | 0 <= i < |numbers| :: forall j | 0 <= j < |numbers| && j != i :: numbers[j] < numbers[i] {
      var i :| 0 <= i < |numbers| && forall j | 0 <= j < |numbers| && j != i :: numbers[j] < numbers[i];
      assert i == k;
      OnlyAt(numbers, k);
    }
  }

  /** A value found at one index only is counted once. */
  lemma OnlyAt(xs: seq<nat>, k: nat)
    requires k < |xs| && forall j | 0 <= j < |xs| && j != k :: xs[j] != xs[k]
    ensures multiset(xs)[xs[k]] == 1
  {
    var a, b := xs[..k], xs[k + 1..];
    assert xs == a + [xs[k]] + b;
    assert xs[k] !in a by {
      forall j | 0 <= j < |a| ensures a[j] != xs[k] { assert a[j] == xs[j]; }
    }
    assert xs[k] !in b by {
      forall j | 0 <= j < |b| ensures b[j] != xs[k] { assert b[j] == xs[k + 1 + j]; }
    }
  }

  /** One slot of the key mask from the tallied candidates (those counted
      more than KEY_CANDIDATE_REPEATS_MIN_COUNT, by descending count): the
      wildcard when there are none or the top count is shared, otherwise
      the top candidate. */
  function ResolveSlot(tallied: seq<Counted<char>>): (c: char)
    requires NonIncreasing(tallied) && LetterItems(tallied)
    ensures c != WILDCARD <==>
      |tallied| > 0 && forall j | 1 <= j < |tallied| :: tallied[j].count < tallied[0].count
    ensures c != WILDCARD ==> c == tallied[0].item
    ensures c == WILDCARD || IsLetter(c)
  {
    NotLetters();
    if tallied == [] then WILDCARD
    else
      var counts := Counts(tallied);
      assert forall j | 1 <= j < |tallied| :: counts[j] <= counts[0];
      TopUnique(counts);
      if MaxesCount(counts) == 1 then tallied[0].item else WILDCARD
  }

  /** For a list whose head is a maximum, the maximum is unique exactly
      when every later entry is smaller. */
  lemma TopUnique(counts: seq<nat>)
    requires |counts| > 0 && forall j | 0 <= j < |counts| :: counts[j] <= counts[0]
    ensures MaxesCount(counts) == 1 <==> forall j | 1 <= j < |counts| :: counts[j] < counts[0]
  {
    if MaxesCount(counts) == 1 {
      var i :| 0 <= i < |counts| && forall j | 0 <= j < |counts| && j != i :: counts[j] < counts[i];
      assert counts[i] <= counts[0];
      assert i == 0;
    }
    if forall j | 1 <= j < |counts| :: counts[j] < counts[0] {
      assert forall j | 0 <= j < |counts| && j != 0 :: counts[j] < counts[0];
    }
  }

  /** The candidates tallied as the mask loop keeps them. */
  function Tallied(candidates: string): (r: seq<Counted<char>>)
    requires OverAlphabet(candidates)
    ensures NonIncreasing(r) && LetterItems(r) && Distinct(Items(r))
    ensures forall i | 0 <= i < |r| ::
      r[i].count == multiset(candidates)[r[i].item] && r[i].count > KEY_CANDIDATE_REPEATS_MIN_COUNT
    ensures forall c | IsLetter(c) && multiset(candidates)[c] > KEY_CANDIDATE_REPEATS_MIN_COUNT ::
      c in Items(r)
  {
    var repeats := ItemsRepeats(candidates);
    var r := Filter(repeats, MoreThan(KEY_CANDIDATE_REPEATS_MIN_COUNT));
    FilterNonIncreasing(repeats, MoreThan(KEY_CANDIDATE_REPEATS_MIN_COUNT));
    FilterDistinctItems(repeats, MoreThan(KEY_CANDIDATE_REPEATS_MIN_COUNT));
    TalliedFacts(candidates, repeats, r);
    r
  }

  lemma TalliedFacts(candidates: string, repeats: seq<Counted<char>>, r: seq<Counted<char>>)
    requires OverAlphabet(candidates)
    requires repeats == ItemsRepeats(candidates)
    requires r == Filter(repeats, MoreThan(KEY_CANDIDATE_REPEATS_MIN_COUNT))
    ensures LetterItems(r)
    ensures forall i | 0 <= i < |r| ::
      r[i].count == multiset(candidates)[r[i].item] && r[i].count > KEY_CANDIDATE_REPEATS_MIN_COUNT
    ensures forall c | IsLetter(c) && multiset(candidates)[c] > KEY_CANDIDATE_REPEATS_MIN_COUNT ::
      c in Items(r)
  {
    forall i | 0 <= i < |r|
      ensures IsLetter(r[i].item)
      ensures r[i].count == multiset(candidates)[r[i].item] && r[i].count > KEY_CANDIDATE_REPEATS_MIN_COUNT
    {
      TalliedEntry(candidates, repeats, r[i]);
    }
    forall c | IsLetter(c) && multiset(candidates)[c] > KEY_CANDIDATE_REPEATS_MIN_COUNT
      ensures c in Items(r)
    {
      TalliedComplete(candidates, repeats, r, c);
    }
  }

  lemma TalliedEntry(candidates: string, repeats: seq<Counted<char>>, e: Counted<char>)
    requires OverAlphabet(candidates)
    requires repeats == ItemsRepeats(candidates)
    requires e in Filter(repeats, MoreThan(KEY_CANDIDATE_REPEATS_MIN_COUNT))
    ensures IsLetter(e.item)
    ensures e.count == multiset(candidates)[e.item] && e.count > KEY_CANDIDATE_REPEATS_MIN_COUNT
  {
    assert MoreThan(KEY_CANDIDATE_REPEATS_MIN_COUNT)(e);
    var k :| 0 <= k < |repeats| && repeats[k] == e;
    var a :| 0 <= a < |candidates| && candidates[a] == e.item;
  }

  lemma TalliedComplete(candidates: string, repeats: seq<Counted<char>>, r: seq<Counted<char>>, c: char)
    requires OverAlphabet(candidates)
    requires repeats == ItemsRepeats(candidates)
    requires r == Filter(repeats, MoreThan(KEY_CANDIDATE_REPEATS_MIN_COUNT))
    requires multiset(candidates)[c] > KEY_CANDIDATE_REPEATS_MIN_COUNT
    ensures c in Items(r)
  {
    assert c in multiset(candidates);
    var a :| 0 <= a < |candidates| && candidates[a] == c;
    assert c in Items(repeats);
    var k :| 0 <= k < |Items(repeats)| && Items(repeats)[k] == c;
    var e := repeats[k];
    assert e.item == c && e.count == multiset(candidates)[c];
    assert MoreThan<char>(KEY_CANDIDATE_REPEATS_MIN_COUNT)(e);
    assert e in r;
    ItemListed(r, e);
  }

  /** `c` is the candidate counted strictly more often than any other, and
      more than KEY_CANDIDATE_REPEATS_MIN_COUNT times. */
  predicate UniqueTop(candidates: string, c: char) {
    && multiset(candidates)[c] > KEY_CANDIDATE_REPEATS_MIN_COUNT
    && forall d | d != c :: multiset(candidates)[d] < multiset(candidates)[c]
  }

  /** A slot of the mask in terms of the candidates alone: the unique most
      frequent candidate when it is counted more than
      KEY_CANDIDATE_REPEATS_MIN_COUNT times, the wildcard otherwise. */
  lemma SlotIsUniqueTop(candidates: string)
    requires OverAlphabet(candidates)
    ensures forall c | UniqueTop(candidates, c) :: ResolveSlot(Tallied(candidates)) == c
    ensures (forall c :: !UniqueTop(candidates, c)) ==> ResolveSlot(Tallied(candidates)) == WILDCARD
  {
    var t := Tallied(candidates);
    var s := ResolveSlot(t);
    forall c | UniqueTop(candidates, c)
      ensures s == c
    {
      TopFound(candidates, c, t);
    }
    if s != WILDCARD {
      TopChosen(candidates, t);
    }
  }

  lemma TopFound(candidates: string, c: char, t: seq<Counted<char>>)
    requires OverAlphabet(candidates) && t == Tallied(candidates) && UniqueTop(candidates, c)
    ensures ResolveSlot(t) == c
  {
    var m := multiset(candidates);
    assert c in m;
    var a :| 0 <= a < |candidates| && candidates[a] == c;
    assert IsLetter(c);
    assert c in Items(t);
    TopOfList(m, t, c);
  }

  /** In a tally list sorted by descending count, an item counted strictly
      more often than every other heads the list alone. */
  lemma TopOfList(m: multiset<char>, t: seq<Counted<char>>, c: char)
    requires NonIncreasing(t) && Distinct(Items(t))
    requires forall i | 0 <= i < |t| :: t[i].count == m[t[i].item]
    requires c in Items(t)
    requires forall d | d != c :: m[d] < m[c]
    ensures |t| > 0 && t[0].item == c
    ensures forall j | 1 <= j < |t| :: t[j].count < t[0].count
  {
    var k :| 0 <= k < |Items(t)| && Items(t)[k] == c;
    assert t[k].item == c && t[k].count == m[c];
    assert t[0].count >= t[k].count;
    assert t[0].count == m[t[0].item];
    assert t[0].item == c;
    forall j | 1 <= j < |t|
      ensures t[j].count < t[0].count
    {
      assert Items(t)[j] != Items(t)[0];
      assert t[j].count == m[t[j].item];
    }
  }

  lemma TopChosen(candidates: string, t: seq<Counted<char>>)
    requires OverAlphabet(candidates) && t == Tallied(candidates) && ResolveSlot(t) != WILDCARD
    ensures UniqueTop(candidates, ResolveSlot(t))
  {
    var m := multiset(candidates);
    forall d | d != t[0].item
      ensures m[d] < m[t[0].item]
    {
      if m[d] > KEY_CANDIDATE_REPEATS_MIN_COUNT {
        assert d in m;
        var a :| 0 <= a < |candidates| && candidates[a] == d;
        assert IsLetter(d);
      }
      HeadBeats(m, t, d);
    }
  }

  /** The head of a tally list whose top count is not shared beats every
      other item: those counted above the tally threshold are listed behind
      it, and the rest are counted less than it. */
  lemma HeadBeats(m: multiset<char>, t: seq<Counted<char>>, d: char)
    requires |t| > 0 && d != t[0].item
    requires forall j | 1 <= j < |t| :: t[j].count < t[0].count
    requires forall i | 0 <= i < |t| :: t[i].count == m[t[i].item]
    requires t[0].count > KEY_CANDIDATE_REPEATS_MIN_COUNT
    requires m[d] > KEY_CANDIDATE_REPEATS_MIN_COUNT ==> d in Items(t)
    ensures m[d] < m[t[0].item]
  {
    if m[d] > KEY_CANDIDATE_REPEATS_MIN_COUNT {
      var k :| 0 <= k < |Items(t)| && Items(t)[k] == d;
      assert t[k].item == d;
      assert k != 0;
    }
  }

  /** The candidates of one column: the key symbols of its letters that
      repeat at least the threshold. */
  function ColumnCandidates(column: string, symbolMin: int): (r: string)
    requires OverAlphabet(column)
    ensures OverAlphabet(r)
  {
    var symbols := MostRepeatable(ItemsRepeats(column), symbolMin);
    assert LetterItems(symbols) by {
      forall i | 0 <= i < |symbols|
        ensures IsLetter(symbols[i].item)
      {
        var a :| 0 <= a < |column| && column[a] == symbols[i].item;
      }
    }
    Candidates(symbols)
  }

  /** A column's slot is its unique top candidate, or the wildcard when
      there is none. */
  lemma SlotMeaning(column: string, symbolMin: int)
    requires OverAlphabet(column)
    ensures var s := ResolveSlot(Tallied(ColumnCandidates(column, symbolMin)));
      s == WILDCARD || UniqueTop(ColumnCandidates(column, symbolMin), s)
    ensures forall c | UniqueTop(ColumnCandidates(column, symbolMin), c) ::
      ResolveSlot(Tallied(ColumnCandidates(column, symbolMin))) == c
  {
    SlotIsUniqueTop(ColumnCandidates(column, symbolMin));
  }

  /** The key mask (core.py:169-203): slot `p` resolves column `p` of the
      text, every `keyLength`-th letter from `p`. */
  function KeyMask(text: string, keyLength: nat, symbolMin: int): (mask: string)
    requires OverAlphabet(text)
    ensures |mask| == keyLength
    ensures forall p | 0 <= p < keyLength ::
      mask[p] == WILDCARD || UniqueTop(ColumnCandidates(Every(text, p, keyLength), symbolMin), mask[p])
    ensures forall p, c | 0 <= p < keyLength &&
      UniqueTop(ColumnCandidates(Every(text, p, keyLength), symbolMin), c) :: mask[p] == c
    ensures forall p | 0 <= p < keyLength :: mask[p] == WILDCARD || IsLetter(mask[p])
  {
    var mask := seq(keyLength, p requires 0 <= p < keyLength =>
      ResolveSlot(Tallied(ColumnCandidates(Every(text, p, keyLength), symbolMin))));
    forall p | 0 <= p < keyLength
      ensures mask[p] == WILDCARD || UniqueTop(ColumnCandidates(Every(text, p, keyLength), symbolMin), mask[p])
      ensures forall c | UniqueTop(ColumnCandidates(Every(text, p, keyLength), symbolMin), c) :: mask[p] == c
    {
      var column := Every(text, p, keyLength);
      assert mask[p] == ResolveSlot(Tallied(ColumnCandidates(column, symbolMin)));
      SlotMeaning(column, symbolMin);
    }
    mask
  }

}
