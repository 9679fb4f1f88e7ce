/** Kasiski-style estimation of the key length: repeated gramms of the
    ciphertext (core.py:306-331), the distances between their occurrences
    (core.py:334-367), and the rounding score that picks the length
    (core.py:94-126, core.py:140-160). */
module Kasiski {
  import opened Seqs
  import opened Alphabet
  import opened Text
  import Arith

  // ----- `str.count` -----

  /** Non-overlapping occurrences of a non-empty `sub` from `from` on: scan
      left to right and, after a match, continue behind it. */
  function CountFrom(s: string, sub: string, from: nat): nat
    requires |sub| > 0
    decreases |s| - from
  {
    if from + |sub| > |s| then 0
    else if MatchAt(s, sub, from) then 1 + CountFrom(s, sub, from + |sub|)
    else CountFrom(s, sub, from + 1)
  }

  /** `s.count(sub)`; the empty fragment is counted once per gap, `len + 1`. */
  function Count(s: string, sub: string): nat {
    if sub == [] then |s| + 1 else CountFrom(s, sub, 0)
  }

  /** The count as a function of the fragment. */
  function CountOf(s: string): string -> nat {
    (sub: string) => Count(s, sub)
  }

  /** A positive count comes from a first match at or after `from`, and the
      rest of the count lies behind that match. */
  lemma {:induction false} CountWitness(s: string, sub: string, from: nat) returns (j: nat)
    requires |sub| > 0 && CountFrom(s, sub, from) > 0
    ensures from <= j && MatchAt(s, sub, j)
    ensures forall i | from <= i < j :: !MatchAt(s, sub, i)
    ensures CountFrom(s, sub, j + |sub|) == CountFrom(s, sub, from) - 1
    decreases |s| - from
  {
    if MatchAt(s, sub, from) {
      j := from;
    } else {
      j := CountWitness(s, sub, from + 1);
    }
  }

  /** `str.count` as a `find` loop that resumes behind each match: no match
      from `from` on gives 0, otherwise the count is one more than the count
      behind the first match, so the counted matches never overlap. */
  lemma {:induction false} CountByFind(s: string, sub: string, from: nat)
    requires |sub| > 0
    ensures Find(s, sub, from) == -1 ==> CountFrom(s, sub, from) == 0
    ensures Find(s, sub, from) != -1 ==>
      CountFrom(s, sub, from) == 1 + CountFrom(s, sub, Find(s, sub, from) + |sub|)
    decreases |s| - from
  {
    if from + |sub| > |s| {
      assert !MatchAt(s, sub, from);
      if from <= |s| {
        NoRoomNoMatch(s, sub, from);
        OccurrencesFind(s, sub, from);
      }
    } else if !MatchAt(s, sub, from) {
      CountByFind(s, sub, from + 1);
    }
  }

  /** Non-overlapping matches are a subset of all matches, and there is one
      exactly when there is any match. */
  lemma {:induction false} CountBelowOccurrences(s: string, sub: string, from: nat)
    requires |sub| > 0
    ensures CountFrom(s, sub, from) <= |OccurrencesFrom(s, sub, from)|
    ensures CountFrom(s, sub, from) > 0 <==> |OccurrencesFrom(s, sub, from)| > 0
    decreases |s| + 1 - from
  {
    if from + |sub| > |s| {
      NoRoomNoMatch(s, sub, from);
    } else if MatchAt(s, sub, from) {
      assert OccurrencesFrom(s, sub, from) == [from] + OccurrencesFrom(s, sub, from + 1);
      OccurrencesShrink(s, sub, from + 1, from + |sub|);
      CountBelowOccurrences(s, sub, from + |sub|);
    } else {
      assert OccurrencesFrom(s, sub, from) == OccurrencesFrom(s, sub, from + 1);
      CountBelowOccurrences(s, sub, from + 1);
    }
  }

  /** Starting later finds no more matches. */
  lemma {:induction false} OccurrencesShrink(s: string, sub: string, a: nat, b: nat)
    requires a <= b
    ensures |OccurrencesFrom(s, sub, b)| <= |OccurrencesFrom(s, sub, a)|
    decreases b - a
  {
    if a < b {
      OccurrencesShrink(s, sub, a + 1, b);
    }
  }

  /** No match starts where the fragment no longer fits. */
  lemma {:induction false} NoRoomNoMatch(s: string, sub: string, from: nat)
    requires from + |sub| > |s| && |sub| > 0
    ensures OccurrencesFrom(s, sub, from) == []
    decreases |s| + 1 - from
  {
    if from <= |s| {
      NoRoomNoMatch(s, sub, from + 1);
    }
  }

  // ----- gramms -----

  /** The fragments `_get_gramms` looks at: `text[shift:shift + n]` for every
      `shift` with `shift + n < len(text)`, so the last window is never
      examined. */
  function Windows(text: string, n: nat): seq<string> {
    if n < |text| then seq(|text| - n, k requires 0 <= k < |text| - n => text[k..k + n]) else []
  }

  /** `x or default` for a threshold: `None` and 0 select the default. */
  function Threshold(m: int, default: nat): int {
    if m == 0 then default else m
  }

  /** The test "count at least `m`". */
  function AtLeast<T>(m: int): Counted<T> -> bool {
    (e: Counted<T>) => e.count >= m
  }

  /** `_get_gramms(text, n, repeat_min_count)`: the distinct examined
      windows, each with its `str.count`, those below the threshold dropped,
      ordered by descending count with ties in order of first appearance. */
  function Gramms(text: string, n: nat, minCount: int): (r: seq<Counted<string>>)
    ensures NonIncreasing(r)
    ensures Distinct(Items(r))
    ensures forall i | 0 <= i < |r| ::
      && r[i].item in Windows(text, n)
      && |r[i].item| == n
      && r[i].count == Count(text, r[i].item)
      && r[i].count >= Threshold(minCount, GRAMM_REPEATS_MIN_COUNT)
    ensures forall k | 0 <= k < |Windows(text, n)|
      && Count(text, Windows(text, n)[k]) >= Threshold(minCount, GRAMM_REPEATS_MIN_COUNT) ::
      Windows(text, n)[k] in Items(r)
  {
    var th := Threshold(minCount, GRAMM_REPEATS_MIN_COUNT);
    var r := Ranked(Windows(text, n), CountOf(text), AtLeast(th));
    GrammEntries(text, n, th, r);
    GrammsComplete(text, n, th, r);
    r
  }

  lemma GrammEntries(text: string, n: nat, th: int, r: seq<Counted<string>>)
    requires r == Ranked(Windows(text, n), CountOf(text), AtLeast(th))
    ensures forall i | 0 <= i < |r| ::
      |r[i].item| == n && r[i].count == Count(text, r[i].item) && r[i].count >= th
  {
    forall i | 0 <= i < |r|
      ensures |r[i].item| == n && r[i].count == Count(text, r[i].item) && r[i].count >= th
    {
      assert r[i].count == CountOf(text)(r[i].item) && AtLeast(th)(r[i]);
      WindowLength(text, n, r[i].item);
    }
  }

  /** Every window has length `n`. */
  lemma WindowLength(text: string, n: nat, x: string)
    requires x in Windows(text, n)
    ensures |x| == n
  {
    var w := Windows(text, n);
    var k :| 0 <= k < |w| && w[k] == x;
    assert x == text[k..k + n];
  }

  lemma GrammsComplete(text: string, n: nat, th: int, r: seq<Counted<string>>)
    requires r == Ranked(Windows(text, n), CountOf(text), AtLeast(th))
    ensures forall k | 0 <= k < |Windows(text, n)| && Count(text, Windows(text, n)[k]) >= th ::
      Windows(text, n)[k] in Items(r)
  {
    var w := Windows(text, n);
    forall k | 0 <= k < |w| && Count(text, w[k]) >= th
      ensures w[k] in Items(r)
    {
      assert AtLeast(th)(Counted(w[k], CountOf(text)(w[k])));
    }
  }

  /** With a threshold of at least 2 the never-examined last window loses
      nothing: a fragment of length `n` counted that often also occurs at an
      earlier, examined window. */
  lemma LastWindowHarmless(text: string, n: nat, minCount: int, part: string)
    requires Threshold(minCount, GRAMM_REPEATS_MIN_COUNT) >= 2
    requires |part| == n && Count(text, part) >= Threshold(minCount, GRAMM_REPEATS_MIN_COUNT)
    ensures part in Items(Gramms(text, n, minCount))
  {
    var w := Windows(text, n);
    var j: nat := 0;
    if n > 0 {
      j := CountWitness(text, part, 0);
      var j2 := CountWitness(text, part, j + n);
    }
    assert j + n < |text|;
    assert w[j] == part;
    assert Count(text, w[j]) >= Threshold(minCount, GRAMM_REPEATS_MIN_COUNT);
  }

  /** With a threshold of 1 the last window is lost: in "абв" the bigram
      "бв" occurs once, yet only "аб" is examined. */
  lemma LastWindowLost()
    ensures Count("абв", "бв") == 1
    ensures "бв" !in Items(Gramms("абв", 2, 1))
  {
    var text := "абв";
    assert text[1..3] == "бв";
    assert MatchAt(text, "бв", 1);
    assert text[0..2][0] == 'а';
    assert !MatchAt(text, "бв", 0);
    assert CountFrom(text, "бв", 1) == 1;
    OnlyWindow(text);
  }

  /** Only the first bigram of a three-letter text is examined. */
  lemma OnlyWindow(text: string)
    requires |text| == 3
    ensures forall x | x in Items(Gramms(text, 2, 1)) :: x == text[0..2]
  {
    assert Windows(text, 2) == [text[0..2]];
    forall x | x in Items(Gramms(text, 2, 1))
      ensures x == text[0..2]
    {
      GrammIsWindow(text, 2, 1, x);
    }
  }

  /** Every gramm is an examined window. */
  lemma GrammIsWindow(text: string, n: nat, minCount: int, x: string)
    requires x in Items(Gramms(text, n, minCount))
    ensures x in Windows(text, n)
  {
    var r := Gramms(text, n, minCount);
    var i :| 0 <= i < |r| && Items(r)[i] == x;
    assert r[i].item in Windows(text, n);
  }

  // ----- distances -----

  /** Strictly ascending. */
  predicate Increasing(ps: seq<nat>) {
    forall k, l | 0 <= k < l < |ps| :: ps[k] < ps[l]
  }

  /** The gaps between successive positions. */
  function Gaps(ps: seq<int>): (r: seq<int>)
    ensures |r| == if ps == [] then 0 else |ps| - 1
  {
    if ps == [] then [] else seq(|ps| - 1, k requires 0 <= k < |ps| - 1 => ps[k + 1] - ps[k])
  }

  /** The sum of a list of distances. */
  function SumInt(xs: seq<int>): int {
    if xs == [] then 0 else SumInt(xs[..|xs| - 1]) + xs[|xs| - 1]
  }

  /** The gaps telescope: together they span from the first position to the
      last. */
  lemma {:induction false} GapsSum(ps: seq<int>)
    requires ps != []
    ensures SumInt(Gaps(ps)) == ps[|ps| - 1] - ps[0]
  {
    if |ps| > 1 {
      var init := ps[..|ps| - 1];
      GapsSum(init);
      assert Gaps(ps)[..|Gaps(ps)| - 1] == Gaps(init);
    }
  }

  /** Gaps between ascending positions are positive. */
  lemma GapsPositive(ps: seq<nat>)
    requires Increasing(ps)
    ensures forall k | 0 <= k < |Gaps(ps)| :: Gaps(ps)[k] >= 1
  {
    var r := Gaps(ps);
    forall k | 0 <= k < |r|
      ensures r[k] >= 1
    {
      assert r[k] == ps[k + 1] - ps[k];
    }
  }

  /** The positions are recovered from the first one and the gaps, so two
      position lists with the same start and the same gaps are equal. */
  lemma GapsDetermine(ps: seq<nat>, qs: seq<nat>)
    requires |ps| == |qs| && ps != [] && ps[0] == qs[0] && Gaps(ps) == Gaps(qs)
    ensures ps == qs
  {
    var k := 0;
    while k < |ps| - 1
      invariant 0 <= k < |ps|
      invariant ps[..k + 1] == qs[..k + 1]
    {
      assert Gaps(ps)[k] == Gaps(qs)[k];
      assert ps[k + 1] == qs[k + 1];
      assert ps[..k + 2] == ps[..k + 1] + [ps[k + 1]];
      assert qs[..k + 2] == qs[..k + 1] + [qs[k + 1]];
      k := k + 1;
    }
    assert ps == ps[..k + 1] && qs == qs[..k + 1];
  }

  /** The occurrence list is strictly ascending. */
  lemma OccurrencesIncreasing(s: string, sub: string)
    ensures Increasing(Occurrences(s, sub))
  {
    OccurrencesFromSpec(s, sub, 0);
  }

  /** `_get_sub_distances`: repeated `find` from one past the previous hit
      (so occurrences may overlap), recording the gap to the previous hit. */
  method SubDistances(sub: string, s: string) returns (distances: seq<int>)
    ensures distances == Gaps(Occurrences(s, sub))
    ensures forall k | 0 <= k < |distances| :: distances[k] >= 1
  {
    ghost var all := Occurrences(s, sub);
    distances := [];
    var lastIndex := -1;
    ghost var done: seq<nat> := [];
    while true
      invariant -1 <= lastIndex <= |s|
      invariant done + OccurrencesFrom(s, sub, lastIndex + 1) == all
      invariant done == [] <==> lastIndex == -1
      invariant done != [] ==> done[|done| - 1] == lastIndex
      invariant distances == Gaps(done)
      decreases |s| - lastIndex
    {
      FindStep(s, sub, done, lastIndex + 1, all);
      var index := Find(s, sub, lastIndex + 1);
      if index != -1 {
        if lastIndex != -1 {
          distances := distances + [index - lastIndex];
        }
        GapsSnoc(done, index);
        done := done + [index];
        lastIndex := index;
      } else {
        break;
      }
    }
    OccurrencesIncreasing(s, sub);
    GapsPositive(all);
  }

  /** Appending a position appends its gap to the previous one. */
  lemma GapsSnoc(ps: seq<int>, x: int)
    ensures ps == [] ==> Gaps(ps + [x]) == []
    ensures ps != [] ==> Gaps(ps + [x]) == Gaps(ps) + [x - ps[|ps| - 1]]
  {
  }

  /** A gramm together with the distances between its occurrences. */
  datatype Spaced = Spaced(gramm: string, distances: seq<int>)

  /** Each gramm of a list with the distances of its occurrences in `text`,
      keeping the gramm's count as the sort key. */
  function Spacings(text: string, gramms: seq<Counted<string>>): (r: seq<Counted<Spaced>>)
    ensures |r| == |gramms|
    ensures forall i | 0 <= i < |r| ::
      r[i] == Counted(Spaced(gramms[i].item, Gaps(Occurrences(text, gramms[i].item))), gramms[i].count)
  {
    if gramms == [] then []
    else
      var g := gramms[|gramms| - 1];
      Spacings(text, gramms[..|gramms| - 1])
        + [Counted(Spaced(g.item, Gaps(Occurrences(text, g.item))), g.count)]
  }

  /** `_get_gramms_with_distances`: a dict keyed by the (gramm, count) pairs
      in first-seen order, valued by the distances of the whole gramm string,
      sorted by descending gramm count. */
  function GrammsWithDistances(text: string, gramms: seq<Counted<string>>): (r: seq<Counted<Spaced>>)
    ensures NonIncreasing(r)
    ensures |r| == |FirstSeen(gramms)| <= |gramms|
    ensures forall i | 0 <= i < |r| ::
      && Counted(r[i].item.gramm, r[i].count) in gramms
      && r[i].item.distances == Gaps(Occurrences(text, r[i].item.gramm))
    ensures forall j | 0 <= j < |gramms| ::
      Counted(Spaced(gramms[j].item, Gaps(Occurrences(text, gramms[j].item))), gramms[j].count) in r
  {
    var r := SortByCount(Spacings(text, FirstSeen(gramms)));
    SpacedEntries(text, gramms, r);
    SpacedComplete(text, gramms, r);
    r
  }

  lemma SpacedEntries(text: string, gramms: seq<Counted<string>>, r: seq<Counted<Spaced>>)
    requires r == SortByCount(Spacings(text, FirstSeen(gramms)))
    ensures forall i | 0 <= i < |r| ::
      && Counted(r[i].item.gramm, r[i].count) in gramms
      && r[i].item.distances == Gaps(Occurrences(text, r[i].item.gramm))
  {
    var seen := FirstSeen(gramms);
    var spaced := Spacings(text, seen);
    SortedFromList(spaced);
    forall i | 0 <= i < |r|
      ensures Counted(r[i].item.gramm, r[i].count) in gramms
      ensures r[i].item.distances == Gaps(Occurrences(text, r[i].item.gramm))
    {
      SpacingMember(text, seen, r[i]);
    }
  }

  /** An entry of the spacing list belongs to a listed gramm. */
  lemma SpacingMember(text: string, gramms: seq<Counted<string>>, e: Counted<Spaced>)
    requires e in Spacings(text, gramms)
    ensures Counted(e.item.gramm, e.count) in gramms
    ensures e.item.distances == Gaps(Occurrences(text, e.item.gramm))
  {
    var spaced := Spacings(text, gramms);
    var a :| 0 <= a < |spaced| && spaced[a] == e;
    assert gramms[a] == Counted(e.item.gramm, e.count);
  }

  lemma SpacedComplete(text: string, gramms: seq<Counted<string>>, r: seq<Counted<Spaced>>)
    requires r == SortByCount(Spacings(text, FirstSeen(gramms)))
    ensures forall j | 0 <= j < |gramms| ::
      Counted(Spaced(gramms[j].item, Gaps(Occurrences(text, gramms[j].item))), gramms[j].count) in r
  {
    forall j | 0 <= j < |gramms|
      ensures Counted(Spaced(gramms[j].item, Gaps(Occurrences(text, gramms[j].item))), gramms[j].count) in r
    {
      SpacedOne(text, FirstSeen(gramms), gramms[j]);
    }
  }

  /** A listed gramm has its spacing entry in the sorted list. */
  lemma SpacedOne(text: string, seen: seq<Counted<string>>, g: Counted<string>)
    requires g in seen
    ensures Counted(Spaced(g.item, Gaps(Occurrences(text, g.item))), g.count) in SortByCount(Spacings(text, seen))
  {
    var spaced := Spacings(text, seen);
    var a :| 0 <= a < |seen| && seen[a] == g;
    assert spaced[a] == Counted(Spaced(g.item, Gaps(Occurrences(text, g.item))), g.count);
    SortedHasListed(spaced, spaced[a]);
  }

  // ----- rounding -----

  /** A rounded number and whether rounding was needed. */
  datatype Rounded = Rounded(value: int, changed: bool)

  /** `_round_to_divisor`: a multiple of `divisor` is kept and reported
      unchanged; a number below `divisor` is kept but reported changed;
      anything else goes to the nearer multiple, the upper one only when it
      is strictly nearer. */
  function RoundToDivisor(number: int, divisor: int): (r: Rounded)
    requires divisor > 0
    ensures r.changed <==> number % divisor != 0
    ensures !r.changed || divisor > number ==> r.value == number
    ensures r.changed && divisor <= number ==> r.value % divisor == 0 && r.value != number
  {
    var whole := number / divisor;
    var residue := number % divisor;
    if residue == 0 then Rounded(number, false)
    else if divisor > number then Rounded(number, true)
    else
      var next := (whole + 1) * divisor;
      assert next == number - residue + divisor;
      Arith.DivModUnique(number - residue, whole, 0, divisor);
      Arith.DivModUnique(next, whole + 1, 0, divisor);
      if next - number < residue then Rounded(next, true) else Rounded(number - residue, true)
  }

  function Abs(x: int): nat {
    if x < 0 then -x else x
  }

  /** A rounded number is a multiple of `divisor` at least as near as any
      other, and of two equally near multiples it is the lower. */
  lemma RoundIsNearest(number: int, divisor: int, k: int)
    requires divisor > 0 && divisor <= number
    ensures Abs(RoundToDivisor(number, divisor).value - number) <= Abs(k * divisor - number)
    ensures Abs(RoundToDivisor(number, divisor).value - number) == Abs(k * divisor - number)
      ==> RoundToDivisor(number, divisor).value <= k * divisor
  {
    var q, res := number / divisor, number % divisor;
    var v := RoundToDivisor(number, divisor).value;
    assert number == q * divisor + res;
    if k <= q {
      Arith.MulLe(k, q, divisor);
    } else {
      Arith.MulLe(q + 1, k, divisor);
      assert (q + 1) * divisor == q * divisor + divisor;
    }
  }

  /** The test "not a multiple of `divisor`". */
  function NotMultipleOf(divisor: int): int -> bool
    requires divisor > 0
  {
    (x: int) => x % divisor != 0
  }

  /** How many numbers `_round_list_to_divisor` has to round. */
  function Roundings(numbers: seq<int>, divisor: int): nat
    requires divisor > 0
  {
    |Filter(numbers, NotMultipleOf(divisor))|
  }

  /** `_round_list_to_divisor`: round each number and count those whose
      rounding reported a change. */
  method RoundListToDivisor(numbers: seq<int>, divisor: int) returns (rounded: seq<int>, roundings: nat)
    requires divisor > 0
    ensures |rounded| == |numbers|
    ensures forall i | 0 <= i < |numbers| :: rounded[i] == RoundToDivisor(numbers[i], divisor).value
    ensures roundings == Roundings(numbers, divisor)
  {
    rounded := [];
    roundings := 0;
    for k := 0 to |numbers|
      invariant |rounded| == k
      invariant forall i | 0 <= i < k :: rounded[i] == RoundToDivisor(numbers[i], divisor).value
      invariant roundings == Roundings(numbers[..k], divisor)
    {
      var r := RoundToDivisor(numbers[k], divisor);
      rounded := rounded + [r.value];
      RoundingsSnoc(numbers, k, divisor);
      if r.changed {
        roundings := roundings + 1;
      }
    }
    assert numbers[..|numbers|] == numbers;
  }

  /** One more number adds one rounding exactly when it is not a multiple. */
  lemma RoundingsSnoc(numbers: seq<int>, k: nat, divisor: int)
    requires divisor > 0 && k < |numbers|
    ensures Roundings(numbers[..k + 1], divisor)
      == Roundings(numbers[..k], divisor) + if numbers[k] % divisor != 0 then 1 else 0
  {
    assert numbers[..k + 1] == numbers[..k] + [numbers[k]];
    FilterAppend(numbers[..k], [numbers[k]], NotMultipleOf(divisor));
    assert [numbers[k]][..0] == [];
  }

  // ----- key length -----

  /** The score of a candidate length: the roundings over the distances of
      every gramm. */
  function Score(gramms: seq<Counted<Spaced>>, length: nat): nat
    requires length > 0
  {
    if gramms == [] then 0
    else Score(gramms[..|gramms| - 1], length) + Roundings(gramms[|gramms| - 1].item.distances, length)
  }

  /** The length in `[from, KEY_MAX_LENGTH]` with the lowest score, the
      largest among equal scores. */
  function BestLengthFrom(gramms: seq<Counted<Spaced>>, from: nat): (l: nat)
    requires KEY_MIN_LENGTH <= from <= KEY_MAX_LENGTH
    ensures from <= l <= KEY_MAX_LENGTH
    ensures forall m | from <= m <= KEY_MAX_LENGTH :: Score(gramms, l) <= Score(gramms, m)
    ensures forall m | l < m <= KEY_MAX_LENGTH :: Score(gramms, l) < Score(gramms, m)
    decreases KEY_MAX_LENGTH - from
  {
    if from == KEY_MAX_LENGTH then from
    else
      var best := BestLengthFrom(gramms, from + 1);
      if Score(gramms, from) < Score(gramms, best) then from else best
  }

  /** core.py:140-160: score every length from KEY_MIN_LENGTH to
      KEY_MAX_LENGTH and take the first after sorting by (score, -length),
      that is the lowest score and, among equal scores, the largest length. */
  function SelectKeyLength(gramms: seq<Counted<Spaced>>): (l: nat)
    ensures KEY_MIN_LENGTH <= l <= KEY_MAX_LENGTH
    ensures forall m | KEY_MIN_LENGTH <= m <= KEY_MAX_LENGTH :: Score(gramms, l) <= Score(gramms, m)
    ensures forall m | l < m <= KEY_MAX_LENGTH :: Score(gramms, l) < Score(gramms, m)
  {
    BestLengthFrom(gramms, KEY_MIN_LENGTH)
  }
}
