/** Sequence helpers shared by the analysis: first-seen de-duplication (the key
    order of a Python dict filled while walking a sequence), filtering, and the
    stable sort by descending count that `sorted(..., key=lambda item: -item[1])`
    performs on (item, count) pairs. */
module Seqs {

  /** An item paired with a count: a gramm and its repeats, a symbol and its
      occurrences, a key-symbol candidate and its tally. */
  datatype Counted<T> = Counted(item: T, count: nat)

  /** No element occurs twice. */
  predicate Distinct<T(==)>(xs: seq<T>) {
    forall i, j | 0 <= i < j < |xs| :: xs[i] != xs[j]
  }

  /** The items of a list of pairs, in order. */
  function Items<T>(xs: seq<Counted<T>>): (r: seq<T>)
    ensures |r| == |xs|
    ensures forall i | 0 <= i < |xs| :: r[i] == xs[i].item
  {
    if xs == [] then [] else Items(xs[..|xs| - 1]) + [xs[|xs| - 1].item]
  }

  /** The counts of a list of pairs, in order. */
  function Counts<T>(xs: seq<Counted<T>>): (r: seq<nat>)
    ensures |r| == |xs|
    ensures forall i | 0 <= i < |xs| :: r[i] == xs[i].count
  {
    if xs == [] then [] else Counts(xs[..|xs| - 1]) + [xs[|xs| - 1].count]
  }

  /** Sum of a list of counts. */
  function Sum(xs: seq<nat>): nat {
    if xs == [] then 0 else Sum(xs[..|xs| - 1]) + xs[|xs| - 1]
  }

  /** Counts never go up from left to right. */
  predicate NonIncreasing<T>(xs: seq<Counted<T>>) {
    forall i, j | 0 <= i < j < |xs| :: xs[i].count >= xs[j].count
  }

  /** The distinct elements of `xs` in order of first occurrence: what remains of
      `xs` when every repeated element is dropped after its first appearance. */
  function FirstSeen<T(==)>(xs: seq<T>): (r: seq<T>)
    ensures Distinct(r)
    ensures forall i | 0 <= i < |r| :: r[i] in xs
    ensures forall i | 0 <= i < |xs| :: xs[i] in r
    ensures |r| <= |xs|
  {
    if xs == [] then []
    else
      var p := FirstSeen(xs[..|xs| - 1]);
      if xs[|xs| - 1] in p then p else p + [xs[|xs| - 1]]
  }

  /** The elements of `xs` that satisfy `keep`, in their original order. */
  function Filter<T>(xs: seq<T>, keep: T -> bool): (r: seq<T>)
    ensures |r| <= |xs|
    ensures forall i | 0 <= i < |r| :: r[i] in xs && keep(r[i])
    ensures forall i | 0 <= i < |xs| :: keep(xs[i]) ==> xs[i] in r
  {
    if xs == [] then []
    else if keep(xs[|xs| - 1]) then Filter(xs[..|xs| - 1], keep) + [xs[|xs| - 1]]
    else Filter(xs[..|xs| - 1], keep)
  }

  lemma {:induction false} FilterAppend<T>(a: seq<T>, b: seq<T>, keep: T -> bool)
    ensures Filter(a + b, keep) == Filter(a, keep) + Filter(b, keep)
    decreases |b|
  {
    if b == [] {
      assert a + b == a;
    } else {
      var b' := b[..|b| - 1];
      assert (a + b)[..|a + b| - 1] == a + b';
      FilterAppend(a, b', keep);
    }
  }

  /** Filtering a slice one element longer adds that element's share. */
  lemma FilterSliceSnoc<T>(s: seq<T>, i: nat, n: nat, keep: T -> bool)
    requires i < n <= |s|
    ensures Filter(s[i..n], keep) == Filter(s[i..n - 1], keep) + Filter([s[n - 1]], keep)
  {
    assert s[i..n] == s[i..n - 1] + [s[n - 1]];
    FilterAppend(s[i..n - 1], [s[n - 1]], keep);
  }

  /** Filtering by a weaker condition first changes nothing: a stricter threshold
      applied after a looser one keeps the same sub-list as applied alone. */
  lemma {:induction false} FilterFilter<T>(xs: seq<T>, loose: T -> bool, strict: T -> bool)
    requires forall x :: strict(x) ==> loose(x)
    ensures Filter(Filter(xs, loose), strict) == Filter(xs, strict)
  {
    if xs != [] {
      var xs' := xs[..|xs| - 1];
      var x := xs[|xs| - 1];
      FilterFilter(xs', loose, strict);
      if loose(x) {
        FilterAppend(Filter(xs', loose), [x], strict);
      }
    }
  }

  /** A filter preserves distinctness. */
  lemma {:induction false} FilterDistinct<T>(xs: seq<T>, keep: T -> bool)
    requires Distinct(xs)
    ensures Distinct(Filter(xs, keep))
  {
    if xs != [] {
      var xs' := xs[..|xs| - 1];
      assert Distinct(xs');
      FilterDistinct(xs', keep);
    }
  }

  /** The entries of `xs` whose count is exactly `v`, in order. */
  function WithCount<T>(xs: seq<Counted<T>>, v: nat): seq<Counted<T>> {
    Filter(xs, CountIs(v))
  }

  /** The test "this entry has count `v`". */
  function CountIs<T>(v: nat): Counted<T> -> bool {
    (e: Counted<T>) => e.count == v
  }

  /** Insert `e` into a list sorted by descending count, after every entry whose
      count is at least `e.count`; equal counts therefore keep arrival order. */
  function InsertByCount<T(==)>(e: Counted<T>, xs: seq<Counted<T>>): (r: seq<Counted<T>>)
    requires NonIncreasing(xs)
    ensures NonIncreasing(r)
    ensures multiset(r) == multiset(xs) + multiset{e}
    ensures Sum(Counts(r)) == Sum(Counts(xs)) + e.count
  {
    if xs == [] then [e]
    else
      var last := xs[|xs| - 1];
      var xs' := xs[..|xs| - 1];
      assert xs == xs' + [last];
      if last.count >= e.count then
        AppendBelow(xs, e);
        Snoc(xs, e);
        xs + [e]
      else
        var r' := InsertByCount(e, xs');
        InsertStep(xs', last, e, r');
        r' + [last]
  }

  /** The recursive case of `InsertByCount`: `e` goes before the last entry,
      which stays last. */
  lemma InsertStep<T>(xs': seq<Counted<T>>, last: Counted<T>, e: Counted<T>, r': seq<Counted<T>>)
    requires NonIncreasing(xs' + [last]) && last.count < e.count
    requires NonIncreasing(r') && multiset(r') == multiset(xs') + multiset{e}
    requires Sum(Counts(r')) == Sum(Counts(xs')) + e.count
    ensures NonIncreasing(r' + [last])
    ensures multiset(r' + [last]) == multiset(xs' + [last]) + multiset{e}
    ensures Sum(Counts(r' + [last])) == Sum(Counts(xs' + [last])) + e.count
  {
    StillBelow(xs', last, e, r');
    SnocBoth(xs', last, e, r');
  }

  /** The displaced last entry still closes the list with `e` inserted. */
  lemma StillBelow<T>(xs': seq<Counted<T>>, last: Counted<T>, e: Counted<T>, r': seq<Counted<T>>)
    requires NonIncreasing(xs' + [last]) && last.count < e.count
    requires NonIncreasing(r') && multiset(r') == multiset(xs') + multiset{e}
    ensures NonIncreasing(r' + [last])
  {
    AboveLast(xs', last);
    BoundedAbove(r', xs', e, last.count);
    AppendBelow(r', last);
  }

  /** Appending the same entry to two lists keeps their multiset and sum
      relation. */
  lemma SnocBoth<T>(xs': seq<Counted<T>>, last: Counted<T>, e: Counted<T>, r': seq<Counted<T>>)
    requires multiset(r') == multiset(xs') + multiset{e}
    requires Sum(Counts(r')) == Sum(Counts(xs')) + e.count
    ensures multiset(r' + [last]) == multiset(xs' + [last]) + multiset{e}
    ensures Sum(Counts(r' + [last])) == Sum(Counts(xs' + [last])) + e.count
  {
    Snoc(r', last);
    Snoc(xs', last);
  }

  /** In a non-increasing list every entry counts at least as much as the
      last one. */
  lemma AboveLast<T>(xs': seq<Counted<T>>, last: Counted<T>)
    requires NonIncreasing(xs' + [last])
    ensures forall i | 0 <= i < |xs'| :: xs'[i].count >= last.count
  {
    var xs := xs' + [last];
    assert xs[|xs'|] == last;
    forall i | 0 <= i < |xs'|
      ensures xs'[i].count >= last.count
    {
      assert xs[i] == xs'[i];
      assert xs[i].count >= xs[|xs'|].count;
    }
  }

  /** Appending one entry adds it to the multiset and its count to the sum. */
  lemma Snoc<T>(xs: seq<Counted<T>>, x: Counted<T>)
    ensures multiset(xs + [x]) == multiset(xs) + multiset{x}
    ensures Sum(Counts(xs + [x])) == Sum(Counts(xs)) + x.count
  {
    var r := xs + [x];
    assert r[..|r| - 1] == xs;
  }

  /** An entry no larger than the last of a non-increasing list may follow it. */
  lemma AppendBelow<T>(xs: seq<Counted<T>>, x: Counted<T>)
    requires NonIncreasing(xs) && (xs == [] || xs[|xs| - 1].count >= x.count)
    ensures NonIncreasing(xs + [x])
  {
    var r := xs + [x];
    forall i, j | 0 <= i < j < |r|
      ensures r[i].count >= r[j].count
    {
      assert r[i] == xs[i];
      if j == |xs| {
        assert xs[i].count >= xs[|xs| - 1].count;
      } else {
        assert r[j] == xs[j];
      }
    }
  }

  /** Every entry of an insertion result comes from the list or is the new
      entry, so a bound on both bounds the result. */
  lemma BoundedAbove<T>(r: seq<Counted<T>>, xs: seq<Counted<T>>, e: Counted<T>, b: nat)
    requires multiset(r) == multiset(xs) + multiset{e}
    requires forall i | 0 <= i < |xs| :: xs[i].count >= b
    requires e.count >= b
    ensures forall i | 0 <= i < |r| :: r[i].count >= b
  {
    forall i | 0 <= i < |r|
      ensures r[i].count >= b
    {
      assert r[i] in multiset(r);
      if r[i] != e {
        assert r[i] in multiset(xs);
        assert r[i] in xs;
      }
    }
  }

  /** Stable sort by descending count: the order Python's `sorted` with key
      `-count` produces. */
  function SortByCount<T(==)>(xs: seq<Counted<T>>): (r: seq<Counted<T>>)
    ensures NonIncreasing(r)
    ensures multiset(r) == multiset(xs)
    ensures |r| == |xs|
    ensures Sum(Counts(r)) == Sum(Counts(xs))
  {
    if xs == [] then []
    else
      var xs' := xs[..|xs| - 1];
      assert xs == xs' + [xs[|xs| - 1]];
      var r := InsertByCount(xs[|xs| - 1], SortByCount(xs'));
      assert |r| == |multiset(r)|;
      r
  }

  lemma {:induction false} InsertByCountStable<T>(e: Counted<T>, xs: seq<Counted<T>>, v: nat)
    requires NonIncreasing(xs)
    ensures WithCount(InsertByCount(e, xs), v)
         == WithCount(xs, v) + (if e.count == v then [e] else [])
    decreases |xs|
  {
    if xs == [] {
      assert InsertByCount(e, xs) == [e];
      FilterSingle(e, CountIs<T>(v));
    } else if xs[|xs| - 1].count >= e.count {
      StableAtEnd(e, xs, v);
    } else {
      var xs' := xs[..|xs| - 1];
      assert NonIncreasing(xs') by {
        assert forall i | 0 <= i < |xs'| :: xs'[i] == xs[i];
      }
      InsertByCountStable(e, xs', v);
      SplitLast(xs);
      StableBefore(e, xs', xs[|xs| - 1], v);
    }
  }

  /** A non-empty sequence is its prefix followed by its last element. */
  lemma SplitLast<T>(s: seq<T>)
    requires s != []
    ensures s == s[..|s| - 1] + [s[|s| - 1]]
  {
  }

  /** When `e` goes at the end, it closes the entries with its count. */
  lemma StableAtEnd<T>(e: Counted<T>, xs: seq<Counted<T>>, v: nat)
    requires NonIncreasing(xs) && xs != [] && xs[|xs| - 1].count >= e.count
    ensures WithCount(InsertByCount(e, xs), v)
         == WithCount(xs, v) + (if e.count == v then [e] else [])
  {
    var keep := CountIs<T>(v);
    SplitLast(xs);
    assert InsertByCount(e, xs) == xs + [e];
    FilterAppend(xs, [e], keep);
    FilterSingle(e, keep);
  }

  /** When `e` goes before the last entry, the stability of the shorter
      insertion carries over. */
  lemma StableBefore<T>(e: Counted<T>, xs': seq<Counted<T>>, last: Counted<T>, v: nat)
    requires NonIncreasing(xs') && NonIncreasing(xs' + [last]) && last.count < e.count
    requires WithCount(InsertByCount(e, xs'), v) == WithCount(xs', v) + (if e.count == v then [e] else [])
    ensures WithCount(InsertByCount(e, xs' + [last]), v)
         == WithCount(xs' + [last], v) + (if e.count == v then [e] else [])
  {
    var xs := xs' + [last];
    assert xs[..|xs| - 1] == xs' && xs[|xs| - 1] == last;
    var r' := InsertByCount(e, xs');
    assert InsertByCount(e, xs) == r' + [last];
    StableStep(xs', last, r', if e.count == v then [e] else [], CountIs<T>(v));
  }

  /** Filtering a one-element list. */
  lemma FilterSingle<T>(x: T, keep: T -> bool)
    ensures Filter([x], keep) == if keep(x) then [x] else []
  {
    assert [x][..0] == [];
  }

  /** Appending an entry the filter drops, or one when nothing was inserted,
      keeps the inserted entries at the end of the filtered list. */
  lemma StableStep<T>(xs': seq<T>, last: T, r': seq<T>, m: seq<T>, keep: T -> bool)
    requires Filter(r', keep) == Filter(xs', keep) + m
    requires m == [] || !keep(last)
    ensures Filter(r' + [last], keep) == Filter(xs' + [last], keep) + m
  {
    FilterAppend(r', [last], keep);
    FilterAppend(xs', [last], keep);
    FilterSingle(last, keep);
    AppendSwap(Filter(xs', keep), m, Filter([last], keep));
  }

  lemma AppendSwap<T>(f: seq<T>, m: seq<T>, l: seq<T>)
    requires m == [] || l == []
    ensures f + m + l == f + l + m
  {
    if m == [] {
      assert f + m == f;
      assert f + l + m == f + l;
    } else {
      assert f + m + l == f + m;
      assert f + l == f;
    }
  }

  /** Sorting is stable: the entries with any one count appear in the sorted list
      in exactly the order they had before. */
  lemma {:induction false} SortByCountStable<T>(xs: seq<Counted<T>>, v: nat)
    ensures WithCount(SortByCount(xs), v) == WithCount(xs, v)
  {
    var keep := CountIs<T>(v);
    if xs != [] {
      var xs' := xs[..|xs| - 1];
      var x := xs[|xs| - 1];
      assert xs == xs' + [x];
      SortByCountStable(xs', v);
      InsertByCountStable(x, SortByCount(xs'), v);
      FilterAppend(xs', [x], keep);
    }
  }

  // ----- distinctness under filtering and sorting -----

  /** In a list without repeats each element occurs at most once. */
  lemma {:induction false} DistinctOnce<T>(xs: seq<T>, x: T)
    requires Distinct(xs)
    ensures multiset(xs)[x] <= 1
  {
    if xs != [] {
      var xs' := xs[..|xs| - 1];
      assert xs == xs' + [xs[|xs| - 1]];
      assert Distinct(xs');
      DistinctOnce(xs', x);
      if x == xs[|xs| - 1] {
        assert x !in xs';
      }
    }
  }

  /** An element found at two indices is counted twice. */
  lemma TwiceCounted<T>(xs: seq<T>, i: nat, j: nat)
    requires i < j < |xs| && xs[i] == xs[j]
    ensures multiset(xs)[xs[i]] >= 2
  {
    assert xs == xs[..j] + [xs[j]] + xs[j + 1..];
    assert xs[..j][i] == xs[i];
    assert xs[i] in multiset(xs[..j]);
  }

  /** A permutation of a list without repeats has no repeats. */
  lemma PermutationDistinct<T>(a: seq<T>, b: seq<T>)
    requires multiset(a) == multiset(b) && Distinct(a)
    ensures Distinct(b)
  {
    forall i, j | 0 <= i < j < |b|
      ensures b[i] != b[j]
    {
      if b[i] == b[j] {
        TwiceCounted(b, i, j);
        DistinctOnce(a, b[i]);
      }
    }
  }

  /** Pairs whose items differ are different pairs. */
  lemma DistinctItemsDistinct<T>(xs: seq<Counted<T>>)
    requires Distinct(Items(xs))
    ensures Distinct(xs)
  {
    forall i, j | 0 <= i < j < |xs|
      ensures xs[i] != xs[j]
    {
      assert Items(xs)[i] != Items(xs)[j];
    }
  }

  /** Distinct pairs drawn from a list with distinct items have distinct
      items. */
  lemma DrawnDistinctItems<T>(r: seq<Counted<T>>, xs: seq<Counted<T>>)
    requires Distinct(Items(xs)) && Distinct(r)
    requires forall i | 0 <= i < |r| :: r[i] in xs
    ensures Distinct(Items(r))
  {
    forall i, j | 0 <= i < j < |r|
      ensures Items(r)[i] != Items(r)[j]
    {
      var a :| 0 <= a < |xs| && xs[a] == r[i];
      var b :| 0 <= b < |xs| && xs[b] == r[j];
      assert a != b;
      assert Items(xs)[a] != Items(xs)[b];
    }
  }

  /** Filtering keeps the items distinct. */
  lemma FilterDistinctItems<T>(xs: seq<Counted<T>>, keep: Counted<T> -> bool)
    requires Distinct(Items(xs))
    ensures Distinct(Items(Filter(xs, keep)))
  {
    DistinctItemsDistinct(xs);
    FilterDistinct(xs, keep);
    DrawnDistinctItems(Filter(xs, keep), xs);
  }

  /** Sorting keeps the items distinct. */
  lemma SortDistinctItems<T>(xs: seq<Counted<T>>)
    requires Distinct(Items(xs))
    ensures Distinct(Items(SortByCount(xs)))
  {
    var r := SortByCount(xs);
    DistinctItemsDistinct(xs);
    PermutationDistinct(xs, r);
    forall i | 0 <= i < |r|
      ensures r[i] in xs
    {
      assert r[i] in multiset(r);
    }
    DrawnDistinctItems(r, xs);
  }

  /** The item of a listed pair is among the items. */
  lemma ItemListed<T>(xs: seq<Counted<T>>, e: Counted<T>)
    requires e in xs
    ensures e.item in Items(xs)
  {
    var k :| 0 <= k < |xs| && xs[k] == e;
    assert Items(xs)[k] == e.item;
  }

  // ----- tallies -----

  /** Each item paired with its count, in order. */
  function Tally<T>(items: seq<T>, count: T -> nat): (r: seq<Counted<T>>)
    ensures |r| == |items|
    ensures Items(r) == items
    ensures forall i | 0 <= i < |r| :: r[i].count == count(items[i])
  {
    if items == [] then []
    else
      var r := Tally(items[..|items| - 1], count) + [Counted(items[|items| - 1], count(items[|items| - 1]))];
      assert Items(r) == Items(r[..|r| - 1]) + [r[|r| - 1].item];
      assert items == items[..|items| - 1] + [items[|items| - 1]];
      r
  }

  /** The distinct items of `items`, each with its count, kept when `keep`
      accepts the pair, ordered by descending count with ties in order of
      first appearance: a dict filled while walking `items`, pruned, and
      passed to `sorted(..., key=lambda item: -item[1])`. */
  function Ranked<T(==)>(items: seq<T>, count: T -> nat, keep: Counted<T> -> bool): (r: seq<Counted<T>>)
    ensures NonIncreasing(r)
    ensures Distinct(Items(r))
    ensures forall i | 0 <= i < |r| :: r[i].item in items && r[i].count == count(r[i].item) && keep(r[i])
    ensures forall i | 0 <= i < |items| && keep(Counted(items[i], count(items[i]))) :: items[i] in Items(r)
  {
    var seen := FirstSeen(items);
    var tally := Tally(seen, count);
    var kept := Filter(tally, keep);
    FilterDistinctItems(tally, keep);
    SortDistinctItems(kept);
    var r := SortByCount(kept);
    SortedFromList(kept);
    forall i | 0 <= i < |r|
      ensures r[i].item in items && r[i].count == count(r[i].item) && keep(r[i])
    {
      TallyMember(seen, count, r[i]);
    }
    forall i | 0 <= i < |items| && keep(Counted(items[i], count(items[i])))
      ensures items[i] in Items(r)
    {
      TallyComplete(seen, count, items[i]);
      SortedHasListed(kept, Counted(items[i], count(items[i])));
      ItemListed(r, Counted(items[i], count(items[i])));
    }
    r
  }

  /** Every sorted pair was in the list. */
  lemma SortedFromList<T>(xs: seq<Counted<T>>)
    ensures forall i | 0 <= i < |SortByCount(xs)| :: SortByCount(xs)[i] in xs
  {
    var r := SortByCount(xs);
    forall i | 0 <= i < |r|
      ensures r[i] in xs
    {
      assert r[i] in multiset(r);
    }
  }

  /** Every listed pair is sorted. */
  lemma SortedHasListed<T>(xs: seq<Counted<T>>, e: Counted<T>)
    requires e in xs
    ensures e in SortByCount(xs)
  {
    assert e in multiset(SortByCount(xs));
  }

  /** A tallied pair holds a listed item and its count. */
  lemma TallyMember<T>(d: seq<T>, count: T -> nat, e: Counted<T>)
    requires e in Tally(d, count)
    ensures e.item in d && e.count == count(e.item)
  {
    var t := Tally(d, count);
    var a :| 0 <= a < |t| && t[a] == e;
    assert Items(t)[a] == d[a];
  }

  /** Every listed item is tallied. */
  lemma TallyComplete<T>(d: seq<T>, count: T -> nat, x: T)
    requires x in d
    ensures Counted(x, count(x)) in Tally(d, count)
  {
    var t := Tally(d, count);
    var a :| 0 <= a < |d| && d[a] == x;
    assert Items(t)[a] == d[a];
    assert t[a] == Counted(x, count(x));
  }

  /** Keep every pair. */
  function KeepAll<T>(): Counted<T> -> bool {
    (e: Counted<T>) => true
  }

  /** A filter that keeps everything is the identity. */
  lemma {:induction false} FilterAll<T>(xs: seq<T>, keep: T -> bool)
    requires forall x :: keep(x)
    ensures Filter(xs, keep) == xs
  {
    if xs != [] {
      FilterAll(xs[..|xs| - 1], keep);
      assert xs == xs[..|xs| - 1] + [xs[|xs| - 1]];
    }
  }

  /** `xs.count`: how often a value occurs in `xs`. */
  function CountIn<T(==)>(xs: seq<T>): T -> nat {
    (x: T) => multiset(xs)[x]
  }

  lemma CountsSnoc<T>(xs: seq<Counted<T>>, e: Counted<T>)
    ensures Counts(xs + [e]) == Counts(xs) + [e.count]
  {
    assert (xs + [e])[..|xs|] == xs;
  }

  /** One more occurrence of `x` adds one to the tally of each listed `x`. */
  lemma {:induction false} TallySumSnoc<T>(d: seq<T>, xs: seq<T>, x: T)
    ensures Sum(Counts(Tally(d, CountIn(xs + [x])))) == Sum(Counts(Tally(d, CountIn(xs)))) + multiset(d)[x]
  {
    if d != [] {
      var d' := d[..|d| - 1];
      var y := d[|d| - 1];
      assert d == d' + [y];
      TallySumSnoc(d', xs, x);
      CountsSnoc(Tally(d', CountIn(xs + [x])), Counted(y, CountIn(xs + [x])(y)));
      CountsSnoc(Tally(d', CountIn(xs)), Counted(y, CountIn(xs)(y)));
    }
  }

  /** Tallying every distinct item accounts for every element once. */
  lemma {:induction false} TallyAll<T>(xs: seq<T>)
    ensures Sum(Counts(Tally(FirstSeen(xs), CountIn(xs)))) == |xs|
  {
    if xs != [] {
      var xs' := xs[..|xs| - 1];
      var x := xs[|xs| - 1];
      assert xs == xs' + [x];
      var d := FirstSeen(xs');
      TallyAll(xs');
      TallySumSnoc(d, xs', x);
      if x in d {
        TallyAllSeen(xs', x, d);
      } else {
        TallyAllNew(xs', x, d);
      }
    }
  }

  lemma TallyAllSeen<T>(xs': seq<T>, x: T, d: seq<T>)
    requires d == FirstSeen(xs') && x in d
    requires Sum(Counts(Tally(d, CountIn(xs')))) == |xs'|
    requires Sum(Counts(Tally(d, CountIn(xs' + [x])))) == Sum(Counts(Tally(d, CountIn(xs')))) + multiset(d)[x]
    ensures Sum(Counts(Tally(FirstSeen(xs' + [x]), CountIn(xs' + [x])))) == |xs' + [x]|
  {
    SeenAgain(xs', x, d);
    DistinctOnce(d, x);
    assert multiset(d)[x] == 1;
  }

  lemma TallySnoc<T>(d: seq<T>, c: T -> nat, x: T)
    ensures Tally(d + [x], c) == Tally(d, c) + [Counted(x, c(x))]
  {
    assert (d + [x])[..|d|] == d;
  }

  lemma SeenAgain<T>(xs': seq<T>, x: T, d: seq<T>)
    requires d == FirstSeen(xs') && x in d
    ensures FirstSeen(xs' + [x]) == d
  {
    assert (xs' + [x])[..|xs'|] == xs';
  }

  lemma SeenNew<T>(xs': seq<T>, x: T, d: seq<T>)
    requires d == FirstSeen(xs') && x !in d
    ensures FirstSeen(xs' + [x]) == d + [x]
  {
    assert (xs' + [x])[..|xs'|] == xs';
  }

  lemma TallyAllNew<T>(xs': seq<T>, x: T, d: seq<T>)
    requires d == FirstSeen(xs') && x !in d
    requires Sum(Counts(Tally(d, CountIn(xs')))) == |xs'|
    requires Sum(Counts(Tally(d, CountIn(xs' + [x])))) == Sum(Counts(Tally(d, CountIn(xs')))) + multiset(d)[x]
    ensures Sum(Counts(Tally(FirstSeen(xs' + [x]), CountIn(xs' + [x])))) == |xs' + [x]|
  {
    SeenNew(xs', x, d);
    SeenOnce(xs', x, d);
    assert multiset(d)[x] == 0;
    TallyExtend(d, CountIn(xs' + [x]), x, |xs'|);
  }

  /** An item not seen before occurs once after it is appended. */
  lemma SeenOnce<T>(xs': seq<T>, x: T, d: seq<T>)
    requires d == FirstSeen(xs') && x !in d
    ensures CountIn(xs' + [x])(x) == 1
  {
    assert x !in multiset(xs');
    assert multiset(xs' + [x]) == multiset(xs') + multiset{x};
  }

  /** Tallying one more item adds its count to the total. */
  lemma TallyExtend<T>(d: seq<T>, c: T -> nat, x: T, total: nat)
    requires Sum(Counts(Tally(d, c))) == total
    ensures Sum(Counts(Tally(d + [x], c))) == total + c(x)
  {
    TallySnoc(d, c, x);
    CountsSnoc(Tally(d, c), Counted(x, c(x)));
    SumSnoc(Counts(Tally(d, c)), c(x));
  }

  lemma SumSnoc(s: seq<nat>, n: nat)
    ensures Sum(s + [n]) == Sum(s) + n
  {
    assert (s + [n])[..|s|] == s;
  }
}
