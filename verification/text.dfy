/** Text helpers of the analyser: normalisation (core.py:261-268), the `find`
    loop listing where a fragment occurs (core.py:243-259), re-insertion of
    spaces (core.py:441-449) and column slicing (core.py:370-371). */
module Text {
  import opened Alphabet

  /** The capitals of the alphabet, in the order of ALPHABET. */
  const CAPITALS: string := "АБВГДЕЁЖЗИЙКЛМНОПРСТУФХЦЧШЩЪЫЬЭЮЯ"

  /** `c in CAPITALS`: Ё (U+0401) or А..Я (U+0410..U+042F). */
  predicate IsCapital(c: char) {
    c == 'Ё' || ('А' <= c <= 'Я')
  }

  /** `str.lower()` on the characters that matter here: the Cyrillic capitals
      А..Я (U+0410..U+042F) and Ё (U+0401) become the letters of the alphabet;
      every other character is returned unchanged. */
  function Lower(c: char): (r: char)
    ensures IsLetter(c) ==> r == c
    ensures IsCapital(c) ==> IsLetter(r)
    ensures !IsCapital(c) ==> r == c
  {
    if 'А' <= c <= 'Я' then (c as int + 0x20) as char
    else if c == 'Ё' then 'ё'
    else c
  }

  /** The i-th capital of CAPITALS: А..Е are U+0410..U+0415, Ё is U+0401,
      and Ж..Я are U+0416..U+042F. */
  function Capital(i: nat): (c: char)
    requires i < N
  {
    if i < 6 then (0x410 + i) as char
    else if i == 6 then 'Ё'
    else (0x40F + i) as char
  }

  /** The string constant spells out the capitals in the order of the
      alphabet. */
  lemma CapitalsIndexed()
    ensures |CAPITALS| == N
    ensures forall i | 0 <= i < N :: CAPITALS[i] == Capital(i)
  {
    forall i | 0 <= i < 6
      ensures CAPITALS[i] == Capital(i)
    {
    }
    forall i | 7 <= i < N
      ensures CAPITALS[i] == Capital(i)
    {
    }
  }

  /** The characters of CAPITALS are exactly the capitals. */
  lemma CapitalsAgree()
    ensures forall c :: c in CAPITALS <==> IsCapital(c)
  {
    CapitalsIndexed();
    forall c | IsCapital(c)
      ensures c in CAPITALS
    {
      if c == 'Ё' {
        assert CAPITALS[6] == c;
      } else if c as int <= 0x415 {
        assert CAPITALS[c as int - 0x410] == c;
      } else {
        assert CAPITALS[c as int - 0x40F] == c;
      }
    }
  }

  /** Each capital lowers to the letter in the same place of the alphabet,
      and a character lowers to a letter exactly when it is a letter or a
      capital. */
  lemma LowerCapitals()
    ensures |CAPITALS| == N
    ensures forall i | 0 <= i < N :: Lower(CAPITALS[i]) == ALPHABET[i]
    ensures forall c :: c in CAPITALS <==> IsCapital(c)
    ensures forall c :: IsLetter(Lower(c)) <==> IsLetter(c) || c in CAPITALS
  {
    AlphabetIndexed();
    CapitalsIndexed();
    forall i | 0 <= i < N
      ensures Lower(CAPITALS[i]) == ALPHABET[i]
    {
      assert Lower(Capital(i)) == Letter(i);
    }
    CapitalsAgree();
  }

  /** `_prepare_text`: lower-case the text and keep only the letters of the
      alphabet (`strip` is subsumed, since whitespace is never a letter). */
  function Prepare(text: string): (r: string)
    ensures OverAlphabet(r)
    ensures |r| <= |text|
  {
    if text == [] then []
    else
      var c := Lower(text[0]);
      (if IsLetter(c) then [c] else []) + Prepare(text[1..])
  }

  /** One character is kept, lowered, exactly when it lowers to a letter. */
  lemma PrepareChar(c: char)
    ensures Prepare([c]) == if IsLetter(Lower(c)) then [Lower(c)] else []
  {
    assert [c][1..] == [];
  }

  /** Normalisation works character by character: the text can be split
      anywhere, so every letter of the input is kept, in order. */
  lemma {:induction false} PrepareAppend(a: string, b: string)
    ensures Prepare(a + b) == Prepare(a) + Prepare(b)
  {
    if a != [] {
      assert (a + b)[0] == a[0];
      assert (a + b)[1..] == a[1..] + b;
      PrepareAppend(a[1..], b);
    } else {
      assert a + b == b;
    }
  }

  /** A space inserted anywhere is dropped again by normalisation. */
  lemma PrepareInsertSpace(s: string, p: nat)
    ensures Prepare(InsertAt(s, p, ' ')) == Prepare(s)
  {
    NotLetters();
    PrepareChar(' ');
    if p < |s| {
      assert InsertAt(s, p, ' ') == s[..p] + ([' '] + s[p..]);
      PrepareAppend(s[..p], [' '] + s[p..]);
      PrepareAppend([' '], s[p..]);
      PrepareAppend(s[..p], s[p..]);
      assert s[..p] + s[p..] == s;
    } else {
      PrepareAppend(s, [' ']);
    }
  }

  /** Re-inserting spaces changes nothing that normalisation keeps. */
  lemma {:induction false} PrepareInsertSpaces(s: string, ps: seq<nat>)
    ensures Prepare(InsertChar(s, ' ', ps)) == Prepare(s)
    decreases |ps|
  {
    if ps != [] {
      PrepareInsertSpaces(InsertAt(s, ps[0], ' '), ps[1..]);
      PrepareInsertSpace(s, ps[0]);
    }
  }

  /** Text that is already normalised passes through unchanged. */
  lemma {:induction false} PrepareKeepsLetters(text: string)
    requires OverAlphabet(text)
    ensures Prepare(text) == text
  {
    if text != [] {
      assert OverAlphabet(text[1..]);
      PrepareKeepsLetters(text[1..]);
    }
  }

  /** Normalising twice is normalising once. */
  lemma PrepareIdempotent(text: string)
    ensures Prepare(Prepare(text)) == Prepare(text)
  {
    PrepareKeepsLetters(Prepare(text));
  }

  // ----- occurrences of a fragment -----

  /** `sub` occurs in `s` starting at index `i`. */
  predicate MatchAt(s: string, sub: string, i: nat) {
    i + |sub| <= |s| && s[i..i + |sub|] == sub
  }

  /** `s.find(sub, start)`: the lowest index from `start` on where `sub`
      occurs, or -1. */
  function Find(s: string, sub: string, start: nat): (r: int)
    ensures r == -1 || (start <= r && MatchAt(s, sub, r))
    ensures r == -1 ==> forall i | start <= i :: !MatchAt(s, sub, i)
    ensures r != -1 ==> forall i | start <= i < r :: !MatchAt(s, sub, i)
    decreases |s| + 1 - start
  {
    if start > |s| then -1
    else if MatchAt(s, sub, start) then start
    else Find(s, sub, start + 1)
  }

  /** Every index from `from` on where `sub` occurs, ascending; occurrences
      may overlap. */
  function OccurrencesFrom(s: string, sub: string, from: nat): seq<nat>
    decreases |s| + 1 - from
  {
    if from > |s| then []
    else (if MatchAt(s, sub, from) then [from] else []) + OccurrencesFrom(s, sub, from + 1)
  }

  /** The occurrence list holds exactly the matching indices, ascending. */
  lemma {:induction false} OccurrencesFromSpec(s: string, sub: string, from: nat)
    ensures forall k | 0 <= k < |OccurrencesFrom(s, sub, from)| ::
      from <= OccurrencesFrom(s, sub, from)[k] && MatchAt(s, sub, OccurrencesFrom(s, sub, from)[k])
    ensures forall i | from <= i && MatchAt(s, sub, i) :: i in OccurrencesFrom(s, sub, from)
    ensures forall k, l | 0 <= k < l < |OccurrencesFrom(s, sub, from)| ::
      OccurrencesFrom(s, sub, from)[k] < OccurrencesFrom(s, sub, from)[l]
    decreases |s| + 1 - from
  {
    if from <= |s| {
      OccurrencesFromSpec(s, sub, from + 1);
      var r' := OccurrencesFrom(s, sub, from + 1);
      var h: seq<nat> := if MatchAt(s, sub, from) then [from] else [];
      var r := h + r';
      assert OccurrencesFrom(s, sub, from) == r;
      forall i | from <= i && MatchAt(s, sub, i)
        ensures i in r
      {
        if i == from {
          assert r[0] == from;
        } else {
          assert i in r';
        }
      }
      forall k, l | 0 <= k < l < |r|
        ensures r[k] < r[l]
      {
        if k < |h| {
          assert r[l] == r'[l - |h|];
        }
      }
    }
  }

  function Occurrences(s: string, sub: string): seq<nat> {
    OccurrencesFrom(s, sub, 0)
  }

  /** The occurrences from `from` on are the one `find` reports, followed by
      those after it. */
  lemma {:induction false} OccurrencesFind(s: string, sub: string, from: nat)
    ensures Find(s, sub, from) == -1 ==> OccurrencesFrom(s, sub, from) == []
    ensures Find(s, sub, from) != -1 ==>
      OccurrencesFrom(s, sub, from)
        == [Find(s, sub, from)] + OccurrencesFrom(s, sub, Find(s, sub, from) + 1)
    decreases |s| + 1 - from
  {
    if from > |s| {
      assert Find(s, sub, from) == -1;
    } else if MatchAt(s, sub, from) {
      assert Find(s, sub, from) == from;
      assert OccurrencesFrom(s, sub, from) == [from] + OccurrencesFrom(s, sub, from + 1);
    } else {
      assert Find(s, sub, from) == Find(s, sub, from + 1);
      assert OccurrencesFrom(s, sub, from) == OccurrencesFrom(s, sub, from + 1);
      OccurrencesFind(s, sub, from + 1);
    }
  }

  /** `_get_char_positions`: the ascending indices at which `c` occurs, found
      by repeated `find` from one past the previous hit. */
  method CharPositions(s: string, c: char) returns (positions: seq<nat>)
    ensures positions == Occurrences(s, [c])
    ensures forall k | 0 <= k < |positions| :: positions[k] < |s| && s[positions[k]] == c
    ensures forall i | 0 <= i < |s| && s[i] == c :: i in positions
    ensures forall k, l | 0 <= k < l < |positions| :: positions[k] < positions[l]
  {
    positions := [];
    var index := -1;
    while true
      invariant -1 <= index <= |s|
      invariant positions + OccurrencesFrom(s, [c], index + 1) == Occurrences(s, [c])
      decreases |s| - index
    {
      FindStep(s, [c], positions, index + 1, Occurrences(s, [c]));
      index := Find(s, [c], index + 1);
      if index != -1 {
        positions := positions + [index];
      } else {
        break;
      }
    }
    CharOccurrences(s, c);
  }

  /** One round of the repeated `find`: the hit extends the occurrences found
      so far, and a miss means they are all found. */
  lemma FindStep(s: string, sub: string, done: seq<nat>, from: nat, all: seq<nat>)
    requires done + OccurrencesFrom(s, sub, from) == all
    ensures Find(s, sub, from) == -1 ==> done == all
    ensures Find(s, sub, from) != -1 ==>
      (done + [Find(s, sub, from)]) + OccurrencesFrom(s, sub, Find(s, sub, from) + 1) == all
  {
    OccurrencesFind(s, sub, from);
    var f := Find(s, sub, from);
    if f != -1 {
      var rest := OccurrencesFrom(s, sub, f + 1);
      assert (done + [f]) + rest == done + ([f] + rest);
    }
  }

  /** The occurrences of a one-character fragment are the indices holding
      that character. */
  lemma CharOccurrences(s: string, c: char)
    ensures forall k | 0 <= k < |Occurrences(s, [c])| ::
      Occurrences(s, [c])[k] < |s| && s[Occurrences(s, [c])[k]] == c
    ensures forall i | 0 <= i < |s| && s[i] == c :: i in Occurrences(s, [c])
    ensures forall k, l | 0 <= k < l < |Occurrences(s, [c])| ::
      Occurrences(s, [c])[k] < Occurrences(s, [c])[l]
  {
    var r := Occurrences(s, [c]);
    assert r == OccurrencesFrom(s, [c], 0);
    OccurrencesFromSpec(s, [c], 0);
    forall i | 0 <= i < |s| && s[i] == c
      ensures i in r
    {
      assert s[i..i + 1] == [c];
      assert MatchAt(s, [c], i);
    }
    forall k | 0 <= k < |r|
      ensures r[k] < |s| && s[r[k]] == c
    {
      assert MatchAt(s, [c], r[k]);
      assert s[r[k]..r[k] + 1][0] == s[r[k]];
    }
  }

  /** `_get_spaces_positions`. */
  function SpacePositions(s: string): seq<nat> {
    Occurrences(s, " ")
  }

  // ----- re-inserting spaces -----

  /** `list.insert(p, c)`: `c` lands at index `p`, or at the end when `p` is
      past it; everything from there on moves one place right. */
  function InsertAt(s: string, p: nat, c: char): (r: string)
    ensures |r| == |s| + 1
  {
    if p < |s| then s[..p] + [c] + s[p..] else s + [c]
  }

  /** `_insert_char`: insert `c` at each listed position in turn. */
  function InsertChar(s: string, c: char, positions: seq<nat>): (r: string)
    ensures |r| == |s| + |positions|
    decreases |positions|
  {
    if positions == [] then s
    else InsertChar(InsertAt(s, positions[0], c), c, positions[1..])
  }

  /** Every position moved one place right. */
  function Shift(ps: seq<nat>): (r: seq<nat>)
    ensures |r| == |ps|
    ensures forall k | 0 <= k < |ps| :: r[k] == ps[k] + 1
  {
    if ps == [] then [] else [ps[0] + 1] + Shift(ps[1..])
  }

  /** Prefixing one character and shifting all positions by one inserts the
      same characters behind that prefix. */
  lemma {:induction false} InsertCharShift(a: char, s: string, c: char, ps: seq<nat>)
    ensures InsertChar([a] + s, c, Shift(ps)) == [a] + InsertChar(s, c, ps)
    decreases |ps|
  {
    if ps != [] {
      var p := ps[0];
      assert Shift(ps)[1..] == Shift(ps[1..]);
      InsertAtCons(a, s, p, c);
      InsertCharShift(a, InsertAt(s, p, c), c, ps[1..]);
    }
  }

  /** Inserting one place further into a string with one more character in
      front inserts behind that character. */
  lemma InsertAtCons(a: char, s: string, p: nat, c: char)
    ensures InsertAt([a] + s, p + 1, c) == [a] + InsertAt(s, p, c)
  {
    if p < |s| {
      assert ([a] + s)[..p + 1] == [a] + s[..p];
      assert ([a] + s)[p + 1..] == s[p..];
    }
  }

  /** For a one-character fragment, prefixing a character shifts every
      occurrence by one and adds index 0 when the prefix is that character. */
  lemma {:induction false} OccurrencesFromCons(x: char, t: string, c: char, i: nat)
    requires i <= |t|
    ensures OccurrencesFrom([x] + t, [c], i + 1) == Shift(OccurrencesFrom(t, [c], i))
    decreases |t| - i
  {
    var xt := [x] + t;
    if i < |t| {
      assert xt[i + 1..i + 2] == t[i..i + 1];
      assert MatchAt(xt, [c], i + 1) == MatchAt(t, [c], i);
      OccurrencesFromCons(x, t, c, i + 1);
      var h: seq<nat> := if MatchAt(t, [c], i) then [i] else [];
      ShiftAppend(h, OccurrencesFrom(t, [c], i + 1));
    } else {
      assert !MatchAt(xt, [c], i + 1);
      assert !MatchAt(t, [c], i);
      assert OccurrencesFrom(xt, [c], i + 2) == [];
      assert OccurrencesFrom(t, [c], i + 1) == [];
    }
  }

  lemma {:induction false} ShiftAppend(a: seq<nat>, b: seq<nat>)
    ensures Shift(a + b) == Shift(a) + Shift(b)
  {
    if a != [] {
      assert (a + b)[1..] == a[1..] + b;
      ShiftAppend(a[1..], b);
    } else {
      assert a + b == b;
    }
  }

  lemma OccurrencesCons(x: char, t: string, c: char)
    ensures Occurrences([x] + t, [c])
         == (if x == c then [0] else []) + Shift(Occurrences(t, [c]))
  {
    OccurrencesFromCons(x, t, c, 0);
    assert ([x] + t)[0..1] == [x];
  }

  /** Number of non-space characters. */
  function NonSpaceCount(t: string): nat {
    if t == [] then 0 else (if t[0] == ' ' then 0 else 1) + NonSpaceCount(t[1..])
  }

  /** The text `t` with its non-space characters replaced, in order, by those of
      `s`: the spaces of `t` stay where they were. */
  function WithSpacesOf(t: string, s: string): (r: string)
    requires |s| == NonSpaceCount(t)
    ensures |r| == |t|
  {
    if t == [] then []
    else if t[0] == ' ' then [' '] + WithSpacesOf(t[1..], s)
    else [s[0]] + WithSpacesOf(t[1..], s[1..])
  }

  /** Inserting spaces at the space positions of `t` lays `s` out with the
      spacing of `t`. */
  lemma {:induction false} InsertSpacesLayout(t: string, s: string)
    requires |s| == NonSpaceCount(t)
    ensures InsertChar(s, ' ', SpacePositions(t)) == WithSpacesOf(t, s)
  {
    if t != [] {
      var t' := t[1..];
      assert t == [t[0]] + t';
      OccurrencesCons(t[0], t', ' ');
      var ps := SpacePositions(t');
      if t[0] == ' ' {
        assert SpacePositions(t) == [0] + Shift(ps);
        assert InsertAt(s, 0, ' ') == [' '] + s;
        assert ([0] + Shift(ps))[1..] == Shift(ps);
        InsertCharShift(' ', s, ' ', ps);
        InsertSpacesLayout(t', s);
      } else {
        assert SpacePositions(t) == Shift(ps);
        assert s == [s[0]] + s[1..];
        InsertCharShift(s[0], s[1..], ' ', ps);
        InsertSpacesLayout(t', s[1..]);
      }
    } else {
      assert OccurrencesFrom(t, " ", 1) == [];
      assert SpacePositions(t) == [];
    }
  }

  /** Text made of letters and spaces only. */
  predicate LettersAndSpaces(t: string) {
    forall i | 0 <= i < |t| :: t[i] == ' ' || IsLetter(t[i])
  }

  /** Normalising such text removes exactly its spaces. */
  lemma {:induction false} PrepareCount(t: string)
    requires LettersAndSpaces(t)
    ensures |Prepare(t)| == NonSpaceCount(t)
  {
    if t != [] {
      NotLetters();
      assert LettersAndSpaces(t[1..]);
      PrepareCount(t[1..]);
    }
  }

  /** Laying the normalised text out with the original spacing gives the text
      back. */
  lemma {:induction false} LayoutRestores(t: string)
    requires LettersAndSpaces(t)
    ensures |Prepare(t)| == NonSpaceCount(t)
    ensures WithSpacesOf(t, Prepare(t)) == t
  {
    PrepareCount(t);
    if t != [] {
      NotLetters();
      var t' := t[1..];
      assert LettersAndSpaces(t');
      LayoutRestores(t');
      if t[0] == ' ' {
        assert Prepare(t) == Prepare(t');
      } else {
        assert Prepare(t) == [t[0]] + Prepare(t');
        assert Prepare(t)[1..] == Prepare(t');
      }
      assert t == [t[0]] + t';
    }
  }

  /** Laying letters out with the spacing of `t` keeps those spaces and
      normalises back to the letters. */
  lemma {:induction false} LayoutKeeps(t: string, s: string)
    requires |s| == NonSpaceCount(t)
    requires OverAlphabet(s)
    ensures LettersAndSpaces(WithSpacesOf(t, s))
    ensures SpacePositions(WithSpacesOf(t, s)) == SpacePositions(t)
    ensures Prepare(WithSpacesOf(t, s)) == s
  {
    NotLetters();
    if t != [] {
      var t' := t[1..];
      var r := WithSpacesOf(t, s);
      assert t == [t[0]] + t';
      OccurrencesCons(t[0], t', ' ');
      if t[0] == ' ' {
        LayoutKeeps(t', s);
        assert r == [' '] + WithSpacesOf(t', s);
        OccurrencesCons(' ', WithSpacesOf(t', s), ' ');
      } else {
        assert OverAlphabet(s[1..]);
        LayoutKeeps(t', s[1..]);
        assert r == [s[0]] + WithSpacesOf(t', s[1..]);
        OccurrencesCons(s[0], WithSpacesOf(t', s[1..]), ' ');
        assert s == [s[0]] + s[1..];
      }
    }
  }

  // ----- columns -----

  /** `text[position::step]`: the characters at `position`, `position + step`,
      `position + 2 * step`, ... up to the end of the text. */
  function Every(text: string, position: nat, step: nat): (r: string)
    requires step > 0
    ensures |r| == 0 <==> position >= |text|
    ensures position < |text| ==> position + |r| <= |text|
    ensures OverAlphabet(text) ==> OverAlphabet(r)
    decreases |text| - position
  {
    if position >= |text| then [] else [text[position]] + Every(text, position + step, step)
  }

  /** Letter `k` of a column is text letter `position + k * step`. */
  lemma {:induction false} EveryAt(text: string, position: nat, step: nat, k: nat)
    requires step > 0 && k < |Every(text, position, step)|
    ensures position + k * step < |text|
    ensures Every(text, position, step)[k] == text[position + k * step]
    decreases |text| - position
  {
    if k > 0 {
      EveryAt(text, position + step, step, k - 1);
      MulStep(k, step);
    }
  }

  /** A column runs to the end of the text: one more step would leave it. */
  lemma {:induction false} EveryEnd(text: string, position: nat, step: nat)
    requires step > 0
    ensures position + |Every(text, position, step)| * step >= |text|
    decreases |text| - position
  {
    if position < |text| {
      EveryEnd(text, position + step, step);
      var n := |Every(text, position + step, step)|;
      assert |Every(text, position, step)| == n + 1;
      MulStep(n + 1, step);
    }
  }

  lemma MulStep(k: int, step: int)
    ensures k * step == step + (k - 1) * step
  {
  }
}
