/** Canonical composition (D115 and D117, section 3.11 of the Unicode Standard), as the
    driver does it in place on a canonically ordered array. */
module Composition {
  import opened CanonicalOrdering
  import opened UnicodeTables

  // ---------------------------------------------------------------------------
  // The standard's algorithm, with its quantified "blocked" test.
  // ---------------------------------------------------------------------------

  /** The index of the last starter of `s`, -1 when it holds marks only. */
  function LastStarter(ccc: Classes, s: seq<int>): (l: int)
    ensures -1 <= l < |s|
    ensures l >= 0 ==> ccc(s[l]) == 0
    ensures forall k :: l < k < |s| ==> ccc(s[k]) != 0
    decreases |s|
  {
    if s == [] then -1
    else if ccc(s[|s| - 1]) == 0 then |s| - 1
    else LastStarter(ccc, s[..|s| - 1])
  }

  /** D115: `c`, to be placed after `kept`, is blocked from the starter at `l`. */
  ghost predicate Blocked(ccc: Classes, kept: seq<int>, l: nat, c: int) {
    exists b :: l < b < |kept| && (ccc(kept[b]) == 0 || ccc(kept[b]) >= ccc(c))
  }

  /** Whether D117 merges `c` into the last starter of `kept`. */
  ghost predicate Merges(t: Tables, kept: seq<int>, c: int) {
    var l := LastStarter(t.cclass, kept);
    l >= 0 && !Blocked(t.cclass, kept, l, c) && Compose(t, kept[l], c) != 0
  }

  /** D117: each character of `rest` in turn is merged into the last starter or kept. */
  ghost function ComposeAll(t: Tables, kept: seq<int>, rest: seq<int>): (r: seq<int>)
    decreases |rest|
  {
    if rest == [] then kept
    else
      var c, l := rest[0], LastStarter(t.cclass, kept);
      if Merges(t, kept, c) then ComposeAll(t, kept[l := Compose(t, kept[l], c)], rest[1..])
      else ComposeAll(t, kept + [c], rest[1..])
  }

  /** How many of the characters of `rest` are merged: the successful compositions. */
  ghost function MergeCount(t: Tables, kept: seq<int>, rest: seq<int>): (n: nat)
    decreases |rest|
  {
    if rest == [] then 0
    else
      var c, l := rest[0], LastStarter(t.cclass, kept);
      if Merges(t, kept, c) then 1 + MergeCount(t, kept[l := Compose(t, kept[l], c)], rest[1..])
      else MergeCount(t, kept + [c], rest[1..])
  }

  lemma {:induction false} ComposedLength(t: Tables, kept: seq<int>, rest: seq<int>)
    ensures |ComposeAll(t, kept, rest)| + MergeCount(t, kept, rest) == |kept| + |rest|
    decreases |rest|
  {
    if rest != [] {
      hide Merges, Compose;
      var c, l := rest[0], LastStarter(t.cclass, kept);
      if Merges(t, kept, c) {
        MergesIntoStarter(t, kept, c);
        ComposedLength(t, kept[l := Compose(t, kept[l], c)], rest[1..]);
      } else {
        ComposedLength(t, kept + [c], rest[1..]);
      }
    }
  }

  lemma {:induction false} MergesIntoStarter(t: Tables, kept: seq<int>, c: int)
    requires Merges(t, kept, c)
    ensures LastStarter(t.cclass, kept) >= 0
  {
  }

  // ---------------------------------------------------------------------------
  // D117 on the pairs themselves, without the tables.
  // ---------------------------------------------------------------------------

  ghost predicate PairMerges(ccc: Classes, pairs: Pairs, kept: seq<int>, c: int) {
    var l := LastStarter(ccc, kept);
    l >= 0 && !Blocked(ccc, kept, l, c) && Composite(pairs, kept[l], c) != 0
  }

  ghost function PairComposed(ccc: Classes, pairs: Pairs, kept: seq<int>, rest: seq<int>): (r: seq<int>)
    decreases |rest|
  {
    if rest == [] then kept
    else
      var c, l := rest[0], LastStarter(ccc, kept);
      if PairMerges(ccc, pairs, kept, c) then
        PairComposed(ccc, pairs, kept[l := Composite(pairs, kept[l], c)], rest[1..])
      else PairComposed(ccc, pairs, kept + [c], rest[1..])
  }

  /** With tables that encode the pairs, composition is D117 on the pairs. */
  lemma {:induction false} ComposedByPairs(t: Tables, pairs: Pairs, kept: seq<int>, rest: seq<int>)
    requires Encodes(t, pairs)
    ensures ComposeAll(t, kept, rest) == PairComposed(t.cclass, pairs, kept, rest)
    decreases |rest|
  {
    if rest != [] {
      hide Encodes, Compose, Composite, Blocked;
      var c, l := rest[0], LastStarter(t.cclass, kept);
      if l >= 0 { ComposeExactly(t, pairs, kept[l], c); }
      if Merges(t, kept, c) {
        ComposedByPairs(t, pairs, kept[l := Compose(t, kept[l], c)], rest[1..]);
      } else {
        ComposedByPairs(t, pairs, kept + [c], rest[1..]);
      }
    }
  }

  /** With the generated words of U+0065 and U+0301, the two are composed to U+00E9. */
  lemma {:induction false} AcuteComposed(t: Tables)
    requires t.cclass(0x65) == 0 && t.cclass(0x301) == 230
    requires t.compInfo(0x65) == Composed(false, false, 123) && t.compInfo(0x301) == Composed(false, true, 2)
    requires t.compBoth(123, 2) == 0xE9
    ensures ComposeAll(t, [], [0x65, 0x301]) == [0xE9]
  {
    assert [0x65, 0x301][1..] == [0x301] && [0x301][1..] == [] && [] + [0x65] == [0x65];
    assert LastStarter(t.cclass, []) == -1 && LastStarter(t.cclass, [0x65]) == 0;
    assert Compose(t, 0x65, 0x301) == 0xE9;
    assert !Merges(t, [], 0x65) && Merges(t, [0x65], 0x301);
    assert [0x65][0 := 0xE9] == [0xE9];
    assert ComposeAll(t, [0x65], [0x301]) == ComposeAll(t, [0xE9], []);
  }

  // ---------------------------------------------------------------------------
  // The in-place loop.
  // ---------------------------------------------------------------------------

  /** On an ordered string the last kept character alone decides whether `c` is blocked. */
  lemma {:induction false} BlockedByLast(ccc: Classes, kept: seq<int>, c: int)
    requires Ordered(ccc, kept) && LastStarter(ccc, kept) >= 0
    ensures var l := LastStarter(ccc, kept);
            Blocked(ccc, kept, l, c) <==> l < |kept| - 1 && ccc(kept[|kept| - 1]) >= ccc(c)
  {
    var l := LastStarter(ccc, kept);
    forall b | l < b < |kept| ensures ccc(kept[b]) <= ccc(kept[|kept| - 1]) {
      MarksAscend(ccc, kept, b);
    }
  }

  lemma {:induction false} MarksAscend(ccc: Classes, s: seq<int>, b: nat)
    requires Ordered(ccc, s) && b < |s| && forall k :: b < k < |s| ==> ccc(s[k]) != 0
    ensures ccc(s[b]) <= ccc(s[|s| - 1])
    decreases |s| - b
  {
    if b + 1 < |s| { MarksAscend(ccc, s, b + 1); }
  }

  lemma {:induction false} LastStarterUnique(ccc: Classes, s: seq<int>, l: nat)
    requires l < |s| && ccc(s[l]) == 0 && forall k :: l < k < |s| ==> ccc(s[k]) != 0
    ensures LastStarter(ccc, s) == l
  {
  }

  /** What relates the loop's variables to the string kept so far: `ch1` is held back at
      `starter`, and `prev` is the class of the last kept character. */
  ghost predicate Holds(t: Tables, kept: seq<int>, starter: int, ch1: int, prev: int) {
    && 0 <= starter < |kept| && kept[starter] == ch1
    && prev == t.cclass(kept[|kept| - 1])
    && (forall k :: starter < k < |kept| ==> t.cclass(kept[k]) != 0)
    && (starter == 0 || t.cclass(ch1) == 0)
    && Ordered(t.cclass, kept)
  }

  /** The driver's test is the standard's. */
  lemma {:induction false} GuardIsMerges(t: Tables, kept: seq<int>, starter: int, ch1: int, prev: int, c: int)
    requires Sound(t) && Holds(t, kept, starter, ch1, prev)
    ensures Merges(t, kept, c) <==> (prev == 0 || t.cclass(c) > prev) && Compose(t, ch1, c) != 0
    ensures t.cclass(ch1) == 0 ==> LastStarter(t.cclass, kept) == starter
    ensures t.cclass(ch1) != 0 ==> Compose(t, ch1, c) == 0 && LastStarter(t.cclass, kept) == -1
  {
    if t.cclass(ch1) == 0 {
      LastStarterUnique(t.cclass, kept, starter);
      BlockedByLast(t.cclass, kept, c);
    }
  }

  /** One turn of the loop that merges `was[i]`. */
  lemma {:induction false} MergeTurn(
    t: Tables, kept: seq<int>, starter: int, ch1: int, prev: int, was: seq<int>, i: nat)
    requires Sound(t) && Holds(t, kept, starter, ch1, prev) && i < |was|
    requires (prev == 0 || t.cclass(was[i]) > prev) && Compose(t, ch1, was[i]) != 0
    ensures var p := Compose(t, ch1, was[i]);
            && Holds(t, kept[starter := p], starter, p, prev)
            && ComposeAll(t, kept, was[i..]) == ComposeAll(t, kept[starter := p], was[i + 1..])
  {
    GuardIsMerges(t, kept, starter, ch1, prev, was[i]);
    assert was[i..][0] == was[i] && was[i..][1..] == was[i + 1..];
  }

  /** One turn of the loop that keeps `was[i]`. */
  lemma {:induction false} KeepTurn(t: Tables, kept: seq<int>, starter: int, ch1: int, prev: int, was: seq<int>, i: nat)
    requires Sound(t) && Holds(t, kept, starter, ch1, prev) && i < |was|
    requires !((prev == 0 || t.cclass(was[i]) > prev) && Compose(t, ch1, was[i]) != 0)
    ensures ComposeAll(t, kept, was[i..]) == ComposeAll(t, kept + [was[i]], was[i + 1..])
  {
    hide Holds, Ordered, Sound;
    GuardIsMerges(t, kept, starter, ch1, prev, was[i]);
    assert was[i..][0] == was[i] && was[i..][1..] == was[i + 1..];
  }

  lemma {:induction false} KeepHolds(
    t: Tables, kept: seq<int>, starter: int, ch1: int, prev: int, was: seq<int>, i: nat)
    requires Holds(t, kept, starter, ch1, prev) && Ordered(t.cclass, was)
    requires 0 < i < |was| && prev <= t.cclass(was[i - 1])
    ensures var c := was[i];
            if t.cclass(c) == 0 then Holds(t, kept + [c], |kept|, c, 0)
            else Holds(t, kept + [c], starter, ch1, t.cclass(c))
  {
  }

  lemma {:induction false} StartHolds(t: Tables, was: seq<int>)
    requires |was| > 0
    ensures Holds(t, [was[0]], 0, was[0], t.cclass(was[0]))
    ensures ComposeAll(t, [was[0]], was[1..]) == ComposeAll(t, [], was)
  {
    assert LastStarter(t.cclass, []) == -1 && [] + [was[0]] == [was[0]];
  }

  method ComposeInPlace(t: Tables, str: array<int>, len: nat) returns (compPos: nat)
    requires Sound(t) && 0 < len <= str.Length
    requires Ordered(t.cclass, str[..len])
    modifies str
    ensures 0 < compPos == len - MergeCount(t, [], old(str[..len]))
    ensures str[..compPos] == ComposeAll(t, [], old(str[..len]))
    ensures forall pairs :: Encodes(t, pairs) ==>
      str[..compPos] == PairComposed(t.cclass, pairs, [], old(str[..len]))
    ensures Ordered(t.cclass, str[..compPos])
  {
    hide ComposeAll, Compose, Sound, Ordered, MergeCount, Encodes, PairComposed;
    ghost var was := str[..len];
    ComposedLength(t, [], was);
    forall pairs | Encodes(t, pairs) ensures ComposeAll(t, [], was) == PairComposed(t.cclass, pairs, [], was) {
      ComposedByPairs(t, pairs, [], was);
    }
    compPos := 1;
    var starterPos := 0;
    var ch1 := str[0];
    var prev := t.cclass(ch1);
    ghost var kept := [ch1];
    StartHolds(t, was);
    var i := 1;
    while i < len
      invariant 1 <= compPos <= i <= len
      invariant |kept| == compPos && Holds(t, kept, starterPos, ch1, prev)
      invariant prev <= t.cclass(was[i - 1])
      invariant forall k :: 0 <= k < compPos && k != starterPos ==> str[k] == kept[k]
      invariant forall k :: i <= k < len ==> str[k] == was[k]
      invariant ComposeAll(t, kept, was[i..]) == ComposeAll(t, [], was)
    {
      var ch2 := str[i];
      var class2 := t.cclass(ch2);
      var composite := Compose(t, ch1, ch2);
      if (prev == 0 || class2 > prev) && composite != 0 {
        MergeTurn(t, kept, starterPos, ch1, prev, was, i);
        ch1 := composite;
        kept := kept[starterPos := composite];
      } else {
        KeepTurn(t, kept, starterPos, ch1, prev, was, i);
        KeepHolds(t, kept, starterPos, ch1, prev, was, i);
        kept := kept + [ch2];
        if class2 == 0 {
          str[starterPos] := ch1;
          starterPos := compPos;
          compPos := compPos + 1;
          ch1 := ch2;
          prev := 0;
        } else {
          str[compPos] := ch2;
          compPos := compPos + 1;
          prev := class2;
        }
      }
      i := i + 1;
    }
    str[starterPos] := ch1;
    assert str[..compPos] == kept;
    assert was[len..] == [];
    ComposeDone(t, kept);
  }

  lemma {:induction false} ComposeDone(t: Tables, kept: seq<int>)
    ensures ComposeAll(t, kept, []) == kept
  {
  }

  // ---------------------------------------------------------------------------
  // What composition means: it keeps the string canonically equivalent.
  // ---------------------------------------------------------------------------

  /** A full canonical decomposition of each character. */
  type Canon = int -> seq<int>

  ghost function Decomposed(canon: Canon, s: seq<int>): (r: seq<int>) {
    if s == [] then [] else canon(s[0]) + Decomposed(canon, s[1..])
  }

  /** Pairs compose only into characters that decompose back to the pair, U+11A7 after an
      LV syllable set aside. */
  ghost predicate Inverts(t: Tables, canon: Canon) {
    && canon(TBASE) == [TBASE]
    && forall a, b :: Compose(t, a, b) != 0 && !Swallows(a, b) ==> canon(Compose(t, a, b)) == canon(a) + canon(b)
  }

  ghost predicate MarksAtomic(t: Tables, canon: Canon, s: seq<int>) {
    forall i :: 0 <= i < |s| && t.cclass(s[i]) != 0 ==> canon(s[i]) == [s[i]]
  }

  /** How often composing `rest` onto `kept` merges U+11A7 into an LV syllable. */
  ghost function SwallowCount(t: Tables, kept: seq<int>, rest: seq<int>): (n: nat)
    decreases |rest|
  {
    if rest == [] then 0
    else
      var c, l := rest[0], LastStarter(t.cclass, kept);
      if Merges(t, kept, c) then
        (if Swallows(kept[l], c) then 1 else 0) + SwallowCount(t, kept[l := Compose(t, kept[l], c)], rest[1..])
      else SwallowCount(t, kept + [c], rest[1..])
  }

  // ---------------------------------------------------------------------------
  // Where U+11A7 is swallowed: after an LV syllable, given or composed from L and V.
  // ---------------------------------------------------------------------------

  /** U+11A7 stands at `n`, right after an LV syllable or after a leading consonant and a vowel. */
  predicate SwallowedAt(s: seq<int>, n: nat) {
    && 0 < n < |s| && s[n] == TBASE
    && (IsLV(s[n - 1]) || (n > 1 && IsL(s[n - 2]) && IsV(s[n - 1])))
  }

  ghost predicate Swallowing(s: seq<int>) {
    exists n :: SwallowedAt(s, n)
  }

  /** Composing `p` leaves an LV syllable last. */
  predicate EndsLV(p: seq<int>)
    decreases |p|
  {
    p != [] &&
    var c := p[|p| - 1];
    IsLV(c) || (IsV(c) && |p| > 1 && IsL(p[|p| - 2])) || (c == TBASE && EndsLV(p[..|p| - 1]))
  }

  /** What the string kept so far shows of the prefix it was composed from. */
  ghost predicate Shows(kept: seq<int>, p: seq<int>) {
    && (kept == [] <==> p == [])
    && (kept != [] ==> (IsL(kept[|kept| - 1]) <==> IsL(p[|p| - 1])) && (IsLV(kept[|kept| - 1]) <==> EndsLV(p)))
  }

  lemma {:induction false} EndsSnoc(p: seq<int>, c: int)
    ensures EndsLV(p + [c]) <==>
      IsLV(c) || (IsV(c) && p != [] && IsL(p[|p| - 1])) || (c == TBASE && EndsLV(p))
  {
    assert (p + [c])[..|p|] == p;
  }

  lemma {:induction false} LastIsStarter(ccc: Classes, kept: seq<int>)
    requires kept != [] && ccc(kept[|kept| - 1]) == 0
    ensures LastStarter(ccc, kept) == |kept| - 1
  {
  }

  /** A trailing Hangul letter merges exactly when it composes with what is kept last. */
  lemma {:induction false} HangulMerges(t: Tables, kept: seq<int>, c: int)
    requires HangulByRule(t) && Hangul(c)
    ensures Merges(t, kept, c) <==>
      kept != [] && ((IsL(kept[|kept| - 1]) && IsV(c)) || (IsLV(kept[|kept| - 1]) && IsT(c)))
    ensures Merges(t, kept, c) ==> LastStarter(t.cclass, kept) == |kept| - 1
  {
    var l := LastStarter(t.cclass, kept);
    if 0 <= l < |kept| - 1 {
      assert t.cclass(kept[|kept| - 1]) >= t.cclass(c);
      assert Blocked(t.cclass, kept, l, c);
    }
    if kept != [] && Hangul(kept[|kept| - 1]) { LastIsStarter(t.cclass, kept); }
  }

  lemma {:induction false} MergeShows(t: Tables, kept: seq<int>, p: seq<int>, c: int)
    requires HangulByRule(t) && Shows(kept, p) && Merges(t, kept, c)
    ensures var l := LastStarter(t.cclass, kept);
      && Shows(kept[l := Compose(t, kept[l], c)], p + [c])
      && (Swallows(kept[l], c) <==> c == TBASE && EndsLV(p))
  {
    hide EndsLV;
    var l := LastStarter(t.cclass, kept);
    EndsSnoc(p, c);
    if Hangul(c) {
      HangulMerges(t, kept, c);
    } else {
      hide Compose;
      var last := kept[l := Compose(t, kept[l], c)][|kept| - 1];
      assert !Hangul(last);
    }
  }

  lemma {:induction false} KeepShows(t: Tables, kept: seq<int>, p: seq<int>, c: int)
    requires HangulByRule(t) && Shows(kept, p) && !Merges(t, kept, c)
    ensures Shows(kept + [c], p + [c]) && !(c == TBASE && EndsLV(p))
  {
    assert !EndsLV([]);
    hide EndsLV, Merges, Compose, HangulByRule;
    EndsSnoc(p, c);
    var k, q := kept + [c], p + [c];
    assert k[|k| - 1] == c && q[|q| - 1] == c;
    if Hangul(c) {
      HangulMerges(t, kept, c);
    } else {
      assert !IsLV(c) && !IsV(c) && c != TBASE;
    }
  }

  lemma {:induction false} SwallowsAlong(t: Tables, kept: seq<int>, p: seq<int>, rest: seq<int>)
    requires HangulByRule(t) && Shows(kept, p)
    ensures SwallowCount(t, kept, rest) > 0 <==>
      exists n :: 0 <= n < |rest| && rest[n] == TBASE && EndsLV(p + rest[..n])
    decreases |rest|
  {
    if rest != [] {
      hide HangulByRule, EndsLV, Merges, Compose, Shows, Swallows;
      var c, l := rest[0], LastStarter(t.cclass, kept);
      assert p + rest[..0] == p;
      forall n | 0 < n < |rest| ensures p + rest[..n] == p + [c] + rest[1..][..n - 1] && rest[n] == rest[1..][n - 1] {
      }
      var later := exists n :: 0 <= n < |rest[1..]| && rest[1..][n] == TBASE && EndsLV(p + [c] + rest[1..][..n]);
      assert (exists n :: 0 <= n < |rest| && rest[n] == TBASE && EndsLV(p + rest[..n])) <==>
        (c == TBASE && EndsLV(p)) || later by { ShiftEnds(p, rest); }
      if Merges(t, kept, c) {
        MergeShows(t, kept, p, c);
        MergesIntoStarter(t, kept, c);
        SwallowsAlong(t, kept[l := Compose(t, kept[l], c)], p + [c], rest[1..]);
      } else {
        KeepShows(t, kept, p, c);
        SwallowsAlong(t, kept + [c], p + [c], rest[1..]);
      }
    }
  }

  lemma {:induction false} ShiftEnds(p: seq<int>, rest: seq<int>)
    requires rest != []
    ensures (exists n :: 0 <= n < |rest| && rest[n] == TBASE && EndsLV(p + rest[..n])) <==>
      || (rest[0] == TBASE && EndsLV(p))
      || exists n :: 0 <= n < |rest[1..]| && rest[1..][n] == TBASE && EndsLV(p + [rest[0]] + rest[1..][..n])
  {
    hide EndsLV;
    var c, tail := rest[0], rest[1..];
    assert p + rest[..0] == p;
    forall n | 0 <= n < |tail| ensures p + [c] + tail[..n] == p + rest[..n + 1] && tail[n] == rest[n + 1] {
    }
    if n :| 0 <= n < |rest| && rest[n] == TBASE && EndsLV(p + rest[..n]) {
      if n > 0 { assert p + [c] + tail[..n - 1] == p + rest[..n] && tail[n - 1] == TBASE; }
    }
    if n :| 0 <= n < |tail| && tail[n] == TBASE && EndsLV(p + [c] + tail[..n]) {
      assert rest[n + 1] == TBASE && EndsLV(p + rest[..n + 1]);
    }
  }

  /** The first U+11A7 after a string that ends so comes after a given or composed LV syllable. */
  lemma {:induction false} EndsInPlace(s: seq<int>, n: nat)
    requires n < |s| && s[n] == TBASE && EndsLV(s[..n])
    ensures Swallowing(s)
    decreases n
  {
    var p := s[..n];
    assert p[|p| - 1] == s[n - 1];
    if s[n - 1] == TBASE {
      assert p[..|p| - 1] == s[..n - 1];
      EndsInPlace(s, n - 1);
    } else {
      assert n > 1 ==> p[|p| - 2] == s[n - 2];
      assert SwallowedAt(s, n);
    }
  }

  /** Composing a string swallows a U+11A7 exactly when it holds one right after an LV
      syllable or after a leading consonant and a vowel. */
  lemma {:induction false} SwallowsExactly(t: Tables, s: seq<int>)
    requires HangulByRule(t)
    ensures SwallowCount(t, [], s) > 0 <==> Swallowing(s)
  {
    hide HangulByRule, SwallowCount;
    SwallowsAlong(t, [], [], s);
    assert forall n :: 0 <= n <= |s| ==> [] + s[..n] == s[..n];
    if n :| 0 <= n < |s| && s[n] == TBASE && EndsLV([] + s[..n]) { EndsInPlace(s, n); }
    if n: nat :| SwallowedAt(s, n) {
      var p := s[..n];
      assert p[|p| - 1] == s[n - 1] && (n > 1 ==> p[|p| - 2] == s[n - 2]);
      assert EndsLV([] + s[..n]);
    }
  }

  lemma {:induction false} DecomposedConcat(canon: Canon, a: seq<int>, b: seq<int>)
    ensures Decomposed(canon, a + b) == Decomposed(canon, a) + Decomposed(canon, b)
    decreases |a|
  {
    if a == [] {
      assert a + b == b;
    } else {
      DecomposedConcat(canon, a[1..], b);
      assert (a + b)[1..] == a[1..] + b;
    }
  }

  lemma {:induction false} DecomposedOne(canon: Canon, c: int)
    ensures Decomposed(canon, [c]) == canon(c)
  {
    assert [c][1..] == [];
  }

  lemma {:induction false} AtomicMarks(canon: Canon, m: seq<int>)
    requires forall i :: 0 <= i < |m| ==> canon(m[i]) == [m[i]]
    ensures Decomposed(canon, m) == m
    decreases |m|
  {
    if m != [] { AtomicMarks(canon, m[1..]); }
  }

  /** A mark may be moved in front of marks of other classes without changing the sorted string. */
  lemma {:induction false} MarkMovesLeft(ccc: Classes, x: seq<int>, m: seq<int>, c: int, y: seq<int>)
    requires m == [] || ccc(c) != 0
    requires forall i :: 0 <= i < |m| ==> ccc(m[i]) != 0 && ccc(m[i]) != ccc(c)
    ensures Reorder(ccc, x + m + [c] + y) == Reorder(ccc, x + [c] + m + y)
    decreases |m|
  {
    if m == [] {
      assert x + m + [c] + y == x + [c] + m + y;
    } else {
      var front, z := m[..|m| - 1], m[|m| - 1];
      var s, i := x + m + [c] + y, |x| + |front|;
      assert s[i] == z && s[i + 1] == c;
      assert SwapAt(s, i) == x + front + [c] + ([z] + y);
      SwapKeepsReorder(ccc, s, i);
      MarkMovesLeft(ccc, x, front, c, [z] + y);
      assert x + [c] + front + ([z] + y) == x + [c] + m + y;
    }
  }

  /** One merge leaves the decomposition equivalent, unless it swallows U+11A7, which drops one character. */
  lemma {:induction false} MergeKeepsMeaning(t: Tables, canon: Canon, kept: seq<int>, c: int, y: seq<int>)
    requires Sound(t) && Inverts(t, canon) && MarksAtomic(t, canon, kept + [c])
    requires Merges(t, kept, c)
    ensures var l := LastStarter(t.cclass, kept);
            var kept' := kept[l := Compose(t, kept[l], c)];
            var before, after := Decomposed(canon, kept) + canon(c) + y, Decomposed(canon, kept') + y;
            if Swallows(kept[l], c) then |after| + 1 == |before|
            else |after| == |before| && Reorder(t.cclass, after) == Reorder(t.cclass, before)
  {
    hide Sound, Compose, Inverts, Reorder, Decomposed;
    var l := LastStarter(t.cclass, kept);
    var front, m, p := kept[..l], kept[l + 1..], Compose(t, kept[l], c);
    forall i | 0 <= i < |m| ensures canon(m[i]) == [m[i]] && 0 != t.cclass(m[i]) < t.cclass(c) {
      assert m[i] == kept[l + 1 + i] == (kept + [c])[l + 1 + i];
    }
    assert m == [] || canon(c) == [c] by { assert (kept + [c])[|kept|] == c; }
    assert kept == front + [kept[l]] + m && kept[l := p] == front + [p] + m;
    MergeAround(t, canon, front, kept[l], m, c, y);
  }

  lemma {:induction false} MergeAround(
    t: Tables, canon: Canon, front: seq<int>, a: int, m: seq<int>, c: int, y: seq<int>)
    requires Inverts(t, canon) && Compose(t, a, c) != 0
    requires m == [] || (canon(c) == [c] && t.cclass(c) != 0)
    requires forall i :: 0 <= i < |m| ==> canon(m[i]) == [m[i]] && 0 != t.cclass(m[i]) < t.cclass(c)
    ensures var p := Compose(t, a, c);
            var before := Decomposed(canon, front + [a] + m) + canon(c) + y;
            var after := Decomposed(canon, front + [p] + m) + y;
            if Swallows(a, c) then |after| + 1 == |before|
            else |after| == |before| && Reorder(t.cclass, after) == Reorder(t.cclass, before)
  {
    hide Reorder, Decomposed;
    AtomicMarks(canon, m);
    DecomposedAround(canon, front, a, m);
    DecomposedAround(canon, front, Compose(t, a, c), m);
    if !Swallows(a, c) {
      hide Compose;
      MergedReorder(t.cclass, Decomposed(canon, front), canon(a), m, canon(c), c, y);
    }
  }

  lemma {:induction false} MergedReorder(
    ccc: Classes, x: seq<int>, d: seq<int>, m: seq<int>, e: seq<int>, c: int, y: seq<int>)
    requires m == [] || (e == [c] && ccc(c) != 0)
    requires forall i :: 0 <= i < |m| ==> ccc(m[i]) != 0 && ccc(m[i]) != ccc(c)
    ensures Reorder(ccc, x + d + m + e + y) == Reorder(ccc, x + (d + e) + m + y)
  {
    if m == [] {
      assert x + d + m + e + y == x + (d + e) + m + y;
    } else {
      MarkMovesLeft(ccc, x + d, m, c, y);
      assert x + (d + e) + m + y == x + d + [c] + m + y;
    }
  }

  lemma {:induction false} DecomposedAround(canon: Canon, a: seq<int>, c: int, b: seq<int>)
    ensures Decomposed(canon, a + [c] + b) == Decomposed(canon, a) + canon(c) + Decomposed(canon, b)
  {
    DecomposedConcat(canon, a + [c], b);
    DecomposedConcat(canon, a, [c]);
    DecomposedOne(canon, c);
  }

  lemma {:induction false} ComposeKeepsMeaning(t: Tables, canon: Canon, kept: seq<int>, rest: seq<int>)
    requires Sound(t) && Inverts(t, canon) && MarksAtomic(t, canon, kept + rest)
    ensures var before, after := Decomposed(canon, kept + rest), Decomposed(canon, ComposeAll(t, kept, rest));
            && |after| + SwallowCount(t, kept, rest) == |before|
            && (SwallowCount(t, kept, rest) == 0 ==> Reorder(t.cclass, after) == Reorder(t.cclass, before))
    decreases |rest|
  {
    if rest == [] {
      assert kept + rest == kept;
    } else {
      var c, l, y := rest[0], LastStarter(t.cclass, kept), Decomposed(canon, rest[1..]);
      assert kept + rest == kept + [c] + rest[1..];
      if Merges(t, kept, c) {
        var kept' := kept[l := Compose(t, kept[l], c)];
        forall i | 0 <= i < |kept' + rest[1..]| && t.cclass((kept' + rest[1..])[i]) != 0
          ensures canon((kept' + rest[1..])[i]) == [(kept' + rest[1..])[i]]
        {
          assert (kept' + rest[1..])[i] == (kept + rest)[if i < |kept| then i else i + 1];
        }
        assert forall i :: 0 <= i <= |kept| ==> (kept + [c])[i] == (kept + rest)[i];
        MergeKeepsMeaning(t, canon, kept, c, y);
        DecomposedAround(canon, kept, c, rest[1..]);
        DecomposedConcat(canon, kept', rest[1..]);
        ComposeKeepsMeaning(t, canon, kept', rest[1..]);
      } else {
        ComposeKeepsMeaning(t, canon, kept + [c], rest[1..]);
      }
    }
  }

  /** Composing a string keeps it canonically equivalent exactly when no U+11A7 follows an LV
      syllable or a leading consonant and a vowel in it. */
  lemma {:induction false} CompositionIsEquivalent(t: Tables, canon: Canon, s: seq<int>)
    requires Sound(t) && HangulByRule(t) && Inverts(t, canon) && MarksAtomic(t, canon, s)
    ensures Equivalent(t.cclass, Decomposed(canon, ComposeAll(t, [], s)), Decomposed(canon, s)) <==> !Swallowing(s)
  {
    hide Sound, HangulByRule, Inverts, Decomposed, ComposeAll, SwallowCount, Reorder, Swallowing;
    assert [] + s == s;
    ComposeKeepsMeaning(t, canon, [], s);
    var out, given := Decomposed(canon, ComposeAll(t, [], s)), Decomposed(canon, s);
    Confluence(t.cclass, out, given);
    assert Reorder(t.cclass, out) == Reorder(t.cclass, given) ==> |out| == |given|;
    SwallowsExactly(t, s);
  }

  /** Swapping two marks swaps them in the decomposition. */
  lemma {:induction false} SwapDecomposed(t: Tables, canon: Canon, s: seq<int>, i: nat)
    requires MarksAtomic(t, canon, s) && Swappable(t.cclass, s, i)
    ensures MarksAtomic(t, canon, SwapAt(s, i))
    ensures Reorder(t.cclass, Decomposed(canon, SwapAt(s, i))) == Reorder(t.cclass, Decomposed(canon, s))
  {
    hide Reorder, Decomposed;
    var front, x, y, back := s[..i], s[i], s[i + 1], s[i + 2..];
    assert s == front + [x] + ([y] + back) && s == front + [x] + [y] + back;
    assert SwapAt(s, i) == front + [y] + [x] + back;
    DecomposedFour(canon, front, x, y, back);
    DecomposedFour(canon, front, y, x, back);
    MarkMovesLeft(t.cclass, Decomposed(canon, front), [x], y, Decomposed(canon, back));
  }

  lemma {:induction false} DecomposedFour(canon: Canon, a: seq<int>, x: int, y: int, b: seq<int>)
    ensures Decomposed(canon, a + [x] + [y] + b) == Decomposed(canon, a) + canon(x) + canon(y) + Decomposed(canon, b)
  {
    DecomposedAround(canon, a + [x], y, b);
    DecomposedConcat(canon, a, [x]);
    DecomposedOne(canon, x);
  }

  lemma {:induction false} PathDecomposed(t: Tables, canon: Canon, s: seq<int>, path: seq<nat>, u: seq<int>)
    requires MarksAtomic(t, canon, s) && Leads(t.cclass, s, path, u)
    ensures MarksAtomic(t, canon, u)
    ensures Reorder(t.cclass, Decomposed(canon, u)) == Reorder(t.cclass, Decomposed(canon, s))
    decreases |path|
  {
    if path != [] {
      SwapDecomposed(t, canon, s, path[0]);
      PathDecomposed(t, canon, SwapAt(s, path[0]), path[1..], u);
    }
  }

  /** Ordering keeps the Hangul letters where they are. */
  lemma {:induction false} OrderedSwallowing(t: Tables, s: seq<int>)
    requires HangulByRule(t)
    ensures Swallowing(Reorder(t.cclass, s)) <==> Swallowing(s)
  {
    hide Reorder;
    var r := Reorder(t.cclass, s);
    ReorderPermutes(t.cclass, s);
    forall i | 0 <= i < |s| ensures Hangul(s[i]) || Hangul(r[i]) ==> r[i] == s[i] {
    }
    forall n: nat ensures SwallowedAt(r, n) <==> SwallowedAt(s, n) {
    }
  }

  /** Ordering and then composing a string keeps it canonically equivalent exactly when no
      U+11A7 follows an LV syllable or a leading consonant and a vowel in it. */
  lemma {:induction false} NormalizationIsEquivalent(t: Tables, canon: Canon, s: seq<int>)
    requires Sound(t) && HangulByRule(t) && Inverts(t, canon) && MarksAtomic(t, canon, s)
    ensures var out := ComposeAll(t, [], Reorder(t.cclass, s));
      Equivalent(t.cclass, Decomposed(canon, out), Decomposed(canon, s)) <==> !Swallowing(s)
  {
    hide Sound, HangulByRule, Inverts, Decomposed, ComposeAll, Swallowing, Reorder;
    var sorted := Reorder(t.cclass, s);
    var path := ReorderReachable(t.cclass, s);
    PathDecomposed(t, canon, s, path, sorted);
    CompositionIsEquivalent(t, canon, sorted);
    OrderedSwallowing(t, s);
    var out := Decomposed(canon, ComposeAll(t, [], sorted));
    Confluence(t.cclass, out, Decomposed(canon, sorted));
    Confluence(t.cclass, out, Decomposed(canon, s));
  }

  lemma {:induction false} NoSwallowWithoutTBase(t: Tables, kept: seq<int>, rest: seq<int>)
    requires TBASE !in rest
    ensures SwallowCount(t, kept, rest) == 0
    decreases |rest|
  {
    if rest != [] {
      var c, l := rest[0], LastStarter(t.cclass, kept);
      assert c in rest;
      if Merges(t, kept, c) {
        NoSwallowWithoutTBase(t, kept[l := Compose(t, kept[l], c)], rest[1..]);
      } else {
        NoSwallowWithoutTBase(t, kept + [c], rest[1..]);
      }
    }
  }

  /** U+AC00 U+11A7 and U+AC00 are composed to the same string though they are not equivalent. */
  lemma {:induction false} TBaseSwallowed(t: Tables)
    requires Sound(t)
    ensures ComposeAll(t, [], [SBASE, TBASE]) == ComposeAll(t, [], [SBASE]) == [SBASE]
    ensures SwallowCount(t, [], [SBASE, TBASE]) == 1
    ensures !Equivalent(t.cclass, [SBASE, TBASE], [SBASE])
  {
    assert Compose(t, SBASE, TBASE) == SBASE;
    assert t.cclass(SBASE) == 0;
    assert [SBASE, TBASE][1..] == [TBASE] && [TBASE][1..] == [] && [SBASE][1..] == [];
    assert LastStarter(t.cclass, []) == -1 && LastStarter(t.cclass, [SBASE]) == 0;
    assert [] + [SBASE] == [SBASE] && [SBASE][0 := SBASE] == [SBASE];
    assert Merges(t, [SBASE], TBASE);
    assert Swallows(SBASE, TBASE);
    assert !Merges(t, [], SBASE);
    assert SwallowCount(t, [SBASE], []) == 0;
    assert SwallowCount(t, [SBASE], [TBASE]) == 1;
    Confluence(t.cclass, [SBASE, TBASE], [SBASE]);
  }

  lemma {:induction false} CompositionInRange(t: Tables, kept: seq<int>, rest: seq<int>)
    requires Sound(t) && CodePoints(kept) && CodePoints(rest)
    ensures CodePoints(ComposeAll(t, kept, rest))
    decreases |rest|
  {
    if rest != [] {
      var c, l := rest[0], LastStarter(t.cclass, kept);
      if Merges(t, kept, c) {
        CompositionInRange(t, kept[l := Compose(t, kept[l], c)], rest[1..]);
      } else {
        CompositionInRange(t, kept + [c], rest[1..]);
      }
    }
  }
}
