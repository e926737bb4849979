/** The generated Unicode tables, kept abstract, and the pair composition built on them. */
module UnicodeTables {
  import opened CanonicalOrdering

  const MAX_CODE_POINT := 0x10FFFF

  // Hangul constants (section 3.12 of the Unicode Standard).
  const SBASE := 0xAC00
  const LBASE := 0x1100
  const VBASE := 0x1161
  const TBASE := 0x11A7
  const LCOUNT := 19
  const VCOUNT := 21
  const TCOUNT := 28
  const NCOUNT := VCOUNT * TCOUNT
  const SCOUNT := LCOUNT * NCOUNT

  /** The flags and case mapping packed in one word of the character table. */
  datatype CharInfo = CharInfo(
    ac: bool, c11: bool, c21: bool, xnp: bool,   // prohibition tables
    b1: bool,                                    // mapped to nothing
    d1: bool, d2: bool,                          // RandALCat, LCat
    mc: bool, multi: seq<int>, delta: int)       // case folding: several characters, or an offset

  /** One word of the composition table; `NotComposed` is the table's -1. */
  datatype CompInfo = NotComposed | Composed(single: bool, second: bool, index: nat)

  datatype Decomposition = Itself | Into(chars: seq<int>)

  datatype Tables = Tables(
    cclass: Classes,
    info: int -> CharInfo,
    decomp: int -> Decomposition,
    compInfo: int -> CompInfo,
    compFirst: nat -> (int, int),
    compSecond: nat -> (int, int),
    compBoth: (nat, nat) -> int)

  ghost predicate CodePoint(c: int) {
    0 <= c <= MAX_CODE_POINT
  }

  ghost predicate CodePoints(s: seq<int>) {
    forall i :: 0 <= i < |s| ==> CodePoint(s[i])
  }

  /** What the proofs assume of the tables. Values are code points. A decomposition is not
      empty, and that of the `j`th folded character (counted from 0) is longer than `j`.
      A pair composes only when its first character is a starter, into a starter. */
  ghost predicate Sound(t: Tables) {
    && (forall c :: CodePoint(c) ==> SoundInfo(t, t.info(c)) && CodePoint(c + t.info(c).delta))
    && (forall c :: CodePoint(c) && t.decomp(c).Into? ==> CodePoints(t.decomp(c).chars) && t.decomp(c).chars != [])
    && (forall a, b :: Compose(t, a, b) != 0 ==>
          CodePoint(Compose(t, a, b)) && t.cclass(a) == 0 && t.cclass(Compose(t, a, b)) == 0)
  }

  ghost predicate SoundInfo(t: Tables, info: CharInfo) {
    && CodePoints(info.multi)
    && forall j :: 0 <= j < |info.multi| && t.decomp(info.multi[j]).Into? ==> j < |t.decomp(info.multi[j]).chars|
  }

  predicate IsL(c: int) { LBASE <= c < LBASE + LCOUNT }

  predicate IsV(c: int) { VBASE <= c < VBASE + VCOUNT }

  predicate IsLV(c: int) { SBASE <= c < SBASE + SCOUNT && (c - SBASE) % TCOUNT == 0 }

  /** The composite of two characters, 0 when there is none. */
  function Compose(t: Tables, ch1: int, ch2: int): (r: int) {
    if IsL(ch1) && IsV(ch2) then
      SBASE + ((ch1 - LBASE) * VCOUNT + (ch2 - VBASE)) * TCOUNT
    else if IsLV(ch1) && TBASE <= ch2 < TBASE + TCOUNT then
      ch1 + ch2 - TBASE
    else
      var info1, info2 := t.compInfo(ch1), t.compInfo(ch2);
      if info1.Composed? && info1.single then
        var (second, composite) := t.compFirst(info1.index);
        if !info1.second && ch2 == second then composite else 0
      else if info2.Composed? && info2.single then
        var (first, composite) := t.compSecond(info2.index);
        if info2.second && ch1 == first then composite else 0
      else if info1.Composed? && info2.Composed? && !info1.second && info2.second then
        t.compBoth(info1.index, info2.index)
      else 0
  }

  // ---------------------------------------------------------------------------
  // Hangul: composition undoes the arithmetic decomposition of section 3.12, and
  // follows that section except for the inclusive lower bound on the trailing
  // consonant.
  // ---------------------------------------------------------------------------

  ghost function HangulDecomposition(s: int): (r: seq<int>)
    requires SBASE <= s < SBASE + SCOUNT
  {
    var i := s - SBASE;
    var lv := [LBASE + i / NCOUNT, VBASE + i % NCOUNT / TCOUNT];
    if i % TCOUNT == 0 then lv else lv + [TBASE + i % TCOUNT]
  }

  lemma {:induction false} HangulRoundTrip(t: Tables, s: int)
    requires SBASE <= s < SBASE + SCOUNT
    ensures var d := HangulDecomposition(s);
            var lv := Compose(t, d[0], d[1]);
            s == if |d| == 2 then lv else Compose(t, lv, d[2])
  {
    var i := s - SBASE;
    var l, v, k := i / NCOUNT, i % NCOUNT / TCOUNT, i % TCOUNT;
    assert i == l * NCOUNT + i % NCOUNT;
    assert i % NCOUNT == v * TCOUNT + i % NCOUNT % TCOUNT;
    assert i == (l * VCOUNT + v) * TCOUNT + i % NCOUNT % TCOUNT;
    assert i % NCOUNT % TCOUNT == k;
  }

  /** The Hangul rules of section 3.12: a trailing consonant lies strictly above TBASE. */
  ghost function StandardHangul(ch1: int, ch2: int): (r: int) {
    if IsL(ch1) && IsV(ch2) then SBASE + ((ch1 - LBASE) * VCOUNT + (ch2 - VBASE)) * TCOUNT
    else if IsLV(ch1) && TBASE < ch2 < TBASE + TCOUNT then ch1 + (ch2 - TBASE)
    else 0
  }

  /** An LV syllable followed by U+11A7: the code composes the pair back to the syllable alone. */
  predicate Swallows(ch1: int, ch2: int) {
    IsLV(ch1) && ch2 == TBASE
  }

  predicate IsT(c: int) { TBASE <= c < TBASE + TCOUNT }

  predicate Hangul(c: int) {
    IsL(c) || IsV(c) || IsT(c) || SBASE <= c < SBASE + SCOUNT
  }

  /** What the generated tables say of Hangul: nothing. Its characters are starters, and they
      compose, and are composed to, by the arithmetic rules alone. */
  ghost predicate HangulByRule(t: Tables) {
    && (forall c :: Hangul(c) ==> t.cclass(c) == 0)
    && (forall a, b :: Compose(t, a, b) != 0 && (Hangul(a) || Hangul(b) || Hangul(Compose(t, a, b))) ==>
          (IsL(a) && IsV(b)) || (IsLV(a) && IsT(b)))
  }

  lemma {:induction false} HangulFollowsStandardExactly(t: Tables, ch1: int, ch2: int)
    requires t.compInfo(ch1).NotComposed? && t.compInfo(ch2).NotComposed?
    ensures Compose(t, ch1, ch2) == StandardHangul(ch1, ch2) <==> !Swallows(ch1, ch2)
    ensures Swallows(ch1, ch2) ==> Compose(t, ch1, ch2) == ch1
  {
  }

  // ---------------------------------------------------------------------------
  // What the composition words encode: a relation between pairs and composites.
  // ---------------------------------------------------------------------------

  /** The primary composites: of each pair of characters that compose, the composite. */
  type Pairs = map<(int, int), int>

  ghost function Lookup(pairs: Pairs, a: int, b: int): (r: int) {
    if (a, b) in pairs then pairs[(a, b)] else 0
  }

  predicate FirstOfOne(info: CompInfo) { info.Composed? && info.single && !info.second }

  predicate SecondOfOne(info: CompInfo) { info.Composed? && info.single && info.second }

  predicate FirstOfMany(info: CompInfo) { info.Composed? && !info.single && !info.second }

  predicate SecondOfMany(info: CompInfo) { info.Composed? && !info.single && info.second }

  /** A single word names the one pair its character is the first (or the second) of, and two double
      words name the cell of their pair, 0 where they do not compose. Each pair is named in one of
      these ways; a character whose pairs are all named by the other one has no word. */
  ghost predicate Encodes(t: Tables, pairs: Pairs) {
    && (forall a, b :: (a, b) in pairs ==>
          || FirstOfOne(t.compInfo(a)) || SecondOfOne(t.compInfo(b))
          || (FirstOfMany(t.compInfo(a)) && SecondOfMany(t.compInfo(b))))
    && (forall a, b :: FirstOfOne(t.compInfo(a)) ==>
          var (second, composite) := t.compFirst(t.compInfo(a).index);
          Lookup(pairs, a, b) == if b == second then composite else 0)
    && (forall a, b :: SecondOfOne(t.compInfo(b)) ==>
          var (first, composite) := t.compSecond(t.compInfo(b).index);
          Lookup(pairs, a, b) == if a == first then composite else 0)
    && (forall a, b :: FirstOfMany(t.compInfo(a)) && SecondOfMany(t.compInfo(b)) ==>
          Lookup(pairs, a, b) == t.compBoth(t.compInfo(a).index, t.compInfo(b).index))
    && (forall a, b :: SecondOfOne(t.compInfo(a)) ==> (a, b) !in pairs)
  }

  /** The composite of two characters by section 3.12, with U+11A7 as the code has it, and by the pairs. */
  ghost function Composite(pairs: Pairs, a: int, b: int): (r: int) {
    if StandardHangul(a, b) != 0 then StandardHangul(a, b)
    else if Swallows(a, b) then a
    else Lookup(pairs, a, b)
  }

  lemma {:induction false} ComposeExactly(t: Tables, pairs: Pairs, a: int, b: int)
    requires Encodes(t, pairs)
    ensures Compose(t, a, b) == Composite(pairs, a, b)
  {
    if !(IsL(a) && IsV(b)) && !(IsLV(a) && TBASE <= b < TBASE + TCOUNT) {
      var (info1, info2) := (t.compInfo(a), t.compInfo(b));
      assert Lookup(pairs, a, b) != 0 ==> (a, b) in pairs;
      if FirstOfOne(info1) {
      } else if SecondOfOne(info1) {
        assert (a, b) !in pairs;
      } else if SecondOfOne(info2) {
      } else if FirstOfMany(info1) && SecondOfMany(info2) {
      } else {
        assert (a, b) !in pairs;
      }
    }
  }
}
