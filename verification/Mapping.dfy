/** Case folding, deletion and compatibility decomposition of the decoded characters
    (sections 3 and 4 of RFC 3454), as the driver's loops do them. */
module Mapping {
  import opened UnicodeTables

  function Decomp(t: Tables, c: int): (r: seq<int>) {
    match t.decomp(c)
    case Itself => [c]
    case Into(chars) => chars
  }

  /** What the case-folding loop appends from index `j` on, counted from 0. The loop that
      copies a decomposition shares its index variable, so after a decomposition of length
      n the folding loop goes on at index n, wherever it was. */
  function Folded(t: Tables, multi: seq<int>, j: nat): (r: seq<int>)
    requires forall k :: 0 <= k < |multi| && t.decomp(multi[k]).Into? ==> k < |t.decomp(multi[k]).chars|
    decreases |multi| - j
  {
    if j >= |multi| then []
    else
      match t.decomp(multi[j])
      case Itself => [multi[j]] + Folded(t, multi, j + 1)
      case Into(chars) => chars + Folded(t, multi, |chars|)
  }

  /** What one decoded character becomes. */
  function Mapped(t: Tables, tolower: bool, uc: int): (r: seq<int>)
    requires Sound(t) && CodePoint(uc)
  {
    var info := t.info(uc);
    if info.b1 then []
    else if !tolower then Decomp(t, uc)
    else if !info.mc then Decomp(t, uc + info.delta)
    else Folded(t, info.multi, 0)
  }

  function MapAll(t: Tables, tolower: bool, s: seq<int>): (r: seq<int>)
    requires Sound(t) && CodePoints(s)
  {
    if s == [] then [] else Mapped(t, tolower, s[0]) + MapAll(t, tolower, s[1..])
  }

  lemma {:induction false} MapAllSnoc(t: Tables, tolower: bool, s: seq<int>, c: int)
    requires Sound(t) && CodePoints(s) && CodePoint(c)
    ensures CodePoints(s + [c])
    ensures MapAll(t, tolower, s + [c]) == MapAll(t, tolower, s) + Mapped(t, tolower, c)
    decreases |s|
  {
    hide Sound, Mapped;
    if s == [] {
      assert s + [c] == [c] && [c][1..] == [];
    } else {
      MapAllSnoc(t, tolower, s[1..], c);
      assert (s + [c])[1..] == s[1..] + [c];
      assert MapAll(t, tolower, s + [c]) == Mapped(t, tolower, s[0]) + MapAll(t, tolower, s[1..] + [c]);
    }
  }

  lemma {:induction false} FoldedInRange(t: Tables, uc: int, j: nat)
    requires Sound(t) && CodePoint(uc)
    ensures CodePoints(Folded(t, t.info(uc).multi, j))
    decreases |t.info(uc).multi| - j
  {
    var multi := t.info(uc).multi;
    assert SoundInfo(t, t.info(uc));
    if j < |multi| {
      FoldedInRange(t, uc, if t.decomp(multi[j]).Into? then |t.decomp(multi[j]).chars| else j + 1);
    }
  }

  lemma {:induction false} MappedInRange(t: Tables, tolower: bool, s: seq<int>)
    requires Sound(t) && CodePoints(s)
    ensures CodePoints(MapAll(t, tolower, s))
    decreases |s|
  {
    if s != [] {
      FoldedInRange(t, s[0], 0);
      MappedInRange(t, tolower, s[1..]);
    }
  }

  // ---------------------------------------------------------------------------
  // The intended mapping: every folded character is decomposed. The shared index
  // loses characters; the code maps as intended exactly when no loop jumps.
  // ---------------------------------------------------------------------------

  ghost function FoldedFully(t: Tables, multi: seq<int>, j: nat): (r: seq<int>)
    decreases |multi| - j
  {
    if j >= |multi| then [] else Decomp(t, multi[j]) + FoldedFully(t, multi, j + 1)
  }

  ghost function Intended(t: Tables, tolower: bool, uc: int): (r: seq<int>) {
    var info := t.info(uc);
    if info.b1 then []
    else if !tolower then Decomp(t, uc)
    else if !info.mc then Decomp(t, uc + info.delta)
    else FoldedFully(t, info.multi, 0)
  }

  ghost function IntendedAll(t: Tables, tolower: bool, s: seq<int>): (r: seq<int>) {
    if s == [] then [] else Intended(t, tolower, s[0]) + IntendedAll(t, tolower, s[1..])
  }

  /** No folded character but the last decomposes into more characters than its own position. */
  ghost predicate InStep(t: Tables, multi: seq<int>, j: nat) {
    forall k :: j <= k < |multi| - 1 && t.decomp(multi[k]).Into? ==> |t.decomp(multi[k]).chars| == k + 1
  }

  ghost predicate MapsInStep(t: Tables, tolower: bool, uc: int) {
    var info := t.info(uc);
    tolower && !info.b1 && info.mc ==> InStep(t, info.multi, 0)
  }

  lemma {:induction false} FoldedFullySkips(t: Tables, multi: seq<int>, j: nat, k: nat)
    requires j <= k
    requires forall i :: 0 <= i < |multi| && t.decomp(multi[i]).Into? ==> t.decomp(multi[i]).chars != []
    ensures |FoldedFully(t, multi, k)| <= |FoldedFully(t, multi, j)|
    ensures j < k && j < |multi| ==> |FoldedFully(t, multi, k)| < |FoldedFully(t, multi, j)|
    decreases |multi| - j
  {
    if j < k && j < |multi| { FoldedFullySkips(t, multi, j + 1, k); }
  }

  lemma {:induction false} FoldedExactly(t: Tables, multi: seq<int>, j: nat)
    requires forall k :: 0 <= k < |multi| && t.decomp(multi[k]).Into? ==> k < |t.decomp(multi[k]).chars|
    ensures |Folded(t, multi, j)| <= |FoldedFully(t, multi, j)|
    ensures Folded(t, multi, j) == FoldedFully(t, multi, j) <==> InStep(t, multi, j)
    decreases |multi| - j
  {
    if j < |multi| {
      var d, full := t.decomp(multi[j]), FoldedFully(t, multi, j + 1);
      assert FoldedFully(t, multi, j) == Decomp(t, multi[j]) + full;
      if d.Itself? || |d.chars| == j + 1 {
        FoldedExactly(t, multi, j + 1);
        PrefixCancels(Decomp(t, multi[j]), Folded(t, multi, j + 1), full);
      } else {
        FoldedExactly(t, multi, |d.chars|);
        FoldedFullySkips(t, multi, j + 1, |d.chars|);
      }
    }
  }

  lemma {:induction false} PrefixCancels(a: seq<int>, b: seq<int>, c: seq<int>)
    ensures a + b == a + c <==> b == c
  {
    if a + b == a + c { assert (a + b)[|a|..] == b && (a + c)[|a|..] == c; }
  }

  lemma {:induction false} MappedExactly(t: Tables, tolower: bool, uc: int)
    requires Sound(t) && CodePoint(uc)
    ensures |Mapped(t, tolower, uc)| <= |Intended(t, tolower, uc)|
    ensures Mapped(t, tolower, uc) == Intended(t, tolower, uc) <==> MapsInStep(t, tolower, uc)
  {
    assert SoundInfo(t, t.info(uc));
    FoldedExactly(t, t.info(uc).multi, 0);
  }

  lemma {:induction false} PartsCancel(a: seq<int>, b: seq<int>, a': seq<int>, b': seq<int>)
    requires |a| <= |a'| && |b| <= |b'|
    ensures a + b == a' + b' <==> a == a' && b == b'
  {
    if a + b == a' + b' { assert (a + b)[..|a|] == a && (a' + b')[..|a|] == a'; PrefixCancels(a, b, b'); }
  }

  /** The code maps a string as intended exactly when each of its characters is folded in step. */
  lemma {:induction false} MapsAsIntendedExactly(t: Tables, tolower: bool, s: seq<int>)
    requires Sound(t) && CodePoints(s)
    ensures |MapAll(t, tolower, s)| <= |IntendedAll(t, tolower, s)|
    ensures MapAll(t, tolower, s) == IntendedAll(t, tolower, s) <==>
      forall i :: 0 <= i < |s| ==> MapsInStep(t, tolower, s[i])
    decreases |s|
  {
    if s != [] {
      MappedExactly(t, tolower, s[0]);
      MapsAsIntendedExactly(t, tolower, s[1..]);
      hide Sound, Mapped, Intended, MapsInStep;
      PartsCancel(Mapped(t, tolower, s[0]), MapAll(t, tolower, s[1..]),
                  Intended(t, tolower, s[0]), IntendedAll(t, tolower, s[1..]));
      assert s == [s[0]] + s[1..];
      assert (forall i :: 0 <= i < |s| ==> MapsInStep(t, tolower, s[i])) <==>
        MapsInStep(t, tolower, s[0]) && forall i :: 0 <= i < |s[1..]| ==> MapsInStep(t, tolower, s[1..][i]);
    }
  }

  /** With the generated tables' entries for U+1F80, U+1F00 and U+03B9, folding U+1F80 loses the iota. */
  lemma {:induction false} IotaLost(t: Tables, s: seq<int>)
    requires Sound(t) && s == [0x1F80]
    requires var i := t.info(0x1F80); !i.b1 && i.mc && i.multi == [7936, 953]
    requires t.decomp(7936) == Into([945, 787]) && t.decomp(953) == Itself
    ensures MapAll(t, true, s) == [945, 787]
    ensures IntendedAll(t, true, s) == [945, 787, 953]
  {
    assert s[1..] == [];
    assert Folded(t, [7936, 953], 0) == [945, 787] + Folded(t, [7936, 953], 2);
    assert FoldedFully(t, [7936, 953], 0) == [945, 787] + ([953] + FoldedFully(t, [7936, 953], 2));
  }
}
