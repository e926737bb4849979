/** Canonical ordering of combining marks (D109, section 3.11 of the Unicode Standard),
    as the driver does it in place with one percolating pass. */
module CanonicalOrdering {

  /** The combining class table: 0 for a starter, positive for a combining mark. */
  type Classes = int -> nat

  // ---------------------------------------------------------------------------
  // The specification: marks are inserted one at a time, each moving left over
  // marks of a strictly greater class.
  // ---------------------------------------------------------------------------

  function InsertMark(ccc: Classes, s: seq<int>, c: int): (r: seq<int>)
    ensures |r| == |s| + 1
    decreases |s|
  {
    if ccc(c) == 0 || |s| == 0 || ccc(s[|s| - 1]) <= ccc(c) then s + [c]
    else InsertMark(ccc, s[..|s| - 1], c) + [s[|s| - 1]]
  }

  function Reorder(ccc: Classes, s: seq<int>): (r: seq<int>)
    ensures |r| == |s|
    decreases |s|
  {
    if s == [] then [] else InsertMark(ccc, Reorder(ccc, s[..|s| - 1]), s[|s| - 1])
  }

  /** Classes never decrease from one character to the next unless the next one is a starter. */
  ghost predicate Ordered(ccc: Classes, s: seq<int>) {
    forall i :: 0 < i < |s| ==> ccc(s[i]) == 0 || ccc(s[i - 1]) <= ccc(s[i])
  }

  /** The starters and the marks of class `k`, in the order they occur. */
  ghost function Project(ccc: Classes, s: seq<int>, k: nat): (r: seq<int>)
    decreases |s|
  {
    if s == [] then []
    else
      var rest := Project(ccc, s[..|s| - 1], k);
      var c := s[|s| - 1];
      if ccc(c) == 0 || ccc(c) == k then rest + [c] else rest
  }

  ghost predicate SameProjections(ccc: Classes, s: seq<int>, t: seq<int>) {
    forall k: nat :: Project(ccc, s, k) == Project(ccc, t, k)
  }

  // ---------------------------------------------------------------------------
  // Canonical equivalence of two strings of decomposed characters: a path of
  // swaps of adjacent marks with distinct classes.
  // ---------------------------------------------------------------------------

  ghost predicate Swappable(ccc: Classes, s: seq<int>, i: nat) {
    i + 1 < |s| && ccc(s[i]) != 0 && ccc(s[i + 1]) != 0 && ccc(s[i]) != ccc(s[i + 1])
  }

  ghost function SwapAt(s: seq<int>, i: nat): (r: seq<int>)
    requires i + 1 < |s|
  {
    s[i := s[i + 1]][i + 1 := s[i]]
  }

  ghost predicate Leads(ccc: Classes, s: seq<int>, path: seq<nat>, t: seq<int>)
    decreases |path|
  {
    if path == [] then s == t
    else Swappable(ccc, s, path[0]) && Leads(ccc, SwapAt(s, path[0]), path[1..], t)
  }

  ghost predicate Equivalent(ccc: Classes, s: seq<int>, t: seq<int>) {
    exists path :: Leads(ccc, s, path, t)
  }

  // ---------------------------------------------------------------------------
  // The in-place algorithm.
  // ---------------------------------------------------------------------------

  /** The inner loop: the mark at `i + 1` percolates left while its left neighbour has a greater class. */
  method Percolate(ccc: Classes, str: array<int>, i: nat, next: nat)
    requires i + 1 < str.Length && next == ccc(str[i + 1]) != 0
    modifies str
    ensures str[..i + 2] == InsertMark(ccc, old(str[..i + 1]), old(str[i + 1]))
    ensures forall k :: i + 1 < k < str.Length ==> str[k] == old(str[k])
    ensures old(ccc(str[i])) > next ==> str[i + 1] == old(str[i])
  {
    hide InsertMark;
    ghost var s, c := str[..i + 1], str[i + 1];
    var j := i;
    while j >= 0
      invariant -1 <= j <= i
      invariant str[j + 1] == c
      invariant forall k :: 0 <= k <= j ==> str[k] == s[k]
      invariant forall k :: j + 1 < k <= i + 1 ==> str[k] == s[k - 1]
      invariant forall k :: j < k <= i ==> ccc(s[k]) > next
      invariant forall k :: i + 1 < k < str.Length ==> str[k] == old(str[k])
    {
      if ccc(str[j]) <= next { break; }
      str[j + 1], str[j] := str[j], str[j + 1];
      j := j - 1;
    }
    InsertPosition(ccc, s, j + 1, c);
    Reassemble(str[..i + 2], s, j + 1, c);
  }

  lemma {:induction false} Reassemble(r: seq<int>, s: seq<int>, p: nat, c: int)
    requires |r| == |s| + 1 && p <= |s| && r[p] == c
    requires forall k :: 0 <= k < p ==> r[k] == s[k]
    requires forall k :: p < k <= |s| ==> r[k] == s[k - 1]
    ensures r == s[..p] + [c] + s[p..]
  {
  }

  lemma {:induction false} InsertPosition(ccc: Classes, s: seq<int>, p: nat, c: int)
    requires p <= |s| && ccc(c) != 0
    requires p == 0 || ccc(s[p - 1]) <= ccc(c)
    requires forall k :: p <= k < |s| ==> ccc(s[k]) > ccc(c)
    ensures InsertMark(ccc, s, c) == s[..p] + [c] + s[p..]
    decreases |s|
  {
    if p < |s| {
      var front := s[..|s| - 1];
      InsertPosition(ccc, front, p, c);
      assert front[..p] == s[..p] && front[p..] + [s[|s| - 1]] == s[p..];
    }
  }

  method CanonicalOrder(ccc: Classes, str: array<int>, len: nat)
    requires 0 < len <= str.Length
    modifies str
    ensures str[..len] == Reorder(ccc, old(str[..len]))
    ensures str[len..] == old(str[len..])
  {
    ghost var was := str[..];
    var last := ccc(str[0]);
    var i := 0;
    assert was[..1] == [was[0]] && was[..1][..0] == [];
    while i < len - 1
      invariant 0 <= i < len
      invariant last == ccc(str[i])
      invariant str[..i + 1] == Reorder(ccc, was[..i + 1])
      invariant str[i + 1..] == was[i + 1..]
    {
      assert str[i + 1] == str[i + 1..][0] == was[i + 1];
      assert str[i + 2..] == str[i + 1..][1..];
      assert was[i + 2..] == was[i + 1..][1..];
      assert was[..i + 2][..i + 1] == was[..i + 1];
      var next := ccc(str[i + 1]);
      if next != 0 && last > next {
        Percolate(ccc, str, i, next);
        next := last;
      } else {
        assert str[..i + 2] == str[..i + 1] + [str[i + 1]];
      }
      last := next;
      i := i + 1;
    }
  }

  // ---------------------------------------------------------------------------
  // Confluence: two strings are canonically equivalent exactly when they are
  // sorted to the same array.
  // ---------------------------------------------------------------------------

  lemma {:induction false} InsertCommutes(ccc: Classes, s: seq<int>, x: int, y: int)
    requires ccc(x) != 0 && ccc(y) != 0 && ccc(x) != ccc(y)
    ensures InsertMark(ccc, InsertMark(ccc, s, x), y) == InsertMark(ccc, InsertMark(ccc, s, y), x)
    decreases |s|
  {
    if |s| == 0 {
      assert [x][..0] == [] && [y][..0] == [];
    } else {
      var z, front := s[|s| - 1], s[..|s| - 1];
      var sx, sy := InsertMark(ccc, front, x), InsertMark(ccc, front, y);
      assert (s + [x])[..|s|] == s && (s + [y])[..|s|] == s;
      assert (sx + [z])[..|s|] == sx && (sy + [z])[..|s|] == sy;
      InsertCommutes(ccc, front, x, y);
    }
  }

  lemma {:induction false} ReorderSnoc(ccc: Classes, s: seq<int>, c: int)
    ensures Reorder(ccc, s + [c]) == InsertMark(ccc, Reorder(ccc, s), c)
  {
    assert (s + [c])[..|s|] == s;
  }

  lemma {:induction false} SwapKeepsReorder(ccc: Classes, s: seq<int>, i: nat)
    requires Swappable(ccc, s, i)
    ensures Reorder(ccc, SwapAt(s, i)) == Reorder(ccc, s)
    decreases |s|
  {
    var n := |s| - 1;
    if i + 1 == n {
      var front := s[..i];
      assert s == front + [s[i]] + [s[n]] && SwapAt(s, i) == front + [s[n]] + [s[i]];
      ReorderSnoc(ccc, front, s[i]);
      ReorderSnoc(ccc, front + [s[i]], s[n]);
      ReorderSnoc(ccc, front, s[n]);
      ReorderSnoc(ccc, front + [s[n]], s[i]);
      InsertCommutes(ccc, Reorder(ccc, front), s[i], s[n]);
    } else {
      SwapKeepsReorder(ccc, s[..n], i);
      assert s == s[..n] + [s[n]] && SwapAt(s, i) == SwapAt(s[..n], i) + [s[n]];
      ReorderSnoc(ccc, s[..n], s[n]);
      ReorderSnoc(ccc, SwapAt(s[..n], i), s[n]);
    }
  }

  lemma {:induction false} PathKeepsReorder(ccc: Classes, s: seq<int>, path: seq<nat>, t: seq<int>)
    requires Leads(ccc, s, path, t)
    ensures Reorder(ccc, s) == Reorder(ccc, t)
    decreases |path|
  {
    if path != [] {
      SwapKeepsReorder(ccc, s, path[0]);
      PathKeepsReorder(ccc, SwapAt(s, path[0]), path[1..], t);
    }
  }

  lemma {:induction false} PathsChain(ccc: Classes, s: seq<int>, p: seq<nat>, t: seq<int>, q: seq<nat>, u: seq<int>)
    requires Leads(ccc, s, p, t) && Leads(ccc, t, q, u)
    ensures Leads(ccc, s, p + q, u)
    decreases |p|
  {
    if p == [] {
      assert p + q == q;
    } else {
      PathsChain(ccc, SwapAt(s, p[0]), p[1..], t, q, u);
      assert (p + q)[1..] == p[1..] + q;
    }
  }

  lemma {:induction false} PathReverses(ccc: Classes, s: seq<int>, path: seq<nat>, t: seq<int>) returns (back: seq<nat>)
    requires Leads(ccc, s, path, t)
    ensures Leads(ccc, t, back, s)
    decreases |path|
  {
    if path == [] {
      back := [];
    } else {
      var mid := SwapAt(s, path[0]);
      var rest := PathReverses(ccc, mid, path[1..], t);
      assert SwapAt(mid, path[0]) == s;
      assert Leads(ccc, mid, [path[0]], s) by { assert [path[0]][1..] == []; }
      PathsChain(ccc, t, rest, mid, [path[0]], s);
      back := rest + [path[0]];
    }
  }

  lemma {:induction false} PathUnderSuffix(ccc: Classes, s: seq<int>, path: seq<nat>, t: seq<int>, c: int)
    requires Leads(ccc, s, path, t)
    ensures Leads(ccc, s + [c], path, t + [c])
    decreases |path|
  {
    if path != [] {
      assert SwapAt(s + [c], path[0]) == SwapAt(s, path[0]) + [c];
      PathUnderSuffix(ccc, SwapAt(s, path[0]), path[1..], t, c);
    }
  }

  lemma {:induction false} InsertReachable(ccc: Classes, s: seq<int>, c: int) returns (path: seq<nat>)
    ensures Leads(ccc, s + [c], path, InsertMark(ccc, s, c))
    decreases |s|
  {
    if ccc(c) == 0 || |s| == 0 || ccc(s[|s| - 1]) <= ccc(c) {
      path := [];
    } else {
      var front, z := s[..|s| - 1], s[|s| - 1];
      assert SwapAt(s + [c], |s| - 1) == front + [c] + [z];
      var rest := InsertReachable(ccc, front, c);
      PathUnderSuffix(ccc, front + [c], rest, InsertMark(ccc, front, c), z);
      path := [|s| - 1] + rest;
      assert path[1..] == rest;
    }
  }

  lemma {:induction false} ReorderReachable(ccc: Classes, s: seq<int>) returns (path: seq<nat>)
    ensures Leads(ccc, s, path, Reorder(ccc, s))
    decreases |s|
  {
    if s == [] {
      path := [];
    } else {
      var front, c := s[..|s| - 1], s[|s| - 1];
      var p := ReorderReachable(ccc, front);
      PathUnderSuffix(ccc, front, p, Reorder(ccc, front), c);
      assert front + [c] == s;
      var q := InsertReachable(ccc, Reorder(ccc, front), c);
      PathsChain(ccc, s, p, Reorder(ccc, front) + [c], q, Reorder(ccc, s));
      path := p + q;
    }
  }

  lemma {:induction false} Confluence(ccc: Classes, s: seq<int>, t: seq<int>)
    ensures Equivalent(ccc, s, t) <==> Reorder(ccc, s) == Reorder(ccc, t)
  {
    if Equivalent(ccc, s, t) {
      var path :| Leads(ccc, s, path, t);
      PathKeepsReorder(ccc, s, path, t);
    }
    if Reorder(ccc, s) == Reorder(ccc, t) {
      var p := ReorderReachable(ccc, s);
      var q := ReorderReachable(ccc, t);
      var back := PathReverses(ccc, t, q, Reorder(ccc, t));
      PathsChain(ccc, s, p, Reorder(ccc, s), back, t);
    }
  }

  // ---------------------------------------------------------------------------
  // Stable sort: the result is the one ordered string with the projections of
  // the input.
  // ---------------------------------------------------------------------------

  lemma {:induction false} ProjectSnoc(ccc: Classes, s: seq<int>, c: int, k: nat)
    ensures Project(ccc, s + [c], k) == Project(ccc, s, k) + (if ccc(c) == 0 || ccc(c) == k then [c] else [])
    ensures Project(ccc, s, k) == Project(ccc, s + [c], k)[..|Project(ccc, s, k)|]
  {
    assert (s + [c])[..|s|] == s;
  }

  lemma {:induction false} InsertKeepsProjection(ccc: Classes, s: seq<int>, c: int, k: nat)
    ensures Project(ccc, InsertMark(ccc, s, c), k) == Project(ccc, s + [c], k)
    decreases |s|
  {
    if !(ccc(c) == 0 || |s| == 0 || ccc(s[|s| - 1]) <= ccc(c)) {
      var front, z := s[..|s| - 1], s[|s| - 1];
      InsertKeepsProjection(ccc, front, c, k);
      ProjectSnoc(ccc, InsertMark(ccc, front, c), z, k);
      ProjectSnoc(ccc, front, c, k);
      ProjectSnoc(ccc, s, c, k);
      assert front + [z] == s;
    }
  }

  lemma {:induction false} ReorderKeepsProjection(ccc: Classes, s: seq<int>, k: nat)
    ensures Project(ccc, Reorder(ccc, s), k) == Project(ccc, s, k)
    decreases |s|
  {
    if s != [] {
      var front, c := s[..|s| - 1], s[|s| - 1];
      ReorderKeepsProjection(ccc, front, k);
      InsertKeepsProjection(ccc, Reorder(ccc, front), c, k);
      ProjectSnoc(ccc, Reorder(ccc, front), c, k);
    }
  }

  lemma {:induction false} InsertKeepsOrdered(ccc: Classes, s: seq<int>, c: int)
    requires Ordered(ccc, s)
    ensures Ordered(ccc, InsertMark(ccc, s, c))
    ensures var r := InsertMark(ccc, s, c); r[|s|] == c || (|s| > 0 && r[|s|] == s[|s| - 1])
    decreases |s|
  {
    if !(ccc(c) == 0 || |s| == 0 || ccc(s[|s| - 1]) <= ccc(c)) {
      InsertKeepsOrdered(ccc, s[..|s| - 1], c);
    }
  }

  lemma {:induction false} ReorderIsOrdered(ccc: Classes, s: seq<int>)
    ensures Ordered(ccc, Reorder(ccc, s))
    decreases |s|
  {
    if s != [] {
      ReorderIsOrdered(ccc, s[..|s| - 1]);
      InsertKeepsOrdered(ccc, Reorder(ccc, s[..|s| - 1]), s[|s| - 1]);
    }
  }

  /** In an ordered string that ends in a mark, a later-class mark cannot end the projection on its class. */
  lemma {:induction false} LastOfProjection(ccc: Classes, s: seq<int>, k: nat)
    requires Ordered(ccc, s) && |s| > 0 && 0 < ccc(s[|s| - 1]) < k
    ensures var p := Project(ccc, s, k); p == [] || ccc(p[|p| - 1]) == 0
    decreases |s|
  {
    var front := s[..|s| - 1];
    if |front| > 0 && ccc(front[|front| - 1]) != 0 {
      LastOfProjection(ccc, front, k);
    } else if |front| > 0 {
      var p := Project(ccc, front, k);
      assert p[|p| - 1] == front[|front| - 1];
    }
  }

  lemma {:induction false} LastProjected(ccc: Classes, s: seq<int>, k: nat)
    requires |s| > 0 && (ccc(s[|s| - 1]) == 0 || ccc(s[|s| - 1]) == k)
    ensures var p := Project(ccc, s, k);
            p != [] && p[|p| - 1] == s[|s| - 1] && p[..|p| - 1] == Project(ccc, s[..|s| - 1], k)
  {
  }

  lemma {:induction false} LastsAgree(ccc: Classes, s: seq<int>, t: seq<int>)
    requires Ordered(ccc, s) && Ordered(ccc, t) && SameProjections(ccc, s, t)
    requires |s| > 0
    ensures |t| > 0 && s[|s| - 1] == t[|t| - 1]
  {
    var k := ccc(s[|s| - 1]);
    LastProjected(ccc, s, k);
    assert Project(ccc, s, k) == Project(ccc, t, k);
    var l := ccc(t[|t| - 1]);
    LastProjected(ccc, t, l);
    assert Project(ccc, s, l) == Project(ccc, t, l);
    if k != 0 && k < l {
      LastOfProjection(ccc, s, l);
    } else if l != 0 && l < k {
      LastOfProjection(ccc, t, k);
    } else if k == 0 {
      LastProjected(ccc, s, l);
    } else {
      LastProjected(ccc, t, k);
    }
  }

  lemma {:induction false} OrderedIsUnique(ccc: Classes, s: seq<int>, t: seq<int>)
    requires Ordered(ccc, s) && Ordered(ccc, t) && SameProjections(ccc, s, t)
    ensures s == t
    decreases |s|
  {
    if s == [] {
      if t != [] { LastsAgree(ccc, t, s); }
    } else {
      LastsAgree(ccc, s, t);
      var a, front, front' := s[|s| - 1], s[..|s| - 1], t[..|t| - 1];
      assert front + [a] == s && front' + [a] == t;
      forall m: nat ensures Project(ccc, front, m) == Project(ccc, front', m) {
        assert Project(ccc, s, m) == Project(ccc, t, m);
        ProjectSnoc(ccc, front, a, m);
        ProjectSnoc(ccc, front', a, m);
      }
      OrderedIsUnique(ccc, front, front');
    }
  }

  lemma {:induction false} StableSort(ccc: Classes, s: seq<int>, r: seq<int>)
    ensures r == Reorder(ccc, s) <==> Ordered(ccc, r) && SameProjections(ccc, r, s)
  {
    ReorderIsOrdered(ccc, s);
    forall k: nat ensures Project(ccc, Reorder(ccc, s), k) == Project(ccc, s, k) {
      ReorderKeepsProjection(ccc, s, k);
    }
    if Ordered(ccc, r) && SameProjections(ccc, r, s) {
      forall k: nat ensures Project(ccc, r, k) == Project(ccc, Reorder(ccc, s), k) {
        assert Project(ccc, r, k) == Project(ccc, s, k);
      }
      OrderedIsUnique(ccc, r, Reorder(ccc, s));
    }
  }

  /** A second run changes nothing, and exactly the ordered strings are left alone. */
  lemma {:induction false} ReorderFixpoint(ccc: Classes, s: seq<int>)
    ensures Reorder(ccc, s) == s <==> Ordered(ccc, s)
    ensures Reorder(ccc, Reorder(ccc, s)) == Reorder(ccc, s)
  {
    StableSort(ccc, s, s);
    ReorderIsOrdered(ccc, s);
    StableSort(ccc, Reorder(ccc, s), Reorder(ccc, s));
  }

  lemma {:induction false} InsertCounts(ccc: Classes, s: seq<int>, c: int)
    ensures multiset(InsertMark(ccc, s, c)) == multiset(s) + multiset{c}
    decreases |s|
  {
    if !(ccc(c) == 0 || |s| == 0 || ccc(s[|s| - 1]) <= ccc(c)) {
      var front, z := s[..|s| - 1], s[|s| - 1];
      InsertCounts(ccc, front, c);
      assert s == front + [z];
      assert multiset(InsertMark(ccc, front, c) + [z]) == multiset(InsertMark(ccc, front, c)) + multiset{z};
    }
  }

  lemma {:induction false} InsertKeepsStarters(ccc: Classes, s: seq<int>, c: int)
    ensures var r := InsertMark(ccc, s, c);
      forall i :: 0 <= i <= |s| ==>
        (ccc(r[i]) == 0 <==> ccc((s + [c])[i]) == 0) && (ccc(r[i]) == 0 ==> r[i] == (s + [c])[i])
    decreases |s|
  {
    if !(ccc(c) == 0 || |s| == 0 || ccc(s[|s| - 1]) <= ccc(c)) { InsertKeepsStarters(ccc, s[..|s| - 1], c); }
  }

  lemma {:induction false} ReorderCounts(ccc: Classes, s: seq<int>)
    ensures multiset(Reorder(ccc, s)) == multiset(s)
    decreases |s|
  {
    if s != [] {
      hide InsertMark;
      var front, c := s[..|s| - 1], s[|s| - 1];
      ReorderCounts(ccc, front);
      InsertCounts(ccc, Reorder(ccc, front), c);
      assert s == front + [c];
    }
  }

  lemma {:induction false} ReorderKeepsStarters(ccc: Classes, s: seq<int>)
    ensures var r := Reorder(ccc, s);
      forall i :: 0 <= i < |s| ==> (ccc(r[i]) == 0 <==> ccc(s[i]) == 0) && (ccc(s[i]) == 0 ==> r[i] == s[i])
    decreases |s|
  {
    if s != [] {
      hide InsertMark;
      var front, c := s[..|s| - 1], s[|s| - 1];
      var before, r := Reorder(ccc, front), Reorder(ccc, s);
      ReorderKeepsStarters(ccc, front);
      InsertKeepsStarters(ccc, before, c);
      forall i | 0 <= i < |s|
        ensures (ccc(r[i]) == 0 <==> ccc(s[i]) == 0) && (ccc(s[i]) == 0 ==> r[i] == s[i])
      {
        assert (before + [c])[i] == if i < |front| then before[i] else c;
        assert s[i] == if i < |front| then front[i] else c;
      }
    }
  }

  /** The result is a permutation in which every starter keeps its index. */
  lemma {:induction false} ReorderPermutes(ccc: Classes, s: seq<int>)
    ensures multiset(Reorder(ccc, s)) == multiset(s)
    ensures forall i :: 0 <= i < |s| ==> (ccc(Reorder(ccc, s)[i]) == 0 <==> ccc(s[i]) == 0)
    ensures forall i :: 0 <= i < |s| && ccc(s[i]) == 0 ==> Reorder(ccc, s)[i] == s[i]
  {
    hide Reorder;
    ReorderCounts(ccc, s);
    ReorderKeepsStarters(ccc, s);
  }
}
