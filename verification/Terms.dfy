/** Erlang terms and the tokens of their external encoding, as the builder appends them. */
module Terms {
  import opened Options

  /** One appended item. Lists are built cell by cell: a `Cell` token is followed by the
      encoding of the head and then by that of the tail. */
  datatype Token =
    | Version
    | Cell
    | Nil
    | Tuple(arity: nat)
    | Atom(name: string)
    | Str(text: string)
    | Bin(bytes: string)

  datatype Term =
    | AtomTerm(name: string)
    | StrTerm(text: string)
    | BinTerm(bytes: string)
    | TupleTerm(elems: seq<Term>)
    | ConsTerm(head: Term, tail: Term)
    | NilTerm

  function EncodeTerm(t: Term): (r: seq<Token>)
    decreases t, 1
  {
    match t
    case AtomTerm(name) => [Atom(name)]
    case StrTerm(text) => [Str(text)]
    case BinTerm(bytes) => [Bin(bytes)]
    case TupleTerm(elems) => [Tuple(|elems|)] + EncodeTerms(elems)
    case ConsTerm(head, tail) => [Cell] + EncodeTerm(head) + EncodeTerm(tail)
    case NilTerm => [Nil]
  }

  function EncodeTerms(ts: seq<Term>): (r: seq<Token>)
    decreases ts, 0
  {
    if ts == [] then [] else EncodeTerm(ts[0]) + EncodeTerms(ts[1..])
  }

  function ListTerm(ts: seq<Term>): (t: Term) {
    if ts == [] then NilTerm else ConsTerm(ts[0], ListTerm(ts[1..]))
  }

  /** The cells of a list whose tail is still open. */
  function Cells(ts: seq<Term>): (r: seq<Token>) {
    if ts == [] then [] else [Cell] + EncodeTerm(ts[0]) + Cells(ts[1..])
  }

  lemma {:induction false} CellsConcat(a: seq<Term>, b: seq<Term>)
    ensures Cells(a + b) == Cells(a) + Cells(b)
    decreases |a|
  {
    if a == [] {
      assert a + b == b;
    } else {
      hide EncodeTerm;
      CellsConcat(a[1..], b);
      assert (a + b)[1..] == a[1..] + b;
      assert Cells(a + b) == [Cell] + EncodeTerm(a[0]) + Cells(a[1..] + b);
    }
  }

  lemma {:induction false} CellsOne(t: Term)
    ensures Cells([t]) == [Cell] + EncodeTerm(t)
  {
    assert [t][1..] == [];
  }

  lemma {:induction false} ClosedCells(ts: seq<Term>)
    ensures EncodeTerm(ListTerm(ts)) == Cells(ts) + [Nil]
    decreases |ts|
  {
    if ts != [] { ClosedCells(ts[1..]); }
  }

  lemma {:induction false} TermsConcat(a: seq<Term>, b: seq<Term>)
    ensures EncodeTerms(a + b) == EncodeTerms(a) + EncodeTerms(b)
    decreases |a|
  {
    if a == [] {
      assert a + b == b;
    } else {
      TermsConcat(a[1..], b);
      assert (a + b)[1..] == a[1..] + b;
    }
  }

  // ---------------------------------------------------------------------------
  // Reading terms back.
  // ---------------------------------------------------------------------------

  /** How many terms must follow a token to complete its own. */
  function Arity(tok: Token): (n: nat) {
    match tok
    case Tuple(arity) => arity
    case Cell => 2
    case _ => 0
  }

  /** The term a token starts, given the terms that follow it. */
  function Assemble(tok: Token, parts: seq<Term>): (t: Term)
    requires !tok.Version? && |parts| == Arity(tok)
  {
    match tok
    case Cell => ConsTerm(parts[0], parts[1])
    case Nil => NilTerm
    case Tuple(_) => TupleTerm(parts)
    case Atom(name) => AtomTerm(name)
    case Str(text) => StrTerm(text)
    case Bin(bytes) => BinTerm(bytes)
  }

  /** Closes the term that `tok` starts over the first of the terms read after it. */
  function Close(tok: Token, ts: seq<Term>): (r: seq<Term>)
    requires !tok.Version? && |ts| >= Arity(tok)
    ensures |r| == |ts| - Arity(tok) + 1
  {
    [Assemble(tok, ts[..Arity(tok)])] + ts[Arity(tok)..]
  }

  datatype Reading = Garbled | Terms(terms: seq<Term>)

  /** Reads exactly `n` terms and nothing more. */
  function Read(toks: seq<Token>, n: nat): (r: Reading)
    ensures r.Terms? ==> |r.terms| == n
    decreases |toks|
  {
    if |toks| == 0 then if n == 0 then Terms([]) else Garbled
    else if n == 0 || toks[0].Version? then Garbled
    else
      var ts := Read(toks[1..], n - 1 + Arity(toks[0]));
      if ts.Garbled? then Garbled else Terms(Close(toks[0], ts.terms))
  }

  lemma {:induction false} ReadIsSound(toks: seq<Token>, n: nat)
    requires Read(toks, n).Terms?
    ensures EncodeTerms(Read(toks, n).terms) == toks
    decreases |toks|
  {
    if toks != [] {
      hide Assemble, Arity, EncodeTerm, EncodeTerms, Close;
      var n' := n - 1 + Arity(toks[0]);
      ReadIsSound(toks[1..], n');
      CloseEncodes(toks[0], Read(toks[1..], n').terms);
      assert toks == [toks[0]] + toks[1..];
    }
  }

  lemma {:induction false} CloseEncodes(tok: Token, ts: seq<Term>)
    requires !tok.Version? && |ts| >= Arity(tok)
    ensures EncodeTerms(Close(tok, ts)) == [tok] + EncodeTerms(ts)
  {
    hide Assemble, Arity, EncodeTerm, EncodeTerms;
    assert ts[..Arity(tok)] + ts[Arity(tok)..] == ts;
    AssembledOver(tok, ts[..Arity(tok)], ts[Arity(tok)..]);
  }

  lemma {:induction false} AssembledOver(tok: Token, parts: seq<Term>, rest: seq<Term>)
    requires !tok.Version? && |parts| == Arity(tok)
    ensures EncodeTerms([Assemble(tok, parts)] + rest) == [tok] + EncodeTerms(parts + rest)
  {
    hide Assemble, Arity, EncodeTerm, EncodeTerms;
    AssembleEncodes(tok, parts);
    TermsConcat(parts, rest);
    TermsCons(Assemble(tok, parts), rest);
  }

  lemma {:induction false} TermsCons(t: Term, ts: seq<Term>)
    ensures EncodeTerms([t] + ts) == EncodeTerm(t) + EncodeTerms(ts)
  {
    hide EncodeTerm;
    assert ([t] + ts)[1..] == ts;
  }

  lemma {:induction false} AssembleEncodes(tok: Token, parts: seq<Term>)
    requires !tok.Version? && |parts| == Arity(tok)
    ensures EncodeTerm(Assemble(tok, parts)) == [tok] + EncodeTerms(parts)
  {
    if tok == Cell {
      assert parts[1..][1..] == [];
      assert EncodeTerms(parts) == EncodeTerm(parts[0]) + EncodeTerms(parts[1..]);
      assert EncodeTerms(parts[1..]) == EncodeTerm(parts[1]);
    }
  }

  lemma {:induction false} ReadStep(tok: Token, toks: seq<Token>, parts: seq<Term>, ts: seq<Term>)
    requires !tok.Version? && |parts| == Arity(tok)
    requires Read(toks, |parts| + |ts|) == Terms(parts + ts)
    ensures Read([tok] + toks, |ts| + 1) == Terms([Assemble(tok, parts)] + ts)
  {
    hide Assemble, Arity, Close, Read;
    CloseOver(tok, parts, ts);
    ReadUnfolds(tok, toks, |ts| + 1);
  }

  lemma {:induction false} ReadUnfolds(tok: Token, toks: seq<Token>, n: nat)
    requires !tok.Version? && n > 0
    ensures var ts := Read(toks, n - 1 + Arity(tok));
            Read([tok] + toks, n) == if ts.Garbled? then Garbled else Terms(Close(tok, ts.terms))
  {
    hide Assemble, Arity, Close;
    assert ([tok] + toks)[1..] == toks;
  }

  lemma {:induction false} CloseOver(tok: Token, parts: seq<Term>, ts: seq<Term>)
    requires !tok.Version? && |parts| == Arity(tok)
    ensures Close(tok, parts + ts) == [Assemble(tok, parts)] + ts
  {
    hide Assemble, Arity;
    assert (parts + ts)[..|parts|] == parts && (parts + ts)[|parts|..] == ts;
  }

  lemma {:induction false} Glue(a: seq<Token>, b: seq<Token>, c: seq<Token>, d: seq<Token>)
    ensures a + b + c + d == a + (b + (c + d))
    ensures c == [] ==> a + b + d == a + (b + d)
  {
  }

  lemma {:induction false} ReadTerm(t: Term, rest: seq<Token>, ts: seq<Term>)
    requires Read(rest, |ts|) == Terms(ts)
    ensures Read(EncodeTerm(t) + rest, |ts| + 1) == Terms([t] + ts)
    decreases t, 1
  {
    hide Read;
    match t {
      case TupleTerm(elems) =>
        Glue([Tuple(|elems|)], EncodeTerms(elems), [], rest);
        ReadTerms(elems, rest, ts);
        ReadStep(Tuple(|elems|), EncodeTerms(elems) + rest, elems, ts);
      case ConsTerm(head, tail) =>
        Glue([Cell], EncodeTerm(head), EncodeTerm(tail), rest);
        assert [head] + ([tail] + ts) == [head, tail] + ts;
        ReadTerm(tail, rest, ts);
        ReadTerm(head, EncodeTerm(tail) + rest, [tail] + ts);
        ReadStep(Cell, EncodeTerm(head) + (EncodeTerm(tail) + rest), [head, tail], ts);
      case _ =>
        assert [] + ts == ts;
        ReadStep(EncodeTerm(t)[0], rest, [], ts);
    }
  }

  lemma {:induction false} ReadTerms(us: seq<Term>, rest: seq<Token>, ts: seq<Term>)
    requires Read(rest, |ts|) == Terms(ts)
    ensures Read(EncodeTerms(us) + rest, |us| + |ts|) == Terms(us + ts)
    decreases us, 0
  {
    hide Read;
    if us == [] {
      assert EncodeTerms(us) + rest == rest && us + ts == ts;
    } else {
      assert EncodeTerms(us) + rest == EncodeTerm(us[0]) + (EncodeTerms(us[1..]) + rest);
      assert us + ts == [us[0]] + (us[1..] + ts);
      ReadTerms(us[1..], rest, ts);
      ReadTerm(us[0], EncodeTerms(us[1..]) + rest, us[1..] + ts);
    }
  }

  /** Reading is the inverse of encoding: a token string is read as `ts` exactly when it encodes `ts`. */
  lemma {:induction false} ReadExactly(toks: seq<Token>, ts: seq<Term>)
    ensures Read(toks, |ts|) == Terms(ts) <==> EncodeTerms(ts) == toks
  {
    if Read(toks, |ts|) == Terms(ts) { ReadIsSound(toks, |ts|); }
    if EncodeTerms(ts) == toks {
      ReadTerms(ts, [], []);
      assert toks + [] == toks && ts + [] == ts;
    }
  }

  lemma {:induction false} OneTerm(t: Term)
    ensures EncodeTerms([t]) == EncodeTerm(t)
  {
    assert [t][1..] == [];
  }

  // ---------------------------------------------------------------------------
  // Unfinished terms: how many terms a token string still needs.
  // ---------------------------------------------------------------------------

  /** The number of terms still open after `toks`, when `n` were open before. */
  function Pending(toks: seq<Token>, n: nat): (r: Option<nat>)
    decreases |toks|
  {
    if toks == [] then Some(n)
    else if n == 0 || toks[0].Version? then None
    else Pending(toks[1..], n - 1 + Arity(toks[0]))
  }

  lemma {:induction false} PendingConcat(a: seq<Token>, b: seq<Token>, n: nat)
    ensures Pending(a + b, n) == if Pending(a, n).Some? then Pending(b, Pending(a, n).value) else None
    decreases |a|
  {
    if a == [] {
      assert a + b == b;
    } else if n > 0 && !a[0].Version? {
      assert (a + b)[1..] == a[1..] + b;
      PendingConcat(a[1..], b, n - 1 + Arity(a[0]));
    }
  }

  lemma {:induction false} PendingIsReadable(toks: seq<Token>, n: nat)
    ensures Pending(toks, n) == Some(0) <==> Read(toks, n).Terms?
    decreases |toks|
  {
    if toks != [] && n > 0 && !toks[0].Version? {
      PendingIsReadable(toks[1..], n - 1 + Arity(toks[0]));
    }
  }

  /** A whole term fills one open place. */
  lemma {:induction false} PendingTerm(t: Term, n: nat)
    requires n > 0
    ensures Pending(EncodeTerm(t), n) == Some(n - 1)
    decreases t, 1
  {
    var toks := EncodeTerm(t);
    match t {
      case TupleTerm(elems) =>
        assert toks[1..] == EncodeTerms(elems);
        PendingTerms(elems, n - 1 + |elems|);
      case ConsTerm(head, tail) =>
        assert toks[1..] == EncodeTerm(head) + EncodeTerm(tail);
        PendingTerm(head, n + 1);
        PendingTerm(tail, n);
        PendingConcat(EncodeTerm(head), EncodeTerm(tail), n + 1);
      case _ =>
        assert toks[1..] == [];
    }
  }

  lemma {:induction false} PendingTerms(ts: seq<Term>, n: nat)
    requires n >= |ts|
    ensures Pending(EncodeTerms(ts), n) == Some(n - |ts|)
    decreases ts, 0
  {
    if ts != [] {
      PendingTerm(ts[0], n);
      PendingTerms(ts[1..], n - 1);
      PendingConcat(EncodeTerm(ts[0]), EncodeTerms(ts[1..]), n);
    }
  }

  /** The cells of an open list leave its one place open. */
  lemma {:induction false} PendingCells(ts: seq<Term>, n: nat)
    requires n > 0
    ensures Pending(Cells(ts), n) == Some(n)
    decreases |ts|
  {
    if ts != [] {
      var one := [Cell] + EncodeTerm(ts[0]);
      assert one[1..] == EncodeTerm(ts[0]);
      PendingTerm(ts[0], n + 1);
      PendingCells(ts[1..], n);
      PendingConcat(one, Cells(ts[1..]), n);
    }
  }

  function Nils(k: nat): (r: seq<Token>)
    ensures |r| == k
  {
    seq(k, _ => Nil)
  }

  /** `toks` is a term with exactly `k` list tails still to be written: writing `k` empty
      lists, and no other number, completes it. */
  lemma {:induction false} OpenTails(toks: seq<Token>, k: nat, j: nat)
    requires Pending(toks, 1) == Some(k)
    ensures (exists t :: EncodeTerm(t) == toks + Nils(j)) <==> j == k
  {
    PendingConcat(toks, Nils(j), 1);
    if j == k {
      NilsPending(k, k);
      PendingIsReadable(toks + Nils(k), 1);
      ReadIsSound(toks + Nils(k), 1);
      OneTerm(Read(toks + Nils(k), 1).terms[0]);
      assert EncodeTerm(Read(toks + Nils(k), 1).terms[0]) == toks + Nils(k);
    } else if t :| EncodeTerm(t) == toks + Nils(j) {
      PendingTerm(t, 1);
      NilsPending(j, k);
    }
  }

  lemma {:induction false} NilsPending(j: nat, k: nat)
    ensures Pending(Nils(j), k) == if j <= k then Some(k - j) else None
    decreases j
  {
    if j > 0 && k > 0 {
      assert Nils(j)[1..] == Nils(j - 1);
      NilsPending(j - 1, k - 1);
    }
  }
}
