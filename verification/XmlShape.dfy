/** What every prefix of a well-nested run keeps: the shape of the half-finished term. */
module XmlShape {
  import opened Options
  import opened Terms
  import opened XmlBuilder

  /** No end tag comes before its start tag, from depth `d` on. */
  predicate Nested(es: seq<Event>, d: nat)
    decreases |es|
  {
    es == [] ||
    match es[0]
    case Start(_, _) => Nested(es[1..], d + 1)
    case End(_) => d > 0 && Nested(es[1..], d - 1)
    case _ => Nested(es[1..], d)
  }

  ghost predicate OpenList(toks: seq<Token>) {
    exists ts :: toks == Cells(ts)
  }

  ghost predicate HoldsTrees(c: Ctx, ts: seq<Term>) {
    c.complete == [Version] + Cells(ts) && (c.ready <==> ts != [])
  }

  /** The current tree is empty when terms stand apart, and otherwise is a term with one
      open list tail for each open element at or below the root depth. */
  ghost predicate TreeShape(o: Config, c: Ctx) {
    if Apart(o, c) then c.current == [] else Pending(c.current, 1) == Some((c.depth - o.rootDepth) as nat)
  }

  ghost predicate Shape(o: Config, c: Ctx) {
    && c.depth >= 0
    && TreeShape(o, c)
    && OpenList(c.declared)
    && exists ts :: HoldsTrees(c, ts)
  }

  lemma {:induction false} FreshShape(o: Config)
    requires o.rootDepth >= -1
    ensures Shape(o, FRESH)
  {
    assert FRESH.declared == Cells([]);
    assert HoldsTrees(FRESH, []);
  }

  lemma {:induction false} FinishHolds(c: Ctx, ts: seq<Term>)
    requires HoldsTrees(c, ts) && Pending(c.current, 1) == Some(0)
    ensures exists us :: HoldsTrees(Finish(c), us)
  {
    hide Cells, EncodeTerm, Pending;
    OpenTails(c.current, 0, 0);
    assert Nils(0) == [] && c.current + [] == c.current;
    var t :| EncodeTerm(t) == c.current + Nils(0);
    CellsConcat(ts, [t]);
    CellsOne(t);
    assert Finish(c).complete == [Version] + Cells(ts + [t]);
    assert HoldsTrees(Finish(c), ts + [t]);
  }

  lemma {:induction false} HeadPending(o: Config, ds: seq<Term>, raw: RawName, attrs: seq<Attr>, n: nat)
    requires n > 0
    ensures Pending(HeadTokens(o, Cells(ds), raw, attrs), n) == Some(n)
  {
    hide HeadTokens, Cells, EncodeTerm, RecordTerm;
    var head := HeadTokens(o, Cells(ds), raw, attrs);
    HeadEncodes(o, ds, raw, attrs, NilTerm);
    PendingTerm(RecordTerm(o, ds, raw, attrs, NilTerm), n);
    PendingConcat(head, EncodeTerm(NilTerm), n);
    assert EncodeTerm(NilTerm) == [Nil] by { NilEncodes(); }
    LeafPending(head, n);
  }

  lemma {:induction false} NilEncodes()
    ensures EncodeTerm(NilTerm) == [Nil]
  {
  }

  lemma {:induction false} LeafPending(head: seq<Token>, n: nat)
    requires n > 0
    requires Pending(head, n).Some? && Pending([Nil], Pending(head, n).value) == Some((n - 1) as nat)
    ensures Pending(head, n) == Some(n)
  {
    assert [Nil][1..] == [];
  }

  lemma {:induction false} CellPending(n: nat)
    requires n > 0
    ensures Pending([Cell], n) == Some(n + 1) && Pending([Nil], n) == Some((n - 1) as nat)
  {
    assert [Cell][1..] == [] && [Nil][1..] == [];
  }

  /** Appending the head of an element opens one more place. */
  lemma {:induction false} EnterPending(o: Config, c: Ctx, raw: RawName, attrs: seq<Attr>)
    requires Shape(o, c)
    ensures var tree := c.current + (if Apart(o, c) then [] else [Cell]) + HeadTokens(o, c.declared, raw, attrs);
      Pending(tree, 1) == Some(if Apart(o, c) then 1 else (c.depth - o.rootDepth + 1) as nat)
  {
    hide HeadTokens, Cells, Pending;
    var ds :| c.declared == Cells(ds);
    var head := HeadTokens(o, c.declared, raw, attrs);
    if Apart(o, c) {
      assert [] + [] + head == head;
      HeadPending(o, ds, raw, attrs, 1);
    } else {
      var n: nat := c.depth - o.rootDepth;
      CellPending(n);
      PendingConcat(c.current, [Cell], 1);
      PendingConcat(c.current + [Cell], head, 1);
      HeadPending(o, ds, raw, attrs, n + 1);
    }
  }

  lemma {:induction false} LeafFills(toks: seq<Token>, k: nat)
    requires Pending(toks, 1) == Some(k) && k > 0
    ensures Pending(toks + [Atom("undefined")], 1) == Some((k - 1) as nat)
    ensures Pending(toks + [Nil], 1) == Some((k - 1) as nat)
  {
    PendingConcat(toks, [Atom("undefined")], 1);
    PendingConcat(toks, [Nil], 1);
    assert [Atom("undefined")][1..] == [] && [Nil][1..] == [];
  }

  lemma {:induction false} EnterKeepsShape(o: Config, c: Ctx, raw: RawName, attrs: seq<Attr>)
    requires o.rootDepth >= -1 && Shape(o, c)
    ensures Shape(o, Enter(o, c, raw, attrs))
  {
    EnterPending(o, c, raw, attrs);
    hide HeadTokens, Pending;
    var ts :| HoldsTrees(c, ts);
    var tree := c.current + (if Apart(o, c) then [] else [Cell]) + HeadTokens(o, c.declared, raw, attrs);
    assert [] == Cells([]);
    if Above(o, c.depth) {
      LeafFills(tree, 1);
      FinishHolds(c.(current := tree + [Atom("undefined")]), ts);
      var us :| HoldsTrees(Finish(c.(current := tree + [Atom("undefined")])), us);
      assert HoldsTrees(Enter(o, c, raw, attrs), us);
    } else {
      assert HoldsTrees(Enter(o, c, raw, attrs), ts);
    }
  }

  lemma {:induction false} TextKeepsShape(o: Config, c: Ctx, text: string)
    requires o.rootDepth >= -1 && Shape(o, c)
    ensures Shape(o, AddText(o, c, text))
  {
    hide Pending, EncodeTerm, TextTerm;
    var ts :| HoldsTrees(c, ts);
    var toks := [Tuple(2), Atom("xmlcdata"), Bin(text)];
    TextEncodes(text);
    if Apart(o, c) {
      assert [] + [] + toks == toks;
      PendingTerm(TextTerm(text), 1);
      FinishHolds(c.(current := toks), ts);
    } else {
      var n: nat := c.depth - o.rootDepth;
      CellPending(n);
      PendingConcat(c.current, [Cell], 1);
      PendingConcat(c.current + [Cell], toks, 1);
      PendingTerm(TextTerm(text), n + 1);
      assert HoldsTrees(AddText(o, c, text), ts);
    }
  }

  lemma {:induction false} ExitKeepsShape(o: Config, c: Ctx, raw: RawName)
    requires o.rootDepth >= -1 && Shape(o, c) && c.depth > 0
    ensures Shape(o, Exit(o, c, raw))
  {
    hide Pending, EncodeTerm, EndTagTokens, EndTagTerm;
    var ts :| HoldsTrees(c, ts);
    var c1 := c.(depth := c.depth - 1);
    if o.emitEndtag && Above(o, c1.depth) {
      EndTagEncodes(o, raw);
      PendingTerm(EndTagTerm(o, raw), 1);
      assert [] + EndTagTokens(o, raw) == EndTagTokens(o, raw);
      FinishHolds(c1.(current := EndTagTokens(o, raw)), ts);
    } else if o.rootDepth != -1 && c1.depth >= o.rootDepth {
      var n: nat := c.depth - o.rootDepth;
      LeafFills(c.current, n);
      var c2 := c1.(current := c.current + [Nil]);
      if c2.depth == o.rootDepth {
        FinishHolds(c2, ts);
      } else {
        assert HoldsTrees(c2, ts);
      }
    } else {
      assert HoldsTrees(c1, ts);
    }
  }

  lemma {:induction false} StepKeepsShape(o: Config, c: Ctx, e: Event)
    requires o.rootDepth >= -1 && Shape(o, c) && (e.End? ==> c.depth > 0)
    ensures Shape(o, Step(o, c, e))
    ensures Step(o, c, e).depth == c.depth + (if e.Start? then 1 else if e.End? then -1 else 0)
  {
    match e {
      case Start(raw, attrs) => EnterKeepsShape(o, c, raw, attrs);
      case End(raw) => ExitKeepsShape(o, c, raw);
      case Data(text) => TextKeepsShape(o, c, text);
      case StartNs(decl) =>
        var ds :| c.declared == Cells(ds);
        DeclEncodes(o, decl);
        CellsConcat(ds, DeclTerm(o, decl));
        assert Step(o, c, e).declared == Cells(ds + DeclTerm(o, decl));
        var ts :| HoldsTrees(c, ts);
        assert HoldsTrees(Step(o, c, e), ts);
    }
  }

  /** Every prefix of a nested run has the shape. */
  lemma {:induction false} RunKeepsShape(o: Config, c: Ctx, es: seq<Event>)
    requires o.rootDepth >= -1 && Shape(o, c) && Nested(es, c.depth)
    ensures Shape(o, Run(o, c, es))
    decreases |es|
  {
    if es != [] {
      hide Shape, Step;
      assert c.depth >= 0 by { ShapeDepth(o, c); }
      StepKeepsShape(o, c, es[0]);
      RunKeepsShape(o, Step(o, c, es[0]), es[1..]);
    }
  }

  lemma {:induction false} ShapeDepth(o: Config, c: Ctx)
    requires Shape(o, c)
    ensures c.depth >= 0
  {
  }

  // ---------------------------------------------------------------------------
  // Documents are nested, and so is every prefix of their events.
  // ---------------------------------------------------------------------------

  lemma {:induction false} NestedPrefix(a: seq<Event>, b: seq<Event>, d: nat)
    requires Nested(a + b, d)
    ensures Nested(a, d)
    decreases |a|
  {
    if a != [] {
      assert (a + b)[1..] == a[1..] + b;
      NestedPrefix(a[1..], b, if a[0].Start? then d + 1 else if a[0].End? then d - 1 else d);
    }
  }

  lemma {:induction false} NestedNode(node: Node, rest: seq<Event>, d: nat)
    requires Nested(rest, d)
    ensures Nested(EventsOf(node) + rest, d)
    decreases node, 1
  {
    match node {
      case Text(text) =>
        assert (EventsOf(node) + rest)[1..] == rest;
      case Element(decls, raw, attrs, children) =>
        var tail := [End(raw)] + rest;
        assert tail[1..] == rest;
        NestedNodes(children, tail, d + 1);
        NestedStart(raw, attrs, EventsOfAll(children) + tail, d);
        NestedDecls(decls, [Start(raw, attrs)] + (EventsOfAll(children) + tail), d);
        hide Nested, EventsOfAll, DeclEvents;
        EventsSplit(DeclEvents(decls), [Start(raw, attrs)], EventsOfAll(children), [End(raw)], rest);
    }
  }

  lemma {:induction false} NestedStart(raw: RawName, attrs: seq<Attr>, rest: seq<Event>, d: nat)
    requires Nested(rest, d + 1)
    ensures Nested([Start(raw, attrs)] + rest, d)
  {
    assert ([Start(raw, attrs)] + rest)[1..] == rest;
  }

  lemma {:induction false} EventsSplit(a: seq<Event>, b: seq<Event>, c: seq<Event>, d: seq<Event>, e: seq<Event>)
    ensures a + b + c + d + e == a + (b + (c + (d + e)))
  {
  }

  lemma {:induction false} NestedDecls(decls: seq<NsDecl>, rest: seq<Event>, d: nat)
    requires Nested(rest, d)
    ensures Nested(DeclEvents(decls) + rest, d)
    decreases |decls|
  {
    if decls == [] {
      assert DeclEvents(decls) + rest == rest;
    } else {
      assert (DeclEvents(decls) + rest)[1..] == DeclEvents(decls[1..]) + rest;
      NestedDecls(decls[1..], rest, d);
    }
  }

  lemma {:induction false} NestedNodes(nodes: seq<Node>, rest: seq<Event>, d: nat)
    requires Nested(rest, d)
    ensures Nested(EventsOfAll(nodes) + rest, d)
    decreases nodes, 0
  {
    if nodes == [] {
      assert EventsOfAll(nodes) + rest == rest;
    } else {
      hide Nested, EventsOf;
      assert EventsOfAll(nodes) + rest == EventsOf(nodes[0]) + (EventsOfAll(nodes[1..]) + rest);
      NestedNodes(nodes[1..], rest, d);
      NestedNode(nodes[0], EventsOfAll(nodes[1..]) + rest, d);
    }
  }

  /** At every point inside a document the current tree is empty when terms stand apart, and
      otherwise is completed by exactly `depth - rootDepth` list ends, no more and no fewer. */
  lemma {:induction false} PrefixShape(o: Config, doc: seq<Node>, n: nat, j: nat)
    requires o.rootDepth >= -1 && n <= |EventsOfAll(doc)|
    ensures var c := Run(o, FRESH, EventsOfAll(doc)[..n]);
      if Apart(o, c) then c.current == []
      else (exists t :: EncodeTerm(t) == c.current + Nils(j)) <==> j == c.depth - o.rootDepth
  {
    hide Run, EventsOfAll, EncodeTerm, Pending, Nested;
    var es := EventsOfAll(doc);
    NestedNodes(doc, [], 0) by { NothingNested(); }
    assert es + [] == es && es[..n] + es[n..] == es;
    NestedPrefix(es[..n], es[n..], 0);
    FreshShape(o);
    RunKeepsShape(o, FRESH, es[..n]);
    var c := Run(o, FRESH, es[..n]);
    if !Apart(o, c) { OpenTails(c.current, c.depth - o.rootDepth, j); }
  }

  lemma {:induction false} NothingNested()
    ensures Nested([], 0)
  {
  }
}
