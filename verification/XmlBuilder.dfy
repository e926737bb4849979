/** The streaming builder: parser events append tokens to a half-finished term, and
    finished terms are moved to the list of complete trees. */
module XmlBuilder {
  import opened Options
  import opened Terms
  import Names = KnownNames

  // ---------------------------------------------------------------------------
  // Documents and the events the parser reports for them.
  // ---------------------------------------------------------------------------

  /** A qualified name as the parser gives it: the namespace, a separator and the local name. */
  type RawName = string

  const NS_SEP := '|'

  datatype Attr = Attr(raw: RawName, value: string)

  datatype NsDecl = NsDecl(prefix: Option<string>, uri: Option<string>)

  datatype Node =
    | Element(decls: seq<NsDecl>, raw: RawName, attrs: seq<Attr>, children: seq<Node>)
    | Text(text: string)

  datatype Event =
    | StartNs(decl: NsDecl)
    | Start(raw: RawName, attrs: seq<Attr>)
    | End(raw: RawName)
    | Data(text: string)

  function DeclEvents(decls: seq<NsDecl>): (es: seq<Event>)
    ensures |es| == |decls|
  {
    if decls == [] then [] else [StartNs(decls[0])] + DeclEvents(decls[1..])
  }

  function EventsOf(node: Node): (es: seq<Event>)
    decreases node, 1
  {
    match node
    case Element(decls, raw, attrs, children) =>
      DeclEvents(decls) + [Start(raw, attrs)] + EventsOfAll(children) + [End(raw)]
    case Text(text) => [Data(text)]
  }

  function EventsOfAll(nodes: seq<Node>): (es: seq<Event>)
    decreases nodes, 0
  {
    if nodes == [] then [] else EventsOf(nodes[0]) + EventsOfAll(nodes[1..])
  }

  // ---------------------------------------------------------------------------
  // Names.
  // ---------------------------------------------------------------------------

  function SepIndex(s: string): (i: nat)
    ensures i <= |s|
    ensures i < |s| ==> s[i] == NS_SEP
    ensures forall k :: 0 <= k < i ==> s[k] != NS_SEP
  {
    if s == "" || s[0] == NS_SEP then 0 else 1 + SepIndex(s[1..])
  }

  function SplitName(raw: RawName): (r: (Option<string>, string)) {
    var i := SepIndex(raw);
    if i == |raw| then (None, raw) else (Some(raw[..i]), raw[i + 1..])
  }

  /** A raw name is split back into its parts exactly when its namespace has no separator of its own. */
  lemma {:induction false} SplitExactly(ns: string, name: string)
    ensures SplitName(ns + [NS_SEP] + name) == (Some(ns), name) <==> NS_SEP !in ns
    ensures SplitName(name) == (None, name) <==> NS_SEP !in name
  {
    var raw := ns + [NS_SEP] + name;
    var i := SepIndex(raw);
    assert raw[|ns|] == NS_SEP;
    if NS_SEP in ns {
      var k :| 0 <= k < |ns| && ns[k] == NS_SEP;
      assert raw[k] == NS_SEP;
      assert |raw[..i]| < |ns|;
    } else {
      forall k | 0 <= k < |ns| ensures raw[k] != NS_SEP { assert raw[k] == ns[k]; }
      assert raw[..|ns|] == ns && raw[|ns| + 1..] == name;
    }
  }

  // ---------------------------------------------------------------------------
  // The terms a document stands for.
  // ---------------------------------------------------------------------------

  datatype Config = Config(rootDepth: int, emitEndtag: bool, maxSize: int, names: Names.State)

  function NameTerm(tok: Token): (t: Term)
    requires tok.Atom? || tok.Str?
  {
    match tok
    case Atom(name) => AtomTerm(name)
    case Str(text) => StrTerm(text)
  }

  function NsTerm(o: Config, raw: RawName): (t: Term) {
    NameTerm(Names.NsToken(o.names, SplitName(raw).0))
  }

  function ElemTerm(o: Config, raw: RawName): (t: Term) {
    NameTerm(Names.ElemToken(o.names, SplitName(raw).1))
  }

  /** A declaration's terms: one, or none for a cleared namespace (no URI). */
  function DeclTerm(o: Config, decl: NsDecl): (ts: seq<Term>) {
    if decl.uri.None? then []
    else [TupleTerm([NameTerm(Names.NsToken(o.names, decl.uri)),
                     if decl.prefix.None? then AtomTerm("none") else StrTerm(decl.prefix.value)])]
  }

  function DeclTerms(o: Config, decls: seq<NsDecl>): (ts: seq<Term>) {
    if decls == [] then [] else DeclTerm(o, decls[0]) + DeclTerms(o, decls[1..])
  }

  function AttrTerms(o: Config, attrs: seq<Attr>): (ts: seq<Term>) {
    if attrs == [] then []
    else
      var Attr(raw, value) := attrs[0];
      [TupleTerm([AtomTerm("xmlattr"), NsTerm(o, raw), BinTerm(SplitName(raw).1), BinTerm(value)])]
      + AttrTerms(o, attrs[1..])
  }

  /** The #xmlel record, given the terms of its declarations and what stands in its last field. */
  function RecordTerm(o: Config, decls: seq<Term>, raw: RawName, attrs: seq<Attr>, last: Term): (t: Term) {
    TupleTerm([AtomTerm("xmlel"), NsTerm(o, raw), ListTerm(decls), ElemTerm(o, raw),
               ListTerm(AttrTerms(o, attrs)), last])
  }

  function ElementTerm(o: Config, decls: seq<NsDecl>, raw: RawName, attrs: seq<Attr>, last: Term): (t: Term) {
    RecordTerm(o, DeclTerms(o, decls), raw, attrs, last)
  }

  function TextTerm(text: string): (t: Term) {
    TupleTerm([AtomTerm("xmlcdata"), BinTerm(text)])
  }

  function EndTagTerm(o: Config, raw: RawName): (t: Term) {
    TupleTerm([AtomTerm("xmlendtag"), NsTerm(o, raw), ElemTerm(o, raw)])
  }

  /** A node with its whole subtree. */
  function NodeTerm(o: Config, node: Node): (t: Term)
    decreases node, 1
  {
    match node
    case Element(decls, raw, attrs, children) => ElementTerm(o, decls, raw, attrs, ListTerm(NodeTerms(o, children)))
    case Text(text) => TextTerm(text)
  }

  function NodeTerms(o: Config, nodes: seq<Node>): (ts: seq<Term>)
    decreases nodes, 0
  {
    if nodes == [] then [] else [NodeTerm(o, nodes[0])] + NodeTerms(o, nodes[1..])
  }

  /** The trees a node at depth `d` gives, in document order: a standalone term for each
      node above the root depth (or when the feature is off), a whole subtree at it. */
  function TreesOf(o: Config, node: Node, d: nat): (ts: seq<Term>)
    decreases node, 1
  {
    match node
    case Text(text) => [TextTerm(text)]
    case Element(decls, raw, attrs, children) =>
      if d == o.rootDepth then [NodeTerm(o, node)]
      else
        [ElementTerm(o, decls, raw, attrs, AtomTerm("undefined"))]
        + TreesOfAll(o, children, d + 1)
        + (if o.emitEndtag then [EndTagTerm(o, raw)] else [])
  }

  function TreesOfAll(o: Config, nodes: seq<Node>, d: nat): (ts: seq<Term>)
    decreases nodes, 0
  {
    if nodes == [] then [] else TreesOf(o, nodes[0], d) + TreesOfAll(o, nodes[1..], d)
  }

  // ---------------------------------------------------------------------------
  // The builder, event by event.
  // ---------------------------------------------------------------------------

  /** The parsing state. `complete` starts with the version byte and its list is left open. */
  datatype Ctx = Ctx(
    curSize: int, depth: int, current: seq<Token>, complete: seq<Token>, ready: bool, declared: seq<Token>)

  const FRESH := Ctx(0, 0, [], [Version], false, [])

  function Finish(c: Ctx): (r: Ctx) {
    c.(complete := c.complete + [Cell] + c.current, ready := true, current := [])
  }

  function DeclTokens(o: Config, decl: NsDecl): (toks: seq<Token>) {
    if decl.uri.None? then []
    else [Cell, Tuple(2), Names.NsToken(o.names, decl.uri),
          if decl.prefix.None? then Atom("none") else Str(decl.prefix.value)]
  }

  function AttrTokens(o: Config, attrs: seq<Attr>): (toks: seq<Token>) {
    if attrs == [] then []
    else
      [Cell, Tuple(4), Atom("xmlattr"), Names.NsToken(o.names, SplitName(attrs[0].raw).0),
       Bin(SplitName(attrs[0].raw).1), Bin(attrs[0].value)]
      + AttrTokens(o, attrs[1..])
  }

  function HeadTokens(o: Config, declared: seq<Token>, raw: RawName, attrs: seq<Attr>): (toks: seq<Token>) {
    [Tuple(6), Atom("xmlel"), Names.NsToken(o.names, SplitName(raw).0)] + declared
    + [Nil, Names.ElemToken(o.names, SplitName(raw).1)] + AttrTokens(o, attrs) + [Nil]
  }

  /** Whether what is appended now starts a term of its own. */
  predicate Apart(o: Config, c: Ctx) {
    o.rootDepth == -1 || c.depth <= o.rootDepth
  }

  predicate Above(o: Config, depth: int) {
    o.rootDepth == -1 || depth < o.rootDepth
  }

  function Enter(o: Config, c: Ctx, raw: RawName, attrs: seq<Attr>): (r: Ctx) {
    var tree := c.current + (if Apart(o, c) then [] else [Cell]) + HeadTokens(o, c.declared, raw, attrs);
    var c1 := if Above(o, c.depth) then Finish(c.(current := tree + [Atom("undefined")])) else c.(current := tree);
    c1.(depth := c.depth + 1, declared := [])
  }

  function AddText(o: Config, c: Ctx, text: string): (r: Ctx) {
    var tree := c.current + (if Apart(o, c) then [] else [Cell]) + [Tuple(2), Atom("xmlcdata"), Bin(text)];
    if Apart(o, c) then Finish(c.(current := tree)) else c.(current := tree)
  }

  function EndTagTokens(o: Config, raw: RawName): (toks: seq<Token>) {
    [Tuple(3), Atom("xmlendtag"), Names.NsToken(o.names, SplitName(raw).0), Names.ElemToken(o.names, SplitName(raw).1)]
  }

  function Exit(o: Config, c: Ctx, raw: RawName): (r: Ctx) {
    var c1 := c.(depth := if c.depth > 0 then c.depth - 1 else c.depth);
    if o.emitEndtag && Above(o, c1.depth) then Finish(c1.(current := c.current + EndTagTokens(o, raw)))
    else if o.rootDepth != -1 && c1.depth >= o.rootDepth then
      var c2 := c1.(current := c.current + [Nil]);
      if c2.depth == o.rootDepth then Finish(c2) else c2
    else c1
  }

  function Step(o: Config, c: Ctx, e: Event): (r: Ctx) {
    match e
    case StartNs(decl) => c.(declared := c.declared + DeclTokens(o, decl))
    case Start(raw, attrs) => Enter(o, c, raw, attrs)
    case End(raw) => Exit(o, c, raw)
    case Data(text) => AddText(o, c, text)
  }

  function Run(o: Config, c: Ctx, es: seq<Event>): (r: Ctx)
    decreases |es|
  {
    if es == [] then c else Run(o, Step(o, c, es[0]), es[1..])
  }

  lemma {:induction false} RunConcat(o: Config, c: Ctx, a: seq<Event>, b: seq<Event>)
    ensures Run(o, c, a + b) == Run(o, Run(o, c, a), b)
    decreases |a|
  {
    hide Step;
    if a == [] {
      assert a + b == b;
    } else {
      RunConcat(o, Step(o, c, a[0]), a[1..], b);
      assert (a + b)[1..] == a[1..] + b;
    }
  }

  lemma {:induction false} RunOne(o: Config, c: Ctx, e: Event)
    ensures Run(o, c, [e]) == Step(o, c, e)
  {
    hide Step;
    assert [e][1..] == [];
  }

  // ---------------------------------------------------------------------------
  // The tokens of one element.
  // ---------------------------------------------------------------------------

  lemma {:induction false} Encode2(a: Term, b: Term)
    ensures EncodeTerm(TupleTerm([a, b])) == [Tuple(2)] + EncodeTerm(a) + EncodeTerm(b)
  {
    hide EncodeTerm;
    assert [a, b][1..] == [b] && [b][1..] == [];
    assert EncodeTerms([a, b]) == EncodeTerm(a) + EncodeTerms([b]);
    OneTerm(b);
    TupleEncodes([a, b]);
  }

  lemma {:induction false} TupleEncodes(ts: seq<Term>)
    ensures EncodeTerm(TupleTerm(ts)) == [Tuple(|ts|)] + EncodeTerms(ts)
  {
  }

  lemma {:induction false} TermsFront(a: Term, b: Term, c: Term, ts: seq<Term>)
    ensures EncodeTerms([a, b, c] + ts) == EncodeTerm(a) + EncodeTerm(b) + EncodeTerm(c) + EncodeTerms(ts)
  {
    hide EncodeTerm, EncodeTerms;
    assert [a, b, c] + ts == [a] + ([b] + ([c] + ts));
    TermsCons(a, [b] + ([c] + ts));
    TermsCons(b, [c] + ts);
    TermsCons(c, ts);
  }

  lemma {:induction false} Encode3(a: Term, b: Term, c: Term)
    ensures EncodeTerm(TupleTerm([a, b, c])) == [Tuple(3)] + EncodeTerm(a) + EncodeTerm(b) + EncodeTerm(c)
  {
    TupleEncodes([a, b, c]);
    hide EncodeTerm;
    TermsFront(a, b, c, []);
    assert [a, b, c] + [] == [a, b, c];
  }

  lemma {:induction false} Encode4(a: Term, b: Term, c: Term, d: Term)
    ensures EncodeTerm(TupleTerm([a, b, c, d])) ==
      [Tuple(4)] + EncodeTerm(a) + EncodeTerm(b) + EncodeTerm(c) + EncodeTerm(d)
  {
    TupleEncodes([a, b, c, d]);
    hide EncodeTerm, EncodeTerms;
    TermsFront(a, b, c, [d]);
    OneTerm(d);
    assert [a, b, c] + [d] == [a, b, c, d];
  }

  lemma {:induction false} Encode6(a: Term, b: Term, c: Term, d: Term, e: Term, f: Term)
    ensures EncodeTerm(TupleTerm([a, b, c, d, e, f])) ==
      [Tuple(6)] + EncodeTerm(a) + EncodeTerm(b) + EncodeTerm(c) + EncodeTerm(d) + EncodeTerm(e) + EncodeTerm(f)
  {
    TupleEncodes([a, b, c, d, e, f]);
    Encode3(d, e, f);
    TupleEncodes([d, e, f]);
    hide EncodeTerm, EncodeTerms;
    assert [a, b, c] + [d, e, f] == [a, b, c, d, e, f];
    TermsFront(a, b, c, [d, e, f]);
    var three := EncodeTerm(d) + EncodeTerm(e) + EncodeTerm(f);
    assert ([Tuple(3)] + three)[1..] == three && ([Tuple(3)] + EncodeTerms([d, e, f]))[1..] == EncodeTerms([d, e, f]);
    assert [Tuple(3)] + EncodeTerm(d) + EncodeTerm(e) + EncodeTerm(f) == [Tuple(3)] + three;
  }

  lemma {:induction false} NameEncodes(tok: Token)
    requires tok.Atom? || tok.Str?
    ensures EncodeTerm(NameTerm(tok)) == [tok]
  {
  }

  lemma {:induction false} LeafEncodes(s: string)
    ensures EncodeTerm(AtomTerm(s)) == [Atom(s)]
    ensures EncodeTerm(BinTerm(s)) == [Bin(s)] && EncodeTerm(StrTerm(s)) == [Str(s)]
  {
  }

  lemma {:induction false} TextEncodes(text: string)
    ensures EncodeTerm(TextTerm(text)) == [Tuple(2), Atom("xmlcdata"), Bin(text)]
  {
    hide EncodeTerm;
    Encode2(AtomTerm("xmlcdata"), BinTerm(text));
    LeafEncodes("xmlcdata");
    LeafEncodes(text);
  }

  lemma {:induction false} EndTagEncodes(o: Config, raw: RawName)
    ensures EncodeTerm(EndTagTerm(o, raw)) == EndTagTokens(o, raw)
  {
    hide EncodeTerm, NameTerm;
    Encode3(AtomTerm("xmlendtag"), NsTerm(o, raw), ElemTerm(o, raw));
    LeafEncodes("xmlendtag");
    NameEncodes(Names.NsToken(o.names, SplitName(raw).0));
    NameEncodes(Names.ElemToken(o.names, SplitName(raw).1));
  }

  lemma {:induction false} CellsCons(t: Term, ts: seq<Term>)
    ensures Cells([t] + ts) == [Cell] + EncodeTerm(t) + Cells(ts)
  {
    hide EncodeTerm;
    assert ([t] + ts)[1..] == ts;
  }

  lemma {:induction false} AttrsEncode(o: Config, attrs: seq<Attr>)
    ensures Cells(AttrTerms(o, attrs)) == AttrTokens(o, attrs)
    decreases |attrs|
  {
    hide EncodeTerm, Cells, NameTerm, SplitName, Names.NsToken;
    if attrs == [] {
      CellsNone();
    } else {
      var Attr(raw, value) := attrs[0];
      var ns, name := NsTerm(o, raw), SplitName(raw).1;
      AttrsEncode(o, attrs[1..]);
      CellsCons(TupleTerm([AtomTerm("xmlattr"), ns, BinTerm(name), BinTerm(value)]), AttrTerms(o, attrs[1..]));
      Encode4(AtomTerm("xmlattr"), ns, BinTerm(name), BinTerm(value));
      LeafEncodes("xmlattr");
      LeafEncodes(name);
      LeafEncodes(value);
      NameEncodes(Names.NsToken(o.names, SplitName(raw).0));
    }
  }

  lemma {:induction false} CellsNone()
    ensures Cells([]) == []
  {
  }

  lemma {:induction false} DeclEncodes(o: Config, decl: NsDecl)
    ensures Cells(DeclTerm(o, decl)) == DeclTokens(o, decl)
  {
    hide EncodeTerm, Cells, NameTerm, Names.NsToken;
    if decl.uri.None? {
      CellsNone();
    } else {
      var prefix := if decl.prefix.None? then AtomTerm("none") else StrTerm(decl.prefix.value);
      var ns := Names.NsToken(o.names, decl.uri);
      CellsOne(TupleTerm([NameTerm(ns), prefix]));
      Encode2(NameTerm(ns), prefix);
      NameEncodes(ns);
      LeafEncodes("none");
      if decl.prefix.Some? { LeafEncodes(decl.prefix.value); }
    }
  }

  lemma {:induction false} HeadEncodes(o: Config, ds: seq<Term>, raw: RawName, attrs: seq<Attr>, last: Term)
    ensures EncodeTerm(RecordTerm(o, ds, raw, attrs, last)) == HeadTokens(o, Cells(ds), raw, attrs) + EncodeTerm(last)
  {
    hide EncodeTerm, Cells, NameTerm, SplitName, AttrTerms, AttrTokens, ListTerm, Names.NsToken, Names.ElemToken;
    var ns, elem := Names.NsToken(o.names, SplitName(raw).0), Names.ElemToken(o.names, SplitName(raw).1);
    var ats := AttrTerms(o, attrs);
    Encode6(AtomTerm("xmlel"), NameTerm(ns), ListTerm(ds), NameTerm(elem), ListTerm(ats), last);
    LeafEncodes("xmlel");
    NameEncodes(ns);
    NameEncodes(elem);
    ClosedCells(ds);
    ClosedCells(ats);
    AttrsEncode(o, attrs);
  }

  // ---------------------------------------------------------------------------
  // The builder compiles documents: what a run over a document appends.
  // ---------------------------------------------------------------------------

  lemma {:induction false} RunDecls(o: Config, c: Ctx, decls: seq<NsDecl>)
    ensures Run(o, c, DeclEvents(decls)) == c.(declared := c.declared + Cells(DeclTerms(o, decls)))
    decreases |decls|
  {
    hide EncodeTerm, Cells, DeclTerm, DeclTokens;
    if decls == [] {
      CellsNone();
      assert c.declared + [] == c.declared;
    } else {
      hide Enter, Exit, AddText;
      var c1 := Step(o, c, StartNs(decls[0]));
      assert DeclEvents(decls)[1..] == DeclEvents(decls[1..]);
      RunDecls(o, c1, decls[1..]);
      DeclEncodes(o, decls[0]);
      CellsConcat(DeclTerm(o, decls[0]), DeclTerms(o, decls[1..]));
      Regroup(c.declared, DeclTokens(o, decls[0]), Cells(DeclTerms(o, decls[1..])));
    }
  }

  /** The run over one element, from the state after its children. */
  lemma {:induction false} RunElement(
    o: Config, c: Ctx, decls: seq<NsDecl>, raw: RawName, attrs: seq<Attr>, children: seq<Node>)
    requires c.declared == []
    ensures Run(o, c, EventsOf(Element(decls, raw, attrs, children))) ==
      Exit(o, Run(o, Enter(o, c.(declared := Cells(DeclTerms(o, decls))), raw, attrs), EventsOfAll(children)), raw)
  {
    hide Enter, Exit, Cells, DeclTerms, DeclEvents;
    var d, s, k, e := DeclEvents(decls), [Start(raw, attrs)], EventsOfAll(children), [End(raw)];
    RunDecls(o, c, decls);
    var c1 := c.(declared := Cells(DeclTerms(o, decls)));
    assert [] + Cells(DeclTerms(o, decls)) == Cells(DeclTerms(o, decls));
    RunConcat(o, c, d + s + k, e);
    RunConcat(o, c, d + s, k);
    RunConcat(o, c, d, s);
    RunOne(o, c1, Start(raw, attrs));
    RunOne(o, Run(o, Enter(o, c1, raw, attrs), k), End(raw));
  }

  /** Below the root depth a forest is appended to the current tree as cells of its parent's list. */
  lemma {:induction false} RunBelowAll(o: Config, c: Ctx, nodes: seq<Node>)
    requires o.rootDepth != -1 && 0 <= c.depth && o.rootDepth < c.depth && c.declared == []
    ensures Run(o, c, EventsOfAll(nodes)) == c.(current := c.current + Cells(NodeTerms(o, nodes)))
    decreases nodes, 0
  {
    hide EncodeTerm, Cells, Step, NodeTerm;
    if nodes == [] {
      CellsNone();
      assert c.current + [] == c.current;
    } else {
      RunBelow(o, c, nodes[0]);
      RunConcat(o, c, EventsOf(nodes[0]), EventsOfAll(nodes[1..]));
      var c1 := Run(o, c, EventsOf(nodes[0]));
      RunBelowAll(o, c1, nodes[1..]);
      CellsCons(NodeTerm(o, nodes[0]), NodeTerms(o, nodes[1..]));
      assert c.current + ([Cell] + EncodeTerm(NodeTerm(o, nodes[0]))) + Cells(NodeTerms(o, nodes[1..]))
          == c.current + ([Cell] + EncodeTerm(NodeTerm(o, nodes[0])) + Cells(NodeTerms(o, nodes[1..])));
    }
  }

  lemma {:induction false} RunBelow(o: Config, c: Ctx, node: Node)
    requires o.rootDepth != -1 && 0 <= c.depth && o.rootDepth < c.depth && c.declared == []
    ensures Run(o, c, EventsOf(node)) == c.(current := c.current + ([Cell] + EncodeTerm(NodeTerm(o, node))))
    decreases node, 1
  {
    match node {
      case Text(text) =>
        TextBelow(o, c, text);
      case Element(decls, raw, attrs, children) =>
        var ds := Cells(DeclTerms(o, decls));
        var head := HeadTokens(o, ds, raw, attrs);
        var c1 := Enter(o, c.(declared := ds), raw, attrs);
        RunElement(o, c, decls, raw, attrs, children);
        RunBelowAll(o, c1, children);
        hide EncodeTerm, Cells, HeadTokens, Run, EventsOf, EventsOfAll, RecordTerm, NodeTerms, DeclTerms, ListTerm;
        HeadEncodes(o, DeclTerms(o, decls), raw, attrs, ListTerm(NodeTerms(o, children)));
        ClosedCells(NodeTerms(o, children));
        Regroup5(c.current, [Cell], head, Cells(NodeTerms(o, children)), [Nil]);
    }
  }

  lemma {:induction false} TextBelow(o: Config, c: Ctx, text: string)
    requires o.rootDepth != -1 && o.rootDepth < c.depth
    ensures Run(o, c, EventsOf(Text(text))) == c.(current := c.current + ([Cell] + EncodeTerm(TextTerm(text))))
  {
    RunOne(o, c, Data(text));
    TextEncodes(text);
    hide EncodeTerm;
    Regroup(c.current, [Cell], EncodeTerm(TextTerm(text)));
  }

  lemma {:induction false} Regroup(a: seq<Token>, b: seq<Token>, c: seq<Token>)
    ensures a + b + c == a + (b + c)
  {
  }

  lemma {:induction false} Regroup5(a: seq<Token>, b: seq<Token>, c: seq<Token>, d: seq<Token>, e: seq<Token>)
    ensures a + b + c + d + e == a + (b + (c + (d + e)))
  {
  }

  /** What finishing a run of trees does to the state. */
  function Gained(c: Ctx, ts: seq<Term>): (r: Ctx) {
    c.(complete := c.complete + Cells(ts), ready := c.ready || ts != [])
  }

  lemma {:induction false} GainedNone(c: Ctx)
    ensures Gained(c, []) == c
  {
    assert c.complete + [] == c.complete;
  }

  lemma {:induction false} GainedTwice(c: Ctx, a: seq<Term>, b: seq<Term>)
    ensures Gained(Gained(c, a), b) == Gained(c, a + b)
  {
    hide Cells;
    CellsConcat(a, b);
    Regroup(c.complete, Cells(a), Cells(b));
    assert a + b != [] <==> a != [] || b != [];
  }

  lemma {:induction false} GainedOne(c: Ctx, t: Term, toks: seq<Token>)
    requires EncodeTerm(t) == toks
    ensures Finish(c.(current := toks)) == Gained(c.(current := []), [t])
  {
    hide EncodeTerm, Cells;
    CellsOne(t);
    Regroup(c.complete, [Cell], toks);
  }

  /** At or above the root depth a forest adds its trees to the complete list. */
  lemma {:induction false} RunAboveAll(o: Config, c: Ctx, nodes: seq<Node>)
    requires 0 <= c.depth && Apart(o, c) && c.current == [] && c.declared == []
    ensures Run(o, c, EventsOfAll(nodes)) == Gained(c, TreesOfAll(o, nodes, c.depth))
    decreases nodes, 0
  {
    hide Gained, Step, EventsOf, TreesOf;
    if nodes == [] {
      GainedNone(c);
    } else {
      RunAbove(o, c, nodes[0]);
      RunConcat(o, c, EventsOf(nodes[0]), EventsOfAll(nodes[1..]));
      var c1 := Run(o, c, EventsOf(nodes[0]));
      GainedKeeps(c, TreesOf(o, nodes[0], c.depth));
      RunAboveAll(o, c1, nodes[1..]);
      GainedTwice(c, TreesOf(o, nodes[0], c.depth), TreesOfAll(o, nodes[1..], c.depth));
    }
  }

  lemma {:induction false} GainedKeeps(c: Ctx, ts: seq<Term>)
    ensures var r := Gained(c, ts); r.depth == c.depth && r.current == c.current && r.declared == c.declared
  {
  }

  lemma {:induction false} RunAbove(o: Config, c: Ctx, node: Node)
    requires 0 <= c.depth && Apart(o, c) && c.current == [] && c.declared == []
    ensures Run(o, c, EventsOf(node)) == Gained(c, TreesOf(o, node, c.depth))
    decreases node, 1
  {
    hide Run, EventsOf, EventsOfAll, Enter, Exit, Cells, EncodeTerm, NodeTerm, ElementTerm, TreesOfAll;
    match node {
      case Text(text) =>
        TextAbove(o, c, text);
      case Element(decls, raw, attrs, children) =>
        RunElement(o, c, decls, raw, attrs, children);
        if c.depth == o.rootDepth {
          RunRoot(o, c, decls, raw, attrs, children);
        } else {
          EnterAbove(o, c, decls, raw, attrs);
          var c1 := Enter(o, c.(declared := Cells(DeclTerms(o, decls))), raw, attrs);
          RunAboveAll(o, c1, children);
          ExitAbove(o, c, decls, raw, attrs, TreesOfAll(o, children, c.depth + 1));
        }
    }
  }

  lemma {:induction false} TextAbove(o: Config, c: Ctx, text: string)
    requires Apart(o, c) && c.current == []
    ensures Run(o, c, EventsOf(Text(text))) == Gained(c, [TextTerm(text)])
  {
    hide EncodeTerm, Cells;
    RunOne(o, c, Data(text));
    TextEncodes(text);
    GainedOne(c, TextTerm(text), EncodeTerm(TextTerm(text)));
  }

  /** A subtree rooted at the root depth becomes one complete tree. */
  lemma {:induction false} RunRoot(
    o: Config, c: Ctx, decls: seq<NsDecl>, raw: RawName, attrs: seq<Attr>, children: seq<Node>)
    requires 0 <= c.depth == o.rootDepth && c.current == [] && c.declared == []
    ensures
      Exit(o, Run(o, Enter(o, c.(declared := Cells(DeclTerms(o, decls))), raw, attrs), EventsOfAll(children)), raw)
      == Gained(c, [NodeTerm(o, Element(decls, raw, attrs, children))])
    decreases children, 1
  {
    var ds := Cells(DeclTerms(o, decls));
    var head := HeadTokens(o, ds, raw, attrs);
    var c1 := Enter(o, c.(declared := ds), raw, attrs);
    RunBelowAll(o, c1, children);
    hide EncodeTerm, Cells, HeadTokens, Run, EventsOf, EventsOfAll;
    HeadEncodes(o, DeclTerms(o, decls), raw, attrs, ListTerm(NodeTerms(o, children)));
    ClosedCells(NodeTerms(o, children));
    Regroup(head, Cells(NodeTerms(o, children)), [Nil]);
    var t := NodeTerm(o, Element(decls, raw, attrs, children));
    assert [] + [] + head == head;
    GainedOne(c, t, EncodeTerm(t));
    hide Gained;
  }

  /** Entering an element above the root depth finishes its standalone term. */
  lemma {:induction false} EnterAbove(o: Config, c: Ctx, decls: seq<NsDecl>, raw: RawName, attrs: seq<Attr>)
    requires 0 <= c.depth && Above(o, c.depth) && c.current == [] && c.declared == []
    ensures Enter(o, c.(declared := Cells(DeclTerms(o, decls))), raw, attrs) ==
      Gained(c.(depth := c.depth + 1), [ElementTerm(o, decls, raw, attrs, AtomTerm("undefined"))])
  {
    hide EncodeTerm, Cells, HeadTokens;
    var ds := Cells(DeclTerms(o, decls));
    var t := ElementTerm(o, decls, raw, attrs, AtomTerm("undefined"));
    HeadEncodes(o, DeclTerms(o, decls), raw, attrs, AtomTerm("undefined"));
    LeafEncodes("undefined");
    assert [] + [] + HeadTokens(o, ds, raw, attrs) == HeadTokens(o, ds, raw, attrs);
    GainedOne(c.(depth := c.depth + 1), t, EncodeTerm(t));
  }

  lemma {:induction false} ExitAbove(
    o: Config, c: Ctx, decls: seq<NsDecl>, raw: RawName, attrs: seq<Attr>, inner: seq<Term>)
    requires 0 <= c.depth && Above(o, c.depth) && c.current == [] && c.declared == []
    ensures var opening := [ElementTerm(o, decls, raw, attrs, AtomTerm("undefined"))];
            Exit(o, Gained(Gained(c.(depth := c.depth + 1), opening), inner), raw)
            == Gained(c, opening + inner + (if o.emitEndtag then [EndTagTerm(o, raw)] else []))
  {
    hide EncodeTerm, Cells, ElementTerm, EndTagTerm;
    var opening := [ElementTerm(o, decls, raw, attrs, AtomTerm("undefined"))];
    GainedTwice(c.(depth := c.depth + 1), opening, inner);
    var c1 := Gained(c, opening + inner);
    if o.emitEndtag {
      EndTagEncodes(o, raw);
      assert [] + EndTagTokens(o, raw) == EndTagTokens(o, raw);
      GainedOne(c1, EndTagTerm(o, raw), EndTagTokens(o, raw));
      GainedTwice(c, opening + inner, [EndTagTerm(o, raw)]);
    } else {
      assert opening + inner + [] == opening + inner;
    }
  }

  /** For every document and every root depth from -1 up, the run leaves exactly the
      document's trees, as an open list, and nothing half-finished. */
  lemma {:induction false} DocumentCompiles(o: Config, doc: seq<Node>)
    requires o.rootDepth >= -1
    ensures var r := Run(o, FRESH, EventsOfAll(doc));
      && r.complete + [Nil] == [Version] + EncodeTerm(ListTerm(TreesOfAll(o, doc, 0)))
      && (r.ready <==> TreesOfAll(o, doc, 0) != [])
      && r == FRESH.(complete := r.complete, ready := r.ready)
  {
    hide Cells, EncodeTerm, TreesOfAll, Run;
    RunAboveAll(o, FRESH, doc);
    ClosedCells(TreesOfAll(o, doc, 0));
    Regroup([Version], Cells(TreesOfAll(o, doc, 0)), [Nil]);
  }

  /** With a root depth below -1 no tree is ever completed. */
  lemma {:induction false} DocumentNeverCompletes(o: Config, doc: seq<Node>)
    requires o.rootDepth < -1
    ensures Run(o, FRESH, EventsOfAll(doc)) == FRESH.(current := Cells(NodeTerms(o, doc)))
  {
    RunBelowAll(o, FRESH, doc);
    assert [] + Cells(NodeTerms(o, doc)) == Cells(NodeTerms(o, doc));
  }
}
