/** The port driver: parse commands cut the input anywhere between events. The parser
    itself is an oracle that delivers the events of a chunk. */
module XmlDriver {
  import opened Options
  import opened Terms
  import opened XmlBuilder
  import opened XmlShape

  /** One parse command: the events its data completes, the size of that data, and whether the
      parser rejects it after those events. */
  datatype Chunk = Chunk(events: seq<Event>, size: nat, malformed: bool)

  datatype Reply = Trees(toks: seq<Token>) | Continue | Done | TooBig | ParsingFailed

  datatype Driver = Driver(parser: bool, ctx: Ctx)

  const IDLE := Driver(false, FRESH)

  predicate UnderLimit(o: Config, c: Ctx, size: nat) {
    !(o.maxSize > -1 && c.curSize + size > o.maxSize)
  }

  function ReplyOf(c: Ctx, final: bool): (r: Reply) {
    if c.ready then Trees(c.complete + [Nil]) else if final then Done else Continue
  }

  /** The state the next chunk starts from. */
  function NextChunk(c: Ctx, size: nat): (r: Ctx) {
    c.(curSize := c.curSize + size, complete := [Version], ready := false)
  }

  function Parse(o: Config, d: Driver, k: Chunk, final: bool): (r: (Driver, Reply)) {
    if !UnderLimit(o, d.ctx, k.size) then (Driver(true, d.ctx), TooBig)
    else
      var c := Run(o, d.ctx, k.events);
      if k.malformed then (Driver(true, c), ParsingFailed)
      else (if final then IDLE else Driver(true, NextChunk(c, k.size)), ReplyOf(c, final))
  }

  /** A reset clears the tree buffers but not the declared namespaces; without a parser it does nothing. */
  function Reset(d: Driver): (r: Driver) {
    if d.parser then Driver(true, FRESH.(declared := d.ctx.declared)) else d
  }

  function ParseAll(o: Config, d: Driver, ks: seq<Chunk>): (r: (Driver, seq<Reply>))
    ensures |r.1| == |ks|
    decreases |ks|
  {
    if ks == [] then (d, [])
    else
      var (d1, reply) := Parse(o, d, ks[0], false);
      var (d2, replies) := ParseAll(o, d1, ks[1..]);
      (d2, [reply] + replies)
  }

  predicate ErrorFree(ks: seq<Chunk>) {
    forall i :: 0 <= i < |ks| ==> !ks[i].malformed
  }

  function EventsOfChunks(ks: seq<Chunk>): (es: seq<Event>) {
    if ks == [] then [] else ks[0].events + EventsOfChunks(ks[1..])
  }

  function TotalSize(ks: seq<Chunk>): (n: nat) {
    if ks == [] then 0 else ks[0].size + TotalSize(ks[1..])
  }

  // ---------------------------------------------------------------------------
  // What the receiver reads out of a reply.
  // ---------------------------------------------------------------------------

  function Elements(t: Term): (ts: seq<Term>)
    decreases t
  {
    match t
    case ConsTerm(head, tail) => [head] + Elements(tail)
    case _ => []
  }

  /** The trees of a reply, read back from its tokens after the version byte. */
  function TreesIn(r: Reply): (ts: seq<Term>) {
    if r.Trees? && r.toks != [] && Read(r.toks[1..], 1).Terms? then Elements(Read(r.toks[1..], 1).terms[0]) else []
  }

  function TreesInAll(rs: seq<Reply>): (ts: seq<Term>) {
    if rs == [] then [] else TreesIn(rs[0]) + TreesInAll(rs[1..])
  }

  lemma {:induction false} ElementsOfList(ts: seq<Term>)
    ensures Elements(ListTerm(ts)) == ts
    decreases |ts|
  {
    if ts != [] { ElementsOfList(ts[1..]); }
  }

  lemma {:induction false} ReplyReads(c: Ctx, ts: seq<Term>, final: bool)
    requires HoldsTrees(c, ts)
    ensures TreesIn(ReplyOf(c, final)) == ts
    ensures ReplyOf(c, final).Trees? <==> ts != []
  {
    hide Read, EncodeTerm, EncodeTerms, Cells;
    var toks := c.complete + [Nil];
    ClosedCells(ts);
    ElementsOfList(ts);
    assert toks[1..] == Cells(ts) + [Nil];
    ReadExactly(toks[1..], [ListTerm(ts)]);
    OneTerm(ListTerm(ts));
  }

  // ---------------------------------------------------------------------------
  // Cutting a run: the complete list is only ever appended to.
  // ---------------------------------------------------------------------------

  /** The state with other tokens before its complete trees, and another size. */
  ghost function After(c: Ctx, p: seq<Token>, b: bool, size: int): (r: Ctx)
    requires c.complete != []
  {
    c.(complete := p + c.complete[1..], ready := b || c.ready, curSize := size)
  }

  lemma {:induction false} FinishAfter(c: Ctx, p: seq<Token>, b: bool, size: int)
    requires c.complete != []
    ensures Finish(c).complete != [] && Finish(c).complete[0] == c.complete[0]
    ensures Finish(After(c, p, b, size)) == After(Finish(c), p, b, size)
  {
    assert p + c.complete[1..] + [Cell] + c.current == p + (c.complete + [Cell] + c.current)[1..];
  }

  lemma {:induction false} StepAfter(o: Config, c: Ctx, p: seq<Token>, b: bool, size: int, e: Event)
    requires c.complete != []
    ensures var r := Step(o, c, e);
      && r.complete != [] && r.complete[0] == c.complete[0]
      && Step(o, After(c, p, b, size), e) == After(r, p, b, size)
  {
    hide HeadTokens, EndTagTokens, DeclTokens, Finish;
    var cell := if Apart(o, c) then [] else [Cell];
    match e {
      case StartNs(_) =>
      case Start(raw, attrs) =>
        var tree := c.current + cell + HeadTokens(o, c.declared, raw, attrs);
        FinishAfter(c.(current := tree + [Atom("undefined")]), p, b, size);
      case Data(text) =>
        FinishAfter(c.(current := c.current + cell + [Tuple(2), Atom("xmlcdata"), Bin(text)]), p, b, size);
      case End(raw) =>
        var c1 := c.(depth := if c.depth > 0 then c.depth - 1 else c.depth);
        FinishAfter(c1.(current := c.current + EndTagTokens(o, raw)), p, b, size);
        FinishAfter(c1.(current := c.current + [Nil]), p, b, size);
    }
  }

  lemma {:induction false} RunAfter(o: Config, c: Ctx, p: seq<Token>, b: bool, size: int, es: seq<Event>)
    requires c.complete != []
    ensures var r := Run(o, c, es);
      && r.complete != [] && r.complete[0] == c.complete[0]
      && Run(o, After(c, p, b, size), es) == After(r, p, b, size)
    decreases |es|
  {
    if es != [] {
      hide Step, After;
      StepAfter(o, c, p, b, size, es[0]);
      RunAfter(o, Step(o, c, es[0]), p, b, size, es[1..]);
    }
  }

  /** A run from a state that already holds trees appends what the same run appends from the next chunk's start. */
  lemma {:induction false} RunResumes(o: Config, c: Ctx, ts: seq<Term>, size: nat, es: seq<Event>, us: seq<Term>)
    requires HoldsTrees(c, ts) && HoldsTrees(Run(o, NextChunk(c, size), es), us)
    ensures HoldsTrees(Run(o, c, es), ts + us)
  {
    hide Run, Cells;
    var n := NextChunk(c, size);
    RunAfter(o, n, c.complete, c.ready, c.curSize, es);
    var r := Run(o, n, es);
    assert n.complete[1..] == [] && c.complete + [] == c.complete;
    assert c == After(n, c.complete, c.ready, c.curSize);
    assert r.complete[1..] == Cells(us);
    CellsConcat(ts, us);
    assert [Version] + Cells(ts) + Cells(us) == [Version] + Cells(ts + us);
    assert ts + us != [] <==> ts != [] || us != [];
  }

  lemma {:induction false} NextChunkShape(o: Config, c: Ctx, size: nat)
    requires Shape(o, c)
    ensures Shape(o, NextChunk(c, size)) && NextChunk(c, size).depth == c.depth
  {
    assert HoldsTrees(NextChunk(c, size), []);
  }

  lemma {:induction false} NestedSplit(o: Config, c: Ctx, a: seq<Event>, b: seq<Event>)
    requires o.rootDepth >= -1 && Shape(o, c) && Nested(a + b, c.depth)
    ensures Nested(a, c.depth) && Shape(o, Run(o, c, a)) && Nested(b, Run(o, c, a).depth)
    decreases |a|
  {
    if a == [] {
      assert a + b == b;
    } else {
      assert (a + b)[1..] == a[1..] + b && (a + b)[0] == a[0];
      StepKeepsShape(o, c, a[0]);
      hide Shape, Step;
      NestedSplit(o, Step(o, c, a[0]), a[1..], b);
    }
  }

  // ---------------------------------------------------------------------------
  // Chunk independence.
  // ---------------------------------------------------------------------------

  lemma {:induction false} SizeKept(o: Config, c: Ctx, es: seq<Event>)
    ensures Run(o, c, es).curSize == c.curSize
    decreases |es|
  {
    if es != [] { SizeKept(o, Step(o, c, es[0]), es[1..]); }
  }

  /** Each reply reads as Continue exactly when it carries no tree. */
  ghost predicate Answered(r: Reply) {
    if TreesIn(r) == [] then r == Continue else r.Trees?
  }

  /** The state after a chunk and a rest is the state after both at once. */
  lemma {:induction false} ChunksJoin(o: Config, c: Ctx, k: Chunk, rest: seq<Event>, size: nat)
    requires c.complete != []
    ensures NextChunk(Run(o, NextChunk(Run(o, c, k.events), k.size), rest), size) ==
      NextChunk(Run(o, c, k.events + rest), k.size + size)
  {
    var c1 := Run(o, c, k.events);
    var n := NextChunk(c1, k.size);
    RunConcat(o, c, k.events, rest);
    RunAfter(o, c, [], false, c.curSize, k.events);
    RunAfter(o, n, c1.complete, c1.ready, c1.curSize, rest);
    SizeKept(o, n, rest);
    SizeKept(o, c1, rest);
    hide Run;
    assert n.complete[1..] == [] && c1.complete + [] == c1.complete;
    assert c1 == After(n, c1.complete, c1.ready, c1.curSize);
  }

  lemma {:induction false} ParseAllRuns(o: Config, d: Driver, ks: seq<Chunk>)
    requires o.rootDepth >= -1 && ErrorFree(ks)
    requires Shape(o, d.ctx) && HoldsTrees(d.ctx, []) && Nested(EventsOfChunks(ks), d.ctx.depth)
    requires o.maxSize <= -1 || d.ctx.curSize + TotalSize(ks) <= o.maxSize
    ensures var (d', replies) := ParseAll(o, d, ks);
      && HoldsTrees(Run(o, d.ctx, EventsOfChunks(ks)), TreesInAll(replies))
      && (forall i :: 0 <= i < |ks| ==> Answered(replies[i]))
      && d'.ctx == NextChunk(Run(o, d.ctx, EventsOfChunks(ks)), TotalSize(ks))
      && (ks != [] ==> d'.parser)
    decreases |ks|
  {
    if ks == [] {
      assert d.ctx.complete == [Version];
    } else {
      var k, rest := ks[0], EventsOfChunks(ks[1..]);
      hide Shape, Nested, Run, TreesIn, ReplyOf, Cells;
      NestedSplit(o, d.ctx, k.events, rest);
      RunConcat(o, d.ctx, k.events, rest);
      var c := Run(o, d.ctx, k.events);
      var ts := TreesHeld(o, c);
      ReplyReads(c, ts, false);
      NextChunkShape(o, c, k.size);
      SizeKept(o, d.ctx, k.events);
      var d1 := Driver(true, NextChunk(c, k.size));
      assert HoldsTrees(d1.ctx, []) by { StartsEmpty(c, k.size); }
      ParseAllRuns(o, d1, ks[1..]);
      RunResumes(o, c, ts, k.size, rest, TreesInAll(ParseAll(o, d1, ks[1..]).1));
      ChunksJoin(o, d.ctx, k, rest, TotalSize(ks[1..]));
      RepliesJoin(ReplyOf(c, false), ParseAll(o, d1, ks[1..]).1, ts);
    }
  }

  lemma {:induction false} TreesHeld(o: Config, c: Ctx) returns (ts: seq<Term>)
    requires Shape(o, c)
    ensures HoldsTrees(c, ts)
  {
    ts :| HoldsTrees(c, ts);
  }

  lemma {:induction false} StartsEmpty(c: Ctx, size: nat)
    ensures HoldsTrees(NextChunk(c, size), [])
  {
  }

  lemma {:induction false} RepliesJoin(r: Reply, rs: seq<Reply>, ts: seq<Term>)
    requires TreesIn(r) == ts && (r.Trees? <==> ts != []) && (r.Trees? || r == Continue)
    requires forall i :: 0 <= i < |rs| ==> Answered(rs[i])
    ensures TreesInAll([r] + rs) == ts + TreesInAll(rs)
    ensures forall i :: 0 <= i < |[r] + rs| ==> Answered(([r] + rs)[i])
  {
    hide TreesIn;
    assert ([r] + rs)[1..] == rs;
  }

  /** However the events are cut, the lists in the replies join to the list that one command
      with all the events returns, each reply is Continue exactly when its chunk completed no
      tree, and the driver goes on from the same state. */
  lemma {:induction false} ChunksAgree(o: Config, d: Driver, ks: seq<Chunk>)
    requires ks != [] && o.rootDepth >= -1 && ErrorFree(ks)
    requires Shape(o, d.ctx) && HoldsTrees(d.ctx, []) && Nested(EventsOfChunks(ks), d.ctx.depth)
    requires o.maxSize <= -1 || d.ctx.curSize + TotalSize(ks) <= o.maxSize
    ensures var (one, reply) := Parse(o, d, Chunk(EventsOfChunks(ks), TotalSize(ks), false), false);
      var (many, replies) := ParseAll(o, d, ks);
      && TreesInAll(replies) == TreesIn(reply)
      && (forall i :: 0 <= i < |ks| ==> Answered(replies[i]))
      && many == one
  {
    hide Shape, Run, TreesIn, ReplyOf, Cells, Nested;
    ParseAllRuns(o, d, ks);
    ReplyReads(Run(o, d.ctx, EventsOfChunks(ks)), TreesInAll(ParseAll(o, d, ks).1), false);
  }

  /** A whole document, cut anywhere, its last piece given with the final command: the
      receiver reads exactly the document's trees, and the driver is idle again. */
  lemma {:induction false} DocumentInChunks(o: Config, doc: seq<Node>, ks: seq<Chunk>, last: Chunk)
    requires o.rootDepth >= -1 && EventsOfChunks(ks) + last.events == EventsOfAll(doc)
    requires ErrorFree(ks) && !last.malformed
    requires o.maxSize <= -1 || TotalSize(ks) + last.size <= o.maxSize
    ensures var (d, replies) := ParseAll(o, IDLE, ks);
      var (end, reply) := Parse(o, d, last, true);
      && TreesInAll(replies) + TreesIn(reply) == TreesOfAll(o, doc, 0)
      && (forall i :: 0 <= i < |ks| ==> Answered(replies[i]))
      && (reply == Done <==> TreesIn(reply) == [])
      && end == IDLE
  {
    var es := EventsOfChunks(ks);
    FreshShape(o);
    assert HoldsTrees(FRESH, []);
    NestedDocument(doc);
    hide Shape, TreesIn, ReplyOf, Nested, Cells;
    NestedSplit(o, FRESH, es, last.events);
    ParseAllRuns(o, IDLE, ks);
    var (d, replies) := ParseAll(o, IDLE, ks);
    var ts := TreesInAll(replies);
    var c := Run(o, FRESH, es);
    SizeKept(o, FRESH, es);
    NextChunkShape(o, c, TotalSize(ks));
    RunKeepsShape(o, d.ctx, last.events);
    var us := TreesHeld(o, Run(o, d.ctx, last.events));
    ReplyReads(Run(o, d.ctx, last.events), us, true);
    RunResumes(o, c, ts, TotalSize(ks), last.events, us);
    RunConcat(o, FRESH, es, last.events);
    DocumentCompiles(o, doc);
    SameTrees(Run(o, FRESH, EventsOfAll(doc)), ts + us, TreesOfAll(o, doc, 0));
    assert Parse(o, d, last, true).1 == ReplyOf(Run(o, d.ctx, last.events), true);
    assert ReplyOf(Run(o, d.ctx, last.events), true).Trees? || ReplyOf(Run(o, d.ctx, last.events), true) == Done by {
      FinalReply(Run(o, d.ctx, last.events));
    }
  }

  lemma {:induction false} FinalReply(c: Ctx)
    ensures ReplyOf(c, true).Trees? || ReplyOf(c, true) == Done
  {
  }

  lemma {:induction false} NestedDocument(doc: seq<Node>)
    ensures Nested(EventsOfAll(doc), 0)
  {
    NestedNodes(doc, [], 0);
    assert EventsOfAll(doc) + [] == EventsOfAll(doc);
  }

  lemma {:induction false} SameTrees(c: Ctx, ts: seq<Term>, us: seq<Term>)
    requires HoldsTrees(c, ts) && c.complete + [Nil] == [Version] + EncodeTerm(ListTerm(us))
    ensures ts == us
  {
    hide EncodeTerm, EncodeTerms, Cells, Read, ListTerm;
    ClosedCells(ts);
    assert (c.complete + [Nil])[1..] == Cells(ts) + [Nil];
    assert ([Version] + EncodeTerm(ListTerm(us)))[1..] == EncodeTerm(ListTerm(us));
    OneTerm(ListTerm(ts));
    OneTerm(ListTerm(us));
    ReadExactly(EncodeTerm(ListTerm(us)), [ListTerm(ts)]);
    ReadExactly(EncodeTerm(ListTerm(us)), [ListTerm(us)]);
    assert [ListTerm(ts)][0] == [ListTerm(us)][0];
    ElementsOfList(ts);
    ElementsOfList(us);
  }

  // ---------------------------------------------------------------------------
  // The size limit and the reset.
  // ---------------------------------------------------------------------------

  /** No chunk is refused exactly when all of them together fit the limit: the limit is one
      on the whole stream since the last reset, not on one stanza. */
  lemma {:induction false} LimitIsOnTheStream(o: Config, d: Driver, ks: seq<Chunk>)
    requires ErrorFree(ks)
    requires o.maxSize <= -1 || d.ctx.curSize <= o.maxSize
    ensures TooBig !in ParseAll(o, d, ks).1 <==> o.maxSize <= -1 || d.ctx.curSize + TotalSize(ks) <= o.maxSize
    decreases |ks|
  {
    if ks != [] {
      hide Run;
      var (d1, reply) := Parse(o, d, ks[0], false);
      assert TooBig in ParseAll(o, d, ks).1 <==> reply == TooBig || TooBig in ParseAll(o, d1, ks[1..]).1;
      if reply != TooBig {
        SizeKept(o, d.ctx, ks[0].events);
        LimitIsOnTheStream(o, d1, ks[1..]);
      }
    }
  }

  /** What a command answers and leaves depends on the state only through the context. */
  lemma {:induction false} OnlyContextMatters(o: Config, c: Ctx, ks: seq<Chunk>)
    ensures var (d, r) := (ParseAll(o, Driver(false, c), ks), ParseAll(o, Driver(true, c), ks));
      d.1 == r.1 && (ks != [] ==> d.0 == r.0)
  {
    if ks != [] { hide Run; }
  }

  /** A command is refused exactly when its data does not fit what the limit leaves. It changes nothing
      but that there is a parser: later commands are answered as if it had not been sent. */
  lemma {:induction false} RefusedIgnored(o: Config, d: Driver, k: Chunk, final: bool, ks: seq<Chunk>)
    ensures var (r, reply) := Parse(o, d, k, final);
      && (reply == TooBig <==> o.maxSize > -1 && d.ctx.curSize + k.size > o.maxSize)
      && (reply == TooBig ==>
            && r == Driver(true, d.ctx)
            && ParseAll(o, r, ks).1 == ParseAll(o, d, ks).1
            && (ks != [] ==> ParseAll(o, r, ks).0 == ParseAll(o, d, ks).0))
  {
    hide Run, ParseAll;
    OnlyContextMatters(o, d.ctx, ks);
  }

  /** Rejected data leaves the context its events made, with the trees they completed, and the parser, even
      in a final command. */
  lemma {:induction false} RejectedExactly(o: Config, d: Driver, k: Chunk, final: bool)
    requires k.malformed && UnderLimit(o, d.ctx, k.size)
    ensures Parse(o, d, k, final) == (Driver(true, Run(o, d.ctx, k.events)), ParsingFailed)
  {
  }

  /** Declarations come right before the start of their element. */
  ghost predicate Grouped(es: seq<Event>) {
    forall i :: 0 < i < |es| && es[i - 1].StartNs? ==> es[i].StartNs? || es[i].Start?
  }

  ghost predicate EndsGrouped(es: seq<Event>) {
    Grouped(es) && (es != [] ==> !es[|es| - 1].StartNs?)
  }

  lemma {:induction false} GroupedConcat(a: seq<Event>, b: seq<Event>)
    requires EndsGrouped(a) && EndsGrouped(b)
    ensures EndsGrouped(a + b)
  {
  }

  lemma {:induction false} GroupedNode(node: Node)
    ensures EndsGrouped(EventsOf(node))
    decreases node, 1
  {
    if node.Element? {
      var ds := DeclEvents(node.decls);
      OnlyDecls(node.decls);
      GroupedNodes(node.children);
      assert EndsGrouped(ds + [Start(node.raw, node.attrs)]);
      GroupedConcat(ds + [Start(node.raw, node.attrs)], EventsOfAll(node.children));
      GroupedConcat(ds + [Start(node.raw, node.attrs)] + EventsOfAll(node.children), [End(node.raw)]);
    }
  }

  lemma {:induction false} OnlyDecls(decls: seq<NsDecl>)
    ensures forall i :: 0 <= i < |decls| ==> DeclEvents(decls)[i].StartNs?
    decreases |decls|
  {
    if decls != [] { OnlyDecls(decls[1..]); }
  }

  lemma {:induction false} GroupedNodes(nodes: seq<Node>)
    ensures EndsGrouped(EventsOfAll(nodes))
    decreases nodes, 0
  {
    if nodes != [] {
      GroupedNode(nodes[0]);
      GroupedNodes(nodes[1..]);
      GroupedConcat(EventsOf(nodes[0]), EventsOfAll(nodes[1..]));
    }
  }

  /** The declarations the events end in. */
  function Waiting(es: seq<Event>): (r: seq<NsDecl>)
    decreases |es|
  {
    if es == [] || !es[|es| - 1].StartNs? then [] else Waiting(es[..|es| - 1]) + [es[|es| - 1].decl]
  }

  predicate WithUri(decls: seq<NsDecl>) {
    exists i :: 0 <= i < |decls| && decls[i].uri.Some?
  }

  lemma {:induction false} DeclTermsConcat(o: Config, a: seq<NsDecl>, b: seq<NsDecl>)
    ensures DeclTerms(o, a + b) == DeclTerms(o, a) + DeclTerms(o, b)
    ensures DeclEvents(a + b) == DeclEvents(a) + DeclEvents(b)
    decreases |a|
  {
    if a == [] {
      assert a + b == b;
    } else {
      assert (a + b)[1..] == a[1..] + b;
      DeclTermsConcat(o, a[1..], b);
    }
  }

  lemma {:induction false} DeclTermsNone(o: Config, decls: seq<NsDecl>)
    ensures DeclTerms(o, decls) == [] <==> !WithUri(decls)
    decreases |decls|
  {
    if decls != [] {
      DeclTermsNone(o, decls[1..]);
      assert forall i :: 0 <= i < |decls[1..]| ==> decls[1..][i] == decls[i + 1];
      if i :| 0 <= i < |decls| && decls[i].uri.Some? { assert i > 0 ==> decls[1..][i - 1].uri.Some?; }
    }
  }

  /** What is declared after a run is what the events end in. */
  lemma {:induction false} DeclaredExactly(o: Config, c: Ctx, es: seq<Event>)
    requires c.declared == [] && Grouped(es)
    ensures Run(o, c, es).declared == Cells(DeclTerms(o, Waiting(es)))
    decreases |es|
  {
    if es == [] {
      CellsNone();
    } else {
      var front, e := es[..|es| - 1], es[|es| - 1];
      assert es == front + [e];
      RunConcat(o, c, front, [e]);
      RunOne(o, Run(o, c, front), e);
      DeclaredExactly(o, c, front);
      if e.StartNs? {
        hide Cells, DeclTokens, DeclTerm, EncodeTerm, Run;
        DeclTermsConcat(o, Waiting(front), [e.decl]);
        CellsConcat(DeclTerms(o, Waiting(front)), DeclTerms(o, [e.decl]));
        OneDecl(o, e.decl);
        DeclEncodes(o, e.decl);
      } else {
        assert e.Start? || Waiting(front) == [];
      }
    }
  }

  lemma {:induction false} OneDecl(o: Config, decl: NsDecl)
    ensures DeclTerms(o, [decl]) == DeclTerm(o, decl)
  {
    assert [decl][1..] == [];
  }

  /** A reset between two events of a document leaves the freshly initialised context exactly
      when no namespace declaration is waiting for its element. */
  lemma {:induction false} ResetInDocument(o: Config, doc: seq<Node>, n: nat)
    requires n <= |EventsOfAll(doc)|
    ensures var es := EventsOfAll(doc)[..n];
      Reset(Driver(true, Run(o, FRESH, es))) == Driver(true, FRESH) <==> !WithUri(Waiting(es))
  {
    var es := EventsOfAll(doc)[..n];
    GroupedNodes(doc);
    DeclaredExactly(o, FRESH, es);
    DeclTermsNone(o, Waiting(es));
  }

  /** The parser reports the declarations and the start of an element for one piece of data, so an
      accepted command never ends between them: after any commands that do not, a reset leaves the
      freshly initialised context. */
  lemma {:induction false} ResetBetweenCommands(o: Config, d: Driver, ks: seq<Chunk>)
    requires d.ctx.declared == [] && forall i :: 0 <= i < |ks| ==> EndsGrouped(ks[i].events)
    ensures ParseAll(o, d, ks).0.ctx.declared == []
    ensures ks != [] ==> Reset(ParseAll(o, d, ks).0) == Driver(true, FRESH)
    decreases |ks|
  {
    if ks != [] {
      hide EndsGrouped, Cells;
      EndsDeclared(o, d.ctx, ks[0].events);
      var d1 := Parse(o, d, ks[0], false).0;
      ResetBetweenCommands(o, d1, ks[1..]);
      assert ks[1..] == [] ==> ParseAll(o, d, ks).0 == d1;
    }
  }

  lemma {:induction false} EndsDeclared(o: Config, c: Ctx, es: seq<Event>)
    requires c.declared == [] && EndsGrouped(es)
    ensures Run(o, c, es).declared == []
  {
    DeclaredExactly(o, c, es);
    CellsNone();
  }

  /** A document with more declarations on its first element. */
  function Burdened(decls: seq<NsDecl>, doc: seq<Node>): (r: seq<Node>)
    requires doc != [] && doc[0].Element?
  {
    [doc[0].(decls := decls + doc[0].decls)] + doc[1..]
  }

  lemma {:induction false} Prefixed(a: seq<Event>, b: seq<Event>, c: seq<Event>, d: seq<Event>, e: seq<Event>)
    ensures a + b + c + d + e == a + (b + c + d + e)
  {
  }

  lemma {:induction false} BurdenedEvents(o: Config, decls: seq<NsDecl>, doc: seq<Node>)
    requires doc != [] && doc[0].Element?
    ensures EventsOfAll(Burdened(decls, doc)) == DeclEvents(decls) + EventsOfAll(doc)
  {
    var Element(own, raw, attrs, children) := doc[0];
    DeclTermsConcat(o, decls, own);
    assert Burdened(decls, doc)[1..] == doc[1..];
    hide DeclEvents, DeclTerms;
    Prefixed(DeclEvents(decls), DeclEvents(own), [Start(raw, attrs)], EventsOfAll(children), [End(raw)]);
    Prefixed(DeclEvents(decls), EventsOf(doc[0]), EventsOfAll(doc[1..]), [], []);
    assert EventsOf(Burdened(decls, doc)[0]) == DeclEvents(decls) + EventsOf(doc[0]);
    hide EventsOf;
    assert EventsOfAll(Burdened(decls, doc)) == DeclEvents(decls) + EventsOf(doc[0]) + EventsOfAll(doc[1..]);
  }

  lemma {:induction false} ListsDiffer(a: seq<Term>, b: seq<Term>)
    ensures ListTerm(a + b) == ListTerm(b) <==> a == []
  {
    ElementsOfList(a + b);
    ElementsOfList(b);
    assert a == [] ==> a + b == b;
    assert ListTerm(a + b) == ListTerm(b) ==> |a + b| == |b|;
  }

  /** The first tree of a document has the declarations of its first element as its third field. */
  lemma {:induction false} FirstTree(o: Config, doc: seq<Node>)
    requires doc != [] && doc[0].Element?
    ensures var ts := TreesOfAll(o, doc, 0);
      && ts != [] && ts[0].TupleTerm? && |ts[0].elems| == 6
      && ts[0].elems[2] == ListTerm(DeclTerms(o, doc[0].decls))
  {
    hide DeclTerms, AttrTerms, ListTerm, NameTerm, NodeTerms;
    var Element(decls, raw, attrs, children) := doc[0];
    assert TreesOf(o, doc[0], 0) != [] && TreesOfAll(o, doc, 0)[0] == TreesOf(o, doc[0], 0)[0];
  }

  /** So more declarations with a URI make other trees. */
  lemma {:induction false} BurdenShows(o: Config, decls: seq<NsDecl>, doc: seq<Node>)
    requires doc != [] && doc[0].Element?
    ensures TreesOfAll(o, Burdened(decls, doc), 0) == TreesOfAll(o, doc, 0) <==> DeclTerms(o, decls) == []
  {
    var Element(own, raw, attrs, children) := doc[0];
    var more := Burdened(decls, doc);
    DeclTermsConcat(o, decls, own);
    ListsDiffer(DeclTerms(o, decls), DeclTerms(o, own));
    FirstTree(o, doc);
    FirstTree(o, more);
    hide DeclTerms, AttrTerms, NameTerm, ListTerm;
    if DeclTerms(o, decls) == [] {
      assert more[1..] == doc[1..];
      assert DeclTerms(o, decls + own) == DeclTerms(o, own);
      assert TreesOf(o, more[0], 0) == TreesOf(o, doc[0], 0);
    }
  }

  /** After a command whose data is rejected, and a reset, a whole document is read with the
      declarations the rejected data ended in on its first element. */
  lemma {:induction false} ResetAfterError(
    o: Config, d: Driver, k: Chunk, final: bool, doc: seq<Node>, size: nat)
    requires o.rootDepth >= -1 && d.ctx.declared == [] && Grouped(k.events) && k.malformed
    requires UnderLimit(o, d.ctx, k.size) && UnderLimit(o, FRESH, size)
    requires doc != [] && doc[0].Element?
    ensures var failed := Parse(o, d, k, final);
      var (end, reply) := Parse(o, Reset(failed.0), Chunk(EventsOfAll(doc), size, false), true);
      && failed.1 == ParsingFailed && end == IDLE
      && TreesIn(reply) == TreesOfAll(o, Burdened(Waiting(k.events), doc), 0)
      && (TreesIn(reply) == TreesOfAll(o, doc, 0) <==> !WithUri(Waiting(k.events)))
  {
    var decls := Waiting(k.events);
    var burdened := Burdened(decls, doc);
    DeclaredExactly(o, d.ctx, k.events);
    DeclTermsNone(o, decls);
    BurdenShows(o, decls, doc);
    BurdenedEvents(o, decls, doc);
    hide Cells, DeclTerms, TreesIn, ReplyOf, TreesOfAll, EventsOfAll, DeclEvents, Burdened, WithUri;
    var left := FRESH.(declared := Cells(DeclTerms(o, decls)));
    assert Reset(Parse(o, d, k, final).0) == Driver(true, left);
    hide Run;
    RunDecls(o, FRESH, decls);
    assert [] + Cells(DeclTerms(o, decls)) == Cells(DeclTerms(o, decls));
    RunConcat(o, FRESH, DeclEvents(decls), EventsOfAll(doc));
    RunAboveAll(o, FRESH, burdened);
    ReplyReads(Run(o, FRESH, EventsOfAll(burdened)), TreesOfAll(o, burdened, 0), true);
  }

  /** The data <a xmlns:p='u' q:b=''/> is rejected after its declaration is reported, for its
      unbound prefix. After a reset the document <b/> is read with that declaration. */
  lemma {:induction false} ErrorLeaksNamespace(o: Config)
    requires o.rootDepth >= -1 && o.maxSize <= -1
    ensures var (declared, b) := (NsDecl(Some("p"), Some("u")), Element([], "b", [], []));
      var failed := Parse(o, IDLE, Chunk([StartNs(declared)], 23, true), false).0;
      var (_, reply) := Parse(o, Reset(failed), Chunk(EventsOfAll([b]), 4, false), true);
      && TreesIn(reply) == TreesOfAll(o, [Element([declared], "b", [], [])], 0)
      && TreesIn(reply) != TreesOfAll(o, [b], 0)
  {
    var declared, b := NsDecl(Some("p"), Some("u")), Element([], "b", [], []);
    var es := [StartNs(declared)];
    assert es[..0] == [] && Waiting([]) == [] && [] + [declared] == [declared];
    assert Waiting(es) == [declared] && [declared][0].uri.Some?;
    assert [declared] + [] == [declared] && [b][1..] == [];
    assert Burdened([declared], [b]) == [Element([declared], "b", [], [])];
    ResetAfterError(o, IDLE, Chunk(es, 23, true), false, [b], 4);
  }
}
