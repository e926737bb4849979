/** The driver instance and its callbacks, on their own fields. */
module XmlPort {
  import opened Terms
  import opened XmlBuilder
  import opened XmlDriver
  import Names = KnownNames

  class Port {
    const config: Config
    var parser: bool
    var curSize: int
    var depth: int
    var currentTree: seq<Token>
    var completeTrees: seq<Token>
    var completeTreesReady: bool
    var declaredNss: seq<Token>

    function Context(): Ctx
      reads this
    {
      Ctx(curSize, depth, currentTree, completeTrees, completeTreesReady, declaredNss)
    }

    function Value(): Driver
      reads this
    {
      Driver(parser, Context())
    }

    constructor (config: Config)
      ensures Value() == IDLE && this.config == config
    {
      this.config := config;
      parser, curSize, depth := false, 0, 0;
      currentTree, completeTrees, completeTreesReady := [], [Version], false;
      declaredNss := [];
    }

    method CurrentTreeFinished()
      modifies `completeTrees, `completeTreesReady, `currentTree
      ensures Context() == Finish(old(Context()))
    {
      completeTrees := completeTrees + [Cell];
      completeTrees := completeTrees + currentTree;
      completeTreesReady := true;
      currentTree := [];
    }

    method ResetCompleteTrees()
      modifies `completeTrees, `completeTreesReady
      ensures completeTrees == [Version] && !completeTreesReady
    {
      completeTreesReady := false;
      completeTrees := [];
      completeTrees := completeTrees + [Version];
    }

    method ResetContext()
      modifies `curSize, `depth, `currentTree, `completeTrees, `completeTreesReady
      ensures Context() == FRESH.(declared := declaredNss)
    {
      curSize, depth, currentTree := 0, 0, [];
      ResetCompleteTrees();
    }

    /** expat_cb_start_namespace */
    method StartNamespace(decl: NsDecl)
      modifies `declaredNss
      ensures Context() == Step(config, old(Context()), StartNs(decl))
    {
      if decl.uri.None? {
        assert declaredNss + [] == declaredNss;
        return;
      }
      declaredNss := declaredNss + [Cell];
      declaredNss := declaredNss + [Tuple(2)];
      declaredNss := declaredNss + [Names.NsToken(config.names, decl.uri)];
      if decl.prefix.Some? {
        declaredNss := declaredNss + [Str(decl.prefix.value)];
      } else {
        declaredNss := declaredNss + [Atom("none")];
      }
      assert declaredNss == old(declaredNss) + DeclTokens(config, decl);
    }

    method MakeAttribute(attr: Attr)
      modifies `currentTree
      ensures currentTree == old(currentTree) + AttrTokens(config, [attr])
    {
      var (ns, name) := SplitName(attr.raw);
      currentTree := currentTree + [Cell];
      currentTree := currentTree + [Tuple(4)];
      currentTree := currentTree + [Atom("xmlattr")];
      currentTree := currentTree + [Names.NsToken(config.names, ns)];
      currentTree := currentTree + [Bin(name)];
      currentTree := currentTree + [Bin(attr.value)];
      hide SplitName, Names.NsToken;
      assert [attr][1..] == [];
    }

    lemma {:induction false} AttrsSnoc(attrs: seq<Attr>, a: Attr)
      ensures AttrTokens(config, attrs + [a]) == AttrTokens(config, attrs) + AttrTokens(config, [a])
      decreases |attrs|
    {
      hide SplitName, Names.NsToken;
      if attrs == [] {
        assert attrs + [a] == [a];
      } else {
        AttrsSnoc(attrs[1..], a);
        assert (attrs + [a])[1..] == attrs[1..] + [a];
      }
    }

    method MakeAttributes(attrs: seq<Attr>)
      modifies `currentTree
      ensures currentTree == old(currentTree) + AttrTokens(config, attrs)
    {
      hide AttrTokens;
      ghost var was := currentTree;
      assert attrs[..0] == [] && AttrTokens(config, attrs[..0]) == [] by { NoAttrs(); }
      var i := 0;
      while i < |attrs|
        invariant 0 <= i <= |attrs|
        invariant currentTree == was + AttrTokens(config, attrs[..i])
      {
        MakeAttribute(attrs[i]);
        AttrsSnoc(attrs[..i], attrs[i]);
        assert attrs[..i] + [attrs[i]] == attrs[..i + 1];
        i := i + 1;
      }
      assert attrs[..i] == attrs;
    }

    lemma {:induction false} NoAttrs()
      ensures AttrTokens(config, []) == []
    {
    }

    /** The fields of an #xmlel record up to its children. */
    method MakeHead(raw: RawName, attrs: seq<Attr>)
      modifies `currentTree
      ensures currentTree == old(currentTree) + HeadTokens(config, declaredNss, raw, attrs)
    {
      hide SplitName, Names.NsToken, Names.ElemToken, AttrTokens;
      var (ns, elem) := SplitName(raw);
      ghost var was := currentTree;
      currentTree := currentTree + [Tuple(6)];
      currentTree := currentTree + [Atom("xmlel")];
      currentTree := currentTree + [Names.NsToken(config.names, ns)];
      currentTree := currentTree + declaredNss;
      currentTree := currentTree + [Nil];
      currentTree := currentTree + [Names.ElemToken(config.names, elem)];
      MakeAttributes(attrs);
      currentTree := currentTree + [Nil];
      assert currentTree == was + HeadTokens(config, declaredNss, raw, attrs);
    }

    /** enter_element, called by expat_cb_start_element */
    method EnterElement(raw: RawName, attrs: seq<Attr>)
      modifies `depth, `currentTree, `completeTrees, `completeTreesReady, `declaredNss
      ensures Context() == Step(config, old(Context()), Start(raw, attrs))
    {
      hide HeadTokens;
      if config.rootDepth == -1 || depth <= config.rootDepth {
      } else {
        currentTree := currentTree + [Cell];
      }
      MakeHead(raw, attrs);
      if config.rootDepth == -1 || depth < config.rootDepth {
        currentTree := currentTree + [Atom("undefined")];
        CurrentTreeFinished();
      }
      depth := depth + 1;
      declaredNss := [];
    }

    method AddCharacterData(text: string)
      modifies `currentTree, `completeTrees, `completeTreesReady
      ensures Context() == Step(config, old(Context()), Data(text))
    {
      if config.rootDepth == -1 || depth <= config.rootDepth {
      } else {
        currentTree := currentTree + [Cell];
      }
      ghost var was := currentTree;
      currentTree := currentTree + [Tuple(2)];
      currentTree := currentTree + [Atom("xmlcdata")];
      currentTree := currentTree + [Bin(text)];
      assert currentTree == was + [Tuple(2), Atom("xmlcdata"), Bin(text)];
      if config.rootDepth == -1 || depth <= config.rootDepth {
        CurrentTreeFinished();
      }
    }

    method ExitElement(raw: RawName)
      modifies `depth, `currentTree, `completeTrees, `completeTreesReady
      ensures Context() == Step(config, old(Context()), End(raw))
    {
      hide SplitName, Names.NsToken, Names.ElemToken;
      var (ns, elem) := SplitName(raw);
      if depth > 0 {
        depth := depth - 1;
      }
      if config.emitEndtag && (config.rootDepth == -1 || depth < config.rootDepth) {
        ghost var was := currentTree;
        currentTree := currentTree + [Tuple(3)];
        currentTree := currentTree + [Atom("xmlendtag")];
        currentTree := currentTree + [Names.NsToken(config.names, ns)];
        currentTree := currentTree + [Names.ElemToken(config.names, elem)];
        assert currentTree == was + EndTagTokens(config, raw);
        CurrentTreeFinished();
      } else if config.rootDepth != -1 && depth >= config.rootDepth {
        currentTree := currentTree + [Nil];
        if depth == config.rootDepth {
          CurrentTreeFinished();
        }
      }
    }

    /** The callbacks the parser makes for the events of one chunk. */
    method Deliver(events: seq<Event>)
      modifies `depth, `currentTree, `completeTrees, `completeTreesReady, `declaredNss
      ensures Context() == Run(config, old(Context()), events)
    {
      ghost var was := Context();
      var i := 0;
      while i < |events|
        invariant 0 <= i <= |events|
        invariant Run(config, Context(), events[i..]) == Run(config, was, events)
      {
        hide Step;
        ghost var before := Context();
        match events[i] {
          case StartNs(decl) => StartNamespace(decl);
          case Start(raw, attrs) => EnterElement(raw, attrs);
          case End(raw) => ExitElement(raw);
          case Data(text) => AddCharacterData(text);
        }
        assert events[i..][1..] == events[i + 1..];
        assert Context() == Step(config, before, events[i]);
        i := i + 1;
      }
    }

    method DestroyParser()
      modifies this
      ensures Value() == if old(parser) then IDLE else old(Value())
    {
      if parser {
        parser := false;
        ResetContext();
        declaredNss := [];
      }
    }

    /** COMMAND_PARSE and COMMAND_PARSE_FINAL */
    method ParseCommand(k: Chunk, final: bool) returns (reply: Reply)
      modifies this
      ensures (Value(), reply) == Parse(config, old(Value()), k, final)
    {
      hide Run;
      if !parser {
        parser := true;
      }
      if !UnderLimit(config, Context(), k.size) {
        return TooBig;
      }
      Deliver(k.events);
      if k.malformed {
        return ParsingFailed;
      }
      if completeTreesReady {
        completeTrees := completeTrees + [Nil];
        reply := Trees(completeTrees);
      } else {
        reply := if final then Done else Continue;
      }
      if final {
        DestroyParser();
      } else {
        curSize := curSize + k.size;
        ResetCompleteTrees();
      }
    }

    /** COMMAND_RESET_PARSER */
    method ResetCommand()
      modifies this
      ensures Value() == Reset(old(Value()))
    {
      if parser {
        ResetContext();
      }
    }
  }
}
