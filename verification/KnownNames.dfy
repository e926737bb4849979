/** The lists of known names and the choice they make between atoms and strings.
    A list is taken as the set of its keys; the hash table behind it is in `HashTable`. */
module KnownNames {
  import opened Options
  import opened Terms

  /** The longest atom of the external format, defined by ei.h. */
  const MAXATOMLEN := 255

  const XML_NAMESPACE := "http://www.w3.org/XML/1998/namespace"

  type KnownLists = map<string, set<string>>

  /** One item of the list given to an update; anything but an atom stops the update. */
  datatype Item = AtomItem(name: string) | OtherItem

  /** The term given to an update: {List_Name, List}. */
  datatype Update = NotNamed | NotAList(list: string) | Named(list: string, items: seq<Item>)

  /** The parsing options that decide how names are encoded. `nss` and `elems` are the selected lists. */
  datatype Settings = Settings(
    namesAsAtom: bool, checkNss: bool, nss: Option<string>, checkElems: bool, elems: Option<string>)

  datatype State = State(knownNss: KnownLists, knownElems: KnownLists, options: Settings)

  datatype Command =
    | AddNss(update: Update)
    | AddElems(update: Update)
    | SelectNss(arg: Option<string>)      // None: not an atom
    | SelectElems(arg: Option<string>)
    | SetNamesAsAtom(on: bool)

  const INITIAL := State(map[], map[], Settings(true, false, None, false, None))

  function AtomsOf(items: seq<Item>): (r: set<string>) {
    if items == [] || items[0].OtherItem? then {} else {items[0].name} + AtomsOf(items[1..])
  }

  predicate AllAtoms(items: seq<Item>) {
    forall i :: 0 <= i < |items| ==> items[i].AtomItem?
  }

  function Lookup(lists: KnownLists, list: string, initially: set<string>): (r: KnownLists) {
    if list in lists then lists else lists[list := initially]
  }

  /** The lists after an update, and whether it succeeded. A failed update keeps what it had added. */
  function Updated(lists: KnownLists, update: Update, initially: set<string>): (r: (KnownLists, bool)) {
    match update
    case NotNamed => (lists, false)
    case NotAList(list) => (Lookup(lists, list, initially), false)
    case Named(list, items) =>
      var found := Lookup(lists, list, initially);
      (found[list := found[list] + AtomsOf(items)], AllAtoms(items))
  }

  /** The check flag and the selected list after a selection, and whether it succeeded. */
  function Selected(lists: KnownLists, check: bool, current: Option<string>, arg: Option<string>)
    : (r: (bool, Option<string>, bool))
  {
    if arg.None? then (check, current, false)
    else if arg.value == "false" then (false, current, true)
    else if arg.value == "true" then
      if current.None? then (check, current, false) else (true, current, true)
    else if arg.value !in lists then (check, current, false)
    else (true, arg, true)
  }

  function Execute(s: State, c: Command): (r: (State, bool)) {
    match c
    case AddNss(update) =>
      var (lists, ok) := Updated(s.knownNss, update, {XML_NAMESPACE});
      (s.(knownNss := lists), ok)
    case AddElems(update) =>
      var (lists, ok) := Updated(s.knownElems, update, {});
      (s.(knownElems := lists), ok)
    case SelectNss(arg) =>
      var (check, list, ok) := Selected(s.knownNss, s.options.checkNss, s.options.nss, arg);
      (s.(options := s.options.(checkNss := check, nss := list)), ok)
    case SelectElems(arg) =>
      var (check, list, ok) := Selected(s.knownElems, s.options.checkElems, s.options.elems, arg);
      (s.(options := s.options.(checkElems := check, elems := list)), ok)
    case SetNamesAsAtom(on) => (s.(options := s.options.(namesAsAtom := on)), true)
  }

  function Run(s: State, cs: seq<Command>): (r: State)
    decreases |cs|
  {
    if cs == [] then s else Execute(Run(s, cs[..|cs| - 1]), cs[|cs| - 1]).0
  }

  // ---------------------------------------------------------------------------
  // Encoding.
  // ---------------------------------------------------------------------------

  predicate IsKnown(lists: KnownLists, check: bool, selected: Option<string>, name: string) {
    !check || (selected.Some? && selected.value in lists && name in lists[selected.value])
  }

  function NsToken(s: State, ns: Option<string>): (r: Token)
    ensures r.Atom? || r.Str?
  {
    if ns.None? then Atom("undefined")
    else if |ns.value| <= MAXATOMLEN && s.options.namesAsAtom
      && IsKnown(s.knownNss, s.options.checkNss, s.options.nss, ns.value)
      then Atom(ns.value)
    else Str(ns.value)
  }

  function ElemToken(s: State, elem: string): (r: Token)
    ensures r.Atom? || r.Str?
  {
    if |elem| <= MAXATOMLEN && s.options.namesAsAtom
      && IsKnown(s.knownElems, s.options.checkElems, s.options.elems, elem)
      then Atom(elem)
    else Str(elem)
  }

  // ---------------------------------------------------------------------------
  // Gating over whole runs.
  // ---------------------------------------------------------------------------

  /** Some item is this atom, and only atoms come before it. */
  ghost predicate Reaches(items: seq<Item>, name: string) {
    exists i :: 0 <= i < |items| && items[i] == AtomItem(name) && forall j :: 0 <= j < i ==> items[j].AtomItem?
  }

  lemma {:induction false} AtomsOfExactly(items: seq<Item>, name: string)
    ensures name in AtomsOf(items) <==> Reaches(items, name)
    decreases |items|
  {
    if items != [] && items[0].AtomItem? {
      var rest := items[1..];
      AtomsOfExactly(rest, name);
      assert forall i :: 0 <= i < |rest| ==> rest[i] == items[i + 1];
      if i :| 0 <= i < |rest| && rest[i] == AtomItem(name) && forall j :: 0 <= j < i ==> rest[j].AtomItem? {
        assert items[i + 1] == AtomItem(name);
        assert forall j :: 0 < j <= i ==> items[j] == rest[j - 1];
      }
      if i :| 0 <= i < |items| && items[i] == AtomItem(name) && forall j :: 0 <= j < i ==> items[j].AtomItem? {
        if i > 0 { assert rest[i - 1] == AtomItem(name); }
      }
    }
  }

  /** `u` puts `name` in `list`. */
  ghost predicate Puts(u: Update, list: string, name: string) {
    u.Named? && u.list == list && Reaches(u.items, name)
  }

  ghost predicate Mentions(u: Update, list: string) {
    !u.NotNamed? && u.list == list
  }

  lemma {:induction false} ElemsAreHistory(cs: seq<Command>, list: string, name: string)
    ensures var s := Run(INITIAL, cs);
      && (list in s.knownElems <==> exists i :: 0 <= i < |cs| && cs[i].AddElems? && Mentions(cs[i].update, list))
      && (list in s.knownElems ==> (name in s.knownElems[list] <==>
            exists i :: 0 <= i < |cs| && cs[i].AddElems? && Puts(cs[i].update, list, name)))
    decreases |cs|
  {
    if cs != [] {
      hide AtomsOf, AllAtoms, Selected, Reaches;
      var front, c := cs[..|cs| - 1], cs[|cs| - 1];
      ElemsAreHistory(front, list, name);
      if c.AddElems? && c.update.Named? { AtomsOfExactly(c.update.items, name); }
      assert forall i :: 0 <= i < |cs| ==> cs[i] == if i < |front| then front[i] else c;
    }
  }

  lemma {:induction false} NssAreHistory(cs: seq<Command>, list: string, name: string)
    ensures var s := Run(INITIAL, cs);
      && (list in s.knownNss <==> exists i :: 0 <= i < |cs| && cs[i].AddNss? && Mentions(cs[i].update, list))
      && (list in s.knownNss ==> (name in s.knownNss[list] <==>
            name == XML_NAMESPACE || exists i :: 0 <= i < |cs| && cs[i].AddNss? && Puts(cs[i].update, list, name)))
    decreases |cs|
  {
    if cs != [] {
      hide AtomsOf, AllAtoms, Selected, Reaches;
      var front, c := cs[..|cs| - 1], cs[|cs| - 1];
      NssAreHistory(front, list, name);
      if c.AddNss? && c.update.Named? { AtomsOfExactly(c.update.items, name); }
      assert forall i :: 0 <= i < |cs| ==> cs[i] == if i < |front| then front[i] else c;
    }
  }

  /** The members of a list are exactly the names put there, and the XML namespace belongs
      to every namespace list. */
  lemma {:induction false} ListsAreHistory(cs: seq<Command>, list: string, name: string)
    ensures var s := Run(INITIAL, cs);
      && (list in s.knownElems <==> exists i :: 0 <= i < |cs| && cs[i].AddElems? && Mentions(cs[i].update, list))
      && (list in s.knownNss <==> exists i :: 0 <= i < |cs| && cs[i].AddNss? && Mentions(cs[i].update, list))
      && (list in s.knownElems ==> (name in s.knownElems[list] <==>
            exists i :: 0 <= i < |cs| && cs[i].AddElems? && Puts(cs[i].update, list, name)))
      && (list in s.knownNss ==> (name in s.knownNss[list] <==>
            name == XML_NAMESPACE || exists i :: 0 <= i < |cs| && cs[i].AddNss? && Puts(cs[i].update, list, name)))
  {
    hide Run, Puts, Mentions;
    ElemsAreHistory(cs, list, name);
    NssAreHistory(cs, list, name);
  }

  ghost predicate SelectionSound(s: State) {
    && (s.options.nss.Some? ==> s.options.nss.value in s.knownNss)
    && (s.options.elems.Some? ==> s.options.elems.value in s.knownElems)
    && (s.options.checkNss ==> s.options.nss.Some?)
    && (s.options.checkElems ==> s.options.elems.Some?)
  }

  lemma {:induction false} ExecuteKeepsSelection(s: State, c: Command)
    requires SelectionSound(s)
    ensures SelectionSound(Execute(s, c).0)
  {
    hide AtomsOf, AllAtoms;
  }

  /** A selected list exists, and names are checked only when a list is selected. */
  lemma {:induction false} SelectionExists(cs: seq<Command>)
    ensures SelectionSound(Run(INITIAL, cs))
    decreases |cs|
  {
    if cs != [] {
      hide Execute, SelectionSound;
      SelectionExists(cs[..|cs| - 1]);
      ExecuteKeepsSelection(Run(INITIAL, cs[..|cs| - 1]), cs[|cs| - 1]);
    }
  }

  /** An element name is encoded as an atom exactly when it is short enough, atoms are on, and, if
      checking is on, some update put it in the selected list; otherwise it is a string. */
  lemma {:induction false} ElementGate(cs: seq<Command>, elem: string)
    ensures var s := Run(INITIAL, cs);
      && (s.options.checkElems ==> s.options.elems.Some?)
      && (ElemToken(s, elem) == Atom(elem) <==>
            && |elem| <= MAXATOMLEN && s.options.namesAsAtom
            && (s.options.checkElems ==>
                  exists i :: 0 <= i < |cs| && cs[i].AddElems? && Puts(cs[i].update, s.options.elems.value, elem)))
      && (ElemToken(s, elem) == Atom(elem) || ElemToken(s, elem) == Str(elem))
  {
    hide Run, Puts;
    SelectionExists(cs);
    var elems := Run(INITIAL, cs).options.elems;
    if elems.Some? { ListsAreHistory(cs, elems.value, elem); }
  }

  /** Likewise for a namespace; the XML namespace is in every list, and none is the atom undefined. */
  lemma {:induction false} NamespaceGate(cs: seq<Command>, ns: string)
    ensures var s := Run(INITIAL, cs);
      && (s.options.checkNss ==> s.options.nss.Some?)
      && (NsToken(s, Some(ns)) == Atom(ns) <==>
            && |ns| <= MAXATOMLEN && s.options.namesAsAtom
            && (s.options.checkNss ==>
                  ns == XML_NAMESPACE ||
                  exists i :: 0 <= i < |cs| && cs[i].AddNss? && Puts(cs[i].update, s.options.nss.value, ns)))
      && (NsToken(s, Some(ns)) == Atom(ns) || NsToken(s, Some(ns)) == Str(ns))
      && (NsToken(s, Some(XML_NAMESPACE)) == Atom(XML_NAMESPACE) <==> s.options.namesAsAtom)
      && NsToken(s, None) == Atom("undefined")
  {
    hide Run, Puts;
    SelectionExists(cs);
    var nss := Run(INITIAL, cs).options.nss;
    if nss.Some? {
      ListsAreHistory(cs, nss.value, ns);
      ListsAreHistory(cs, nss.value, XML_NAMESPACE);
    }
    assert |XML_NAMESPACE| == 36;
  }

  // ---------------------------------------------------------------------------
  // The options over whole runs, for either kind of list.
  // ---------------------------------------------------------------------------

  datatype Kind = Nss | Elems

  predicate Adds(kind: Kind, c: Command) {
    if kind == Nss then c.AddNss? else c.AddElems?
  }

  function Selecting(kind: Kind, arg: Option<string>): (c: Command) {
    if kind == Nss then SelectNss(arg) else SelectElems(arg)
  }

  function ListsOf(kind: Kind, s: State): (lists: KnownLists) {
    if kind == Nss then s.knownNss else s.knownElems
  }

  function Chosen(kind: Kind, s: State): (list: Option<string>) {
    if kind == Nss then s.options.nss else s.options.elems
  }

  predicate Checking(kind: Kind, s: State) {
    if kind == Nss then s.options.checkNss else s.options.checkElems
  }

  /** Some update named the list. */
  ghost predicate Created(kind: Kind, cs: seq<Command>, list: string) {
    exists i :: 0 <= i < |cs| && Adds(kind, cs[i]) && Mentions(cs[i].update, list)
  }

  lemma {:induction false} CreatedExactly(kind: Kind, cs: seq<Command>, list: string)
    ensures list in ListsOf(kind, Run(INITIAL, cs)) <==> Created(kind, cs, list)
  {
    hide Run;
    ListsAreHistory(cs, list, "");
  }

  /** Selecting succeeds for `false`, for `true` once a list was selected, and otherwise exactly for
      the lists that an update created. */
  lemma {:induction false} SelectableExactly(kind: Kind, cs: seq<Command>, arg: Option<string>)
    ensures var s := Run(INITIAL, cs);
      Execute(s, Selecting(kind, arg)).1 <==>
        arg.Some? &&
        if arg.value == "false" then true
        else if arg.value == "true" then Chosen(kind, s).Some?
        else Created(kind, cs, arg.value)
  {
    hide Run, Created;
    if arg.Some? { CreatedExactly(kind, cs, arg.value); }
  }

  /** The command at `i` selects the list `l`, which exists by then. */
  ghost predicate Picks(kind: Kind, cs: seq<Command>, i: nat, l: string) {
    i < |cs| && cs[i] == Selecting(kind, Some(l)) && l != "true" && l != "false" && Created(kind, cs[..i], l)
  }

  /** The command at `i` switches checking on: it selects a list, or comes back to one. */
  ghost predicate TurnsOn(kind: Kind, cs: seq<Command>, i: nat) {
    && i < |cs|
    && ((exists l :: Picks(kind, cs, i, l)) ||
        (cs[i] == Selecting(kind, Some("true")) && Chosen(kind, Run(INITIAL, cs[..i])).Some?))
  }

  ghost predicate PicksLast(kind: Kind, cs: seq<Command>, i: nat, l: string) {
    Picks(kind, cs, i, l) && forall k: nat, m :: i < k ==> !Picks(kind, cs, k, m)
  }

  ghost predicate StaysOn(kind: Kind, cs: seq<Command>, i: nat) {
    TurnsOn(kind, cs, i) && forall k :: i < k < |cs| ==> cs[k] != Selecting(kind, Some("false"))
  }

  lemma {:induction false} StepSelects(kind: Kind, s: State, c: Command)
    ensures var r := Execute(s, c).0;
      var arg := if c == Selecting(kind, if c.SelectNss? || c.SelectElems? then c.arg else None)
        then c.arg else None;
      var picks := arg.Some? && arg.value != "true" && arg.value != "false" && arg.value in ListsOf(kind, s);
      && Chosen(kind, r) == (if picks then arg else Chosen(kind, s))
      && (Checking(kind, r) <==>
            if picks || (arg == Some("true") && Chosen(kind, s).Some?) then true
            else if arg == Some("false") then false else Checking(kind, s))
  {
    hide Updated;
  }

  lemma {:induction false} PicksBefore(kind: Kind, cs: seq<Command>, front: seq<Command>, i: nat, l: string)
    requires cs != [] && front == cs[..|cs| - 1]
    ensures Picks(kind, front, i, l) <==> Picks(kind, cs, i, l) && i < |front|
  {
    hide Created;
    if i < |front| { assert front[..i] == cs[..i]; }
  }

  lemma {:induction false} PicksNow(kind: Kind, cs: seq<Command>, front: seq<Command>, l: string)
    requires cs != [] && front == cs[..|cs| - 1]
    ensures Picks(kind, cs, |front|, l) <==>
      && cs[|front|] == Selecting(kind, Some(l)) && l != "true" && l != "false"
      && l in ListsOf(kind, Run(INITIAL, front))
  {
    hide Run, Created;
    CreatedExactly(kind, front, l);
    assert cs[..|front|] == front;
  }

  /** Over every run the selected list is the one that was selected last. */
  lemma {:induction false} ChosenIsLast(kind: Kind, cs: seq<Command>, l: string)
    ensures Chosen(kind, Run(INITIAL, cs)) == Some(l) <==> exists i: nat :: PicksLast(kind, cs, i, l)
    decreases |cs|
  {
    if cs == [] {
      assert forall i: nat :: !Picks(kind, cs, i, l);
    } else {
      var front, c := cs[..|cs| - 1], cs[|cs| - 1];
      var n := |front|;
      ChosenIsLast(kind, front, l);
      StepSelects(kind, Run(INITIAL, front), c);
      assert Run(INITIAL, cs) == Execute(Run(INITIAL, front), c).0;
      hide Run, Execute, Picks;
      forall i: nat, m ensures Picks(kind, front, i, m) <==> Picks(kind, cs, i, m) && i < n {
        PicksBefore(kind, cs, front, i, m);
      }
      forall m ensures Picks(kind, cs, n, m) <==>
        c == Selecting(kind, Some(m)) && m != "true" && m != "false" && m in ListsOf(kind, Run(INITIAL, front))
      {
        PicksNow(kind, cs, front, m);
      }
      PicksEnd(kind, cs);
      if m :| Picks(kind, cs, n, m) {
        assert PicksLast(kind, cs, n, m);
        assert forall i: nat :: PicksLast(kind, cs, i, l) ==> i == n;
      } else {
        assert forall i: nat :: PicksLast(kind, cs, i, l) <==> PicksLast(kind, front, i, l);
      }
    }
  }

  lemma {:induction false} PicksEnd(kind: Kind, cs: seq<Command>)
    ensures forall i: nat, m :: Picks(kind, cs, i, m) ==> i < |cs|
  {
  }

  lemma {:induction false} TurnsBefore(kind: Kind, cs: seq<Command>, front: seq<Command>)
    requires cs != [] && front == cs[..|cs| - 1]
    ensures forall i: nat :: i < |front| ==> (TurnsOn(kind, front, i) <==> TurnsOn(kind, cs, i))
  {
    hide Run, Picks;
    forall i: nat | i < |front| ensures TurnsOn(kind, front, i) <==> TurnsOn(kind, cs, i) {
      assert front[..i] == cs[..i];
      forall l ensures Picks(kind, front, i, l) <==> Picks(kind, cs, i, l) { PicksBefore(kind, cs, front, i, l); }
    }
  }

  lemma {:induction false} TurnsNow(kind: Kind, cs: seq<Command>, front: seq<Command>)
    requires cs != [] && front == cs[..|cs| - 1]
    ensures var (s, c) := (Run(INITIAL, front), cs[|front|]);
      TurnsOn(kind, cs, |front|) <==>
        || (c == Selecting(kind, Some("true")) && Chosen(kind, s).Some?)
        || exists l :: c == Selecting(kind, Some(l)) && l != "true" && l != "false" && l in ListsOf(kind, s)
  {
    hide Run, Picks;
    assert cs[..|front|] == front;
    forall l { PicksNow(kind, cs, front, l); }
  }

  lemma {:induction false} StaysSnoc(kind: Kind, cs: seq<Command>, front: seq<Command>)
    requires cs != [] && front == cs[..|cs| - 1]
    ensures (exists i: nat :: StaysOn(kind, cs, i)) <==>
      || TurnsOn(kind, cs, |front|)
      || (cs[|front|] != Selecting(kind, Some("false")) && exists i: nat :: StaysOn(kind, front, i))
  {
    var n := |front|;
    TurnsBefore(kind, cs, front);
    TurnsInRange(kind, cs);
    TurnsInRange(kind, front);
    hide TurnsOn, Selecting;
    if TurnsOn(kind, cs, n) { assert StaysOn(kind, cs, n); }
    if i: nat :| StaysOn(kind, front, i) {
      if cs[n] != Selecting(kind, Some("false")) { assert StaysOn(kind, cs, i); }
    }
    if i: nat :| StaysOn(kind, cs, i) {
      assert i < n ==> StaysOn(kind, front, i) && cs[n] != Selecting(kind, Some("false"));
    }
  }

  /** Over every run names are checked exactly when a command switched that on and no `false` came after it. */
  lemma {:induction false} CheckingExactly(kind: Kind, cs: seq<Command>)
    ensures Checking(kind, Run(INITIAL, cs)) <==> exists i: nat :: StaysOn(kind, cs, i)
    decreases |cs|
  {
    if cs == [] {
      TurnsInRange(kind, cs);
      hide TurnsOn;
      assert forall i: nat :: !StaysOn(kind, cs, i);
    } else {
      var front, c := cs[..|cs| - 1], cs[|cs| - 1];
      CheckingExactly(kind, front);
      StepSelects(kind, Run(INITIAL, front), c);
      assert Run(INITIAL, cs) == Execute(Run(INITIAL, front), c).0;
      TurnsNow(kind, cs, front);
      StaysSnoc(kind, cs, front);
      hide Run, Execute, TurnsOn, StaysOn, ListsOf, Checking, Chosen;
    }
  }

  lemma {:induction false} TurnsInRange(kind: Kind, cs: seq<Command>)
    ensures forall i: nat :: TurnsOn(kind, cs, i) ==> i < |cs|
  {
  }

  /** Names may become atoms unless the last switch for that was off. */
  lemma {:induction false} NamesAsAtomExactly(cs: seq<Command>)
    ensures Run(INITIAL, cs).options.namesAsAtom <==>
      forall i :: 0 <= i < |cs| && cs[i] == SetNamesAsAtom(false) ==>
        exists k :: i < k < |cs| && cs[k] == SetNamesAsAtom(true)
    decreases |cs|
  {
    if cs != [] {
      hide Updated, Selected;
      var front, c := cs[..|cs| - 1], cs[|cs| - 1];
      NamesAsAtomExactly(front);
      assert forall i :: 0 <= i < |front| ==> front[i] == cs[i];
      assert cs[|front|] == c;
      if c == SetNamesAsAtom(true) {
        assert cs[|front|] == SetNamesAsAtom(true);
        assert forall i :: 0 <= i < |cs| && cs[i] == SetNamesAsAtom(false) ==> i < |front|;
      }
    }
  }

  /** An update succeeds exactly when it names a list and gives atoms only; it changes no option and
      no list of the other kind. */
  lemma {:induction false} UpdateExactly(s: State, u: Update)
    ensures Execute(s, AddNss(u)).1 == Execute(s, AddElems(u)).1
    ensures Execute(s, AddNss(u)).1 <==> u.Named? && forall i :: 0 <= i < |u.items| ==> u.items[i].AtomItem?
    ensures Execute(s, AddNss(u)).0 == s.(knownNss := Execute(s, AddNss(u)).0.knownNss)
    ensures Execute(s, AddElems(u)).0 == s.(knownElems := Execute(s, AddElems(u)).0.knownElems)
  {
    hide AtomsOf;
  }

  // ---------------------------------------------------------------------------
  // Many ports: they share the lists, and each has its own options.
  // ---------------------------------------------------------------------------

  datatype Ports = Ports(knownNss: KnownLists, knownElems: KnownLists, options: seq<Settings>)

  /** A command given to one port. */
  datatype Order = Order(port: nat, command: Command)

  function View(ps: Ports, p: nat): (s: State)
    requires p < |ps.options|
  {
    State(ps.knownNss, ps.knownElems, ps.options[p])
  }

  /** Orders to ports that do not exist are lost. */
  function ExecuteAt(ps: Ports, order: Order): (r: Ports)
    ensures |r.options| == |ps.options|
  {
    if order.port >= |ps.options| then ps
    else
      var s := Execute(View(ps, order.port), order.command).0;
      Ports(s.knownNss, s.knownElems, ps.options[order.port := s.options])
  }

  function RunPorts(n: nat, orders: seq<Order>): (r: Ports)
    ensures |r.options| == n
    decreases |orders|
  {
    if orders == [] then Ports(map[], map[], seq(n, _ => INITIAL.options))
    else ExecuteAt(RunPorts(n, orders[..|orders| - 1]), orders[|orders| - 1])
  }

  /** What port `p` of `n` notices: its own commands, and the updates of every port. */
  function Noticed(n: nat, orders: seq<Order>, p: nat): (cs: seq<Command>)
    decreases |orders|
  {
    if orders == [] then []
    else
      var before, order := Noticed(n, orders[..|orders| - 1], p), orders[|orders| - 1];
      if order.port < n && (order.port == p || order.command.AddNss? || order.command.AddElems?)
      then before + [order.command] else before
  }

  /** Each port is in the state of a run of what it notices. */
  lemma {:induction false} PortsAgree(n: nat, orders: seq<Order>, p: nat)
    requires p < n
    ensures View(RunPorts(n, orders), p) == Run(INITIAL, Noticed(n, orders, p))
    decreases |orders|
  {
    if orders != [] {
      hide ExecuteAt, Execute, View;
      var front, order := orders[..|orders| - 1], orders[|orders| - 1];
      PortsAgree(n, front, p);
      ViewAfter(RunPorts(n, front), order, p);
      var cs := Noticed(n, front, p);
      assert (cs + [order.command])[..|cs|] == cs;
    } else {
      hide ExecuteAt, Execute;
    }
  }

  lemma {:induction false} ViewAfter(ps: Ports, order: Order, p: nat)
    requires p < |ps.options|
    ensures View(ExecuteAt(ps, order), p) ==
      if order.port < |ps.options| && (order.port == p || order.command.AddNss? || order.command.AddElems?)
      then Execute(View(ps, p), order.command).0 else View(ps, p)
  {
    hide Updated, Selected;
  }

  ghost predicate PutsName(kind: Kind, c: Command, list: string, name: string) {
    Adds(kind, c) && Puts(c.update, list, name)
  }

  ghost predicate PutBefore(kind: Kind, cs: seq<Command>, list: string, name: string) {
    exists i :: 0 <= i < |cs| && PutsName(kind, cs[i], list, name)
  }

  /** Some port was given an update that puts the name in the list. */
  ghost predicate Ordered(n: nat, kind: Kind, orders: seq<Order>, list: string, name: string) {
    exists i :: 0 <= i < |orders| && orders[i].port < n && PutsName(kind, orders[i].command, list, name)
  }

  lemma {:induction false} PutSnoc(kind: Kind, cs: seq<Command>, c: Command, list: string, name: string)
    ensures PutBefore(kind, cs + [c], list, name) <==> PutBefore(kind, cs, list, name) || PutsName(kind, c, list, name)
  {
    hide PutsName;
    var all := cs + [c];
    assert forall i :: 0 <= i < |all| ==> all[i] == if i < |cs| then cs[i] else c;
    if PutsName(kind, c, list, name) { assert PutsName(kind, all[|cs|], list, name); }
    if i :| 0 <= i < |cs| && PutsName(kind, cs[i], list, name) { assert PutsName(kind, all[i], list, name); }
  }

  lemma {:induction false} OrderSnoc(n: nat, kind: Kind, orders: seq<Order>, list: string, name: string)
    requires orders != []
    ensures var (front, last) := (orders[..|orders| - 1], orders[|orders| - 1]);
      Ordered(n, kind, orders, list, name) <==>
        Ordered(n, kind, front, list, name) || (last.port < n && PutsName(kind, last.command, list, name))
  {
    hide PutsName;
    var front := orders[..|orders| - 1];
    if i :| 0 <= i < |front| && front[i].port < n && PutsName(kind, front[i].command, list, name) {
      assert orders[i].port < n && PutsName(kind, orders[i].command, list, name);
    }
    if i :| 0 <= i < |orders| && orders[i].port < n && PutsName(kind, orders[i].command, list, name) {
      assert i < |front| ==> front[i] == orders[i];
    }
  }

  lemma {:induction false} UpdatesNoticed(n: nat, kind: Kind, orders: seq<Order>, p: nat, list: string, name: string)
    requires p < n
    ensures Ordered(n, kind, orders, list, name) <==> PutBefore(kind, Noticed(n, orders, p), list, name)
    decreases |orders|
  {
    if orders != [] {
      hide Puts, Ordered, PutBefore;
      var front, order := orders[..|orders| - 1], orders[|orders| - 1];
      UpdatesNoticed(n, kind, front, p, list, name);
      OrderSnoc(n, kind, orders, list, name);
      PutSnoc(kind, Noticed(n, front, p), order.command, list, name);
    }
  }

  /** At any port an element name becomes an atom exactly when it is short enough, atoms are on there,
      and, if checking is on there, some update, of whichever port, put it in the list selected there. */
  lemma {:induction false} SharedElementGate(n: nat, orders: seq<Order>, p: nat, elem: string)
    requires p < n
    ensures var s := View(RunPorts(n, orders), p);
      && (s.options.checkElems ==> s.options.elems.Some?)
      && (ElemToken(s, elem) == Atom(elem) <==>
            && |elem| <= MAXATOMLEN && s.options.namesAsAtom
            && (s.options.checkElems ==> Ordered(n, Elems, orders, s.options.elems.value, elem)))
  {
    hide Run, RunPorts, Noticed, Puts, Ordered;
    PortsAgree(n, orders, p);
    ElementGate(Noticed(n, orders, p), elem);
    var elems := View(RunPorts(n, orders), p).options.elems;
    if elems.Some? { UpdatesNoticed(n, Elems, orders, p, elems.value, elem); }
  }

  lemma {:induction false} SharedNamespaceGate(n: nat, orders: seq<Order>, p: nat, ns: string)
    requires p < n
    ensures var s := View(RunPorts(n, orders), p);
      && (s.options.checkNss ==> s.options.nss.Some?)
      && (NsToken(s, Some(ns)) == Atom(ns) <==>
            && |ns| <= MAXATOMLEN && s.options.namesAsAtom
            && (s.options.checkNss ==> ns == XML_NAMESPACE || Ordered(n, Nss, orders, s.options.nss.value, ns)))
  {
    hide Run, RunPorts, Noticed, Puts, Ordered;
    PortsAgree(n, orders, p);
    NamespaceGate(Noticed(n, orders, p), ns);
    var nss := View(RunPorts(n, orders), p).options.nss;
    if nss.Some? { UpdatesNoticed(n, Nss, orders, p, nss.value, ns); }
  }

  // ---------------------------------------------------------------------------
  // The commands of a port, on its own fields and on the lists it shares.
  // ---------------------------------------------------------------------------

  /** The lists of the driver, which all its ports use. */
  class Index {
    var nss: KnownLists
    var elems: KnownLists

    constructor ()
      ensures nss == elems == map[]
    {
      nss, elems := map[], map[];
    }
  }

  class Port {
    const index: Index
    var options: Settings

    function Value(): State
      reads this, index
    {
      State(index.nss, index.elems, options)
    }

    constructor (index: Index)
      ensures this.index == index && Value() == State(index.nss, index.elems, INITIAL.options)
    {
      this.index, options := index, INITIAL.options;
    }

    /** Adds the items one by one, up to the first that is not an atom. */
    method UpdateList(list: set<string>, items: seq<Item>) returns (updated: set<string>, ok: bool)
      ensures updated == list + AtomsOf(items) && ok == AllAtoms(items)
    {
      updated, ok := list, false;
      var i := 0;
      while i < |items|
        invariant 0 <= i <= |items|
        invariant AllAtoms(items[..i])
        invariant updated + AtomsOf(items[i..]) == list + AtomsOf(items)
      {
        if items[i].OtherItem? { return; }
        if items[i].name !in updated {
          updated := updated + {items[i].name};
        }
        assert items[i..][1..] == items[i + 1..];
        i := i + 1;
      }
      assert items[..i] == items;
      ok := true;
    }

    method AddKnown(lists: KnownLists, update: Update, initially: set<string>) returns (updated: KnownLists, ok: bool)
      ensures (updated, ok) == Updated(lists, update, initially)
    {
      updated, ok := lists, false;
      if update.NotNamed? { return; }
      if update.list !in updated {
        updated := updated[update.list := initially];
      }
      if update.NotAList? { return; }
      var list;
      list, ok := UpdateList(updated[update.list], update.items);
      updated := updated[update.list := list];
    }

    method Select(lists: KnownLists, check: bool, current: Option<string>, arg: Option<string>)
      returns (check': bool, selected: Option<string>, ok: bool)
      ensures (check', selected, ok) == Selected(lists, check, current, arg)
    {
      check', selected, ok := check, current, false;
      if arg.None? { return; }
      if arg.value == "false" { return false, current, true; }
      if arg.value == "true" {
        if current.Some? { check', ok := true, true; }
        return;
      }
      if arg.value in lists { check', selected, ok := true, arg, true; }
    }

    method Control(c: Command) returns (ok: bool)
      modifies this, index
      ensures (Value(), ok) == Execute(old(Value()), c)
    {
      match c {
        case AddNss(update) =>
          index.nss, ok := AddKnown(index.nss, update, {XML_NAMESPACE});
        case AddElems(update) =>
          index.elems, ok := AddKnown(index.elems, update, {});
        case SelectNss(arg) =>
          var check, list;
          check, list, ok := Select(index.nss, options.checkNss, options.nss, arg);
          options := options.(checkNss := check, nss := list);
        case SelectElems(arg) =>
          var check, list;
          check, list, ok := Select(index.elems, options.checkElems, options.elems, arg);
          options := options.(checkElems := check, elems := list);
        case SetNamesAsAtom(on) =>
          options := options.(namesAsAtom := on);
          ok := true;
      }
    }
  }
}
