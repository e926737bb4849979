/** The call-control command queue: dialplan commands run one at a time, each waiting for
    the completion event of the one before. */
module CallControl {
  import opened Options

  type App = string
  type CallId = string
  type LegId = string

  /** A dialplan command; `valid` is the verdict of the dialplan validator on it. */
  datatype Command = Command(app: App, body: string, valid: bool)

  /** A message holds one command, or a list in which empty objects may occur. */
  datatype Message = One(cmd: Command) | Batch(valid: bool, cmds: seq<Option<Command>>)

  datatype Position = Now | Head | Tail | Flush

  datatype Event =
    | Dialplan(at: Position, msg: Message)
    | ExecuteComplete(callId: CallId, name: string)
    | ForceAdvance(callId: CallId)
    | NodeDown
    | NodeProbed(up: bool)
    | AddLeg(leg: Option<LegId>)
    | RemoveLeg(leg: Option<LegId>)
    | Transferee(newCallId: Option<CallId>)
    | ChannelDestroyed

  datatype State = State(
    callId: CallId, queue: seq<Command>, currentApp: Option<App>, nodeUp: bool,
    legs: seq<LegId>, lastRemoved: Option<LegId>)

  function Initial(callId: CallId): (s: State) {
    State(callId, [], None, true, [], None)
  }

  /** The application names of the switch and the dialplan names they carry out. */
  const FS_APPLICATION_NAMES: seq<(string, App)> := [
    ("playback", "play"), ("hangup", "hangup"), ("record", "record"), ("playback", "tones"),
    ("park", "park"), ("set", "set"), ("export", "set"), ("say", "say"), ("sleep", "sleep"),
    ("respond", "respond"), ("bridge", "bridge"), ("signal_bridge", "bridge"), ("answer", "answer"),
    ("pre_answer", "progress"), ("tone_detect", "tone_detect"),
    ("play_and_get_digits", "play_and_collect_digits"), ("respond", "respond"), ("redirect", "redirect"),
    ("conference", "conference"), ("noop", "noop"), ("execute_extension", "execute_extension"),
    ("playback", "hold")]

  const POST_HANGUP_COMMANDS: set<App> := {"store", "set"}

  /** Whether an event named `name` completes the dialplan application `app`. */
  predicate Completes(name: string, app: App) {
    (name, app) in FS_APPLICATION_NAMES
  }

  // ---------------------------------------------------------------------------
  // Insertion.
  // ---------------------------------------------------------------------------

  predicate AllValid(cmds: seq<Option<Command>>) {
    forall i :: 0 <= i < |cmds| && cmds[i].Some? ==> cmds[i].value.valid
  }

  predicate Insertable(msg: Message) {
    if msg.One? then msg.cmd.valid else msg.valid && AllValid(msg.cmds)
  }

  function InsertOne(q: seq<Command>, atHead: bool, cmd: Command): (r: seq<Command>) {
    if atHead then [cmd] + q else q + [cmd]
  }

  /** The fold goes over the list from its last command to its first. */
  function InsertAll(q: seq<Command>, atHead: bool, cmds: seq<Option<Command>>): (r: seq<Command>) {
    if cmds == [] then q
    else
      var rest := InsertAll(q, atHead, cmds[1..]);
      if cmds[0].None? then rest else InsertOne(rest, atHead, cmds[0].value)
  }

  function Insert(q: seq<Command>, atHead: bool, msg: Message): (r: seq<Command>) {
    if msg.One? then InsertOne(q, atHead, msg.cmd) else InsertAll(q, atHead, msg.cmds)
  }

  /** The queue after a message; one that fails to validate leaves it as it was, flush included. */
  function Inserted(s: State, at: Position, msg: Message): (q: seq<Command>) {
    if at.Now? || !Insertable(msg) then s.queue
    else if at.Flush? then Insert([], false, msg)
    else Insert(s.queue, at.Head?, msg)
  }

  function Present(cmds: seq<Option<Command>>): (r: seq<Command>) {
    if cmds == [] then []
    else if cmds[0].None? then Present(cmds[1..])
    else [cmds[0].value] + Present(cmds[1..])
  }

  function Reverse(s: seq<Command>): (r: seq<Command>) {
    if s == [] then [] else Reverse(s[1..]) + [s[0]]
  }

  /** The commands of a message, in the order they enter the queue at its tail. */
  function TailOrder(msg: Message): (r: seq<Command>) {
    if msg.One? then [msg.cmd] else Reverse(Present(msg.cmds))
  }

  /** Commands run at once: in order, up to the first that fails to validate; a single
      command is not validated. */
  function Immediate(cmds: seq<Option<Command>>): (r: seq<Command>) {
    if cmds == [] then []
    else if cmds[0].None? then Immediate(cmds[1..])
    else if !cmds[0].value.valid then []
    else [cmds[0].value] + Immediate(cmds[1..])
  }

  // ---------------------------------------------------------------------------
  // Steps.
  // ---------------------------------------------------------------------------

  /** What a step lets out: commands executed outside the queue, the part of the queue that
      was flushed, the commands that entered it, and the marks of the queue's own progress. */
  datatype Out = Out(immediate: seq<Command>, flushed: seq<Command>, accepted: seq<Command>, marks: seq<Mark>)

  datatype Mark = Dispatch(cmd: Command) | Complete(name: string) | Force

  const NOTHING := Out([], [], [], [])

  /** Releases the running application and takes the next command, unless the node is down. */
  function Advance(s: State): (r: (State, seq<Mark>)) {
    if !s.nodeUp || s.queue == [] then (s.(currentApp := None), [])
    else (s.(queue := s.queue[1..], currentApp := Some(s.queue[0].app)), [Dispatch(s.queue[0])])
  }

  function Removed(legs: seq<LegId>, leg: LegId): (r: seq<LegId>) {
    if legs == [] then [] else if legs[0] == leg then legs[1..] else [legs[0]] + Removed(legs[1..], leg)
  }

  function PostHangup(q: seq<Command>): (r: seq<Command>) {
    if q == [] then []
    else if q[0].app in POST_HANGUP_COMMANDS then [q[0]] + PostHangup(q[1..])
    else PostHangup(q[1..])
  }

  function Step(s: State, e: Event): (r: (State, Out)) {
    match e
    case Dialplan(at, msg) =>
      var queue := Inserted(s, at, msg);
      var immediate :=
        if !at.Now? || !s.nodeUp then []
        else if msg.One? then [msg.cmd]
        else if msg.valid then Immediate(msg.cmds) else [];
      var enters := !at.Now? && Insertable(msg);
      var s1 := s.(queue := queue);
      var (s2, marks) := if s.nodeUp && queue != [] && s.currentApp.None? then Advance(s1) else (s1, []);
      (s2, Out(immediate, if at.Flush? && enters then s.queue else [],
               if enters then TailOrder(msg) else [], marks))
    case ExecuteComplete(callId, name) =>
      if callId == s.callId && s.currentApp.Some? && Completes(name, s.currentApp.value) then
        var (s1, marks) := Advance(s);
        (s1, NOTHING.(marks := [Complete(name)] + marks))
      else (s, NOTHING)
    case ForceAdvance(callId) =>
      if callId == s.callId then
        var (s1, marks) := Advance(s);
        (s1, NOTHING.(marks := [Force] + marks))
      else (s, NOTHING)
    case NodeDown => (s.(nodeUp := false), NOTHING)
    case NodeProbed(up) => (if !s.nodeUp && up then s.(nodeUp := true) else s, NOTHING)
    case AddLeg(leg) =>
      (if leg.None? || leg.value in s.legs then s else s.(legs := [leg.value] + s.legs), NOTHING)
    case RemoveLeg(leg) =>
      (if leg.None? || leg.value !in s.legs then s
       else s.(legs := Removed(s.legs, leg.value), lastRemoved := leg), NOTHING)
    case Transferee(newCallId) =>
      (if newCallId.None? then s
       else s.(callId := newCallId.value, legs := Removed(s.legs, newCallId.value)), NOTHING)
    case ChannelDestroyed => (s, NOTHING.(immediate := PostHangup(s.queue)))
  }

  function Join(o: Out, o1: Out): (r: Out) {
    Out(o.immediate + o1.immediate, o.flushed + o1.flushed, o.accepted + o1.accepted, o.marks + o1.marks)
  }

  /** A run from the initial state, with everything its steps let out joined. */
  function Run(callId: CallId, es: seq<Event>): (r: (State, Out))
    decreases |es|
  {
    if es == [] then (Initial(callId), NOTHING)
    else
      var (s, o) := Run(callId, es[..|es| - 1]);
      var (s1, o1) := Step(s, es[|es| - 1]);
      (s1, Join(o, o1))
  }

  /** The commands dispatched from the queue. */
  function Dispatched(marks: seq<Mark>): (r: seq<Command>)
    decreases |marks|
  {
    if marks == [] then []
    else
      var m := marks[|marks| - 1];
      Dispatched(marks[..|marks| - 1]) + (if m.Dispatch? then [m.cmd] else [])
  }

  // ---------------------------------------------------------------------------
  // Batches.
  // ---------------------------------------------------------------------------

  /** A head batch comes in list order before the old queue; a tail batch comes in reverse
      list order after it. */
  lemma {:induction false} BatchOrder(q: seq<Command>, cmds: seq<Option<Command>>)
    ensures InsertAll(q, true, cmds) == Present(cmds) + q
    ensures InsertAll(q, false, cmds) == q + Reverse(Present(cmds))
    decreases |cmds|
  {
    if cmds == [] {
      assert q + [] == q && [] + q == q;
    } else {
      BatchOrder(q, cmds[1..]);
      if cmds[0].Some? {
        var c, rest := cmds[0].value, Present(cmds[1..]);
        assert ([c] + rest)[1..] == rest;
        assert q + Reverse(rest) + [c] == q + (Reverse(rest) + [c]);
        assert [c] + (rest + q) == [c] + rest + q;
      }
    }
  }

  /** A tail batch is queued in the order it was given exactly when it reads the same both ways. */
  lemma {:induction false} TailBatchInOrderExactly(q: seq<Command>, cmds: seq<Option<Command>>)
    ensures InsertAll(q, false, cmds) == q + Present(cmds) <==>
      forall i :: 0 <= i < |Present(cmds)| ==> Present(cmds)[i] == Present(cmds)[|Present(cmds)| - 1 - i]
  {
    var p := Present(cmds);
    BatchOrder(q, cmds);
    ReverseAt(p);
    if q + Reverse(p) == q + p { assert (q + Reverse(p))[|q|..] == Reverse(p) && (q + p)[|q|..] == p; }
    if forall i :: 0 <= i < |p| ==> p[i] == p[|p| - 1 - i] { assert Reverse(p) == p; }
  }

  /** A flush leaves only the new batch, in reverse list order, unless the message fails to validate. */
  lemma {:induction false} FlushExactly(s: State, msg: Message)
    ensures Inserted(s, Flush, msg) ==
      if !Insertable(msg) then s.queue else if msg.One? then [msg.cmd] else Reverse(Present(msg.cmds))
  {
    if msg.Batch? {
      BatchOrder([], msg.cmds);
      assert [] + Reverse(Present(msg.cmds)) == Reverse(Present(msg.cmds));
    }
  }

  /** An immediate batch runs its commands in list order up to the first that fails to validate. */
  lemma {:induction false} ImmediateExactly(cmds: seq<Option<Command>>, k: nat)
    requires k <= |cmds| && AllValid(cmds[..k])
    requires k < |cmds| ==> cmds[k].Some? && !cmds[k].value.valid
    ensures Immediate(cmds) == Present(cmds[..k])
    decreases |cmds|
  {
    if k > 0 {
      assert cmds[..k][1..] == cmds[1..][..k - 1];
      assert cmds[..k][0] == cmds[0];
      var rest := cmds[1..][..k - 1];
      assert forall i :: 0 <= i < |rest| ==> rest[i] == cmds[..k][i + 1];
      ImmediateExactly(cmds[1..], k - 1);
    }
  }

  /** What runs after the hangup is what waits and may still run, each as often as it waits, in order. */
  lemma {:induction false} PostHangupExactly(a: seq<Command>, b: seq<Command>, c: Command)
    ensures PostHangup(a + b) == PostHangup(a) + PostHangup(b)
    ensures multiset(PostHangup(a))[c] == if c.app in POST_HANGUP_COMMANDS then multiset(a)[c] else 0
    decreases |a|
  {
    if a == [] {
      assert a + b == b;
    } else {
      assert (a + b)[1..] == a[1..] + b;
      assert a == [a[0]] + a[1..];
      PostHangupExactly(a[1..], b, c);
    }
  }

  lemma {:induction false} ReverseAt(s: seq<Command>)
    ensures |Reverse(s)| == |s| && forall i :: 0 <= i < |s| ==> Reverse(s)[i] == s[|s| - 1 - i]
    ensures multiset(Reverse(s)) == multiset(s)
    decreases |s|
  {
    if s != [] {
      ReverseAt(s[1..]);
      assert s == [s[0]] + s[1..];
    }
  }

  // ---------------------------------------------------------------------------
  // Conservation.
  // ---------------------------------------------------------------------------

  lemma {:induction false} InsertCounts(q: seq<Command>, atHead: bool, msg: Message)
    ensures multiset(Insert(q, atHead, msg)) == multiset(q) + multiset(TailOrder(msg))
    ensures !atHead ==> Insert(q, atHead, msg) == q + TailOrder(msg)
  {
    if msg.Batch? {
      BatchOrder(q, msg.cmds);
      ReverseAt(Present(msg.cmds));
    }
  }

  lemma {:induction false} DispatchedConcat(a: seq<Mark>, b: seq<Mark>)
    ensures Dispatched(a + b) == Dispatched(a) + Dispatched(b)
    decreases |b|
  {
    if b == [] {
      assert a + b == a;
    } else {
      assert (a + b)[..|a + b| - 1] == a + b[..|b| - 1];
      DispatchedConcat(a, b[..|b| - 1]);
    }
  }

  lemma {:induction false} AdvanceTakes(s: State, m: seq<Mark>)
    requires Dispatched(m) == []
    ensures Dispatched(m + Advance(s).1) + Advance(s).0.queue == s.queue
  {
    DispatchedConcat(m, Advance(s).1);
    if s.nodeUp && s.queue != [] {
      assert [Dispatch(s.queue[0])][..0] == [];
      assert Dispatched([Dispatch(s.queue[0])]) == [s.queue[0]];
    }
  }

  /** What was waiting or enters is afterwards dispatched, waiting or flushed. */
  ghost predicate Conserves(before: seq<Command>, o: Out, after: seq<Command>) {
    multiset(before) + multiset(o.accepted) == multiset(Dispatched(o.marks)) + multiset(after) + multiset(o.flushed)
  }

  ghost predicate InOrder(before: seq<Command>, o: Out, after: seq<Command>) {
    o.flushed == [] && before + o.accepted == Dispatched(o.marks) + after
  }

  predicate Reorders(e: Event) {
    e.Dialplan? && (e.at.Head? || e.at.Flush?)
  }

  lemma {:induction false} InsertedCounts(s: State, at: Position, msg: Message)
    ensures var enters := !at.Now? && Insertable(msg);
      var accepted, flushed := if enters then TailOrder(msg) else [], if at.Flush? && enters then s.queue else [];
      && multiset(s.queue) + multiset(accepted) == multiset(Inserted(s, at, msg)) + multiset(flushed)
      && (!at.Head? && !at.Flush? ==> s.queue + accepted == Inserted(s, at, msg))
  {
    hide Insert, TailOrder, Insertable;
    InsertCounts(s.queue, at.Head?, msg);
    InsertCounts([], false, msg);
    assert s.queue + [] == s.queue && [] + TailOrder(msg) == TailOrder(msg);
  }

  lemma {:induction false} DialplanConserves(s: State, at: Position, msg: Message)
    ensures var (s1, o) := Step(s, Dialplan(at, msg));
      Conserves(s.queue, o, s1.queue) && (!at.Head? && !at.Flush? ==> InOrder(s.queue, o, s1.queue))
  {
    hide Inserted, TailOrder, Immediate, Insertable;
    var s1 := s.(queue := Inserted(s, at, msg));
    var (r, o) := Step(s, Dialplan(at, msg));
    InsertedCounts(s, at, msg);
    AdvanceTakes(s1, []);
    assert [] + Advance(s1).1 == Advance(s1).1;
    assert Dispatched(o.marks) + r.queue == s1.queue;
    Counts(Dispatched(o.marks), r.queue, s1.queue);
  }

  lemma {:induction false} ReleaseConserves(s: State, m: Mark)
    requires !m.Dispatch?
    ensures var (s1, marks) := Advance(s);
      var o := NOTHING.(marks := [m] + marks);
      Conserves(s.queue, o, s1.queue) && InOrder(s.queue, o, s1.queue)
  {
    assert [m][..0] == [];
    assert Dispatched([m]) == [];
    AdvanceTakes(s, [m]);
    assert s.queue + [] == s.queue;
    Counts(Dispatched([m] + Advance(s).1), Advance(s).0.queue, s.queue);
  }

  /** An event that lets nothing in or out of the queue. */
  predicate Idle(e: Event) {
    !e.Dialplan? && !e.ExecuteComplete? && !e.ForceAdvance?
  }

  lemma {:induction false} IdleKeeps(s: State, e: Event)
    requires Idle(e)
    ensures var (s1, o) := Step(s, e);
      s1.queue == s.queue && o.marks == [] && o.flushed == [] && o.accepted == []
  {
    hide Removed, PostHangup, Inserted, Immediate, Advance, TailOrder, Insertable, Completes;
  }

  lemma {:induction false} NothingMoves(q: seq<Command>, o: Out)
    requires o.marks == [] && o.flushed == [] && o.accepted == []
    ensures Conserves(q, o, q) && InOrder(q, o, q)
  {
    assert q + [] == q && [] + q == q;
  }

  lemma {:induction false} StepConserves(s: State, e: Event)
    ensures var (s1, o) := Step(s, e);
      Conserves(s.queue, o, s1.queue) && (!Reorders(e) ==> InOrder(s.queue, o, s1.queue))
  {
    if e.Dialplan? {
      hide Step, Conserves, InOrder;
      DialplanConserves(s, e.at, e.msg);
    } else if e.ExecuteComplete? || e.ForceAdvance? {
      hide Conserves, InOrder, Completes, Advance;
      NothingMoves(s.queue, NOTHING);
      ReleaseConserves(s, if e.ForceAdvance? then Force else Complete(e.name));
    } else {
      hide Step, Conserves, InOrder;
      IdleKeeps(s, e);
      NothingMoves(s.queue, Step(s, e).1);
    }
  }

  lemma {:induction false} JoinConserves(
    before: seq<Command>, o: Out, between: seq<Command>, o1: Out, after: seq<Command>)
    requires Conserves(before, o, between) && Conserves(between, o1, after)
    ensures Conserves(before, Join(o, o1), after)
  {
    hide Dispatched;
    DispatchedConcat(o.marks, o1.marks);
    JoinBags(multiset(before), multiset(o.accepted), multiset(Dispatched(o.marks)), multiset(o.flushed),
             multiset(between),
             multiset(o1.accepted), multiset(Dispatched(o1.marks)), multiset(o1.flushed), multiset(after));
  }

  lemma {:induction false} JoinBags<T>(b: multiset<T>, a: multiset<T>, d: multiset<T>, f: multiset<T>, m: multiset<T>,
                                       a1: multiset<T>, d1: multiset<T>, f1: multiset<T>, n: multiset<T>)
    requires b + a == d + m + f && m + a1 == d1 + n + f1
    ensures b + (a + a1) == d + d1 + n + (f + f1)
  {
    forall x ensures (b + (a + a1))[x] == (d + d1 + n + (f + f1))[x] {
      assert (b + a)[x] == (d + m + f)[x] && (m + a1)[x] == (d1 + n + f1)[x];
    }
  }

  lemma {:induction false} JoinInOrder(
    before: seq<Command>, o: Out, between: seq<Command>, o1: Out, after: seq<Command>)
    requires InOrder(before, o, between) && InOrder(between, o1, after)
    ensures InOrder(before, Join(o, o1), after)
  {
    hide Dispatched;
    DispatchedConcat(o.marks, o1.marks);
    var d, d1 := Dispatched(o.marks), Dispatched(o1.marks);
    assert before + (o.accepted + o1.accepted) == before + o.accepted + o1.accepted;
    assert d + between + o1.accepted == d + (between + o1.accepted);
    assert d + (d1 + after) == d + d1 + after;
  }

  /** Over every run, each accepted command is in exactly one place: dispatched by the queue,
      waiting, or flushed. */
  lemma {:induction false} RunConserves(callId: CallId, es: seq<Event>)
    ensures var (s, o) := Run(callId, es); Conserves([], o, s.queue)
    decreases |es|
  {
    if es != [] {
      hide Step, Conserves;
      var (s, o) := Run(callId, es[..|es| - 1]);
      var (s1, o1) := Step(s, es[|es| - 1]);
      RunConserves(callId, es[..|es| - 1]);
      StepConserves(s, es[|es| - 1]);
      JoinConserves([], o, s.queue, o1, s1.queue);
    }
  }

  /** With neither head insertions nor flushes, commands are dispatched in the order they
      entered: dispatched then waiting is the arrival order. */
  lemma {:induction false} RunInOrder(callId: CallId, es: seq<Event>)
    requires forall i :: 0 <= i < |es| ==> !Reorders(es[i])
    ensures var (s, o) := Run(callId, es); InOrder([], o, s.queue)
    decreases |es|
  {
    if es != [] {
      hide Step, InOrder, Reorders;
      var (s, o) := Run(callId, es[..|es| - 1]);
      var (s1, o1) := Step(s, es[|es| - 1]);
      RunInOrder(callId, es[..|es| - 1]);
      StepConserves(s, es[|es| - 1]);
      JoinInOrder([], o, s.queue, o1, s1.queue);
    } else {
      assert [] + NOTHING.accepted == Dispatched([]) + [];
    }
  }

  lemma {:induction false} Counts(a: seq<Command>, b: seq<Command>, c: seq<Command>)
    requires a + b == c
    ensures multiset(a) + multiset(b) == multiset(c)
  {
  }

  lemma {:induction false} RunLast(callId: CallId, es: seq<Event>)
    requires es != []
    ensures Run(callId, es).0 == Step(Run(callId, es[..|es| - 1]).0, es[|es| - 1]).0
  {
  }

  // ---------------------------------------------------------------------------
  // Where commands enter, in whole steps and runs.
  // ---------------------------------------------------------------------------

  /** The commands of a message in list order. */
  function Carried(msg: Message): (cmds: seq<Command>) {
    if msg.One? then [msg.cmd] else Present(msg.cmds)
  }

  /** The message and each of its commands validate. */
  ghost predicate Sound(msg: Message) {
    (msg.Batch? ==> msg.valid) && forall c :: c in Carried(msg) ==> c.valid
  }

  lemma {:induction false} PresentExactly(cmds: seq<Option<Command>>, c: Command)
    ensures c in Present(cmds) <==> exists i :: 0 <= i < |cmds| && cmds[i] == Some(c)
    decreases |cmds|
  {
    if cmds != [] {
      PresentExactly(cmds[1..], c);
      assert forall i :: 0 <= i < |cmds[1..]| ==> cmds[1..][i] == cmds[i + 1];
      if i :| 0 <= i < |cmds| && cmds[i] == Some(c) { assert i > 0 ==> cmds[1..][i - 1] == Some(c); }
    }
  }

  lemma {:induction false} SoundExactly(msg: Message)
    ensures Insertable(msg) <==> Sound(msg)
  {
    if msg.Batch? {
      forall c { PresentExactly(msg.cmds, c); }
      if Sound(msg) {
        forall i | 0 <= i < |msg.cmds| && msg.cmds[i].Some? ensures msg.cmds[i].value.valid {
          assert msg.cmds[i].value in Carried(msg);
        }
      }
    }
  }

  /** The line of commands after an event: a head message goes in front of it in list order, a tail
      message behind it in reverse, a flush leaves a message alone in reverse, and all else leaves it. */
  ghost function Arrive(line: seq<Command>, e: Event): (r: seq<Command>) {
    if !e.Dialplan? || e.at.Now? || !Sound(e.msg) then line
    else if e.at.Head? then Carried(e.msg) + line
    else if e.at.Tail? then line + Reverse(Carried(e.msg))
    else Reverse(Carried(e.msg))
  }

  lemma {:induction false} InsertedExactly(s: State, at: Position, msg: Message)
    ensures Inserted(s, at, msg) == Arrive(s.queue, Dialplan(at, msg))
  {
    hide Sound, Insertable;
    SoundExactly(msg);
    if msg.Batch? {
      BatchOrder(s.queue, msg.cmds);
      BatchOrder([], msg.cmds);
      assert [] + Reverse(Present(msg.cmds)) == Reverse(Present(msg.cmds));
    } else {
      assert [msg.cmd][1..] == [] && [] + [msg.cmd] == [msg.cmd];
      assert Reverse([msg.cmd]) == Reverse([]) + [msg.cmd];
    }
  }

  lemma {:induction false} ReleaseArrives(s: State, m: Mark)
    requires !m.Dispatch?
    ensures Dispatched([m] + Advance(s).1) + Advance(s).0.queue == s.queue
  {
    assert [m][..0] == [] && Dispatched([m]) == [];
    AdvanceTakes(s, [m]);
  }

  /** Each event's dispatches and the queue after it make the line of the queue before it. */
  lemma {:induction false} StepArrives(s: State, e: Event)
    ensures Dispatched(Step(s, e).1.marks) + Step(s, e).0.queue == Arrive(s.queue, e)
  {
    hide Sound, Advance, Dispatched;
    assert Dispatched([]) == [] && [] + s.queue == s.queue by { NothingDispatched(); }
    if e.Dialplan? {
      hide Inserted, Arrive, TailOrder, Immediate, Insertable;
      var s1 := s.(queue := Inserted(s, e.at, e.msg));
      InsertedExactly(s, e.at, e.msg);
      AdvanceTakes(s1, []);
      assert [] + Advance(s1).1 == Advance(s1).1 && [] + s1.queue == s1.queue;
    } else if Idle(e) {
      IdleKeeps(s, e);
      hide Step;
    } else {
      hide Completes;
      ReleaseArrives(s, if e.ForceAdvance? then Force else Complete(e.name));
    }
  }

  lemma {:induction false} NothingDispatched()
    ensures Dispatched([]) == []
  {
  }

  /** All commands of a run in line, those dispatched first: each event acts on the part that waits. */
  ghost function Line(callId: CallId, es: seq<Event>): (line: seq<Command>)
    decreases |es|
  {
    if es == [] then []
    else
      var front := es[..|es| - 1];
      var line, d := Line(callId, front), |Dispatched(Run(callId, front).1.marks)|;
      if d <= |line| then line[..d] + Arrive(line[d..], es[|es| - 1]) else line
  }

  lemma {:induction false} LineStep(callId: CallId, front: seq<Event>, e: Event)
    ensures var ((s, o), (s1, o1)) := (Run(callId, front), Run(callId, front + [e]));
      && Dispatched(o1.marks) + s1.queue == Dispatched(o.marks) + Arrive(s.queue, e)
      && (Dispatched(o.marks) + s.queue)[..|Dispatched(o.marks)|] == Dispatched(o.marks)
      && (Dispatched(o.marks) + s.queue)[|Dispatched(o.marks)|..] == s.queue
  {
    hide Step, Arrive, Dispatched;
    assert (front + [e])[..|front|] == front;
    var (s, o) := Run(callId, front);
    var (s1, o1) := Step(s, e);
    StepArrives(s, e);
    DispatchedConcat(o.marks, o1.marks);
    assert Dispatched(o.marks) + Dispatched(o1.marks) + s1.queue
        == Dispatched(o.marks) + (Dispatched(o1.marks) + s1.queue);
  }

  /** Over every run, what was dispatched followed by what waits is the line of its arrivals, head
      insertions and flushes included. */
  lemma {:induction false} RunInLine(callId: CallId, es: seq<Event>)
    ensures var (s, o) := Run(callId, es); Dispatched(o.marks) + s.queue == Line(callId, es)
    decreases |es|
  {
    if es == [] {
      assert Dispatched([]) + [] == [];
    } else {
      var (front, e) := (es[..|es| - 1], es[|es| - 1]);
      assert es == front + [e];
      RunInLine(callId, front);
      LineStep(callId, front, e);
      hide Run, Dispatched, Arrive;
    }
  }

  /** A head message that validates is next: before what waited, in list order. */
  lemma {:induction false} HeadComesFirst(s: State, msg: Message)
    ensures var (s1, o) := Step(s, Dialplan(Head, msg));
      Dispatched(o.marks) + s1.queue == if Sound(msg) then Carried(msg) + s.queue else s.queue
  {
    hide Step, Sound;
    StepArrives(s, Dialplan(Head, msg));
  }

  /** Only commands that validate are ever queued, dispatched by the queue, or flushed. */
  lemma {:induction false} OnlyValid(callId: CallId, es: seq<Event>, c: Command)
    ensures var (s, o) := Run(callId, es);
      c in Dispatched(o.marks) + s.queue + o.flushed ==> c.valid
    decreases |es|
  {
    if es != [] {
      var (front, e) := (es[..|es| - 1], es[|es| - 1]);
      assert es == front + [e];
      OnlyValid(callId, front, c);
      LineStep(callId, front, e);
      RunFlushed(callId, es);
      var s := Run(callId, front).0;
      hide Run, Step, Dispatched, Arrive;
      FlushedWaited(s, e);
      ArrivesValid(s.queue, e, c);
    } else {
      assert Dispatched([]) + [] + [] == [];
    }
  }

  lemma {:induction false} RunFlushed(callId: CallId, es: seq<Event>)
    requires es != []
    ensures var (s, o) := Run(callId, es[..|es| - 1]);
      Run(callId, es).1.flushed == o.flushed + Step(s, es[|es| - 1]).1.flushed
  {
    hide Step;
  }

  lemma {:induction false} FlushedWaited(s: State, e: Event)
    ensures var o := Step(s, e).1; o.flushed == [] || o.flushed == s.queue
  {
    hide Inserted, Immediate, TailOrder, Insertable, Completes, PostHangup, Removed;
  }

  lemma {:induction false} ArrivesValid(line: seq<Command>, e: Event, c: Command)
    requires c in line ==> c.valid
    ensures c in Arrive(line, e) ==> c.valid
  {
    if e.Dialplan? {
      ReverseAt(Carried(e.msg));
      assert c in Reverse(Carried(e.msg)) ==> c in multiset(Carried(e.msg));
    }
  }

  // ---------------------------------------------------------------------------
  // What runs outside the queue, and the switch's node.
  // ---------------------------------------------------------------------------

  /** The commands before the first that fails to validate. */
  ghost predicate RunsUpTo(msg: Message, ran: seq<Command>) {
    if msg.One? then ran == [msg.cmd]
    else if !msg.valid then ran == []
    else
      exists k :: (
        && 0 <= k <= |msg.cmds| && ran == Present(msg.cmds[..k])
        && (forall i :: 0 <= i < k && msg.cmds[i].Some? ==> msg.cmds[i].value.valid)
        && (k < |msg.cmds| ==> msg.cmds[k].Some? && !msg.cmds[k].value.valid))
  }

  /** With the node up an immediate message runs at once, up to its first command that fails to
      validate; what waits runs after the hangup as far as it may, and stays. Nothing else is run
      outside the queue, and none of it with the node down but after a hangup. */
  lemma {:induction false} OutsideExactly(s: State, e: Event)
    ensures var (s1, o) := Step(s, e);
      if e.Dialplan? && e.at.Now? && s.nodeUp then RunsUpTo(e.msg, o.immediate)
      else if e.ChannelDestroyed? then
        && s1 == s
        && forall c :: multiset(o.immediate)[c] ==
             if c.app == "store" || c.app == "set" then multiset(s.queue)[c] else 0
      else o.immediate == []
  {
    hide Inserted, TailOrder, Insertable, Completes, Removed, Advance;
    if e.Dialplan? && e.at.Now? && s.nodeUp && e.msg.Batch? && e.msg.valid {
      hide Step;
      var k := FirstInvalid(e.msg.cmds);
      ImmediateExactly(e.msg.cmds, k);
      ImmediateOut(s, e);
    }
    if e.ChannelDestroyed? {
      forall c { PostHangupExactly(s.queue, [], c); }
    }
  }

  lemma {:induction false} ImmediateOut(s: State, e: Event)
    requires e.Dialplan? && e.at.Now? && s.nodeUp && e.msg.Batch? && e.msg.valid
    ensures Step(s, e).1.immediate == Immediate(e.msg.cmds)
  {
    hide Inserted, TailOrder, Insertable, Immediate;
  }

  lemma {:induction false} FirstInvalid(cmds: seq<Option<Command>>) returns (k: nat)
    ensures k <= |cmds| && AllValid(cmds[..k])
    ensures forall i :: 0 <= i < k && cmds[i].Some? ==> cmds[i].value.valid
    ensures k < |cmds| ==> cmds[k].Some? && !cmds[k].value.valid
  {
    k := 0;
    while k < |cmds| && (cmds[k].None? || cmds[k].value.valid)
      invariant k <= |cmds| && forall i :: 0 <= i < k && cmds[i].Some? ==> cmds[i].value.valid
    {
      k := k + 1;
    }
  }

  /** The queue dispatches only while the node is up. */
  lemma {:induction false} DispatchesUp(s: State, e: Event, c: Command)
    ensures Dispatch(c) in Step(s, e).1.marks ==> s.nodeUp
  {
    hide Inserted, TailOrder, Insertable, Completes, Removed, Immediate, PostHangup;
  }

  /** The node is taken to be up exactly when each loss of it was followed by a probe that found it. */
  lemma {:induction false} NodeUpExactly(callId: CallId, es: seq<Event>)
    ensures Run(callId, es).0.nodeUp <==>
      forall i :: 0 <= i < |es| && es[i] == NodeDown ==> exists k :: i < k < |es| && es[k] == NodeProbed(true)
    decreases |es|
  {
    if es != [] {
      var (front, e) := (es[..|es| - 1], es[|es| - 1]);
      NodeUpExactly(callId, front);
      StepNode(Run(callId, front).0, e);
      RunLast(callId, es);
      hide Run, Step;
      assert es == front + [e];
      assert es[|front|] == e;
      if e == NodeProbed(true) {
        assert forall i :: 0 <= i < |es| && es[i] == NodeDown ==> i < |front|;
      }
    }
  }

  lemma {:induction false} StepNode(s: State, e: Event)
    ensures Step(s, e).0.nodeUp == if e == NodeDown then false else if e == NodeProbed(true) then true else s.nodeUp
  {
    hide Inserted, TailOrder, Insertable, Completes, Removed, Immediate, PostHangup;
  }

  // ---------------------------------------------------------------------------
  // Serial dispatch.
  // ---------------------------------------------------------------------------

  /** The application the marks leave running. */
  ghost function Running(marks: seq<Mark>): (r: Option<App>) {
    if marks == [] then None
    else
      var m := marks[|marks| - 1];
      if m.Dispatch? then Some(m.cmd.app) else None
  }

  /** What may follow when `running` runs: nothing is dispatched over it, and only its own completion ends it. */
  ghost predicate Allowed(running: Option<App>, m: Mark) {
    match m
    case Dispatch(_) => running.None?
    case Complete(name) => running.Some? && Completes(name, running.value)
    case Force => true
  }

  ghost predicate Serial(marks: seq<Mark>) {
    forall i :: 0 <= i < |marks| ==> Allowed(Running(marks[..i]), marks[i])
  }

  lemma {:induction false} SerialSnoc(marks: seq<Mark>, m: Mark)
    requires Serial(marks) && Allowed(Running(marks), m)
    ensures Serial(marks + [m]) && Running(marks + [m]) == if m.Dispatch? then Some(m.cmd.app) else None
  {
    hide Allowed, Running;
    var all := marks + [m];
    forall i | 0 <= i < |all| ensures Allowed(Running(all[..i]), all[i]) {
      if i < |marks| { assert all[..i] == marks[..i]; } else { assert all[..i] == marks; }
    }
    LastRuns(marks, m);
  }

  lemma {:induction false} LastRuns(marks: seq<Mark>, m: Mark)
    ensures Running(marks + [m]) == if m.Dispatch? then Some(m.cmd.app) else None
  {
  }

  lemma {:induction false} AdvanceSerial(s: State, marks: seq<Mark>)
    requires Serial(marks) && Running(marks) == None
    ensures var (s1, more) := Advance(s);
      Serial(marks + more) && Running(marks + more) == s1.currentApp
  {
    if s.nodeUp && s.queue != [] {
      SerialSnoc(marks, Dispatch(s.queue[0]));
    } else {
      assert marks + [] == marks;
    }
  }

  lemma {:induction false} StepSerial(s: State, marks: seq<Mark>, e: Event)
    requires Serial(marks) && Running(marks) == s.currentApp
    ensures var (s1, o) := Step(s, e);
      Serial(marks + o.marks) && Running(marks + o.marks) == s1.currentApp
  {
    hide Serial, Running, Completes, Inserted;
    assert marks + [] == marks;
    match e {
      case Dialplan(at, msg) =>
        if s.currentApp.None? { AdvanceSerial(s.(queue := Inserted(s, at, msg)), marks); }
      case ExecuteComplete(_, name) =>
        if s.currentApp.Some? && Completes(name, s.currentApp.value) {
          SerialSnoc(marks, Complete(name));
          AdvanceSerial(s, marks + [Complete(name)]);
          assert marks + ([Complete(name)] + Advance(s).1) == marks + [Complete(name)] + Advance(s).1;
        }
      case ForceAdvance(_) =>
        SerialSnoc(marks, Force);
        AdvanceSerial(s, marks + [Force]);
        assert marks + ([Force] + Advance(s).1) == marks + [Force] + Advance(s).1;
      case _ =>
    }
  }

  lemma {:induction false} RunSerial(callId: CallId, es: seq<Event>)
    ensures var (s, o) := Run(callId, es); Serial(o.marks) && Running(o.marks) == s.currentApp
    decreases |es|
  {
    if es != [] {
      hide Step, Serial, Running;
      RunSerial(callId, es[..|es| - 1]);
      StepSerial(Run(callId, es[..|es| - 1]).0, Run(callId, es[..|es| - 1]).1.marks, es[|es| - 1]);
    }
  }

  /** After a command is dispatched from the queue the next thing the queue does is a forced
      advance or a completion of that very command's application. */
  lemma {:induction false} DispatchWaits(callId: CallId, es: seq<Event>, i: nat)
    requires i + 1 < |Run(callId, es).1.marks| && Run(callId, es).1.marks[i].Dispatch?
    ensures var marks := Run(callId, es).1.marks;
      marks[i + 1] == Force || (marks[i + 1].Complete? && Completes(marks[i + 1].name, marks[i].cmd.app))
  {
    hide Run, Completes;
    RunSerial(callId, es);
    var marks := Run(callId, es).1.marks;
    assert marks[..i + 1][i] == marks[i];
    assert Running(marks[..i + 1]) == Some(marks[i].cmd.app);
    assert Allowed(Running(marks[..i + 1]), marks[i + 1]);
  }

  lemma {:induction false} ForceOnlyWhenForced(callId: CallId, es: seq<Event>)
    requires forall i :: 0 <= i < |es| ==> !es[i].ForceAdvance?
    ensures Force !in Run(callId, es).1.marks
    decreases |es|
  {
    if es != [] {
      hide Inserted;
      ForceOnlyWhenForced(callId, es[..|es| - 1]);
    }
  }

  /** Without forced advances two dispatches are always separated by a completion of the first. */
  lemma {:induction false} CompletionBetween(callId: CallId, es: seq<Event>, i: nat, j: nat)
    requires forall k :: 0 <= k < |es| ==> !es[k].ForceAdvance?
    requires i < j < |Run(callId, es).1.marks|
    requires Run(callId, es).1.marks[i].Dispatch? && Run(callId, es).1.marks[j].Dispatch?
    ensures var marks := Run(callId, es).1.marks;
      exists k :: i < k < j && marks[k].Complete? && Completes(marks[k].name, marks[i].cmd.app)
  {
    hide Run, Completes;
    DispatchWaits(callId, es, i);
    ForceOnlyWhenForced(callId, es);
    var marks := Run(callId, es).1.marks;
    assert marks[i + 1] in marks;
  }

  // ---------------------------------------------------------------------------
  // Work conservation, and what an outage does to it.
  // ---------------------------------------------------------------------------

  /** Commands wait though nothing runs. */
  predicate Stalled(s: State) {
    s.currentApp.None? && s.queue != []
  }

  /** If the node has never gone down the queue never stalls. */
  lemma {:induction false} NeverStalled(callId: CallId, es: seq<Event>)
    requires NodeDown !in es
    ensures var s := Run(callId, es).0; s.nodeUp && !Stalled(s)
    decreases |es|
  {
    if es != [] {
      hide Inserted, Completes;
      var front, e := es[..|es| - 1], es[|es| - 1];
      assert e in es && forall x :: x in front ==> x in es;
      NeverStalled(callId, front);
      InsertedKeeps(Run(callId, front).0, e);
    }
  }

  lemma {:induction false} InsertedKeeps(s: State, e: Event)
    ensures e.Dialplan? && e.at.Now? ==> Inserted(s, e.at, e.msg) == s.queue
  {
  }

  /** Whatever happened before, the next insertion, completion or forced advance that is
      handled while the node is up leaves the queue working. */
  lemma {:induction false} Recovers(s: State, e: Event)
    requires s.nodeUp
    requires e.Dialplan? || (e.ForceAdvance? && e.callId == s.callId)
    ensures !Stalled(Step(s, e).0)
  {
    hide Inserted;
  }

  /** Whether an event moves the queue on: a message with the node up or nothing running, a
      completion of what runs, or a forced advance. */
  predicate Touches(s: State, e: Event) {
    match e
    case Dialplan(_, _) => s.nodeUp || s.currentApp.None?
    case ExecuteComplete(callId, name) =>
      callId == s.callId && s.currentApp.Some? && Completes(name, s.currentApp.value)
    case ForceAdvance(callId) => callId == s.callId
    case _ => false
  }

  lemma {:induction false} StepStalls(s: State, e: Event)
    ensures Stalled(Step(s, e).0) <==>
      if Touches(s, e) then !s.nodeUp && Step(s, e).0.queue != [] else Stalled(s)
  {
    hide Inserted, Completes;
  }

  /** The event at `i`, the last to move the queue on, was handled with the node down and left
      commands waiting. */
  ghost predicate LeftWaiting(callId: CallId, es: seq<Event>, i: nat) {
    && i < |es| && Touches(Run(callId, es[..i]).0, es[i])
    && (forall j :: i < j < |es| ==> !Touches(Run(callId, es[..j]).0, es[j]))
    && !Run(callId, es[..i]).0.nodeUp && Run(callId, es[..i + 1]).0.queue != []
  }

  /** Over every run the queue is stalled exactly when the last event to move it on was handled
      with the node down and left commands waiting. No reconnection ends that. */
  lemma {:induction false} RunStallsExactly(callId: CallId, es: seq<Event>)
    ensures Stalled(Run(callId, es).0) <==> exists i: nat :: LeftWaiting(callId, es, i)
    decreases |es|
  {
    if es == [] {
      hide Touches, Step;
      assert forall i: nat :: !LeftWaiting(callId, es, i);
    } else {
      var front, e := es[..|es| - 1], es[|es| - 1];
      RunLast(callId, es);
      hide Run, Step, Touches, Stalled, LeftWaiting;
      RunStallsExactly(callId, front);
      StepStalls(Run(callId, front).0, e);
      if Touches(Run(callId, front).0, e) {
        LeftNow(callId, es);
      } else {
        LeftBefore(callId, es, front);
      }
    }
  }

  lemma {:induction false} LeftNow(callId: CallId, es: seq<Event>)
    requires es != [] && Touches(Run(callId, es[..|es| - 1]).0, es[|es| - 1])
    ensures var n := |es| - 1;
      (exists i: nat :: LeftWaiting(callId, es, i)) <==> !Run(callId, es[..n]).0.nodeUp && Run(callId, es).0.queue != []
  {
    hide Run, Touches;
    var n: nat := |es| - 1;
    assert es[..n + 1] == es;
    assert forall i: nat :: LeftWaiting(callId, es, i) ==> i == n;
    assert LeftWaiting(callId, es, n) <==> !Run(callId, es[..n]).0.nodeUp && Run(callId, es).0.queue != [];
  }

  lemma {:induction false} LeftBefore(callId: CallId, es: seq<Event>, front: seq<Event>)
    requires es != [] && front == es[..|es| - 1] && !Touches(Run(callId, front).0, es[|es| - 1])
    ensures (exists i: nat :: LeftWaiting(callId, es, i)) <==> exists i: nat :: LeftWaiting(callId, front, i)
  {
    hide Run, Touches;
    assert forall j :: 0 <= j <= |front| ==> front[..j] == es[..j];
    assert forall i: nat :: LeftWaiting(callId, es, i) ==> LeftWaiting(callId, front, i);
    assert forall i: nat :: LeftWaiting(callId, front, i) ==> LeftWaiting(callId, es, i);
  }

  /** Any run with a command running and another waiting ends in a stall when the running one
      completes during an outage, and the reconnection does not end it. */
  lemma {:induction false} ReconnectedButStalled(callId: CallId, es: seq<Event>, name: string)
    requires var s := Run(callId, es).0;
      s.currentApp.Some? && Completes(name, s.currentApp.value) && s.queue != []
    ensures var id := Run(callId, es).0.callId;
      var s := Run(callId, es + [NodeDown] + [ExecuteComplete(id, name)] + [NodeProbed(true)]).0;
      s.nodeUp && Stalled(s)
  {
    hide Run, Completes;
    var e := ExecuteComplete(Run(callId, es).0.callId, name);
    RunSnoc(callId, es, NodeDown);
    RunSnoc(callId, es + [NodeDown], e);
    RunSnoc(callId, es + [NodeDown] + [e], NodeProbed(true));
  }

  lemma {:induction false} RunSnoc(callId: CallId, es: seq<Event>, e: Event)
    ensures Run(callId, es + [e]).0 == Step(Run(callId, es).0, e).0
  {
    assert (es + [e])[..|es|] == es;
  }

  /** An application that no switch application carries out is never released by an event: once
      it runs it runs in every later state, and nothing is dispatched, until a forced advance. */
  lemma {:induction false} BlockedForEver(callId: CallId, es: seq<Event>, later: seq<Event>, app: App)
    requires Run(callId, es).0.currentApp == Some(app) && forall name :: !Completes(name, app)
    requires forall i :: 0 <= i < |later| ==> !later[i].ForceAdvance?
    ensures Run(callId, es + later).0.currentApp == Some(app)
    ensures Run(callId, es + later).1.marks == Run(callId, es).1.marks
    decreases |later|
  {
    if later == [] {
      assert es + later == es;
    } else {
      hide Step, Completes;
      var front, e := later[..|later| - 1], later[|later| - 1];
      assert (es + later)[..|es + later| - 1] == es + front && (es + later)[|es + later| - 1] == e;
      BlockedForEver(callId, es, front, app);
      StepBlocked(Run(callId, es + front).0, e, app);
      assert Run(callId, es).1.marks + [] == Run(callId, es).1.marks;
    }
  }

  lemma {:induction false} StepBlocked(s: State, e: Event, app: App)
    requires s.currentApp == Some(app) && (forall name :: !Completes(name, app)) && !e.ForceAdvance?
    ensures Step(s, e).0.currentApp == Some(app) && Step(s, e).1.marks == []
  {
    hide Inserted, Completes;
  }

  /** A switch event named by the first half of an entry completes the application in the second, and
      no other: the end of a playback completes a play, tones and a hold. */
  lemma {:induction false} CompletesExactly(name: string, app: App)
    ensures Completes(name, app) <==>
      exists i :: 0 <= i < |FS_APPLICATION_NAMES| &&
        FS_APPLICATION_NAMES[i].0 == name && FS_APPLICATION_NAMES[i].1 == app
    ensures Completes("playback", app) <==> app == "play" || app == "tones" || app == "hold"
  {
    var t := FS_APPLICATION_NAMES;
    assert t[0] == ("playback", "play") && t[3] == ("playback", "tones") && t[21] == ("playback", "hold");
    assert forall i :: 0 <= i < |t| ==> t[i].0 == "playback" ==> i == 0 || i == 3 || i == 21;
    if i :| 0 <= i < |t| && t[i].0 == name && t[i].1 == app { assert t[i] == (name, app); }
    if (name, app) in t {
      var i :| 0 <= i < |t| && t[i] == (name, app);
      assert t[i].0 == name && t[i].1 == app;
    }
    if ("playback", app) in t {
      var i :| 0 <= i < |t| && t[i] == ("playback", app);
      assert i == 0 || i == 3 || i == 21;
    }
  }

  lemma {:induction false} StoreBlocks()
    ensures forall name :: !Completes(name, "store")
  {
    assert forall i :: 0 <= i < |FS_APPLICATION_NAMES| ==> FS_APPLICATION_NAMES[i].1 != "store";
  }

  // ---------------------------------------------------------------------------
  // Legs.
  // ---------------------------------------------------------------------------

  predicate Distinct(legs: seq<LegId>) {
    forall i, j :: 0 <= i < j < |legs| ==> legs[i] != legs[j]
  }

  lemma {:induction false} RemovedDistinct(legs: seq<LegId>, leg: LegId)
    requires Distinct(legs)
    ensures Distinct(Removed(legs, leg))
    ensures forall x :: x in Removed(legs, leg) <==> x in legs && x != leg
    decreases |legs|
  {
    if legs != [] {
      RemovedDistinct(legs[1..], leg);
      assert legs == [legs[0]] + legs[1..];
      assert legs[0] !in legs[1..];
    }
  }

  /** No leg is listed twice, a removed leg is gone, and a call taken over is not its own leg. */
  lemma {:induction false} LegsDistinct(callId: CallId, es: seq<Event>)
    ensures var s := Run(callId, es).0; Distinct(s.legs)
    ensures es != [] ==>
      var s, e := Run(callId, es).0, es[|es| - 1];
      && (e.RemoveLeg? && e.leg.Some? ==> e.leg.value !in s.legs)
      && (e.AddLeg? && e.leg.Some? ==> e.leg.value in s.legs)
      && (e.Transferee? && e.newCallId.Some? ==> s.callId == e.newCallId.value && s.callId !in s.legs)
    decreases |es|
  {
    if es != [] {
      hide Inserted, Removed, Advance;
      LegsDistinct(callId, es[..|es| - 1]);
      var s, e := Run(callId, es[..|es| - 1]).0, es[|es| - 1];
      if e.RemoveLeg? && e.leg.Some? { RemovedDistinct(s.legs, e.leg.value); }
      if e.Transferee? && e.newCallId.Some? { RemovedDistinct(s.legs, e.newCallId.value); }
      AdvanceLegs();
    }
  }

  /** Over every run, what each event does to the legs: one is added, one is removed, and all the
      others stay. */
  lemma {:induction false} LegsExactly(callId: CallId, es: seq<Event>, e: Event, x: LegId)
    ensures var s := Run(callId, es).0;
      var r := Step(s, e).0;
      && (x in r.legs <==>
            if e.AddLeg? && e.leg.Some? then x in s.legs || x == e.leg.value
            else if e.RemoveLeg? && e.leg.Some? then x in s.legs && x != e.leg.value
            else if e.Transferee? && e.newCallId.Some? then x in s.legs && x != e.newCallId.value
            else x in s.legs)
      && r.lastRemoved == (if e.RemoveLeg? && e.leg.Some? && e.leg.value in s.legs then e.leg else s.lastRemoved)
      && r.callId == (if e.Transferee? && e.newCallId.Some? then e.newCallId.value else s.callId)
  {
    LegsDistinct(callId, es);
    var s := Run(callId, es).0;
    hide Run, Inserted, Removed, Immediate, PostHangup, TailOrder, Insertable, Completes;
    if e.RemoveLeg? && e.leg.Some? { RemovedDistinct(s.legs, e.leg.value); }
    if e.Transferee? && e.newCallId.Some? { RemovedDistinct(s.legs, e.newCallId.value); }
  }

  lemma {:induction false} AdvanceLegs()
    ensures forall s: State :: Advance(s).0.legs == s.legs
  {
  }
}
