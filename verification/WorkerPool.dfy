/** The pool of AMQP workers: the pool process, its workers, and the messages between them.
    A run is any interleaving of their steps; each pair of processes keeps its message order. */
module WorkerPool {
  import opened Options

  /** Workers are numbered in the order they are started, requests in the order they are made. */
  type Pid = nat
  type RequestId = nat

  datatype Status = Free | Busy(request: RequestId) | Dead

  /** Why the pool has forgotten a live worker; a history that no step reads. Mislaid: publishing
      its request failed, and it said nothing to the pool. Released: it was told to stop. */
  datatype Fate = InUse | Mislaid | Released

  datatype ToWorker = Employed(request: RequestId) | Stop
  datatype ToPool = WorkerFree(elapsed: nat) | Exit

  /** A worker, the pool's messages on their way to it, and its own on their way to the pool. */
  datatype Worker = Worker(status: Status, inbox: seq<ToWorker>, outbox: seq<ToPool>, fate: Fate)

  datatype Pool = Pool(up: bool, queue: seq<Pid>, count: int, original: nat, requests: nat, elapsed: nat)

  datatype System = System(
    pool: Pool, workers: seq<Worker>, nextRequest: RequestId, answered: seq<RequestId>, dropped: seq<RequestId>)

  /** What a process learns from outside is part of the event: whether a new worker starts (it
      does not when no broker can be reached), whether a worker answers the call for its queue
      name, the supervisor's count if it gives one, whether publishing succeeds, whether handlers
      are still active when a worker is told to stop. */
  datatype Event =
    | Request(starts: bool, answers: bool)
    | PoolReceives(w: Pid, starts: bool, count: Option<nat>)
    | Tick(count: Option<nat>)
    | WorkerReceives(w: Pid, published: bool, idle: bool)
    | Response(w: Pid, elapsed: nat)
    | RequesterDown(w: Pid, request: RequestId)
    | Dies(w: Pid)

  const FRESH := Worker(Free, [], [], InUse)

  function Initial(n: nat): (s: System) {
    System(Pool(true, seq(n, i => n - 1 - i), n, n, 0, 0), seq(n, i => FRESH), 0, [], [])
  }

  // ---------------------------------------------------------------------------
  // The pool.
  // ---------------------------------------------------------------------------

  function Crashed(s: System): (r: System) {
    s.(pool := s.pool.(up := false))
  }

  /** A message to a dead process is lost. */
  function Send(x: Worker, m: ToWorker): (r: Worker) {
    if x.status.Dead? then x else x.(inbox := x.inbox + [m])
  }

  function Employ(s: System, w: Pid): (r: System)
    requires w < |s.workers|
  {
    s.(pool := s.pool.(requests := s.pool.requests + 1),
       workers := s.workers[w := Send(s.workers[w], Employed(s.nextRequest))],
       nextRequest := s.nextRequest + 1)
  }

  /** Before the request is sent the pool asks the chosen worker for the name of its queue and
      waits: without an answer the pool itself fails. */
  function Ask(s: System, starts: bool, answers: bool): (r: System) {
    var failed := Crashed(s).(nextRequest := s.nextRequest + 1, dropped := s.dropped + [s.nextRequest]);
    if s.pool.queue == [] then
      if starts && answers then
        Employ(s.(pool := s.pool.(count := s.pool.count + 1), workers := s.workers + [FRESH]), |s.workers|)
      else failed
    else
      var w := s.pool.queue[0];
      if answers && w < |s.workers| && !s.workers[w].status.Dead? then
        Employ(s.(pool := s.pool.(queue := s.pool.queue[1..])), w)
      else failed
  }

  function Without(q: seq<Pid>, w: Pid): (r: seq<Pid>) {
    if q == [] then [] else if q[0] == w then Without(q[1..], w) else [q[0]] + Without(q[1..], w)
  }

  /** The pool takes the oldest message of worker w. It fails with a replacement that does not
      start, and with a supervisor that does not count. */
  function Receive(s: System, w: Pid, starts: bool, count: Option<nat>): (r: System) {
    if w >= |s.workers| || s.workers[w].outbox == [] then s
    else
      var p, x := s.pool, s.workers[w];
      var m := x.outbox[0];
      var workers := s.workers[w := x.(outbox := x.outbox[1..])];
      if m.WorkerFree? then
        s.(pool := p.(queue := p.queue + [w], elapsed := p.elapsed + m.elapsed), workers := workers)
      else if (p.count < p.original && !starts) || count.None? then Crashed(s)
      else if p.count < p.original then
        s.(pool := p.(queue := Without(p.queue, w) + [|workers|], count := count.value), workers := workers + [FRESH])
      else
        s.(pool := p.(queue := Without(p.queue, w), count := count.value), workers := workers)
  }

  /** One dismissal: the worker at the head of the queue is told to stop. */
  function DismissOne(s: System): (r: System)
    requires s.pool.queue != []
  {
    var w := s.pool.queue[0];
    s.(pool := s.pool.(queue := s.pool.queue[1..]),
       workers := if w < |s.workers| then s.workers[w := Send(s.workers[w], Stop)] else s.workers)
  }

  function Dismiss(s: System, n: nat): (r: System)
    decreases n
  {
    if n == 0 then s
    else if |s.pool.queue| <= s.pool.original then Dismiss(s, n - 1)
    else Dismiss(DismissOne(s), n - 1)
  }

  /** The quotient rounded to the nearest integer, halves away from zero. */
  function Rounded(n: int, d: nat): (r: int)
    requires d > 0
  {
    if n >= 0 then (2 * n + d) / (2 * d) else -((2 * -n + d) / (2 * d))
  }

  const PERIOD_MICROS := 1_000_000

  predicate Timed(p: Pool) {
    p.requests > 0 && p.elapsed > 0 && p.count > p.original
  }

  /** By how much the free workers are to be reduced: a tenth of what the mean duration, or else the
      number of requests, shows to be unneeded. */
  function Reduction(p: Pool): (n: int)
    requires Timed(p) ==> p.elapsed / p.requests != 0
  {
    if Timed(p) then Rounded(p.count - Rounded(PERIOD_MICROS, p.elapsed / p.requests), 10)
    else if p.count > p.original then Rounded(p.count - p.requests, 10) else 0
  }

  /** The regular reduction. A mean duration below one microsecond is rounded to none, and
      dividing by it fails; so does a supervisor that does not count what is left. */
  function Reduce(s: System, count: Option<nat>): (r: System) {
    var p := s.pool;
    if Timed(p) && p.elapsed / p.requests == 0 then Crashed(s)
    else if Reduction(p) <= 0 then s.(pool := p.(requests := 0, elapsed := 0))
    else
      var s1 := Dismiss(s, Reduction(p));
      if count.None? then Crashed(s1)
      else s1.(pool := s1.pool.(count := count.value, requests := 0, elapsed := 0))
  }

  // ---------------------------------------------------------------------------
  // The workers.
  // ---------------------------------------------------------------------------

  function Requests(inbox: seq<ToWorker>): (r: seq<RequestId>) {
    if inbox == [] then []
    else (if inbox[0].Employed? then [inbox[0].request] else []) + Requests(inbox[1..])
  }

  /** The requests in a worker's hands or on their way to it. */
  function Held(x: Worker): (r: seq<RequestId>) {
    Requests(x.inbox) + if x.status.Busy? then [x.status.request] else []
  }

  function Ended(x: Worker): (r: Worker) {
    Worker(Dead, [], x.outbox + [Exit], x.fate)
  }

  /** The new worker, with the request it answers and those it drops. */
  datatype Turn = Turn(worker: Worker, answered: seq<RequestId>, dropped: seq<RequestId>)

  /** A worker takes its oldest message. A busy one has no clause for employment and dies of it. One
      told to stop while handlers are active posts the order to itself in a form it does not handle, and lives on. */
  function TakeMessage(x: Worker, published: bool, idle: bool): (t: Turn)
    requires x.inbox != []
  {
    var m, rest := x.inbox[0], x.inbox[1..];
    if m.Stop? then
      if idle then Turn(Ended(x), [], Held(x)) else Turn(x.(inbox := rest, fate := Released), [], [])
    else if x.status.Free? then
      if published then Turn(x.(status := Busy(m.request), inbox := rest), [], [])
      else Turn(x.(inbox := rest, fate := Mislaid), [], [m.request])
    else Turn(Ended(x), [], Held(x))
  }

  function Work(x: Worker, e: Event): (t: Turn) {
    match e
    case WorkerReceives(_, published, idle) =>
      if x.inbox == [] then Turn(x, [], []) else TakeMessage(x, published, idle)
    case Response(_, elapsed) =>
      if x.status.Busy? then
        Turn(x.(status := Free, outbox := x.outbox + [WorkerFree(elapsed)]), [x.status.request], [])
      else Turn(x, [], [])
    case RequesterDown(_, request) =>
      if x.status == Busy(request) then
        Turn(x.(status := Free, outbox := x.outbox + [WorkerFree(0)]), [], [request])
      else Turn(x, [], [])
    case Dies(_) =>
      if x.status.Dead? then Turn(x, [], []) else Turn(Ended(x), [], Held(x))
    case _ => Turn(x, [], [])
  }

  function WorkIn(s: System, w: Pid, e: Event): (r: System) {
    if w >= |s.workers| then s
    else
      var t := Work(s.workers[w], e);
      s.(workers := s.workers[w := t.worker], answered := s.answered + t.answered, dropped := s.dropped + t.dropped)
  }

  /** Nothing is modelled past a failure of the pool. */
  function Step(s: System, e: Event): (r: System) {
    if !s.pool.up then s
    else match e
      case Request(starts, answers) => Ask(s, starts, answers)
      case PoolReceives(w, starts, count) => Receive(s, w, starts, count)
      case Tick(count) => Reduce(s, count)
      case _ => WorkIn(s, e.w, e)
  }

  function Run(n: nat, es: seq<Event>): (s: System)
    decreases |es|
  {
    if es == [] then Initial(n) else Step(Run(n, es[..|es| - 1]), es[|es| - 1])
  }

  // ---------------------------------------------------------------------------
  // One token for each worker.
  // ---------------------------------------------------------------------------

  /** Messages to the pool other than a final exit notice. */
  function Frees(outbox: seq<ToPool>): (n: nat) {
    if outbox != [] && outbox[|outbox| - 1].Exit? then |outbox| - 1 else |outbox|
  }

  /** In how many of these places the worker is: in the free queue (each occurrence), employed or
      told to stop by a message on its way, busy, reported free by a message on its way, mislaid or released. */
  ghost function Tokens(s: System, w: Pid): (n: nat)
    requires w < |s.workers|
  {
    var x := s.workers[w];
    multiset(s.pool.queue)[w] + |x.inbox| + (if x.status.Busy? then 1 else 0) + Frees(x.outbox)
    + (if x.fate.InUse? then 0 else 1)
  }

  /** The exit notice of w is the next message the pool gets from it. */
  ghost predicate Notified(s: System, w: Pid) {
    w < |s.workers| && s.workers[w].outbox == [Exit]
  }

  ghost predicate Alive(s: System, w: Pid) {
    w < |s.workers| && !s.workers[w].status.Dead?
  }

  ghost predicate ExitPending(x: Worker) {
    x.outbox != [] && x.outbox[|x.outbox| - 1].Exit? && forall i :: 0 <= i < |x.outbox| - 1 ==> x.outbox[i].WorkerFree?
  }

  /** The pool has taken the exit notice of w. */
  ghost predicate Retired(s: System, w: Pid) {
    w < |s.workers| && s.workers[w].status.Dead? && s.workers[w].outbox == []
  }

  ghost predicate Tracked(s: System, w: Pid)
    requires w < |s.workers|
  {
    var x := s.workers[w];
    if x.status.Dead? then
      x.inbox == [] && (if x.outbox == [] then w !in s.pool.queue else ExitPending(x) && Tokens(s, w) <= 1)
    else (forall m :: m in x.outbox ==> m.WorkerFree?) && Tokens(s, w) == 1
  }

  ghost predicate Coherent(s: System) {
    && (forall w :: w in s.pool.queue ==> w < |s.workers|)
    && (forall w :: 0 <= w < |s.workers| ==> Tracked(s, w))
  }

  lemma {:induction false} SameTracked(s: System, r: System, w: Pid)
    requires w < |s.workers| && w < |r.workers| && s.workers[w] == r.workers[w] && Tracked(s, w)
    requires multiset(r.pool.queue)[w] == multiset(s.pool.queue)[w]
    ensures Tracked(r, w)
  {
  }

  lemma {:induction false} PopCounts(q: seq<Pid>)
    requires q != []
    ensures forall v :: v in q[1..] ==> v in q
    ensures multiset(q) == multiset(q[1..]) + multiset{q[0]}
  {
    assert q == [q[0]] + q[1..];
  }

  lemma {:induction false} EmployTracks(s: System, w: Pid)
    requires w < |s.workers| && !s.workers[w].status.Dead? && Tokens(s, w) == 0
    requires forall m :: m in s.workers[w].outbox ==> m.WorkerFree?
    requires forall v :: v in s.pool.queue ==> v < |s.workers|
    requires forall v :: 0 <= v < |s.workers| && v != w ==> Tracked(s, v)
    ensures Coherent(Employ(s, w))
  {
    hide Tracked;
    var r := Employ(s, w);
    forall v | 0 <= v < |r.workers| ensures Tracked(r, v) {
      if v == w { SentTracks(s, r, w, Employed(s.nextRequest)); } else { SameTracked(s, r, v); }
    }
  }

  lemma {:induction false} SentTracks(s: System, r: System, w: Pid, m: ToWorker)
    requires w < |s.workers| && w < |r.workers| && r.workers[w] == Send(s.workers[w], m) && r.pool.queue == s.pool.queue
    requires !s.workers[w].status.Dead? && Tokens(s, w) == 0 && forall m :: m in s.workers[w].outbox ==> m.WorkerFree?
    ensures Tracked(r, w)
  {
  }

  lemma {:induction false} AskKeeps(s: System, starts: bool, answers: bool)
    requires Coherent(s)
    ensures Coherent(Ask(s, starts, answers))
  {
    hide Employ, Tracked;
    var failed := Crashed(s).(nextRequest := s.nextRequest + 1, dropped := s.dropped + [s.nextRequest]);
    forall v | 0 <= v < |s.workers| ensures Tracked(failed, v) { SameTracked(s, failed, v); }
    if s.pool.queue == [] {
      var s1 := s.(pool := s.pool.(count := s.pool.count + 1), workers := s.workers + [FRESH]);
      forall v | 0 <= v < |s.workers| ensures Tracked(s1, v) { SameTracked(s, s1, v); }
      if starts && answers { EmployTracks(s1, |s.workers|); }
    } else {
      var w := s.pool.queue[0];
      assert w in s.pool.queue;
      var s1 := s.(pool := s.pool.(queue := s.pool.queue[1..]));
      PopCounts(s.pool.queue);
      forall v | 0 <= v < |s.workers| && v != w ensures Tracked(s1, v) { SameTracked(s, s1, v); }
      HeadIsIdle(s);
      if answers && !s.workers[w].status.Dead? { EmployTracks(s1, w); }
    }
  }

  /** The worker at the head of the queue is nowhere else: it is free with nothing on its way to or from
      it, or it has died and its exit notice is the pool's next message from it. */
  lemma {:induction false} HeadIsIdle(s: System)
    requires Coherent(s) && s.pool.queue != []
    ensures var w := s.pool.queue[0];
      && w < |s.workers| && multiset(s.pool.queue[1..])[w] == 0
      && (s.workers[w] == FRESH || (s.workers[w].status.Dead? && s.workers[w].outbox == [Exit]))
  {
    var w := s.pool.queue[0];
    PopCounts(s.pool.queue);
    assert w in s.pool.queue && multiset(s.pool.queue)[w] >= 1;
    assert Tracked(s, w);
    var x := s.workers[w];
    assert |x.outbox| > 0 ==> x.outbox[|x.outbox| - 1] in x.outbox;
    assert !x.status.Dead? ==> x.outbox == [] && x.inbox == [];
    assert x.status.Dead? ==> x.outbox == [Exit];
  }

  lemma {:induction false} WithoutCounts(q: seq<Pid>, w: Pid)
    ensures w !in Without(q, w)
    ensures forall v :: v != w ==> multiset(Without(q, w))[v] == multiset(q)[v]
    ensures forall v :: v in Without(q, w) ==> v in q
    decreases |q|
  {
    if q != [] {
      WithoutCounts(q[1..], w);
      PopCounts(q);
    }
  }

  lemma {:induction false} NotQueued(s: System, w: Pid)
    requires forall v :: v in s.pool.queue ==> v < |s.workers|
    requires w >= |s.workers|
    ensures multiset(s.pool.queue)[w] == 0
  {
    assert w !in s.pool.queue;
  }

  lemma {:induction false} FreedTracks(s: System, w: Pid, r: System)
    requires w < |s.workers| && Tracked(s, w) && w < |r.workers|
    requires var x := s.workers[w];
      && x.outbox != [] && x.outbox[0].WorkerFree?
      && r.workers[w] == x.(outbox := x.outbox[1..]) && r.pool.queue == s.pool.queue + [w]
    ensures Tracked(r, w)
  {
    var o := s.workers[w].outbox;
    assert o == [o[0]] + o[1..];
    assert multiset(r.pool.queue)[w] == multiset(s.pool.queue)[w] + 1;
    assert |o| > 1 ==> o[1..][|o| - 2] == o[|o| - 1];
    assert forall i :: 0 <= i < |o| - 1 ==> o[1..][i] == o[i + 1];
  }

  lemma {:induction false} ExitedTracks(s: System, w: Pid, r: System)
    requires w < |s.workers| && Tracked(s, w) && w < |r.workers| && w !in r.pool.queue
    requires var x := s.workers[w];
      x.outbox != [] && x.outbox[0].Exit? && r.workers[w] == x.(outbox := x.outbox[1..])
    ensures Tracked(r, w) && Retired(r, w)
  {
    var o := s.workers[w].outbox;
    assert o[0] in o;
    assert |o| == 1;
  }

  lemma {:induction false} FreshTracks(s: System, w: Pid)
    requires w < |s.workers| && s.workers[w] == FRESH && multiset(s.pool.queue)[w] == 1
    ensures Tracked(s, w)
  {
  }

  lemma {:induction false} ReceiveKeeps(s: System, w: Pid, starts: bool, count: Option<nat>)
    requires Coherent(s)
    ensures Coherent(Receive(s, w, starts, count))
  {
    hide Tracked, Without;
    var r := Receive(s, w, starts, count);
    WithoutCounts(s.pool.queue, w);
    NotQueued(s, |s.workers|);
    if r.workers == s.workers && r.pool.queue == s.pool.queue {
      SamePlaces(s, r);
    } else {
      var exit := s.workers[w].outbox[0].Exit?;
      forall v | 0 <= v < |r.workers| ensures Tracked(r, v) {
        if v == |s.workers| {
          assert multiset(Without(s.pool.queue, w))[v] == 0;
          FreshTracks(r, v);
        } else if v != w {
          SameTracked(s, r, v);
        } else if exit {
          ExitedTracks(s, w, r);
        } else {
          FreedTracks(s, w, r);
        }
      }
    }
  }

  lemma {:induction false} DismissOneKeeps(s: System)
    requires Coherent(s) && s.pool.queue != []
    ensures Coherent(DismissOne(s))
  {
    hide Tracked;
    var w, r := s.pool.queue[0], DismissOne(s);
    assert w in s.pool.queue;
    var s1 := s.(pool := s.pool.(queue := s.pool.queue[1..]));
    HeadIsIdle(s);
    PopCounts(s.pool.queue);
    forall v | 0 <= v < |r.workers| ensures Tracked(r, v) {
      if v != w {
        SameTracked(s, r, v);
      } else if s.workers[w].status.Dead? {
        StillPending(s, r, w);
      } else {
        SentTracks(s1, r, w, Stop);
      }
    }
  }

  lemma {:induction false} StillPending(s: System, r: System, w: Pid)
    requires w < |s.workers| && w < |r.workers| && Tracked(s, w) && r.workers[w] == s.workers[w]
    requires s.workers[w].status.Dead? && s.workers[w].outbox != []
    requires multiset(r.pool.queue)[w] <= multiset(s.pool.queue)[w]
    ensures Tracked(r, w)
  {
  }

  lemma {:induction false} DismissKeeps(s: System, n: nat)
    requires Coherent(s)
    ensures Coherent(Dismiss(s, n))
    decreases n
  {
    hide Coherent;
    if n > 0 {
      if |s.pool.queue| <= s.pool.original {
        DismissKeeps(s, n - 1);
      } else {
        DismissOneKeeps(s);
        DismissKeeps(DismissOne(s), n - 1);
      }
    }
  }

  lemma {:induction false} SamePlaces(s: System, r: System)
    requires Coherent(s) && r.workers == s.workers && r.pool.queue == s.pool.queue
    ensures Coherent(r)
  {
    hide Tracked;
    forall v | 0 <= v < |r.workers| ensures Tracked(r, v) { SameTracked(s, r, v); }
  }

  lemma {:induction false} ReduceKeeps(s: System, count: Option<nat>)
    requires Coherent(s)
    ensures Coherent(Reduce(s, count))
  {
    hide Coherent, Dismiss, Rounded;
    var p := s.pool;
    var n := if Timed(p) && p.elapsed / p.requests == 0 then 0 else Reduction(p);
    if n > 0 { DismissKeeps(s, n); }
    SamePlaces(if n > 0 then Dismiss(s, n) else s, Reduce(s, count));
  }

  /** A turn of a live worker moves its token on, or ends it. */
  lemma {:induction false} TurnMoves(x: Worker, e: Event)
    requires !x.status.Dead? && (forall m :: m in x.outbox ==> m.WorkerFree?) && Frees(x.outbox) == |x.outbox|
    requires |x.inbox| + (if x.status.Busy? then 1 else 0) + (if x.fate.InUse? then 0 else 1) <= 1
    ensures var y := Work(x, e).worker;
      if y.status.Dead? then y == Ended(x)
      else
        && |x.inbox| + (if x.status.Busy? then 1 else 0) + |x.outbox| + (if x.fate.InUse? then 0 else 1) ==
           |y.inbox| + (if y.status.Busy? then 1 else 0) + |y.outbox| + (if y.fate.InUse? then 0 else 1)
        && forall m :: m in y.outbox ==> m.WorkerFree?
  {
    hide Held;
  }

  lemma {:induction false} DeadRests(x: Worker, e: Event)
    requires x.status.Dead? && x.inbox == []
    ensures Work(x, e) == Turn(x, [], [])
  {
  }

  lemma {:induction false} EndedTracks(s: System, w: Pid, r: System)
    requires w < |s.workers| && w < |r.workers| && !s.workers[w].status.Dead? && Tracked(s, w)
    requires r.workers[w] == Ended(s.workers[w]) && r.pool.queue == s.pool.queue
    ensures Tracked(r, w)
  {
    var x, y := s.workers[w], r.workers[w];
    assert x.outbox != [] ==> x.outbox[|x.outbox| - 1] in x.outbox;
    assert ExitPending(y) && Frees(y.outbox) == |x.outbox|;
  }

  lemma {:induction false} TurnTracks(s: System, w: Pid, e: Event, r: System)
    requires w < |s.workers| && Tracked(s, w) && w < |r.workers|
    requires r.workers[w] == Work(s.workers[w], e).worker && r.pool.queue == s.pool.queue
    ensures Tracked(r, w)
  {
    hide Work;
    var x := s.workers[w];
    if x.status.Dead? {
      DeadRests(x, e);
    } else {
      LastIn(x.outbox);
      LastIn(r.workers[w].outbox);
      TurnMoves(x, e);
      if r.workers[w].status.Dead? { EndedTracks(s, w, r); }
    }
  }

  lemma {:induction false} LastIn(o: seq<ToPool>)
    ensures (forall m :: m in o ==> m.WorkerFree?) ==> Frees(o) == |o|
  {
    assert o != [] ==> o[|o| - 1] in o;
  }

  lemma {:induction false} WorkKeeps(s: System, w: Pid, e: Event)
    requires Coherent(s)
    ensures Coherent(WorkIn(s, w, e))
  {
    hide Tracked, Work;
    var r := WorkIn(s, w, e);
    forall v | 0 <= v < |r.workers| ensures Tracked(r, v) {
      if v == w { TurnTracks(s, w, e, r); } else { SameTracked(s, r, v); }
    }
  }

  lemma {:induction false} InitialCounts(n: nat, k: nat)
    requires k <= n
    ensures var q := multiset(Initial(n).pool.queue[n - k..]); forall w :: 0 <= w < n ==> q[w] == if w < k then 1 else 0
    decreases k
  {
    var q := Initial(n).pool.queue;
    if k > 0 {
      InitialCounts(n, k - 1);
      PopCounts(q[n - k..]);
      assert q[n - k..][1..] == q[n - (k - 1)..];
    } else {
      assert q[n..] == [];
    }
  }

  /** In every reachable state each live worker is in exactly one place, and a dead one is out of
      the queue once its exit notice has been taken. */
  lemma {:induction false} RunCoherent(n: nat, es: seq<Event>)
    ensures Coherent(Run(n, es))
    decreases |es|
  {
    if es == [] {
      hide Tracked;
      InitialCounts(n, n);
      var s := Initial(n);
      assert s.pool.queue[n - n..] == s.pool.queue;
      forall w | 0 <= w < n ensures Tracked(s, w) { FreshTracks(s, w); }
    } else {
      hide Coherent, Ask, Receive, Reduce, WorkIn;
      var s, e := Run(n, es[..|es| - 1]), es[|es| - 1];
      RunCoherent(n, es[..|es| - 1]);
      match e {
        case Request(starts, answers) => AskKeeps(s, starts, answers);
        case PoolReceives(w, starts, count) => ReceiveKeeps(s, w, starts, count);
        case Tick(count) => ReduceKeeps(s, count);
        case _ => WorkKeeps(s, e.w, e);
      }
    }
  }

  /** Each live worker is in exactly one of the places that tokens count. */
  lemma {:induction false} OneToken(n: nat, es: seq<Event>, w: Pid)
    requires Alive(Run(n, es), w)
    ensures Tokens(Run(n, es), w) == 1
  {
    hide Run;
    RunCoherent(n, es);
    assert Tracked(Run(n, es), w);
  }

  /** A message on its way to a worker finds it free and with nothing else to do: employment never
      reaches a busy worker. */
  lemma {:induction false} EmployedFindsFree(n: nat, es: seq<Event>, w: Pid)
    requires var s := Run(n, es); w < |s.workers| && s.workers[w].inbox != []
    ensures var s := Run(n, es);
      w !in s.pool.queue && s.workers[w] == FRESH.(inbox := [s.workers[w].inbox[0]])
  {
    hide Run;
    RunCoherent(n, es);
    var s := Run(n, es);
    assert Tracked(s, w);
    var x := s.workers[w];
    assert w in s.pool.queue ==> multiset(s.pool.queue)[w] > 0;
    LastIn(x.outbox);
    assert x == FRESH.(inbox := [x.inbox[0]]);
  }

  /** So employment is taken up unless publishing it fails, which takes the worker out of use, and
      an order to stop is obeyed unless handlers are active, when the worker lives on unused. */
  lemma {:induction false} MessageObeyed(n: nat, es: seq<Event>, w: Pid, published: bool, idle: bool)
    requires var s := Run(n, es); s.pool.up && w < |s.workers| && s.workers[w].inbox != []
    ensures var s := Run(n, es); var m := s.workers[w].inbox[0];
      Step(s, WorkerReceives(w, published, idle)).workers[w] ==
        if m.Stop? then if idle then FRESH.(status := Dead, outbox := [Exit]) else FRESH.(fate := Released)
        else if published then FRESH.(status := Busy(m.request)) else FRESH.(fate := Mislaid)
  {
    hide Run;
    EmployedFindsFree(n, es, w);
  }

  lemma {:induction false} RepeatCounts(q: seq<Pid>, i: nat, j: nat)
    requires i < j < |q|
    ensures q[i] == q[j] ==> multiset(q)[q[i]] >= 2
  {
    assert q == q[..j] + q[j..];
    assert q[..j][i] == q[i] && q[j..][0] == q[j];
    assert multiset(q[..j])[q[i]] >= 1 && multiset(q[j..])[q[j]] >= 1;
  }

  /** No worker is twice in the free queue, and those in it are idle. */
  lemma {:induction false} QueueDistinct(n: nat, es: seq<Event>)
    ensures var s := Run(n, es); var q := s.pool.queue;
      && (forall i, j :: 0 <= i < j < |q| ==> q[i] != q[j])
      && (forall i :: 0 <= i < |q| ==> q[i] < |s.workers| && (s.workers[q[i]] == FRESH || s.workers[q[i]].status.Dead?))
  {
    hide Run, Tracked;
    RunCoherent(n, es);
    var s := Run(n, es);
    var q := s.pool.queue;
    forall i | 0 <= i < |q|
      ensures q[i] < |s.workers| && multiset(q)[q[i]] == 1
      ensures s.workers[q[i]] == FRESH || s.workers[q[i]].status.Dead?
    {
      QueuedIsIdle(s, q[i]);
    }
    forall i, j | 0 <= i < j < |q| ensures q[i] != q[j] {
      RepeatCounts(q, i, j);
      QueuedIsIdle(s, q[i]);
    }
  }

  lemma {:induction false} QueuedIsIdle(s: System, w: Pid)
    requires Coherent(s) && w in s.pool.queue
    ensures w < |s.workers| && multiset(s.pool.queue)[w] == 1
    ensures s.workers[w] == FRESH || s.workers[w].status.Dead?
  {
    assert multiset(s.pool.queue)[w] >= 1;
    assert Tracked(s, w);
    var x := s.workers[w];
    assert x.outbox != [] ==> x.outbox[|x.outbox| - 1] in x.outbox;
  }

  // ---------------------------------------------------------------------------
  // What the pool never takes back.
  // ---------------------------------------------------------------------------

  lemma {:induction false} DismissedKeep(s: System, n: nat, w: Pid)
    requires w < |s.workers|
    ensures var r := Dismiss(s, n);
      && |r.workers| == |s.workers| && r.workers[w].fate == s.workers[w].fate
      && r.workers[w].outbox == s.workers[w].outbox
      && r.workers[w].status == s.workers[w].status
    decreases n
  {
    if n > 0 { DismissedKeep(if |s.pool.queue| <= s.pool.original then s else DismissOne(s), n - 1, w); }
  }

  ghost predicate Forgotten(s: System, w: Pid) {
    w < |s.workers| && !s.workers[w].fate.InUse?
  }

  lemma {:induction false} ReduceForgets(s: System, count: Option<nat>, w: Pid)
    requires w < |s.workers|
    ensures var r := Reduce(s, count);
      |r.workers| == |s.workers| && r.workers[w].fate == s.workers[w].fate && r.workers[w].outbox == s.workers[w].outbox
      && r.workers[w].status == s.workers[w].status
  {
    hide Dismiss, Rounded;
    var p := s.pool;
    var n := if Timed(p) && p.elapsed / p.requests == 0 then 0 else Reduction(p);
    if n > 0 { DismissedKeep(s, n, w); }
  }

  lemma {:induction false} WorkForgets(x: Worker, e: Event)
    ensures x.status.Dead? && x.outbox == [] && x.inbox == [] ==> Work(x, e).worker == x
    ensures !x.fate.InUse? ==> !Work(x, e).worker.fate.InUse?
  {
    hide Held;
  }

  lemma {:induction false} StepForgets(s: System, e: Event, w: Pid)
    requires Coherent(s)
    ensures Retired(s, w) ==> Retired(Step(s, e), w)
    ensures Forgotten(s, w) ==> Forgotten(Step(s, e), w)
  {
    hide Reduce, Without, Work;
    if w < |s.workers| {
      assert Tracked(s, w);
      WorkForgets(s.workers[w], e);
      match e {
        case Tick(count) => ReduceForgets(s, count, w);
        case _ =>
      }
    }
  }

  lemma {:induction false} RunForgets(n: nat, es: seq<Event>, later: seq<Event>, w: Pid)
    ensures Retired(Run(n, es), w) ==> Retired(Run(n, es + later), w)
    ensures Forgotten(Run(n, es), w) ==> Forgotten(Run(n, es + later), w)
    decreases |later|
  {
    if later == [] {
      assert es + later == es;
    } else {
      hide Step, Retired, Forgotten, Coherent;
      RunCoherent(n, es + later[..|later| - 1]);
      assert (es + later)[..|es + later| - 1] == es + later[..|later| - 1];
      RunForgets(n, es, later[..|later| - 1], w);
      StepForgets(Run(n, es + later[..|later| - 1]), later[|later| - 1], w);
    }
  }

  /** A worker whose exit notice was taken, that lost a request, or that outlived an order to stop
      is never queued, employed, stopped or reported free again, whatever happens later. */
  lemma {:induction false} NeverTakenBack(n: nat, es: seq<Event>, later: seq<Event>, w: Pid)
    requires Retired(Run(n, es), w) || Forgotten(Run(n, es), w)
    ensures var s := Run(n, es + later);
      && w !in s.pool.queue && w < |s.workers| && s.workers[w].inbox == [] && !s.workers[w].status.Busy?
      && forall m :: m in s.workers[w].outbox ==> m.Exit?
  {
    hide Run;
    RunForgets(n, es, later, w);
    RunCoherent(n, es + later);
    var s := Run(n, es + later);
    assert Tracked(s, w);
    assert w in s.pool.queue <==> multiset(s.pool.queue)[w] > 0;
    var o := s.workers[w].outbox;
    assert |o| > 0 ==> o[|o| - 1] in o;
  }

  /** In a reachable state with nothing under way, the free queue holds exactly the live workers
      that were never mislaid or released, each once. */
  lemma {:induction false} QuietQueue(n: nat, es: seq<Event>, w: Pid)
    requires var s := Run(n, es);
      w < |s.workers| && s.workers[w].inbox == [] && s.workers[w].outbox == [] && !s.workers[w].status.Busy?
    ensures var s := Run(n, es);
      multiset(s.pool.queue)[w] == if s.workers[w].status.Free? && s.workers[w].fate.InUse? then 1 else 0
  {
    hide Run;
    RunCoherent(n, es);
    assert Tracked(Run(n, es), w);
  }

  /** A live worker that dies is dead, its exit notice is its last message, and the request it
      served or was about to serve is dropped; nothing else changes. */
  lemma {:induction false} DeathExactly(n: nat, es: seq<Event>, w: Pid)
    requires Run(n, es).pool.up && Alive(Run(n, es), w)
    ensures var (s, x) := (Run(n, es), Run(n, es).workers[w]);
      var lost := if x.status.Busy? then [x.status.request]
        else if x.inbox != [] && x.inbox[0].Employed? then [x.inbox[0].request] else [];
      Step(s, Dies(w)) ==
        s.(workers := s.workers[w := Worker(Dead, [], x.outbox + [Exit], x.fate)], dropped := s.dropped + lost)
  {
    hide Run;
    RunCoherent(n, es);
    var (s, x) := (Run(n, es), Run(n, es).workers[w]);
    assert Tracked(s, w);
    assert s.answered + [] == s.answered;
    if x.inbox != [] {
      assert x.inbox[1..] == [] && !x.status.Busy?;
      assert Requests(x.inbox) == if x.inbox[0].Employed? then [x.inbox[0].request] + [] else [] + [];
    }
  }

  // ---------------------------------------------------------------------------
  // The reduction.
  // ---------------------------------------------------------------------------

  function Dismissals(s: System, n: nat): (k: nat)
    ensures k <= |s.pool.queue|
  {
    var spare := if |s.pool.queue| > s.pool.original then |s.pool.queue| - s.pool.original else 0;
    if n < spare then n else spare
  }

  /** The oldest k free workers are told to stop. */
  ghost predicate OldestStopped(s: System, r: System, k: nat)
    requires k <= |s.pool.queue|
  {
    && r == s.(pool := s.pool.(queue := s.pool.queue[k..]), workers := r.workers) && |r.workers| == |s.workers|
    && forall w :: 0 <= w < |s.workers| ==>
         r.workers[w] == if w in s.pool.queue[..k] then Send(s.workers[w], Stop) else s.workers[w]
  }

  lemma {:induction false} StopOneMore(s: System, r: System, k: nat)
    requires Coherent(s) && 0 < k <= |s.pool.queue| && OldestStopped(DismissOne(s), r, k - 1)
    ensures OldestStopped(s, r, k)
  {
    hide Coherent, Send;
    var (q, v, s1) := (s.pool.queue, s.pool.queue[0], DismissOne(s));
    HeadIsIdle(s);
    assert q[1..][k - 1..] == q[k..];
    assert q[..k] == [v] + q[1..][..k - 1];
    assert v !in q[1..];
    assert forall w :: w in q[1..][..k - 1] ==> w in q[1..];
    assert forall w :: 0 <= w < |s.workers| && w != v ==> s1.workers[w] == s.workers[w];
    forall w | 0 <= w < |s.workers|
      ensures r.workers[w] == if w in q[..k] then Send(s.workers[w], Stop) else s.workers[w]
    {
      assert w in q[..k] <==> w == v || w in q[1..][..k - 1];
      assert r.workers[w] == if w in q[1..][..k - 1] then Send(s1.workers[w], Stop) else s1.workers[w];
    }
  }

  /** The reduction stops exactly the oldest free workers, once each, and never leaves fewer free
      than the pool began with. */
  lemma {:induction false} DismissedExactly(s: System, n: nat)
    requires Coherent(s)
    ensures OldestStopped(s, Dismiss(s, n), Dismissals(s, n))
    ensures |s.pool.queue| >= s.pool.original ==> |Dismiss(s, n).pool.queue| >= s.pool.original
    decreases n
  {
    hide Coherent, Send, OldestStopped, DismissOne;
    if n > 0 && |s.pool.queue| > s.pool.original {
      DismissOneKeeps(s);
      DismissedExactly(DismissOne(s), n - 1);
      DismissOneQueue(s);
      StopOneMore(s, Dismiss(s, n), Dismissals(s, n));
    } else {
      StopNone(s);
      if n > 0 { DismissedExactly(s, n - 1); }
    }
  }

  lemma {:induction false} DismissOneQueue(s: System)
    requires s.pool.queue != []
    ensures DismissOne(s).pool == s.pool.(queue := s.pool.queue[1..])
  {
  }

  lemma {:induction false} StopNone(s: System)
    ensures OldestStopped(s, s, 0)
  {
    assert s.pool.queue[0..] == s.pool.queue && s.pool.queue[..0] == [];
  }

  /** The rounded quotient is a nearest integer, and of two the one further from zero. */
  lemma {:induction false} RoundedNearest(n: int, d: nat, k: int)
    requires d > 0
    ensures Rounded(n, d) == k <==>
      var twice := 2 * (n - k * d) + d;
      if n >= 0 then 0 <= twice < 2 * d else 0 < twice <= 2 * d
  {
    assert k * (2 * d) == 2 * (k * d) && (-k) * (2 * d) == 2 * (-(k * d));
    if n >= 0 { Quotient(2 * n + d, 2 * d, k); } else { Quotient(2 * -n + d, 2 * d, -k); }
  }

  lemma {:induction false} Quotient(m: nat, d: nat, k: int)
    requires d > 0
    ensures m / d == k <==> k * d <= m < k * d + d
  {
    var q := m / d;
    assert q * d <= m < q * d + d;
    if k < q { Multiples(k + 1, q, d); } else if k > q { Multiples(q + 1, k, d); }
  }

  lemma {:induction false} Multiples(a: int, b: int, d: nat)
    requires a <= b
    ensures a * d <= b * d
    ensures (a - 1) * d == a * d - d
  {
  }

  /** The nearest integer to n / d, the one further from zero when two are. */
  ghost predicate Nearest(n: int, d: nat, k: int) {
    if n >= 0 then 0 <= 2 * (n - k * d) + d < 2 * d else 0 < 2 * (n - k * d) + d <= 2 * d
  }

  /** With `mean` microseconds a request, in whole microseconds, `q` workers serve a period's requests. */
  ghost predicate ServedIn(p: Pool, mean: nat, q: int) {
    mean * p.requests <= p.elapsed < mean * p.requests + p.requests && Nearest(1_000_000, mean, q)
  }

  /** The workers needed: by the mean duration when there were requests that took time, else one a request. */
  ghost predicate NeedsWorkers(p: Pool, q: int) {
    if p.requests > 0 && p.elapsed > 0 then exists mean: nat :: ServedIn(p, mean, q) else q == p.requests
  }

  /** How many workers a reduction is to stop: a tenth of those above the need, none when the pool
      has not grown. */
  ghost predicate AsksFor(p: Pool, k: nat) {
    if p.count <= p.original then k == 0
    else exists q :: NeedsWorkers(p, q) && if q < p.count then Nearest(p.count - q, 10, k) else k == 0
  }

  /** Too fast to divide by: the requests took less than a microsecond each on average. */
  predicate TooFast(p: Pool) {
    p.count > p.original && 0 < p.elapsed < p.requests
  }

  lemma {:induction false} MeanExactly(a: nat, b: nat, m: nat)
    requires b > 0
    ensures a / b == m <==> m * b <= a < m * b + b
  {
    Quotient(a, b, m);
  }

  lemma {:induction false} NeedExactly(p: Pool, q: int)
    requires p.count > p.original && !TooFast(p)
    ensures NeedsWorkers(p, q) <==> q == if Timed(p) then Rounded(PERIOD_MICROS, p.elapsed / p.requests) else p.requests
    ensures Timed(p) ==> p.elapsed / p.requests > 0
  {
    if Timed(p) {
      var m := p.elapsed / p.requests;
      SmallMean(p.elapsed, p.requests);
      hide Rounded, Nearest;
      forall k: nat ensures ServedIn(p, k, q) <==> k == m && Nearest(1_000_000, m, q) {
        MeanExactly(p.elapsed, p.requests, k);
      }
      hide ServedIn;
      assert ServedIn(p, m, q) <==> Nearest(1_000_000, m, q);
      if mean: nat :| ServedIn(p, mean, q) { assert mean == m; }
      NearestExactly(1_000_000, m, q);
    }
  }

  lemma {:induction false} NearestExactly(n: int, d: nat, k: int)
    requires d > 0
    ensures Nearest(n, d, k) <==> Rounded(n, d) == k
  {
    RoundedNearest(n, d, k);
  }

  lemma {:induction false} SmallMean(a: nat, b: nat)
    ensures b > 0 ==> (a / b == 0 <==> a < b)
  {
  }

  /** Whatever the numbers, exactly one number of workers is asked for. */
  lemma {:induction false} AsksExactly(p: Pool, k: nat)
    requires !TooFast(p)
    ensures Timed(p) ==> p.elapsed / p.requests != 0
    ensures AsksFor(p, k) <==> k == if Reduction(p) > 0 then Reduction(p) else 0
  {
    if p.count > p.original {
      var q := if Timed(p) then Rounded(PERIOD_MICROS, p.elapsed / p.requests) else p.requests;
      forall x ensures NeedsWorkers(p, x) <==> x == q { NeedExactly(p, x); }
      hide NeedsWorkers, Rounded, Nearest;
      NearestExactly(p.count - q, 10, k);
      SmallTenth(p.count - q);
      assert NeedsWorkers(p, q);
      assert AsksFor(p, k) <==> if q < p.count then Nearest(p.count - q, 10, k) else k == 0;
    }
  }

  lemma {:induction false} SmallTenth(n: int)
    ensures n <= 0 ==> Rounded(n, 10) <= 0
    ensures n >= 0 ==> Rounded(n, 10) >= 0
  {
  }

  lemma {:induction false} DismissStaysUp(s: System, n: nat)
    ensures Dismiss(s, n).pool.up == s.pool.up
    decreases n
  {
    if n > 0 { DismissStaysUp(if |s.pool.queue| <= s.pool.original then s else DismissOne(s), n - 1); }
  }

  lemma {:induction false} ExitIsLast(s: System, w: Pid)
    requires Coherent(s)
    ensures w < |s.workers| && s.workers[w].outbox != [] && s.workers[w].outbox[0].Exit? <==> Notified(s, w)
  {
    if w < |s.workers| {
      assert Tracked(s, w);
      var o := s.workers[w].outbox;
      assert o != [] ==> o[0] in o;
      assert |o| == 1 ==> o == [o[0]];
    }
  }

  /** The pool fails exactly when a worker it needs does not start, a chosen worker does not answer,
      or is dead and the pool has not taken its exit notice, when the supervisor does not give a
      count that is asked for, or when requests took less than a microsecond on average. */
  lemma {:induction false} FailsExactly(n: nat, es: seq<Event>, e: Event)
    requires Run(n, es).pool.up
    ensures var (s, p) := (Run(n, es), Run(n, es).pool);
      !Step(s, e).pool.up <==>
        || (e.Request? && p.queue == [] && !(e.starts && e.answers))
        || (e.Request? && p.queue != [] && (!e.answers || (!Alive(s, p.queue[0]) && Notified(s, p.queue[0]))))
        || (e.PoolReceives? && Notified(s, e.w) && ((p.count < p.original && !e.starts) || e.count.None?))
        || (e.Tick? && (TooFast(p) || (e.count.None? && !AsksFor(p, 0))))
  {
    hide Run, Dismiss, Rounded, Coherent, Without, Work, AsksFor;
    RunCoherent(n, es);
    var (s, p) := (Run(n, es), Run(n, es).pool);
    match e {
      case Request(_, _) =>
        if p.queue != [] { HeadIsIdle(s); }
      case PoolReceives(w, _, _) =>
        ExitIsLast(s, w);
      case Tick(_) =>
        SmallMean(p.elapsed, p.requests);
        if !TooFast(p) {
          AsksExactly(p, 0);
          if Reduction(p) > 0 { DismissStaysUp(s, Reduction(p)); }
        }
      case _ =>
    }
  }

  /** What one tick does: of the k workers asked for it stops the oldest free ones, as many as there
      are above the original size, starts the counters anew, and does nothing else. */
  lemma {:induction false} TickExactly(n: nat, es: seq<Event>, count: Option<nat>, k: nat)
    requires var s := Run(n, es); s.pool.up && Step(s, Tick(count)).pool.up && AsksFor(s.pool, k)
    ensures var (s, p, r) := (Run(n, es), Run(n, es).pool, Step(Run(n, es), Tick(count)));
      var spare: nat := if |p.queue| > p.original then |p.queue| - p.original else 0;
      && OldestStopped(s, r.(pool := r.pool.(count := p.count, requests := p.requests, elapsed := p.elapsed)),
                       if k < spare then k else spare)
      && r.pool.requests == r.pool.elapsed == 0
      && (if k > 0 then Some(r.pool.count) == count else r.pool.count == p.count)
  {
    hide Run, Dismiss, Rounded, Coherent, Send, OldestStopped;
    RunCoherent(n, es);
    var (s, p, r) := (Run(n, es), Run(n, es).pool, Step(Run(n, es), Tick(count)));
    FailsExactly(n, es, Tick(count));
    AsksExactly(p, k);
    hide AsksFor;
    StopNone(s);
    var s1 := r.(pool := r.pool.(count := p.count, requests := p.requests, elapsed := p.elapsed));
    if k > 0 {
      DismissedExactly(s, k);
      DismissKeepsCounters(s, k);
      assert s1 == Dismiss(s, k);
    } else {
      assert s1 == s;
    }
  }

  /** A pool of 30 over 10, all free, stops its three oldest workers after a period without requests. */
  lemma {:induction false} IdlePoolShrinks(n: nat, es: seq<Event>, count: nat)
    requires var p := Run(n, es).pool; p.up && p.count == 30 && p.original == 10 && |p.queue| == 30
    requires Run(n, es).pool.requests == 0
    ensures var (s, r) := (Run(n, es), Step(Run(n, es), Tick(Some(count))));
      && OldestStopped(s, r.(pool := r.pool.(count := 30, elapsed := s.pool.elapsed)), 3)
      && r.pool.queue == s.pool.queue[3..]
  {
    var p := Run(n, es).pool;
    hide Run;
    assert NeedsWorkers(p, 0);
    assert Nearest(30, 10, 3);
    assert AsksFor(p, 3);
    AsksExactly(p, 0);
    FailsExactly(n, es, Tick(Some(count)));
    TickExactly(n, es, Some(count), 3);
  }

  lemma {:induction false} DismissKeepsCounters(s: System, n: nat)
    ensures var r := Dismiss(s, n); r.pool == s.pool.(queue := r.pool.queue)
    decreases n
  {
    if n > 0 { DismissKeepsCounters(if |s.pool.queue| <= s.pool.original then s else DismissOne(s), n - 1); }
  }

  // ---------------------------------------------------------------------------
  // Exits.
  // ---------------------------------------------------------------------------

  lemma {:induction false} WithoutAround(a: seq<Pid>, w: Pid, b: seq<Pid>)
    requires w !in b
    ensures w !in a ==> Without(a + [w] + b, w) == a + b
    ensures Without(b, w) == b
    decreases |a|, |b|
  {
    if a == [] {
      assert a + [w] + b == [w] + b && ([w] + b)[1..] == b && a + b == b;
      if b != [] {
        assert b == [b[0]] + b[1..];
        WithoutAround([], w, b[1..]);
      }
    } else {
      assert (a + [w] + b)[1..] == a[1..] + [w] + b;
      assert a + b == [a[0]] + (a[1..] + b);
      WithoutAround(a[1..], w, b);
    }
  }

  lemma {:induction false} WithoutPlace(q: seq<Pid>, w: Pid, a: seq<Pid>, b: seq<Pid>)
    requires q == a + [w] + b && multiset(q)[w] <= 1
    ensures Without(q, w) == a + b
  {
    assert multiset(q) == multiset(a) + multiset{w} + multiset(b);
    assert multiset(a)[w] == 0 && multiset(b)[w] == 0;
    WithoutAround(a, w, b);
  }

  lemma {:induction false} ExitReceived(s: System, w: Pid, starts: bool, count: Option<nat>)
    requires s.pool.up && Notified(s, w)
    ensures var (p, r, q) := (s.pool, Step(s, PoolReceives(w, starts, count)), Without(s.pool.queue, w));
      var joins, ws := p.count < p.original, s.workers[w := s.workers[w].(outbox := [])];
      if (joins && !starts) || count.None? then r == Crashed(s)
      else
        && r.pool == p.(queue := if joins then q + [|s.workers|] else q, count := count.value)
        && r.workers == if joins then ws + [FRESH] else ws
  {
    hide Without;
    assert [Exit][1..] == [];
  }

  /** Taking the exit notice of w takes it out of the queue, wherever it was, and keeps the others in
      their order; if the pool was below its original size one new worker joins at the tail. The
      pool fails if that worker does not start or the supervisor does not count. */
  lemma {:induction false} ExitTaken(
    n: nat, es: seq<Event>, w: Pid, starts: bool, count: Option<nat>, a: seq<Pid>, b: seq<Pid>)
    requires var s := Run(n, es); s.pool.up && Notified(s, w)
    requires var q := Run(n, es).pool.queue; q == a + [w] + b || (q == a + b && w !in q)
    ensures var (s, p, r) := (Run(n, es), Run(n, es).pool, Step(Run(n, es), PoolReceives(w, starts, count)));
      var joins, ws := p.count < p.original, s.workers[w := s.workers[w].(outbox := [])];
      if (joins && !starts) || count.None? then r == Crashed(s)
      else
        && Retired(r, w)
        && r.pool == p.(queue := if joins then a + b + [|s.workers|] else a + b, count := count.value)
        && r.workers == if joins then ws + [FRESH] else ws
  {
    hide Run, Without, Step, Coherent;
    RunCoherent(n, es);
    var s := Run(n, es);
    ExitReceived(s, w, starts, count);
    NotifiedIsDead(s, w);
    if w in s.pool.queue {
      QueuedIsIdle(s, w);
      WithoutPlace(s.pool.queue, w, a, b);
    } else {
      WithoutAround([], w, s.pool.queue);
    }
  }

  lemma {:induction false} NotifiedIsDead(s: System, w: Pid)
    requires Coherent(s) && Notified(s, w)
    ensures s.workers[w].status.Dead?
  {
    assert Tracked(s, w);
    assert s.workers[w].outbox[0] in s.workers[w].outbox;
  }

  // ---------------------------------------------------------------------------
  // Requests.
  // ---------------------------------------------------------------------------

  ghost function InFlight(ws: seq<Worker>): (r: multiset<RequestId>) {
    if ws == [] then multiset{} else InFlight(ws[..|ws| - 1]) + multiset(Held(ws[|ws| - 1]))
  }

  lemma {:induction false} InFlightPush(ws: seq<Worker>, x: Worker)
    ensures InFlight(ws + [x]) == InFlight(ws) + multiset(Held(x))
  {
    assert (ws + [x])[..|ws|] == ws;
  }

  lemma {:induction false} InFlightUpdate(ws: seq<Worker>, w: Pid, x: Worker)
    requires w < |ws|
    ensures InFlight(ws[w := x]) + multiset(Held(ws[w])) == InFlight(ws) + multiset(Held(x))
    decreases |ws|
  {
    hide Held;
    var front, last := ws[..|ws| - 1], ws[|ws| - 1];
    if w < |front| {
      InFlightUpdate(front, w, x);
      assert ws[w := x][..|ws| - 1] == front[w := x];
      AddBoth(InFlight(front[w := x]), multiset(Held(ws[w])), InFlight(front), multiset(Held(x)), multiset(Held(last)));
    } else {
      assert ws[w := x][..|ws| - 1] == front;
    }
  }

  lemma {:induction false} AddBoth<T>(f1: multiset<T>, h: multiset<T>, f: multiset<T>, h1: multiset<T>, l: multiset<T>)
    requires f1 + h == f + h1
    ensures f1 + l + h == f + l + h1
  {
    forall x ensures (f1 + l + h)[x] == (f + l + h1)[x] {
      assert (f1 + h)[x] == (f + h1)[x];
    }
  }

  lemma {:induction false} RequestsPush(inbox: seq<ToWorker>, m: ToWorker)
    ensures Requests(inbox + [m]) == Requests(inbox) + if m.Employed? then [m.request] else []
    decreases |inbox|
  {
    if inbox != [] {
      assert (inbox + [m])[1..] == inbox[1..] + [m];
      RequestsPush(inbox[1..], m);
    }
  }

  lemma {:induction false} SendHolds(x: Worker, m: ToWorker)
    ensures !x.status.Dead? && m.Employed? ==> multiset(Held(Send(x, m))) == multiset(Held(x)) + multiset{m.request}
    ensures m.Stop? ==> Held(Send(x, m)) == Held(x)
  {
    RequestsPush(x.inbox, m);
  }

  lemma {:induction false} RequestsPop(inbox: seq<ToWorker>)
    requires inbox != []
    ensures Requests(inbox) == (if inbox[0].Employed? then [inbox[0].request] else []) + Requests(inbox[1..])
  {
  }

  lemma {:induction false} MovedBack(r: RequestId, rest: seq<RequestId>)
    ensures multiset([r] + rest) == multiset(rest + [r] + [] + []) == multiset(rest + [] + [r])
  {
    assert rest + [r] + [] + [] == rest + [r] && rest + [] + [r] == rest + [r];
  }

  lemma {:induction false} TakenHolds(x: Worker, published: bool, idle: bool)
    requires x.inbox != [] && x.inbox[0].Employed? && x.status.Free?
    ensures var t := TakeMessage(x, published, idle);
      multiset(Held(x)) == multiset(Held(t.worker) + t.answered + t.dropped)
  {
    var (r, rest) := (x.inbox[0].request, Requests(x.inbox[1..]));
    RequestsPop(x.inbox);
    hide Requests;
    assert [r] + rest + [] == [r] + rest && rest + [] == rest;
    MovedBack(r, rest);
  }

  lemma {:induction false} MessageHolds(x: Worker, published: bool, idle: bool)
    requires x.inbox != []
    ensures var t := TakeMessage(x, published, idle);
      multiset(Held(x)) == multiset(Held(t.worker) + t.answered + t.dropped)
  {
    if (if x.inbox[0].Stop? then idle else !x.status.Free?) {
      hide Held;
      EndedHolds(x);
    } else if x.inbox[0].Stop? {
      RequestsPop(x.inbox);
      hide Requests;
      var t := TakeMessage(x, published, idle);
      assert [] + Requests(x.inbox[1..]) == Requests(x.inbox[1..]);
      assert Held(t.worker) == Held(x);
      assert Held(t.worker) + [] + [] == Held(x);
    } else {
      hide Held, TakeMessage;
      TakenHolds(x, published, idle);
    }
  }

  lemma {:induction false} EndedHolds(x: Worker)
    ensures Held(Ended(x)) == []
    ensures Held(Ended(x)) + [] + Held(x) == Held(x)
  {
  }

  lemma {:induction false} TurnHolds(x: Worker, e: Event)
    ensures var t := Work(x, e);
      multiset(Held(x)) == multiset(Held(t.worker) + t.answered + t.dropped)
  {
    hide TakeMessage, Requests;
    var t := Work(x, e);
    if e.WorkerReceives? && x.inbox != [] {
      MessageHolds(x, e.published, e.idle);
    } else if t.worker == x {
      assert t.answered == [] && t.dropped == [];
      assert Held(x) + [] + [] == Held(x);
    } else {
      EndedHolds(x);
      var rest := Requests(x.inbox);
      assert e.Response? || e.RequesterDown? ==>
        Held(x) == rest + [x.status.request] && Held(t.worker) == rest;
      assert Held(t.worker) + t.answered + t.dropped == Held(x);
    }
  }

  function Numbers(n: nat): (r: seq<RequestId>) {
    seq(n, i => i)
  }

  /** Each request made is in exactly one place: answered, dropped, or with a worker. */
  ghost predicate Accounted(s: System) {
    multiset(s.answered) + multiset(s.dropped) + InFlight(s.workers) == multiset(Numbers(s.nextRequest))
  }

  lemma {:induction false} NumbersNext(n: nat)
    ensures multiset(Numbers(n + 1)) == multiset(Numbers(n)) + multiset{n}
  {
    assert Numbers(n + 1) == Numbers(n) + [n];
  }

  lemma {:induction false} EmployAccounts(s: System, w: Pid)
    requires Accounted(s) && w < |s.workers| && !s.workers[w].status.Dead?
    ensures Accounted(Employ(s, w))
  {
    hide Held, Numbers, Send, InFlight;
    var (x, f) := (s.workers[w], InFlight(s.workers));
    var m := Employed(s.nextRequest);
    NumbersNext(s.nextRequest);
    SendHolds(x, m);
    InFlightUpdate(s.workers, w, Send(x, m));
    OneMore(InFlight(s.workers[w := Send(x, m)]), multiset(Held(x)), f, multiset{s.nextRequest});
  }

  lemma {:induction false} OneMore<T>(f1: multiset<T>, h: multiset<T>, f: multiset<T>, one: multiset<T>)
    requires f1 + h == f + (h + one)
    ensures f1 == f + one
  {
    forall x ensures f1[x] == (f + one)[x] {
      assert (f1 + h)[x] == (f + (h + one))[x];
    }
  }

  lemma {:induction false} DropAccounts(s: System)
    requires Accounted(s)
    ensures Accounted(Crashed(s).(nextRequest := s.nextRequest + 1, dropped := s.dropped + [s.nextRequest]))
  {
    hide Numbers, InFlight;
    NumbersNext(s.nextRequest);
    assert multiset(s.dropped + [s.nextRequest]) == multiset(s.dropped) + multiset{s.nextRequest};
  }

  lemma {:induction false} StartAccounts(s: System)
    requires Accounted(s)
    ensures Accounted(s.(workers := s.workers + [FRESH]))
  {
    hide Numbers, InFlight;
    FreshHoldsNothing();
    InFlightPush(s.workers, FRESH);
  }

  lemma {:induction false} AskAccounts(s: System, starts: bool, answers: bool)
    requires Accounted(s)
    ensures Accounted(Ask(s, starts, answers))
  {
    hide Employ, InFlight, Numbers;
    DropAccounts(s);
    if s.pool.queue == [] {
      StartAccounts(s);
      EmployAccounts(s.(pool := s.pool.(count := s.pool.count + 1), workers := s.workers + [FRESH]), |s.workers|);
    } else if answers && s.pool.queue[0] < |s.workers| && !s.workers[s.pool.queue[0]].status.Dead? {
      EmployAccounts(s.(pool := s.pool.(queue := s.pool.queue[1..])), s.pool.queue[0]);
    }
  }

  lemma {:induction false} FreshHoldsNothing()
    ensures Held(FRESH) == []
  {
  }

  lemma {:induction false} ReceiveAccounts(s: System, w: Pid, starts: bool, count: Option<nat>)
    requires Accounted(s)
    ensures Accounted(Receive(s, w, starts, count))
  {
    hide Without, Numbers, InFlight, Held;
    if w < |s.workers| && s.workers[w].outbox != [] {
      var x := s.workers[w].(outbox := s.workers[w].outbox[1..]);
      var s1 := s.(workers := s.workers[w := x]);
      SameHeld(s, w, x);
      StartAccounts(s1);
    }
  }

  lemma {:induction false} SameHeld(s: System, w: Pid, x: Worker)
    requires w < |s.workers| && Accounted(s) && x.inbox == s.workers[w].inbox && x.status == s.workers[w].status
    ensures Accounted(s.(workers := s.workers[w := x]))
  {
    hide InFlight, Numbers, Requests;
    InFlightUpdate(s.workers, w, x);
    OneMore(InFlight(s.workers[w := x]), multiset(Held(x)), InFlight(s.workers), multiset{});
  }

  lemma {:induction false} DismissAccounts(s: System, n: nat)
    requires Accounted(s)
    ensures Accounted(Dismiss(s, n))
    decreases n
  {
    hide DismissOne, Accounted;
    if n > 0 {
      if |s.pool.queue| > s.pool.original {
        DismissOneAccounts(s);
        DismissAccounts(DismissOne(s), n - 1);
      } else {
        DismissAccounts(s, n - 1);
      }
    }
  }

  lemma {:induction false} DismissOneAccounts(s: System)
    requires Accounted(s) && s.pool.queue != []
    ensures Accounted(DismissOne(s))
  {
    hide Numbers, Held, Send, InFlight;
    var w := s.pool.queue[0];
    if w < |s.workers| {
      var x := Send(s.workers[w], Stop);
      SendHolds(s.workers[w], Stop);
      InFlightUpdate(s.workers, w, x);
      OneMore(InFlight(s.workers[w := x]), multiset(Held(x)), InFlight(s.workers), multiset{});
    }
  }

  lemma {:induction false} ReduceAccounts(s: System, count: Option<nat>)
    requires Accounted(s)
    ensures Accounted(Reduce(s, count))
  {
    hide InFlight, Numbers, Dismiss, Rounded;
    var p := s.pool;
    var n := if Timed(p) && p.elapsed / p.requests == 0 then 0 else Reduction(p);
    if n > 0 { DismissAccounts(s, n); }
  }

  lemma {:induction false} WorkAccounts(s: System, w: Pid, e: Event)
    requires Accounted(s)
    ensures Accounted(WorkIn(s, w, e))
  {
    hide Numbers, Held, Work, InFlight;
    if w < |s.workers| {
      var t := Work(s.workers[w], e);
      TurnHolds(s.workers[w], e);
      InFlightUpdate(s.workers, w, t.worker);
      var (a, d) := (multiset(s.answered), multiset(s.dropped));
      assert multiset(s.answered + t.answered) == a + multiset(t.answered);
      assert multiset(s.dropped + t.dropped) == d + multiset(t.dropped);
      assert multiset(Held(t.worker) + t.answered + t.dropped) ==
        multiset(Held(t.worker)) + multiset(t.answered) + multiset(t.dropped);
      JoinTurn(a, d, InFlight(s.workers), multiset(Held(s.workers[w])), multiset(t.answered), multiset(t.dropped),
               multiset(Held(t.worker)), InFlight(s.workers[w := t.worker]));
    }
  }

  lemma {:induction false} JoinTurn<T>(a: multiset<T>, d: multiset<T>, f: multiset<T>, h: multiset<T>,
                                       a1: multiset<T>, d1: multiset<T>, h1: multiset<T>, f1: multiset<T>)
    requires h == h1 + a1 + d1 && f1 + h == f + h1
    ensures a + a1 + (d + d1) + f1 == a + d + f
  {
    forall x ensures (a + a1 + (d + d1) + f1)[x] == (a + d + f)[x] {
      assert (f1 + h)[x] == (f + h1)[x] && h[x] == (h1 + a1 + d1)[x];
    }
  }

  lemma {:induction false} InitialAccounted(n: nat, k: nat)
    requires k <= n
    ensures InFlight(Initial(n).workers[..k]) == multiset{}
    decreases k
  {
    hide Held;
    if k > 0 {
      var ws := Initial(n).workers;
      InitialAccounted(n, k - 1);
      FreshHoldsNothing();
      InFlightPush(ws[..k - 1], FRESH);
      assert ws[..k] == ws[..k - 1] + [FRESH];
    }
  }

  lemma {:induction false} NothingAsked(n: nat)
    ensures Accounted(Initial(n))
  {
    hide InFlight;
    InitialAccounted(n, n);
    assert Initial(n).workers[..n] == Initial(n).workers;
    assert Numbers(0) == [];
  }

  /** Over every run, each request made is answered once, dropped once, or with one worker: no
      request is answered twice, and none vanishes. */
  lemma {:induction false} RunAccounted(n: nat, es: seq<Event>)
    ensures Accounted(Run(n, es))
    decreases |es|
  {
    if es == [] {
      NothingAsked(n);
    } else {
      hide Accounted, Step;
      RunAccounted(n, es[..|es| - 1]);
      StepAccounts(Run(n, es[..|es| - 1]), es[|es| - 1]);
    }
  }

  lemma {:induction false} StepAccounts(s: System, e: Event)
    requires Accounted(s)
    ensures Accounted(Step(s, e))
  {
    hide Accounted, Ask, Receive, Reduce, WorkIn;
    match e {
      case Request(starts, answers) => AskAccounts(s, starts, answers);
      case PoolReceives(w, starts, count) => ReceiveAccounts(s, w, starts, count);
      case Tick(count) => ReduceAccounts(s, count);
      case _ => WorkAccounts(s, e.w, e);
    }
  }

  lemma {:induction false} NumbersCount(n: nat, r: RequestId)
    ensures multiset(Numbers(n))[r] == if r < n then 1 else 0
    decreases n
  {
    if n > 0 {
      NumbersCount(n - 1, r);
      assert Numbers(n) == Numbers(n - 1) + [n - 1];
    } else {
      assert Numbers(0) == [];
    }
  }

  /** A request is answered at most once, never both answered and dropped, and only if it was made. */
  lemma {:induction false} AnsweredOnce(n: nat, es: seq<Event>, r: RequestId)
    ensures var s := Run(n, es);
      multiset(s.answered)[r] + multiset(s.dropped)[r] + InFlight(s.workers)[r] == if r < s.nextRequest then 1 else 0
  {
    hide Run, InFlight, Numbers;
    RunAccounted(n, es);
    NumbersCount(Run(n, es).nextRequest, r);
  }

  /** A request served in peace: the chosen worker answers it and returns to the tail of the queue,
      and nothing else has changed. With no free worker, a new one is started for it and stays. */
  lemma {:induction false} ServedAndReturned(n: nat, es: seq<Event>, elapsed: nat, starts: bool, count: Option<nat>)
    requires var s := Run(n, es); s.pool.up && (s.pool.queue != [] ==> Alive(s, s.pool.queue[0]))
    ensures var (s, p) := (Run(n, es), Run(n, es).pool);
      var w := if p.queue == [] then |s.workers| else p.queue[0];
      var employed := Step(Step(s, Request(true, true)), WorkerReceives(w, true, true));
      Step(Step(employed, Response(w, elapsed)), PoolReceives(w, starts, count)) ==
      System(p.(queue := (if p.queue == [] then [] else p.queue[1..]) + [w],
                count := if p.queue == [] then p.count + 1 else p.count,
                requests := p.requests + 1, elapsed := p.elapsed + elapsed),
             if p.queue == [] then s.workers + [FRESH] else s.workers,
             s.nextRequest + 1, s.answered + [s.nextRequest], s.dropped)
  {
    hide Run;
    RunCoherent(n, es);
    var (s, p) := (Run(n, es), Run(n, es).pool);
    var w := if p.queue == [] then |s.workers| else p.queue[0];
    if p.queue != [] { HeadIsIdle(s); }
    var q := if p.queue == [] then [] else p.queue[1..];
    var ws := if p.queue == [] then s.workers + [FRESH] else s.workers;
    var s1 := Step(s, Request(true, true));
    assert [] + [Employed(s.nextRequest)] == [Employed(s.nextRequest)];
    assert [] + [WorkerFree(elapsed)] == [WorkerFree(elapsed)];
    assert s1.workers == ws[w := FRESH.(inbox := [Employed(s.nextRequest)])];
    assert ws[w] == FRESH;
    ServedBy(s1, ws, w, elapsed, starts, count);
  }

  /** When a busy worker's requester goes, the request is dropped and the worker returns to the tail of
      the queue; word that another requester has gone changes nothing. */
  lemma {:induction false} RequesterGone(
    n: nat, es: seq<Event>, w: Pid, request: RequestId, starts: bool, count: Option<nat>)
    requires var s := Run(n, es); s.pool.up && w < |s.workers| && s.workers[w].status.Busy?
    ensures var s := Run(n, es); var r := Step(s, RequesterDown(w, request));
      if s.workers[w].status.request != request then r == s
      else
        Step(r, PoolReceives(w, starts, count)) ==
        s.(pool := s.pool.(queue := s.pool.queue + [w]), workers := s.workers[w := FRESH],
           dropped := s.dropped + [request])
  {
    hide Run, Held, Without;
    RunCoherent(n, es);
    var s := Run(n, es);
    assert Tracked(s, w);
    LastIn(s.workers[w].outbox);
    assert s.workers[w] == FRESH.(status := s.workers[w].status);
    assert s.answered + [] == s.answered && s.dropped + [] == s.dropped;
    assert [] + [WorkerFree(0)] == [WorkerFree(0)] && [WorkerFree(0)][1..] == [];
    var r := Step(s, RequesterDown(w, request));
    if s.workers[w].status.request == request {
      assert r.workers == s.workers[w := FRESH.(outbox := [WorkerFree(0)])];
      assert Step(r, PoolReceives(w, starts, count)).workers == s.workers[w := FRESH];
    } else {
      assert r.workers == s.workers;
    }
  }

  lemma {:induction false} ServedBy(
    s: System, ws: seq<Worker>, w: Pid, elapsed: nat, starts: bool, count: Option<nat>)
    requires w < |ws| && s.pool.up && s.nextRequest > 0 && ws[w] == FRESH
    requires s.workers == ws[w := FRESH.(inbox := [Employed(s.nextRequest - 1)])]
    ensures
      Step(Step(Step(s, WorkerReceives(w, true, true)), Response(w, elapsed)), PoolReceives(w, starts, count)) ==
      System(s.pool.(queue := s.pool.queue + [w], elapsed := s.pool.elapsed + elapsed), ws,
             s.nextRequest, s.answered + [s.nextRequest - 1], s.dropped)
  {
    hide Reduce, Ask, Held, Without;
    var r := s.nextRequest - 1;
    var s1 := Step(s, WorkerReceives(w, true, true));
    assert s.answered + [] == s.answered && s.dropped + [] == s.dropped;
    assert [Employed(r)][1..] == [];
    assert s1.workers[w] == FRESH.(status := Busy(r));
    assert s1.workers == ws[w := FRESH.(status := Busy(r))];
    assert s1 == s.(workers := ws[w := FRESH.(status := Busy(r))]);
    var s2 := Step(s1, Response(w, elapsed));
    assert [] + [WorkerFree(elapsed)] == [WorkerFree(elapsed)];
    assert s2 == s.(workers := ws[w := FRESH.(outbox := [WorkerFree(elapsed)])], answered := s.answered + [r]);
    var s3 := Step(s2, PoolReceives(w, starts, count));
    assert [WorkerFree(elapsed)][1..] == [];
    assert s3.workers == ws[w := FRESH] && ws[w := FRESH] == ws;
    assert s3.pool == s.pool.(queue := s.pool.queue + [w], elapsed := s.pool.elapsed + elapsed);
  }
}
