/** The acceptor, its bounded queue, the workers and shutdown, as one state machine
    over their steps (src/milter.rs, serve and drain_backlog). Any interleaving is
    a list of labels. */
module WorkerPool {
  import opened ByteStrings

  datatype Acceptor =
    | LoopCheck     // the outer loop is about to look at the shutdown flag
    | Waiting       // waiting up to 100 ms for a connection
    | SecondCheck   // readable: looks at the flag again
    | DrainCheck    // the drain loop is about to look at the flag
    | Accepting
    | DrainWaiting  // asks without waiting whether more is there
    | Stopped       // the sender is dropped

  datatype Worker = Receiving | Checking(conn: nat) | Handling(conn: nat) | Exited

  datatype State = State(
    acceptor: Acceptor,
    shutdown: bool,
    queue: seq<nat>,
    workers: seq<Worker>,
    accepted: nat,          // connections are numbered as they are accepted
    taken: seq<nat>,        // by workers, in order
    takes: seq<nat>,        // how many each worker has taken
    dropped: seq<nat>,      // the queue was full
    finished: seq<nat>,
    discarded: seq<nat>)    // taken, but shutdown was seen before handling

  /** How a wait or an accept turns out. */
  datatype Turn = Ready | Nothing | Error

  datatype Label = Shutdown | AcceptorStep(turn: Turn) | WorkerStep(worker: nat)

  function Capacity(s: State): nat { 2 * |s.workers| }

  function Init(workers: nat): State {
    State(LoopCheck, false, [], seq(workers, i => Receiving), 0, [], seq(workers, i => 0), [], [], [])
  }

  function Accept(s: State): State {
    var next := s.(accepted := s.accepted + 1, acceptor := DrainWaiting);
    if |s.queue| < Capacity(s) then next.(queue := s.queue + [s.accepted])
    else next.(dropped := s.dropped + [s.accepted])
  }

  function StepAcceptor(s: State, turn: Turn): Option<State> {
    match s.acceptor
    case LoopCheck => Some(s.(acceptor := if s.shutdown then Stopped else Waiting))
    case Waiting =>
      Some(s.(acceptor := match turn case Ready => SecondCheck case Nothing => LoopCheck case Error => Stopped))
    case SecondCheck => Some(s.(acceptor := if s.shutdown then Stopped else DrainCheck))
    case DrainCheck => Some(s.(acceptor := if s.shutdown then LoopCheck else Accepting))
    case Accepting =>
      (match turn
       case Ready => Some(Accept(s))
       case Nothing => Some(s.(acceptor := LoopCheck))
       case Error => Some(s.(acceptor := if s.shutdown then LoopCheck else Stopped)))
    case DrainWaiting =>
      Some(s.(acceptor := match turn case Ready => DrainCheck case Nothing => LoopCheck case Error => Stopped))
    case Stopped => None
  }

  function StepWorker(s: State, i: nat): Option<State>
    requires |s.takes| == |s.workers|
  {
    if i >= |s.workers| then None
    else
      match s.workers[i]
      case Receiving =>
        if s.queue != [] then
          Some(s.(queue := s.queue[1..], taken := s.taken + [s.queue[0]],
                  takes := s.takes[i := s.takes[i] + 1],
                  workers := s.workers[i := Checking(s.queue[0])]))
        else if s.acceptor == Stopped then Some(s.(workers := s.workers[i := Exited]))
        else None
      case Checking(conn) =>
        if s.shutdown then
          Some(s.(workers := s.workers[i := Exited], discarded := s.discarded + [conn]))
        else Some(s.(workers := s.workers[i := Handling(conn)]))
      case Handling(conn) =>
        Some(s.(workers := s.workers[i := Receiving], finished := s.finished + [conn]))
      case Exited => None
  }

  /** One step, or None when it cannot be taken. */
  function Next(s: State, l: Label): Option<State>
    requires |s.takes| == |s.workers|
  {
    match l
    case Shutdown => if s.shutdown then None else Some(s.(shutdown := true))
    case AcceptorStep(turn) => StepAcceptor(s, turn)
    case WorkerStep(i) => StepWorker(s, i)
  }

  predicate Shape(s: State) { |s.takes| == |s.workers| }

  lemma NextKeepsShape(s: State, l: Label)
    requires Shape(s) && Next(s, l).Some?
    ensures Shape(Next(s, l).value) && |Next(s, l).value.workers| == |s.workers|
  {
  }

  /** The state after a list of steps, if each could be taken. */
  function Run(s: State, labels: seq<Label>): Option<State>
    requires Shape(s)
    decreases |labels|
  {
    if labels == [] then Some(s)
    else
      var next := Next(s, labels[0]);
      if next.None? then None
      else
        NextKeepsShape(s, labels[0]);
        Run(next.value, labels[1..])
  }

  // ----- every accepted connection is in exactly one place -----

  function HoldsIt(w: Worker, id: nat): nat {
    if (w.Checking? || w.Handling?) && w.conn == id then 1 else 0
  }

  function HeldCount(workers: seq<Worker>, id: nat): nat {
    if workers == [] then 0 else HoldsIt(workers[0], id) + HeldCount(workers[1..], id)
  }

  function Count(s: seq<nat>, id: nat): nat {
    if s == [] then 0 else (if s[0] == id then 1 else 0) + Count(s[1..], id)
  }

  /** In how many places connection `id` is. */
  function Places(s: State, id: nat): nat {
    Count(s.queue, id) + HeldCount(s.workers, id)
    + Count(s.dropped, id) + Count(s.finished, id) + Count(s.discarded, id)
  }

  predicate Increasing(s: seq<nat>) { forall i, j :: 0 <= i < j < |s| ==> s[i] < s[j] }

  /** Each connection accepted so far is in one place, once; the queue is within
      its bound and in order, and connections are taken in the order accepted. */
  ghost predicate Inv(s: State) {
    && Shape(s) && |s.queue| <= 2 * |s.workers|
    && (forall id: nat :: Places(s, id) == if id < s.accepted then 1 else 0)
    && Increasing(s.taken + s.queue) && forall id :: id in s.taken + s.queue ==> id < s.accepted
  }

  lemma {:induction false} CountSnoc(s: seq<nat>, x: nat, id: nat)
    ensures Count(s + [x], id) == Count(s, id) + if x == id then 1 else 0
  {
    if s == [] {
      assert s + [x] == [x];
    } else {
      assert (s + [x])[1..] == s[1..] + [x];
      CountSnoc(s[1..], x, id);
    }
  }

  lemma {:induction false} HeldUpdate(workers: seq<Worker>, i: nat, w: Worker, id: nat)
    requires i < |workers|
    ensures HeldCount(workers[i := w], id) + HoldsIt(workers[i], id) == HeldCount(workers, id) + HoldsIt(w, id)
  {
    var updated := workers[i := w];
    if i == 0 {
      assert updated[1..] == workers[1..];
    } else {
      assert updated[1..] == workers[1..][i - 1 := w];
      HeldUpdate(workers[1..], i - 1, w, id);
    }
  }

  lemma {:induction false} NothingHeld(workers: seq<Worker>, id: nat)
    requires forall i :: 0 <= i < |workers| ==> workers[i] == Receiving
    ensures HeldCount(workers, id) == 0
  {
    if workers != [] {
      NothingHeld(workers[1..], id);
    }
  }

  lemma InitInv(workers: nat)
    ensures Inv(Init(workers))
  {
    forall id: nat
      ensures Places(Init(workers), id) == 0
    {
      NothingHeld(Init(workers).workers, id);
    }
  }

  lemma AcceptKeepsInv(s: State)
    requires Inv(s)
    ensures Inv(Accept(s))
  {
    var t := Accept(s);
    forall id: nat
      ensures Places(t, id) == Places(s, id) + if id == s.accepted then 1 else 0
    {
      CountSnoc(s.queue, s.accepted, id);
      CountSnoc(s.dropped, s.accepted, id);
    }
    if t.queue != s.queue {
      assert t.taken + t.queue == (s.taken + s.queue) + [s.accepted];
      IncreasingSnoc(s.taken + s.queue, s.accepted);
    }
  }

  lemma IncreasingSnoc(s: seq<nat>, x: nat)
    requires Increasing(s) && forall id :: id in s ==> id < x
    ensures Increasing(s + [x])
  {
    assert forall i :: 0 <= i < |s| ==> s[i] in s;
  }

  /** A worker only moves connections. */
  lemma WorkerKeepsPlaces(s: State, i: nat, id: nat)
    requires Shape(s) && StepWorker(s, i).Some?
    ensures Places(StepWorker(s, i).value, id) == Places(s, id)
  {
    var t := StepWorker(s, i).value;
    HeldUpdate(s.workers, i, t.workers[i], id);
    match s.workers[i]
    case Checking(conn) => CountSnoc(s.discarded, conn, id);
    case Handling(conn) => CountSnoc(s.finished, conn, id);
    case _ =>
  }

  lemma WorkerKeepsInv(s: State, i: nat)
    requires Inv(s) && StepWorker(s, i).Some?
    ensures Inv(StepWorker(s, i).value)
  {
    var t := StepWorker(s, i).value;
    forall id: nat
      ensures Places(t, id) == Places(s, id)
    {
      WorkerKeepsPlaces(s, i, id);
    }
    assert t.taken + t.queue == s.taken + s.queue by {
      if t.queue != s.queue {
        assert s.queue == [s.queue[0]] + s.queue[1..];
      }
    }
  }

  lemma NextKeepsInv(s: State, l: Label)
    requires Inv(s) && Next(s, l).Some?
    ensures Inv(Next(s, l).value)
  {
    if l.WorkerStep? {
      WorkerKeepsInv(s, l.worker);
    } else if s.acceptor == Accepting && l == AcceptorStep(Ready) {
      AcceptKeepsInv(s);
    } else {
      assert forall id: nat :: Places(Next(s, l).value, id) == Places(s, id);
    }
  }

  /** In every interleaving, from a pool of any size. */
  lemma {:induction false} RunKeepsInv(s: State, labels: seq<Label>)
    requires Inv(s) && Run(s, labels).Some?
    ensures Inv(Run(s, labels).value)
    decreases |labels|
  {
    if labels != [] {
      NextKeepsInv(s, labels[0]);
      RunKeepsInv(Next(s, labels[0]).value, labels[1..]);
    }
  }

  lemma ConnectionsConserved(workers: nat, labels: seq<Label>)
    requires Run(Init(workers), labels).Some?
    ensures Inv(Run(Init(workers), labels).value)
  {
    InitInv(workers);
    RunKeepsInv(Init(workers), labels);
  }

  // ----- connections are served -----

  /** Where a connection is that a worker has taken. */
  predicate Held(s: State, id: nat) { exists i :: 0 <= i < |s.workers| && HoldsIt(s.workers[i], id) == 1 }

  /** Nothing is discarded before shutdown; what was taken is held or done with; and
      no worker leaves before all is over. */
  ghost predicate Serving(s: State) {
    && (s.discarded != [] ==> s.shutdown)
    && (forall id :: id in s.taken ==> Held(s, id) || id in s.finished || id in s.discarded)
    && (Exited in s.workers ==> s.shutdown || (s.acceptor == Stopped && s.queue == []))
  }

  lemma WorkerKeepsServing(s: State, i: nat)
    requires Shape(s) && Serving(s) && StepWorker(s, i).Some?
    ensures Serving(StepWorker(s, i).value)
  {
    var t := StepWorker(s, i).value;
    forall id | id in t.taken
      ensures Held(t, id) || id in t.finished || id in t.discarded
    {
      if id in s.taken {
        if j :| 0 <= j < |s.workers| && HoldsIt(s.workers[j], id) == 1 && j != i {
          assert HoldsIt(t.workers[j], id) == 1;
        } else if Held(s, id) {
          assert HoldsIt(s.workers[i], id) == 1;
          assert t.workers[i].Handling? ==> HoldsIt(t.workers[i], id) == 1;
        }
      } else {
        assert HoldsIt(t.workers[i], id) == 1;
      }
    }
  }

  lemma NextKeepsServing(s: State, l: Label)
    requires Shape(s) && Serving(s) && Next(s, l).Some?
    ensures Serving(Next(s, l).value)
  {
    if l.WorkerStep? {
      WorkerKeepsServing(s, l.worker);
    } else {
      var t := Next(s, l).value;
      assert t.workers == s.workers;
      assert forall id :: Held(s, id) ==> Held(t, id);
    }
  }

  lemma {:induction false} RunKeepsServing(s: State, labels: seq<Label>)
    requires Shape(s) && Serving(s) && Run(s, labels).Some?
    ensures Serving(Run(s, labels).value)
    decreases |labels|
  {
    if labels != [] {
      NextKeepsShape(s, labels[0]);
      NextKeepsServing(s, labels[0]);
      RunKeepsServing(Next(s, labels[0]).value, labels[1..]);
    }
  }

  /** In every interleaving, as long as there is no shutdown: nothing is discarded,
      and every connection taken by a worker is about to be handled, being handled
      or finished. */
  lemma TakenAreServed(workers: nat, labels: seq<Label>, id: nat)
    requires Run(Init(workers), labels).Some?
    ensures var s := Run(Init(workers), labels).value;
      && (s.discarded != [] ==> s.shutdown)
      && (!s.shutdown && id in s.taken ==>
            id in s.finished || Checking(id) in s.workers || Handling(id) in s.workers)
  {
    RunKeepsServing(Init(workers), labels);
    var s := Run(Init(workers), labels).value;
    if !s.shutdown && id in s.taken && id !in s.finished {
      assert Held(s, id);
      var i :| 0 <= i < |s.workers| && HoldsIt(s.workers[i], id) == 1;
      assert s.workers[i] == Checking(id) || s.workers[i] == Handling(id);
    }
  }

  /** And it goes on: without shutdown a worker about to handle a connection handles
      that connection next, one that handles it finishes it, and one that is free
      takes the connection that has waited longest. */
  lemma WorkersGoOn(s: State, i: nat)
    requires Shape(s) && i < |s.workers| && !s.shutdown
    ensures forall id :: s.workers[i] == Checking(id) ==>
              Next(s, WorkerStep(i)).Some? && Next(s, WorkerStep(i)).value.workers[i] == Handling(id)
    ensures forall id :: s.workers[i] == Handling(id) ==>
              Next(s, WorkerStep(i)).Some? && id in Next(s, WorkerStep(i)).value.finished
    ensures s.workers[i] == Receiving && s.queue != [] ==>
              Next(s, WorkerStep(i)).Some? && Next(s, WorkerStep(i)).value.workers[i] == Checking(s.queue[0])
  {
  }

  /** When no worker can take a step and there was no shutdown, every connection
      accepted has been finished, unless it was dropped. */
  lemma QuietMeansServed(workers: nat, labels: seq<Label>, id: nat)
    requires workers > 0 && Run(Init(workers), labels).Some?
    requires var s := Run(Init(workers), labels).value;
      Shape(s) && !s.shutdown && id < s.accepted && forall i: nat :: Next(s, WorkerStep(i)).None?
    ensures var s := Run(Init(workers), labels).value;
      |s.workers| == workers && (id in s.finished || id in s.dropped)
  {
    var s := Run(Init(workers), labels).value;
    ConnectionsConserved(workers, labels);
    RunKeepsServing(Init(workers), labels);
    RunKeepsCount(Init(workers), labels);
    assert Next(s, WorkerStep(0)).None?;
    forall i | 0 <= i < |s.workers|
      ensures HoldsIt(s.workers[i], id) == 0
    {
      assert Next(s, WorkerStep(i)).None?;
    }
    NoneHeld(s.workers, id);
    CountedIn(s.finished, id);
    CountedIn(s.dropped, id);
    assert Places(s, id) == 1;
  }

  lemma {:induction false} RunKeepsCount(s: State, labels: seq<Label>)
    requires Shape(s) && Run(s, labels).Some?
    ensures |Run(s, labels).value.workers| == |s.workers|
    decreases |labels|
  {
    if labels != [] {
      NextKeepsShape(s, labels[0]);
      RunKeepsCount(Next(s, labels[0]).value, labels[1..]);
    }
  }

  lemma {:induction false} NoneHeld(workers: seq<Worker>, id: nat)
    requires forall i :: 0 <= i < |workers| ==> HoldsIt(workers[i], id) == 0
    ensures HeldCount(workers, id) == 0
  {
    if workers != [] {
      assert forall i :: 0 <= i < |workers| - 1 ==> workers[1..][i] == workers[i + 1];
      NoneHeld(workers[1..], id);
    }
  }

  lemma {:induction false} CountedIn(s: seq<nat>, id: nat)
    ensures Count(s, id) > 0 <==> id in s
  {
    if s != [] {
      CountedIn(s[1..], id);
    }
  }

  /** Without shutdown only an error stops the acceptor, and it can always go on. */
  lemma AcceptorStopsOnError(s: State, turn: Turn)
    requires !s.shutdown && s.acceptor != Stopped
    ensures StepAcceptor(s, turn).Some?
    ensures StepAcceptor(s, turn).value.acceptor == Stopped ==> turn == Error
  {
  }

  function StepsToAccept(a: Acceptor): nat {
    match a
    case LoopCheck => 5
    case Waiting => 4
    case SecondCheck => 3
    case DrainCheck => 2
    case Accepting => 1
    case DrainWaiting => 3
    case Stopped => 0
  }

  /** The acceptor goes on too: without shutdown, with connections waiting, it
      accepts one within five steps, and queues it unless the queue is full. */
  lemma {:induction false} AcceptorGoesOn(s: State) returns (labels: seq<Label>)
    requires Shape(s) && !s.shutdown && s.acceptor != Stopped
    ensures |labels| <= 5 && forall i :: 0 <= i < |labels| ==> labels[i] == AcceptorStep(Ready)
    ensures Run(s, labels).Some?
    ensures var t := Run(s, labels).value;
      && t.accepted == s.accepted + 1 && t.workers == s.workers
      && (if |s.queue| < 2 * |s.workers| then t.queue == s.queue + [s.accepted] && t.dropped == s.dropped
          else t.queue == s.queue && t.dropped == s.dropped + [s.accepted])
    ensures |labels| == StepsToAccept(s.acceptor)
    decreases StepsToAccept(s.acceptor)
  {
    var ready := AcceptorStep(Ready);
    var next := Next(s, ready).value;
    if s.acceptor == Accepting {
      labels := [ready];
      assert labels[1..] == [];
    } else {
      var rest := AcceptorGoesOn(next);
      labels := [ready] + rest;
      assert labels[1..] == rest;
    }
  }

  /** A connection is dropped only at a moment when the queue was full. */
  lemma {:induction false} DroppedWhenFull(s: State, labels: seq<Label>, id: nat) returns (n: nat)
    requires Inv(s) && Run(s, labels).Some? && id !in s.dropped && id in Run(s, labels).value.dropped
    ensures n < |labels| && Run(s, labels[..n]).Some?
    ensures var u := Run(s, labels[..n]).value; u.accepted == id && |u.queue| == 2 * |u.workers|
    decreases |labels|
  {
    assert labels != [];
    var next := Next(s, labels[0]).value;
    NextKeepsInv(s, labels[0]);
    if id in next.dropped {
      n := 0;
    } else {
      var m := DroppedWhenFull(next, labels[1..], id);
      n := m + 1;
      assert labels[..n][0] == labels[0] && labels[..n][1..] == labels[1..][..m];
    }
  }

  // ----- shutdown -----

  /** How many connections a worker can still take once shutdown is set. */
  function Quota(w: Worker): nat {
    match w
    case Receiving => 1
    case Handling(_) => 1
    case _ => 0
  }

  /** What the steps after shutdown may change: `t` follows from `s`. */
  ghost predicate WindsDown(s: State, t: State)
    requires Shape(s) && Shape(t)
  {
    && s.shutdown && t.shutdown && |s.workers| == |t.workers|
    // each worker takes at most one more connection
    && (forall i :: 0 <= i < |s.workers| ==> t.takes[i] + Quota(t.workers[i]) <= s.takes[i] + Quota(s.workers[i]))
    // only what was being handled already is handled and finished
    && (forall i :: 0 <= i < |s.workers| && t.workers[i].Handling? ==> t.workers[i] == s.workers[i])
    && s.finished <= t.finished
    && (forall c :: c in t.finished[|s.finished|..] ==> Handling(c) in s.workers)
    // at most one accept, and only one whose check came before
    && t.accepted <= s.accepted + (if s.acceptor == Accepting then 1 else 0)
    && (t.acceptor == Accepting ==> s.acceptor == Accepting && t.accepted == s.accepted)
  }

  lemma AcceptorWindsDown(s: State, turn: Turn)
    requires Shape(s) && s.shutdown && StepAcceptor(s, turn).Some?
    ensures var t := StepAcceptor(s, turn).value; Shape(t) && WindsDown(s, t)
  {
  }

  lemma WorkerWindsDown(s: State, i: nat)
    requires Shape(s) && s.shutdown && StepWorker(s, i).Some?
    ensures var t := StepWorker(s, i).value; Shape(t) && WindsDown(s, t)
  {
  }

  lemma NextWindsDown(s: State, l: Label)
    requires Shape(s) && s.shutdown && Next(s, l).Some?
    ensures Shape(Next(s, l).value) && WindsDown(s, Next(s, l).value)
  {
    match l
    case AcceptorStep(turn) => AcceptorWindsDown(s, turn);
    case WorkerStep(i) => WorkerWindsDown(s, i);
    case Shutdown => assert false;
  }

  lemma WindsDownTransitive(s: State, t: State, u: State)
    requires Shape(s) && Shape(t) && Shape(u) && WindsDown(s, t) && WindsDown(t, u)
    ensures WindsDown(s, u)
  {
    forall c | c in u.finished[|s.finished|..]
      ensures Handling(c) in s.workers
    {
      var k :| 0 <= k < |u.finished| - |s.finished| && u.finished[|s.finished|..][k] == c;
      var n := |s.finished| + k;
      if n < |t.finished| {
        assert t.finished[|s.finished|..][k] == c;
      } else {
        assert u.finished[|t.finished|..][n - |t.finished|] == c;
        var i :| 0 <= i < |t.workers| && t.workers[i] == Handling(c);
        assert s.workers[i] == Handling(c);
      }
    }
  }

  /** After shutdown, in every continuation: no connection is handled that was not
      being handled, each worker takes at most one more, and at most the accept
      already under way takes place. */
  lemma {:induction false} ShutdownWindsDown(s: State, labels: seq<Label>)
    requires Shape(s) && s.shutdown && Run(s, labels).Some?
    ensures Shape(Run(s, labels).value) && WindsDown(s, Run(s, labels).value)
    decreases |labels|
  {
    if labels != [] {
      var next := Next(s, labels[0]).value;
      NextWindsDown(s, labels[0]);
      ShutdownWindsDown(next, labels[1..]);
      WindsDownTransitive(s, next, Run(s, labels).value);
    }
  }

  function AcceptorSteps(a: Acceptor): nat {
    match a
    case LoopCheck => 1
    case Waiting => 2
    case SecondCheck => 1
    case DrainCheck => 2
    case Accepting => 4
    case DrainWaiting => 3
    case Stopped => 0
  }

  function WorkerSteps(w: Worker): nat {
    match w
    case Receiving => 2
    case Checking(_) => 1
    case Handling(_) => 3
    case Exited => 0
  }

  function AllWorkerSteps(workers: seq<Worker>): nat {
    if workers == [] then 0 else WorkerSteps(workers[0]) + AllWorkerSteps(workers[1..])
  }

  /** A bound on the steps left once shutdown is set. */
  function StepsLeft(s: State): nat { AcceptorSteps(s.acceptor) + AllWorkerSteps(s.workers) }

  lemma {:induction false} StepsUpdate(workers: seq<Worker>, i: nat, w: Worker)
    requires i < |workers|
    ensures AllWorkerSteps(workers[i := w]) + WorkerSteps(workers[i]) == AllWorkerSteps(workers) + WorkerSteps(w)
  {
    var updated := workers[i := w];
    if i == 0 {
      assert updated[1..] == workers[1..];
    } else {
      assert updated[1..] == workers[1..][i - 1 := w];
      StepsUpdate(workers[1..], i - 1, w);
    }
  }

  lemma NextUsesStep(s: State, l: Label)
    requires Shape(s) && s.shutdown && Next(s, l).Some?
    ensures StepsLeft(Next(s, l).value) < StepsLeft(s)
  {
    if l.WorkerStep? {
      StepsUpdate(s.workers, l.worker, Next(s, l).value.workers[l.worker]);
    }
  }

  lemma {:induction false} StepsBound(workers: seq<Worker>)
    ensures AllWorkerSteps(workers) <= 3 * |workers|
  {
    if workers != [] {
      StepsBound(workers[1..]);
    }
  }

  /** Shutdown cannot be put off: every run after it ends within 4 steps of the
      acceptor and 3 of each worker. */
  lemma {:induction false} ShutdownIsPrompt(s: State, labels: seq<Label>)
    requires Shape(s) && s.shutdown && Run(s, labels).Some?
    ensures |labels| <= StepsLeft(s) <= 4 + 3 * |s.workers|
    decreases |labels|
  {
    StepsBound(s.workers);
    if labels != [] {
      NextUsesStep(s, labels[0]);
      NextWindsDown(s, labels[0]);
      ShutdownIsPrompt(Next(s, labels[0]).value, labels[1..]);
    }
  }

  /** And it ends only when everything has stopped: while some thread is left, a
      step can be taken. */
  lemma ShutdownDoesNotHang(s: State)
    requires Shape(s) && s.shutdown
    requires forall l :: Next(s, l).None?
    ensures s.acceptor == Stopped && forall i :: 0 <= i < |s.workers| ==> s.workers[i] == Exited
  {
    assert Next(s, AcceptorStep(Nothing)).None?;
    forall i | 0 <= i < |s.workers|
      ensures s.workers[i] == Exited
    {
      assert Next(s, WorkerStep(i)).None?;
    }
  }
}
