/** The master thread, the worker threads and mg_stop as a system of interleaved
    steps.  Critical sections are single steps, except that a thread which has
    looked at the queue and at stop_flag holds the mutex until a later step waits or
    goes on: stop_flag is set without the mutex, so the two must not be merged. */
module WorkerPool {
  import opened SocketQueue
  import opened Options

  datatype Worker =
    | Idle                         // about to lock the mutex in consume_socket
    | Looked(waits: bool)          // holds the mutex; going to wait, or to take
    | Asleep                       // waits on sq_full
    | Woken                        // woken up, has not re-locked yet
    | Leaving(sp: Option<Sock>)    // has unlocked, about to read stop_flag
    | Busy(sp: Option<Sock>)       // serves a connection
    | Finishing                    // out of the loop, about to lock for the last time
    | Done

  datatype Master =
    | Polling
    | Accepting                    // saw stop_flag 0, about to accept
    | Bringing(sock: Sock)         // about to lock the mutex in produce_socket
    | Seen(sock: Sock, waits: bool)
    | Waiting(sock: Sock)          // waits on sq_empty
    | Roused(sock: Sock)
    | Stopping                     // about to broadcast sq_full
    | Joining                      // about to lock the mutex and look at num_threads
    | JoinAsleep                   // waits on cond
    | JoinWoken
    | Tearing                      // all workers gone; destroys mutex and condvars
    | Ended

  datatype Stopper = NotCalled | Called | Freed

  datatype Owner = Nobody | TheMaster | AWorker(w: nat)

  /** `accepted`, `queued`, `taken` and `served` record the sockets accepted, put into the
      queue, taken out of it and served by a worker, in order. */
  datatype State = State(
    ring: Ring, stop: nat, numThreads: int, workers: seq<Worker>, master: Master, stopper: Stopper, owner: Owner,
    accepted: seq<Sock>, queued: seq<Sock>, taken: seq<Sock>, served: seq<Sock>)

  /** Once mg_start has returned: n workers started and counted. */
  ghost function Start(n: nat): State {
    State(EMPTY, 0, n, seq(n, _ => Idle), Polling, NotCalled, Nobody, [], [], [], [])
  }

  datatype Step =
    | Lock(w: nat)                 // lock, look at the queue and stop_flag
    | Wait(w: nat)
    | Grab(w: nat)                 // take a socket if there is one, signal sq_empty, unlock
    | Return(w: nat)               // read stop_flag once more
    | Serve(w: nat)
    | Finish(w: nat)               // num_threads--, signal cond
    | Spurious(w: nat)
    | Poll
    | Accept(sock: Sock)
    | Refuse                       // accept failed or the address is not allowed
    | MLock
    | MWait
    | MPut(wakes: nat)             // put the socket if there is room, signal sq_full, unlock
    | MSpurious
    | Quit
    | Broadcast
    | Join
    | End
    | Stop                         // mg_stop is called
    | Free                         // mg_stop sees stop_flag 2

  predicate IsWorker(s: State, w: nat, x: Worker) {
    w < |s.workers| && s.workers[w] == x
  }

  function Pending(m: Master): seq<Sock> {
    match m
    case Bringing(sock) => [sock]
    case Seen(sock, _) => [sock]
    case Waiting(sock) => [sock]
    case Roused(sock) => [sock]
    case _ => []
  }

  ghost predicate SomeAsleep(ws: seq<Worker>) {
    exists w :: 0 <= w < |ws| && ws[w] == Asleep
  }

  ghost predicate Enabled(s: State, step: Step) {
    match step
    case Lock(w) => s.owner == Nobody && (IsWorker(s, w, Idle) || IsWorker(s, w, Woken))
    case Wait(w) => IsWorker(s, w, Looked(true))
    case Grab(w) => IsWorker(s, w, Looked(false))
    case Return(w) => w < |s.workers| && s.workers[w].Leaving?
    case Serve(w) => w < |s.workers| && s.workers[w].Busy?
    case Finish(w) => s.owner == Nobody && IsWorker(s, w, Finishing)
    case Spurious(w) => IsWorker(s, w, Asleep)
    case Poll => s.master == Polling && s.stop == 0
    case Accept(_) => s.master == Accepting
    case Refuse => s.master == Accepting
    case MLock => s.owner == Nobody && (s.master.Bringing? || s.master.Roused?)
    case MWait => s.master.Seen? && s.master.waits
    case MPut(v) => s.master.Seen? && !s.master.waits && (SomeAsleep(s.workers) ==> IsWorker(s, v, Asleep))
    case MSpurious => s.master.Waiting? || s.master == JoinAsleep
    case Quit => s.master == Polling && s.stop != 0
    case Broadcast => s.master == Stopping
    case Join => s.owner == Nobody && (s.master == Joining || s.master == JoinWoken)
    case End => s.master == Tearing
    case Stop => s.stopper == NotCalled
    case Free => s.stopper == Called && s.stop == 2
  }

  function Listed(sp: Option<Sock>): seq<Sock> {
    match sp
    case None => []
    case Some(sock) => [sock]
  }

  function SetWorker(s: State, w: nat, x: Worker): State
    requires w < |s.workers|
  {
    s.(workers := s.workers[w := x])
  }

  /** pthread_cond_signal(&sq_empty): only the master ever waits there. */
  function SignalEmpty(m: Master): Master {
    if m.Waiting? then Roused(m.sock) else m
  }

  /** pthread_cond_signal(&cond): only the master ever waits there. */
  function SignalCond(m: Master): Master {
    if m == JoinAsleep then JoinWoken else m
  }

  function WakeAll(ws: seq<Worker>): (r: seq<Worker>)
    ensures |r| == |ws|
    ensures forall w :: 0 <= w < |ws| ==> r[w] == if ws[w] == Asleep then Woken else ws[w]
  {
    seq(|ws|, w requires 0 <= w < |ws| => if ws[w] == Asleep then Woken else ws[w])
  }

  function TakeOne(s: State, w: nat): State
    requires w < |s.workers| && s.ring.Valid()
  {
    if s.ring.head > s.ring.tail then
      SetWorker(s, w, Leaving(Some(s.ring.Oldest()))).(ring := s.ring.Take(), taken := s.taken + [s.ring.Oldest()])
    else SetWorker(s, w, Leaving(None))
  }

  function PutOne(s: State, sock: Sock): State
    requires s.ring.Valid()
  {
    if s.ring.head - s.ring.tail < SIZE then s.(ring := s.ring.Put(sock), queued := s.queued + [sock]) else s
  }

  function WakeOne(s: State, w: nat): State {
    if IsWorker(s, w, Asleep) then SetWorker(s, w, Woken) else s
  }

  ghost function Apply(s: State, step: Step): State
    requires Enabled(s, step) && s.ring.Valid()
  {
    match step
    case Lock(w) =>
      SetWorker(s, w, Looked(s.ring.head == s.ring.tail && s.stop == 0)).(owner := AWorker(w))
    case Wait(w) => SetWorker(s, w, Asleep).(owner := Nobody)
    case Grab(w) => TakeOne(s, w).(master := SignalEmpty(s.master), owner := Nobody)
    case Return(w) => SetWorker(s, w, if s.stop == 0 then Busy(s.workers[w].sp) else Finishing)
    case Serve(w) => SetWorker(s, w, Idle).(served := s.served + Listed(s.workers[w].sp))
    case Finish(w) => SetWorker(s, w, Done).(numThreads := s.numThreads - 1, master := SignalCond(s.master))
    case Spurious(w) => SetWorker(s, w, Woken)
    case Poll => s.(master := Accepting)
    case Accept(sock) => s.(master := Bringing(sock), accepted := s.accepted + [sock])
    case Refuse => s.(master := Polling)
    case MLock =>
      s.(master := Seen(s.master.sock, s.stop == 0 && s.ring.head - s.ring.tail >= SIZE), owner := TheMaster)
    case MWait => s.(master := Waiting(s.master.sock), owner := Nobody)
    case MPut(v) => WakeOne(PutOne(s, s.master.sock), v).(master := Polling, owner := Nobody)
    case MSpurious => s.(master := if s.master.Waiting? then Roused(s.master.sock) else JoinWoken)
    case Quit => s.(master := Stopping)
    case Broadcast => s.(master := Joining, workers := WakeAll(s.workers))
    case Join => s.(master := if s.numThreads > 0 then JoinAsleep else Tearing)
    case End => s.(master := Ended, stop := 2)
    case Stop => s.(stopper := Called, stop := if s.stop == 0 then 1 else s.stop)
    case Free => s.(stopper := Freed)
  }

  // ----- counting workers

  function Total(ws: seq<Worker>, weight: Worker -> nat): nat {
    if ws == [] then 0 else weight(ws[0]) + Total(ws[1..], weight)
  }

  lemma {:induction false} TotalUpdate(ws: seq<Worker>, w: nat, x: Worker, weight: Worker -> nat)
    requires w < |ws|
    ensures Total(ws[w := x], weight) + weight(ws[w]) == Total(ws, weight) + weight(x)
  {
    if w == 0 {
      assert ws[0 := x][1..] == ws[1..];
    } else {
      assert ws[w := x][1..] == ws[1..][w - 1 := x];
      TotalUpdate(ws[1..], w - 1, x, weight);
    }
  }

  lemma {:induction false} TotalSame(a: seq<Worker>, b: seq<Worker>, weight: Worker -> nat)
    requires |a| == |b| && forall w :: 0 <= w < |a| ==> weight(a[w]) == weight(b[w])
    ensures Total(a, weight) == Total(b, weight)
  {
    if a != [] { TotalSame(a[1..], b[1..], weight); }
  }

  lemma {:induction false} TotalZero(ws: seq<Worker>, weight: Worker -> nat)
    ensures Total(ws, weight) == 0 <==> forall w :: 0 <= w < |ws| ==> weight(ws[w]) == 0
  {
    if ws != [] {
      TotalZero(ws[1..], weight);
      if forall w :: 0 <= w < |ws[1..]| ==> weight(ws[1..][w]) == 0 {
        assert forall w :: 1 <= w < |ws| ==> ws[w] == ws[1..][w - 1];
      } else {
        var v :| 0 <= v < |ws[1..]| && weight(ws[1..][v]) != 0;
        assert ws[v + 1] == ws[1..][v];
      }
    }
  }

  /** Woken up and not yet back inside, or inside and about to take: sure to take a
      socket, if there still is one. */
  const Coming := (x: Worker) => if x == Woken || x == Looked(false) then 1 else 0

  const Living := (x: Worker) => if x == Done then 0 else 1

  // ----- what every reachable state satisfies

  /** The ring is a bounded FIFO: what was queued is what was taken and what waits, in
      order; and while running, what was accepted is what was queued and what the
      master still holds. */
  ghost predicate FifoInv(s: State) {
    && s.ring.Valid()
    && s.queued == s.taken + s.ring.Contents()
    && (s.stop == 0 ==> s.accepted == s.queued + Pending(s.master))
  }

  ghost predicate MutexInv(s: State) {
    && (forall w :: 0 <= w < |s.workers| ==> (s.workers[w].Looked? <==> s.owner == AWorker(w)))
    && (s.owner.AWorker? ==> s.owner.w < |s.workers|)
    && (s.master.Seen? <==> s.owner == TheMaster)
  }

  /** What a thread saw still holds while it holds the mutex. */
  ghost predicate LookInv(s: State) {
    var n := s.ring.head - s.ring.tail;
    && (forall w :: 0 <= w < |s.workers| && s.workers[w].Looked? ==>
          if s.workers[w].waits then n == 0 else s.stop == 0 ==> n > 0)
    && (s.master.Seen? ==> if s.master.waits then n == SIZE else s.stop == 0 ==> n < SIZE)
  }

  /** While running: sockets only wait beside a sleeping worker if enough workers are
      on their way to take them, and the master only sleeps while the queue is full. */
  ghost predicate WakeInv(s: State) {
    var n := s.ring.head - s.ring.tail;
    s.stop == 0 ==>
      && (SomeAsleep(s.workers) ==> n <= Total(s.workers, Coming))
      && (s.master.Waiting? ==> n == SIZE)
  }

  ghost predicate CountInv(s: State) {
    && s.numThreads == Total(s.workers, Living)
    && (s.master == JoinAsleep ==> s.numThreads > 0)
    && (s.master == Tearing || s.master == Ended ==> s.numThreads == 0)
  }

  predicate IsLate(m: Master) {
    m == Stopping || m == Joining || m == JoinAsleep || m == JoinWoken || m == Tearing || m == Ended
  }

  ghost predicate FlagInv(s: State) {
    && s.stop <= 2
    && (s.stop == 2 <==> s.master == Ended)
    && (s.stop == 0 <==> s.stopper == NotCalled)
    && (s.stopper == Freed ==> s.stop == 2)
    && (IsLate(s.master) ==> s.stop != 0)
  }

  /** Workers only leave once the server is stopping, and only serve what they took. */
  ghost predicate LeaveInv(s: State) {
    forall w :: 0 <= w < |s.workers| ==>
      && (s.workers[w] == Finishing || s.workers[w] == Done || s.workers[w] == Leaving(None) ==> s.stop != 0)
      && (s.workers[w].Busy? ==> s.workers[w].sp.Some?)
  }

  ghost predicate StopInv(s: State) {
    FlagInv(s) && LeaveInv(s)
  }

  ghost predicate Inv(s: State) {
    FifoInv(s) && MutexInv(s) && LookInv(s) && WakeInv(s) && CountInv(s) && StopInv(s)
  }

  lemma {:induction false} GrabKeepsFifo(s: State, w: nat)
    requires w < |s.workers| && FifoInv(s)
    ensures FifoInv(TakeOne(s, w))
  {
    if s.ring.head > s.ring.tail {
      TakeRemovesOldest(s.ring);
      assert s.taken + ([s.ring.Oldest()] + s.ring.Take().Contents()) ==
             (s.taken + [s.ring.Oldest()]) + s.ring.Take().Contents();
    }
  }

  lemma {:induction false} PutKeepsFifo(s: State, v: nat)
    requires Enabled(s, MPut(v)) && FifoInv(s) && LookInv(s)
    ensures FifoInv(Apply(s, MPut(v)))
  {
    if s.ring.head - s.ring.tail < SIZE {
      PutAppends(s.ring, s.master.sock);
      assert s.taken + (s.ring.Contents() + [s.master.sock]) == (s.taken + s.ring.Contents()) + [s.master.sock];
    }
  }

  lemma {:induction false} StepKeepsFifo(s: State, step: Step)
    requires Enabled(s, step) && FifoInv(s) && LookInv(s)
    ensures FifoInv(Apply(s, step))
  {
    match step
    case Grab(w) => GrabKeepsFifo(s, w);
    case MPut(v) => PutKeepsFifo(s, v);
    case _ =>
  }

  lemma {:induction false} StepKeepsMutex(s: State, step: Step)
    requires Enabled(s, step) && s.ring.Valid() && MutexInv(s)
    ensures MutexInv(Apply(s, step))
  {
  }

  lemma {:induction false} StepKeepsLook(s: State, step: Step)
    requires Enabled(s, step) && s.ring.Valid() && MutexInv(s) && LookInv(s)
    ensures LookInv(Apply(s, step))
  {
  }

  /** The worker a step may change, other than by a broadcast. */
  function Actor(step: Step): int {
    match step
    case Lock(w) => w
    case Wait(w) => w
    case Grab(w) => w
    case Return(w) => w
    case Serve(w) => w
    case Finish(w) => w
    case Spurious(w) => w
    case MPut(v) => v
    case _ => -1
  }

  lemma {:induction false} StepChangesActor(s: State, step: Step)
    requires Enabled(s, step) && s.ring.Valid() && step != Broadcast
    ensures var t, w := Apply(s, step).workers, Actor(step);
            if 0 <= w < |s.workers| then |t| == |s.workers| && t == s.workers[w := t[w]] else t == s.workers
  {
  }

  lemma {:induction false} StepKeepsCount(s: State, step: Step)
    requires Enabled(s, step) && s.ring.Valid() && MutexInv(s) && CountInv(s)
    ensures CountInv(Apply(s, step))
  {
    var t, w := Apply(s, step), Actor(step);
    if step == Broadcast {
      TotalSame(s.workers, t.workers, Living);
    } else {
      StepChangesActor(s, step);
      if 0 <= w < |s.workers| { TotalUpdate(s.workers, w, t.workers[w], Living); }
    }
  }

  lemma {:induction false} StepKeepsFlag(s: State, step: Step)
    requires Enabled(s, step) && s.ring.Valid() && FlagInv(s)
    ensures FlagInv(Apply(s, step))
    ensures s.stop != 0 ==> Apply(s, step).stop != 0
  {
  }

  lemma {:induction false} ActorMayLeave(s: State, step: Step, w: nat)
    requires Enabled(s, step) && s.ring.Valid() && LookInv(s) && LeaveInv(s) && w < |s.workers| && w == Actor(step)
    ensures var t := Apply(s, step);
            && (t.workers[w] == Finishing || t.workers[w] == Done || t.workers[w] == Leaving(None) ==> t.stop != 0)
            && (t.workers[w].Busy? ==> t.workers[w].sp.Some?)
  {
  }

  lemma {:induction false} StepKeepsStop(s: State, step: Step)
    requires Enabled(s, step) && s.ring.Valid() && MutexInv(s) && LookInv(s) && StopInv(s)
    ensures StopInv(Apply(s, step))
  {
    StepKeepsFlag(s, step);
    if step != Broadcast {
      StepChangesActor(s, step);
      var w := Actor(step);
      if 0 <= w < |s.workers| { ActorMayLeave(s, step, w); }
    }
  }

  lemma {:induction false} StepKeepsWake(s: State, step: Step)
    requires Enabled(s, step) && s.ring.Valid() && MutexInv(s) && LookInv(s) && WakeInv(s) && StopInv(s)
    ensures WakeInv(Apply(s, step))
  {
    var t, w := Apply(s, step), Actor(step);
    if step != Broadcast {
      StepChangesActor(s, step);
      if 0 <= w < |s.workers| { TotalUpdate(s.workers, w, t.workers[w], Coming); }
    }
  }

  lemma {:induction false} StepKeepsInv(s: State, step: Step)
    requires Enabled(s, step) && Inv(s)
    ensures Inv(Apply(s, step)) && |Apply(s, step).workers| == |s.workers|
  {
    StepKeepsFifo(s, step);
    StepKeepsMutex(s, step);
    StepKeepsLook(s, step);
    StepKeepsWake(s, step);
    StepKeepsCount(s, step);
    StepKeepsStop(s, step);
  }

  // ----- whole runs

  /** The steps lead from s to t. */
  ghost predicate Runs(s: State, steps: seq<Step>, t: State)
    decreases |steps|
  {
    if steps == [] then s == t
    else s.ring.Valid() && Enabled(s, steps[0]) && Runs(Apply(s, steps[0]), steps[1..], t)
  }

  lemma {:induction false} StartInv(n: nat)
    ensures Inv(Start(n))
  {
    var ws := Start(n).workers;
    AllLiving(ws);
  }

  lemma {:induction false} AllLiving(ws: seq<Worker>)
    requires forall w :: 0 <= w < |ws| ==> ws[w] == Idle
    ensures Total(ws, Living) == |ws|
  {
    if ws != [] { AllLiving(ws[1..]); }
  }

  lemma {:induction false} RunKeepsInv(s: State, steps: seq<Step>, t: State)
    requires Inv(s) && Runs(s, steps, t)
    ensures Inv(t) && |t.workers| == |s.workers|
    decreases |steps|
  {
    if steps != [] {
      StepKeepsInv(s, steps[0]);
      RunKeepsInv(Apply(s, steps[0]), steps[1..], t);
    }
  }

  /** The queue over whole runs: the indices stay bounded, and while the server is
      running the sockets handed to workers are a prefix of those accepted, in order,
      none lost and none twice. */
  lemma {:induction false} QueueIsFifo(n: nat, steps: seq<Step>, t: State)
    requires Runs(Start(n), steps, t)
    ensures t.ring.Valid() && 0 <= t.ring.tail <= 20 && t.ring.tail <= t.ring.head <= t.ring.tail + 20
    ensures t.taken <= t.queued
    ensures t.stop == 0 ==> t.taken <= t.accepted && t.accepted == t.taken + t.ring.Contents() + Pending(t.master)
    ensures forall w :: 0 <= w < |t.workers| && t.workers[w].Busy? ==> t.workers[w].sp.Some?
  {
    StartInv(n);
    RunKeepsInv(Start(n), steps, t);
  }

  /** No lost wake-up and no deadlock while running, with at least one worker. */
  lemma {:induction false} NeverAllAsleep(n: nat, steps: seq<Step>, t: State)
    requires n > 0 && Runs(Start(n), steps, t) && t.stop == 0
    ensures t.ring.Valid() && |t.workers| == n
    ensures t.owner == Nobody && SomeAsleep(t.workers) ==> |t.ring.Contents()| <= Total(t.workers, Coming)
    ensures t.master.Waiting? ==> |t.ring.Contents()| == 20
    ensures t.ring.Contents() != [] || t.master.Waiting? ==> exists w :: 0 <= w < n && t.workers[w] != Asleep
  {
    StartInv(n);
    RunKeepsInv(Start(n), steps, t);
    if forall w :: 0 <= w < n ==> t.workers[w] == Asleep {
      assert t.workers[0] == Asleep;
      TotalZero(t.workers, Coming);
    }
  }

  // ----- what workers carry

  /** Between taking a socket and being done with it. */
  predicate Carries(x: Worker, sock: Sock) {
    x == Leaving(Some(sock)) || x == Busy(Some(sock))
  }

  function Carrying(sock: Sock): Worker -> nat {
    (x: Worker) => if Carries(x, sock) then 1 else 0
  }

  /** How often the socket is in the list. */
  function Times(socks: seq<Sock>, sock: Sock): nat {
    if socks == [] then 0 else (if socks[0] == sock then 1 else 0) + Times(socks[1..], sock)
  }

  lemma {:induction false} TimesAppend(a: seq<Sock>, b: seq<Sock>, sock: Sock)
    ensures Times(a + b, sock) == Times(a, sock) + Times(b, sock)
  {
    if a == [] {
      assert a + b == b;
    } else {
      assert (a + b)[1..] == a[1..] + b;
      TimesAppend(a[1..], b, sock);
    }
  }

  lemma {:induction false} TimesOne(x: Sock, sock: Sock)
    ensures Times([x], sock) == if x == sock then 1 else 0
  {
    assert [x][1..] == [];
  }

  /** The socket has been served, or is carried by a worker, as often as it was taken out of
      the queue, unless a worker dropped it because the server is stopping. */
  ghost predicate CarryInv(s: State, sock: Sock) {
    var kept := Times(s.served, sock) + Total(s.workers, Carrying(sock));
    kept <= Times(s.taken, sock) && (s.stop == 0 ==> kept == Times(s.taken, sock))
  }

  lemma {:induction false} GrabKeepsCarry(s: State, w: nat, sock: Sock)
    requires Enabled(s, Grab(w)) && s.ring.Valid() && CarryInv(s, sock)
    ensures CarryInv(Apply(s, Grab(w)), sock)
  {
    var t := Apply(s, Grab(w));
    TotalUpdate(s.workers, w, t.workers[w], Carrying(sock));
    if s.ring.head > s.ring.tail {
      TimesAppend(s.taken, [s.ring.Oldest()], sock);
      TimesOne(s.ring.Oldest(), sock);
    }
  }

  lemma {:induction false} ServeKeepsCarry(s: State, w: nat, sock: Sock)
    requires Enabled(s, Serve(w)) && s.ring.Valid() && CarryInv(s, sock)
    ensures CarryInv(Apply(s, Serve(w)), sock)
  {
    var x := s.workers[w].sp;
    TotalUpdate(s.workers, w, Idle, Carrying(sock));
    TimesAppend(s.served, Listed(x), sock);
    if x.Some? { TimesOne(x.value, sock); }
  }

  /** Other steps take nothing and serve nothing; a worker that leaves the loop drops what it
      carries. */
  lemma {:induction false} ActorCarries(s: State, step: Step, w: nat, sock: Sock)
    requires Enabled(s, step) && s.ring.Valid() && !step.Grab? && !step.Serve? && w < |s.workers| && w == Actor(step)
    ensures var t, weight := Apply(s, step), Carrying(sock);
            && t.served == s.served && t.taken == s.taken && weight(t.workers[w]) <= weight(s.workers[w])
            && (s.stop == 0 ==> weight(t.workers[w]) == weight(s.workers[w]))
  {
  }

  lemma {:induction false} StepKeepsCarry(s: State, step: Step, sock: Sock)
    requires Enabled(s, step) && s.ring.Valid() && FlagInv(s) && CarryInv(s, sock)
    ensures CarryInv(Apply(s, step), sock)
  {
    match step
    case Grab(w) => GrabKeepsCarry(s, w, sock);
    case Serve(w) => ServeKeepsCarry(s, w, sock);
    case Broadcast => TotalSame(s.workers, Apply(s, step).workers, Carrying(sock));
    case _ => OthersKeepCarry(s, step, sock);
  }

  lemma {:induction false} OthersKeepCarry(s: State, step: Step, sock: Sock)
    requires Enabled(s, step) && s.ring.Valid() && FlagInv(s) && CarryInv(s, sock)
    requires !step.Grab? && !step.Serve? && step != Broadcast
    ensures CarryInv(Apply(s, step), sock)
  {
    var t, w := Apply(s, step), Actor(step);
    StepKeepsFlag(s, step);
    StepChangesActor(s, step);
    if 0 <= w < |s.workers| {
      ActorCarries(s, step, w, sock);
      TotalUpdate(s.workers, w, t.workers[w], Carrying(sock));
    }
  }

  lemma {:induction false} RunKeepsCarry(s: State, steps: seq<Step>, t: State, sock: Sock)
    requires Inv(s) && CarryInv(s, sock) && Runs(s, steps, t)
    ensures CarryInv(t, sock)
    decreases |steps|
  {
    if steps != [] {
      StepKeepsInv(s, steps[0]);
      StepKeepsCarry(s, steps[0], sock);
      RunKeepsCarry(Apply(s, steps[0]), steps[1..], t, sock);
    }
  }

  lemma {:induction false} StartCarry(n: nat, sock: Sock)
    ensures CarryInv(Start(n), sock)
  {
    TotalZero(Start(n).workers, Carrying(sock));
  }

  /** Over whole runs a socket is never served more often than it was taken out of the queue.
      While the server runs, as often as it was accepted, so often has it been served, is it
      carried by a worker, waits in the queue, or is with the master. */
  lemma {:induction false} SocketsAreConserved(n: nat, steps: seq<Step>, t: State, sock: Sock)
    requires Runs(Start(n), steps, t)
    ensures t.ring.Valid() && Times(t.served, sock) + Total(t.workers, Carrying(sock)) <= Times(t.taken, sock)
    ensures t.stop == 0 ==>
              Times(t.accepted, sock) == Times(t.served, sock) + Total(t.workers, Carrying(sock))
                                         + Times(t.ring.Contents(), sock) + Times(Pending(t.master), sock)
  {
    StartInv(n);
    StartCarry(n, sock);
    RunKeepsInv(Start(n), steps, t);
    RunKeepsCarry(Start(n), steps, t, sock);
    TimesAppend(t.taken, t.ring.Contents(), sock);
    TimesAppend(t.queued, Pending(t.master), sock);
  }

  /** So what a worker is busy with was accepted. */
  lemma {:induction false} BusyWithAccepted(n: nat, steps: seq<Step>, t: State, w: nat, sock: Sock)
    requires Runs(Start(n), steps, t) && t.stop == 0 && w < |t.workers| && t.workers[w] == Busy(Some(sock))
    ensures Times(t.accepted, sock) > Times(t.served, sock)
  {
    SocketsAreConserved(n, steps, t, sock);
    TotalZero(t.workers, Carrying(sock));
    assert Carrying(sock)(t.workers[w]) == 1;
  }

  // ----- every run delivers

  predicate IsWorkerStep(step: Step) {
    step.Lock? || step.Wait? || step.Grab? || step.Return? || step.Serve? || step.Finish? || step.Spurious?
  }

  function WorkerSteps(steps: seq<Step>): nat {
    if steps == [] then 0 else (if IsWorkerStep(steps[0]) then 1 else 0) + WorkerSteps(steps[1..])
  }

  /** How many steps a worker can take, beside a queued socket, before it takes one. */
  const Effort := (x: Worker) =>
    match x
    case Leaving(_) => 4
    case Busy(_) => 3
    case Asleep => 3
    case Idle => 2
    case Woken => 2
    case Looked(_) => 1
    case Finishing => 0
    case Done => 0

  ghost predicate HasWork(s: State) {
    Inv(s) && s.stop == 0 && s.ring.Contents() != []
  }

  lemma {:induction false} StepTakes(s: State, step: Step)
    requires HasWork(s) && Enabled(s, step) && step.Grab?
    ensures Apply(s, step).taken == s.taken + [s.ring.Contents()[0]]
  {
    TakeRemovesOldest(s.ring);
  }

  /** Any other step leaves the socket in the queue and, if it is a worker's, brings the
      workers closer to it. */
  lemma {:induction false} StepComesCloser(s: State, step: Step)
    requires HasWork(s) && Enabled(s, step) && !step.Grab? && !step.Stop?
    ensures var t := Apply(s, step);
            && t.stop == 0 && t.taken == s.taken && t.ring.Valid() && s.ring.Contents() <= t.ring.Contents()
            && Total(t.workers, Effort) + (if IsWorkerStep(step) then 1 else 0) <= Total(s.workers, Effort)
  {
    var t, w := Apply(s, step), Actor(step);
    StepChangesActor(s, step);
    if 0 <= w < |s.workers| { TotalUpdate(s.workers, w, t.workers[w], Effort); }
    if step.MPut? && s.ring.head - s.ring.tail < SIZE { PutAppends(s.ring, s.master.sock); }
  }

  lemma {:induction false} TakenGrows(s: State, steps: seq<Step>, t: State)
    requires Runs(s, steps, t)
    ensures s.taken <= t.taken
    decreases |steps|
  {
    if steps != [] { TakenGrows(Apply(s, steps[0]), steps[1..], t); }
  }

  /** Step k takes `sock` out of the queue, and the worker that takes it carries it; u is the
      state after it. */
  ghost predicate Delivers(s: State, steps: seq<Step>, t: State, sock: Sock, k: nat, u: State) {
    && k < |steps| && steps[k].Grab? && Runs(s, steps[..k + 1], u) && Runs(u, steps[k + 1..], t)
    && steps[k].w < |u.workers| && u.workers[steps[k].w] == Leaving(Some(sock))
    && u.taken == s.taken + [sock] <= t.taken && u.stop == 0
  }

  lemma {:induction false} DeliversNow(s: State, steps: seq<Step>, t: State)
    requires HasWork(s) && steps != [] && Runs(s, steps, t) && steps[0].Grab?
    ensures Delivers(s, steps, t, s.ring.Contents()[0], 0, Apply(s, steps[0]))
  {
    var step := steps[0];
    TakeRemovesOldest(s.ring);
    assert steps[..1] == [step] && [step][1..] == [];
    TakenGrows(Apply(s, step), steps[1..], t);
  }

  lemma {:induction false} DeliversLater(s: State, steps: seq<Step>, t: State, sock: Sock, k: nat, u: State)
    requires steps != [] && s.ring.Valid() && Enabled(s, steps[0]) && Apply(s, steps[0]).taken == s.taken
    requires Delivers(Apply(s, steps[0]), steps[1..], t, sock, k, u)
    ensures Delivers(s, steps, t, sock, k + 1, u)
  {
    assert steps[..k + 2][1..] == steps[1..][..k + 1] && steps[k + 2..] == steps[1..][k + 1..];
  }

  /** Whatever the threads do and however they are scheduled, by the time the workers have
      taken so many steps, one of them has taken the oldest queued socket and carries it. */
  lemma {:induction false} EveryRunDelivers(s: State, steps: seq<Step>, t: State) returns (k: nat, u: State)
    requires HasWork(s) && Runs(s, steps, t) && forall k :: 0 <= k < |steps| ==> !steps[k].Stop?
    requires WorkerSteps(steps) > Total(s.workers, Effort)
    ensures Delivers(s, steps, t, s.ring.Contents()[0], k, u)
    decreases |steps|
  {
    var step, s' := steps[0], Apply(s, steps[0]);
    if step.Grab? {
      DeliversNow(s, steps, t);
      k, u := 0, s';
    } else {
      StepKeepsInv(s, step);
      StepComesCloser(s, step);
      k, u := EveryRunDelivers(s', steps[1..], t);
      DeliversLater(s, steps, t, s.ring.Contents()[0], k, u);
      k := k + 1;
    }
  }

  function TurnsOf(w: nat, steps: seq<Step>): nat {
    if steps == [] then 0 else (if IsWorkerStep(steps[0]) && Actor(steps[0]) == w then 1 else 0) + TurnsOf(w, steps[1..])
  }

  lemma {:induction false} ServedGrows(s: State, steps: seq<Step>, t: State)
    requires Runs(s, steps, t)
    ensures s.served <= t.served
    decreases |steps|
  {
    if steps != [] { ServedGrows(Apply(s, steps[0]), steps[1..], t); }
  }

  lemma {:induction false} RunsOn(s: State, step: Step)
    requires Inv(s) && s.stop == 0 && Enabled(s, step) && !step.Stop?
    ensures Apply(s, step).stop == 0 && step != Broadcast
  {
  }

  /** A worker carries its socket on until it serves it, and only its own steps bring it
      closer to that. */
  lemma {:induction false} CarriesOn(s: State, step: Step, w: nat, sock: Sock)
    requires Inv(s) && s.stop == 0 && Enabled(s, step) && !step.Stop? && step != Serve(w)
    requires w < |s.workers| && Carries(s.workers[w], sock)
    ensures var t := Apply(s, step);
            && t.stop == 0 && |t.workers| == |s.workers| && Carries(t.workers[w], sock)
            && (if IsWorkerStep(step) && Actor(step) == w then t.workers[w].Busy? && s.workers[w].Leaving?
                else t.workers[w] == s.workers[w])
  {
    RunsOn(s, step);
    StepChangesActor(s, step);
  }

  /** While the server runs, a worker serves the very socket it carries: it has done so once
      it has taken two more steps of its own, or one if it has begun to. */
  lemma {:induction false} CarriedIsServed(s: State, w: nat, sock: Sock, steps: seq<Step>, t: State)
    requires Inv(s) && s.stop == 0 && Runs(s, steps, t) && forall k :: 0 <= k < |steps| ==> !steps[k].Stop?
    requires w < |s.workers| && Carries(s.workers[w], sock)
    requires TurnsOf(w, steps) >= if s.workers[w].Busy? then 1 else 2
    ensures s.served <= t.served && sock in t.served[|s.served|..]
    decreases |steps|
  {
    var step, s' := steps[0], Apply(s, steps[0]);
    ServedGrows(s, [step], s') by { assert [step][1..] == []; }
    ServedGrows(s', steps[1..], t);
    if step == Serve(w) {
      assert s'.served[|s.served|] == sock == t.served[|s.served|..][0];
    } else {
      CarriesOn(s, step, w, sock);
      StepKeepsInv(s, step);
      CarriedIsServed(s', w, sock, steps[1..], t);
      ServedLater(s.served, s'.served, t.served, sock);
    }
  }

  lemma {:induction false} ServedLater(a: seq<Sock>, b: seq<Sock>, c: seq<Sock>, sock: Sock)
    requires a <= b <= c && sock in c[|b|..]
    ensures sock in c[|a|..]
  {
    var k :| 0 <= k < |c[|b|..]| && c[|b|..][k] == sock;
    assert c[|a|..][k + |b| - |a|] == sock;
  }

  /** And until then they can: a worker can take a step, unless the master is inside, and
      then the master can. */
  lemma {:induction false} WorkersCanGoOn(s: State) returns (step: Step)
    requires HasWork(s) && |s.workers| > 0
    ensures Enabled(s, step)
    ensures if s.owner == TheMaster then step.MWait? || step.MPut? else IsWorkerStep(step) && !step.Spurious?
  {
    if s.owner == TheMaster {
      var v := if SomeAsleep(s.workers) then var w :| 0 <= w < |s.workers| && s.workers[w] == Asleep; w else 0;
      step := if s.master.waits then MWait else MPut(v);
    } else {
      var w := SomeAwake(s);
      step := match s.workers[w]
        case Looked(_) => Grab(w)
        case Busy(_) => Serve(w)
        case Leaving(_) => Return(w)
        case _ => Lock(w);
    }
  }

  /** A worker that is awake and, if one is inside, that one. */
  lemma {:induction false} SomeAwake(s: State) returns (w: nat)
    requires HasWork(s) && |s.workers| > 0 && s.owner != TheMaster
    ensures w < |s.workers| && s.workers[w] != Asleep && (s.owner == Nobody || s.owner == AWorker(w))
  {
    if s.owner.AWorker? {
      w := s.owner.w;
    } else {
      if forall v :: 0 <= v < |s.workers| ==> s.workers[v] == Asleep {
        assert s.workers[0] == Asleep;
        TotalZero(s.workers, Coming);
        assert false;
      }
      w :| w < |s.workers| && s.workers[w] != Asleep;
    }
  }

  // ----- some run delivers, unprompted

  /** Steps that happen by themselves: no new connection, no call of mg_stop, no
      spurious wake-up. */
  predicate Unprompted(step: Step) {
    !step.Accept? && !step.Stop? && !step.Spurious? && !step.MSpurious?
  }

  ghost predicate AllUnprompted(steps: seq<Step>) {
    forall k :: 0 <= k < |steps| ==> Unprompted(steps[k])
  }

  lemma {:induction false} Prepend(s: State, step: Step, steps: seq<Step>, t: State)
    requires s.ring.Valid() && Enabled(s, step) && Runs(Apply(s, step), steps, t)
    requires Unprompted(step) && AllUnprompted(steps)
    ensures Runs(s, [step] + steps, t) && AllUnprompted([step] + steps)
  {
    assert ([step] + steps)[1..] == steps;
  }

  function Distance(x: Worker): nat {
    match x
    case Looked(_) => 1
    case Idle => 2
    case Woken => 2
    case Busy(_) => 3
    case Leaving(_) => 4
    case _ => 5
  }

  /** Worker w, awake and with nobody in its way, gets to the oldest socket. */
  lemma {:induction false} DeliveredBy(s: State, w: nat) returns (steps: seq<Step>, t: State)
    requires Inv(s) && s.stop == 0 && s.ring.Contents() != [] && w < |s.workers| && s.workers[w] != Asleep
    requires s.owner == Nobody || s.owner == AWorker(w)
    ensures Runs(s, steps, t) && AllUnprompted(steps) && t.taken == s.taken + [s.ring.Contents()[0]]
    ensures w < |t.workers| && t.workers[w] == Leaving(Some(s.ring.Contents()[0]))
    decreases Distance(s.workers[w])
  {
    var step := match s.workers[w]
      case Looked(_) => Grab(w)
      case Busy(_) => Serve(w)
      case Leaving(_) => Return(w)
      case _ => Lock(w);
    assert Enabled(s, step);
    var s' := Apply(s, step);
    if step == Grab(w) {
      TakeRemovesOldest(s.ring);
      steps, t := [], s';
    } else {
      StepKeepsInv(s, step);
      steps, t := DeliveredBy(s', w);
    }
    Prepend(s, step, steps, t);
    steps := [step] + steps;
  }

  /** A queued socket is never stranded: while the server runs, the threads can by
      themselves always bring the oldest one to a worker. */
  lemma {:induction false} NeverStranded(s: State) returns (steps: seq<Step>, t: State, w: nat)
    requires Inv(s) && s.stop == 0 && s.ring.Contents() != [] && |s.workers| > 0
    ensures Runs(s, steps, t) && AllUnprompted(steps) && t.taken == s.taken + [s.ring.Contents()[0]]
    ensures w < |t.workers| && t.workers[w] == Leaving(Some(s.ring.Contents()[0]))
    decreases s.master.Seen?
  {
    if s.owner == TheMaster {
      var step := WorkersCanGoOn(s);
      var s' := Apply(s, step);
      StepKeepsInv(s, step);
      StepComesCloser(s, step);
      steps, t, w := NeverStranded(s');
      Prepend(s, step, steps, t);
      steps := [step] + steps;
    } else {
      w := SomeAwake(s);
      steps, t := DeliveredBy(s, w);
    }
  }

  // ----- shutdown

  /** num_threads counts the workers that have not finished; stop_flag goes from 0 to
      1 to 2, becomes 2 only when every worker has finished, and the context is freed
      only after that. */
  lemma {:induction false} ShutdownIsSafe(n: nat, steps: seq<Step>, t: State)
    requires Runs(Start(n), steps, t)
    ensures t.numThreads == Total(t.workers, Living) && |t.workers| == n
    ensures t.stop == 2 ==> forall w :: 0 <= w < n ==> t.workers[w] == Done
    ensures t.stopper == Freed ==> t.stop == 2
    ensures forall step :: t.ring.Valid() && Enabled(t, step) ==>
              Apply(t, step).stop == t.stop || Apply(t, step).stop == t.stop + 1 <= 2
  {
    StartInv(n);
    RunKeepsInv(Start(n), steps, t);
    TotalZero(t.workers, Living);
    if t.stop == 2 {
      forall w | 0 <= w < n ensures t.workers[w] == Done { assert Living(t.workers[w]) == 0; }
    }
    forall step | Enabled(t, step)
      ensures Apply(t, step).stop == t.stop || Apply(t, step).stop == t.stop + 1 <= 2
    {
      StopMovesUp(t, step);
    }
  }

  lemma {:induction false} StopMovesUp(s: State, step: Step)
    requires Inv(s) && Enabled(s, step)
    ensures Apply(s, step).stop == s.stop || Apply(s, step).stop == s.stop + 1 <= 2
  {
  }

  predicate AfterBroadcast(m: Master) {
    m == Joining || m == JoinAsleep || m == JoinWoken || m == Tearing || m == Ended
  }

  /** Between its look at stop_flag and its wait, or already waiting. */
  predicate IsMissed(x: Worker) {
    x == Looked(true) || x == Asleep
  }

  ghost predicate NoneMissed(s: State) {
    forall w :: 0 <= w < |s.workers| ==> !IsMissed(s.workers[w])
  }

  const Rank := (x: Worker) =>
    match x
    case Busy(_) => 6
    case Idle => 5
    case Woken => 5
    case Looked(waits) => if waits then 1 else 4
    case Leaving(_) => 3
    case Finishing => 2
    case Asleep => 0
    case Done => 0

  function MasterRank(m: Master): nat {
    match m
    case Joining => 4
    case JoinWoken => 4
    case JoinAsleep => 3
    case Tearing => 2
    case _ => 1
  }

  function Measure(s: State): nat {
    Total(s.workers, Rank) + MasterRank(s.master) + if s.stopper == Freed then 0 else 1
  }

  lemma {:induction false} NobodyMissedLater(s: State, step: Step)
    requires Inv(s) && AfterBroadcast(s.master) && Enabled(s, step) && Unprompted(step) && NoneMissed(s)
    ensures NoneMissed(Apply(s, step))
  {
    var t, w := Apply(s, step), Actor(step);
    StepChangesActor(s, step);
    if 0 <= w < |s.workers| { assert !IsMissed(t.workers[w]); }
  }

  lemma {:induction false} WorkersProgress(s: State, step: Step)
    requires Inv(s) && AfterBroadcast(s.master) && Enabled(s, step) && Unprompted(step) && IsWorkerStep(step)
    ensures var t := Apply(s, step);
            && AfterBroadcast(t.master) && t.stopper == s.stopper && MasterRank(t.master) <= MasterRank(s.master) + 1
            && Total(t.workers, Rank) + MasterRank(t.master) < Total(s.workers, Rank) + MasterRank(s.master)
  {
    var t, w := Apply(s, step), Actor(step);
    StepChangesActor(s, step);
    TotalUpdate(s.workers, w, t.workers[w], Rank);
  }

  lemma {:induction false} OthersProgress(s: State, step: Step)
    requires Inv(s) && AfterBroadcast(s.master) && Enabled(s, step) && Unprompted(step) && !IsWorkerStep(step)
    ensures AfterBroadcast(Apply(s, step).master) && Measure(Apply(s, step)) < Measure(s)
  {
  }

  lemma {:induction false} ShutdownProgresses(s: State, step: Step)
    requires Inv(s) && AfterBroadcast(s.master) && Enabled(s, step) && Unprompted(step)
    ensures AfterBroadcast(Apply(s, step).master) && Measure(Apply(s, step)) < Measure(s)
    ensures NoneMissed(s) ==> NoneMissed(Apply(s, step))
  {
    if IsWorkerStep(step) { WorkersProgress(s, step); } else { OthersProgress(s, step); }
    if NoneMissed(s) { NobodyMissedLater(s, step); }
  }

  ghost predicate Quiescent(s: State) {
    forall step :: Unprompted(step) ==> !Enabled(s, step)
  }

  /** A worker that has not finished and was not missed, or the one in its way, can go on. */
  lemma {:induction false} LivingCanGoOn(s: State, w: nat) returns (step: Step)
    requires Inv(s) && AfterBroadcast(s.master) && NoneMissed(s) && w < |s.workers| && s.workers[w] != Done
    ensures Enabled(s, step) && Unprompted(step)
  {
    var v: nat := if s.owner.AWorker? then s.owner.w else w;
    step := match s.workers[v]
      case Looked(_) => Grab(v)
      case Busy(_) => Serve(v)
      case Leaving(_) => Return(v)
      case Finishing => Finish(v)
      case _ => Lock(v);
  }

  /** When nothing is left to happen after a broadcast that missed nobody, the
      context has been freed. */
  lemma {:induction false} QuietMeansFreed(s: State)
    requires Inv(s) && AfterBroadcast(s.master) && NoneMissed(s) && Quiescent(s)
    ensures s.stopper == Freed
  {
    if w: nat :| w < |s.workers| && s.workers[w] != Done {
      var step := LivingCanGoOn(s, w);
    } else {
      TotalZero(s.workers, Living);
      assert !Enabled(s, Join) && !Enabled(s, End) && !Enabled(s, Free);
    }
  }

  lemma {:induction false} MissedStays(s: State, w: nat, step: Step)
    requires Inv(s) && AfterBroadcast(s.master) && w < |s.workers| && IsMissed(s.workers[w])
    requires Enabled(s, step) && Unprompted(step)
    ensures AfterBroadcast(Apply(s, step).master) && IsMissed(Apply(s, step).workers[w])
  {
  }

  /** A worker the broadcast has missed sleeps for ever, and everybody waits for it. */
  lemma {:induction false} MissedForEver(s: State, w: nat, steps: seq<Step>, t: State)
    requires Inv(s) && AfterBroadcast(s.master) && w < |s.workers| && IsMissed(s.workers[w])
    requires Runs(s, steps, t) && AllUnprompted(steps)
    ensures t.stopper != Freed
    decreases |steps|
  {
    if steps == [] {
      TotalZero(s.workers, Living);
      assert Living(s.workers[w]) != 0;
    } else {
      StepKeepsInv(s, steps[0]);
      assert Unprompted(steps[0]);
      MissedStays(s, w, steps[0]);
      MissedForEver(Apply(s, steps[0]), w, steps[1..], t);
    }
  }

  lemma {:induction false} RunToTheEnd(s: State) returns (steps: seq<Step>, t: State)
    requires Inv(s) && AfterBroadcast(s.master)
    ensures Runs(s, steps, t) && AllUnprompted(steps) && Quiescent(t)
    decreases Measure(s)
  {
    if Quiescent(s) {
      steps, t := [], s;
    } else {
      var step :| Unprompted(step) && Enabled(s, step);
      ShutdownProgresses(s, step);
      StepKeepsInv(s, step);
      steps, t := RunToTheEnd(Apply(s, step));
      Prepend(s, step, steps, t);
      steps := [step] + steps;
    }
  }

  lemma {:induction false} EndsFreed(s: State, steps: seq<Step>, t: State)
    requires Inv(s) && AfterBroadcast(s.master) && NoneMissed(s)
    requires Runs(s, steps, t) && AllUnprompted(steps) && Quiescent(t)
    ensures t.stopper == Freed
    decreases |steps|
  {
    if steps == [] {
      QuietMeansFreed(s);
    } else {
      assert Unprompted(steps[0]);
      ShutdownProgresses(s, steps[0]);
      StepKeepsInv(s, steps[0]);
      EndsFreed(Apply(s, steps[0]), steps[1..], t);
    }
  }

  lemma {:induction false} AlwaysEndsFreed(s: State)
    requires Inv(s) && AfterBroadcast(s.master) && NoneMissed(s)
    ensures forall steps, t :: Runs(s, steps, t) && AllUnprompted(steps) && Quiescent(t) ==> t.stopper == Freed
  {
    forall steps, t | Runs(s, steps, t) && AllUnprompted(steps) && Quiescent(t) ensures t.stopper == Freed {
      EndsFreed(s, steps, t);
    }
  }

  /** Shutdown completes exactly when the broadcast catches no worker between its
      look at stop_flag and its wait: the broadcast is sent without the mutex, so it
      can fall there, and is then lost on that worker.  (Every run without spurious
      wake-ups comes to rest, by `ShutdownProgresses`.) */
  lemma {:induction false} ShutdownCompletesExactly(s: State)
    requires Inv(s) && Enabled(s, Broadcast)
    ensures (forall steps, t ::
               Runs(Apply(s, Broadcast), steps, t) && AllUnprompted(steps) && Quiescent(t) ==> t.stopper == Freed) <==>
            (forall w :: 0 <= w < |s.workers| ==> s.workers[w] != Looked(true))
  {
    StepKeepsInv(s, Broadcast);
    var s' := Apply(s, Broadcast);
    BroadcastMisses(s);
    if NoneMissed(s') {
      AlwaysEndsFreed(s');
    } else {
      var steps, t := EndsUnfreed(s');
    }
  }

  lemma {:induction false} BroadcastMisses(s: State)
    requires Enabled(s, Broadcast) && s.ring.Valid()
    ensures NoneMissed(Apply(s, Broadcast)) <==> forall w :: 0 <= w < |s.workers| ==> s.workers[w] != Looked(true)
  {
    var t := Apply(s, Broadcast);
    if w :| 0 <= w < |s.workers| && s.workers[w] == Looked(true) { assert IsMissed(t.workers[w]); }
  }

  lemma {:induction false} EndsUnfreed(s: State) returns (steps: seq<Step>, t: State)
    requires Inv(s) && AfterBroadcast(s.master) && !NoneMissed(s)
    ensures Runs(s, steps, t) && AllUnprompted(steps) && Quiescent(t) && t.stopper != Freed
  {
    var w: nat :| w < |s.workers| && IsMissed(s.workers[w]);
    steps, t := RunToTheEnd(s);
    MissedForEver(s, w, steps, t);
  }

  lemma {:induction false} Then(s: State, steps: seq<Step>, t: State, step: Step)
    requires Runs(s, steps, t) && t.ring.Valid() && Enabled(t, step)
    ensures Runs(s, steps + [step], Apply(t, step))
    decreases |steps|
  {
    if steps == [] {
      assert [step][1..] == [] && steps + [step] == [step];
    } else {
      assert (steps + [step])[1..] == steps[1..] + [step];
      Then(Apply(s, steps[0]), steps[1..], t, step);
    }
  }

  lemma {:induction false} StopAndQuit(start: State, steps: seq<Step>, s: State) returns (more: seq<Step>, t: State)
    requires Runs(start, steps, s) && s.ring.Valid() && s.stopper == NotCalled && s.stop == 0 && s.master == Polling
    ensures Runs(start, more, t) && t.ring.Valid() && Enabled(t, Broadcast) && t.workers == s.workers
  {
    Then(start, steps, s, Stop);
    var s' := Apply(s, Stop);
    Then(start, steps + [Stop], s', Quit);
    more, t := steps + [Stop] + [Quit], Apply(s', Quit);
  }

  /** That case does arise: one worker, stopped just as it goes to sleep. */
  lemma {:induction false} BroadcastCanBeLost() returns (steps: seq<Step>, s: State)
    ensures Runs(Start(1), steps, s) && s.ring.Valid() && Enabled(s, Broadcast) && s.workers == [Looked(true)]
  {
    var s0 := Start(1);
    Then(s0, [], s0, Lock(0));
    steps, s := StopAndQuit(s0, [] + [Lock(0)], Apply(s0, Lock(0)));
  }
}
