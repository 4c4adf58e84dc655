/** From the call of mg_stop to the broadcast: whether the master gets there.  It may be in
    produce_socket, waiting for room in a full queue. */
module PoolStopping {
  import opened Options
  import opened SocketQueue
  import opened WorkerPool

  ghost predicate Stopped(s: State) {
    Inv(s) && s.stop != 0 && !AfterBroadcast(s.master)
  }

  /** Waiting for room, or holding the mutex and about to. */
  predicate WantsRoom(m: Master) {
    m.Waiting? || (m.Seen? && m.waits)
  }

  /** Will call consume_socket once more, or is inside it and will not wait: it will signal
      sq_empty. */
  predicate WillSignal(x: Worker) {
    x.Busy? || x == Idle || x == Woken || x == Looked(false)
  }

  ghost predicate NobodySignals(s: State) {
    forall w :: 0 <= w < |s.workers| ==> !WillSignal(s.workers[w])
  }

  ghost predicate Stranded(s: State) {
    WantsRoom(s.master) && NobodySignals(s)
  }

  // ----- a stranded master

  lemma {:induction false} ActorStaysSilent(s: State, step: Step, w: nat)
    requires Stopped(s) && Stranded(s) && Enabled(s, step) && Unprompted(step) && w < |s.workers| && w == Actor(step)
    ensures !WillSignal(Apply(s, step).workers[w])
  {
  }

  lemma {:induction false} StrandedStays(s: State, step: Step)
    requires Stopped(s) && Stranded(s) && Enabled(s, step) && Unprompted(step)
    ensures Stopped(Apply(s, step)) && Stranded(Apply(s, step))
  {
    StepKeepsInv(s, step);
    StepKeepsFlag(s, step);
    MasterStays(s, step);
    StepChangesActor(s, step);
    var w := Actor(step);
    if 0 <= w < |s.workers| { ActorStaysSilent(s, step, w); }
  }

  lemma {:induction false} MasterStays(s: State, step: Step)
    requires Stopped(s) && Stranded(s) && Enabled(s, step) && Unprompted(step)
    ensures WantsRoom(Apply(s, step).master) && step != Broadcast
    ensures Apply(s, step).master == s.master || (s.master.Seen? && Apply(s, step).master.Waiting?)
  {
  }

  /** Whoever is left can only finish. */
  function Remaining(s: State): nat {
    Total(s.workers, Rank) + if s.master.Seen? then 1 else 0
  }

  lemma {:induction false} StrandedProgresses(s: State, step: Step)
    requires Stopped(s) && Stranded(s) && Enabled(s, step) && Unprompted(step)
    ensures Remaining(Apply(s, step)) < Remaining(s)
  {
    var t, w := Apply(s, step), Actor(step);
    MasterStays(s, step);
    StepChangesActor(s, step);
    if 0 <= w < |s.workers| { TotalUpdate(s.workers, w, t.workers[w], Rank); }
  }

  lemma {:induction false} RestsStranded(s: State) returns (steps: seq<Step>, t: State)
    requires Stopped(s) && Stranded(s)
    ensures Runs(s, steps, t) && AllUnprompted(steps) && Quiescent(t) && !AfterBroadcast(t.master)
    decreases Remaining(s)
  {
    if Quiescent(s) {
      steps, t := [], s;
    } else {
      var step :| Unprompted(step) && Enabled(s, step);
      StrandedStays(s, step);
      StrandedProgresses(s, step);
      steps, t := RestsStranded(Apply(s, step));
      Prepend(s, step, steps, t);
      steps := [step] + steps;
    }
  }

  // ----- a master that is not stranded

  /** The worker that would signal still will, or has. */
  lemma {:induction false} NotStrandedStays(s: State, step: Step)
    requires Stopped(s) && !Stranded(s) && Enabled(s, step) && Unprompted(step)
    ensures var t := Apply(s, step); AfterBroadcast(t.master) || (Stopped(t) && !Stranded(t))
  {
    StepKeepsInv(s, step);
    StepKeepsFlag(s, step);
    var t := Apply(s, step);
    if WantsRoom(t.master) {
      WantedRoom(s, step);
      var w :| 0 <= w < |s.workers| && WillSignal(s.workers[w]);
      SignalsLater(s, step, w);
    }
  }

  lemma {:induction false} WantedRoom(s: State, step: Step)
    requires Stopped(s) && Enabled(s, step) && Unprompted(step) && WantsRoom(Apply(s, step).master)
    ensures WantsRoom(s.master) && !step.Grab?
  {
  }

  lemma {:induction false} SignalsLater(s: State, step: Step, w: nat)
    requires Stopped(s) && Enabled(s, step) && Unprompted(step) && !step.Grab? && WantsRoom(s.master)
    requires w < |s.workers| && WillSignal(s.workers[w])
    ensures |Apply(s, step).workers| == |s.workers| && WillSignal(Apply(s, step).workers[w])
  {
    StepChangesActor(s, step);
  }

  /** At rest, such a master has sent the broadcast. */
  lemma {:induction false} SomethingToDo(s: State) returns (step: Step)
    requires Stopped(s) && !Stranded(s)
    ensures Enabled(s, step) && Unprompted(step)
  {
    if s.owner.AWorker? {
      var v := s.owner.w;
      step := if s.workers[v] == Looked(true) then Wait(v) else Grab(v);
    } else if s.master.Waiting? {
      var w :| 0 <= w < |s.workers| && WillSignal(s.workers[w]);
      step := if s.workers[w].Busy? then Serve(w) else Lock(w);
    } else {
      step := MasterCanGoOn(s);
    }
  }

  lemma {:induction false} MasterCanGoOn(s: State) returns (step: Step)
    requires Stopped(s) && !s.owner.AWorker? && !s.master.Waiting?
    ensures Enabled(s, step) && Unprompted(step)
  {
    var v: nat := if SomeAsleep(s.workers) then var w :| 0 <= w < |s.workers| && s.workers[w] == Asleep; w else 0;
    step := match s.master
      case Polling => Quit
      case Accepting => Refuse
      case Seen(_, waits) => if waits then MWait else MPut(v)
      case Stopping => Broadcast
      case _ => MLock;
  }

  lemma {:induction false} RestsBehindBroadcast(s: State, steps: seq<Step>, t: State)
    requires Inv(s) && s.stop != 0 && (AfterBroadcast(s.master) || !Stranded(s))
    requires Runs(s, steps, t) && AllUnprompted(steps) && Quiescent(t)
    ensures AfterBroadcast(t.master)
    decreases |steps|
  {
    if steps == [] {
      if !AfterBroadcast(s.master) { var step := SomethingToDo(s); }
    } else {
      var step := steps[0];
      assert Unprompted(step);
      StepKeepsInv(s, step);
      StepKeepsFlag(s, step);
      if AfterBroadcast(s.master) { ShutdownProgresses(s, step); } else { NotStrandedStays(s, step); }
      RestsBehindBroadcast(Apply(s, step), steps[1..], t);
    }
  }

  /** Once the server has been told to stop, the master gets to its broadcast exactly when it
      is not waiting for room in the queue with no worker left that would signal it.  The
      workers signal sq_empty in consume_socket even when stopping, but one that reads
      stop_flag on its way out of it never calls it again. */
  lemma {:induction false} BroadcastIsReachedExactly(s: State)
    requires Stopped(s)
    ensures (forall steps, t :: Runs(s, steps, t) && AllUnprompted(steps) && Quiescent(t) ==> AfterBroadcast(t.master)) <==>
            !(WantsRoom(s.master) && forall w :: 0 <= w < |s.workers| ==> !WillSignal(s.workers[w]))
  {
    if Stranded(s) {
      var steps, t := RestsStranded(s);
    } else {
      forall steps, t | Runs(s, steps, t) && AllUnprompted(steps) && Quiescent(t) ensures AfterBroadcast(t.master) {
        RestsBehindBroadcast(s, steps, t);
      }
    }
  }

  // ----- every run comes to rest

  function EarlyRank(m: Master): nat {
    match m
    case Stopping => 0
    case Polling => 1
    case Accepting => 2
    case Seen(_, waits) => if waits then 9 else 7
    case _ => 8
  }

  /** A broadcast may bring every worker that sleeps back for one more turn. */
  function StoppingMeasure(s: State): nat {
    if AfterBroadcast(s.master) then Measure(s)
    else Total(s.workers, Rank) + 5 * |s.workers| + 5 + EarlyRank(s.master) + if s.stopper == Freed then 0 else 1
  }

  lemma {:induction false} WakeAllRank(ws: seq<Worker>)
    ensures Total(WakeAll(ws), Rank) <= Total(ws, Rank) + 5 * |ws|
  {
    if ws != [] {
      assert WakeAll(ws)[1..] == WakeAll(ws[1..]);
      WakeAllRank(ws[1..]);
    }
  }

  /** What the step changes in the ranks of its worker and the master. */
  lemma {:induction false} RanksFall(s: State, step: Step)
    requires Stopped(s) && Enabled(s, step) && Unprompted(step) && step != Broadcast
    ensures var t, w := Apply(s, step), Actor(step);
            && !AfterBroadcast(t.master) && t.stopper == s.stopper && |t.workers| == |s.workers|
            && if 0 <= w < |s.workers| then Rank(t.workers[w]) + EarlyRank(t.master) < Rank(s.workers[w]) + EarlyRank(s.master)
               else EarlyRank(t.master) < EarlyRank(s.master)
  {
  }

  lemma {:induction false} EarlyProgress(s: State, step: Step)
    requires Stopped(s) && Enabled(s, step) && Unprompted(step) && step != Broadcast
    ensures var t := Apply(s, step);
            && !AfterBroadcast(t.master) && t.stopper == s.stopper && |t.workers| == |s.workers|
            && Total(t.workers, Rank) + EarlyRank(t.master) < Total(s.workers, Rank) + EarlyRank(s.master)
  {
    var t, w := Apply(s, step), Actor(step);
    RanksFall(s, step);
    StepChangesActor(s, step);
    if 0 <= w < |s.workers| { TotalUpdate(s.workers, w, t.workers[w], Rank); }
  }

  /** Once the server has been told to stop, only boundedly many unprompted steps are left. */
  lemma {:induction false} StoppingProgresses(s: State, step: Step)
    requires Inv(s) && s.stop != 0 && Enabled(s, step) && Unprompted(step)
    ensures StoppingMeasure(Apply(s, step)) < StoppingMeasure(s)
  {
    if AfterBroadcast(s.master) {
      ShutdownProgresses(s, step);
    } else if step == Broadcast {
      WakeAllRank(s.workers);
    } else {
      EarlyProgress(s, step);
    }
  }

  lemma {:induction false} RunIsBounded(s: State, steps: seq<Step>, t: State)
    requires Inv(s) && s.stop != 0 && Runs(s, steps, t) && AllUnprompted(steps)
    ensures |steps| + StoppingMeasure(t) <= StoppingMeasure(s)
    decreases |steps|
  {
    if steps != [] {
      assert Unprompted(steps[0]);
      StoppingProgresses(s, steps[0]);
      StepKeepsInv(s, steps[0]);
      StepKeepsFlag(s, steps[0]);
      RunIsBounded(Apply(s, steps[0]), steps[1..], t);
    }
  }

  // ----- a run that strands the master

  /** One worker, awake, outside and at x; c sockets wait. */
  ghost predicate Ready(s: State, x: Worker, c: int) {
    && s.ring.Valid() && s.ring.head - s.ring.tail == c
    && s.stop == 0 && s.stopper == NotCalled && s.master == Polling && s.owner == Nobody
    && s.workers == [x] && x != Asleep
  }

  lemma {:induction false} AcceptOne(start: State, steps: seq<Step>, s: State, x: Worker, c: int, sock: Sock)
    returns (more: seq<Step>, t: State)
    requires Runs(start, steps, s) && Ready(s, x, c) && c < 20
    ensures Runs(start, more, t) && Ready(t, x, c + 1)
  {
    var more1, s1 := AcceptAndLook(start, steps, s, x, c, sock);
    Then(start, more1, s1, MPut(0));
    more, t := more1 + [MPut(0)], Apply(s1, MPut(0));
  }

  /** The master accepts a socket and looks for room in the queue. */
  lemma {:induction false} AcceptAndLook(start: State, steps: seq<Step>, s: State, x: Worker, c: int, sock: Sock)
    returns (more: seq<Step>, t: State)
    requires Runs(start, steps, s) && Ready(s, x, c) && c <= 20
    ensures Runs(start, more, t) && t.ring == s.ring && t.stop == 0 && t.stopper == NotCalled && t.workers == s.workers
    ensures t.ring.Valid() && t.master == Seen(sock, c == 20)
  {
    Then(start, steps, s, Poll);
    var s1 := Apply(s, Poll);
    Then(start, steps + [Poll], s1, Accept(sock));
    var s2 := Apply(s1, Accept(sock));
    Then(start, steps + [Poll] + [Accept(sock)], s2, MLock);
    more, t := steps + [Poll] + [Accept(sock)] + [MLock], Apply(s2, MLock);
  }

  lemma {:induction false} FillUp(start: State, steps: seq<Step>, s: State, x: Worker, c: int) returns (more: seq<Step>, t: State)
    requires Runs(start, steps, s) && Ready(s, x, c) && c <= 20
    ensures Runs(start, more, t) && Ready(t, x, 20)
    decreases 20 - c
  {
    more, t := steps, s;
    if c < 20 {
      more, t := AcceptOne(start, steps, s, x, c, 0);
      more, t := FillUp(start, more, t, x, c + 1);
    }
  }

  /** The worker takes the one socket that waits and is about to read stop_flag. */
  lemma {:induction false} TakeFirst(start: State, steps: seq<Step>, s: State) returns (more: seq<Step>, t: State, x: Worker)
    requires Runs(start, steps, s) && Ready(s, Idle, 1)
    ensures Runs(start, more, t) && Ready(t, x, 0) && x.Leaving?
  {
    Then(start, steps, s, Lock(0));
    var s1 := Apply(s, Lock(0));
    Then(start, steps + [Lock(0)], s1, Grab(0));
    more, t := steps + [Lock(0)] + [Grab(0)], Apply(s1, Grab(0));
    x := t.workers[0];
  }

  /** That case does arise: one worker has taken a socket, the queue fills up behind it, and
      the master looks for room for one more just before the server is told to stop. From
      there on, nothing the threads do by themselves frees the context. */
  lemma {:induction false} MasterCanBeStranded() returns (steps: seq<Step>, s: State)
    ensures Runs(Start(1), steps, s) && Stopped(s) && s.stop == 1 && Stranded(s)
  {
    var start := Start(1);
    var steps1, s1 := AcceptOne(start, [], start, Idle, 0, 0);
    var steps2, s2, x := TakeFirst(start, steps1, s1);
    var steps3, s3 := FillUp(start, steps2, s2, x, 0);
    var steps4, s4 := AcceptAndLook(start, steps3, s3, x, 20, 0);
    steps, s := StopThere(start, steps4, s4);
    StartInv(1);
    RunKeepsInv(start, steps, s);
  }

  lemma {:induction false} StopThere(start: State, steps: seq<Step>, s: State) returns (more: seq<Step>, t: State)
    requires Runs(start, steps, s) && s.ring.Valid() && s.stop == 0 && s.stopper == NotCalled
    requires WantsRoom(s.master) && |s.workers| == 1 && s.workers[0].Leaving?
    ensures Runs(start, more, t) && t.stop == 1 && !AfterBroadcast(t.master) && Stranded(t)
  {
    Then(start, steps, s, Stop);
    more, t := steps + [Stop], Apply(s, Stop);
  }

  /** A stranded master stays so for ever, and the context is never freed. */
  lemma {:induction false} StrandedForEver(s: State, steps: seq<Step>, t: State)
    requires Stopped(s) && Stranded(s) && Runs(s, steps, t) && AllUnprompted(steps)
    ensures !AfterBroadcast(t.master) && t.stopper != Freed
    decreases |steps|
  {
    if steps != [] {
      assert Unprompted(steps[0]);
      StrandedStays(s, steps[0]);
      StrandedForEver(Apply(s, steps[0]), steps[1..], t);
    }
  }
}
