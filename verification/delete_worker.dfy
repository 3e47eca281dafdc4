// The debounced delete worker: pushers and workers share a buffer and one atomic flag. Every
// mutex section and every atomic operation is one step; a run is any interleaving of steps.
module DeleteWorker {
  import opened DeleteRoots
  import opened Text

  /// Where a thread stands, named by what it does next.
  datatype Thread =
    | Pushing(event: PendingDelete)         // append to the buffer
    | Touching                              // record the time of the push
    | Claiming                              // compare-and-swap the flag
    | Spawning                              // the flag is ours: start the worker thread
    | Polling(idlePolls: nat)               // sleep, then take the buffer if the burst is quiet
    | Flushing(batch: seq<PendingDelete>)   // coalesce and enqueue the taken batch
    | Releasing                             // clear the flag
    | Checking                              // flag cleared: look at the buffer once more
    | Reclaiming                            // something is there: compare-and-swap the flag again
    | Finished

  /// A flush may fail to enqueue the deletion of some entries.
  datatype FlushOutcome = Enqueued(fails: set<PendingDelete>) | Panicked | NoAppState

  datatype State = State(
    threads: map<nat, Thread>,
    buffer: seq<PendingDelete>,
    running: bool,
    pushed: multiset<PendingDelete>,
    flushed: multiset<PendingDelete>,
    dropped: multiset<PendingDelete>,
    jobs: set<string>,     // the paths whose deletion was enqueued
    failed: set<string>)   // the paths for which that failed

  datatype Action =
    | Arrive(thread: nat, event: PendingDelete)
    | Run(thread: nat, quiet: bool, flush: FlushOutcome, spawned: nat)

  const Initial := State(map[], [], false, multiset{}, multiset{}, multiset{}, {}, {})

  predicate Enabled(s: State, a: Action) {
    match a
    case Arrive(t, _) => t !in s.threads
    case Run(t, _, _, w) => t in s.threads && !s.threads[t].Finished? && (s.threads[t].Spawning? ==> w !in s.threads)
  }

  function Goto(s: State, t: nat, thread: Thread): State {
    s.(threads := s.threads[t := thread])
  }

  function Next(s: State, a: Action): State
    requires Enabled(s, a)
  {
    match a
    case Arrive(t, e) => Goto(s, t, Pushing(e))
    case Run(t, quiet, flush, w) =>
      match s.threads[t]
      case Pushing(e) => Goto(s, t, Touching).(buffer := s.buffer + [e], pushed := s.pushed + multiset{e})
      case Touching => Goto(s, t, Claiming)
      case Claiming => if s.running then Goto(s, t, Finished) else Goto(s, t, Spawning).(running := true)
      case Spawning => Goto(Goto(s, t, Finished), w, Polling(0))
      case Polling(idle) =>
        if quiet && s.buffer != [] then Goto(s, t, Flushing(s.buffer)).(buffer := [])
        else if idle + 1 >= 2 then Goto(s, t, Releasing)
        else Goto(s, t, Polling(idle + 1))
      case Flushing(batch) =>
        var done := Goto(s, t, Polling(0));
        if flush.Enqueued? then
          done.(flushed := s.flushed + multiset(batch),
                jobs := s.jobs + JobsOf(batch, flush.fails), failed := s.failed + FailedOf(batch, flush.fails))
        else done.(dropped := s.dropped + multiset(batch))
      case Releasing => Goto(s, t, Checking).(running := false)
      case Checking => if s.buffer == [] then Goto(s, t, Finished) else Goto(s, t, Reclaiming)
      case Reclaiming => if s.running then Goto(s, t, Finished) else Goto(s, t, Polling(0)).(running := true)
      case Finished => s
  }

  // ---- Invariants ----

  /// The threads that own the flag: the worker, and a pusher about to start one.
  predicate Owns(thread: Thread) {
    thread.Spawning? || thread.Polling? || thread.Flushing? || thread.Releasing?
  }

  /// The threads that still look at the flag or the buffer after the last push they know of.
  predicate WillLook(thread: Thread) {
    thread.Touching? || thread.Claiming? || thread.Checking? || thread.Reclaiming?
  }

  ghost predicate OneOwner(threads: map<nat, Thread>, running: bool) {
    && (forall t, u :: t in threads && u in threads && Owns(threads[t]) && Owns(threads[u]) ==> t == u)
    && (running <==> exists t :: t in threads && Owns(threads[t]))
  }

  ghost predicate NothingStranded(s: State) {
    s.buffer != [] && !s.running ==> exists t :: t in s.threads && WillLook(s.threads[t])
  }

  /// The events taken from the buffer and not yet settled.
  ghost predicate InFlight(threads: map<nat, Thread>, batch: seq<PendingDelete>) {
    (batch == [] && forall t :: t in threads ==> !threads[t].Flushing?)
    || exists t :: t in threads && threads[t] == Flushing(batch)
  }

  ghost predicate Conserved(s: State) {
    exists batch :: InFlight(s.threads, batch) &&
      s.pushed == multiset(s.buffer) + multiset(batch) + s.flushed + s.dropped
  }

  /// The deletion of every flushed path, or of a folder above it, was enqueued, or that failed.
  ghost predicate FlushedAreCovered(s: State) {
    forall e :: e in s.flushed ==> IsCovered(s.jobs + s.failed, e.rel)
  }

  ghost predicate Inv(s: State) {
    OneOwner(s.threads, s.running) && NothingStranded(s) && Conserved(s) && FlushedAreCovered(s)
  }

  lemma SameRole(threads: map<nat, Thread>, running: bool, t: nat, next: Thread)
    requires OneOwner(threads, running) && (Owns(next) <==> t in threads && Owns(threads[t]))
    ensures OneOwner(threads[t := next], running)
  {
    if u :| u in threads && Owns(threads[u]) {
      assert Owns(threads[t := next][u]);
    }
  }

  lemma TakesFlag(threads: map<nat, Thread>, t: nat, next: Thread)
    requires OneOwner(threads, false) && Owns(next)
    ensures OneOwner(threads[t := next], true)
  {
    assert Owns(threads[t := next][t]);
  }

  lemma DropsFlag(threads: map<nat, Thread>, running: bool, t: nat, next: Thread)
    requires OneOwner(threads, running) && t in threads && Owns(threads[t]) && !Owns(next)
    ensures running && OneOwner(threads[t := next], false)
  {
  }

  lemma NextKeepsOneOwner(s: State, a: Action)
    requires OneOwner(s.threads, s.running) && Enabled(s, a)
    ensures OneOwner(Next(s, a).threads, Next(s, a).running)
  {
    var t := a.thread;
    if a.Run? && s.threads[t].Claiming? && !s.running {
      TakesFlag(s.threads, t, Spawning);
    } else if a.Run? && s.threads[t].Reclaiming? && !s.running {
      TakesFlag(s.threads, t, Polling(0));
    } else if a.Run? && s.threads[t].Releasing? {
      DropsFlag(s.threads, s.running, t, Checking);
    } else if a.Run? && s.threads[t].Spawning? {
      DropsFlag(s.threads, s.running, t, Finished);
      TakesFlag(s.threads[t := Finished], a.spawned, Polling(0));
    } else {
      SameRole(s.threads, s.running, t, Next(s, a).threads[t]);
    }
  }

  lemma NextKeepsNothingStranded(s: State, a: Action)
    requires OneOwner(s.threads, s.running) && NothingStranded(s) && Enabled(s, a)
    ensures NothingStranded(Next(s, a))
  {
    var n := Next(s, a);
    assert a.thread in n.threads;
    if s.buffer != [] && !s.running {
      var t :| t in s.threads && WillLook(s.threads[t]);
      assert t in n.threads;
    }
  }

  lemma OthersInFlight(threads: map<nat, Thread>, batch: seq<PendingDelete>, t: nat, next: Thread)
    requires InFlight(threads, batch) && !next.Flushing? && (t in threads ==> !threads[t].Flushing?)
    ensures InFlight(threads[t := next], batch)
  {
    if u :| u in threads && threads[u] == Flushing(batch) {
      assert threads[t := next][u] == Flushing(batch);
    }
  }

  /// The owner that polls or flushes is the only thread that can hold a batch.
  lemma OwnerHoldsTheBatch(threads: map<nat, Thread>, running: bool, batch: seq<PendingDelete>, t: nat)
    requires OneOwner(threads, running) && InFlight(threads, batch) && t in threads && Owns(threads[t])
    ensures batch == if threads[t].Flushing? then threads[t].batch else []
    ensures forall u :: u in threads && u != t ==> !threads[u].Flushing?
  {
    assert forall u :: u in threads && threads[u].Flushing? ==> Owns(threads[u]);
  }

  lemma FlushKeepsConserved(s: State, a: Action)
    requires OneOwner(s.threads, s.running) && Conserved(s) && Enabled(s, a)
    requires a.Run? && s.threads[a.thread].Flushing?
    ensures Conserved(Next(s, a))
  {
    var n, t, batch := Next(s, a), a.thread, s.threads[a.thread].batch;
    var b :| InFlight(s.threads, b) && s.pushed == multiset(s.buffer) + multiset(b) + s.flushed + s.dropped;
    OwnerHoldsTheBatch(s.threads, s.running, b, t);
    assert InFlight(n.threads, []);
    assert n.pushed == multiset(n.buffer) + multiset([]) + n.flushed + n.dropped;
  }

  lemma PollKeepsConserved(s: State, a: Action)
    requires OneOwner(s.threads, s.running) && Conserved(s) && Enabled(s, a)
    requires a.Run? && s.threads[a.thread].Polling?
    ensures Conserved(Next(s, a))
  {
    var n, t := Next(s, a), a.thread;
    var b :| InFlight(s.threads, b) && s.pushed == multiset(s.buffer) + multiset(b) + s.flushed + s.dropped;
    OwnerHoldsTheBatch(s.threads, s.running, b, t);
    var taken := if n.threads[t].Flushing? then s.buffer else [];
    assert InFlight(n.threads, taken);
    assert n.pushed == multiset(n.buffer) + multiset(taken) + n.flushed + n.dropped;
  }

  lemma SpawnKeepsConserved(s: State, a: Action)
    requires Conserved(s) && Enabled(s, a) && a.Run? && s.threads[a.thread].Spawning?
    ensures Conserved(Next(s, a))
  {
    var n, t := Next(s, a), a.thread;
    var b :| InFlight(s.threads, b) && s.pushed == multiset(s.buffer) + multiset(b) + s.flushed + s.dropped;
    OthersInFlight(s.threads, b, t, Finished);
    OthersInFlight(s.threads[t := Finished], b, a.spawned, Polling(0));
    assert InFlight(n.threads, b);
  }

  lemma PushKeepsConserved(s: State, a: Action)
    requires Conserved(s) && Enabled(s, a) && a.Run? && s.threads[a.thread].Pushing?
    ensures Conserved(Next(s, a))
  {
    var n, t := Next(s, a), a.thread;
    var b :| InFlight(s.threads, b) && s.pushed == multiset(s.buffer) + multiset(b) + s.flushed + s.dropped;
    OthersInFlight(s.threads, b, t, Touching);
    assert multiset(n.buffer) == multiset(s.buffer) + multiset{s.threads[t].event};
    assert InFlight(n.threads, b);
  }

  /// Every other step only moves a program counter or the flag.
  lemma OtherStepsKeepConserved(s: State, a: Action)
    requires Conserved(s) && Enabled(s, a)
    requires a.Run? ==> var thread := s.threads[a.thread];
      !thread.Flushing? && !thread.Polling? && !thread.Spawning? && !thread.Pushing?
    ensures Conserved(Next(s, a))
  {
    var n, t := Next(s, a), a.thread;
    var b :| InFlight(s.threads, b) && s.pushed == multiset(s.buffer) + multiset(b) + s.flushed + s.dropped;
    assert n.(threads := s.threads, running := s.running) == s;
    OthersInFlight(s.threads, b, t, n.threads[t]);
    assert InFlight(n.threads, b);
  }

  lemma NextKeepsConserved(s: State, a: Action)
    requires OneOwner(s.threads, s.running) && Conserved(s) && Enabled(s, a)
    ensures Conserved(Next(s, a))
  {
    if a.Run? && s.threads[a.thread].Flushing? {
      FlushKeepsConserved(s, a);
    } else if a.Run? && s.threads[a.thread].Polling? {
      PollKeepsConserved(s, a);
    } else if a.Run? && s.threads[a.thread].Spawning? {
      SpawnKeepsConserved(s, a);
    } else if a.Run? && s.threads[a.thread].Pushing? {
      PushKeepsConserved(s, a);
    } else {
      OtherStepsKeepConserved(s, a);
    }
  }

  lemma NextKeepsCovered(s: State, a: Action)
    requires FlushedAreCovered(s) && Enabled(s, a)
    ensures FlushedAreCovered(Next(s, a))
  {
    var n := Next(s, a);
    forall e | e in n.flushed ensures IsCovered(n.jobs + n.failed, e.rel) {
      if e in s.flushed {
        var path :| path in s.jobs + s.failed && UnderPrefix(e.rel, path);
        assert path in n.jobs + n.failed;
      } else {
        var batch, fails := s.threads[a.thread].batch, a.flush.fails;
        FlushedIsCovered(batch, fails, e);
        var path :| path in JobsOf(batch, fails) + FailedOf(batch, fails) && UnderPrefix(e.rel, path);
        assert path in n.jobs + n.failed;
      }
    }
  }

  // ---- Whole runs ----

  function Exec(s: State, actions: seq<Action>): State {
    if actions == [] then s
    else
      var before := Exec(s, actions[..|actions| - 1]);
      var a := actions[|actions| - 1];
      if Enabled(before, a) then Next(before, a) else before
  }

  /// In every interleaving: one owner of the flag, no event lost or doubled, nothing stranded.
  lemma {:induction false} EveryRunKeepsInv(actions: seq<Action>)
    ensures Inv(Exec(Initial, actions))
  {
    if actions == [] {
      assert InFlight(Initial.threads, []);
    } else {
      var before, a := Exec(Initial, actions[..|actions| - 1]), actions[|actions| - 1];
      EveryRunKeepsInv(actions[..|actions| - 1]);
      if Enabled(before, a) {
        NextKeepsOneOwner(before, a);
        NextKeepsNothingStranded(before, a);
        NextKeepsConserved(before, a);
        NextKeepsCovered(before, a);
      }
    }
  }

  /// In every interleaving, every path ever pushed is still in the buffer or in a worker's hands, was
  /// dropped with its batch, or it or a folder above it has a delete job (unless enqueueing failed).
  lemma EveryPushedPathIsAccountedFor(actions: seq<Action>, e: PendingDelete)
    requires e in Exec(Initial, actions).pushed
    ensures var s := Exec(Initial, actions);
      || e in s.buffer || e in s.dropped || IsCovered(s.jobs + s.failed, e.rel)
      || exists t :: t in s.threads && s.threads[t].Flushing? && e in s.threads[t].batch
  {
    var s := Exec(Initial, actions);
    EveryRunKeepsInv(actions);
    var batch :| InFlight(s.threads, batch) &&
      s.pushed == multiset(s.buffer) + multiset(batch) + s.flushed + s.dropped;
    if e in batch {
      var t :| t in s.threads && s.threads[t] == Flushing(batch);
    }
  }

  /// No pusher is between its push and its claim, and none is about to start its worker.
  ghost predicate PushersDone(s: State) {
    forall t :: t in s.threads ==>
      !s.threads[t].Pushing? && !s.threads[t].Touching? && !s.threads[t].Claiming? && !s.threads[t].Spawning?
  }

  /// With no pusher before its compare-and-swap and no worker in its release window, a buffer
  /// that holds something has a live worker.
  lemma BufferedMeansLiveWorker(actions: seq<Action>)
    ensures var s := Exec(Initial, actions);
      s.buffer != [] && (forall t :: t in s.threads ==> !WillLook(s.threads[t])) ==>
      s.running && exists t :: t in s.threads && Owns(s.threads[t])
  {
    EveryRunKeepsInv(actions);
  }

  /// A batch is taken only by a poll that finds the burst quiet, and it is all that was buffered.
  lemma FlushesOnlyQuietBursts(s: State, a: Action)
    requires Enabled(s, a) && Next(s, a).threads[a.thread].Flushing?
    ensures a.Run? && a.quiet && s.threads[a.thread].Polling?
    ensures s.buffer != [] && Next(s, a).threads[a.thread].batch == s.buffer && Next(s, a).buffer == []
  {
  }

  /// A worker retires only after two polls in a row that took nothing.
  lemma RetiresAfterTwoIdlePolls(s: State, a: Action)
    requires Enabled(s, a) && a.Run? && s.threads[a.thread].Polling?
    ensures Next(s, a).threads[a.thread].Releasing? <==>
            s.threads[a.thread].idlePolls >= 1 && (!a.quiet || s.buffer == [])
    ensures !a.quiet || s.buffer == [] ==> Next(s, a).buffer == s.buffer
  {
  }

  /// `t` alone, while no further event arrives.
  function Solo(s: State, t: nat, steps: nat): State
    decreases steps
  {
    if steps == 0 then s
    else
      var a := Run(t, true, Enqueued({}), 0);
      Solo(if Enabled(s, a) then Next(s, a) else s, t, steps - 1)
  }

  /// `events` are the batch `t` holds in `s`, the buffer is empty, and its next step settles them.
  ghost predicate AboutToFlush(s: State, t: nat, events: seq<PendingDelete>) {
    && s.buffer == [] && t in s.threads && s.threads[t] == Flushing(events)
    && multiset(events) <= Solo(s, t, 1).flushed
  }

  lemma PollTakesBuffer(s: State, t: nat)
    requires t in s.threads && s.threads[t].Polling? && s.buffer != []
    ensures AboutToFlush(Solo(s, t, 1), t, s.buffer)
  {
    var next := Next(s, Run(t, true, Enqueued({}), 0));
    assert Solo(s, t, 1) == Solo(next, t, 0) == next;
    assert Solo(next, t, 1) == Solo(Next(next, Run(t, true, Enqueued({}), 0)), t, 0);
  }

  /// How many steps a worker is away from its next poll.
  function Distance(thread: Thread): nat {
    match thread
    case Polling(_) => 0
    case Flushing(_) => 1
    case Reclaiming => 1
    case Checking => 2
    case _ => 3
  }

  /// A worker anywhere in its loop, alone, reaches the buffer within four steps.
  lemma WorkerReachesBuffer(s: State, t: nat) returns (steps: nat)
    requires t in s.threads && s.buffer != []
    requires var thread := s.threads[t];
      || thread.Polling? || thread.Flushing? || thread.Releasing?
      || (!s.running && (thread.Checking? || thread.Reclaiming?))
    ensures steps <= 4 && AboutToFlush(Solo(s, t, steps), t, s.buffer)
    ensures steps <= 1 + Distance(s.threads[t])
    decreases Distance(s.threads[t])
  {
    if s.threads[t].Polling? {
      PollTakesBuffer(s, t);
      steps := 1;
    } else {
      var next := Next(s, Run(t, true, Enqueued({}), 0));
      steps := WorkerReachesBuffer(next, t);
      steps := steps + 1;
    }
  }

  /// Once every pusher is done, whatever the buffer holds is one worker's next batch: at most four
  /// of its own steps away, and the step after enqueues it.
  lemma PushedEventsGetFlushed(actions: seq<Action>) returns (t: nat, steps: nat)
    requires var s := Exec(Initial, actions); PushersDone(s) && s.buffer != []
    ensures var s := Exec(Initial, actions); steps <= 4 && AboutToFlush(Solo(s, t, steps), t, s.buffer)
  {
    var s := Exec(Initial, actions);
    EveryRunKeepsInv(actions);
    if s.running {
      t :| t in s.threads && Owns(s.threads[t]);
    } else {
      t :| t in s.threads && WillLook(s.threads[t]);
    }
    steps := WorkerReachesBuffer(s, t);
  }

  lemma SoloStep(s: State, t: nat, steps: nat)
    requires Enabled(s, Run(t, true, Enqueued({}), 0))
    ensures Solo(s, t, steps + 1) == Solo(Next(s, Run(t, true, Enqueued({}), 0)), t, steps)
  {
  }

  /// With nothing buffered a worker, alone, is through within four steps and leaves the flag clear.
  lemma {:induction false} IdleWorkerRetires(s: State, t: nat) returns (steps: nat)
    requires t in s.threads && s.buffer == []
    requires var thread := s.threads[t];
      thread.Polling? || thread.Releasing? || (thread.Checking? && !s.running)
    ensures var end := Solo(s, t, steps);
      t in end.threads && end.threads[t].Finished? && !end.running && end.buffer == []
    ensures steps <= StepsToRetire(s.threads[t]) <= 4
    decreases StepsToRetire(s.threads[t])
  {
    var next := Next(s, Run(t, true, Enqueued({}), 0));
    if next.threads[t].Finished? {
      assert Solo(next, t, 0) == next;
      steps := 0;
    } else {
      steps := IdleWorkerRetires(next, t);
    }
    SoloStep(s, t, steps);
    steps := steps + 1;
  }

  function StepsToRetire(thread: Thread): nat {
    match thread
    case Polling(idle) => if idle == 0 then 4 else 3
    case Releasing => 2
    case _ => 1
  }
}
