// Watcher batches the sync gate refused: a bounded set that holds whole batches, and the gate.
module WatcherBatches {
  import opened Common

  const PENDING_MAX: nat := 4096

  // ---- The set ----

  /// The paths of a batch that are not held yet, duplicates counted.
  function CountNew(held: set<string>, rels: seq<string>): nat {
    if rels == [] then 0 else (if rels[0] in held then 0 else 1) + CountNew(held, rels[1..])
  }

  function Elements(rels: seq<string>): set<string> {
    set rel | rel in rels
  }

  ghost predicate Distinct(rels: seq<string>) {
    forall i, j :: 0 <= i < j < |rels| ==> rels[i] != rels[j]
  }

  /// For a batch without duplicates the count is what the batch would add.
  lemma {:induction false} CountNewIsGrowth(held: set<string>, rels: seq<string>)
    requires Distinct(rels)
    ensures |held + Elements(rels)| == |held| + CountNew(held, rels)
  {
    if rels == [] {
      assert held + Elements(rels) == held;
    } else {
      var first, rest := rels[0], rels[1..];
      CountNewIsGrowth(held, rest);
      assert Elements(rels) == {first} + Elements(rest);
      assert first !in rest;
      if first in held {
        assert held + Elements(rels) == held + Elements(rest);
      } else {
        assert held + Elements(rels) == (held + Elements(rest)) + {first};
      }
    }
  }

  lemma {:induction false} CountNewBoundsGrowth(held: set<string>, rels: seq<string>)
    ensures |held + Elements(rels)| <= |held| + CountNew(held, rels)
  {
    if rels == [] {
      assert held + Elements(rels) == held;
    } else {
      CountNewBoundsGrowth(held, rels[1..]);
      var rest := held + Elements(rels[1..]);
      assert held + Elements(rels) == rest + {rels[0]};
      if rels[0] in held {
        assert rest + {rels[0]} == rest;
      }
    }
  }

  class PendingSet {
    var held: set<string>

    ghost predicate Valid() reads this {
      |held| <= PENDING_MAX
    }

    constructor ()
      ensures Valid() && held == {}
    {
      held := {};
    }

    /// Remembers a batch whole, or refuses it whole.
    method RememberDropped(rels: seq<string>) returns (accepted: bool)
      requires Valid()
      modifies this
      ensures Valid()
      ensures accepted <==> |old(held)| + CountNew(old(held), rels) <= 4096
      ensures held == if accepted then old(held) + Elements(rels) else old(held)
    {
      var newPaths := CountNew(held, rels);
      if |held| + newPaths > PENDING_MAX {
        return false;
      }
      CountNewBoundsGrowth(held, rels);
      for i := 0 to |rels|
        invariant held == old(held) + Elements(rels[..i])
      {
        held := held + {rels[i]};
        assert rels[..i + 1] == rels[..i] + [rels[i]];
      }
      assert rels[..|rels|] == rels;
      accepted := true;
    }

    /// Takes everything held, in some order, and leaves the set empty.
    method TakePending() returns (rels: seq<string>)
      requires Valid()
      modifies this
      ensures Valid() && held == {}
      ensures Distinct(rels) && Elements(rels) == old(held)
    {
      rels := [];
      ghost var all := held;
      while held != {}
        invariant Distinct(rels) && held <= all && Elements(rels) == all - held
        decreases |held|
      {
        var rel :| rel in held;
        OneMore(rels, rel);
        rels := rels + [rel];
        held := held - {rel};
      }
    }
  }

  lemma OneMore(rels: seq<string>, rel: string)
    requires Distinct(rels) && rel !in Elements(rels)
    ensures Distinct(rels + [rel]) && Elements(rels + [rel]) == Elements(rels) + {rel}
  {
    assert forall r :: r in rels ==> r in Elements(rels);
  }

  /// What a gated batch processes: its own paths first, then the deferred ones it does not name.
  method Redeliver(rels: seq<string>, deferred: seq<string>) returns (all: seq<string>)
    requires Distinct(rels) && Distinct(deferred)
    ensures rels <= all && Distinct(all) && Elements(all) == Elements(rels) + Elements(deferred)
  {
    var extra: seq<string> := [];
    for i := 0 to |deferred|
      invariant Distinct(extra) && Elements(extra) == Elements(deferred[..i]) - Elements(rels)
      invariant forall rel :: rel in extra ==> rel !in rels
    {
      assert deferred[..i + 1] == deferred[..i] + [deferred[i]];
      if deferred[i] !in rels {
        assert forall rel :: rel in extra ==> rel in Elements(extra);
        assert Elements(extra + [deferred[i]]) == Elements(extra) + {deferred[i]};
        extra := extra + [deferred[i]];
      }
    }
    assert deferred[..|deferred|] == deferred;
    all := rels + extra;
    forall i, j | 0 <= i < j < |all| ensures all[i] != all[j] {
      if i < |rels| <= j {
        assert all[j] in extra;
      }
    }
    assert Elements(all) == Elements(rels) + Elements(extra);
  }

  // ---- Batches, ticks and the gate, interleaved ----

  /// A mapped debouncer batch. The id keeps batches with the same paths apart.
  datatype Batch = Batch(id: nat, paths: set<string>)

  datatype Thread =
    | Offering(carried: set<Batch>)      // watcher: compare-and-swap the gate
    | Deferring(carried: set<Batch>)     // lost the gate: remember
    | Draining(carried: set<Batch>)      // won the gate: take what is held
    | Processing(carried: set<Batch>)    // hand the union to the pipeline
    | TickStarting                       // periodic tick: compare-and-swap the gate
    | TickDraining                       // tick won the gate: take what is held
    | TickProcessing(carried: set<Batch>)
    | PuttingBack(carried: set<Batch>)   // the tick's processing failed: remember again
    | Releasing                          // release the gate
    | Finished

  datatype State = State(
    threads: map<nat, Thread>,
    gate: bool,
    held: set<string>,
    heldBatches: set<Batch>,
    delivered: set<Batch>,
    refused: set<Batch>,
    failed: set<Batch>)  // handed over by the watcher, whose processing then failed

  /// `fits` is what the running step finds when it remembers a batch: room for its new paths or not.
  datatype Action =
    | Arrive(thread: nat, paths: set<string>)
    | Tick(thread: nat)
    | Run(thread: nat, succeeds: bool, fits: bool)

  const Initial := State(map[], false, {}, {}, {}, {}, {})

  function Paths(batches: set<Batch>): set<string> {
    set b, p | b in batches && p in b.paths :: p
  }

  function Carried(thread: Thread): set<Batch> {
    if thread.TickStarting? || thread.TickDraining? || thread.Releasing? || thread.Finished? then {} else thread.carried
  }

  predicate Possible(s: State, a: Action) {
    match a
    case Run(t, _, _) => t in s.threads && !s.threads[t].Finished?
    case _ => a.thread !in s.threads
  }

  predicate Remembers(thread: Thread) {
    thread.Deferring? || thread.PuttingBack?
  }

  /// The cap of `remember_dropped`, on the paths of the carried batches.
  predicate Fits(held: set<string>, batches: set<Batch>) {
    |held| + |Paths(batches) - held| <= PENDING_MAX
  }

  predicate Enabled(s: State, a: Action) {
    && Possible(s, a)
    && (a.Run? && Remembers(s.threads[a.thread]) ==> (a.fits <==> Fits(s.held, s.threads[a.thread].carried)))
  }

  function Goto(s: State, t: nat, thread: Thread): State {
    s.(threads := s.threads[t := thread])
  }

  /// `remember_dropped`: all of it or nothing.
  function Remember(s: State, batches: set<Batch>, fits: bool): State {
    if fits then s.(held := s.held + Paths(batches), heldBatches := s.heldBatches + batches)
    else s.(refused := s.refused + batches)
  }

  /// The step is what `PendingSet.RememberDropped` does with the paths of the batches: it takes them
  /// exactly when it has room for the new ones, and then it holds the same set.
  lemma RememberIsRememberDropped(s: State, batches: set<Batch>, rels: seq<string>)
    requires Distinct(rels) && Elements(rels) == Paths(batches)
    ensures Fits(s.held, batches) <==> |s.held| + CountNew(s.held, rels) <= PENDING_MAX
    ensures var after := Remember(s, batches, Fits(s.held, batches));
      after.held == if |s.held| + CountNew(s.held, rels) <= PENDING_MAX then s.held + Elements(rels) else s.held
  {
    CountNewIsGrowth(s.held, rels);
    assert s.held + Elements(rels) == s.held + (Paths(batches) - s.held);
  }

  function Next(s: State, a: Action): State
    requires Possible(s, a)
  {
    match a
    case Arrive(t, paths) => Goto(s, t, Offering({Batch(t, paths)}))
    case Tick(t) => Goto(s, t, TickStarting)
    case Run(t, succeeds, fits) =>
      match s.threads[t]
      case Offering(bs) => if s.gate then Goto(s, t, Deferring(bs)) else Goto(s, t, Draining(bs)).(gate := true)
      case Deferring(bs) => Goto(Remember(s, bs, fits), t, Finished)
      case Draining(bs) => Goto(s, t, Processing(bs + s.heldBatches)).(held := {}, heldBatches := {})
      case Processing(bs) =>
        if succeeds then Goto(s, t, Releasing).(delivered := s.delivered + bs)
        else Goto(s, t, Releasing).(failed := s.failed + bs)
      case TickStarting => if s.gate then Goto(s, t, Finished) else Goto(s, t, TickDraining).(gate := true)
      case TickDraining => Goto(s, t, TickProcessing(s.heldBatches)).(held := {}, heldBatches := {})
      case TickProcessing(bs) =>
        if succeeds then Goto(s, t, Releasing).(delivered := s.delivered + bs) else Goto(s, t, PuttingBack(bs))
      case PuttingBack(bs) => Goto(Remember(s, bs, fits), t, Releasing)
      case Releasing => Goto(s, t, Finished).(gate := false)
      case Finished => s
  }

  predicate Owns(thread: Thread) {
    thread.Draining? || thread.Processing? || thread.TickDraining? || thread.TickProcessing?
    || thread.PuttingBack? || thread.Releasing?
  }

  ghost predicate OneOwner(threads: map<nat, Thread>, gate: bool) {
    && (forall t, u :: t in threads && u in threads && Owns(threads[t]) && Owns(threads[u]) ==> t == u)
    && (gate <==> exists t :: t in threads && Owns(threads[t]))
  }

  /// The held set is the union of the batches it was given whole since it was last drained.
  ghost predicate HoldsWholeBatches(s: State) {
    s.held == Paths(s.heldBatches) && |s.held| <= PENDING_MAX
  }

  ghost predicate InFlight(threads: map<nat, Thread>, b: Batch) {
    exists t :: t in threads && b in Carried(threads[t])
  }

  ghost predicate Accounted(s: State, b: Batch) {
    b in s.heldBatches || b in s.delivered || b in s.refused || b in s.failed || InFlight(s.threads, b)
  }

  /// How one step moves one thread with respect to the gate: it takes it, drops it or keeps its role.
  ghost predicate GateStep(before: Option<Thread>, gate: bool, after: Thread, gateAfter: bool) {
    var owned := before.Some? && Owns(before.value);
    if !gate && gateAfter then Owns(after)
    else if owned && !Owns(after) then !gateAfter
    else gate == gateAfter && (Owns(after) <==> owned)
  }

  lemma StepIsGateStep(s: State, a: Action)
    requires Possible(s, a) && (a.Run? && Owns(s.threads[a.thread]) ==> s.gate)
    ensures var n, t := Next(s, a), a.thread;
      n.threads == s.threads[t := n.threads[t]] &&
      GateStep(if t in s.threads then Some(s.threads[t]) else None, s.gate, n.threads[t], n.gate)
  {
  }

  lemma GateStepKeepsOneOwner(threads: map<nat, Thread>, gate: bool, t: nat, after: Thread, gateAfter: bool)
    requires OneOwner(threads, gate)
    requires GateStep(if t in threads then Some(threads[t]) else None, gate, after, gateAfter)
    ensures OneOwner(threads[t := after], gateAfter)
  {
    var next := threads[t := after];
    if Owns(after) {
      assert Owns(next[t]);
    }
    if u :| u in threads && Owns(threads[u]) {
      assert u == t || next[u] == threads[u];
    }
  }

  lemma NextKeepsOneOwner(s: State, a: Action)
    requires OneOwner(s.threads, s.gate) && Possible(s, a)
    ensures OneOwner(Next(s, a).threads, Next(s, a).gate)
  {
    StepIsGateStep(s, a);
    GateStepKeepsOneOwner(s.threads, s.gate, a.thread, Next(s, a).threads[a.thread], Next(s, a).gate);
  }

  lemma RememberHoldsWholeBatches(s: State, bs: set<Batch>, fits: bool)
    requires HoldsWholeBatches(s) && (fits <==> Fits(s.held, bs))
    ensures HoldsWholeBatches(Remember(s, bs, fits))
  {
    assert Paths(s.heldBatches + bs) == Paths(s.heldBatches) + Paths(bs);
    assert s.held + Paths(bs) == s.held + (Paths(bs) - s.held);
  }

  /// What a step does to the set.
  lemma StepOnSet(s: State, a: Action)
    requires Possible(s, a)
    ensures var n := Next(s, a);
      if a.Run? && Remembers(s.threads[a.thread]) then
        var r := Remember(s, s.threads[a.thread].carried, a.fits); n.held == r.held && n.heldBatches == r.heldBatches
      else (n.held == s.held && n.heldBatches == s.heldBatches) || (n.held == {} && n.heldBatches == {})
  {
  }

  lemma NextHoldsWholeBatches(s: State, a: Action)
    requires HoldsWholeBatches(s) && Enabled(s, a)
    ensures HoldsWholeBatches(Next(s, a))
  {
    StepOnSet(s, a);
    if a.Run? && Remembers(s.threads[a.thread]) {
      RememberHoldsWholeBatches(s, s.threads[a.thread].carried, a.fits);
    } else {
      assert Paths({}) == {};
    }
  }

  lemma RememberAccounts(s: State, bs: set<Batch>, fits: bool, b: Batch)
    requires b in s.heldBatches || b in s.delivered || b in s.refused || b in s.failed || b in bs
    ensures var n := Remember(s, bs, fits);
      n.threads == s.threads && (b in n.heldBatches || b in n.delivered || b in n.refused || b in n.failed)
  {
  }

  /// A batch that is not in another thread's hands is, after the step, settled, held or carried on.
  lemma StepAccounts(s: State, a: Action, b: Batch)
    requires Possible(s, a)
    requires b in s.heldBatches || b in s.delivered || b in s.refused || b in s.failed
      || (a.Run? && b in Carried(s.threads[a.thread])) || (a.Arrive? && b == Batch(a.thread, a.paths))
    ensures var n := Next(s, a);
      b in n.heldBatches || b in n.delivered || b in n.refused || b in n.failed || b in Carried(n.threads[a.thread])
  {
    if a.Run? {
      match s.threads[a.thread]
      case Deferring(bs) => RememberAccounts(s, bs, a.fits, b);
      case PuttingBack(bs) => RememberAccounts(s, bs, a.fits, b);
      case _ =>
    }
  }

  lemma OthersKeepTheirs(s: State, a: Action, u: nat)
    requires Possible(s, a) && u in s.threads && u != a.thread
    ensures u in Next(s, a).threads && Next(s, a).threads[u] == s.threads[u]
  {
  }

  lemma NextAccounts(s: State, a: Action, b: Batch)
    requires Possible(s, a) && (Accounted(s, b) || (a.Arrive? && b == Batch(a.thread, a.paths)))
    ensures Accounted(Next(s, a), b)
  {
    if u :| u in s.threads && b in Carried(s.threads[u]) && (u != a.thread || a.Arrive?) {
      OthersKeepTheirs(s, a, u);
    } else {
      StepAccounts(s, a, b);
    }
  }

  // ---- Whole runs ----

  function Exec(s: State, actions: seq<Action>): State {
    if actions == [] then s
    else
      var before := Exec(s, actions[..|actions| - 1]);
      var a := actions[|actions| - 1];
      if Enabled(before, a) then Next(before, a) else before
  }

  /// The batches that arrived: an arrival on a fresh thread is one.
  function Arrived(actions: seq<Action>): set<Batch> {
    if actions == [] then {}
    else
      var sofar, a := actions[..|actions| - 1], actions[|actions| - 1];
      if a.Arrive? && Enabled(Exec(Initial, sofar), a) then Arrived(sofar) + {Batch(a.thread, a.paths)}
      else Arrived(sofar)
  }

  /// In every interleaving: one gated worker at most, the held set bounded and made of whole
  /// batches, and every batch that arrived held, delivered, in flight, refused whole or failed.
  lemma {:induction false} EveryRunAccountsForBatches(actions: seq<Action>)
    ensures var s := Exec(Initial, actions);
      OneOwner(s.threads, s.gate) && HoldsWholeBatches(s) && forall b :: b in Arrived(actions) ==> Accounted(s, b)
  {
    if actions != [] {
      var sofar, a := actions[..|actions| - 1], actions[|actions| - 1];
      var before := Exec(Initial, sofar);
      EveryRunAccountsForBatches(sofar);
      if Enabled(before, a) {
        NextKeepsOneOwner(before, a);
        NextHoldsWholeBatches(before, a);
        forall b | b in Arrived(actions) ensures Accounted(Next(before, a), b) {
          NextAccounts(before, a, b);
        }
      }
    }
  }

  // ---- What becomes of a batch, and why ----

  /// The thread that lost the gate, or whose tick failed, finds no room for the paths it would remember.
  ghost predicate Refuses(s: State, a: Action, b: Batch) {
    && Enabled(s, a) && a.Run? && (s.threads[a.thread].Deferring? || s.threads[a.thread].PuttingBack?)
    && b in s.threads[a.thread].carried && |s.held| + |Paths(s.threads[a.thread].carried) - s.held| > 4096
  }

  /// The thread that owns the gate hands the batch to the pipeline, which does its work.
  ghost predicate Delivers(s: State, a: Action, b: Batch) {
    && Enabled(s, a) && a.Run? && a.succeeds
    && (s.threads[a.thread].Processing? || s.threads[a.thread].TickProcessing?) && b in s.threads[a.thread].carried
  }

  /// A watcher thread hands the batch to the pipeline, which fails; it is not remembered again.
  ghost predicate Loses(s: State, a: Action, b: Batch) {
    && Enabled(s, a) && a.Run? && !a.succeeds
    && s.threads[a.thread].Processing? && b in s.threads[a.thread].carried
  }

  lemma StepHasCause(s: State, a: Action, b: Batch)
    requires Enabled(s, a)
    ensures var n := Next(s, a);
      && (b in n.refused ==> b in s.refused || Refuses(s, a, b))
      && (b in n.delivered ==> b in s.delivered || Delivers(s, a, b))
      && (b in n.failed ==> b in s.failed || Loses(s, a, b))
  {
  }

  /// A batch is refused only where it does not fit, delivered only by processing that worked under the
  /// gate, and lost only by the processing of a watcher thread that failed, never by a failing tick.
  lemma {:induction false} EverythingHasACause(actions: seq<Action>, b: Batch)
    ensures var s := Exec(Initial, actions);
      && (b in s.refused ==> exists n :: 0 <= n < |actions| && Refuses(Exec(Initial, actions[..n]), actions[n], b))
      && (b in s.delivered ==> exists n :: 0 <= n < |actions| && Delivers(Exec(Initial, actions[..n]), actions[n], b))
      && (b in s.failed ==> exists n :: 0 <= n < |actions| && Loses(Exec(Initial, actions[..n]), actions[n], b))
  {
    if actions != [] {
      var last := |actions| - 1;
      var sofar := actions[..last];
      var before := Exec(Initial, sofar);
      EverythingHasACause(sofar, b);
      assert forall n :: 0 <= n < last ==> sofar[..n] == actions[..n] && sofar[n] == actions[n];
      if Enabled(before, actions[last]) {
        StepHasCause(before, actions[last], b);
      }
    }
  }

  /// A batch is put off only while another thread has the gate, and a batch that comes through takes all
  /// that was put off with it.
  lemma OfferMeetsTheGate(s: State, a: Action)
    requires Enabled(s, a) && a.Run? && s.threads[a.thread].Offering?
    ensures var n := Next(s, a);
      && n.refused == s.refused && n.threads[a.thread].Deferring? == s.gate
      && Carried(n.threads[a.thread]) == Carried(s.threads[a.thread])
  {
  }

  lemma DrainTakesEverything(s: State, a: Action)
    requires Enabled(s, a) && a.Run? && (s.threads[a.thread].Draining? || s.threads[a.thread].TickDraining?)
    ensures var n := Next(s, a);
      && n.held == {} && Carried(n.threads[a.thread]) == Carried(s.threads[a.thread]) + s.heldBatches
      && (n.threads[a.thread].Processing? || n.threads[a.thread].TickProcessing?)
  {
  }

  /// `t` alone, its processing working as `succeeds` says, with room for what it puts back.
  function Solo(s: State, t: nat, succeeds: bool, steps: nat): State
    decreases steps
  {
    if steps == 0 then s
    else
      var a := Run(t, succeeds, true);
      Solo(if Possible(s, a) then Next(s, a) else s, t, succeeds, steps - 1)
  }

  lemma SoloStep(s: State, t: nat, succeeds: bool, steps: nat)
    requires Possible(s, Run(t, succeeds, true))
    ensures Solo(s, t, succeeds, steps + 1) == Solo(Next(s, Run(t, succeeds, true)), t, succeeds, steps)
  {
  }

  /// A thread that finds the gate free delivers its own batch with all that was put off, and frees the
  /// gate, in four of its own steps.
  lemma WinnerDeliversEverything(s: State, t: nat)
    requires t in s.threads && (s.threads[t].Offering? || s.threads[t].TickStarting?) && !s.gate
    ensures var end := Solo(s, t, true, 4);
      && end.delivered == s.delivered + Carried(s.threads[t]) + s.heldBatches
      && end.held == {} && end.heldBatches == {} && !end.gate && t in end.threads && end.threads[t].Finished?
  {
    var a := Run(t, true, true);
    var s1 := Next(s, a);
    var s2 := Next(s1, a);
    var s3 := Next(s2, a);
    SoloStep(s, t, true, 3);
    SoloStep(s1, t, true, 2);
    SoloStep(s2, t, true, 1);
    SoloStep(s3, t, true, 0);
  }

  /// A tick whose processing fails puts back all that it took, if there is room, and frees the gate.
  lemma FailingTickPutsBack(s: State, t: nat)
    requires t in s.threads && s.threads[t].TickStarting? && !s.gate && HoldsWholeBatches(s)
    ensures var end := Solo(s, t, false, 5);
      && end.held == s.held && end.heldBatches == s.heldBatches && end.delivered == s.delivered
      && end.refused == s.refused && end.failed == s.failed && !end.gate
      && t in end.threads && end.threads[t].Finished?
  {
    var a := Run(t, false, true);
    var s1 := Next(s, a);
    var s2 := Next(s1, a);
    var s3 := Next(s2, a);
    var s4 := Next(s3, a);
    SoloStep(s, t, false, 4);
    SoloStep(s1, t, false, 3);
    SoloStep(s2, t, false, 2);
    SoloStep(s3, t, false, 1);
    SoloStep(s4, t, false, 0);
    assert {} + Paths(s.heldBatches) == s.held && {} + s.heldBatches == s.heldBatches;
  }
}
