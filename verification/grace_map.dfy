// The materialization grace window: a pruned map that answers like the full log of arms.
module GraceMap {
  import opened Text

  /// One call that armed `prefix` at time `at` (milliseconds of a monotone clock).
  datatype Arm = Arm(prefix: string, at: nat)

  const GRACE_WINDOW: nat := 120_000

  /// An arm later than `now` counts as within the window.
  predicate InWindow(at: nat, now: nat) {
    now < at || now - at < GRACE_WINDOW
  }

  predicate GraceContains(armed: map<string, nat>, rel: string, now: nat) {
    exists prefix :: prefix in armed && InWindow(armed[prefix], now) && UnderPrefix(rel, prefix)
  }

  /// The answer of the whole history: some arm covers `rel` and is younger than the window.
  ghost predicate LogContains(log: seq<Arm>, rel: string, now: nat) {
    exists arm :: arm in log && now - arm.at < GRACE_WINDOW && UnderPrefix(rel, arm.prefix)
  }

  function Pruned(armed: map<string, nat>, now: nat): map<string, nat> {
    map prefix | prefix in armed && InWindow(armed[prefix], now) :: armed[prefix]
  }

  function Armed(armed: map<string, nat>, prefix: string, now: nat): map<string, nat> {
    Pruned(armed, now)[prefix := now]
  }

  /// The map keeps the youngest arm of each prefix, and forgets a prefix only once it is too old.
  ghost predicate Refines(armed: map<string, nat>, log: seq<Arm>, clock: nat) {
    && (forall arm :: arm in log ==> arm.at <= clock)
    && (forall prefix :: prefix in armed ==> Arm(prefix, armed[prefix]) in log)
    && forall arm :: arm in log ==>
      if arm.prefix in armed then arm.at <= armed[arm.prefix] else clock - arm.at >= GRACE_WINDOW
  }

  lemma ArmingRefines(armed: map<string, nat>, log: seq<Arm>, clock: nat, prefix: string, now: nat)
    requires Refines(armed, log, clock) && clock <= now
    ensures Refines(Armed(armed, prefix, now), log + [Arm(prefix, now)], now)
  {
  }

  /// From the last arm on, pruning and overwriting never change an answer.
  lemma SameAnswer(armed: map<string, nat>, log: seq<Arm>, clock: nat, rel: string, now: nat)
    requires Refines(armed, log, clock) && clock <= now
    ensures GraceContains(armed, rel, now) <==> LogContains(log, rel, now)
  {
    if GraceContains(armed, rel, now) {
      var prefix :| prefix in armed && InWindow(armed[prefix], now) && UnderPrefix(rel, prefix);
      assert Arm(prefix, armed[prefix]) in log;
    }
    if LogContains(log, rel, now) {
      var arm :| arm in log && now - arm.at < GRACE_WINDOW && UnderPrefix(rel, arm.prefix);
      assert arm.prefix in armed && InWindow(armed[arm.prefix], now);
    }
  }

  class MaterializationGrace {
    var armed: map<string, nat>
    ghost var log: seq<Arm>
    ghost var clock: nat

    ghost predicate Valid() reads this {
      Refines(armed, log, clock)
    }

    constructor ()
      ensures Valid() && log == [] && clock == 0
    {
      armed, log, clock := map[], [], 0;
    }

    method MarkMaterialization(prefix: string, now: nat)
      requires Valid() && clock <= now
      modifies this
      ensures Valid() && log == old(log) + [Arm(prefix, now)] && clock == now
      // The map stays small: whatever is too old to matter is forgotten.
      ensures forall p :: p in armed ==> InWindow(armed[p], now) && (p == prefix || p in old(armed))
    {
      ArmingRefines(armed, log, clock, prefix, now);
      armed := map p | p in armed && InWindow(armed[p], now) :: armed[p];
      armed := armed[prefix := now];
      log, clock := log + [Arm(prefix, now)], now;
    }

    method InMaterializationGrace(rel: string, now: nat) returns (covered: bool)
      requires Valid() && clock <= now
      ensures covered <==> LogContains(log, rel, now)
    {
      covered := GraceContains(armed, rel, now);
      SameAnswer(armed, log, clock, rel, now);
    }
  }
}
