// A file move Dropbox refused becomes an upload that owes the deletion of its source. The debt
// travels on the upload job, and is settled only when Dropbox holds the destination.
module RefusedMove {
  import opened Common

  datatype Node = File(bytes: seq<byte>) | OnlineOnly | Dir

  datatype Remote = Remote(hash: string, rev: string)

  datatype Debt = Debt(source: string, rev: Option<string>)

  datatype Status = Active | Done | Failed

  datatype Job =
    | Upload(target: string, owed: Option<Debt>, status: Status)
    | Delete(target: string, rev: Option<string>, status: Status)

  /// Everything the protocol reads or writes.
  datatype State = State(
    disk: map<string, Node>,
    sidecars: set<string>,       // paths a `.cloudsc` entry stands for
    rows: map<string, string>,   // local index: content hash
    remotes: map<string, Remote>,
    folders: set<string>,
    conflicts: set<string>,      // unresolved, by local path
    refused: set<(string, string)>,
    jobs: seq<Job>)

  // ---- The job table ----

  predicate IsActive(job: Job, upload: bool, target: string) {
    job.Upload? == upload && job.target == target && job.status == Active
  }

  /// An active job is unique for its kind and target, as the database index makes it.
  ghost predicate ActiveIsUnique(jobs: seq<Job>) {
    forall i, j :: 0 <= i < j < |jobs| && jobs[i].status == Active && jobs[j].status == Active ==>
      jobs[i].target != jobs[j].target || jobs[i].Upload? != jobs[j].Upload?
  }

  function FindActive(jobs: seq<Job>, upload: bool, target: string): (r: Option<nat>)
    ensures r.Some? ==> r.value < |jobs| && IsActive(jobs[r.value], upload, target)
    ensures r.None? ==> forall j :: 0 <= j < |jobs| ==> !IsActive(jobs[j], upload, target)
  {
    if jobs == [] then None
    else if IsActive(jobs[|jobs| - 1], upload, target) then Some(|jobs| - 1)
    else FindActive(jobs[..|jobs| - 1], upload, target)
  }

  /// One statement: the upload for the destination takes on the debt, unless it owes already.
  function WithDebt(jobs: seq<Job>, upload: string, debt: Debt): seq<Job> {
    match FindActive(jobs, true, upload)
    case None => jobs + [Upload(upload, Some(debt), Active)]
    case Some(j) => if jobs[j].owed.None? then jobs[j := Upload(upload, Some(debt), Active)] else jobs
  }

  /// A delete job for the source; an active one for the path is refreshed.
  function WithDelete(jobs: seq<Job>, debt: Debt): seq<Job> {
    match FindActive(jobs, false, debt.source)
    case None => jobs + [Delete(debt.source, debt.rev, Active)]
    case Some(k) => jobs[k := Delete(debt.source, debt.rev, Active)]
  }

  function WithoutDebt(jobs: seq<Job>, job: nat): seq<Job>
    requires job < |jobs| && jobs[job].Upload?
  {
    jobs[job := jobs[job].(owed := None)]
  }

  predicate Owes(jobs: seq<Job>, job: nat, source: string) {
    job < |jobs| && jobs[job].Upload? && jobs[job].owed.Some? && jobs[job].owed.value.source == source
  }

  /// An active upload for the path carries the deletion of `source`.
  predicate UploadOwes(jobs: seq<Job>, upload: string, source: string) {
    var j := FindActive(jobs, true, upload);
    j.Some? && Owes(jobs, j.value, source)
  }

  /// An active upload for the path owes the deletion of a different source.
  predicate OwesAnother(jobs: seq<Job>, upload: string, source: string) {
    var j := FindActive(jobs, true, upload);
    j.Some? && jobs[j.value].owed.Some? && !Owes(jobs, j.value, source)
  }

  /// The job carries this very debt.
  predicate OwesDebt(jobs: seq<Job>, job: nat, source: string, rev: Option<string>) {
    job < |jobs| && jobs[job].Upload? && jobs[job].owed == Some(Debt(source, rev))
  }

  /// A job is to delete the source, if it still has this revision.
  predicate DeletionIsQueued(jobs: seq<Job>, source: string, rev: Option<string>) {
    Delete(source, rev, Active) in jobs
  }

  lemma WithDebtOwes(jobs: seq<Job>, upload: string, debt: Debt)
    requires ActiveIsUnique(jobs)
    ensures ActiveIsUnique(WithDebt(jobs, upload, debt))
    ensures if OwesAnother(jobs, upload, debt.source) then WithDebt(jobs, upload, debt) == jobs
            else UploadOwes(WithDebt(jobs, upload, debt), upload, debt.source)
  {
    var after := WithDebt(jobs, upload, debt);
    var j, k := FindActive(jobs, true, upload), FindActive(after, true, upload);
    if j.None? {
      assert IsActive(after[|jobs|], true, upload);
    } else {
      assert IsActive(after[j.value], true, upload);
      assert k.value == j.value;
    }
  }

  lemma WithDeleteQueues(jobs: seq<Job>, debt: Debt)
    requires ActiveIsUnique(jobs)
    ensures ActiveIsUnique(WithDelete(jobs, debt))
    ensures DeletionIsQueued(WithDelete(jobs, debt), debt.source, debt.rev)
  {
    WithDeleteHolds(jobs, debt);
  }

  lemma WithDeleteHolds(jobs: seq<Job>, debt: Debt)
    ensures DeletionIsQueued(WithDelete(jobs, debt), debt.source, debt.rev)
  {
    var after := WithDelete(jobs, debt);
    var k := FindActive(jobs, false, debt.source);
    assert after[if k.None? then |jobs| else k.value] == Delete(debt.source, debt.rev, Active);
  }

  lemma WithoutDebtKeepsQueue(jobs: seq<Job>, job: nat, source: string, rev: Option<string>)
    requires job < |jobs| && jobs[job].Upload? && DeletionIsQueued(jobs, source, rev)
    ensures DeletionIsQueued(WithoutDebt(jobs, job), source, rev)
  {
    var k :| 0 <= k < |jobs| && jobs[k] == Delete(source, rev, Active);
    assert WithoutDebt(jobs, job)[k] == jobs[k];
  }

  // ---- Does Dropbox hold the bytes? ----

  /// What is known of a destination.
  datatype Facts = Facts(remote: Option<string>, row: Option<string>, node: Option<Node>, sidecar: bool)

  function FactsAt(s: State, p: string): Facts {
    Facts(if p in s.remotes then Some(s.remotes[p].hash) else None,
          if p in s.rows then Some(s.rows[p]) else None,
          if p in s.disk then Some(s.disk[p]) else None,
          p in s.sidecars)
  }

  /// The local row speaks for the destination when there is one, and the disk when there is none.
  predicate Holds(hash: seq<byte> -> string, facts: Facts) {
    && facts.remote.Some?
    && if facts.row.Some? then facts.remote == facts.row
       else
         && !facts.sidecar && facts.node.Some? && facts.node.value.File?
         && facts.remote.value == hash(facts.node.value.bytes)
  }

  /// What a wrong deletion would lose: the user's bytes at the destination are on Dropbox.
  predicate UserBytesAreOnDropbox(hash: seq<byte> -> string, facts: Facts) {
    facts.node.Some? && facts.node.value.File? && facts.remote == Some(hash(facts.node.value.bytes))
  }

  /// The row of the destination, if there is one, describes the bytes on disk.
  predicate RowIsFresh(hash: seq<byte> -> string, facts: Facts) {
    facts.row.Some? ==> facts.node.Some? && facts.node.value.File? && facts.row.value == hash(facts.node.value.bytes)
  }

  /// A positive answer is about the user's bytes exactly when the row, if any, is fresh.
  lemma HoldsMeansBytesExactlyWhenFresh(hash: seq<byte> -> string, facts: Facts)
    requires Holds(hash, facts)
    ensures UserBytesAreOnDropbox(hash, facts) <==> RowIsFresh(hash, facts)
  {
  }

  /// A file edited after it was indexed: Dropbox has the indexed bytes, not the edit.
  lemma StaleRowHolds(hash: seq<byte> -> string, indexed: seq<byte>, edited: seq<byte>)
    requires hash(indexed) != hash(edited)
    ensures var facts := Facts(Some(hash(indexed)), Some(hash(indexed)), Some(File(edited)), false);
      Holds(hash, facts) && !UserBytesAreOnDropbox(hash, facts)
  {
  }

  // ---- The steps ----

  /// Any one sign of a directory is enough.
  predicate LooksLikeDirectory(s: State, from: string, to: string) {
    || (to in s.disk && s.disk[to].Dir?) || (from in s.disk && s.disk[from].Dir?)
    || from in s.folders
    || exists p :: p in s.rows && from + "/" <= p
  }

  /// Neither end is a directory on disk, and the index knows no folder at the source and no file below it.
  ghost predicate MovesFile(s: State, from: string, to: string) {
    && (forall p :: p in s.disk && s.disk[p].Dir? ==> p != from && p != to)
    && (forall p :: p in s.folders ==> p != from)
    && forall p :: p in s.rows ==> !(from + "/" <= p)
  }

  /// The debt of a refused move.
  function DebtOf(s: State, from: string): Debt {
    Debt(from, if from in s.remotes then Some(s.remotes[from].rev) else None)
  }

  /// A refused move, wherever it stops: only the pair may be recorded for a directory; for a file
  /// the source's row goes only once its deletion is owed, and its remote row only if Dropbox said
  /// it has no source.
  predicate RefuseStep(a: State, b: State, from: string, to: string, sourceMayExist: bool) {
    && b == a.(rows := b.rows, remotes := b.remotes, refused := b.refused, jobs := b.jobs)
    && a.refused <= b.refused <= a.refused + {(from, to)}
    && (LooksLikeDirectory(a, from, to) ==> b.jobs == a.jobs && b.rows == a.rows && b.remotes == a.remotes)
    && (b.jobs == a.jobs || b.jobs == WithDebt(a.jobs, to, DebtOf(a, from)))
    && (b.rows == a.rows || (b.rows == a.rows - {from} && UploadOwes(b.jobs, to, from)))
    && (b.remotes == a.remotes || (b.remotes == a.remotes - {from} && !sourceMayExist && from !in b.rows))
  }

  /// The upload job owes a deletion, and Dropbox holds its destination.
  predicate Evidence(hash: seq<byte> -> string, s: State, job: nat) {
    job < |s.jobs| && s.jobs[job].Upload? && s.jobs[job].owed.Some? && Holds(hash, FactsAt(s, s.jobs[job].target))
  }

  /// The upload job owes a deletion, and its destination collided.
  predicate Collided(s: State, job: nat) {
    job < |s.jobs| && s.jobs[job].Upload? && s.jobs[job].owed.Some? && s.jobs[job].target in s.conflicts
  }

  /// A settlement, wherever it stops: the deletion is enqueued only on evidence, and the debt is
  /// cleared only after that, or after a collision.
  predicate SettleStep(hash: seq<byte> -> string, a: State, b: State, job: nat)
    requires job < |a.jobs| && a.jobs[job].Upload?
  {
    && b == a.(jobs := b.jobs)
    && (|| b.jobs == a.jobs
        || (&& Evidence(hash, a, job)
            && var queued := WithDelete(a.jobs, a.jobs[job].owed.value);
               b.jobs == queued || (queued[job] == a.jobs[job] && b.jobs == WithoutDebt(queued, job)))
        || (Collided(a, job) && b.jobs == WithoutDebt(a.jobs, job)))
  }

  /// Only the status of one job changes.
  predicate MarkStep(a: State, b: State, job: nat) {
    && job < |a.jobs|
    && (b == a || exists status :: b == a.(jobs := a.jobs[job := a.jobs[job].(status := status)]))
  }

  /// An ordinary upload; an active one for the path stays, with what it owes.
  predicate EnqueueStep(a: State, b: State, target: string) {
    b == a || b == a.(jobs := a.jobs + [Upload(target, None, Active)])
  }

  datatype Action =
    | WorldMoves  // scans, deltas, uploads and the user change everything but the jobs
    | Refuse(from: string, to: string, sourceMayExist: bool)
    | Enqueue(target: string)
    | Settle(job: nat)
    | Mark(job: nat)

  predicate Step(hash: seq<byte> -> string, a: State, action: Action, b: State) {
    match action
    case WorldMoves => b.jobs == a.jobs
    case Refuse(from, to, sourceMayExist) => RefuseStep(a, b, from, to, sourceMayExist)
    case Enqueue(target) => EnqueueStep(a, b, target)
    case Settle(job) => job < |a.jobs| && a.jobs[job].Upload? && SettleStep(hash, a, b, job)
    case Mark(job) => MarkStep(a, b, job)
  }

  ghost predicate IsRun(hash: seq<byte> -> string, run: seq<State>, actions: seq<Action>) {
    && |run| == |actions| + 1
    && forall k :: 0 <= k < |actions| ==> Step(hash, run[k], actions[k], run[k + 1])
  }

  lemma LongerRun(hash: seq<byte> -> string, run: seq<State>, actions: seq<Action>, action: Action, next: State)
    requires IsRun(hash, run, actions) && Step(hash, run[|actions|], action, next)
    ensures IsRun(hash, run + [next], actions + [action])
  {
    var longer, more := run + [next], actions + [action];
    forall k | 0 <= k < |more| ensures Step(hash, longer[k], more[k], longer[k + 1]) {
      if k < |actions| {
        assert Step(hash, run[k], actions[k], run[k + 1]);
      }
    }
  }

  // ---- What every run keeps ----

  /// The debt was paid on evidence, with a deletion of just the revision it names, or its destination
  /// had collided.
  predicate Discharges(hash: seq<byte> -> string, a: State, action: Action, b: State, job: nat, source: string,
                       rev: Option<string>)
  {
    && action == Settle(job) && OwesDebt(a.jobs, job, source, rev)
    && ((Evidence(hash, a, job) && DeletionIsQueued(b.jobs, source, rev)) || Collided(a, job))
  }

  lemma StepKeepsDebt(hash: seq<byte> -> string, a: State, action: Action, b: State, job: nat, source: string,
                      rev: Option<string>)
    requires Step(hash, a, action, b) && OwesDebt(a.jobs, job, source, rev)
    ensures OwesDebt(b.jobs, job, source, rev) || Discharges(hash, a, action, b, job, source, rev)
  {
    if action == Settle(job) && !OwesDebt(b.jobs, job, source, rev) && Evidence(hash, a, job) {
      var queued := WithDelete(a.jobs, a.jobs[job].owed.value);
      WithDeleteHolds(a.jobs, a.jobs[job].owed.value);
      WithoutDebtKeepsQueue(queued, job, source, rev);
    }
  }

  /// Every debt a job ever had is owed at the end of the run, or was discharged in it.
  lemma {:induction false} NoDebtIsForgotten(hash: seq<byte> -> string, run: seq<State>, actions: seq<Action>, i: nat,
                                             job: nat, source: string, rev: Option<string>)
    requires IsRun(hash, run, actions) && i < |run| && OwesDebt(run[i].jobs, job, source, rev)
    ensures || OwesDebt(run[|actions|].jobs, job, source, rev)
            || exists k :: i <= k < |actions| && Discharges(hash, run[k], actions[k], run[k + 1], job, source, rev)
    decreases |run| - i
  {
    if i < |actions| {
      StepKeepsDebt(hash, run[i], actions[i], run[i + 1], job, source, rev);
      if OwesDebt(run[i + 1].jobs, job, source, rev) {
        NoDebtIsForgotten(hash, run, actions, i + 1, job, source, rev);
      }
    }
  }

  /// A job that deletes the source at this revision.
  predicate HasDelete(jobs: seq<Job>, j: nat, source: string, rev: Option<string>) {
    j < |jobs| && jobs[j].Delete? && jobs[j].target == source && jobs[j].rev == rev
  }

  /// The step enqueued the deletion of `source` for a debt of this revision, while Dropbox held the
  /// destination.
  predicate EnqueuesOnEvidence(hash: seq<byte> -> string, a: State, action: Action, source: string, rev: Option<string>)
  {
    action.Settle? && OwesDebt(a.jobs, action.job, source, rev) && Evidence(hash, a, action.job)
  }

  lemma StepEnqueuesOnEvidence(hash: seq<byte> -> string, a: State, action: Action, b: State, j: nat, source: string,
                               rev: Option<string>)
    requires Step(hash, a, action, b) && HasDelete(b.jobs, j, source, rev)
    ensures HasDelete(a.jobs, j, source, rev) || EnqueuesOnEvidence(hash, a, action, source, rev)
  {
  }

  /// Every delete job, with its revision, that was not there when the run began was enqueued in a
  /// state in which Dropbox held the destination, for a debt of that revision; with a fresh row, or
  /// none, Dropbox held the user's bytes.
  lemma {:induction false} EveryDeleteHasEvidence(hash: seq<byte> -> string, run: seq<State>, actions: seq<Action>,
                                                  n: nat, j: nat, source: string, rev: Option<string>)
    requires IsRun(hash, run, actions) && n < |run| && HasDelete(run[n].jobs, j, source, rev)
    ensures || HasDelete(run[0].jobs, j, source, rev)
            || exists k :: 0 <= k < n && EnqueuesOnEvidence(hash, run[k], actions[k], source, rev)
    decreases n
  {
    if n > 0 {
      StepEnqueuesOnEvidence(hash, run[n - 1], actions[n - 1], run[n], j, source, rev);
      if HasDelete(run[n - 1].jobs, j, source, rev) {
        EveryDeleteHasEvidence(hash, run, actions, n - 1, j, source, rev);
      }
    }
  }

  /// The evidence is about the user's bytes exactly when the row, if any, is fresh; without a row there
  /// is none for an online-only destination.
  lemma FreshEvidenceIsAboutTheUsersBytes(hash: seq<byte> -> string, a: State, action: Action, source: string,
                                          rev: Option<string>)
    requires EnqueuesOnEvidence(hash, a, action, source, rev)
    ensures var facts := FactsAt(a, a.jobs[action.job].target);
      && (UserBytesAreOnDropbox(hash, facts) <==> RowIsFresh(hash, facts))
      && (facts.row.None? ==> facts.node.Some? && facts.node.value.File? && !facts.sidecar)
  {
    HoldsMeansBytesExactlyWhenFresh(hash, FactsAt(a, a.jobs[action.job].target));
  }

  /// A move of this file was refused while the index knew it on Dropbox at this revision.
  ghost predicate RefusesFile(a: State, action: Action, source: string, rev: Option<string>) {
    && action.Refuse? && action.from == source && MovesFile(a, source, action.to)
    && if source in a.remotes then rev == Some(a.remotes[source].rev) else rev == None
  }

  lemma StepTakesDebtForFile(hash: seq<byte> -> string, a: State, action: Action, b: State, job: nat, source: string,
                             rev: Option<string>)
    requires Step(hash, a, action, b) && OwesDebt(b.jobs, job, source, rev)
    ensures OwesDebt(a.jobs, job, source, rev) || RefusesFile(a, action, source, rev)
  {
  }

  /// Every debt comes from the refusal of a file move, and names the revision the source then had: a
  /// directory move never creates one.
  lemma {:induction false} EveryDebtIsForAFile(hash: seq<byte> -> string, run: seq<State>, actions: seq<Action>, n: nat,
                                               job: nat, source: string, rev: Option<string>)
    requires IsRun(hash, run, actions) && n < |run| && OwesDebt(run[n].jobs, job, source, rev)
    ensures || OwesDebt(run[0].jobs, job, source, rev)
            || exists k :: 0 <= k < n && RefusesFile(run[k], actions[k], source, rev)
    decreases n
  {
    if n > 0 {
      StepTakesDebtForFile(hash, run[n - 1], actions[n - 1], run[n], job, source, rev);
      if OwesDebt(run[n - 1].jobs, job, source, rev) {
        EveryDebtIsForAFile(hash, run, actions, n - 1, job, source, rev);
      }
    }
  }

  /// A source is only ever deleted at the revision it had when its move was refused, and after Dropbox
  /// was seen to hold the destination; a newer version stays. Only jobs and debts from before the run
  /// are not accounted for.
  lemma EveryDeleteIsOfTheRefusedRevision(hash: seq<byte> -> string, run: seq<State>, actions: seq<Action>, n: nat,
                                          j: nat, source: string, rev: Option<string>)
    requires IsRun(hash, run, actions) && n < |run| && HasDelete(run[n].jobs, j, source, rev)
    ensures || HasDelete(run[0].jobs, j, source, rev)
            || exists k :: 0 <= k < n && EnqueuesOnEvidence(hash, run[k], actions[k], source, rev)
                 && (|| OwesDebt(run[0].jobs, actions[k].job, source, rev)
                     || exists i :: 0 <= i < k && RefusesFile(run[i], actions[i], source, rev))
  {
    EveryDeleteHasEvidence(hash, run, actions, n, j, source, rev);
    if !HasDelete(run[0].jobs, j, source, rev) {
      var k :| 0 <= k < n && EnqueuesOnEvidence(hash, run[k], actions[k], source, rev);
      EveryDebtIsForAFile(hash, run, actions, k, actions[k].job, source, rev);
    }
  }

  // ---- The client ----

  class Client {
    var disk: map<string, Node>
    var sidecars: set<string>
    var rows: map<string, string>
    var remotes: map<string, Remote>
    var folders: set<string>
    var conflicts: set<string>
    var refused: set<(string, string)>
    var jobs: seq<Job>
    const hash: seq<byte> -> string
    const env: Environment

    constructor (hash: seq<byte> -> string)
      ensures Valid() && this.hash == hash && jobs == []
    {
      disk, sidecars, rows, remotes, folders := map[], {}, map[], map[], {};
      conflicts, refused, jobs := {}, {}, [];
      this.hash := hash;
      env := new Environment();
    }

    ghost predicate Valid() reads this`jobs {
      ActiveIsUnique(jobs)
    }

    function Now(): State reads this {
      State(disk, sidecars, rows, remotes, folders, conflicts, refused, jobs)
    }

    // Primitives.

    /// One transaction. `Ok(false)`: the upload owes another source.
    method EnqueueUploadThenDelete(upload: string, debt: Debt) returns (r: Reply<bool>)
      requires Valid()
      modifies this`jobs, env
      ensures env.faults == old(env.faults) + if r.Ok? then 0 else 1
      ensures env.crashes == old(env.crashes) + if r.Crash? then 1 else 0
      ensures Valid()
      ensures jobs == old(jobs) || jobs == WithDebt(old(jobs), upload, debt)
      ensures r.Err? ==> jobs == old(jobs)
      ensures r == Ok(true) ==> UploadOwes(jobs, upload, debt.source)
      ensures r == Ok(false) ==> jobs == old(jobs) && OwesAnother(jobs, upload, debt.source)
    {
      WithDebtOwes(jobs, upload, debt);
      var answer, applied := env.Answer(true);
      if !applied {
        return if answer.Err? then Err else Crash;
      }
      var another := OwesAnother(jobs, upload, debt.source);
      jobs := WithDebt(jobs, upload, debt);
      r := if answer.Ok? then Ok(!another) else Crash;
    }

    method EnqueueDeleteJob(debt: Debt) returns (r: Reply<Unit>)
      requires Valid()
      modifies this`jobs, env
      ensures env.faults == old(env.faults) + if r.Ok? then 0 else 1
      ensures env.crashes == old(env.crashes) + if r.Crash? then 1 else 0
      ensures Valid()
      ensures jobs == old(jobs) || jobs == WithDelete(old(jobs), debt)
      ensures r.Ok? ==> jobs == WithDelete(old(jobs), debt) && DeletionIsQueued(jobs, debt.source, debt.rev)
    {
      WithDeleteQueues(jobs, debt);
      var applied;
      r, applied := env.Answer(true);
      if applied {
        jobs := WithDelete(jobs, debt);
      }
    }

    method ClearDebt(job: nat) returns (r: Reply<Unit>)
      requires Valid() && job < |jobs| && jobs[job].Upload?
      modifies this`jobs, env
      ensures env.faults == old(env.faults) + if r.Ok? then 0 else 1
      ensures env.crashes == old(env.crashes) + if r.Crash? then 1 else 0
      ensures Valid()
      ensures jobs == old(jobs) || jobs == WithoutDebt(old(jobs), job)
      ensures r.Ok? ==> jobs == WithoutDebt(old(jobs), job)
    {
      var applied;
      r, applied := env.Answer(true);
      if applied {
        jobs := WithoutDebt(jobs, job);
      }
    }

    method RecordRefusedMove(from: string, to: string) returns (r: Reply<Unit>)
      modifies this`refused, env
      ensures env.faults == old(env.faults) + if r.Ok? then 0 else 1
      ensures env.crashes == old(env.crashes) + if r.Crash? then 1 else 0
      ensures old(refused) <= refused <= old(refused) + {(from, to)}
      ensures r.Ok? ==> (from, to) in refused
    {
      var applied;
      r, applied := env.Answer(true);
      if applied {
        refused := refused + {(from, to)};
      }
    }

    // Re-deriving a refused move.

    method RederiveRefusedMove(from: string, to: string, sourceMayExist: bool) returns (r: Reply<Unit>)
      requires Valid()
      modifies this`jobs, this`rows, this`remotes, this`refused, env
      ensures env.faults >= old(env.faults)
      ensures env.crashes == old(env.crashes) + if r.Crash? then 1 else 0
      ensures env.faults == old(env.faults) ==> r.Ok?
      // At every exit, a crash included:
      ensures Valid() && RefuseStep(old(Now()), Now(), from, to, sourceMayExist)
      // The debt is taken, unless it is a directory or an upload for the destination owes another source.
      ensures r.Ok? && MovesFile(old(Now()), from, to) && !OwesAnother(old(jobs), to, from) ==>
        from !in rows && UploadOwes(jobs, to, from)
      // Either the debt is taken and the correlator has nothing left to propose, or the pair is recorded.
      ensures r.Ok? ==> (from !in rows && UploadOwes(jobs, to, from)) || ((from, to) in refused && rows == old(rows))
      ensures r.Ok? && from !in rows && from in old(rows) && !sourceMayExist ==> from !in remotes
    {
      var read, _ := env.Answer(true);
      if !read.Ok? {
        return read;
      }
      if LooksLikeDirectory(Now(), from, to) {
        r := RecordRefusedMove(from, to);
        return;
      }
      var took := EnqueueUploadThenDelete(to, DebtOf(Now(), from));
      if !took.Ok? {
        return if took.Err? then Err else Crash;
      }
      if !took.value {
        r := RecordRefusedMove(from, to);
        return;
      }
      r := ForgetSource(from, sourceMayExist);
    }

    /// The source's local row, and its remote row if Dropbox said it has no source.
    method ForgetSource(from: string, sourceMayExist: bool) returns (r: Reply<Unit>)
      modifies this`rows, this`remotes, env
      ensures env.faults >= old(env.faults)
      ensures env.crashes == old(env.crashes) + if r.Crash? then 1 else 0
      ensures env.faults == old(env.faults) ==> r.Ok?
      ensures rows == old(rows) || rows == old(rows) - {from}
      ensures remotes == old(remotes) || (remotes == old(remotes) - {from} && !sourceMayExist && from !in rows)
      ensures r.Ok? ==> from !in rows && (!sourceMayExist ==> from !in remotes)
    {
      var applied;
      r, applied := env.Answer(true);
      if applied {
        rows := rows - {from};
      }
      if r.Ok? && !sourceMayExist {
        r, applied := env.Answer(true);
        if applied {
          remotes := remotes - {from};
        }
      }
    }

    // Settling the debt after the upload.

    /// Asks the row, or else hashes the file; an unreadable file is no proof.
    method DestinationHoldsTheBytes(p: string) returns (r: Reply<bool>)
      modifies env
      ensures env.faults >= old(env.faults)
      ensures env.crashes == old(env.crashes) + if r.Crash? then 1 else 0
      ensures env.faults == old(env.faults) ==> r == Ok(Holds(hash, FactsAt(Now(), p)))
      ensures r == Ok(true) ==> Holds(hash, FactsAt(Now(), p))
      ensures r.Ok? && p in remotes && p in rows ==> (r.value <==> remotes[p].hash == rows[p])
    {
      var read, _ := env.Answer(true);
      if !read.Ok? {
        return if read.Err? then Err else Crash;
      }
      if p !in remotes {
        return Ok(false);
      }
      if p in rows {
        return Ok(remotes[p].hash == rows[p]);
      }
      if p in sidecars || (p in disk && disk[p].OnlineOnly?) {
        return Ok(false);
      }
      var hashed, _ := env.Answer(true);
      if hashed.Crash? {
        return Crash;
      }
      return Ok(hashed.Ok? && p in disk && disk[p].File? && remotes[p].hash == hash(disk[p].bytes));
    }

    /// The destination collided, and the collision is on record.
    method UploadCollidedAt(p: string) returns (r: Reply<bool>)
      modifies env
      ensures env.faults >= old(env.faults)
      ensures env.crashes == old(env.crashes) + if r.Crash? then 1 else 0
      ensures env.faults == old(env.faults) ==> r == Ok(p in conflicts)
      ensures r == Ok(true) ==> p in conflicts
      ensures r.Ok? || r.Crash?
    {
      var read, _ := env.Answer(true);
      r := if read.Crash? then Crash else Ok(read.Ok? && p in conflicts);
    }

    /// The deletion first, then the debt.
    method PayDebt(job: nat) returns (crashed: bool)
      requires Valid() && Evidence(hash, Now(), job)
      modifies this`jobs, env
      ensures env.faults >= old(env.faults)
      ensures env.crashes == old(env.crashes) + if crashed then 1 else 0
      ensures Valid() && SettleStep(hash, old(Now()), Now(), job) && |old(jobs)| <= |jobs|
      ensures env.faults == old(env.faults) ==> !crashed && jobs[job] == old(jobs)[job].(owed := None)
      ensures jobs[job].owed.None? ==>
                DeletionIsQueued(jobs, old(jobs)[job].owed.value.source, old(jobs)[job].owed.value.rev)
    {
      var debt := jobs[job].owed.value;
      var enqueued := EnqueueDeleteJob(debt);
      assert jobs[job] == old(jobs)[job];
      if !enqueued.Ok? {
        return enqueued.Crash?;
      }
      WithoutDebtKeepsQueue(jobs, job, debt.source, debt.rev);
      var cleared := ClearDebt(job);
      return cleared.Crash?;
    }

    /// The destination collided: both files are kept, and the source stays.
    method WaiveDebt(job: nat) returns (crashed: bool)
      requires Valid() && Collided(Now(), job)
      modifies this`jobs, env
      ensures env.faults >= old(env.faults)
      ensures env.crashes == old(env.crashes) + if crashed then 1 else 0
      ensures Valid() && SettleStep(hash, old(Now()), Now(), job) && |jobs| == |old(jobs)|
      ensures env.faults == old(env.faults) ==> !crashed && jobs == WithoutDebt(old(jobs), job)
    {
      var cleared := ClearDebt(job);
      return cleared.Crash?;
    }

    /// Never fails the job: what it cannot settle stays owed.
    method SettleOwedSourceDeletion(job: nat) returns (crashed: bool)
      requires Valid() && job < |jobs| && jobs[job].Upload?
      modifies this`jobs, env
      ensures env.faults >= old(env.faults)
      ensures env.crashes == old(env.crashes) + if crashed then 1 else 0
      // At every exit, a crash included:
      ensures Valid() && SettleStep(hash, old(Now()), Now(), job)
      ensures |old(jobs)| <= |jobs| && jobs[job].Upload?
      // If nothing fails, evidence or a collision settles it, and nothing else does.
      ensures env.faults == old(env.faults) ==> !crashed
      ensures env.faults == old(env.faults) && old(jobs)[job].owed.Some? ==>
        (jobs[job].owed.None? <==> Evidence(hash, old(Now()), job) || Collided(old(Now()), job))
      // A debt that is paid leaves a deletion of just the revision it names.
      ensures old(jobs)[job].owed.Some? && jobs[job].owed.None? && !Collided(old(Now()), job) ==>
                DeletionIsQueued(jobs, old(jobs)[job].owed.value.source, old(jobs)[job].owed.value.rev)
      // With a fresh row, or none, a source goes only when Dropbox has the user's bytes.
      ensures old(jobs)[job].owed.Some? && jobs[job].owed.None? && !Collided(old(Now()), job) ==>
        var facts := FactsAt(old(Now()), old(jobs)[job].target);
        UserBytesAreOnDropbox(hash, facts) <==> RowIsFresh(hash, facts)
    {
      var read, _ := env.Answer(true);
      if !read.Ok? || jobs[job].owed.None? {
        return read.Crash?;
      }
      var held := DestinationHoldsTheBytes(jobs[job].target);
      match held
      case Crash =>
        return true;
      case Err =>
        return false;
      case Ok(true) =>
        HoldsMeansBytesExactlyWhenFresh(hash, FactsAt(Now(), jobs[job].target));
        crashed := PayDebt(job);
      case Ok(false) =>
        var collided := UploadCollidedAt(jobs[job].target);
        if collided != Ok(true) {
          return collided.Crash?;
        }
        crashed := WaiveDebt(job);
    }

    // Runs.

    /// Scans, deltas, uploads and the user change everything but the jobs of this protocol.
    method WorldMovesOn()
      modifies this`disk, this`sidecars, this`rows, this`remotes, this`folders, this`conflicts, this`refused
    {
      disk, sidecars, rows, remotes, folders, conflicts, refused := *, *, *, *, *, *, *;
    }

    method EnqueueUpload(target: string) returns (r: Reply<Unit>)
      requires Valid()
      modifies this`jobs, env
      ensures Valid() && EnqueueStep(old(Now()), Now(), target)
      ensures env.crashes == old(env.crashes) + if r.Crash? then 1 else 0
      ensures r.Ok? ==> FindActive(jobs, true, target).Some?
      ensures r.Err? ==> jobs == old(jobs)
    {
      var applied;
      r, applied := env.Answer(true);
      if applied && FindActive(jobs, true, target).None? {
        jobs := jobs + [Upload(target, None, Active)];
      }
    }

    /// The job ends, or a failed one is queued again.
    method SetStatus(job: nat, status: Status) returns (r: Reply<Unit>)
      requires Valid() && job < |jobs|
      modifies this`jobs, env
      ensures Valid() && MarkStep(old(Now()), Now(), job)
      ensures env.faults == old(env.faults) + if r.Ok? then 0 else 1
      ensures env.crashes == old(env.crashes) + if r.Crash? then 1 else 0
      ensures r.Ok? && status != Active ==> jobs[job].status == status
    {
      var applied;
      r, applied := env.Answer(true);
      if applied && (status != Active || FindActive(jobs, jobs[job].Upload?, jobs[job].target).None?) {
        jobs := jobs[job := jobs[job].(status := status)];
      }
    }

    /// The end of an upload job: settled first, then marked; a failed one keeps its debt.
    method FinishUpload(job: nat, succeeded: bool) returns (r: Reply<Unit>, ghost settled: State)
      requires Valid() && job < |jobs| && jobs[job].Upload?
      modifies this`jobs, env
      ensures if succeeded then SettleStep(hash, old(Now()), settled, job) else settled == old(Now())
      ensures Valid() && MarkStep(settled, Now(), job)
      // If nothing fails, it settles exactly the debts it can before it marks the job.
      ensures env.faults == old(env.faults) && succeeded && old(jobs)[job].owed.Some? ==>
                job < |settled.jobs| && settled.jobs[job].Upload? &&
                (settled.jobs[job].owed.None? <==> Evidence(hash, old(Now()), job) || Collided(old(Now()), job))
      ensures env.faults == old(env.faults) ==> r.Ok?
      ensures env.crashes == old(env.crashes) + if r.Crash? then 1 else 0
      ensures !succeeded ==> |jobs| == |old(jobs)| && jobs[job].Upload? && jobs[job].owed == old(jobs)[job].owed
      ensures r.Ok? ==> jobs[job].status == if succeeded then Done else Failed
    {
      settled := Now();
      if succeeded {
        var crashed := SettleOwedSourceDeletion(job);
        settled := Now();
        if crashed {
          return Crash, settled;
        }
      }
      r := SetStatus(job, if succeeded then Done else Failed);
    }

    /// Any run of refusals, uploads that land, fail, vanish or collide, deletions that end, jobs
    /// queued again, and crashes in between.
    method Run(steps: nat) returns (ghost run: seq<State>, ghost actions: seq<Action>)
      requires Valid()
      modifies this, env
      ensures Valid() && IsRun(hash, run, actions) && run[0] == old(Now()) && run[|actions|] == Now()
    {
      run, actions := [Now()], [];
      for i := 0 to steps
        invariant Valid() && IsRun(hash, run, actions) && run[0] == old(Now()) && run[|actions|] == Now()
      {
        WorldMovesOn();
        run, actions := Extend(run, actions, WorldMoves);
        var from: string, to: string, sourceMayExist: bool := *, *, *;
        var choice: int, job: int, succeeded: bool := *, *, *;
        if choice == 0 {
          var _ := RederiveRefusedMove(from, to, sourceMayExist);
          run, actions := Extend(run, actions, Refuse(from, to, sourceMayExist));
        } else if choice == 1 {
          var _ := EnqueueUpload(to);
          run, actions := Extend(run, actions, Enqueue(to));
        } else if 0 <= job < |jobs| && choice == 2 {
          var _ := SetStatus(job, if succeeded then Done else if jobs[job].status == Failed then Active else Failed);
          run, actions := Extend(run, actions, Mark(job));
        } else if 0 <= job < |jobs| && jobs[job].Upload? {
          var _, settled := FinishUpload(job, succeeded);
          if succeeded {
            LongerRun(hash, run, actions, Settle(job), settled);
            run, actions := run + [settled], actions + [Settle(job)];
          }
          run, actions := Extend(run, actions, Mark(job));
        }
      }
    }

    ghost method Extend(run: seq<State>, actions: seq<Action>, action: Action)
      returns (longer: seq<State>, more: seq<Action>)
      requires IsRun(hash, run, actions) && Step(hash, run[|actions|], action, Now())
      ensures IsRun(hash, longer, more) && longer[0] == run[0] && longer[|more|] == Now()
      ensures longer == run + [Now()] && more == actions + [action]
    {
      LongerRun(hash, run, actions, action, Now());
      longer, more := run + [Now()], actions + [action];
    }
  }
}
