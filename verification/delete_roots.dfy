// Coalescing a burst of delete events into recursive deletions of its top-level roots.
module DeleteRoots {
  import opened Common
  import opened Text

  datatype PendingDelete = PendingDelete(rel: string, isDir: bool)

  /// `rel` lies strictly below `other`.
  predicate Below(rel: string, other: string) {
    other != rel && other + "/" <= rel
  }

  predicate IsRoot(batch: seq<PendingDelete>, e: PendingDelete) {
    !exists other :: other in batch && Below(e.rel, other.rel)
  }

  function RootsAmong(batch: seq<PendingDelete>, rest: seq<PendingDelete>): (roots: seq<PendingDelete>)
    ensures forall e :: e in roots <==> e in rest && IsRoot(batch, e)
  {
    if rest == [] then []
    else if IsRoot(batch, rest[0]) then [rest[0]] + RootsAmong(batch, rest[1..])
    else RootsAmong(batch, rest[1..])
  }

  /// The entries that have no other entry as an ancestor.
  function MinimalDeleteRoots(batch: seq<PendingDelete>): seq<PendingDelete> {
    RootsAmong(batch, batch)
  }

  /// The paths whose deletion a flush enqueues, when it fails for some entries.
  function JobsOf(batch: seq<PendingDelete>, fails: set<PendingDelete>): set<string> {
    PathsOf(MinimalDeleteRoots(batch), fails)
  }

  function PathsOf(roots: seq<PendingDelete>, fails: set<PendingDelete>): set<string> {
    set root | root in roots && root !in fails :: root.rel
  }

  lemma OneMorePath(roots: seq<PendingDelete>, fails: set<PendingDelete>, i: nat)
    requires i < |roots|
    ensures PathsOf(roots[..i + 1], fails) ==
            PathsOf(roots[..i], fails) + if roots[i] in fails then {} else {roots[i].rel}
  {
    assert roots[..i + 1] == roots[..i] + [roots[i]];
  }

  function FailedOf(batch: seq<PendingDelete>, fails: set<PendingDelete>): set<string> {
    set root | root in MinimalDeleteRoots(batch) && root in fails :: root.rel
  }

  // ---- What a recursive remote deletion does ----

  /// The remote tree as its set of paths; deleting a path takes everything under it.
  function DeleteTree(tree: set<string>, path: string): set<string> {
    set p | p in tree && !UnderPrefix(p, path)
  }

  function DeleteAll(tree: set<string>, batch: seq<PendingDelete>): set<string> {
    if batch == [] then tree else DeleteAll(DeleteTree(tree, batch[0].rel), batch[1..])
  }

  ghost predicate Covers(jobs: seq<PendingDelete>, rel: string) {
    exists job :: job in jobs && UnderPrefix(rel, job.rel)
  }

  lemma {:induction false} DeleteAllKeeps(tree: set<string>, batch: seq<PendingDelete>, p: string)
    ensures p in DeleteAll(tree, batch) <==> p in tree && !Covers(batch, p)
  {
    if batch != [] {
      DeleteAllKeeps(DeleteTree(tree, batch[0].rel), batch[1..], p);
      assert forall job :: job in batch <==> job == batch[0] || job in batch[1..];
    }
  }

  lemma BelowIsUnder(rel: string, other: string)
    ensures Below(rel, other) <==> rel != other && UnderPrefix(rel, other)
  {
    if UnderPrefix(rel, other) && rel != other {
      assert rel[..|other| + 1] == other + "/";
    }
    if Below(rel, other) {
      assert (other + "/")[|other|] == rel[|other|];
      assert rel[..|other|] == (other + "/")[..|other|] == other;
    }
  }

  /// Every entry equals or lies under some root: climb to an ancestor while there is one.
  lemma {:induction false} EveryEntryHasARoot(batch: seq<PendingDelete>, e: PendingDelete)
    requires e in batch
    ensures Covers(MinimalDeleteRoots(batch), e.rel)
    decreases |e.rel|
  {
    if IsRoot(batch, e) {
      assert e in MinimalDeleteRoots(batch) && UnderPrefix(e.rel, e.rel);
    } else {
      var other :| other in batch && Below(e.rel, other.rel);
      BelowIsUnder(e.rel, other.rel);
      EveryEntryHasARoot(batch, other);
      var root :| root in MinimalDeleteRoots(batch) && UnderPrefix(other.rel, root.rel);
      UnderPrefixTransitive(e.rel, other.rel, root.rel);
    }
  }

  ghost predicate IsCovered(paths: set<string>, rel: string) {
    exists path :: path in paths && UnderPrefix(rel, path)
  }

  /// Every entry of a flushed batch lies under an enqueued path, or under one whose enqueue failed.
  lemma FlushedIsCovered(batch: seq<PendingDelete>, fails: set<PendingDelete>, e: PendingDelete)
    requires e in batch
    ensures IsCovered(JobsOf(batch, fails) + FailedOf(batch, fails), e.rel)
  {
    EveryEntryHasARoot(batch, e);
    var root :| root in MinimalDeleteRoots(batch) && UnderPrefix(e.rel, root.rel);
    assert root.rel in JobsOf(batch, fails) + FailedOf(batch, fails);
  }

  /// No two distinct roots are nested.
  lemma RootsAreIncomparable(batch: seq<PendingDelete>, a: PendingDelete, b: PendingDelete)
    requires a in MinimalDeleteRoots(batch) && b in MinimalDeleteRoots(batch) && a.rel != b.rel
    ensures !UnderPrefix(a.rel, b.rel)
  {
    BelowIsUnder(a.rel, b.rel);
  }

  /// The roots are the least cover: any entries that cover the whole batch include every root path.
  lemma RootsAreNeeded(batch: seq<PendingDelete>, cover: seq<PendingDelete>, root: PendingDelete)
    requires forall c :: c in cover ==> c in batch
    requires forall e :: e in batch ==> Covers(cover, e.rel)
    requires root in MinimalDeleteRoots(batch)
    ensures exists c :: c in cover && c.rel == root.rel
  {
    var c :| c in cover && UnderPrefix(root.rel, c.rel);
    BelowIsUnder(root.rel, c.rel);
  }

  /// Deleting only the roots leaves exactly the remote tree that deleting every entry leaves.
  lemma RootsDeleteTheSameTree(tree: set<string>, batch: seq<PendingDelete>)
    ensures DeleteAll(tree, MinimalDeleteRoots(batch)) == DeleteAll(tree, batch)
  {
    var roots := MinimalDeleteRoots(batch);
    forall p
      ensures p in DeleteAll(tree, roots) <==> p in DeleteAll(tree, batch)
    {
      DeleteAllKeeps(tree, roots, p);
      DeleteAllKeeps(tree, batch, p);
      if Covers(batch, p) {
        var e :| e in batch && UnderPrefix(p, e.rel);
        EveryEntryHasARoot(batch, e);
        var root :| root in roots && UnderPrefix(e.rel, root.rel);
        UnderPrefixTransitive(p, e.rel, root.rel);
      }
    }
  }

  // ---- The flush ----

  /// Its job is enqueued, and none for the same path after it: a batch may name a path as a file and as
  /// a folder.
  ghost predicate Decides(roots: seq<PendingDelete>, fails: set<PendingDelete>, k: nat) {
    && k < |roots| && roots[k] !in fails
    && forall j :: k < j < |roots| ==> roots[j] in fails || roots[j].rel != roots[k].rel
  }

  /// The rows a flush touches: the delete jobs by path with the revision they are sent against,
  /// the remote revisions, and what the local index tracks.
  class DeleteQueue {
    var jobs: map<string, Option<string>>
    var remoteRevs: map<string, string>
    var knownFolders: set<string>
    var localFiles: set<string>

    /// None for a folder, for a file without a remote row, and after a failed lookup.
    function ParentRev(e: PendingDelete, lookupFails: set<PendingDelete>): Option<string>
      reads this`remoteRevs
    {
      if e.isDir || e in lookupFails || e.rel !in remoteRevs then None else Some(remoteRevs[e.rel])
    }

    /// The job of a root is sent against the revision the index has of a file, and else against none.
    ghost predicate IsSentAgainst(root: PendingDelete, lookupFails: set<PendingDelete>)
      reads this`jobs, this`remoteRevs
    {
      root.rel in jobs &&
      match jobs[root.rel]
      case Some(rev) =>
        !root.isDir && root !in lookupFails && root.rel in remoteRevs && remoteRevs[root.rel] == rev
      case None => root.isDir || root in lookupFails || root.rel !in remoteRevs
    }

    method EnqueueRoot(root: PendingDelete, lookupFails: set<PendingDelete>)
      modifies this`jobs
      ensures jobs.Keys == old(jobs).Keys + {root.rel} && IsSentAgainst(root, lookupFails)
      ensures forall rel :: rel in old(jobs) && rel != root.rel ==> jobs[rel] == old(jobs)[rel]
      ensures forall other: PendingDelete {:trigger IsSentAgainst(other, lookupFails)} ::
                other.rel != root.rel && old(IsSentAgainst(other, lookupFails)) ==> IsSentAgainst(other, lookupFails)
    {
      jobs := jobs[root.rel := ParentRev(root, lookupFails)];
    }

    /// Enqueues one job per root. A write that fails is skipped.
    method EnqueueRoots(roots: seq<PendingDelete>, lookupFails: set<PendingDelete>, fails: set<PendingDelete>)
      modifies this`jobs
      ensures jobs.Keys == old(jobs).Keys + PathsOf(roots, fails)
      ensures forall k :: 0 <= k < |roots| && Decides(roots, fails, k) ==> IsSentAgainst(roots[k], lookupFails)
      ensures forall rel :: rel in old(jobs) && rel !in PathsOf(roots, fails) ==> jobs[rel] == old(jobs)[rel]
    {
      for i := 0 to |roots|
        invariant jobs.Keys == old(jobs).Keys + PathsOf(roots[..i], fails)
        invariant forall k :: 0 <= k < i && Decides(roots, fails, k) ==> IsSentAgainst(roots[k], lookupFails)
        invariant forall rel :: rel in old(jobs) && rel !in PathsOf(roots[..i], fails) ==> jobs[rel] == old(jobs)[rel]
      {
        OneMorePath(roots, fails, i);
        if roots[i] !in fails {
          EnqueueRoot(roots[i], lookupFails);
        }
      }
      assert roots[..|roots|] == roots;
    }

    /// Removes the local row of every entry. A write that fails is skipped.
    method Untrack(batch: seq<PendingDelete>, fails: PendingDelete -> bool)
      modifies this`knownFolders, this`localFiles
      ensures knownFolders == old(knownFolders) - set e | e in batch && e.isDir && !fails(e) :: e.rel
      ensures localFiles == old(localFiles) - set e | e in batch && !e.isDir && !fails(e) :: e.rel
    {
      for i := 0 to |batch|
        invariant knownFolders == old(knownFolders) - set e | e in batch[..i] && e.isDir && !fails(e) :: e.rel
        invariant localFiles == old(localFiles) - set e | e in batch[..i] && !e.isDir && !fails(e) :: e.rel
      {
        var e := batch[i];
        assert batch[..i + 1] == batch[..i] + [e];
        if !fails(e) {
          if e.isDir {
            knownFolders := knownFolders - {e.rel};
          } else {
            localFiles := localFiles - {e.rel};
          }
        }
      }
      assert batch[..|batch|] == batch;
    }

    /// One flush: a job for every minimal root and no other, every entry untracked.
    method FlushPendingDeletes(batch: seq<PendingDelete>, lookupFails: set<PendingDelete>,
                               enqueueFails: set<PendingDelete>, untrackFails: PendingDelete -> bool)
      modifies this
      ensures remoteRevs == old(remoteRevs)
      ensures jobs.Keys == old(jobs).Keys + JobsOf(batch, enqueueFails)
      ensures var roots := MinimalDeleteRoots(batch);
        forall k :: 0 <= k < |roots| && Decides(roots, enqueueFails, k) ==> IsSentAgainst(roots[k], lookupFails)
      ensures forall rel :: rel in old(jobs) && rel !in JobsOf(batch, enqueueFails) ==> jobs[rel] == old(jobs)[rel]
      ensures forall e :: e in batch ==> IsCovered(jobs.Keys + FailedOf(batch, enqueueFails), e.rel)
      ensures knownFolders == old(knownFolders) - set e | e in batch && e.isDir && !untrackFails(e) :: e.rel
      ensures localFiles == old(localFiles) - set e | e in batch && !e.isDir && !untrackFails(e) :: e.rel
    {
      if batch == [] {
        return;
      }
      forall e | e in batch ensures IsCovered(JobsOf(batch, enqueueFails) + FailedOf(batch, enqueueFails), e.rel) {
        FlushedIsCovered(batch, enqueueFails, e);
      }
      EnqueueRoots(MinimalDeleteRoots(batch), lookupFails, enqueueFails);
      Untrack(batch, untrackFails);
    }
  }
}
