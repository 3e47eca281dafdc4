// A local deletion decided by the remote delta is verified again when its job runs: the file goes
// only if Dropbox still has no such path and the disk still holds what was synced.
module DeferredDelete {
  import opened Common

  const NEEDS_RESCAN := ""

  datatype Node = File(bytes: seq<byte>) | OnlineOnly | Dir

  /// The remote row; an id is not always known.
  datatype Remote = Remote(hash: string, id: Option<string>)

  datatype Outcome = Deleted | Cancelled

  /// Bytes this code unlinked, with what the index said of them.
  datatype Loss = Loss(path: string, bytes: seq<byte>, row: string, remote: string)

  class Client {
    var disk: map<string, Node>
    var rows: map<string, string>
    var remotes: map<string, Remote>
    var conflicts: set<string>   // remote-deleted conflicts, by path
    var uploads: set<string>     // active upload jobs, by path
    var pending: set<nat>        // deferred local_delete jobs
    const hash: seq<byte> -> string
    const env: Environment
    ghost var losses: seq<Loss>

    constructor (hash: seq<byte> -> string)
      ensures Valid() && this.hash == hash
    {
      disk, rows, remotes, conflicts, uploads, pending, losses := map[], map[], map[], {}, {}, {}, [];
      this.hash := hash;
      env := new Environment();
    }

    /// Every file ever unlinked held what the index knew it held, and what Dropbox had had.
    ghost predicate Valid() reads this`losses {
      forall l :: l in losses ==> l.row != NEEDS_RESCAN && hash(l.bytes) == l.row == l.remote
    }

    /// The disk holds the bytes both index rows describe.
    predicate IsSynced(rel: string) reads this`disk, this`rows, this`remotes {
      && rel in disk && disk[rel].File? && rel in rows && rel in remotes
      && rows[rel] != NEEDS_RESCAN && hash(disk[rel].bytes) == rows[rel] == remotes[rel].hash
    }

    /// Nothing on disk would be lost.
    predicate HasNothingToLose(rel: string) reads this`disk, this`rows, this`remotes {
      rel !in disk || disk[rel].OnlineOnly? || IsSynced(rel)
    }

    /// What Dropbox answered is the very file this client last synced.
    predicate IsUnchangedRemote(rel: string, meta: Remote) reads this`remotes {
      && rel in remotes && meta.hash == remotes[rel].hash
      && (remotes[rel].id.Some? ==> meta.id == remotes[rel].id)
    }

    /// The bytes that went are on record, and nothing else is.
    twostate predicate LogsLoss(rel: string) reads this`disk, this`losses, this`rows, this`remotes {
      if disk != old(disk) && rel in old(disk) && old(disk)[rel].File? then
        && rel in old(rows) && rel in old(remotes)
        && losses == old(losses) + [Loss(rel, old(disk)[rel].bytes, old(rows)[rel], old(remotes)[rel].hash)]
      else losses == old(losses)
    }

    // Primitives.

    method RemoveFile(rel: string) returns (r: Reply<Unit>)
      requires Valid() && rel in disk && (disk[rel].File? ==> IsSynced(rel))
      modifies this`disk, this`losses, env
      ensures env.faults == old(env.faults) + if r.Ok? then 0 else 1
      ensures env.crashes == old(env.crashes) + if r.Crash? then 1 else 0
      ensures Valid()
      ensures r.Ok? ==> disk == old(disk) - {rel}
      ensures disk == old(disk) || disk == old(disk) - {rel}
      ensures r.Err? ==> disk == old(disk)
      ensures LogsLoss(rel)
    {
      var applied;
      r, applied := env.Answer(!disk[rel].Dir?);
      if applied {
        if disk[rel].File? {
          losses := losses + [Loss(rel, disk[rel].bytes, rows[rel], remotes[rel].hash)];
        }
        disk := disk - {rel};
      }
    }

    method RemoveLocalRow(rel: string) returns (r: Reply<Unit>)
      modifies this`rows, env
      ensures env.faults == old(env.faults) + if r.Ok? then 0 else 1
      ensures env.crashes == old(env.crashes) + if r.Crash? then 1 else 0
      ensures rows == old(rows) || rows == old(rows) - {rel}
      ensures r.Ok? ==> rel !in rows
    {
      var applied;
      r, applied := env.Answer(true);
      if applied {
        rows := rows - {rel};
      }
    }

    method RemoveRemoteRow(rel: string) returns (r: Reply<Unit>)
      modifies this`remotes, env
      ensures env.faults == old(env.faults) + if r.Ok? then 0 else 1
      ensures env.crashes == old(env.crashes) + if r.Crash? then 1 else 0
      ensures remotes == old(remotes) || remotes == old(remotes) - {rel}
      ensures r.Ok? ==> rel !in remotes
    {
      var applied;
      r, applied := env.Answer(true);
      if applied {
        remotes := remotes - {rel};
      }
    }

    method AddConflict(rel: string) returns (r: Reply<Unit>)
      modifies this`conflicts, env
      ensures env.faults == old(env.faults) + if r.Ok? then 0 else 1
      ensures env.crashes == old(env.crashes) + if r.Crash? then 1 else 0
      ensures old(conflicts) <= conflicts <= old(conflicts) + {rel}
      ensures r.Ok? ==> rel in conflicts
    {
      var applied;
      r, applied := env.Answer(true);
      if applied {
        conflicts := conflicts + {rel};
      }
    }

    method EnqueueUpload(rel: string) returns (r: Reply<Unit>)
      modifies this`uploads, env
      ensures env.faults == old(env.faults) + if r.Ok? then 0 else 1
      ensures env.crashes == old(env.crashes) + if r.Crash? then 1 else 0
      ensures old(uploads) <= uploads <= old(uploads) + {rel}
      ensures r.Ok? ==> rel in uploads
      ensures r.Err? ==> uploads == old(uploads)
    {
      var applied;
      r, applied := env.Answer(true);
      if applied {
        uploads := uploads + {rel};
      }
    }

    method DropJob(job: nat) returns (r: Reply<Unit>)
      modifies this`pending, env
      ensures env.faults == old(env.faults) + if r.Ok? then 0 else 1
      ensures env.crashes == old(env.crashes) + if r.Crash? then 1 else 0
      ensures pending == old(pending) || pending == old(pending) - {job}
      ensures r.Ok? ==> job !in pending
    {
      var applied;
      r, applied := env.Answer(true);
      if applied {
        pending := pending - {job};
      }
    }

    // The check and the deletion.

    /// An unreadable file is an error, not an edit.
    method FileUnchangedSinceDeltaCheck(rel: string) returns (r: Reply<bool>)
      modifies env
      ensures env.faults >= old(env.faults)
      ensures env.crashes == old(env.crashes) + if r.Crash? then 1 else 0
      ensures env.faults == old(env.faults) ==> r.Ok?
      ensures r.Ok? ==> (r.value <==> HasNothingToLose(rel))
    {
      var read, _ := env.Answer(true);
      if !read.Ok? {
        return if read.Err? then Err else Crash;
      }
      if rel !in disk || disk[rel].OnlineOnly? {
        return Ok(true);
      }
      if rel !in rows || rows[rel] == NEEDS_RESCAN || rel !in remotes {
        return Ok(false);
      }
      var hashed, _ := env.Answer(disk[rel].File?);
      if !hashed.Ok? {
        return if hashed.Err? then Err else Crash;
      }
      var onDisk := hash(disk[rel].bytes);
      return Ok(onDisk == remotes[rel].hash && onDisk == rows[rel]);
    }

    method DeleteLocalFile(rel: string) returns (r: Reply<Unit>)
      requires Valid() && HasNothingToLose(rel)
      modifies this`disk, this`rows, this`remotes, this`losses, env
      ensures env.faults >= old(env.faults)
      ensures env.crashes == old(env.crashes) + if r.Crash? then 1 else 0
      ensures env.faults == old(env.faults) ==> r.Ok?
      ensures Valid()
      ensures (disk == old(disk) || disk == old(disk) - {rel}) && LogsLoss(rel)
      ensures rows == old(rows) || rows == old(rows) - {rel}
      ensures remotes == old(remotes) || remotes == old(remotes) - {rel}
      ensures rows != old(rows) || remotes != old(remotes) ==> rel !in disk
      ensures r.Ok? ==> rel !in disk && rel !in rows && rel !in remotes
    {
      if rel in disk {
        r := RemoveFile(rel);
        if !r.Ok? {
          return;
        }
      }
      r := RemoveLocalRow(rel);
      if r.Ok? {
        r := RemoveRemoteRow(rel);
      }
    }

    /// Dropbox still has the path: nothing is deleted, and a local edit goes up only over the
    /// remote file it was made on.
    method KeepExisting(job: nat, rel: string, meta: Remote) returns (r: Reply<Unit>)
      modifies this`uploads, this`pending, env
      ensures env.faults >= old(env.faults)
      ensures env.crashes == old(env.crashes) + if r.Crash? then 1 else 0
      ensures env.faults == old(env.faults) ==> r.Ok?
      ensures old(uploads) <= uploads <= old(uploads) + {rel}
      ensures uploads != old(uploads) ==> rel in rows && IsUnchangedRemote(rel, meta) && rows[rel] != meta.hash
      ensures pending == old(pending) || pending == old(pending) - {job}
      ensures r.Ok? || pending != old(pending) ==>
        (rel in rows && IsUnchangedRemote(rel, meta) && rows[rel] != meta.hash ==> rel in uploads)
      ensures r.Ok? ==> job !in pending
    {
      var read, _ := env.Answer(true);
      if !read.Ok? {
        return read;
      }
      if rel in rows && rel in remotes {
        var sameId := if remotes[rel].id.Some? then meta.id == remotes[rel].id else true;
        var sameFile := sameId && meta.hash == remotes[rel].hash;
        if sameFile && rows[rel] != remotes[rel].hash {
          r := EnqueueUpload(rel);
          if !r.Ok? {
            return;
          }
        }
      }
      r := DropJob(job);
    }

    /// The file changed since: a conflict, an upload, and the remote row forgotten.
    method KeepDiverged(job: nat, rel: string) returns (r: Reply<Unit>)
      modifies this`conflicts, this`remotes, this`uploads, this`pending, env
      ensures env.faults >= old(env.faults)
      ensures env.crashes == old(env.crashes) + if r.Crash? then 1 else 0
      ensures env.faults == old(env.faults) ==> r.Ok?
      ensures remotes == old(remotes) || remotes == old(remotes) - {rel}
      ensures old(conflicts) <= conflicts <= old(conflicts) + {rel} && old(uploads) <= uploads <= old(uploads) + {rel}
      ensures pending == old(pending) || pending == old(pending) - {job}
      ensures r.Ok? || pending != old(pending) ==> rel in conflicts && rel in uploads && rel !in remotes
      ensures r.Ok? ==> job !in pending
    {
      r := AddConflict(rel);
      if r.Ok? {
        r := RemoveRemoteRow(rel);
      }
      if r.Ok? {
        r := EnqueueUpload(rel);
      }
      if r.Ok? {
        r := DropJob(job);
      }
    }

    method VerifyAndDelete(job: nat, rel: string, lookup: Reply<Option<Remote>>) returns (r: Reply<Outcome>)
      requires Valid()
      modifies this`disk, this`rows, this`remotes, this`conflicts, this`uploads, this`pending, this`losses, env
      ensures env.faults >= old(env.faults)
      ensures env.crashes == old(env.crashes) + if lookup.Ok? && r.Crash? then 1 else 0
      ensures env.faults == old(env.faults) && lookup.Ok? ==> r.Ok?
      // On every exit, a crash included:
      ensures Valid() && LogsLoss(rel)
      ensures disk == old(disk) || (disk == old(disk) - {rel} && lookup == Ok(None) && old(HasNothingToLose(rel)))
      ensures !lookup.Ok? ==> r == (if lookup.Err? then Err else Crash) && Unchanged()
      ensures lookup.Ok? && lookup.value.Some? ==> disk == old(disk) && rows == old(rows) && remotes == old(remotes)
      // The job goes last: where it is gone, what it owed is done.
      ensures pending == old(pending) ||
              (pending == old(pending) - {job} && lookup.Ok? && IsAccountedFor(rel, lookup.value))
      // Outcomes:
      ensures r == Ok(Deleted) ==> lookup == Ok(None) && rel !in disk && rel !in rows && rel !in remotes
      ensures r == Ok(Cancelled) ==>
                lookup.Ok? && job !in pending && disk == old(disk) && IsAccountedFor(rel, lookup.value)
      ensures lookup == Ok(None) && r.Ok? ==> (r.value == Deleted <==> old(HasNothingToLose(rel)))
      ensures uploads != old(uploads) && lookup != Ok(None) ==>
        rel in rows && IsUnchangedRemote(rel, lookup.value.value) && rows[rel] != lookup.value.value.hash
    {
      if !lookup.Ok? {
        return if lookup.Err? then Err else Crash;
      }
      var kept;
      if lookup.value.Some? {
        kept := KeepExisting(job, rel, lookup.value.value);
      } else {
        var safe := FileUnchangedSinceDeltaCheck(rel);
        if !safe.Ok? {
          return if safe.Err? then Err else Crash;
        }
        if safe.value {
          var deleted := DeleteLocalFile(rel);
          return if deleted.Ok? then Ok(Deleted) else if deleted.Err? then Err else Crash;
        }
        kept := KeepDiverged(job, rel);
      }
      return if kept.Ok? then Ok(Cancelled) else if kept.Err? then Err else Crash;
    }

    twostate predicate Unchanged() reads this {
      && disk == old(disk) && rows == old(rows) && remotes == old(remotes) && conflicts == old(conflicts)
      && uploads == old(uploads) && pending == old(pending) && losses == old(losses)
    }

    /// What a cancelled deletion leaves behind.
    predicate IsAccountedFor(rel: string, found: Option<Remote>) reads this {
      match found
      case None => rel in conflicts && rel in uploads && rel !in remotes
      case Some(meta) => rel in rows && IsUnchangedRemote(rel, meta) && rows[rel] != meta.hash ==> rel in uploads
    }

    /// Any run of retries, with the user, scans and deltas changing everything in between.
    method Run(steps: nat)
      requires Valid()
      modifies this, env
      ensures Valid()
    {
      for i := 0 to steps
        invariant Valid()
      {
        disk, rows, remotes, conflicts, uploads, pending := *, *, *, *, *, *;
        var job: int, rel: string, lookup: Reply<Option<Remote>> := *, *, *;
        if job >= 0 {
          var _ := VerifyAndDelete(job, rel, lookup);
        }
      }
    }
  }
}
