// The first upload of a file: what Dropbox holds at its name is never overwritten unless this
// client put it there, and a collision keeps both files.
module FirstUpload {
  import opened Common
  import opened ConflictName

  const NEEDS_RESCAN := ""

  type Tree = map<Path, seq<byte>>

  /// A file on Dropbox that an upload replaced.
  datatype Overwrite = Overwrite(path: Path, bytes: seq<byte>, guarded: bool)

  // ---- Contents ----

  function Holders(tree: Tree, bytes: seq<byte>): set<Path> {
    set p | p in tree && tree[p] == bytes
  }

  function CountOf(tree: Tree, bytes: seq<byte>): nat {
    |Holders(tree, bytes)|
  }

  /// The same contents as often, wherever they are.
  ghost predicate SameContents(before: Tree, after: Tree) {
    forall bytes :: CountOf(after, bytes) == CountOf(before, bytes)
  }

  lemma SwapKeepsSize<T>(s: set<T>, x: T, y: T)
    requires x in s && y !in s
    ensures |s - {x} + {y}| == |s|
  {
    assert |s - {x}| == |s| - 1;
  }

  lemma MoveKeepsCount(tree: Tree, p: Path, q: Path, bytes: seq<byte>)
    requires p in tree && q !in tree
    ensures CountOf(tree[q := tree[p]] - {p}, bytes) == CountOf(tree, bytes)
  {
    var after := tree[q := tree[p]] - {p};
    var was, now := Holders(tree, bytes), Holders(after, bytes);
    if tree[p] == bytes {
      SwapKeepsSize(was, p, q);
      assert now == was - {p} + {q};
    } else {
      assert now == was;
    }
  }

  lemma MoveKeepsContents(tree: Tree, p: Path, q: Path)
    requires p in tree && q !in tree
    ensures SameContents(tree, tree[q := tree[p]] - {p})
  {
    forall bytes ensures CountOf(tree[q := tree[p]] - {p}, bytes) == CountOf(tree, bytes) {
      MoveKeepsCount(tree, p, q, bytes);
    }
  }

  class Uploader {
    var local: Tree                         // the sync folder
    var rows: map<Path, string>             // local index: content hash
    var marks: map<Path, Option<string>>    // unconfirmed_uploads, with the hash last sent
    var remotes: map<Path, string>
    var conflicts: set<(Path, Path)>        // path and conflicted copy
    var cloud: Tree                         // Dropbox
    const hash: seq<byte> -> string
    const env: Environment
    const fold: Path -> Path
    const ignored: Path -> bool
    ghost var lastSeen: Tree                // the folder as the user last left it
    ghost var indexed: set<(Path, string)>  // every hash the index ever had for a path
    ghost var overwritten: seq<Overwrite>

    constructor (hash: seq<byte> -> string, fold: Path -> Path, ignored: Path -> bool)
      ensures Valid() && this.hash == hash
    {
      local, rows, marks, remotes, conflicts, cloud := map[], map[], map[], map[], {}, map[];
      lastSeen, indexed, overwritten := map[], {}, [];
      this.hash, this.fold, this.ignored := hash, fold, ignored;
      env := new Environment();
    }

    /// The index remembers what it saw.
    ghost predicate IndexedIsKnown() reads this`rows, this`marks, this`indexed {
      && (forall p :: p in rows && rows[p] != NEEDS_RESCAN ==> (p, rows[p]) in indexed)
      && forall p :: p in marks && marks[p].Some? ==> (p, marks[p].value) in indexed
    }

    /// A guarded upload replaced only content this client had indexed at that very path.
    ghost predicate NoStrangerOverwritten() reads this`indexed, this`overwritten {
      forall o :: o in overwritten && o.guarded ==> (o.path, hash(o.bytes)) in indexed
    }

    ghost predicate Valid()
      reads this`local, this`rows, this`marks, this`lastSeen, this`indexed, this`overwritten
    {
      && IndexedIsKnown() && NoStrangerOverwritten()
      // Nothing the user left in the folder was lost since.
      && SameContents(lastSeen, local)
    }

    /// The path has no row, or its first upload is unconfirmed.
    predicate Guarded(p: Path) reads this`rows, this`marks {
      IsGuarded(rows, marks, p)
    }

    /// Dropbox holds nothing at the path, or the very hash this client recorded before sending.
    predicate MaySend(p: Path) reads this`cloud, this`marks {
      IsOurs(hash, marks, cloud, p)
    }

    /// The index of other paths is as it was, and so are the conflicts of other files.
    twostate predicate OthersAreUntouched(p: Path) reads this`rows, this`marks, this`remotes, this`conflicts {
      && rows - {p} == old(rows) - {p} && marks - {p} == old(marks) - {p}
      && SameButSpellings(fold, old(remotes), remotes, p)
      && old(conflicts) <= conflicts && forall c :: c in conflicts && c !in old(conflicts) ==> c.0 == p
    }

    // Primitives.

    /// The user saves, renames and deletes.
    method UserActs()
      requires Valid()
      modifies this`local, this`lastSeen, env
      ensures env.faults >= old(env.faults) && env.crashes == old(env.crashes)
      ensures env.faults == old(env.faults) ==> local == old(local)
      ensures Valid()
    {
      ghost var before := local;
      local := *;
      lastSeen := local;
      env.Count(local != before);
    }

    /// Other clients write to Dropbox, between attempts.
    method OthersAct()
      modifies this`cloud
    {
      cloud := *;
    }

    /// The scan meets the file: a new one is marked, a known one re-indexed.
    method Scan(p: Path)
      requires Valid()
      modifies this`rows, this`marks, this`indexed
      ensures Valid()
      ensures if p in local then indexed == old(indexed) + {(p, hash(local[p]))} else indexed == old(indexed)
      ensures rows == if p in local then old(rows)[p := hash(local[p])] else old(rows)
      // Only a new file gets a marker.
      ensures marks ==
              if p in local && p !in old(rows) && p !in old(marks) then old(marks)[p := None] else old(marks)
    {
      if p in local {
        if p !in rows && p !in marks {
          marks := marks[p := None];
        }
        rows := rows[p := hash(local[p])];
        indexed := indexed + {(p, hash(local[p]))};
      }
    }

    /// Untracks: the row and the marker.
    method RemoveLocalFile(p: Path) returns (r: Reply<Unit>)
      requires Valid()
      modifies this`rows, this`marks, env
      ensures env.faults == old(env.faults) + if r.Ok? then 0 else 1
      ensures env.crashes == old(env.crashes) + if r.Crash? then 1 else 0
      ensures Valid()
      ensures r.Ok? ==> rows == old(rows) - {p} && marks == old(marks) - {p}
      ensures r.Err? ==> rows == old(rows) && marks == old(marks)
      ensures rows.Keys <= old(rows).Keys && OthersAreUntouched(p)
    {
      var applied;
      r, applied := env.Answer(true);
      if applied {
        rows, marks := rows - {p}, marks - {p};
      }
    }

    method MarkForRescan(p: Path) returns (r: Reply<Unit>)
      requires Valid()
      modifies this`rows, env
      ensures env.faults == old(env.faults) + if r.Ok? then 0 else 1
      ensures env.crashes == old(env.crashes) + if r.Crash? then 1 else 0
      ensures Valid()
      ensures r.Ok? ==> rows == if p in old(rows) then old(rows)[p := NEEDS_RESCAN] else old(rows)
      ensures r.Err? ==> rows == old(rows)
      ensures OthersAreUntouched(p)
    {
      var applied;
      r, applied := env.Answer(true);
      if applied && p in rows {
        rows := rows[p := NEEDS_RESCAN];
      }
    }

    /// Remembers what is about to be sent; without a marker there is nothing to remember it in.
    method RecordUploadAttempt(p: Path, sent: string) returns (r: Reply<Unit>)
      requires Valid() && (p, sent) in indexed
      modifies this`marks, env
      ensures env.faults == old(env.faults) + if r.Ok? then 0 else 1
      ensures env.crashes == old(env.crashes) + if r.Crash? then 1 else 0
      ensures Valid()
      ensures marks.Keys == old(marks).Keys && OthersAreUntouched(p)
      ensures r.Ok? && p in marks ==> marks[p] == Some(sent)
    {
      var applied;
      r, applied := env.Answer(true);
      if applied && p in marks {
        marks := marks[p := Some(sent)];
      }
    }

    /// One transaction: the remote row, if Dropbox described what it has, and the marker.
    method ConfirmUploadLanded(p: Path, landed: Option<string>) returns (r: Reply<Unit>)
      requires Valid()
      modifies this`remotes, this`marks, env
      ensures env.faults == old(env.faults) + if r.Ok? then 0 else 1
      ensures env.crashes == old(env.crashes) + if r.Crash? then 1 else 0
      ensures Valid()
      ensures r.Ok? ==> p !in marks && (landed.Some? ==> p in remotes && remotes[p] == landed.value)
      ensures || (marks == old(marks) && remotes == old(remotes))
              || (&& marks == old(marks) - {p}
                  && remotes == if landed.Some? then old(remotes)[p := landed.value] else old(remotes))
      ensures r.Err? ==> marks == old(marks) && remotes == old(remotes)
    {
      var applied;
      r, applied := env.Answer(true);
      if applied {
        if landed.Some? {
          remotes := remotes[p := landed.value];
        }
        marks := marks - {p};
      }
    }

    /// Renames the file to a name nothing has.
    method MoveAside(p: Path, stamp: string) returns (r: Reply<Path>)
      requires Valid() && p.name != "" && '.' !in stamp
      modifies this`local, env
      ensures env.faults == old(env.faults) + if r.Ok? then 0 else 1
      ensures env.crashes == old(env.crashes) + if r.Crash? then 1 else 0
      ensures Valid()
      ensures r.Ok? ==> p in old(local) && r.value !in old(local) && r.value.dir == p.dir
      ensures r.Ok? ==> local == old(local)[r.value := old(local)[p]] - {p}
      ensures r.Err? ==> local == old(local)
    {
      var siblings := set q | q in local && q.dir == p.dir :: q.name;
      var name := UniqueConflictedName(siblings, p.name, stamp);
      var copy := Path(p.dir, name);
      assert copy !in local;
      var moved, applied := env.Answer(p in local);
      if applied {
        MoveKeepsContents(local, p, copy);
        local := local[copy := local[p]] - {p};
      }
      r := if moved.Ok? then Ok(copy) else if moved.Err? then Err else Crash;
    }

    // The attempt.

    /// What never landed is untracked; of a file Dropbox has, the row stays and is to be looked at again.
    twostate predicate IsForgotten(p: Path) reads this`rows, this`marks, this`remotes {
      if p in old(marks) || p !in old(remotes) || ignored(p) then
        rows == old(rows) - {p} && marks == old(marks) - {p}
      else
        marks == old(marks) && rows == if p in old(rows) then old(rows)[p := NEEDS_RESCAN] else old(rows)
    }

    /// The file is gone: untrack what never landed, have the rest looked at again. Nothing is sent
    /// or deleted.
    method Vanished(p: Path) returns (r: Reply<Unit>)
      requires Valid()
      modifies this`rows, this`marks, env
      ensures env.faults >= old(env.faults)
      ensures env.crashes == old(env.crashes) + if r.Crash? then 1 else 0
      ensures env.faults == old(env.faults) ==> r.Ok?
      ensures Valid()
      ensures r.Ok? ==> IsForgotten(p)
      ensures OthersAreUntouched(p)
    {
      var read, _ := env.Answer(true);
      if !read.Ok? {
        return read;
      }
      if p in marks || p !in remotes || ignored(p) {
        r := RemoveLocalFile(p);
      } else {
        r := MarkForRescan(p);
      }
    }

    /// What Dropbox holds is a stranger's: the guard applies, and it is neither our own nor the same.
    predicate Collides(p: Path) reads this`local, this`rows, this`marks, this`cloud {
      IsCollision(hash, local, rows, marks, cloud, p)
    }

    /// Dropbox has nothing there, or something else that this client knows it put there or replaces
    /// knowingly.
    ghost predicate IsToBeSent(p: Path) reads this`local, this`rows, this`marks, this`cloud {
      && p in local
      && (|| p !in cloud
          || ((p !in rows || p in marks) && hash(local[p]) != hash(cloud[p]) && WasSentBefore(p))
          || (p in rows && p !in marks && rows[p] != hash(cloud[p])))
    }

    /// What Dropbox holds is what this client recorded before an earlier send.
    ghost predicate WasSentBefore(p: Path)
      requires p in cloud
      reads this`marks, this`cloud
    {
      p in marks && marks[p].Some? && marks[p].value == hash(cloud[p])
    }

    /// The file is under a name nothing had, the path is free, and the conflict names both.
    ghost predicate IsMovedAside(before: Tree, p: Path) reads this`local, this`conflicts {
      p !in local && exists copy :: IsFreshCopy(before, p, local, copy) && (p, copy) in conflicts
    }

    /// Keeps both files: the local one under a new name, Dropbox's at the path.
    method ResolveCollision(p: Path, stamp: string) returns (r: Reply<Unit>)
      requires Valid() && p.name != "" && '.' !in stamp
      modifies this`local, this`rows, this`marks, this`conflicts, env
      ensures env.faults >= old(env.faults)
      ensures env.crashes == old(env.crashes) + if r.Crash? then 1 else 0
      ensures env.faults == old(env.faults) && p in old(local) ==> r.Ok?
      ensures Valid()
      ensures r.Ok? ==> p in old(local) && rows == old(rows) - {p} && p !in marks && IsMovedAside(old(local), p)
      ensures OthersAreUntouched(p)
    {
      var copy := MoveAside(p, stamp);
      if !copy.Ok? {
        return if copy.Err? then Err else Crash;
      }
      r := RemoveLocalFile(p);
      if !r.Ok? {
        return;
      }
      var applied;
      r, applied := env.Answer(true);
      if applied {
        conflicts := conflicts + {(p, copy.value)};
      }
    }

    /// Dropbox has these bytes already: record them, under the spelling the index knows.
    method RecordIdenticalRemote(p: Path, remote: string) returns (r: Reply<Unit>)
      requires Valid()
      modifies this`remotes, this`marks, env
      ensures env.faults >= old(env.faults)
      ensures env.crashes == old(env.crashes) + if r.Crash? then 1 else 0
      ensures env.faults == old(env.faults) ==> r.Ok?
      ensures Valid()
      ensures r.Ok? ==> p !in marks && exists k :: IsRowOf(k, p, remote)
      ensures OthersAreUntouched(p)
      ensures remotes.Keys == old(remotes).Keys ||
        (remotes.Keys == old(remotes).Keys + {p} && forall k :: k in old(remotes) ==> fold(k) != fold(p))
    {
      var read, _ := env.Answer(true);
      if !read.Ok? {
        return read;
      }
      if k :| k in remotes && fold(k) == fold(p) {
        var applied;
        r, applied := env.Answer(true);
        if applied {
          remotes := remotes[k := remote];
        }
        if r.Ok? {
          r := ConfirmUploadLanded(p, None);
          assert IsRowOf(k, p, remote);
        }
      } else {
        r := ConfirmUploadLanded(p, Some(remote));
        assert r.Ok? ==> IsRowOf(p, p, remote);
      }
    }

    /// The remote row, under any spelling of the path, says what Dropbox has.
    predicate IsRowOf(k: Path, p: Path, remote: string) reads this`remotes {
      k in remotes && fold(k) == fold(p) && remotes[k] == remote
    }

    /// What was replaced at the path is on record.
    twostate predicate LogsOverwrite(p: Path) reads this`cloud, this`overwritten, this`rows, this`marks {
      || (overwritten == old(overwritten) && (cloud != old(cloud) ==> p !in old(cloud)))
      || (p in old(cloud) && overwritten == old(overwritten)
            + [Overwrite(p, old(cloud)[p], p !in old(rows) || p in old(marks))])
    }

    /// The bytes go to Dropbox. The answer may be lost although they arrived, and it may fail to
    /// describe what Dropbox has now.
    method Send(p: Path, described: bool) returns (r: Reply<Option<string>>)
      requires Valid() && (Guarded(p) ==> p !in cloud || (p, hash(cloud[p])) in indexed)
      modifies this`cloud, this`overwritten, env
      ensures env.faults >= old(env.faults)
      ensures env.crashes == old(env.crashes) + if r.Crash? then 1 else 0
      ensures env.faults == old(env.faults) && p in local ==> r.Ok?
      ensures Valid()
      ensures cloud == old(cloud) || (p in local && cloud == old(cloud)[p := local[p]])
      ensures r.Ok? ==> p in local && cloud == old(cloud)[p := local[p]]
      ensures r.Ok? ==> r.value == if described then Some(hash(local[p])) else None
      ensures LogsOverwrite(p)
    {
      var sent, applied := env.Answer(p in local);
      if applied {
        if p in cloud {
          overwritten := overwritten + [Overwrite(p, cloud[p], Guarded(p))];
        }
        cloud := cloud[p := local[p]];
      }
      if !sent.Ok? {
        return if sent.Err? then Err else Crash;
      }
      r := Ok(if described then Some(hash(cloud[p])) else None);
    }

    /// What the guard decides about what Dropbox holds.
    method Judge(p: Path, remote: string) returns (r: Reply<Verdict>)
      requires Valid()
      modifies this`local, this`lastSeen, env
      ensures env.faults >= old(env.faults)
      ensures env.crashes == old(env.crashes) + if r.Crash? then 1 else 0
      ensures env.faults == old(env.faults) ==>
                r.Ok? && local == old(local) && (p in local ==> (r == Ok(Identical) <==> hash(local[p]) == remote))
      ensures Valid() && (r.Ok? || r.Crash?)
      ensures r == Ok(Ours) ==> p in marks && marks[p] == Some(remote)
      ensures r == Ok(Identical) ==> p in local && hash(local[p]) == remote
      ensures r == Ok(Stranger) ==> !(p in marks && marks[p] == Some(remote))
    {
      UserActs();
      var hashed, _ := env.Answer(p in local);
      if hashed.Crash? {
        return Crash;
      }
      if hashed.Ok? && hash(local[p]) == remote {
        return Ok(Identical);
      }
      r := Ok(if p in marks && marks[p] == Some(remote) then Ours else Stranger);
    }

    /// Looks at what Dropbox holds. `Ok(true)` goes on to send; otherwise the attempt is over.
    method Consider(p: Path, stamp: string) returns (r: Reply<bool>)
      requires Valid() && p.name != "" && '.' !in stamp
      modifies this`local, this`lastSeen, this`rows, this`marks, this`remotes, this`conflicts, env
      ensures env.faults >= old(env.faults)
      ensures env.crashes == old(env.crashes) + if r.Crash? then 1 else 0
      ensures r == Ok(false) ==> p !in marks
      // If nothing fails, it goes on exactly when the file is to be sent, and moves it aside exactly
      // when it collides.
      ensures env.faults == old(env.faults) && p in old(local) ==> r == Ok(old(IsToBeSent(p)))
      ensures env.faults == old(env.faults) && p in old(local) && old(Collides(p)) ==> IsMovedAside(old(local), p)
      ensures env.faults == old(env.faults) && p in old(local) && !old(Collides(p)) ==> local == old(local)
      // What Dropbox has already is in the index then, under a spelling of the path.
      ensures env.faults == old(env.faults) && p in old(local) && !old(Collides(p)) ==>
                rows == old(rows) && (r == Ok(false) ==> p in cloud && exists k :: IsRowOf(k, p, hash(cloud[p])))
      ensures env.faults == old(env.faults) && p in old(local) && old(Collides(p)) ==> rows == old(rows) - {p}
      ensures Valid() && OthersAreUntouched(p)
      ensures r == Ok(true) ==> remotes == old(remotes) && conflicts == old(conflicts)
      ensures r == Ok(true) ==> rows == old(rows) && marks == old(marks) && (Guarded(p) ==> MaySend(p))
    {
      var fetched, _ := env.Answer(true);
      if !fetched.Ok? {
        return if fetched.Err? then Err else Crash;
      }
      if p !in cloud {
        return Ok(true);
      }
      var remote := hash(cloud[p]);
      var over;
      if Guarded(p) {
        var verdict := Judge(p, remote);
        match verdict
        case Ok(Stranger) =>
          over := ResolveCollision(p, stamp);
        case Ok(Identical) =>
          over := RecordIdenticalRemote(p, remote);
        case Ok(Ours) =>
          return Ok(true);
        case _ =>
          return Crash;
      } else if rows[p] == remote {
        over := RecordIdenticalRemote(p, remote);
      } else {
        return Ok(true);
      }
      r := if over.Ok? then Ok(false) else if over.Err? then Err else Crash;
    }

    /// A guarded upload of an indexed file leaves word of what it is about to send.
    method Announce(p: Path) returns (r: Reply<Unit>)
      requires Valid() && (Guarded(p) ==> MaySend(p))
      modifies this`marks, env
      ensures env.faults == old(env.faults) + if r.Ok? then 0 else 1
      ensures env.crashes == old(env.crashes) + if r.Crash? then 1 else 0
      ensures Valid() && OthersAreUntouched(p)
      ensures (Guarded(p) <==> old(Guarded(p))) && (p in marks <==> p in old(marks))
      ensures Guarded(p) ==> p !in cloud || (p, hash(cloud[p])) in indexed
      ensures r.Ok? && p in marks && p in rows && rows[p] != NEEDS_RESCAN ==> marks[p] == Some(rows[p])
    {
      r := Ok(Unit);
      if Guarded(p) && p in rows && rows[p] != NEEDS_RESCAN {
        r := RecordUploadAttempt(p, rows[p]);
      }
    }

    /// Sends the file, as the user left it by then, and records that it landed.
    method SendAndConfirm(p: Path, described: bool) returns (r: Reply<Unit>)
      requires Valid() && (Guarded(p) ==> p !in cloud || (p, hash(cloud[p])) in indexed)
      modifies this`local, this`lastSeen, this`marks, this`remotes, this`cloud, this`overwritten, env
      ensures env.faults >= old(env.faults)
      ensures env.crashes == old(env.crashes) + if r.Crash? then 1 else 0
      ensures env.faults == old(env.faults) && p in old(local) ==>
                && r.Ok? && local == old(local) && cloud == old(cloud)[p := local[p]] && p !in marks
                && remotes == if described then old(remotes)[p := hash(cloud[p])] else old(remotes)
      ensures Valid() && DiffersOnlyAt(old(cloud), cloud, p) && LogsOverwrite(p)
      ensures marks == old(marks) || marks == old(marks) - {p}
      ensures remotes == old(remotes) || (p in cloud && remotes == old(remotes)[p := hash(cloud[p])])
    {
      UserActs();
      var committed := Send(p, described);
      if !committed.Ok? {
        return if committed.Err? then Err else Crash;
      }
      r := ConfirmUploadLanded(p, committed.value);
    }

    /// Remembers what is about to be sent, sends it, and records that it landed.
    method SendAndRecord(p: Path, described: bool) returns (r: Reply<Unit>)
      requires Valid() && (Guarded(p) ==> MaySend(p))
      modifies this`local, this`lastSeen, this`marks, this`remotes, this`cloud, this`overwritten, env
      ensures env.faults >= old(env.faults)
      ensures env.crashes == old(env.crashes) + if r.Crash? then 1 else 0
      ensures env.faults == old(env.faults) && p in old(local) ==>
                && r.Ok? && local == old(local) && cloud == old(cloud)[p := local[p]] && p !in marks
                && remotes == if described then old(remotes)[p := hash(cloud[p])] else old(remotes)
      ensures Valid() && OthersAreUntouched(p)
      // The remote row is as it was, or describes what Dropbox has.
      ensures remotes == old(remotes) || (p in cloud && remotes == old(remotes)[p := hash(cloud[p])])
      ensures DiffersOnlyAt(old(cloud), cloud, p) && LogsOverwrite(p)
      // A lost answer is recognised on the retry exactly when the row described what was sent.
      ensures cloud != old(cloud) && p in marks && p in rows && rows[p] != NEEDS_RESCAN ==>
                (MaySend(p) <==> hash(cloud[p]) == rows[p])
    {
      r := Announce(p);
      if !r.Ok? {
        return;
      }
      r := SendAndConfirm(p, described);
    }

    /// One run of the upload job.
    method Attempt(p: Path, stamp: string, described: bool) returns (r: Reply<Unit>)
      requires Valid() && p.name != "" && '.' !in stamp
      modifies this`local, this`lastSeen, this`rows, this`marks, this`remotes, this`conflicts, this`cloud,
               this`overwritten, env
      ensures env.faults >= old(env.faults)
      ensures env.crashes == old(env.crashes) + if r.Crash? then 1 else 0
      // If nothing fails and the user keeps still, the file is sent exactly when it is to be, moved
      // aside exactly when it collides, and left alone otherwise.
      ensures env.faults == old(env.faults) && p in old(local) ==>
                && r.Ok? && p !in marks
                && cloud == if old(IsToBeSent(p)) then old(cloud)[p := old(local)[p]] else old(cloud)
      ensures env.faults == old(env.faults) && p in old(local) ==>
                if old(Collides(p)) then IsMovedAside(old(local), p) else local == old(local)
      // The index then says what Dropbox has: if it was sent, as far as the answer to that did; if Dropbox
      // had the very bytes, under a spelling of the path. Only a collision untracks the file.
      ensures env.faults == old(env.faults) && p in old(local) ==>
                rows == if old(Collides(p)) then old(rows) - {p} else old(rows)
      ensures env.faults == old(env.faults) && old(IsToBeSent(p)) ==>
                remotes == if described then old(remotes)[p := hash(cloud[p])] else old(remotes)
      ensures env.faults == old(env.faults) && p in old(local) && !old(IsToBeSent(p)) && !old(Collides(p)) ==>
                p in cloud && exists k :: IsRowOf(k, p, hash(cloud[p]))
      // A file that is not there is not sent.
      ensures env.faults == old(env.faults) && p !in old(local) ==>
                r.Ok? && IsForgotten(p) && cloud == old(cloud) && local == old(local)
      // On every exit, a crash and a lost answer included:
      ensures Valid() && OthersAreUntouched(p)
      ensures DiffersOnlyAt(old(cloud), cloud, p) && LogsOverwrite(p)
      ensures cloud != old(cloud) && (p !in old(rows) || p in old(marks)) ==>
                p !in old(cloud) || old(WasSentBefore(p))
    {
      UserActs();
      if p !in local {
        var confirmed, _ := env.Answer(true);
        if confirmed.Ok? {
          r := Vanished(p);
        } else {
          r := confirmed;
        }
        return;
      }
      var goOn := Consider(p, stamp);
      if goOn != Ok(true) {
        return if goOn.Ok? then Ok(Unit) else if goOn.Err? then Err else Crash;
      }
      r := SendAndRecord(p, described);
    }

    /// Any run: attempts for any path, and between them scans, saves, deletions and writes by
    /// other clients.
    method Run(steps: nat)
      requires Valid()
      modifies this, env
      ensures Valid()
    {
      for i := 0 to steps
        invariant Valid()
      {
        var choice: int := *;
        var p: Path, stamp: string, described: bool := *, *, *;
        if choice == 0 {
          UserActs();
        } else if choice == 1 {
          OthersAct();
        } else if choice == 2 {
          Scan(p);
        } else if p.name != "" && '.' !in stamp {
          var _ := Attempt(p, stamp, described);
        }
      }
    }
  }

  /// The same for every path that is not another spelling of this one.
  ghost predicate SameButSpellings(fold: Path -> Path, before: map<Path, string>, after: map<Path, string>, p: Path) {
    forall q :: fold(q) != fold(p) ==> (q in before <==> q in after) && (q in before ==> after[q] == before[q])
  }

  /// Only the file at `p` was written, and nothing was deleted.
  ghost predicate DiffersOnlyAt(before: Tree, after: Tree, p: Path) {
    && before.Keys <= after.Keys <= before.Keys + {p}
    && forall q :: q in before && q != p ==> after[q] == before[q]
  }

  predicate IsFreshCopy(before: Tree, p: Path, after: Tree, copy: Path) {
    copy !in before && copy.dir == p.dir && p in before && copy in after && after[copy] == before[p]
  }

  predicate IsGuarded(rows: map<Path, string>, marks: map<Path, Option<string>>, p: Path) {
    p !in rows || p in marks
  }

  predicate IsOurs(hash: seq<byte> -> string, marks: map<Path, Option<string>>, cloud: Tree, p: Path) {
    p !in cloud || (p in marks && marks[p] == Some(hash(cloud[p])))
  }

  predicate IsCollision(hash: seq<byte> -> string, local: Tree, rows: map<Path, string>,
                        marks: map<Path, Option<string>>, cloud: Tree, p: Path)
  {
    && p in local && p in cloud && hash(local[p]) != hash(cloud[p]) && (p !in rows || p in marks)
    && (p !in marks || marks[p].None? || marks[p].value != hash(cloud[p]))
  }

  /// A file edited between the scan and the send, whose answer was lost, and edited once more: the
  /// row did not describe what was sent, so the client's own upload looks like a stranger's.
  lemma LostAnswerMayCollide(hash: seq<byte> -> string, p: Path, scanned: seq<byte>, sent: seq<byte>, edited: seq<byte>)
    requires hash(scanned) != hash(sent) && hash(edited) != hash(sent)
    ensures var rows, marks := map[p := hash(scanned)], map[p := Some(hash(scanned))];
      IsCollision(hash, map[p := edited], rows, marks, map[p := sent], p)
  {
  }

  datatype Verdict = Ours | Identical | Stranger
}
