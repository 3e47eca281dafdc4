// A download over a local file: local bytes that Dropbox never had are kept beside it first.
module Download {
  import opened Common
  import opened ConflictName

  const NEEDS_RESCAN := ""

  type Tree = map<Path, seq<byte>>

  /// The local file differs from what the index last knew, or the index knows it does not know.
  predicate WouldConflict(onDisk: string, baseline: Option<string>) {
    match baseline
    case None => false
    case Some(b) => b == NEEDS_RESCAN || onDisk != b
  }

  /// Overwriting would destroy bytes Dropbox does not have.
  predicate WouldDestroyLocal(remote: Option<string>, onDisk: string, baseline: Option<string>) {
    remote != Some(onDisk) && WouldConflict(onDisk, baseline)
  }

  predicate StartsWith(s: string, prefix: string) {
    prefix <= s
  }

  predicate IsCopyName(p: Path, q: Path) {
    q.dir == p.dir && q != p && StartsWith(q.name, Stem(p.name) + NOTE)
  }

  /// A conflicted copy beside the file holds the same content.
  ghost predicate HasCopy(hash: seq<byte> -> string, tree: Tree, p: Path, content: string) {
    exists q :: q in tree && IsCopyName(p, q) && hash(tree[q]) == content
  }

  /// What the file is judged against: an unconfirmed upload never reached Dropbox, whatever its row
  /// says.
  function BaselineOf(rows: map<Path, string>, marks: set<Path>, p: Path): Option<string> {
    if p in marks then Some(NEEDS_RESCAN) else if p in rows then Some(rows[p]) else None
  }

  /// Nothing protects the content at the path: no copy, not the remote row, and the index either
  /// never heard of the file or takes it for synced.
  ghost predicate IsUnprotected(hash: seq<byte> -> string, local: Tree, rows: map<Path, string>, marks: set<Path>,
                                remotes: map<Path, string>, p: Path)
    requires p in local
  {
    var onDisk := hash(local[p]);
    && !HasCopy(hash, local, p, onDisk) && !(p in remotes && remotes[p] == onDisk)
    && p !in marks && (p !in rows || (rows[p] == onDisk && onDisk != NEEDS_RESCAN))
  }

  /// A file that was never indexed.
  lemma NeverIndexedIsUnprotected(hash: seq<byte> -> string, p: Path, bytes: seq<byte>)
    ensures IsUnprotected(hash, map[p := bytes], map[], {}, map[], p)
  {
  }

  lemma CandidateIsCopyName(p: Path, stamp: string, attempt: nat)
    requires p.name != ""
    ensures IsCopyName(p, Path(p.dir, Candidate(Stem(p.name), Extension(p.name), stamp, attempt)))
  {
    var name := Candidate(Stem(p.name), Extension(p.name), stamp, attempt);
    assert name[..|Stem(p.name) + NOTE|] == Stem(p.name) + NOTE;
    assert |name| > |p.name|;
  }

  lemma ReplacingKeepsCopies(hash: seq<byte> -> string, tree: Tree, p: Path, bytes: seq<byte>, content: string)
    ensures HasCopy(hash, tree, p, content) <==> HasCopy(hash, tree[p := bytes], p, content)
  {
    var next := tree[p := bytes];
    if HasCopy(hash, tree, p, content) {
      var q :| q in tree && IsCopyName(p, q) && hash(tree[q]) == content;
      assert q in next && IsCopyName(p, q) && hash(next[q]) == content;
    }
    if HasCopy(hash, next, p, content) {
      var q :| q in next && IsCopyName(p, q) && hash(next[q]) == content;
      assert q in tree && IsCopyName(p, q) && hash(tree[q]) == content;
    }
  }

  class Downloader {
    var local: Tree
    var rows: map<Path, string>
    var marks: set<Path>            // unconfirmed first uploads
    var remotes: map<Path, string>
    var conflicts: set<(Path, Path)>
    const hash: seq<byte> -> string
    const env: Environment

    constructor (hash: seq<byte> -> string)
      ensures this.hash == hash && local == map[]
    {
      local, rows, marks, remotes, conflicts := map[], map[], {}, map[], {};
      env := new Environment();
      this.hash := hash;
    }

    function Baseline(p: Path): Option<string> reads this`rows, this`marks {
      BaselineOf(rows, marks, p)
    }

    predicate AtRisk(p: Path) reads this`local, this`rows, this`marks, this`remotes {
      p in local &&
      WouldDestroyLocal(if p in remotes then Some(remotes[p]) else None, hash(local[p]), Baseline(p))
    }

    /// By content, so a retry does not copy again. What cannot be read is not found.
    method ConflictCopyExists(p: Path, content: string) returns (r: Reply<bool>)
      modifies env
      ensures r == Ok(true) ==> HasCopy(hash, local, p, content)
      ensures env.faults == old(env.faults) ==> r == Ok(HasCopy(hash, local, p, content))
      ensures env.faults >= old(env.faults)
      ensures env.crashes == old(env.crashes) + if r.Crash? then 1 else 0
      ensures r.Ok? || r.Crash?
    {
      var listed, _ := env.Answer(true);
      if !listed.Ok? {
        return if listed.Err? then Ok(false) else Crash;
      }
      var pending := local.Keys;
      while pending != {}
        invariant pending <= local.Keys && env.faults >= old(env.faults) && env.crashes == old(env.crashes)
        invariant env.faults == old(env.faults) ==>
          forall q :: q in local && q !in pending ==> !(IsCopyName(p, q) && hash(local[q]) == content)
        decreases |pending|
      {
        var q :| q in pending;
        pending := pending - {q};
        if IsCopyName(p, q) {
          var hashed, _ := env.Answer(true);
          if hashed.Crash? {
            return Crash;
          }
          if hashed.Ok? && hash(local[q]) == content {
            return Ok(true);
          }
        }
      }
      r := Ok(false);
    }

    /// A copy under a name nothing has; a failing copy may leave a part of it.
    method CreateConflictedCopy(p: Path, stamp: string) returns (r: Reply<Path>)
      requires p in local && p.name != "" && '.' !in stamp
      modifies this`local, env
      ensures Grows(old(local), local)
      ensures r.Ok? ==> IsCopyName(p, r.value) && local == old(local)[r.value := local[p]] && r.value !in old(local)
      ensures if r.Ok? then env.faults == old(env.faults) else env.faults > old(env.faults)
      ensures env.crashes == old(env.crashes) + if r.Crash? then 1 else 0
    {
      var siblings := set q | q in local && q.dir == p.dir :: q.name;
      var name := UniqueConflictedName(siblings, p.name, stamp);
      var copy := Path(p.dir, name);
      assert copy !in local;
      ghost var attempt :| 1 <= attempt && IsFirstFree(siblings, p.name, stamp, attempt, name);
      CandidateIsCopyName(p, stamp, attempt);
      var copied, applied := env.Answer(true);
      var torn: bool, part: seq<byte> := *, *;
      if applied {
        local := local[copy := local[p]];
      } else if torn {
        local := local[copy := part];
      }
      r := if copied.Ok? then Ok(copy) else if copied.Err? then Err else Crash;
    }

    /// What was at the path is beside it, too, under a new name, and the conflict names both.
    twostate predicate MadeCopy(p: Path, copy: Path) reads this`local, this`conflicts {
      && IsCopyName(p, copy) && copy !in old(local) && copy in local
      && p in old(local) && local[copy] == old(local)[p] && (p, copy) in conflicts
    }

    /// Before a download writes: keep local bytes Dropbox does not have. `Ok(true)` made a copy.
    method PreserveLocal(p: Path, stamp: string) returns (r: Reply<bool>)
      requires p.name != "" && '.' !in stamp
      modifies this`local, this`conflicts, env
      ensures Grows(old(local), local)
      ensures p in local ==> p in old(local)
      ensures r.Ok? && AtRisk(p) ==> HasCopy(hash, local, p, hash(local[p]))
      ensures r.Ok? && !r.value ==> local == old(local)
      ensures r == Ok(true) ==> old(AtRisk(p)) && |local| == |old(local)| + 1
      ensures p in old(local) && !old(AtRisk(p)) ==> local == old(local)
      ensures r == Ok(true) ==> exists copy :: MadeCopy(p, copy)
      ensures r == Ok(true) && env.faults == old(env.faults) ==> !HasCopy(hash, old(local), p, hash(old(local)[p]))
      ensures env.faults >= old(env.faults) && (!r.Ok? ==> env.faults > old(env.faults))
      ensures env.crashes == old(env.crashes) + if r.Crash? then 1 else 0
    {
      if p !in local {
        return Ok(false);
      }
      var read, _ := env.Answer(true);
      if !read.Ok? {
        return if read.Err? then Err else Crash;
      }
      var onDisk := hash(local[p]);
      var remote := if p in remotes then Some(remotes[p]) else None;
      if !WouldDestroyLocal(remote, onDisk, Baseline(p)) {
        return Ok(false);
      }
      var known := ConflictCopyExists(p, onDisk);
      if known.Crash? {
        return Crash;
      }
      if known == Ok(true) {
        return Ok(false);
      }
      var copy := CreateConflictedCopy(p, stamp);
      if !copy.Ok? {
        return if copy.Err? then Err else Crash;
      }
      assert copy.value in local && hash(local[copy.value]) == onDisk;
      ghost var name := copy.value;
      var noted, applied := env.Answer(true);
      if applied {
        conflicts := conflicts + {(p, copy.value)};
      }
      assert noted.Ok? ==> MadeCopy(p, name);
      r := if noted.Ok? then Ok(true) else if noted.Err? then Err else Crash;
    }

    /// The index after the file was written: it describes Dropbox's file, and owes no upload. The
    /// remote row is written best-effort.
    method RecordDownloaded(p: Path, content: string) returns (r: Reply<Unit>)
      modifies this`rows, this`marks, this`remotes, env
      ensures r.Ok? ==> p in rows && rows[p] == content && p !in marks
      ensures env.faults >= old(env.faults)
      ensures env.crashes == old(env.crashes) + if r.Crash? then 1 else 0
      ensures env.faults == old(env.faults) ==> r.Ok? && p in remotes && remotes[p] == content
    {
      var applied;
      r, applied := env.Answer(true);
      if applied {
        rows := rows[p := content];
      }
      if !r.Ok? {
        return;
      }
      r, applied := env.Answer(true);
      if applied {
        marks := marks - {p};
      }
      if r.Ok? {
        var recorded, noted := env.Answer(true);
        if noted {
          remotes := remotes[p := content];
        }
        r := if recorded.Crash? then Crash else r;
      }
    }

    /// The new content replaces the old in one rename.
    method ReplaceFile(p: Path, bytes: seq<byte>) returns (r: Reply<Unit>)
      modifies this`local, env
      ensures local == old(local) || local == old(local)[p := bytes]
      ensures r.Ok? ==> local == old(local)[p := bytes]
      ensures env.faults == old(env.faults) + if r.Ok? then 0 else 1
      ensures env.crashes == old(env.crashes) + if r.Crash? then 1 else 0
      ensures forall content :: HasCopy(hash, old(local), p, content) <==> HasCopy(hash, local, p, content)
    {
      forall content ensures HasCopy(hash, local, p, content) <==> HasCopy(hash, local[p := bytes], p, content) {
        ReplacingKeepsCopies(hash, local, p, bytes, content);
      }
      var applied;
      r, applied := env.Answer(true);
      if applied {
        local := local[p := bytes];
      }
    }

    /// The whole download.
    method DownloadFile(p: Path, bytes: seq<byte>, stamp: string) returns (r: Reply<Unit>)
      requires p.name != "" && '.' !in stamp
      modifies this`local, this`rows, this`marks, this`remotes, this`conflicts, env
      ensures env.crashes == old(env.crashes) + if r.Crash? then 1 else 0
      // On every exit, a crash included: what was there is still there, or was not at risk, or has a copy.
      ensures forall q :: q in old(local) && q != p ==> q in local && local[q] == old(local)[q]
      ensures p in old(local) ==> p in local && (local[p] == old(local)[p] || local[p] == bytes)
      ensures p in old(local) && local[p] != old(local)[p] && old(AtRisk(p)) ==>
                HasCopy(hash, local, p, hash(old(local)[p]))
      // If nothing fails, the old content is in no copy, and not what the remote row said, exactly when
      // nothing protected it.
      ensures env.faults == old(env.faults) && p in old(local) ==>
                (var was := hash(old(local)[p]);
                 !HasCopy(hash, local, p, was) && !(p in old(remotes) && old(remotes)[p] == was)
                 <==> IsUnprotected(hash, old(local), old(rows), old(marks), old(remotes), p))
      // If nothing fails, what was at risk and in no copy was copied under a new name, and the conflict is on record.
      ensures env.faults == old(env.faults) && old(AtRisk(p)) && !HasCopy(hash, old(local), p, hash(old(local)[p])) ==>
                exists copy :: MadeCopy(p, copy)
      // Done, the index describes Dropbox's file, and the path owes no upload.
      ensures r.Ok? ==> p in local && local[p] == bytes && p in rows && rows[p] == hash(bytes) && p !in marks
      // If nothing fails, it is done, and the remote row is written too.
      ensures env.faults == old(env.faults) ==> r.Ok? && p in remotes && remotes[p] == hash(bytes)
    {
      var kept := PreserveLocal(p, stamp);
      if !kept.Ok? {
        return if kept.Err? then Err else Crash;
      }
      ghost var copy := p;
      if kept == Ok(true) {
        copy :| MadeCopy(p, copy);
      }
      r := ReplaceFile(p, bytes);
      assert kept == Ok(true) ==> MadeCopy(p, copy);
      if r.Ok? {
        r := RecordDownloaded(p, hash(bytes));
      }
      assert kept == Ok(true) ==> MadeCopy(p, copy);
    }

    /// Retries of a download whose fetch keeps failing copy the same bytes once.
    method FailingRetries(p: Path, attempts: nat, stamp: string) returns (copies: nat)
      requires p.name != "" && '.' !in stamp
      modifies this`local, this`conflicts, env
      ensures Grows(old(local), local)
      ensures env.faults == old(env.faults) ==> copies <= 1 && |local| == |old(local)| + copies
    {
      copies := 0;
      for i := 0 to attempts
        invariant Grows(old(local), local) && (p in local ==> p in old(local)) && env.faults >= old(env.faults)
        invariant env.faults == old(env.faults) ==> copies <= 1 && |local| == |old(local)| + copies
        invariant env.faults == old(env.faults) && copies == 1 ==> p in local && HasCopy(hash, local, p, hash(local[p]))
      {
        var kept := PreserveLocal(p, stamp);
        if kept == Ok(true) {
          copies := copies + 1;
        }
      }
    }
  }

  /// Nothing is lost or changed.
  ghost predicate Grows(before: Tree, after: Tree) {
    forall q :: q in before ==> q in after && after[q] == before[q]
  }
}
