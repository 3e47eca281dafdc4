// Freeing the space of one file, and the startup sweep that repairs an interrupted swap. Every
// durable operation may fail or be the last thing the process does, so what a method promises on
// all its exits holds at every crash point.
module Dehydrate {
  import opened Common
  import SidecarName

  const ASIDE := ".dbsync-dehydrate.tmp"

  /// The directory as its components, and the file name.
  datatype Path = Path(dir: seq<string>, name: string)

  datatype Node = File(bytes: seq<byte>) | Placeholder | Sidecar(target: Path) | Torn | Folder

  datatype Row = Row(hash: string, size: nat, mtime: int)

  type Files = map<Path, Node>

  function AsideOf(p: Path): Path {
    p.(name := p.name + ASIDE)
  }

  function SidecarOf(p: Path): Path {
    p.(name := p.name + SidecarName.SUFFIX)
  }

  predicate IsAside(p: Path) {
    |ASIDE| <= |p.name| && p.name[|p.name| - |ASIDE|..] == ASIDE
  }

  function OriginalOf(a: Path): Path
    requires IsAside(a)
  {
    a.(name := a.name[..|a.name| - |ASIDE|])
  }

  lemma OriginalOfAside(p: Path)
    ensures IsAside(AsideOf(p)) && OriginalOf(AsideOf(p)) == p
  {
  }

  lemma AsideOfOriginal(a: Path)
    requires IsAside(a)
    ensures AsideOf(OriginalOf(a)) == a
  {
    assert a.name == a.name[..|a.name| - |ASIDE|] + ASIDE;
  }

  /// The bytes of the file are where the user or the sweep finds them, or the cloud stands for
  /// them at the path itself.
  predicate Safe(files: Files, p: Path, bytes: seq<byte>) {
    if p in files then files[p] == File(bytes) || files[p] == Placeholder
    else AsideOf(p) in files && files[AsideOf(p)] == File(bytes)
  }

  /// Only the listed paths differ.
  ghost predicate Same(before: map<Path, Node>, after: map<Path, Node>, except: set<Path>) {
    forall q :: q !in except ==> (q in before <==> q in after) && (q in before ==> before[q] == after[q])
  }

  // ---- The sweep, as a function ----

  /// `Path::exists` for the name without the suffix; an empty name stands for the directory.
  predicate Exists(files: Files, p: Path) {
    p.name == "" || p in files
  }

  function RecoverOne(files: Files, a: Path): Files {
    if !IsAside(a) || a !in files || files[a].Folder? then files
    else if Exists(files, OriginalOf(a)) then files - {a}
    else files[OriginalOf(a) := files[a]] - {a}
  }

  function RecoverAll(files: Files, list: seq<Path>): Files
    decreases |list|
  {
    if list == [] then files else RecoverAll(RecoverOne(files, list[0]), list[1..])
  }

  lemma {:induction false} RecoverAllAppend(files: Files, list: seq<Path>, a: Path)
    ensures RecoverAll(files, list + [a]) == RecoverOne(RecoverAll(files, list), a)
    decreases |list|
  {
    if list == [] {
      assert list + [a] == [a];
      assert [a][1..] == [];
    } else {
      assert (list + [a])[1..] == list[1..] + [a];
      RecoverAllAppend(RecoverOne(files, list[0]), list[1..], a);
    }
  }

  lemma RecoverOneKeepsSafe(files: Files, a: Path, p: Path, bytes: seq<byte>)
    requires Safe(files, p, bytes) && !IsAside(p) && p.name != ""
    ensures Safe(RecoverOne(files, a), p, bytes)
  {
    if IsAside(a) && a in files {
      AsideOfOriginal(a);
      OriginalOfAside(p);
      if OriginalOf(a) == AsideOf(p) {
        OriginalOfAside(AsideOf(p));
      }
    }
  }

  /// Whichever listed asides the sweep gets to, it loses no file that was safe.
  lemma {:induction false} RecoverAllKeepsSafe(files: Files, list: seq<Path>, p: Path, bytes: seq<byte>)
    requires Safe(files, p, bytes) && !IsAside(p) && p.name != ""
    ensures Safe(RecoverAll(files, list), p, bytes)
    decreases |list|
  {
    if list != [] {
      RecoverOneKeepsSafe(files, list[0], p, bytes);
      RecoverAllKeepsSafe(RecoverOne(files, list[0]), list[1..], p, bytes);
    }
  }

  /// A path that is not an aside, once there, stays as it is.
  lemma {:induction false} RecoverAllKeepsPresent(files: Files, list: seq<Path>, p: Path)
    requires p in files && (!IsAside(p) || p !in list)
    ensures p in RecoverAll(files, list) && RecoverAll(files, list)[p] == files[p]
    decreases |list|
  {
    if list != [] {
      assert p in RecoverOne(files, list[0]) && RecoverOne(files, list[0])[p] == files[p];
      RecoverAllKeepsPresent(RecoverOne(files, list[0]), list[1..], p);
    }
  }

  /// An interrupted swap ends with the path present: the original bytes, or the placeholder.
  lemma {:induction false} RecoveryRestores(files: Files, list: seq<Path>, p: Path, bytes: seq<byte>)
    requires Safe(files, p, bytes) && !IsAside(p) && p.name != "" && (p in files || AsideOf(p) in list)
    ensures var after := RecoverAll(files, list);
      p in after && (after[p] == File(bytes) || after[p] == Placeholder)
    decreases |list|
  {
    if p in files {
      RecoverAllKeepsPresent(files, list, p);
    } else if list[0] == AsideOf(p) {
      OriginalOfAside(p);
      RecoverAllKeepsPresent(RecoverOne(files, list[0]), list[1..], p);
    } else {
      RecoverOneKeepsSafe(files, list[0], p, bytes);
      RecoveryRestores(RecoverOne(files, list[0]), list[1..], p, bytes);
    }
  }

  function Folders(files: Files): set<Path> {
    set p | p in files && files[p].Folder?
  }

  predicate IsStray(files: Files, a: Path) {
    a in files && IsAside(a) && !files[a].Folder?
  }

  ghost predicate NoStray(files: Files) {
    forall a :: a in files ==> !IsStray(files, a)
  }

  /// Where the name without the suffix is an aside too, that one is still to come.
  predicate InnerIsLater(folders: set<Path>, a: Path, later: seq<Path>) {
    IsAside(a) && a !in folders && IsAside(OriginalOf(a)) && OriginalOf(a) !in folders ==> OriginalOf(a) in later
  }

  predicate InnerComesLater(folders: set<Path>, list: seq<Path>) {
    list == [] || (InnerIsLater(folders, list[0], list[1..]) && InnerComesLater(folders, list[1..]))
  }

  /// A walk of the whole folder: every entry once.
  ghost predicate ListsAsides(files: Files, list: seq<Path>) {
    && (forall i, j :: 0 <= i < j < |list| ==> list[i] != list[j])
    && (forall a :: a in list ==> a in files)
    && forall a :: IsStray(files, a) ==> a in list
  }

  /// The sweep leaves no aside exactly when every aside of an aside is visited before it.
  lemma {:induction false} NoAsideLeftExactlyWhen(files: Files, list: seq<Path>)
    requires ListsAsides(files, list)
    ensures NoStray(RecoverAll(files, list)) <==> InnerComesLater(Folders(files), list)
    decreases |list|
  {
    if list != [] {
      var a, rest, next := list[0], list[1..], RecoverOne(files, list[0]);
      assert forall i :: 0 <= i < |rest| ==> rest[i] == list[i + 1];
      assert Folders(next) == Folders(files);
      if InnerIsLater(Folders(files), a, rest) {
        forall q | IsStray(next, q) ensures q in rest {
          assert IsStray(files, q) ==> q in list;
        }
        assert ListsAsides(next, rest);
        NoAsideLeftExactlyWhen(next, rest);
        assert InnerComesLater(Folders(files), list) == InnerComesLater(Folders(next), rest);
        assert RecoverAll(files, list) == RecoverAll(next, rest);
      } else {
        RecoverAllKeepsPresent(next, rest, OriginalOf(a));
        assert IsStray(RecoverAll(files, list), OriginalOf(a));
      }
    } else {
      assert NoStray(files);
    }
  }

  /// An aside of an aside, visited after it: the sweep ends with an aside.
  lemma AsideOfAsideMayStay(bytes: seq<byte>, other: seq<byte>)
    ensures var inner := AsideOf(Path([], "f"));
      var outer := AsideOf(inner);
      var files: Files := map[inner := File(bytes), outer := File(other)];
      ListsAsides(files, [inner, outer]) && IsStray(RecoverAll(files, [inner, outer]), inner)
  {
    var original := Path([], "f");
    var inner := AsideOf(original);
    var outer := AsideOf(inner);
    var files: Files := map[inner := File(bytes), outer := File(other)];
    OriginalOfAside(original);
    OriginalOfAside(inner);
    assert |original.name| < |inner.name| < |outer.name|;
    var restored := RecoverOne(files, inner);
    RecoverAllAppend(files, [inner], outer);
    assert [inner] + [outer] == [inner, outer] && [inner][1..] == [];
    assert RecoverAll(restored, []) == restored;
    assert RecoverAll(files, [inner]) == restored;
  }

  /// The list without the places that failed.
  ghost function AllBut(listing: seq<Path>, failed: set<nat>): seq<Path> {
    if listing == [] then []
    else
      var last := |listing| - 1;
      AllBut(listing[..last], failed) + if last in failed then [] else [listing[last]]
  }

  lemma {:induction false} NoneFailed(listing: seq<Path>)
    ensures AllBut(listing, {}) == listing
  {
    if listing != [] {
      NoneFailed(listing[..|listing| - 1]);
    }
  }

  lemma {:induction false} LaterFailure(listing: seq<Path>, failed: set<nat>, i: nat)
    requires i >= |listing|
    ensures AllBut(listing, failed + {i}) == AllBut(listing, failed)
  {
    if listing != [] {
      LaterFailure(listing[..|listing| - 1], failed, i);
    }
  }

  lemma OneMoreButFailed(listing: seq<Path>, i: nat, failed: set<nat>)
    requires i < |listing| && i !in failed
    ensures AllBut(listing[..i + 1], failed) == AllBut(listing[..i], failed) + [listing[i]]
    ensures AllBut(listing[..i + 1], failed + {i}) == AllBut(listing[..i], failed)
  {
    var more := listing[..i + 1];
    assert more[..i] == listing[..i] && more[i] == listing[i];
    LaterFailure(listing[..i], failed, i);
  }

  // ---- The sync folder and its index ----

  class SyncFolder {
    var files: Files
    var rows: map<Path, Row>
    var remotes: map<Path, string>
    const hash: seq<byte> -> string
    const env: Environment

    constructor (hash: seq<byte> -> string)
      ensures files == map[] && rows == map[] && remotes == map[] && this.hash == hash
    {
      files, rows, remotes := map[], map[], map[];
      env := new Environment();
      this.hash := hash;
    }

    /// What the next scan takes for a deletion and propagates to Dropbox.
    ghost function Missing(): set<Path> reads this {
      rows.Keys - files.Keys
    }

    // Primitives.

    method Rename(src: Path, dst: Path) returns (r: Reply<Unit>)
      requires src != dst
      modifies this`files, env
      ensures env.faults == old(env.faults) + if r.Ok? then 0 else 1
      ensures env.crashes == old(env.crashes) + if r.Crash? then 1 else 0
      ensures r.Ok? ==> src in old(files) && files == old(files)[dst := old(files)[src]] - {src}
      ensures r.Err? ==> files == old(files)
      ensures files == old(files) || (src in old(files) && files == old(files)[dst := old(files)[src]] - {src})
    {
      var applied;
      r, applied := env.Answer(src in files && !(dst in files && files[dst].Folder?));
      if applied {
        files := files[dst := files[src]] - {src};
      }
    }

    method RemoveFile(p: Path) returns (r: Reply<Unit>)
      modifies this`files, env
      ensures env.faults == old(env.faults) + if r.Ok? then 0 else 1
      ensures env.crashes == old(env.crashes) + if r.Crash? then 1 else 0
      ensures r.Ok? ==> files == old(files) - {p}
      ensures r.Err? ==> files == old(files)
      ensures files == old(files) || files == old(files) - {p}
    {
      var applied;
      r, applied := env.Answer(p in files && !files[p].Folder?);
      if applied {
        files := files - {p};
      }
    }

    method RemoveLocalRow(p: Path) returns (r: Reply<Unit>)
      modifies this`rows, env
      ensures env.faults == old(env.faults) + if r.Ok? then 0 else 1
      ensures env.crashes == old(env.crashes) + if r.Crash? then 1 else 0
      ensures r.Ok? ==> rows == old(rows) - {p}
      ensures r.Err? ==> rows == old(rows)
      ensures rows == old(rows) || rows == old(rows) - {p}
    {
      var applied;
      r, applied := env.Answer(true);
      if applied {
        rows := rows - {p};
      }
    }

    method UpsertLocalRow(p: Path, row: Row) returns (r: Reply<Unit>)
      modifies this`rows, env
      ensures env.faults == old(env.faults) + if r.Ok? then 0 else 1
      ensures env.crashes == old(env.crashes) + if r.Crash? then 1 else 0
      ensures r.Ok? ==> rows == old(rows)[p := row]
      ensures r.Err? ==> rows == old(rows)
      ensures rows == old(rows) || rows == old(rows)[p := row]
    {
      var applied;
      r, applied := env.Answer(true);
      if applied {
        rows := rows[p := row];
      }
    }

    /// The native placeholder operation: it creates the entry or nothing.
    method CreatePlaceholder(p: Path) returns (r: Reply<Unit>)
      modifies this`files, env
      ensures env.faults == old(env.faults) + if r.Ok? then 0 else 1
      ensures env.crashes == old(env.crashes) + if r.Crash? then 1 else 0
      ensures r.Ok? ==> files == old(files)[p := Placeholder]
      ensures r.Err? ==> files == old(files)
      ensures files == old(files) || files == old(files)[p := Placeholder]
    {
      var applied;
      r, applied := env.Answer(p !in files);
      if applied {
        files := files[p := Placeholder];
      }
    }

    /// Writing the `.cloudsc` entry; interrupted or failing, it may leave a torn one.
    method WriteSidecar(p: Path) returns (r: Reply<Unit>)
      modifies this`files, env
      ensures env.faults == old(env.faults) + if r.Ok? then 0 else 1
      ensures env.crashes == old(env.crashes) + if r.Crash? then 1 else 0
      ensures Same(old(files), files, {SidecarOf(p)})
      ensures r.Ok? ==> SidecarOf(p) in files && files[SidecarOf(p)] == Sidecar(p)
    {
      var possible := !(SidecarOf(p) in files && files[SidecarOf(p)].Folder?);
      var applied;
      r, applied := env.Answer(possible);
      var torn: bool := *;
      if applied {
        files := files[SidecarOf(p) := Sidecar(p)];
      } else if torn && possible {
        files := files[SidecarOf(p) := Torn];
      }
    }

    // Freeing one file.

    /// The swap of a synced file for a native placeholder at the same path.
    method DehydrateFileAtomic(p: Path, row: Row, ghost bytes: seq<byte>) returns (r: Reply<bool>)
      requires p in files && files[p] == File(bytes) && p in rows && rows[p] == row
      modifies this`files, this`rows, env
      ensures Safe(files, p, bytes)
      ensures p in rows ==> p in files
      ensures Same(old(files), files, {p, AsideOf(p)})
      ensures rows == old(rows) || rows == old(rows) - {p}
      ensures AsideOf(p) !in rows ==> Missing() <= old(Missing())
      ensures r.Ok? ==> r.value && p in files && files[p] == Placeholder && rows == old(rows)
      ensures env.faults == old(env.faults) ==> r == Ok(true) && files == old(files)[p := Placeholder] - {AsideOf(p)}
      ensures env.faults >= old(env.faults)
      ensures env.crashes == old(env.crashes) + if r.Crash? then 1 else 0
      // If one operation fails, the file and its row are back, or the placeholder stands and only lacks
      // its row.
      ensures env.faults == old(env.faults) + 1 && r.Err? ==>
                || (rows == old(rows) && Same(old(files), files, {AsideOf(p)}))
                || (p in files && files[p] == Placeholder && p !in rows)
    {
      OriginalOfAside(p);
      var aside := AsideOf(p);
      assert rows - {p} + map[p := row] == rows;
      assert aside != p by {
        assert |aside.name| > |p.name|;
      }
      // Untrack first, so that the gap between removal and creation is no deletion.
      var untracked := RemoveLocalRow(p);
      if !untracked.Ok? {
        return if untracked.Err? then Err else Crash;
      }
      var moved := Rename(p, aside);
      if moved.Crash? {
        return Crash;
      }
      if moved.Err? {
        var restored := UpsertLocalRow(p, row);
        assert rows == old(rows) || rows == old(rows) - {p};
        return if restored.Crash? then Crash else Err;
      }
      var created := CreatePlaceholder(p);
      if created.Crash? {
        return Crash;
      }
      if created.Ok? {
        var dropped := RemoveFile(aside);
        if dropped.Crash? {
          return Crash;
        }
        var tracked := UpsertLocalRow(p, row);
        assert rows == old(rows) || rows == old(rows) - {p};
        if !tracked.Ok? {
          return if tracked.Err? then Err else Crash;
        }
        return Ok(true);
      }
      // Track it again only where the bytes are back: a row for an absent path is a deletion.
      var back := Rename(aside, p);
      if back.Ok? {
        var tracked := UpsertLocalRow(p, row);
        assert rows == old(rows) || rows == old(rows) - {p};
        return if tracked.Crash? then Crash else Err;
      }
      return if back.Crash? then Crash else Err;
    }

    predicate Synced(p: Path) reads this`files, this`rows, this`remotes {
      p in rows && p in remotes && p in files && files[p].File? && hash(files[p].bytes) == remotes[p]
    }

    /// The authoritative check: the bytes on disk, not the row's hash, against the remote row.
    method IsFullySynced(p: Path) returns (r: Reply<bool>)
      modifies env
      ensures env.faults >= old(env.faults)
      ensures env.crashes == old(env.crashes) + if r.Crash? then 1 else 0
      ensures r.Ok? ==> (r.value <==> Synced(p))
      ensures env.faults == old(env.faults) ==> r.Ok?
    {
      var read, _ := env.Answer(true);
      if !read.Ok? {
        return if read.Err? then Err else Crash;
      }
      if p !in rows || p !in remotes {
        return Ok(false);
      }
      var hashed, _ := env.Answer(p in files && files[p].File?);
      if !hashed.Ok? {
        return if hashed.Err? then Err else Crash;
      }
      return Ok(hash(files[p].bytes) == remotes[p]);
    }

    /// The variant that replaces the file by a `.cloudsc` entry beside it.
    method DehydrateOneFile(p: Path) returns (r: Reply<bool>)
      modifies this`files, this`rows, env
      ensures Same(old(files), files, {p, SidecarOf(p)})
      ensures p in files ==> p in old(files) && files[p] == old(files)[p]
      // The bytes go only if Dropbox has them and the entry that stands for them is in place.
      ensures p in old(files) && p !in files ==>
        && old(files)[p].File? && p in remotes && hash(old(files)[p].bytes) == remotes[p]
        && SidecarOf(p) in files && files[SidecarOf(p)] == Sidecar(p)
      ensures rows == old(rows) || rows == old(rows) - {p}
      ensures SidecarOf(p) !in rows ==> Missing() <= old(Missing())
      ensures r == Ok(true) ==> p in old(files) && p !in files && p !in rows
      ensures env.faults >= old(env.faults) && (env.faults == old(env.faults) ==> r == Ok(old(Synced(p))))
      ensures env.crashes == old(env.crashes) + if r.Crash? then 1 else 0
      ensures r == Ok(false) ==> files == old(files) && rows == old(rows)
      // If one operation fails, the file stays as it was, with its row.
      ensures env.faults == old(env.faults) + 1 && r.Err? ==>
                rows == old(rows) && Same(old(files), files, {SidecarOf(p)})
    {
      var synced := IsFullySynced(p);
      if !synced.Ok? {
        return if synced.Err? then Err else Crash;
      }
      if !synced.value {
        return Ok(false);
      }
      var row := rows[p];
      assert rows - {p} + map[p := row] == rows;
      assert SidecarOf(p) != p by {
        assert |SidecarOf(p).name| > |p.name|;
      }
      var written := WriteSidecar(p);
      if !written.Ok? {
        return if written.Err? then Err else Crash;
      }
      var untracked := RemoveLocalRow(p);
      if !untracked.Ok? {
        return if untracked.Err? then Err else Crash;
      }
      r := UnlinkBesideEntry(p, row);
      assert rows == old(rows) || rows == old(rows) - {p};
    }

    /// Unlinks an untracked file beside its entry; one that will not go loses the entry and is
    /// tracked again.
    method UnlinkBesideEntry(p: Path, row: Row) returns (r: Reply<bool>)
      requires p in files && files[p].File? && p !in rows && SidecarOf(p) != p
      requires SidecarOf(p) in files && files[SidecarOf(p)] == Sidecar(p)
      modifies this`files, this`rows, env
      ensures Same(old(files), files, {p, SidecarOf(p)})
      ensures p in files ==> files[p] == old(files)[p]
      ensures p !in files ==> rows == old(rows) && SidecarOf(p) in files && files[SidecarOf(p)] == Sidecar(p)
      ensures rows == old(rows) || rows == old(rows)[p := row]
      ensures env.faults >= old(env.faults)
      ensures env.crashes == old(env.crashes) + if r.Crash? then 1 else 0
      ensures r.Ok? ==> r.value && p !in files && env.faults == old(env.faults)
      ensures env.faults == old(env.faults) ==> r == Ok(true)
      ensures r.Err? ==> p in files
      ensures env.faults == old(env.faults) + 1 && r.Err? ==>
                rows == old(rows)[p := row] && Same(old(files), files, {SidecarOf(p)}) && SidecarOf(p) !in files
    {
      var removed := RemoveFile(p);
      if removed.Crash? {
        return Crash;
      }
      if removed.Err? {
        var cleaned := RemoveFile(SidecarOf(p));
        if cleaned.Crash? {
          return Crash;
        }
        var tracked := UpsertLocalRow(p, row);
        return if tracked.Crash? then Crash else Err;
      }
      return Ok(true);
    }

    // The startup sweep.

    /// Visits the listed entries. A failure skips the entry, a crash ends the sweep; `reached`
    /// are the asides it handled, `failed` the places of those whose own operation failed.
    method RecoverStrayAsides(listing: seq<Path>)
      returns (handled: nat, ghost reached: seq<Path>, ghost failed: set<nat>)
      modifies this`files, env
      ensures files == RecoverAll(old(files), reached)
      ensures forall a :: a in reached ==> a in listing
      ensures handled <= |reached| <= handled + 1
      // Without a crash, every aside is recovered whose own operation did not fail.
      ensures |failed| <= env.faults - old(env.faults)
      ensures env.crashes == old(env.crashes) ==>
                files == RecoverAll(old(files), AllBut(listing, failed)) && handled == |reached|
      ensures env.faults == old(env.faults) ==>
                files == RecoverAll(old(files), listing) && env.crashes == old(env.crashes)
    {
      handled, reached, failed := 0, [], {};
      for i := 0 to |listing|
        invariant files == RecoverAll(old(files), reached)
        invariant forall a :: a in reached ==> a in listing
        invariant handled == |reached|
        invariant forall k :: k in failed ==> k < i
        invariant |failed| <= env.faults - old(env.faults) && env.crashes == old(env.crashes)
        invariant files == RecoverAll(old(files), AllBut(listing[..i], failed))
      {
        var aside := listing[i];
        ghost var before := files;
        RecoverAllAppend(old(files), reached, aside);
        RecoverAllAppend(old(files), AllBut(listing[..i], failed), aside);
        OneMoreButFailed(listing, i, failed);
        if aside !in files || files[aside].Folder? || !IsAside(aside) {
          continue;
        }
        var original := OriginalOf(aside);
        var r;
        if Exists(files, original) {
          r := RemoveFile(aside);
        } else {
          r := Rename(aside, original);
        }
        if files != before {
          reached := reached + [aside];
        }
        if r.Crash? {
          return;
        }
        if r.Ok? {
          handled := handled + 1;
        } else {
          failed := failed + {i};
        }
      }
      assert listing[..|listing|] == listing;
      if failed == {} {
        NoneFailed(listing);
      }
    }
  }
}
