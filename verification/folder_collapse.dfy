// Collapsing a synced folder into one `.cloudsc` entry, while the user keeps working in it.
module FolderCollapse {
  import opened Common
  import opened DepthOrder
  import SidecarName

  type Location = seq<string>

  datatype Node = File(bytes: seq<byte>) | Sidecar(isFolder: bool, target: Location) | Torn | Other | Dir

  type Tree = map<Location, Node>

  datatype Row = Row(hash: string, size: nat, mtime: int)

  /// What a walk reports of an entry. `OtherKind` also stands for a name that has no index key.
  datatype Kind = DirKind | FileKind | OtherKind

  datatype Entry = Entry(at: Location, kind: Kind)

  /// What phase 1 collects.
  datatype Plan = Plan(files: seq<(Location, Row)>, children: seq<Location>, dirs: seq<(nat, Location)>)

  /// A file this code unlinked, with its bytes at that moment.
  datatype Unlink = Unlink(at: Location, bytes: seq<byte>)

  predicate FileAt(tree: Tree, p: Location) {
    p in tree && !tree[p].Dir?
  }

  predicate DirAt(tree: Tree, p: Location) {
    p in tree && tree[p].Dir?
  }

  predicate IsSidecarName(p: Location) {
    p != [] && SidecarName.IsSidecarName(p[|p| - 1])
  }

  function SidecarOf(p: Location): Location
    requires p != []
  {
    Parent(p) + [p[|p| - 1] + SidecarName.SUFFIX]
  }

  lemma SidecarOfIsInjective(p: Location, q: Location)
    requires p != [] && q != [] && SidecarOf(p) == SidecarOf(q)
    ensures p == q
  {
    var s := SidecarOf(p);
    assert |s| == |p| == |q|;
    assert s[..|s| - 1] == p[..|p| - 1] == q[..|q| - 1];
    assert s[|s| - 1] == p[|p| - 1] + SidecarName.SUFFIX == q[|q| - 1] + SidecarName.SUFFIX;
    assert p[|p| - 1] == (p[|p| - 1] + SidecarName.SUFFIX)[..|p[|p| - 1]|];
    assert q[|q| - 1] == (q[|q| - 1] + SidecarName.SUFFIX)[..|q[|q| - 1]|];
    assert p == p[..|p| - 1] + [p[|p| - 1]];
    assert q == q[..|q| - 1] + [q[|q| - 1]];
  }

  /// Everything in the tree lies in directories.
  predicate Closed(tree: Tree) {
    forall p {:trigger Parent(p)} :: p in tree && p != [] ==> DirAt(tree, Parent(p))
  }

  function Parent(p: Location): Location
    requires p != []
  {
    p[..|p| - 1]
  }

  lemma {:induction false} AncestorsAreThere(tree: Tree, p: Location, k: nat)
    requires Closed(tree) && p in tree && k < |p|
    ensures DirAt(tree, p[..k])
    decreases |p|
  {
    assert DirAt(tree, Parent(p));
    if k < |p| - 1 {
      AncestorsAreThere(tree, Parent(p), k);
      assert p[..k] == Parent(p)[..k];
    } else {
      assert p[..k] == Parent(p);
    }
  }

  lemma NothingWithoutTheFolder(tree: Tree, folder: Location)
    requires Closed(tree)
    ensures folder !in tree ==> forall p :: p in tree ==> !(folder <= p)
  {
    forall p | p in tree && folder <= p ensures folder in tree {
      assert p[..|folder|] == folder;
      if p != folder {
        AncestorsAreThere(tree, p, |folder|);
      }
    }
  }

  ghost predicate Empty(tree: Tree, dir: Location) {
    forall p :: p in tree ==> !(dir < p)
  }

  /// `create_dir_all`.
  function WithDirs(tree: Tree, dir: Location): (r: Tree)
    ensures forall p :: p in tree ==> p in r && r[p] == tree[p]
    ensures forall p :: p in r && p !in tree ==> r[p] == Dir && p <= dir
    ensures dir != [] ==> dir in r
    decreases |dir|
  {
    if dir == [] || dir in tree then tree else WithDirs(tree, Parent(dir))[dir := Dir]
  }

  /// No file on the way.
  predicate CanMakeDirs(tree: Tree, dir: Location) {
    forall k :: 0 <= k <= |dir| ==> !FileAt(tree, dir[..k])
  }

  lemma {:induction false} WithDirsIsClosed(tree: Tree, dir: Location)
    requires Closed(tree) && DirAt(tree, []) && CanMakeDirs(tree, dir)
    ensures Closed(WithDirs(tree, dir)) && DirAt(WithDirs(tree, dir), dir)
    decreases |dir|
  {
    assert dir[..|dir|] == dir;
    if dir != [] && dir !in tree {
      var up := Parent(dir);
      assert forall k :: 0 <= k <= |up| ==> up[..k] == dir[..k];
      WithDirsIsClosed(tree, up);
    }
  }

  lemma RemovalKeepsClosed(tree: Tree, p: Location)
    requires Closed(tree) && (FileAt(tree, p) || Empty(tree, p))
    ensures Closed(tree - {p})
  {
    forall q | q in tree && q != p && q != [] ensures Parent(q) != p {
      assert DirAt(tree, Parent(q));
      assert Parent(q) < q;
    }
  }

  lemma AddingFileKeepsClosed(tree: Tree, p: Location, node: Node)
    requires Closed(tree) && !node.Dir? && !DirAt(tree, p) && p != [] && DirAt(tree, Parent(p))
    ensures Closed(tree[p := node])
  {
    assert forall q {:trigger Parent(q)} :: q in tree && q != [] ==> Parent(q) != p;
  }

  /// When everything left under the folder is a listed directory at most as deep as `dir`,
  /// nothing is left in `dir`.
  lemma DeepestIsEmpty(tree: Tree, folder: Location, sorted: seq<(nat, Location)>, i: nat)
    requires DeepestFirst(sorted) && DepthsAre(sorted) && i < |sorted| && folder <= sorted[i].1
    requires OnlyPending(tree, folder, sorted, i)
    ensures Empty(tree, sorted[i].1)
  {
    assert sorted[i] in sorted;
    assert forall p :: p in tree && folder <= p ==> !Outside(folder, p);
    forall p | p in tree && folder <= p ensures |p| <= |sorted[i].1| {
      var j :| 0 <= j < |sorted[i..]| && sorted[i..][j] == (|p|, p);
      assert sorted[i + j] == (|p|, p);
    }
    assert forall p :: p in tree && sorted[i].1 < p ==> folder <= p;
  }

  /// What is left at or under the folder are directories still to be removed.
  ghost predicate OnlyPending(tree: Tree, folder: Location, sorted: seq<(nat, Location)>, i: nat)
    requires i <= |sorted|
  {
    forall p {:trigger Outside(folder, p)} :: p in tree && !Outside(folder, p) ==>
      tree[p].Dir? && (|p|, p) in sorted[i..]
  }

  lemma OneDirLess(before: Tree, after: Tree, folder: Location, sorted: seq<(nat, Location)>, i: nat)
    requires i < |sorted| && OnlyPending(before, folder, sorted, i) && LostWithin(folder, before, after)
    requires DirAt(before, sorted[i].1) ==> sorted[i].1 !in after
    requires folder <= sorted[i].1
    ensures OnlyPending(after, folder, sorted, i + 1)
  {
    assert sorted[i..] == [sorted[i]] + sorted[i + 1..];
    forall p | p in after && !Outside(folder, p) ensures after[p].Dir? && (|p|, p) in sorted[i + 1..] {
      assert Same(before, after, p);
      assert (|p|, p) in sorted[i..] && before[p].Dir?;
      assert p == sorted[i].1 ==> DirAt(before, p);
    }
  }

  ghost predicate DepthsAre(dirs: seq<(nat, Location)>) {
    forall d :: d in dirs ==> d.0 == |d.1|
  }

  // ---- The collapse ----

  class SyncFolder {
    var tree: Tree
    var rows: map<Location, Row>
    var remotes: map<Location, string>
    var folders: set<Location>  // the known_folders rows
    const hash: seq<byte> -> string
    const ignored: Location -> bool
    var scope: Location         // the folder under collapse
    const env: Environment

    // What the collapse found, and what happened since.
    ghost var treeBefore: Tree
    ghost var rowsBefore: map<Location, Row>
    ghost var foldersBefore: set<Location>
    ghost var visits: seq<Visit>      // what the user did
    ghost var destroyed: seq<Unlink>  // the files this code unlinked or overwrote

    /// The tree is one, and no `.cloudsc` entry is tracked.
    ghost predicate IsTree() reads this`tree, this`rows {
      && Closed(tree) && DirAt(tree, [])
      && forall p {:trigger IsSidecarName(p)} :: p in rows ==> !IsSidecarName(p)
    }

    /// What holds at every step of a collapse, a crash included.
    ghost predicate Valid()
      reads this`tree, this`rows, this`remotes, this`folders, this`scope, this`treeBefore, this`rowsBefore
      reads this`foldersBefore, this`visits, this`destroyed
    {
      IsTree() && OnlyUserDeletions() && LossesAreVerified() && DiskIsAccountedFor() && IndexOnlyShrank()
    }

    constructor (hash: seq<byte> -> string, ignored: Location -> bool)
      ensures Valid() && this.hash == hash && this.ignored == ignored
    {
      tree, rows, remotes, folders := map[[] := Dir], map[], map[], {};
      scope, treeBefore, rowsBefore, foldersBefore := [], map[[] := Dir], map[], {};
      visits, destroyed := [], [];
      env := new Environment();
      this.hash := hash;
      this.ignored := ignored;
    }

    /// The deletions the next scan propagates are those from before and those the user made.
    ghost predicate OnlyUserDeletions()
      reads this`tree, this`rows, this`folders, this`treeBefore, this`rowsBefore, this`foldersBefore, this`visits
    {
      forall p {:trigger UserTook(visits, p)} ::
        IsMissing(tree, rows, folders, p) ==> IsMissing(treeBefore, rowsBefore, foldersBefore, p) || UserTook(visits, p)
    }

    /// Every file destroyed was named as a sidecar, or held exactly what the remote row says Dropbox
    /// has and is tracked no more.
    ghost predicate LossesAreVerified() reads this`destroyed, this`remotes, this`rows, this`scope {
      forall u :: u in destroyed ==> IsSidecarName(u.at) || IsVerified(u)
    }

    ghost predicate IsVerified(u: Unlink) reads this`remotes, this`rows, this`scope {
      scope <= u.at && u.at !in rows && u.at in remotes && hash(u.bytes) == remotes[u.at]
    }

    /// What changed on disk, between any two visits of the user and since the last one, are files on
    /// record, directories and entries.
    ghost predicate DiskIsAccountedFor() reads this`tree, this`scope, this`treeBefore, this`visits, this`destroyed {
      AccountedFor(scope, destroyed, treeBefore, visits, tree)
    }

    /// Rows only went, and none outside the folder.
    ghost predicate IndexOnlyShrank()
      reads this`rows, this`folders, this`rowsBefore, this`foldersBefore, this`scope
    {
      && OnlyLess(rowsBefore, rows) && folders <= foldersBefore
      && (forall p {:trigger Outside(scope, p)} :: p in rowsBefore && Outside(scope, p) ==> p in rows)
      && forall d {:trigger Outside(scope, d)} :: d in foldersBefore && Outside(scope, d) ==> d in folders
    }

    /// The files this code destroyed, entries aside, in that order.
    ghost function Freed(): seq<Location> reads this`destroyed {
      FilesOf(destroyed)
    }

    /// Only they lost their rows.
    ghost predicate OnlyFreedAreUntracked() reads this`destroyed, this`rows, this`rowsBefore {
      forall p {:trigger IsDropped(rowsBefore, rows, p)} :: IsDropped(rowsBefore, rows, p) ==> p in Freed()
    }

    // Primitives.

    /// The user does anything to the files in the meantime, or nothing.
    method UserActs()
      requires Valid()
      modifies this`tree, this`visits, env
      ensures Valid()
      ensures env.faults == old(env.faults) ==> visits == old(visits)
      ensures old(visits) <= visits && (visits == old(visits) ==> tree == old(tree))
      ensures env.faults >= old(env.faults) && env.crashes == old(env.crashes)
    {
      var next: Tree := *;
      if Closed(next) && DirAt(next, []) && next != tree {
        OneMoreVisit(scope, destroyed, treeBefore, visits, tree, next);
        ghost var visit := Visit(tree, next);
        forall p ensures UserTook(visits + [visit], p) <==> UserTook(visits, p) || Took(visit, p) {
          OneMoreVisitTakes(visits, visit, p);
        }
        visits := visits + [visit];
        tree := next;
        env.Count(true);
      }
    }

    method RemoveLocalRow(p: Location) returns (r: Reply<Unit>)
      requires Valid() && scope <= p
      modifies this`rows, env
      ensures Valid()
      ensures env.faults == old(env.faults) + if r.Ok? then 0 else 1
      ensures env.crashes == old(env.crashes) + if r.Crash? then 1 else 0
      ensures r.Ok? ==> rows == old(rows) - {p}
      ensures r.Err? ==> rows == old(rows)
      ensures rows == old(rows) || rows == old(rows) - {p}
    {
      var applied;
      r, applied := env.Answer(true);
      if applied {
        OneLess(rowsBefore, rows, p);
        rows := rows - {p};
      }
    }

    /// Tracks a file again that is still there.
    method UpsertLocalRow(p: Location, row: Row) returns (r: Reply<Unit>)
      requires Valid() && FileAt(tree, p) && !IsSidecarName(p) && p in rowsBefore && rowsBefore[p] == row
      requires forall u :: u in destroyed ==> u.at != p
      modifies this`rows, env
      ensures Valid()
      ensures env.faults == old(env.faults) + if r.Ok? then 0 else 1
      ensures env.crashes == old(env.crashes) + if r.Crash? then 1 else 0
      ensures r.Ok? ==> rows == old(rows)[p := row]
      ensures r.Err? ==> rows == old(rows)
      ensures rows == old(rows) || rows == old(rows)[p := row]
    {
      var applied;
      r, applied := env.Answer(true);
      if applied {
        OneRestored(rowsBefore, rows, p);
        rows := rows[p := row];
      }
    }

    method RemoveKnownFolder(dir: Location) returns (r: Reply<Unit>)
      requires Valid() && scope <= dir
      modifies this`folders, env
      ensures Valid()
      ensures env.faults == old(env.faults) + if r.Ok? then 0 else 1
      ensures env.crashes == old(env.crashes) + if r.Crash? then 1 else 0
      ensures r.Ok? ==> folders == old(folders) - {dir}
      ensures folders == old(folders) || folders == old(folders) - {dir}
    {
      var applied;
      r, applied := env.Answer(true);
      if applied {
        folders := folders - {dir};
      }
    }

    /// The record grows by the file at `p`.
    twostate predicate Loses(p: Location) reads this`destroyed {
      |destroyed| == |old(destroyed)| + 1 && old(destroyed) < destroyed && destroyed[|old(destroyed)|].at == p
    }

    ghost method Record(p: Location)
      requires Valid() && p !in rows && p in tree && tree[p].File?
      requires IsSidecarName(p) || (scope <= p && p in remotes && hash(tree[p].bytes) == remotes[p])
      modifies this`destroyed
      ensures Valid() && Loses(p) && Unlink(p, tree[p].bytes) in destroyed
    {
      var u := Unlink(p, tree[p].bytes);
      LongerLogAccounts(scope, destroyed, u, treeBefore, visits);
      LongerLogAccountsFor(scope, destroyed, u, LeftBefore(treeBefore, visits, |visits|), tree);
      destroyed := destroyed + [u];
    }

    /// An untracked file that is an entry or was verified.
    method RemoveFile(p: Location) returns (r: Reply<Unit>)
      requires Valid() && scope <= p && p !in rows
      requires IsSidecarName(p) || (p in tree && tree[p].File? && p in remotes && hash(tree[p].bytes) == remotes[p])
      modifies this`tree, this`destroyed, env
      ensures Valid()
      ensures env.faults == old(env.faults) + if r.Ok? then 0 else 1
      ensures env.crashes == old(env.crashes) + if r.Crash? then 1 else 0
      ensures r.Ok? ==> FileAt(old(tree), p) && tree == old(tree) - {p}
      ensures r.Ok? && old(tree)[p].File? ==> Loses(p)
      ensures r.Err? ==> tree == old(tree) && destroyed == old(destroyed)
      ensures destroyed == old(destroyed) || Loses(p)
    {
      var applied;
      r, applied := env.Answer(FileAt(tree, p));
      if applied {
        RemovalKeepsClosed(tree, p);
        if tree[p].File? {
          Record(p);
        }
        TakingIsAccounted(scope, destroyed, LeftBefore(treeBefore, visits, |visits|), tree, p);
        tree := tree - {p};
      }
    }

    /// `remove_dir`: empty directories only.
    method RemoveDir(dir: Location) returns (r: Reply<Unit>)
      requires Valid() && dir != [] && scope <= dir && dir !in folders
      modifies this`tree, env
      ensures Valid()
      ensures env.faults >= old(env.faults)
      ensures env.crashes == old(env.crashes) + if r.Crash? then 1 else 0
      ensures env.faults == old(env.faults) ==>
                if DirAt(old(tree), dir) && Empty(old(tree), dir) then r.Ok? else r.Err?
      ensures r.Ok? ==> tree == old(tree) - {dir}
      ensures tree == old(tree) || (DirAt(old(tree), dir) && tree == old(tree) - {dir})
    {
      var possible := DirAt(tree, dir) && forall p :: p in tree ==> !(dir < p);
      var applied;
      r, applied := env.Try(possible);
      if applied {
        RemovalKeepsClosed(tree, dir);
        DirsAreAccounted(scope, destroyed, LeftBefore(treeBefore, visits, |visits|), tree, tree - {dir});
        tree := tree - {dir};
      }
    }

    /// A whole or torn `.cloudsc` file is there, over what was.
    method PutEntry(at: Location, node: Node)
      requires Valid() && at != [] && IsEntry(scope, at) && (node.Sidecar? || node.Torn?)
      requires DirAt(tree, Parent(at)) && !DirAt(tree, at)
      modifies this`tree, this`destroyed
      ensures Valid() && LosesNoFile()
      ensures tree == old(tree)[at := node]
    {
      AddingFileKeepsClosed(tree, at, node);
      ghost var before := destroyed;
      if at in tree && tree[at].File? {
        Record(at);
        OneMoreFreed(before, destroyed, at);
      }
      WritingIsAccounted(scope, destroyed, LeftBefore(treeBefore, visits, |visits|), tree, at, node);
      WritingMissesNothing(tree, rows, folders, at, node);
      tree := tree[at := node];
    }

    /// The `.cloudsc` file itself; a failing write may leave a torn one.
    method WriteSidecarFile(at: Location, node: Node) returns (r: Reply<Unit>)
      requires Valid() && at != [] && IsEntry(scope, at) && node.Sidecar?
      modifies this`tree, this`destroyed, env
      ensures Valid() && LosesNoFile()
      ensures env.faults >= old(env.faults)
      ensures env.crashes == old(env.crashes) + if r.Crash? then 1 else 0
      ensures env.faults == old(env.faults) && DirAt(old(tree), Parent(at)) && !DirAt(old(tree), at) ==> r.Ok?
      ensures r.Ok? ==> at in tree && tree[at] == node
      ensures tree.Keys <= old(tree).Keys + {at}
      ensures forall p :: p in old(tree) && p != at ==> p in tree && tree[p] == old(tree)[p]
    {
      var possible := DirAt(tree, Parent(at)) && !DirAt(tree, at);
      var applied, torn: bool;
      r, applied := env.Try(possible);
      torn := *;
      if applied || (torn && possible) {
        PutEntry(at, if applied then node else Torn);
      }
    }

    /// `create_dir_all`; a failure may leave some of the directories.
    method CreateDirAll(dir: Location) returns (r: Reply<Unit>)
      requires Valid()
      modifies this`tree, env
      ensures Valid()
      ensures r.Ok? ==> DirAt(tree, dir)
      ensures forall p :: p in old(tree) ==> p in tree && tree[p] == old(tree)[p]
      ensures forall p :: p in tree && p !in old(tree) ==> tree[p].Dir? && p <= dir
      ensures env.faults >= old(env.faults)
      ensures env.crashes == old(env.crashes) + if r.Crash? then 1 else 0
      ensures env.faults == old(env.faults) && CanMakeDirs(old(tree), dir) ==> r.Ok?
    {
      var possible := CanMakeDirs(tree, dir);
      var applied;
      r, applied := env.Try(possible);
      var reached: int := *;
      if r.Ok? {
        reached := |dir|;
        assert dir[..reached] == dir;
      }
      if 0 <= reached <= |dir| && CanMakeDirs(tree, dir[..reached]) {
        var next := WithDirs(tree, dir[..reached]);
        WithDirsIsClosed(tree, dir[..reached]);
        DirsAreAccounted(scope, destroyed, LeftBefore(treeBefore, visits, |visits|), tree, next);
        tree := next;
      }
    }

    method IsFullySynced(p: Location) returns (r: Reply<bool>)
      modifies env
      ensures env.faults >= old(env.faults)
      ensures env.crashes == old(env.crashes) + if r.Crash? then 1 else 0
      ensures r.Ok? ==> (r.value <==> Synced(p))
      ensures env.faults == old(env.faults) ==> r.Ok?
    {
      var read, _ := env.Answer(true);
      if !read.Ok? {
        return if read.Err? then Err else Crash;
      }
      if p !in rows || p !in remotes {
        return Ok(false);
      }
      var hashed, _ := env.Answer(p in tree && tree[p].File?);
      if !hashed.Ok? {
        return if hashed.Err? then Err else Crash;
      }
      return Ok(hash(tree[p].bytes) == remotes[p]);
    }

    predicate Synced(p: Location) reads this`tree, this`rows, this`remotes {
      SyncedIn(hash, p, tree, rows, remotes)
    }

    // The collapse.

    /// An entry a collapse can take away: a directory, a `.cloudsc` entry or a synced file.
    predicate Takes(e: Entry) reads this`tree, this`rows, this`remotes {
      match e.kind
      case DirKind => DirAt(tree, e.at)
      case FileKind => FileAt(tree, e.at) && (IsSidecarName(e.at) || (!ignored(e.at) && Synced(e.at)))
      case OtherKind => false
    }

    ghost predicate SoundFiles(files: seq<(Location, Row)>) reads this`scope, this`rowsBefore {
      forall f :: f in files ==> scope <= f.0 && !IsSidecarName(f.0) && f.0 in rowsBefore && rowsBefore[f.0] == f.1
    }

    ghost predicate SoundPlan(plan: Plan) reads this`scope, this`rowsBefore {
      && SoundFiles(plan.files)
      && (forall c :: c in plan.children ==> scope <= c && IsSidecarName(c))
      && forall d :: d in plan.dirs ==> scope <= d.1 && d.0 == |d.1|
    }

    /// Whether the entry may go; an unsynced file rejects the whole folder.
    method Check(e: Entry) returns (r: Reply<bool>)
      modifies env
      ensures r.Ok? ==> (r.value <==> IsDeletable(ignored, e))
      ensures r.Ok? && r.value ==> Synced(e.at)
      ensures env.faults >= old(env.faults)
      ensures env.crashes == old(env.crashes) + if r.Crash? then 1 else 0
      ensures env.faults == old(env.faults) && (IsDeletable(ignored, e) ==> Synced(e.at)) ==> r.Ok?
    {
      var read, _ := env.Answer(true);
      if !read.Ok? {
        return if read.Err? then Err else Crash;
      }
      if !e.kind.FileKind? || IsSidecarName(e.at) || ignored(e.at) {
        return Ok(false);
      }
      r := IsFullySynced(e.at);
      if r == Ok(false) {
        r := Err;
      }
    }

    /// Every file that would go is synced.
    ghost predicate PassesPhaseOne(listing: seq<Entry>) reads this`tree, this`rows, this`remotes {
      forall e :: e in listing && IsDeletable(ignored, e) ==> Synced(e.at)
    }

    /// Phase 1. It only reads, so a rejection here changes nothing.
    method Enumerate(listing: seq<Entry>) returns (r: Reply<Plan>)
      modifies env
      ensures r.Ok? ==> r.value == PlanOf(rows, ignored, listing)
      ensures r.Ok? ==> PassesPhaseOne(listing)
      ensures env.faults == old(env.faults) && PassesPhaseOne(listing) ==> r.Ok?
      ensures env.faults >= old(env.faults)
      ensures env.crashes == old(env.crashes) + if r.Crash? then 1 else 0
    {
      var plan := Plan([], [], []);
      for i := 0 to |listing|
        invariant plan == PlanOf(rows, ignored, listing[..i])
        invariant forall e :: e in listing[..i] && IsDeletable(ignored, e) ==> Synced(e.at)
        invariant env.faults >= old(env.faults) && env.crashes == old(env.crashes)
      {
        var e := listing[i];
        assert listing[..i + 1] == listing[..i] + [e] && e in listing;
        var isFile := Check(e);
        if !isFile.Ok? {
          return if isFile.Err? then Err else Crash;
        }
        if isFile.value {
          plan := plan.(files := plan.files + [(e.at, rows[e.at])]);
        } else if e.kind.DirKind? {
          plan := plan.(dirs := plan.dirs + [(|e.at|, e.at)]);
        } else if e.kind.FileKind? && IsSidecarName(e.at) {
          plan := plan.(children := plan.children + [e.at]);
        }
      }
      assert listing[..|listing|] == listing;
      r := Ok(plan);
    }

    /// What became of a file: only one that is gone lost its row and is on record.
    twostate predicate EndsAs(verdict: Verdict, p: Location) reads this`rows, this`destroyed {
      if verdict == Gone then Loses(p) && rows == old(rows) - {p}
      else rows == old(rows) && destroyed == old(destroyed)
    }

    /// Unlinks a verified file; tracks it again if it would not go.
    method UnlinkOrRestore(p: Location, row: Row) returns (r: Reply<Verdict>)
      requires Valid() && scope <= p && !IsSidecarName(p) && p !in rows && p in rowsBefore && rowsBefore[p] == row
      requires p in tree && tree[p].File? && p in remotes && hash(tree[p].bytes) == remotes[p]
      requires forall u :: u in destroyed ==> u.at != p
      modifies this`tree, this`rows, this`destroyed, env
      ensures Valid()
      ensures r == Ok(Gone) ==> Loses(p) && rows == old(rows) && tree == old(tree) - {p}
      ensures r.Ok? && r.value != Gone ==>
                && r.value == Locked && tree == old(tree) && rows == old(rows)[p := row]
                && destroyed == old(destroyed)
      ensures env.faults >= old(env.faults)
      ensures env.crashes == old(env.crashes) + if r.Crash? then 1 else 0
      ensures !r.Crash? && env.faults <= old(env.faults) + 1 ==> r.Ok?
      ensures env.faults == old(env.faults) ==> r == Ok(Gone) && tree == old(tree) - {p}
    {
      var removed := RemoveFile(p);
      if removed.Crash? {
        return Crash;
      }
      if removed.Ok? {
        return Ok(Gone);
      }
      var restored := UpsertLocalRow(p, row);
      return if restored.Ok? then Ok(Locked) else if restored.Err? then Err else Crash;
    }

    /// Untracks, then unlinks, a file just verified. If no more than one thing fails, one that is not
    /// gone keeps its row.
    method UntrackAndUnlink(p: Location, row: Row) returns (r: Reply<Verdict>)
      requires Valid() && scope <= p && Synced(p) && rows[p] == row && !IsSidecarName(p)
      modifies this`tree, this`rows, this`destroyed, env
      ensures Valid()
      ensures r.Ok? ==> r.value != Changed && EndsAs(r.value, p)
      ensures r.Ok? ==> tree == if r.value == Gone then old(tree) - {p} else old(tree)
      ensures env.faults >= old(env.faults)
      ensures env.crashes == old(env.crashes) + if r.Crash? then 1 else 0
      ensures !r.Crash? && env.faults <= old(env.faults) + 1 ==> r == Ok(Gone) || rows == old(rows)
      ensures env.faults == old(env.faults) ==> r == Ok(Gone) && tree == old(tree) - {p}
    {
      assert (rows - {p})[p := row] == rows;
      assert IsKept(rowsBefore, rows, p);
      forall u | u in destroyed ensures u.at != p {
        assert IsSidecarName(u.at) || IsVerified(u);
      }
      var untracked := RemoveLocalRow(p);
      if !untracked.Ok? {
        return if untracked.Err? then Err else Crash;
      }
      r := UnlinkOrRestore(p, row);
    }

    /// Verifies one file once more, and lets it go if it is still what Dropbox has.
    method DeleteVerified(p: Location, row: Row) returns (r: Reply<Verdict>)
      requires Valid() && scope <= p && !IsSidecarName(p) && (p in rows ==> rows[p] == row)
      modifies this`tree, this`rows, this`destroyed, this`visits, env
      ensures Valid()
      ensures r.Ok? ==> EndsAs(r.value, p)
      // While the user keeps still, a synced file goes or is locked, and nothing else changes.
      ensures old(visits) <= visits
      ensures r.Ok? && visits == old(visits) ==> tree == if r.value == Gone then old(tree) - {p} else old(tree)
      ensures r.Ok? && visits == old(visits) && old(Synced(p)) ==> r.value != Changed
      ensures env.faults == old(env.faults) ==> visits == old(visits)
      ensures env.faults >= old(env.faults)
      ensures env.crashes == old(env.crashes) + if r.Crash? then 1 else 0
      ensures !r.Crash? && env.faults <= old(env.faults) + 1 ==> r == Ok(Gone) || rows == old(rows)
      ensures env.faults == old(env.faults) ==>
                r.Ok? && if old(Synced(p)) then r == Ok(Gone) && tree == old(tree) - {p}
                         else r == Ok(Changed) && tree == old(tree)
    {
      UserActs();
      var synced := IsFullySynced(p);
      if !synced.Ok? {
        return if synced.Err? then Err else Crash;
      }
      if !synced.value {
        return Ok(Changed);
      }
      r := UntrackAndUnlink(p, row);
    }

    /// One file of phase 2.
    method DeleteOne(files: seq<(Location, Row)>, i: nat) returns (r: Reply<Verdict>)
      requires Valid() && SoundFiles(files) && i < |files| && OnlyFreedAreUntracked()
      modifies this`tree, this`rows, this`destroyed, this`visits, env
      ensures Valid()
      ensures r.Ok? ==> OnlyFreedAreUntracked() && Freed() == GoneAfter(old(Freed()), files[i].0, r.value)
      ensures env.faults >= old(env.faults) && old(visits) <= visits
      ensures env.crashes == old(env.crashes) + if r.Crash? then 1 else 0
      ensures env.faults == old(env.faults) ==> r.Ok? && r.value != Locked && visits == old(visits)
      ensures env.faults == old(env.faults) ==> LostWithin(scope, old(tree), tree)
      ensures r.Ok? && visits == old(visits) && old(Synced(files[i].0)) ==>
                && r.value != Changed
                && tree == (if r.value == Gone then old(tree) - {files[i].0} else old(tree))
                && rows == if r.value == Gone then old(rows) - {files[i].0} else old(rows)
    {
      assert files[i] in files;
      assert files[i].0 in rows ==> IsKept(rowsBefore, rows, files[i].0);
      ghost var rows1 := rows;
      OneLossWithin(scope, tree, files[i].0);
      r := DeleteVerified(files[i].0, files[i].1);
      assert r.Ok? ==> forall p :: IsDropped(rowsBefore, rows, p) ==>
                         IsDropped(rowsBefore, rows1, p) || p == files[i].0;
      if r == Ok(Gone) {
        OneMoreFreed(old(destroyed), destroyed, files[i].0);
      }
    }

    /// What holds as long as nothing crashed.
    ghost predicate HasDeleted(files: seq<(Location, Row)>, deleted: seq<Location>)
      reads this`destroyed, this`rows, this`rowsBefore
    {
      deleted == Freed() && OnlyFreedAreUntracked() && forall p :: p in deleted ==> IsPlanned(files, p)
    }

    /// How phase 2 stands after `n` files, the user having kept still since it began.
    ghost predicate StandsAt(files: seq<(Location, Row)>, n: nat, deleted: seq<Location>, spared: set<Location>,
                             tree0: Tree, rows0: map<Location, Row>)
      reads this`tree, this`rows
    {
      OnTrack(files, n, Members(deleted), spared, tree0, rows0, tree, rows)
    }

    /// One file, and what the loop knows then.
    method DeleteNext(files: seq<(Location, Row)>, i: nat, deleted: seq<Location>, ghost tree0: Tree,
                      ghost rows0: map<Location, Row>, ghost spared: set<Location>)
      returns (r: Reply<Verdict>, more: seq<Location>, ghost nowSpared: set<Location>)
      requires Valid() && SoundFiles(files) && i < |files| && HasDeleted(files, deleted)
      modifies this`tree, this`rows, this`destroyed, this`visits, env
      ensures Valid() && (r.Ok? ==> HasDeleted(files, more))
      ensures r == Ok(Gone) && AreDeleted(files, i, deleted) ==> AreDeleted(files, i + 1, more)
      ensures env.faults >= old(env.faults) && old(visits) <= visits
      ensures env.crashes == old(env.crashes) + if r.Crash? then 1 else 0
      ensures env.faults == old(env.faults) ==> r.Ok? && r.value != Locked && visits == old(visits)
      ensures env.faults == old(env.faults) ==> LostWithin(scope, old(tree), tree)
      ensures |nowSpared| - |spared| <= env.faults - old(env.faults)
      ensures r.Ok? && visits == old(visits) && AllSyncedIn(hash, files, tree0, rows0, remotes) ==>
                old(StandsAt(files, i, deleted, spared, tree0, rows0)) ==>
                r.value != Changed && StandsAt(files, i + 1, more, nowSpared, tree0, rows0)
    {
      ghost var before, rows1 := tree, rows;
      ghost var onTrack := AllSyncedIn(hash, files, tree0, rows0, remotes)
                           && StandsAt(files, i, deleted, spared, tree0, rows0);
      if onTrack {
        NextIsSynced(hash, files, i, Members(deleted), spared, tree0, rows0, tree, rows, remotes);
      }
      r := DeleteOne(files, i);
      more, nowSpared := deleted, spared;
      if !r.Ok? {
        return;
      }
      more := GoneAfter(deleted, files[i].0, r.value);
      nowSpared := if r.value == Locked then spared + {files[i].0} else spared;
      MembersGrow(deleted, files[i].0);
      assert IsPlanned(files, files[i].0);
      if onTrack && visits == old(visits) {
        OneMoreOnTrack(files, i, Members(deleted), spared, tree0, rows0, before, rows1, tree, rows, r.value);
      }
    }

    /// Phase 2. `Ok(false)` degrades. While the user keeps still, a file that will not go costs only itself.
    method DeleteFiles(files: seq<(Location, Row)>)
      returns (r: Reply<bool>, deleted: seq<Location>, ghost spared: set<Location>)
      requires Valid() && SoundFiles(files) && Freed() == [] && OnlyFreedAreUntracked()
      modifies this`tree, this`rows, this`destroyed, this`visits, env
      ensures Valid()
      ensures r.Ok? ==> HasDeleted(files, deleted)
      ensures r == Ok(true) ==> AreDeleted(files, |files|, deleted)
      ensures env.faults >= old(env.faults) && old(visits) <= visits
      ensures env.crashes == old(env.crashes) + if r.Crash? then 1 else 0
      ensures env.faults == old(env.faults) ==> r.Ok? && LostWithin(scope, old(tree), tree)
      ensures |spared| <= env.faults - old(env.faults)
      ensures r.Ok? && visits == old(visits) && AllSyncedIn(hash, files, old(tree), old(rows), remotes) ==>
                StandsAt(files, |files|, deleted, spared, old(tree), old(rows))
      ensures env.faults == old(env.faults) && AllSyncedIn(hash, files, old(tree), old(rows), remotes) ==>
                r == Ok(true) && visits == old(visits)
    {
      deleted, spared := [], {};
      var anyFailed := false;
      OneLossWithin(scope, tree, scope);
      NothingDeleted(files, tree, rows);
      for i := 0 to |files|
        invariant Valid() && HasDeleted(files, deleted)
        invariant anyFailed || AreDeleted(files, i, deleted)
        invariant env.faults >= old(env.faults) && env.crashes == old(env.crashes) && old(visits) <= visits
        invariant env.faults == old(env.faults) ==>
                    visits == old(visits) && !anyFailed && LostWithin(scope, old(tree), tree)
        invariant |spared| <= env.faults - old(env.faults)
        invariant visits == old(visits) && AllSyncedIn(hash, files, old(tree), old(rows), remotes) ==>
                    StandsAt(files, i, deleted, spared, old(tree), old(rows))
      {
        var verdict;
        ghost var middle := tree;
        verdict, deleted, spared := DeleteNext(files, i, deleted, old(tree), old(rows), spared);
        if !verdict.Ok? {
          return if verdict.Err? then Err else Crash, deleted, spared;
        }
        if env.faults == old(env.faults) {
          LossesAddUp(scope, old(tree), middle, tree);
        }
        if verdict.value == Changed {
          return Ok(false), deleted, spared;
        }
        anyFailed := anyFailed || verdict.value == Locked;
      }
      r := Ok(!anyFailed);
    }

    ghost predicate AllSynced(files: seq<(Location, Row)>) reads this`tree, this`rows, this`remotes {
      AllSyncedIn(hash, files, tree, rows, remotes)
    }

    twostate predicate LosesNoFile() reads this`destroyed {
      Freed() == old(Freed())
    }

    method RemoveChild(c: Location) returns (r: Reply<Unit>)
      requires Valid() && IsSidecarName(c) && scope <= c
      modifies this`tree, this`destroyed, this`visits, env
      ensures Valid() && LosesNoFile()
      ensures env.faults >= old(env.faults) && old(visits) <= visits
      ensures env.crashes == old(env.crashes) + if r.Crash? then 1 else 0
      ensures env.faults == old(env.faults) ==> r.Ok? && tree == old(tree) - {c}
    {
      UserActs();
      ghost var before := destroyed;
      r := RemoveFile(c);
      if destroyed != before {
        OneMoreFreed(before, destroyed, c);
      }
    }

    /// The `.cloudsc` children the folder entry will stand for. `Ok(false)` degrades.
    method RemoveChildren(children: seq<Location>) returns (r: Reply<bool>)
      requires Valid() && forall c :: c in children ==> IsSidecarName(c) && scope <= c
      modifies this`tree, this`destroyed, this`visits, env
      ensures Valid() && LosesNoFile()
      ensures env.faults >= old(env.faults) && old(visits) <= visits
      ensures env.crashes == old(env.crashes) + if r.Crash? then 1 else 0
      ensures env.faults == old(env.faults) ==>
                r == Ok(true) && Without(old(tree), children, tree) && LostWithin(scope, old(tree), tree)
    {
      OneLossWithin(scope, tree, scope);
      for i := 0 to |children|
        invariant Valid() && LosesNoFile()
        invariant env.faults >= old(env.faults) && env.crashes == old(env.crashes) && old(visits) <= visits
        invariant env.faults == old(env.faults) ==>
                    Without(old(tree), children[..i], tree) && LostWithin(scope, old(tree), tree)
      {
        assert children[i] in children && children[..i + 1] == children[..i] + [children[i]];
        OneLossWithin(scope, tree, children[i]);
        ghost var middle := tree;
        var removed := RemoveChild(children[i]);
        if !removed.Ok? {
          return if removed.Err? then Ok(false) else Crash;
        }
        if env.faults == old(env.faults) {
          LossesAddUp(scope, old(tree), middle, tree);
        }
      }
      assert children[..|children|] == children;
      r := Ok(true);
    }

    method UntrackFoldersSubtree() returns (r: Reply<Unit>)
      requires Valid()
      modifies this`folders, env
      ensures Valid()
      ensures r.Ok? ==> forall f :: f in folders ==> !(scope <= f)
      ensures env.faults >= old(env.faults)
      ensures env.crashes == old(env.crashes) + if r.Crash? then 1 else 0
      ensures env.faults == old(env.faults) ==> r.Ok?
    {
      var read, _ := env.Answer(true);
      if !read.Ok? {
        return read;
      }
      var pending := folders;
      while pending != {}
        invariant Valid()
        invariant forall f :: f in folders && scope <= f ==> f in pending
        invariant env.faults >= old(env.faults) && env.crashes == old(env.crashes)
        decreases |pending|
      {
        var f :| f in pending;
        pending := pending - {f};
        if scope <= f {
          var removed := RemoveKnownFolder(f);
          if !removed.Ok? {
            return removed;
          }
        }
      }
      r := Ok(Unit);
    }

    method RemoveNextDir(dir: Location) returns (r: Reply<Unit>)
      requires Valid() && dir != [] && scope <= dir && dir !in folders
      modifies this`tree, this`visits, env
      ensures Valid()
      ensures env.faults >= old(env.faults) && old(visits) <= visits
      ensures env.crashes == old(env.crashes) + if r.Crash? then 1 else 0
      ensures env.faults == old(env.faults) ==> !r.Crash? && LostWithin(scope, old(tree), tree)
      ensures env.faults == old(env.faults) && DirAt(old(tree), dir) && Empty(old(tree), dir) ==> dir !in tree
    {
      UserActs();
      OneLossWithin(scope, tree, dir);
      r := RemoveDir(dir);
    }

    /// Removes the directories that are empty, the user acting in between; the others stay.
    method RemoveDirs(sorted: seq<(nat, Location)>) returns (r: Reply<Unit>)
      requires Valid() && scope != [] && DepthsAre(sorted) && forall d :: d in sorted ==> scope <= d.1
      requires forall f :: f in folders ==> !(scope <= f)
      modifies this`tree, this`visits, env
      ensures Valid()
      ensures r.Ok? || r.Crash?
      ensures env.faults >= old(env.faults) && old(visits) <= visits
      ensures env.crashes == old(env.crashes) + if r.Crash? then 1 else 0
      ensures env.faults == old(env.faults) ==> r.Ok? && LostWithin(scope, old(tree), tree)
      ensures env.faults == old(env.faults) && DeepestFirst(sorted) && OnlyListedDirs(old(tree), scope, sorted) ==>
                scope !in tree
    {
      ghost var complete := DeepestFirst(sorted) && OnlyListedDirs(tree, scope, sorted);
      OneLossWithin(scope, tree, scope);
      for i := 0 to |sorted|
        invariant Valid()
        invariant env.faults >= old(env.faults) && env.crashes == old(env.crashes) && old(visits) <= visits
        invariant env.faults == old(env.faults) ==> LostWithin(scope, old(tree), tree)
        invariant complete && env.faults == old(env.faults) ==> OnlyPending(tree, scope, sorted, i)
      {
        assert sorted[i] in sorted;
        if complete && env.faults == old(env.faults) {
          DeepestIsEmpty(tree, scope, sorted, i);
        }
        ghost var middle := tree;
        var removed := RemoveNextDir(sorted[i].1);
        if removed.Crash? {
          return Crash;
        }
        if env.faults == old(env.faults) {
          LossesAddUp(scope, old(tree), middle, tree);
          if complete {
            OneDirLess(middle, tree, scope, sorted, i);
          }
        }
      }
      assert complete && env.faults == old(env.faults) ==> OnlyPending(tree, scope, sorted, |sorted|);
      assert !Outside(scope, scope);
      UserActs();
      r := Ok(Unit);
    }

    method PruneDirs(dirs: seq<(nat, Location)>) returns (r: Reply<Unit>)
      requires Valid() && scope != [] && DepthsAre(dirs) && forall d :: d in dirs ==> scope <= d.1
      requires forall f :: f in folders ==> !(scope <= f)
      modifies this`tree, this`visits, env
      ensures Valid()
      ensures r.Ok? || r.Crash?
      ensures env.faults >= old(env.faults) && old(visits) <= visits
      ensures env.crashes == old(env.crashes) + if r.Crash? then 1 else 0
      ensures env.faults == old(env.faults) ==> r.Ok? && LostWithin(scope, old(tree), tree)
      ensures env.faults == old(env.faults) && OnlyListedDirs(old(tree), scope, dirs) ==> scope !in tree
    {
      SortedDeepestFirst(dirs);
      r := RemoveDirs(SortDeepestFirst(dirs));
    }

    /// The directories above the entry of `p`.
    method MakeWay(p: Location) returns (r: Reply<Unit>)
      requires Valid() && p != [] && scope != [] && scope <= p
      modifies this`tree, env
      ensures Valid()
      ensures env.faults >= old(env.faults)
      ensures env.crashes == old(env.crashes) + if r.Crash? then 1 else 0
      ensures r.Ok? ==> DirAt(tree, Parent(p))
      ensures forall q :: q in old(tree) ==> q in tree && tree[q] == old(tree)[q]
      ensures forall q :: q in tree && q !in old(tree) ==> tree[q].Dir? && q <= Parent(p)
      ensures env.faults == old(env.faults) && WayIsClear(scope, old(tree), p) && NothingInTheWay(scope, old(tree)) ==>
                r.Ok? && !DirAt(tree, SidecarOf(p))
    {
      SidecarOfIsOne(p);
      SidecarIsInReach(scope, p);
      if WayIsClear(scope, tree, p) && NothingInTheWay(scope, tree) {
        ClearWayCanBeMade(scope, tree, p);
        assert IsEntry(scope, SidecarOf(p)) && !DirAt(tree, SidecarOf(p)) && !(SidecarOf(p) <= Parent(p));
      }
      r := CreateDirAll(Parent(p));
    }

    method WriteFilePlaceholder(p: Location) returns (r: Reply<Unit>)
      requires Valid() && p != [] && scope != [] && scope <= p
      modifies this`tree, this`destroyed, env
      ensures Valid() && LosesNoFile()
      ensures r.Ok? ==> SidecarOf(p) in tree && tree[SidecarOf(p)] == Sidecar(false, p)
      ensures env.faults >= old(env.faults)
      ensures env.crashes == old(env.crashes) + if r.Crash? then 1 else 0
      ensures NewAreEntries(old(tree), tree)
      ensures forall q :: q in old(tree) && q != SidecarOf(p) ==> q in tree && tree[q] == old(tree)[q]
      ensures env.faults == old(env.faults) && WayIsClear(scope, old(tree), p) && NothingInTheWay(scope, old(tree)) ==>
                && r.Ok? && NothingInTheWay(scope, tree)
                && forall q :: WayIsClear(scope, old(tree), q) ==> WayIsClear(scope, tree, q)
    {
      SidecarOfIsOne(p);
      SidecarIsInReach(scope, p);
      ghost var before := tree;
      r := MakeWay(p);
      if !r.Ok? {
        return;
      }
      r := WriteSidecarFile(SidecarOf(p), Sidecar(false, p));
      if r.Ok? && WayIsClear(scope, before, p) && NothingInTheWay(scope, before) {
        WritingKeepsWaysClear(scope, before, tree, p);
      }
    }

    /// Each freed file gets its own entry.
    method DegradeToPerFile(deleted: seq<Location>) returns (r: Reply<seq<Location>>)
      requires Valid() && scope != [] && forall p :: p in deleted ==> p != [] && scope <= p
      modifies this`tree, this`destroyed, env
      ensures Valid() && LosesNoFile()
      ensures NewAreEntries(old(tree), tree)
      ensures r.Ok? ==> r.value == deleted && forall p :: p in deleted ==> HasOwnEntry(p)
      ensures env.faults >= old(env.faults)
      ensures env.crashes == old(env.crashes) + if r.Crash? then 1 else 0
      ensures env.faults == old(env.faults) && AllWaysClear(scope, old(tree), deleted) ==> r.Ok?
    {
      for i := 0 to |deleted|
        invariant Valid() && LosesNoFile() && NewAreEntries(old(tree), tree)
        invariant forall k :: 0 <= k < i ==> deleted[k] != [] && HasOwnEntry(deleted[k])
        invariant env.faults >= old(env.faults) && env.crashes == old(env.crashes)
        invariant env.faults == old(env.faults) && AllWaysClear(scope, old(tree), deleted) ==>
                    AllWaysClear(scope, tree, deleted)
      {
        assert deleted[i] in deleted;
        forall k | 0 <= k < i && SidecarOf(deleted[k]) == SidecarOf(deleted[i]) ensures deleted[k] == deleted[i] {
          SidecarOfIsInjective(deleted[k], deleted[i]);
        }
        var written := WriteFilePlaceholder(deleted[i]);
        if !written.Ok? {
          return if written.Err? then Err else Crash;
        }
      }
      r := Ok(deleted);
    }

    predicate HasOwnEntry(p: Location)
      requires p != []
      reads this`tree
    {
      SidecarOf(p) in tree && tree[SidecarOf(p)] == Sidecar(false, p)
    }

    /// The folder is gone with everything in it, and one entry stands for it.
    predicate Collapsed(folder: Location)
      requires folder != []
      reads this`tree
    {
      && (forall p :: p in tree ==> !(folder <= p))
      && SidecarOf(folder) in tree && tree[SidecarOf(folder)] == Sidecar(true, folder)
    }

    /// From the `.cloudsc` children to the directories, the user acting all the while. `Ok(false)`
    /// degrades.
    method RemoveRest(plan: Plan) returns (r: Reply<bool>)
      requires Valid() && scope != [] && SoundPlan(plan)
      modifies this`tree, this`folders, this`destroyed, this`visits, env
      ensures Valid() && LosesNoFile()
      ensures r == Ok(true) ==> forall p :: p in tree ==> !(scope <= p)
      ensures env.faults >= old(env.faults) && old(visits) <= visits
      ensures env.crashes == old(env.crashes) + if r.Crash? then 1 else 0
      ensures env.faults == old(env.faults) ==> r.Ok? && LostWithin(scope, old(tree), tree)
      ensures env.faults == old(env.faults) && OnlyLeft(old(tree), scope, plan) ==> r == Ok(true)
    {
      var cleared := RemoveChildren(plan.children);
      if cleared != Ok(true) {
        return cleared;
      }
      UserActs();
      ghost var middle := tree;
      var untracked := UntrackFoldersSubtree();
      if !untracked.Ok? {
        return if untracked.Err? then Err else Crash;
      }
      var pruned := PruneDirs(plan.dirs);
      if !pruned.Ok? {
        return Crash;
      }
      NothingWithoutTheFolder(tree, scope);
      if env.faults == old(env.faults) {
        LossesAddUp(scope, old(tree), middle, tree);
      }
      r := Ok(scope !in tree);
    }

    /// The entries for what is gone: one for the folder if it is emptied, else one for each file.
    method Represent(gone: seq<Location>, emptied: bool) returns (r: Reply<seq<Location>>)
      requires Valid() && scope != [] && forall p :: p in gone ==> p != [] && scope <= p
      requires emptied ==> forall p :: p in tree ==> !(scope <= p)
      modifies this`tree, this`destroyed, env
      ensures Valid() && LosesNoFile()
      ensures NewAreEntries(old(tree), tree)
      ensures r.Ok? ==> (emptied && r.value == [scope] && Collapsed(scope)) ||
                        (!emptied && r.value == gone && forall p :: p in gone ==> HasOwnEntry(p))
      ensures env.faults >= old(env.faults)
      ensures env.crashes == old(env.crashes) + if r.Crash? then 1 else 0
      ensures env.faults == old(env.faults) && emptied && DirAt(old(tree), Parent(scope)) ==>
                !DirAt(old(tree), SidecarOf(scope)) ==> r.Ok?
      ensures env.faults == old(env.faults) && !emptied && AllWaysClear(scope, old(tree), gone) ==> r.Ok?
    {
      if !emptied {
        r := DegradeToPerFile(gone);
        return;
      }
      SidecarOfIsOne(scope);
      var written := WriteSidecarFile(SidecarOf(scope), Sidecar(true, scope));
      r := if written.Ok? then Ok([scope]) else if written.Err? then Err else Crash;
    }

    /// Phase 2, in terms of the set of its files.
    method DeletePlanned(plan: Plan, ghost files: set<Location>) returns (r: Reply<bool>, deleted: seq<Location>)
      requires Valid() && SoundPlan(plan) && Freed() == [] && OnlyFreedAreUntracked()
      requires forall p :: p in files <==> IsPlanned(plan.files, p)
      modifies this`tree, this`rows, this`destroyed, this`visits, env
      ensures Valid()
      ensures r.Ok? ==> deleted == Freed() && OnlyFreedAreUntracked() && Members(deleted) <= files
      ensures r == Ok(true) ==> files <= Members(deleted)
      ensures env.faults >= old(env.faults) && old(visits) <= visits
      ensures env.crashes == old(env.crashes) + if r.Crash? then 1 else 0
      ensures env.faults == old(env.faults) ==> r.Ok? && LostWithin(scope, old(tree), tree)
      ensures env.faults == old(env.faults) && old(AllSynced(plan.files)) ==>
                && r == Ok(true) && (forall p :: p in deleted ==> p !in tree)
                && (CoveredByPlan(old(tree), scope, plan) ==> OnlyLeft(tree, scope, plan))
      ensures r.Ok? && visits == old(visits) && old(AllSynced(plan.files)) ==>
                |files - Members(deleted)| <= env.faults - old(env.faults)
    {
      ghost var before, rows0, smooth := tree, rows, AllSynced(plan.files);
      ghost var spared;
      r, deleted, spared := DeleteFiles(plan.files);
      if smooth && r.Ok? && visits == old(visits) {
        AreGoneOrSpared(plan, deleted, spared, before, rows0, tree, rows);
      }
      CountSpared(plan.files, files, deleted, spared);
    }

    /// Phase 2 and the rest. `Ok(false)` degrades.
    method EmptyFolder(plan: Plan, ghost files: set<Location>) returns (r: Reply<bool>, deleted: seq<Location>)
      requires Valid() && scope != [] && SoundPlan(plan) && Freed() == [] && OnlyFreedAreUntracked()
      requires forall p :: p in files <==> IsPlanned(plan.files, p)
      modifies this`tree, this`rows, this`folders, this`destroyed, this`visits, env
      ensures Valid()
      ensures r.Ok? ==> deleted == Freed() && OnlyFreedAreUntracked() && Members(deleted) <= files
      ensures r == Ok(true) ==> forall p :: p in tree ==> !(scope <= p)
      ensures env.faults >= old(env.faults) && old(visits) <= visits
      ensures env.crashes == old(env.crashes) + if r.Crash? then 1 else 0
      ensures env.faults == old(env.faults) ==> r.Ok? && LostWithin(scope, old(tree), tree)
      ensures env.faults == old(env.faults) && old(AllSynced(plan.files)) ==>
                && Members(deleted) == files && (forall p :: p in deleted ==> p !in tree)
                && (CoveredByPlan(old(tree), scope, plan) ==> r == Ok(true))
      ensures r.Ok? && visits == old(visits) && old(AllSynced(plan.files)) ==>
                |files - Members(deleted)| <= env.faults - old(env.faults)
      // Nothing else is touched before all the files are gone.
      ensures folders == old(folders) || files <= Members(Freed())
    {
      ghost var before := tree;
      r, deleted := DeletePlanned(plan, files);
      if r != Ok(true) {
        return;
      }
      ghost var middle := tree;
      r := RemoveRest(plan);
      if env.faults == old(env.faults) {
        assert forall p :: p in tree ==> Same(middle, tree, p);
        LossesAddUp(scope, before, middle, tree);
      }
    }

    lemma AreGoneOrSpared(plan: Plan, deleted: seq<Location>, spared: set<Location>, tree0: Tree,
                          rows0: map<Location, Row>, now: Tree, rowsNow: map<Location, Row>)
      requires OnTrack(plan.files, |plan.files|, Members(deleted), spared, tree0, rows0, now, rowsNow)
      ensures forall f :: f in plan.files ==> f.0 in deleted || f.0 in spared
      ensures forall p :: p in deleted ==> p !in now
      ensures |spared| == 0 && CoveredByPlan(tree0, scope, plan) ==> OnlyLeft(now, scope, plan)
    {
      if |spared| == 0 && CoveredByPlan(tree0, scope, plan) {
        forall p | p in now && scope <= p ensures Left(now, plan, p) {
          assert forall f :: f in plan.files ==> f.0 in deleted;
          assert !IsPlanned(plan.files, p) && Left(tree0, plan, p);
        }
      }
    }

    /// The paths of the files phase 1 is to collect.
    ghost function Deletables(listing: seq<Entry>): set<Location> {
      set e | e in listing && IsDeletable(ignored, e) :: e.at
    }

    lemma PlanIsOfDeletables(listing: seq<Entry>)
      requires PassesPhaseOne(listing)
      ensures var plan := PlanOf(rows, ignored, listing);
        && (forall p :: p in Deletables(listing) <==> IsPlanned(plan.files, p))
        && (NoDuplicates(listing) ==> AllSynced(plan.files)) && Deletables(listing) <= tree.Keys
    {
      var plan := PlanOf(rows, ignored, listing);
      PlanIs(rows, ignored, listing);
      forall p | p in Deletables(listing) ensures IsPlanned(plan.files, p) {
        assert Entry(p, FileKind) in listing && Synced(p);
        assert (p, rows[p]) in plan.files;
      }
      forall f | f in plan.files ensures f.0 in Deletables(listing) && Synced(f.0) {
        assert (f.0, f.1) in plan.files && Entry(f.0, FileKind) in listing;
      }
    }

    lemma PlanCovers(folder: Location, listing: seq<Entry>)
      requires Collapsible(tree, folder, listing) && forall e :: e in listing ==> Takes(e)
      ensures CoveredByPlan(tree, folder, PlanOf(rows, ignored, listing)) && PassesPhaseOne(listing)
      ensures AllSynced(PlanOf(rows, ignored, listing).files)
    {
      var plan := PlanOf(rows, ignored, listing);
      PlanIs(rows, ignored, listing);
      assert forall e :: e in listing ==> Takes(e);
      forall p | p in tree && folder <= p ensures Left(tree, plan, p) || IsPlanned(plan.files, p) {
        var e :| e in listing && e.at == p;
        assert Takes(e);
        if IsDeletable(ignored, e) {
          assert (p, rows[p]) in plan.files;
        }
      }
    }

    /// Both phases. `Ok(false)` degrades.
    method TakeAway(listing: seq<Entry>) returns (r: Reply<bool>, deleted: seq<Location>)
      requires Valid() && scope != [] && rows == rowsBefore && Freed() == []
      requires forall e :: e in listing ==> scope <= e.at
      modifies this`tree, this`rows, this`folders, this`destroyed, this`visits, env
      ensures Valid()
      ensures r.Ok? ==> deleted == Freed() && OnlyFreedAreUntracked() && Members(deleted) <= Deletables(listing)
      ensures r == Ok(true) ==> forall p :: p in tree ==> !(scope <= p)
      ensures env.faults >= old(env.faults) && old(visits) <= visits
      ensures env.crashes == old(env.crashes) + if r.Crash? then 1 else 0
      ensures !old(PassesPhaseOne(listing)) ==>
                !r.Ok? && tree == old(tree) && rows == old(rows) && folders == old(folders)
      ensures env.faults == old(env.faults) && old(PassesPhaseOne(listing)) ==>
                r.Ok? && TookOnly(scope, old(tree), tree, deleted)
      ensures env.faults == old(env.faults) && old(PassesPhaseOne(listing)) && NoDuplicates(listing) ==>
                Members(deleted) == Deletables(listing) && forall p :: p in deleted ==> p !in tree
      ensures env.faults == old(env.faults) && old(CanCollapse(scope, listing)) ==> r == Ok(true)
      // While the user keeps still, a file that will not go costs only itself.
      ensures r.Ok? && visits == old(visits) && NoDuplicates(listing) ==>
                |Deletables(listing) - Members(deleted)| <= env.faults - old(env.faults)
      ensures folders == old(folders) || Deletables(listing) <= Members(Freed())
    {
      if CanCollapse(scope, listing) {
        PlanCovers(scope, listing);
      }
      var plan := Enumerate(listing);
      if !plan.Ok? {
        return if plan.Err? then Err else Crash, [];
      }
      PlanIs(rows, ignored, listing);
      PlanIsOfDeletables(listing);
      r, deleted := EmptyFolder(plan.value, Deletables(listing));
    }

    /// The listing is complete, and every entry of the folder may go.
    ghost predicate CanCollapse(folder: Location, listing: seq<Entry>) reads this`tree, this`rows, this`remotes {
      Collapsible(tree, folder, listing) && forall e :: e in listing ==> Takes(e)
    }

    method Begin(folder: Location)
      requires IsTree()
      modifies this`scope, this`treeBefore, this`rowsBefore, this`foldersBefore, this`visits,
               this`destroyed
      ensures Valid() && HasBegun(folder) && destroyed == [] && visits == []
    {
      scope, treeBefore, rowsBefore, foldersBefore := folder, tree, rows, folders;
      visits, destroyed := [], [];
    }

    /// The collapse of the folder started from the state before the call.
    twostate predicate HasBegun(folder: Location)
      reads this`scope, this`treeBefore, this`rowsBefore, this`foldersBefore
    {
      && scope == folder && treeBefore == old(tree) && rowsBefore == old(rows) && foldersBefore == old(folders)
    }

    /// What is on record as freed has no row.
    lemma FreedHaveNoRows()
      requires Valid()
      ensures forall p :: p in Freed() ==> p !in rows && !IsSidecarName(p)
    {
      FreedAreLogged(destroyed);
      forall p | p in Freed() ensures p !in rows {
        var u :| u in destroyed && u.at == p;
      }
    }

    /// The entries, where the folder once was as in `began`.
    method Conclude(gone: seq<Location>, emptied: bool, ghost began: Tree) returns (r: Reply<seq<Location>>)
      requires Valid() && scope != [] && gone == Freed() && forall p :: p in gone ==> p != [] && scope <= p
      requires emptied ==> forall p :: p in tree ==> !(scope <= p)
      modifies this`tree, this`destroyed, env
      ensures Valid() && LosesNoFile() && NewAreEntries(old(tree), tree)
      ensures r.Ok? ==> || (r.value == [scope] && Collapsed(scope))
                        || (r.value == Freed() && forall p :: p in Freed() ==> p != [] && HasOwnEntry(p))
      ensures r.Ok? && emptied ==> r.value == [scope] && Collapsed(scope)
      ensures env.faults >= old(env.faults)
      ensures env.crashes == old(env.crashes) + if r.Crash? then 1 else 0
      ensures env.faults == old(env.faults) && TookOnly(scope, began, old(tree), gone) ==>
                && (Closed(began) && DirAt(began, scope) && NothingInTheWay(scope, began) ==> r.Ok?)
                && (Closed(began) && DirAt(began, scope) && emptied && !DirAt(began, SidecarOf(scope)) ==> r.Ok?)
    {
      if TookOnly(scope, began, tree, gone) && Closed(began) && DirAt(began, scope) {
        ParentOutlives(scope, began, tree);
        if NothingInTheWay(scope, began) {
          forall p | p in gone ensures WayIsClear(scope, tree, p) {
            ClearWayFrom(scope, began, tree, p);
          }
          ClearWayFrom(scope, began, tree, scope);
          SidecarOfIsOne(scope);
          assert IsEntry(scope, SidecarOf(scope)) && !DirAt(tree, SidecarOf(scope));
        }
      }
      r := Represent(gone, emptied);
    }

    /// Of the folder `scope`, from the start.
    method Collapse(listing: seq<Entry>) returns (r: Reply<seq<Location>>)
      requires Valid() && scope != [] && rows == rowsBefore && destroyed == [] && visits == []
      requires forall e :: e in listing ==> scope <= e.at
      modifies this`tree, this`rows, this`folders, this`visits, this`destroyed, env
      ensures Valid()
      ensures r.Ok? ==> || (r.value == [scope] && Collapsed(scope))
                        || (r.value == Freed() && forall p :: p in Freed() ==> p != [] && HasOwnEntry(p))
      ensures r.Ok? ==> OnlyFreedAreUntracked() && Members(Freed()) <= Deletables(listing)
      ensures !old(PassesPhaseOne(listing)) ==>
                !r.Ok? && tree == old(tree) && rows == old(rows) && folders == old(folders)
      ensures r.Ok? && visits == [] && NoDuplicates(listing) ==>
                |Deletables(listing) - Members(Freed())| <= env.faults - old(env.faults)
      ensures env.faults == old(env.faults) && old(PassesPhaseOne(listing)) && NoDuplicates(listing) ==>
                Members(Freed()) == Deletables(listing) && forall p :: p in Freed() ==> !FileAt(tree, p)
      ensures folders == old(folders) || Deletables(listing) <= Members(Freed())
      ensures env.faults >= old(env.faults)
      ensures env.crashes == old(env.crashes) + if r.Crash? then 1 else 0
      ensures env.faults == old(env.faults) && old(PassesPhaseOne(listing)) && old(DirAt(tree, scope)) ==>
                NothingInTheWay(scope, old(tree)) ==> r.Ok?
      ensures env.faults == old(env.faults) && old(CanCollapse(scope, listing)) && old(DirAt(tree, scope)) ==>
                !old(DirAt(tree, SidecarOf(scope))) ==> r == Ok([scope]) && Collapsed(scope)
    {
      ghost var began := tree;
      if CanCollapse(scope, listing) {
        PlanCovers(scope, listing);
      }
      var emptied, gone := TakeAway(listing);
      if !emptied.Ok? {
        return if emptied.Err? then Err else Crash;
      }
      FreedAreLogged(destroyed);
      r := Conclude(gone, emptied.value, began);
    }

    method DehydrateFolderCollapse(folder: Location, listing: seq<Entry>) returns (r: Reply<seq<Location>>)
      requires IsTree() && forall e :: e in listing ==> folder <= e.at
      modifies this`tree, this`rows, this`folders, this`scope, this`treeBefore, this`rowsBefore, this`foldersBefore,
               this`visits, this`destroyed, env
      // On every exit, a crash included: what the next scan would delete, the disk between any two
      // visits of the user, and the index are as `Valid` says.
      ensures HasBegun(folder) && Valid()
      ensures env.crashes == old(env.crashes) + if r.Crash? then 1 else 0
      // Every file it took away is represented, and it answers with just those files or the folder:
      ensures r.Ok? ==> folder != []
      ensures r.Ok? ==> || (r.value == [folder] && Collapsed(folder))
                        || (r.value == Freed() && forall p :: p in Freed() ==> p != [] && HasOwnEntry(p))
      ensures r.Ok? ==> OnlyFreedAreUntracked() && Members(Freed()) <= Deletables(listing)
      // A rejection in phase 1 changes nothing:
      ensures folder == [] || !old(PassesPhaseOne(listing)) ==>
                !r.Ok? && tree == old(tree) && rows == old(rows) && folders == old(folders)
      // It frees every file that may go: while the user keeps still, one that will not go costs only itself.
      ensures r.Ok? && visits == [] && NoDuplicates(listing) ==>
                |Deletables(listing) - Members(Freed())| <= env.faults - old(env.faults)
      ensures env.faults == old(env.faults) && folder != [] && old(PassesPhaseOne(listing)) && NoDuplicates(listing) ==>
                Members(Freed()) == Deletables(listing) && forall p :: p in Freed() ==> p !in rows && !FileAt(tree, p)
      // Folder rows go only once all of them are gone.
      ensures folders == old(folders) || Deletables(listing) <= Members(Freed())
      // If nothing fails and the user keeps still, whatever passes phase 1 ends well, unless a directory
      // has the name of an entry; and where all of the folder can go, it collapses.
      ensures env.faults == old(env.faults) && folder != [] && old(PassesPhaseOne(listing)) ==>
                old(DirAt(tree, folder)) && NothingInTheWay(folder, old(tree)) ==> r.Ok?
      ensures env.faults == old(env.faults) && folder != [] && old(CanCollapse(folder, listing)) ==>
                old(DirAt(tree, folder)) && !old(DirAt(tree, SidecarOf(folder))) ==>
                r == Ok([folder]) && Collapsed(folder)
    {
      Begin(folder);
      if folder == [] {
        return Err;
      }
      r := Collapse(listing);
      FreedHaveNoRows();
    }
  }

  /// A change of the tree by the user.
  datatype Visit = Visit(found: Tree, left: Tree)

  predicate Took(v: Visit, p: Location) {
    (FileAt(v.found, p) && !FileAt(v.left, p)) || (DirAt(v.found, p) && !DirAt(v.left, p))
  }

  ghost predicate OnlyLess(before: map<Location, Row>, after: map<Location, Row>) {
    forall p {:trigger IsKept(before, after, p)} :: p in after ==> IsKept(before, after, p)
  }

  predicate IsDropped(before: map<Location, Row>, after: map<Location, Row>, p: Location) {
    p in before && p !in after
  }

  predicate IsKept(before: map<Location, Row>, after: map<Location, Row>, p: Location) {
    p in before && p in after && after[p] == before[p]
  }

  lemma OneLess(before: map<Location, Row>, after: map<Location, Row>, p: Location)
    requires OnlyLess(before, after)
    ensures OnlyLess(before, after - {p})
  {
    forall q | q in after - {p} ensures IsKept(before, after - {p}, q) {
      assert IsKept(before, after, q);
    }
  }

  lemma OneRestored(before: map<Location, Row>, after: map<Location, Row>, p: Location)
    requires OnlyLess(before, after) && p in before
    ensures OnlyLess(before, after[p := before[p]])
  {
    var restored := after[p := before[p]];
    forall q | q in restored ensures IsKept(before, restored, q) {
      assert q != p ==> IsKept(before, after, q);
    }
  }

  predicate Outside(folder: Location, p: Location) {
    !(folder <= p)
  }

  /// What the next scan would delete on Dropbox: tracked files without a file, and (with all they
  /// contain) tracked folders without a directory.
  predicate IsMissing(tree: Tree, rows: map<Location, Row>, folders: set<Location>, p: Location) {
    (p in rows && !FileAt(tree, p)) || (p in folders && !DirAt(tree, p))
  }

  lemma WritingMissesNothing(tree: Tree, rows: map<Location, Row>, folders: set<Location>, at: Location, node: Node)
    requires !DirAt(tree, at) && !node.Dir?
    ensures forall p :: IsMissing(tree[at := node], rows, folders, p) ==> IsMissing(tree, rows, folders, p)
  {
  }

  ghost predicate UserTook(visits: seq<Visit>, p: Location) {
    exists v {:trigger Took(v, p)} :: v in visits && Took(v, p)
  }

  lemma OneMoreVisitTakes(visits: seq<Visit>, v: Visit, p: Location)
    ensures UserTook(visits + [v], p) <==> UserTook(visits, p) || Took(v, p)
  {
    var more := visits + [v];
    assert more[|visits|] == v;
    if UserTook(visits, p) {
      var w :| w in visits && Took(w, p);
      assert w in more;
    }
  }

  // What a collapse may change.

  /// A name it may write or remove whatever it holds.
  predicate IsEntry(folder: Location, p: Location) {
    IsSidecarName(p) && (folder <= p || (folder != [] && p == SidecarOf(folder)))
  }

  /// What it took: a file that is on record with its bytes, a directory of the folder, or an entry.
  predicate Taken(folder: Location, log: seq<Unlink>, p: Location, node: Node, after: Tree) {
    && (node.File? ==> Unlink(p, node.bytes) in log)
    && (IsEntry(folder, p) || (folder <= p && (node.File? || node.Dir?) && (p in after ==> after[p].Dir?)))
  }

  /// All that changed are files on record, directories and entries.
  ghost predicate Accounted(folder: Location, log: seq<Unlink>, before: Tree, after: Tree) {
    && (forall p {:trigger Same(before, after, p)} :: p in before ==>
          Same(before, after, p) || Taken(folder, log, p, before[p], after))
    && forall p {:trigger Same(before, after, p)} :: p in after ==>
         Same(before, after, p) || after[p].Dir? || (IsEntry(folder, p) && (after[p].Sidecar? || after[p].Torn?))
  }

  /// The tree as the user left it before visit `i`.
  function LeftBefore(began: Tree, visits: seq<Visit>, i: nat): Tree
    requires i <= |visits|
  {
    if i == 0 then began else visits[i - 1].left
  }

  ghost predicate VisitsAccountedFor(folder: Location, log: seq<Unlink>, began: Tree, visits: seq<Visit>) {
    forall i {:trigger LeftBefore(began, visits, i)} :: 0 <= i < |visits| ==>
      Accounted(folder, log, LeftBefore(began, visits, i), visits[i].found)
  }

  ghost predicate AccountedFor(folder: Location, log: seq<Unlink>, began: Tree, visits: seq<Visit>, tree: Tree) {
    VisitsAccountedFor(folder, log, began, visits) && Accounted(folder, log, LeftBefore(began, visits, |visits|), tree)
  }

  lemma OneMoreVisit(folder: Location, log: seq<Unlink>, began: Tree, visits: seq<Visit>, tree: Tree, next: Tree)
    requires AccountedFor(folder, log, began, visits, tree)
    ensures AccountedFor(folder, log, began, visits + [Visit(tree, next)], next)
  {
    var more := visits + [Visit(tree, next)];
    assert LeftBefore(began, more, |more|) == next && Accounted(folder, log, next, next);
    forall i | 0 <= i < |more| ensures Accounted(folder, log, LeftBefore(began, more, i), more[i].found) {
      var left := LeftBefore(began, visits, i);
      assert LeftBefore(began, more, i) == left;
      if i < |visits| {
        assert Accounted(folder, log, left, visits[i].found);
      }
    }
  }

  lemma LongerLogAccounts(folder: Location, log: seq<Unlink>, u: Unlink, began: Tree, visits: seq<Visit>)
    requires VisitsAccountedFor(folder, log, began, visits)
    ensures VisitsAccountedFor(folder, log + [u], began, visits)
  {
    forall i | 0 <= i < |visits| ensures Accounted(folder, log + [u], LeftBefore(began, visits, i), visits[i].found) {
      LongerLogAccountsFor(folder, log, u, LeftBefore(began, visits, i), visits[i].found);
    }
  }

  lemma LongerLogAccountsFor(folder: Location, log: seq<Unlink>, u: Unlink, before: Tree, after: Tree)
    requires Accounted(folder, log, before, after)
    ensures Accounted(folder, log + [u], before, after)
  {
    forall p | p in before && !Same(before, after, p) ensures Taken(folder, log + [u], p, before[p], after) {
      assert Taken(folder, log, p, before[p], after);
    }
  }

  /// A file goes on record and off the disk.
  lemma TakingIsAccounted(folder: Location, log: seq<Unlink>, before: Tree, after: Tree, p: Location)
    requires Accounted(folder, log, before, after) && FileAt(after, p) && folder <= p
    requires IsSidecarName(p) || after[p].File?
    requires after[p].File? ==> Unlink(p, after[p].bytes) in log
    ensures Accounted(folder, log, before, after - {p})
  {
    var next := after - {p};
    forall q | q in before && !Same(before, next, q) ensures Taken(folder, log, q, before[q], next) {
      assert q != p ==> !Same(before, after, q);
      assert !Same(before, after, q) ==> Taken(folder, log, q, before[q], after);
    }
    assert forall q :: q in next ==> (Same(before, next, q) <==> Same(before, after, q));
  }

  /// An entry is written over what is on record.
  lemma WritingIsAccounted(folder: Location, log: seq<Unlink>, before: Tree, after: Tree, p: Location, node: Node)
    requires Accounted(folder, log, before, after) && IsEntry(folder, p) && (node.Sidecar? || node.Torn?)
    requires p in after && after[p].File? ==> Unlink(p, after[p].bytes) in log
    ensures Accounted(folder, log, before, after[p := node])
  {
    var next := after[p := node];
    forall q | q in before && !Same(before, next, q) ensures Taken(folder, log, q, before[q], next) {
      assert q != p ==> !Same(before, after, q);
      assert !Same(before, after, q) ==> Taken(folder, log, q, before[q], after);
    }
    assert forall q :: q in next && q != p ==> (Same(before, next, q) <==> Same(before, after, q));
  }

  /// Directories come and go.
  lemma DirsAreAccounted(folder: Location, log: seq<Unlink>, before: Tree, after: Tree, next: Tree)
    requires Accounted(folder, log, before, after)
    requires forall q :: q in after ==> Same(after, next, q) || (q !in next && after[q].Dir? && folder <= q)
    requires forall q :: q in next ==> Same(after, next, q) || next[q].Dir?
    ensures Accounted(folder, log, before, next)
  {
    forall q | q in before && !Same(before, next, q) ensures Taken(folder, log, q, before[q], next) {
      assert Same(before, after, q) || Taken(folder, log, q, before[q], after);
    }
    forall q | q in next && !next[q].Dir?
      ensures Same(before, next, q) || (IsEntry(folder, q) && (next[q].Sidecar? || next[q].Torn?))
    {
      assert Same(after, next, q) && (Same(before, after, q) || IsEntry(folder, q));
    }
  }

  function FilesOf(log: seq<Unlink>): seq<Location> {
    if log == [] then []
    else
      var last := log[|log| - 1].at;
      FilesOf(log[..|log| - 1]) + if IsSidecarName(last) then [] else [last]
  }

  lemma OneMoreFreed(before: seq<Unlink>, after: seq<Unlink>, p: Location)
    requires |after| == |before| + 1 && before < after && after[|before|].at == p
    ensures FilesOf(after) == FilesOf(before) + if IsSidecarName(p) then [] else [p]
  {
    assert after[..|after| - 1] == before;
  }

  lemma {:induction false} FreedAreLogged(log: seq<Unlink>)
    ensures forall p :: p in FilesOf(log) <==> !IsSidecarName(p) && exists u :: u in log && u.at == p
  {
    if log != [] {
      var before, last := log[..|log| - 1], log[|log| - 1];
      assert log == before + [last];
      FreedAreLogged(before);
    }
  }

  /// What is new are directories and `.cloudsc` entries.
  ghost predicate NewAreEntries(before: Tree, after: Tree) {
    forall p :: p in after && p !in before ==> after[p].Dir? || IsSidecarName(p)
  }

  predicate Same(before: Tree, after: Tree, p: Location) {
    p in before && p in after && before[p] == after[p]
  }

  /// Only what lies at or under the folder went, and nothing is new.
  ghost predicate LostWithin(folder: Location, before: Tree, after: Tree) {
    && (forall p {:trigger Same(before, after, p)} :: p in after ==> Same(before, after, p))
    && forall p {:trigger Same(before, after, p)} :: p in before && Outside(folder, p) ==> Same(before, after, p)
  }

  lemma LossesAddUp(folder: Location, before: Tree, middle: Tree, after: Tree)
    requires LostWithin(folder, before, middle) && LostWithin(folder, middle, after)
    ensures LostWithin(folder, before, after)
  {
    forall p | p in after || (p in before && Outside(folder, p)) ensures Same(before, after, p) {
      assert p in after ==> Same(middle, after, p);
      assert p in before && Outside(folder, p) ==> Same(before, middle, p);
      assert p in middle ==> Same(before, middle, p) && (Outside(folder, p) ==> Same(middle, after, p));
    }
  }

  lemma OneLossWithin(folder: Location, tree: Tree, p: Location)
    requires folder <= p
    ensures LostWithin(folder, tree, tree - {p}) && LostWithin(folder, tree, tree)
  {
  }

  /// So did these files.
  ghost predicate TookOnly(folder: Location, before: Tree, after: Tree, gone: seq<Location>) {
    LostWithin(folder, before, after) && forall p :: p in gone ==> p in before
  }

  /// No directory has the name of an entry to be written.
  ghost predicate NothingInTheWay(folder: Location, tree: Tree) {
    forall p {:trigger IsEntry(folder, p)} :: DirAt(tree, p) ==> !IsEntry(folder, p)
  }

  /// The directories above the path can be made, and none of them has the name of an entry.
  ghost predicate WayIsClear(folder: Location, tree: Tree, p: Location) {
    forall k :: 0 <= k < |p| ==> !FileAt(tree, p[..k]) && !IsEntry(folder, p[..k])
  }

  lemma ClearWayFrom(folder: Location, before: Tree, after: Tree, p: Location)
    requires Closed(before) && NothingInTheWay(folder, before) && p in before && LostWithin(folder, before, after)
    ensures NothingInTheWay(folder, after) && WayIsClear(folder, after, p)
  {
    forall k | 0 <= k < |p| ensures !FileAt(after, p[..k]) && !IsEntry(folder, p[..k]) {
      AncestorsAreThere(before, p, k);
      assert p[..k] in after ==> Same(before, after, p[..k]);
    }
    forall q | DirAt(after, q) ensures !IsEntry(folder, q) {
      assert Same(before, after, q);
    }
  }

  ghost predicate AllWaysClear(folder: Location, tree: Tree, paths: seq<Location>) {
    NothingInTheWay(folder, tree) && forall p :: p in paths ==> WayIsClear(folder, tree, p)
  }

  lemma ParentOutlives(folder: Location, before: Tree, after: Tree)
    requires Closed(before) && folder != [] && DirAt(before, folder) && LostWithin(folder, before, after)
    ensures DirAt(after, Parent(folder)) && (DirAt(after, SidecarOf(folder)) ==> DirAt(before, SidecarOf(folder)))
  {
    assert DirAt(before, Parent(folder)) && Same(before, after, Parent(folder));
    assert DirAt(after, SidecarOf(folder)) ==> Same(before, after, SidecarOf(folder));
  }

  lemma ClearWayCanBeMade(folder: Location, tree: Tree, p: Location)
    requires p != [] && WayIsClear(folder, tree, p)
    ensures CanMakeDirs(tree, Parent(p))
  {
    forall k | 0 <= k <= |Parent(p)| ensures !FileAt(tree, Parent(p)[..k]) {
      assert Parent(p)[..k] == p[..k];
    }
  }

  lemma WritingKeepsWayClear(folder: Location, before: Tree, after: Tree, written: Location, p: Location)
    requires written != [] && folder != [] && folder <= written && IsEntry(folder, SidecarOf(written))
    requires WayIsClear(folder, before, written) && WayIsClear(folder, before, p) && NothingInTheWay(folder, before)
    requires forall q :: q in before && q != SidecarOf(written) ==> q in after && after[q] == before[q]
    requires forall q :: q in after && q !in before ==>
      q == SidecarOf(written) || (after[q].Dir? && q <= Parent(written))
    requires !DirAt(after, SidecarOf(written))
    ensures WayIsClear(folder, after, p) && NothingInTheWay(folder, after)
  {
    forall q | DirAt(after, q) ensures !IsEntry(folder, q) {
      if q !in before {
        assert q == written[..|q|];
      }
    }
  }

  lemma WritingKeepsWaysClear(folder: Location, before: Tree, after: Tree, written: Location)
    requires written != [] && folder != [] && folder <= written && IsEntry(folder, SidecarOf(written))
    requires WayIsClear(folder, before, written) && NothingInTheWay(folder, before)
    requires forall q :: q in before && q != SidecarOf(written) ==> q in after && after[q] == before[q]
    requires forall q :: q in after && q !in before ==>
      q == SidecarOf(written) || (after[q].Dir? && q <= Parent(written))
    requires !DirAt(after, SidecarOf(written))
    ensures NothingInTheWay(folder, after)
    ensures forall p :: WayIsClear(folder, before, p) ==> WayIsClear(folder, after, p)
  {
    WritingKeepsWayClear(folder, before, after, written, written);
    forall p | WayIsClear(folder, before, p) ensures WayIsClear(folder, after, p) {
      WritingKeepsWayClear(folder, before, after, written, p);
    }
  }

  lemma SidecarIsInReach(folder: Location, p: Location)
    requires folder != [] && folder <= p
    ensures folder <= SidecarOf(p) || SidecarOf(p) == SidecarOf(folder)
  {
    if p != folder {
      assert Parent(p)[..|folder|] == folder && folder <= SidecarOf(p);
    }
  }

  datatype Verdict = Gone | Locked | Changed

  ghost predicate DistinctFiles(files: seq<(Location, Row)>) {
    forall i, j :: 0 <= i < j < |files| ==> files[i].0 != files[j].0
  }

  predicate IsDeletable(ignored: Location -> bool, e: Entry) {
    e.kind.FileKind? && !IsSidecarName(e.at) && !ignored(e.at)
  }

  /// What phase 1 collects from a listing whose files are all synced.
  function PlanOf(rows: map<Location, Row>, ignored: Location -> bool, listing: seq<Entry>): Plan {
    if listing == [] then Plan([], [], [])
    else
      var plan, e := PlanOf(rows, ignored, listing[..|listing| - 1]), listing[|listing| - 1];
      if IsDeletable(ignored, e) then
        if e.at in rows then plan.(files := plan.files + [(e.at, rows[e.at])]) else plan
      else if e.kind.DirKind? then plan.(dirs := plan.dirs + [(|e.at|, e.at)])
      else if e.kind.FileKind? && IsSidecarName(e.at) then plan.(children := plan.children + [e.at])
      else plan
  }

  lemma {:induction false} PlanFilesAre(rows: map<Location, Row>, ignored: Location -> bool, listing: seq<Entry>)
    ensures forall p, row :: (p, row) in PlanOf(rows, ignored, listing).files <==>
      p in rows && rows[p] == row && Entry(p, FileKind) in listing && IsDeletable(ignored, Entry(p, FileKind))
  {
    if listing != [] {
      var before, e := listing[..|listing| - 1], listing[|listing| - 1];
      PlanFilesAre(rows, ignored, before);
      assert listing == before + [e];
    }
  }

  lemma {:induction false} PlanFilesAreDistinct(rows: map<Location, Row>, ignored: Location -> bool,
                                                listing: seq<Entry>)
    requires NoDuplicates(listing)
    ensures DistinctFiles(PlanOf(rows, ignored, listing).files)
  {
    if listing != [] {
      var before, e := listing[..|listing| - 1], listing[|listing| - 1];
      PlanFilesAreDistinct(rows, ignored, before);
      PlanFilesAre(rows, ignored, before);
      assert e !in before;
    }
  }

  lemma {:induction false} PlanRestIs(rows: map<Location, Row>, ignored: Location -> bool, listing: seq<Entry>)
    ensures var plan := PlanOf(rows, ignored, listing);
      && (forall p :: p in plan.children <==> Entry(p, FileKind) in listing && IsSidecarName(p))
      && (forall d :: d in plan.dirs <==> Entry(d.1, DirKind) in listing && d.0 == |d.1|)
  {
    if listing != [] {
      var before, e := listing[..|listing| - 1], listing[|listing| - 1];
      PlanRestIs(rows, ignored, before);
      assert listing == before + [e];
    }
  }

  /// The plan holds exactly what phase 1 saw of each kind.
  lemma PlanIs(rows: map<Location, Row>, ignored: Location -> bool, listing: seq<Entry>)
    ensures var plan := PlanOf(rows, ignored, listing);
      && (forall p, row :: (p, row) in plan.files <==>
           p in rows && rows[p] == row && Entry(p, FileKind) in listing && IsDeletable(ignored, Entry(p, FileKind)))
      && (forall p :: p in plan.children <==> Entry(p, FileKind) in listing && IsSidecarName(p))
      && (forall d :: d in plan.dirs <==> Entry(d.1, DirKind) in listing && d.0 == |d.1|)
      && (NoDuplicates(listing) ==> DistinctFiles(plan.files))
  {
    PlanFilesAre(rows, ignored, listing);
    PlanRestIs(rows, ignored, listing);
    if NoDuplicates(listing) {
      PlanFilesAreDistinct(rows, ignored, listing);
    }
  }

  ghost predicate AllSyncedIn(hash: seq<byte> -> string, files: seq<(Location, Row)>, tree: Tree,
                              rows: map<Location, Row>, remotes: map<Location, string>)
  {
    DistinctFiles(files) && forall f :: f in files ==> SyncedIn(hash, f.0, tree, rows, remotes)
  }

  predicate SyncedIn(hash: seq<byte> -> string, p: Location, tree: Tree, rows: map<Location, Row>,
                     remotes: map<Location, string>)
  {
    p in rows && p in remotes && p in tree && tree[p].File? && hash(tree[p].bytes) == remotes[p]
  }

  lemma {:induction false} SubsetIsNoLarger<T>(s: set<T>, t: set<T>)
    requires s <= t
    ensures |s| <= |t|
  {
    if x :| x in s {
      SubsetIsNoLarger(s - {x}, t - {x});
    }
  }

  /// What phase 2 leaves, in terms of the set of its files.
  lemma CountSpared(files: seq<(Location, Row)>, paths: set<Location>, deleted: seq<Location>, spared: set<Location>)
    requires forall p :: p in paths <==> IsPlanned(files, p)
    ensures (forall p :: p in deleted ==> IsPlanned(files, p)) ==> Members(deleted) <= paths
    ensures (forall f :: f in files ==> f.0 in deleted || f.0 in spared) ==> |paths - Members(deleted)| <= |spared|
    ensures AreDeleted(files, |files|, deleted) ==> paths <= Members(deleted)
  {
    if forall f :: f in files ==> f.0 in deleted || f.0 in spared {
      SubsetIsNoLarger(paths - Members(deleted), spared);
    }
  }

  function Members(paths: seq<Location>): set<Location> {
    set p | p in paths
  }

  lemma MembersGrow(paths: seq<Location>, p: Location)
    ensures Members(paths + [p]) == Members(paths) + {p}
  {
  }

  predicate IsPlanned(files: seq<(Location, Row)>, p: Location) {
    exists f :: f in files && f.0 == p
  }

  ghost predicate AreDeleted(files: seq<(Location, Row)>, n: nat, deleted: seq<Location>) {
    n <= |files| && forall k :: 0 <= k < n ==> files[k].0 in deleted
  }

  function GoneAfter(gone: seq<Location>, p: Location, verdict: Verdict): seq<Location> {
    if verdict == Gone then gone + [p] else gone
  }

  /// Of the first `n` files, those not spared are gone with their rows; nothing else went.
  ghost predicate OnTrack(files: seq<(Location, Row)>, n: nat, gone: set<Location>, spared: set<Location>,
                          tree0: Tree, rows0: map<Location, Row>, tree: Tree, rows: map<Location, Row>)
  {
    && n <= |files| && tree == tree0 - gone && rows == rows0 - gone
    && (forall k :: 0 <= k < n ==> files[k].0 in gone || files[k].0 in spared)
    && forall k :: n <= k < |files| ==> files[k].0 !in gone
  }

  lemma NothingDeleted(files: seq<(Location, Row)>, tree0: Tree, rows0: map<Location, Row>)
    ensures OnTrack(files, 0, {}, {}, tree0, rows0, tree0, rows0) && Members([]) == {}
  {
    assert Members([]) == {};
    assert tree0 - {} == tree0 && rows0 - {} == rows0;
  }

  lemma NextIsSynced(hash: seq<byte> -> string, files: seq<(Location, Row)>, i: nat, gone: set<Location>,
                     spared: set<Location>, tree0: Tree, rows0: map<Location, Row>, tree: Tree,
                     rows: map<Location, Row>, remotes: map<Location, string>)
    requires i < |files| && AllSyncedIn(hash, files, tree0, rows0, remotes)
    requires OnTrack(files, i, gone, spared, tree0, rows0, tree, rows)
    ensures SyncedIn(hash, files[i].0, tree, rows, remotes)
  {
    assert files[i] in files;
  }

  lemma OneMoreOnTrack(files: seq<(Location, Row)>, i: nat, gone: set<Location>, spared: set<Location>, tree0: Tree,
                       rows0: map<Location, Row>, tree: Tree, rows: map<Location, Row>, treeNow: Tree,
                       rowsNow: map<Location, Row>, verdict: Verdict)
    requires i < |files| && DistinctFiles(files) && OnTrack(files, i, gone, spared, tree0, rows0, tree, rows)
    requires verdict != Changed
    requires treeNow == if verdict == Gone then tree - {files[i].0} else tree
    requires rowsNow == if verdict == Gone then rows - {files[i].0} else rows
    ensures OnTrack(files, i + 1, if verdict == Gone then gone + {files[i].0} else gone,
                    if verdict == Locked then spared + {files[i].0} else spared, tree0, rows0, treeNow, rowsNow)
  {
    assert (tree0 - gone) - {files[i].0} == tree0 - (gone + {files[i].0});
    assert (rows0 - gone) - {files[i].0} == rows0 - (gone + {files[i].0});
  }

  ghost predicate CoveredByPlan(tree: Tree, folder: Location, plan: Plan) {
    forall p :: p in tree && folder <= p ==> Left(tree, plan, p) || IsPlanned(plan.files, p)
  }

  ghost predicate OnlyListedDirs(tree: Tree, folder: Location, dirs: seq<(nat, Location)>) {
    forall p :: p in tree && folder <= p ==> (|p|, p) in dirs && tree[p].Dir?
  }

  ghost predicate OnlyLeft(tree: Tree, folder: Location, plan: Plan) {
    forall p :: p in tree && folder <= p ==> Left(tree, plan, p)
  }

  /// What the files leave: the directories and `.cloudsc` entries of the plan.
  predicate Left(tree: Tree, plan: Plan, p: Location)
    requires p in tree
  {
    if tree[p].Dir? then (|p|, p) in plan.dirs && p !in plan.children else p in plan.children
  }

  lemma SidecarOfIsOne(p: Location)
    requires p != []
    ensures IsSidecarName(SidecarOf(p)) && Parent(SidecarOf(p)) == Parent(p) && !(p <= SidecarOf(p))
  {
    var name := p[|p| - 1] + SidecarName.SUFFIX;
    assert SidecarOf(p)[|p| - 1] == name && |name| > |p[|p| - 1]|;
    assert name[|name| - |SidecarName.SUFFIX|..] == SidecarName.SUFFIX;
  }

  ghost predicate NoDuplicates(listing: seq<Entry>) {
    forall i, j :: 0 <= i < j < |listing| ==> listing[i] != listing[j]
  }

  /// `after` is `before` without the given entries.
  ghost predicate Without(before: Tree, gone: seq<Location>, after: Tree) {
    && (forall p :: p in after <==> p in before && p !in gone)
    && forall p :: p in after ==> after[p] == before[p]
  }

  /// The listing names every entry of the folder once.
  ghost predicate Collapsible(tree: Tree, folder: Location, listing: seq<Entry>) {
    && NoDuplicates(listing)
    && forall p :: p in tree && folder <= p ==> exists e :: e in listing && e.at == p
  }
}
