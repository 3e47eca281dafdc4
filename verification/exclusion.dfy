// Applying selective sync to the local copy: what leaves the synced zone is unlinked if Dropbox
// has the very bytes, and becomes a stranger to the index otherwise.
module Exclusion {
  import opened Common
  import opened DepthOrder
  import opened Text
  import opened PathScope
  import opened SidecarName

  const JUNK := ".DS_Store"

  /// Size and modification time.
  datatype Stamp = Stamp(size: nat, mtime: Option<int>)

  datatype Node =
    | File(bytes: seq<byte>, stamp: Stamp)
    | Placeholder              // online-only: never opened
    | Sidecar(isFile: bool)    // a readable `.cloudsc` entry and its tag
    | Dir
    | Other

  type Tree = map<string, Node>

  /// What the walk reports. `OtherKind` also stands for an entry without an index key.
  datatype Kind = DirKind | FileKind | OtherKind | WalkError

  datatype Entry = Entry(rel: string, kind: Kind)

  datatype Row = Row(hash: string, size: nat, mtime: int)

  datatype Report = Report(removed: seq<string>, kept: seq<string>, busy: seq<string>, errors: seq<string>)

  datatype Unlinked = Unlinked(at: string, bytes: seq<byte>)

  /// An entry or junk, as it was.
  datatype Cleared = Cleared(at: string, node: Node)

  /// Strictly inside the directory.
  predicate Beneath(rel: string, dir: string) {
    dir + "/" <= rel
  }

  predicate AtOrBeneath(rel: string, dir: string) {
    rel == dir || Beneath(rel, dir)
  }

  /// No folder row at or beneath it.
  ghost predicate IsUntracked(folders: set<string>, dir: string) {
    forall k :: k in folders ==> !AtOrBeneath(k, dir)
  }

  predicate EmptyDir(tree: Tree, dir: string) {
    forall p :: p in tree ==> !Beneath(p, dir)
  }

  /// There is junk in the directory and nothing else.
  predicate OnlyJunk(tree: Tree, dir: string) {
    dir + "/" + JUNK in tree && forall p :: p in tree && Beneath(p, dir) ==> p == dir + "/" + JUNK
  }

  // ---- The walk's shortcut ----

  lemma BeneathIsWithin(f: SegmentFold, rel: string, dir: string)
    requires Beneath(rel, dir)
    ensures Within(f, rel, dir)
  {
    assert rel == dir + "/" + rel[|dir| + 1..];
    ChildIsWithin(f, dir, rel[|dir| + 1..]);
  }

  lemma TargetBeneath(rel: string, dir: string)
    requires Beneath(rel, dir) && IsSidecarName(rel)
    ensures Beneath(TargetOf(rel), dir)
  {
    var cut := |rel| - |SUFFIX|;
    forall k | cut <= k < |rel| ensures rel[k] != '/' {
      assert rel[k] == rel[cut..][k - cut] == SUFFIX[k - cut];
    }
    assert rel[|dir|] == (dir + "/")[|dir|] == '/';
    assert TargetOf(rel)[..|dir| + 1] == rel[..|dir| + 1] == dir + "/";
  }

  /// What the walk passes over beneath a Synced folder that holds no exclude entry: nothing there
  /// is out of scope, as a file or as the target of a sidecar.
  lemma SkipMissesNothing(f: SegmentFold, filter: PrefixFilter, rel: string, dir: string)
    requires NoEmptyEntry(filter) && Beneath(rel, dir)
    requires ScopeOf(f, filter, dir) == Synced && !ExcludedBeneath(f, filter, dir)
    ensures ScopeOf(f, filter, rel) == Synced && FileScope(f, filter, rel) == Synced
    ensures IsSidecarName(rel) ==> ScopeOf(f, filter, TargetOf(rel)) == Synced
  {
    BeneathIsWithin(f, rel, dir);
    if ScopeOf(f, filter, rel) != Synced {
      OnlyExcludesBeneathSynced(f, filter, rel, dir);
    }
    if IsSidecarName(rel) {
      TargetBeneath(rel, dir);
      BeneathIsWithin(f, TargetOf(rel), dir);
      if ScopeOf(f, filter, TargetOf(rel)) != Synced {
        OnlyExcludesBeneathSynced(f, filter, TargetOf(rel), dir);
      }
    }
  }

  lemma ExcludedBelow(f: SegmentFold, filter: PrefixFilter, rel: string, dir: string)
    requires NoEmptyEntry(filter) && Beneath(rel, dir) && ScopeOf(f, filter, dir) == Excluded
    ensures ScopeOf(f, filter, rel) == Excluded
  {
    BeneathIsWithin(f, rel, dir);
    ExcludedIsClosed(f, filter, rel, dir);
  }

  /// Every directory is listed before what it holds.
  ghost predicate DirsFirst(listing: seq<Entry>) {
    forall i, j :: 0 <= i < |listing| && 0 <= j < |listing| && Beneath(listing[i].rel, listing[j].rel) ==> j < i
  }

  lemma BeneathIsTransitive(a: string, b: string, c: string)
    requires Beneath(a, b) && AtOrBeneath(b, c)
    ensures Beneath(a, c)
  {
    if b != c {
      assert a[..|c| + 1] == b[..|c| + 1] == c + "/";
    }
  }

  // ---- Deepest first ----

  /// How many components the path has.
  function Depth(rel: string): (n: nat)
    ensures n > 0
  {
    if rel == "" then 1 else (if rel[0] == '/' then 1 else 0) + Depth(rel[1..])
  }

  lemma {:induction false} DepthAppend(a: string, b: string)
    ensures Depth(a + b) == Depth(a) + Depth(b) - 1
  {
    if a == "" {
      assert a + b == b;
    } else {
      assert (a + b)[1..] == a[1..] + b;
      DepthAppend(a[1..], b);
    }
  }

  lemma BeneathIsDeeper(rel: string, dir: string)
    requires Beneath(rel, dir)
    ensures Depth(rel) > Depth(dir)
  {
    var rest := rel[|dir| + 1..];
    assert rel == dir + ("/" + rest) && ("/" + rest)[1..] == rest;
    DepthAppend(dir, "/" + rest);
  }

  predicate HoldsEmptyDir(tree: Tree, dir: string) {
    dir in tree && tree[dir].Dir? && EmptyDir(tree, dir)
  }

  /// A directory with nothing or only junk in it.
  predicate HoldsNothing(tree: Tree, dir: string) {
    dir in tree && tree[dir].Dir? && forall p :: p in tree && Beneath(p, dir) ==> p == dir + "/" + ".DS_Store"
  }

  /// Only the directory and the junk in it went.
  ghost predicate LosesDir(before: Tree, after: Tree, dir: string) {
    && (forall q :: q in after ==> q in before && after[q] == before[q])
    && forall q :: q in before && q !in after ==> q == dir || q == dir + "/" + JUNK
  }

  /// Taking away a directory never makes one that was done before it an empty one.
  lemma OthersStayNonEmpty(before: Tree, after: Tree, dir: string, earlier: string)
    requires LosesDir(before, after, dir) && !HoldsNothing(before, earlier) && earlier != dir && !Beneath(dir, earlier)
    ensures !HoldsNothing(after, earlier)
  {
    if Beneath(dir + "/" + JUNK, earlier) {
      JunkBeneath(dir, earlier);
    }
    assert forall q :: q in before && Beneath(q, earlier) ==> q in after;
  }

  lemma JunkBeneath(dir: string, other: string)
    requires Beneath(dir + "/" + JUNK, other)
    ensures dir == other || Beneath(dir, other)
  {
    var junk := dir + "/" + JUNK;
    forall k | |dir| < k < |junk| ensures junk[k] != '/' {
      assert junk[k] == JUNK[k - |dir| - 1];
    }
    assert junk[|other|] == (other + "/")[|other|] == '/';
    assert junk[..|other|] == other && junk[..|dir|] == dir;
    if |other| < |dir| {
      assert dir[..|other| + 1] == junk[..|other| + 1] == other + "/";
    }
  }

  /// Every directory comes after the ones it holds.
  ghost predicate ChildrenFirst(dirs: seq<(nat, string)>) {
    forall i, j :: 0 <= i < j < |dirs| ==> !Beneath(dirs[j].1, dirs[i].1)
  }

  /// Sorting by depth puts them in the order in which empty-only removal can empty a tree.
  lemma DeepestFirstIsChildrenFirst(dirs: seq<(nat, string)>)
    requires forall d :: d in dirs ==> d.0 == Depth(d.1)
    ensures ChildrenFirst(SortDeepestFirst(dirs))
  {
    var sorted := SortDeepestFirst(dirs);
    SortedDeepestFirst(dirs);
    forall i, j | 0 <= i < j < |sorted| && Beneath(sorted[j].1, sorted[i].1) ensures false {
      assert sorted[i] in sorted && sorted[j] in sorted;
      BeneathIsDeeper(sorted[j].1, sorted[i].1);
    }
  }

  // ---- What went ----

  /// A change of the disk by the user.
  datatype Visit = Visit(found: Tree, left: Tree)

  predicate IsJunk(p: string) {
    |p| > |JUNK| && p[|p| - |JUNK| - 1..] == "/" + JUNK
  }


  predicate Stays(before: Tree, after: Tree, p: string) {
    p in before && p in after && after[p] == before[p]
  }

  /// Its parent.
  function DirOfJunk(p: string): string
    requires IsJunk(p)
  {
    p[..|p| - |JUNK| - 1]
  }

  lemma JunkIsJunk(dir: string)
    ensures IsJunk(dir + "/" + JUNK) && DirOfJunk(dir + "/" + JUNK) == dir && !IsSidecarName(dir + "/" + JUNK)
  {
    var p := dir + "/" + JUNK;
    assert p[|dir|..] == "/" + JUNK;
    assert p[|p| - 1] == JUNK[|JUNK| - 1];
    if IsSidecarName(p) {
      SidecarNameEndsInC(p);
    }
  }

  lemma SidecarNameEndsInC(name: string)
    requires IsSidecarName(name)
    ensures name[|name| - 1] == 'c'
  {
    assert name[|name| - 1] == name[|name| - |SUFFIX|..][|SUFFIX| - 1];
  }

  /// What the pass may take, if it is on record: an emptied directory, an entry, junk that was the last
  /// thing in its directory, and a file with the bytes it had.
  predicate MayGo(cleared: seq<Cleared>, unlinked: seq<Unlinked>, dirsGone: seq<string>, p: string, node: Node,
                  after: Tree)
  {
    if node.Dir? then p in dirsGone && EmptyDir(after, p)
    else
      || (IsSidecarName(p) && Cleared(p, node) in cleared)
      || (IsJunk(p) && Cleared(p, node) in cleared && EmptyDir(after, DirOfJunk(p)))
      || (node.File? && Unlinked(p, node.bytes) in unlinked)
  }

  /// The disk only lost what the pass may take.
  ghost predicate OnlyWent(cleared: seq<Cleared>, unlinked: seq<Unlinked>, dirsGone: seq<string>, before: Tree,
                           after: Tree)
  {
    forall p {:trigger Stays(before, after, p)} ::
      && (p in after ==> Stays(before, after, p))
      && (p in before && !Stays(before, after, p) ==> MayGo(cleared, unlinked, dirsGone, p, before[p], after))
  }

  /// The user put it where it was not.
  predicate PutBack(visits: seq<Visit>, p: string) {
    exists v :: v in visits && p !in v.found && p in v.left
  }

  /// The user took it away.
  predicate TakenAway(visits: seq<Visit>, p: string) {
    exists v :: v in visits && p in v.found && p !in v.left
  }

  lemma VisitExplains(visits: seq<Visit>, v: Visit, p: string)
    ensures PutBack(visits + [v], p) <==> PutBack(visits, p) || (p !in v.found && p in v.left)
    ensures TakenAway(visits + [v], p) <==> TakenAway(visits, p) || (p in v.found && p !in v.left)
  {
    var more := visits + [v];
    assert more[|visits|] == v;
    if PutBack(visits, p) {
      var w :| w in visits && p !in w.found && p in w.left;
      assert w in more;
    }
    if TakenAway(visits, p) {
      var w :| w in visits && p in w.found && p !in w.left;
      assert w in more;
    }
  }

  /// The disk as the user left it before visit `i`.
  function LeftBefore(began: Tree, visits: seq<Visit>, i: nat): Tree
    requires i <= |visits|
  {
    if i == 0 then began else visits[i - 1].left
  }

  ghost predicate VisitsAccountedFor(cleared: seq<Cleared>, unlinked: seq<Unlinked>, dirsGone: seq<string>, began: Tree,
                                     visits: seq<Visit>)
  {
    forall i {:trigger LeftBefore(began, visits, i)} :: 0 <= i < |visits| ==>
      OnlyWent(cleared, unlinked, dirsGone, LeftBefore(began, visits, i), visits[i].found)
  }

  lemma OneMoreVisit(cleared: seq<Cleared>, unlinked: seq<Unlinked>, dirsGone: seq<string>, began: Tree,
                     visits: seq<Visit>, tree: Tree, next: Tree)
    requires VisitsAccountedFor(cleared, unlinked, dirsGone, began, visits)
    requires OnlyWent(cleared, unlinked, dirsGone, LeftBefore(began, visits, |visits|), tree)
    ensures VisitsAccountedFor(cleared, unlinked, dirsGone, began, visits + [Visit(tree, next)])
    ensures OnlyWent(cleared, unlinked, dirsGone, LeftBefore(began, visits + [Visit(tree, next)], |visits| + 1), next)
  {
    var more := visits + [Visit(tree, next)];
    forall i | 0 <= i < |more|
      ensures OnlyWent(cleared, unlinked, dirsGone, LeftBefore(began, more, i), more[i].found)
    {
      assert LeftBefore(began, more, i) == LeftBefore(began, visits, i);
    }
  }

  lemma LongerLog(cleared: seq<Cleared>, cs: seq<Cleared>, unlinked: seq<Unlinked>, us: seq<Unlinked>,
                  dirsGone: seq<string>, ds: seq<string>, before: Tree, after: Tree)
    requires OnlyWent(cleared, unlinked, dirsGone, before, after)
    ensures OnlyWent(cleared + cs, unlinked + us, dirsGone + ds, before, after)
  {
  }

  lemma LongerLogs(cleared: seq<Cleared>, cs: seq<Cleared>, unlinked: seq<Unlinked>, us: seq<Unlinked>,
                   dirsGone: seq<string>, ds: seq<string>, began: Tree, visits: seq<Visit>, tree: Tree)
    requires VisitsAccountedFor(cleared, unlinked, dirsGone, began, visits)
    requires OnlyWent(cleared, unlinked, dirsGone, LeftBefore(began, visits, |visits|), tree)
    ensures VisitsAccountedFor(cleared + cs, unlinked + us, dirsGone + ds, began, visits)
    ensures OnlyWent(cleared + cs, unlinked + us, dirsGone + ds, LeftBefore(began, visits, |visits|), tree)
    ensures cs == [] ==> cleared + cs == cleared
    ensures us == [] ==> unlinked + us == unlinked
    ensures ds == [] ==> dirsGone + ds == dirsGone
  {
    LongerLog(cleared, cs, unlinked, us, dirsGone, ds, LeftBefore(began, visits, |visits|), tree);
    forall i | 0 <= i < |visits|
      ensures OnlyWent(cleared + cs, unlinked + us, dirsGone + ds, LeftBefore(began, visits, i), visits[i].found)
    {
      LongerLog(cleared, cs, unlinked, us, dirsGone, ds, LeftBefore(began, visits, i), visits[i].found);
    }
  }

  lemma FileWent(cleared: seq<Cleared>, unlinked: seq<Unlinked>, dirsGone: seq<string>, before: Tree, after: Tree,
                 p: string)
    requires OnlyWent(cleared, unlinked, dirsGone, before, after) && p in after
    requires MayGo(cleared, unlinked, dirsGone, p, after[p], after - {p})
    ensures OnlyWent(cleared, unlinked, dirsGone, before, after - {p})
  {
    forall q
      ensures q in after - {p} ==> Stays(before, after - {p}, q)
      ensures q in before && !Stays(before, after - {p}, q) ==>
                MayGo(cleared, unlinked, dirsGone, q, before[q], after - {p})
    {
      assert Stays(before, after, q) || q !in after;
    }
  }

  predicate Persists<V(==)>(before: map<string, V>, after: map<string, V>, p: string) {
    p in before && p in after && after[p] == before[p]
  }

  lemma OthersPersist<V>(before: map<string, V>, middle: map<string, V>, after: map<string, V>, p: string)
    requires after == middle || after == middle - {p} || (p in before && after == middle[p := before[p]])
    ensures forall q :: q != p ==> (Persists(before, after, q) <==> Persists(before, middle, q))
    ensures p in after && p in middle ==> Persists(before, middle, p) ==> Persists(before, after, p)
  {
  }

  // ---- The pass ----

  datatype Snapshot = Snapshot(tree: Tree, rows: map<string, Row>, remotes: map<string, string>, folders: set<string>)

  class Pass {
    // Disk, index and configuration.
    var tree: Tree
    var rows: map<string, Row>
    var remotes: map<string, string>
    var folders: set<string>         // the known_folders rows
    var cleanedFor: Option<string>   // the filter whose excluded remote rows are known to be gone
    const f: SegmentFold
    const filter: PrefixFilter
    const zone: string -> Scope      // the filter's answer, see `ZonesAreScopes`
    const fold: string -> string
    const signature: string
    const active: set<string>        // paths of queued and running jobs
    const ignored: string -> bool
    const hash: seq<byte> -> string
    const env: Environment
    /// The stamps files have had. The assumption behind `file_stamp`: a file that is written gets
    /// a size and time it never had at that path.
    var seen: set<(string, Stamp)>

    // What the pass collects.
    var report: Report
    var keptTracked: set<string>     // folded
    var excludedDirs: seq<(nat, string)>

    // The disk and the index when the pass began, and what happened since.
    ghost var began: Snapshot
    ghost var listed: seq<Entry>       // what a full walk would list
    ghost var cleared: seq<Cleared>     // entries and junk
    ghost var unlinked: seq<Unlinked>
    ghost var dirsGone: seq<string>
    ghost var visits: seq<Visit>       // what the user did
    ghost var keptOnline: set<string>  // placeholders: kept with their row

    constructor (f: SegmentFold, filter: PrefixFilter, signature: string, active: set<string>, ignored: string -> bool,
                 hash: seq<byte> -> string)
      requires NoEmptyEntry(filter)
      ensures Valid() && ZonesAreScopes() && tree == map[] && this.f == f && this.filter == filter
    {
      this.f, this.filter, this.signature, this.active := f, filter, signature, active;
      zone, fold := rel => ScopeOf(f, filter, rel), rel => Fold(f, rel);
      env := new Environment();
      this.ignored, this.hash, seen := ignored, hash, {};
      tree, rows, remotes, folders, cleanedFor := map[], map[], map[], {}, None;
      report, keptTracked, excludedDirs := Report([], [], [], []), {}, [];
      began, listed := Snapshot(map[], map[], map[], {}), [];
      cleared, unlinked, dirsGone, visits, keptOnline := [], [], [], [], {};
    }

    /// `zone` and `fold` are the filter's scope and the comparison form.
    ghost predicate ZonesAreScopes() {
      && NoEmptyEntry(filter)
      && forall rel {:trigger ScopeOf(f, filter, rel)} ::
           zone(rel) == ScopeOf(f, filter, rel) && fold(rel) == Fold(f, rel)
    }

    ghost predicate Valid() reads this`tree, this`seen {
      forall p :: p in tree && tree[p].File? ==> (p, tree[p].stamp) in seen
    }

    /// `file_scope`: a file in an Ancestor position is out of scope.
    predicate FileExcluded(rel: string) {
      zone(rel) != Synced
    }

    /// An active job names the path or a folder above it.
    predicate Busy(rel: string) {
      exists a :: a in active && UnderPrefix(rel, a)
    }

    predicate IsIgnoredDir(e: Entry) {
      e.kind.DirKind? && ignored(e.rel)
    }

    /// An ignored directory holds it.
    ghost predicate IsSheltered(rel: string) reads this`listed {
      DirsFirst(listed) && exists d :: d in listed && IsIgnoredDir(d) && Beneath(rel, d.rel)
    }

    /// No rule ignores it or a directory that holds it.
    ghost predicate IsUnignored(rel: string) reads this`listed {
      !ignored(rel) && !IsSheltered(rel)
    }

    /// A file out of scope, no entry, that no job needs and no rule ignores.
    ghost predicate InReach(rel: string) reads this`listed {
      FileExcluded(rel) && !Busy(rel) && !IsSidecarName(rel) && IsUnignored(rel)
    }

    /// A `.cloudsc` entry is judged by what it stands for: something Excluded, or a file in a folder that
    /// only leads to included ones.
    predicate IsEntryOut(rel: string, node: Node)
      requires IsSidecarName(rel)
    {
      zone(TargetOf(rel)) == Excluded || (zone(TargetOf(rel)) == Ancestor && node == Sidecar(true))
    }

    /// An entry of something out of scope that no job needs, or junk in a directory to remove.
    ghost predicate IsClearable(rel: string, node: Node) reads this`listed {
      if IsSidecarName(rel) then IsEntryOut(rel, node) && !IsNeeded(rel) && IsUnignored(rel)
      else IsJunk(rel) && zone(rel) == Excluded && IsRemovableDir(DirOfJunk(rel))
    }

    ghost predicate IsRemovableDir(dir: string) reads this`listed {
      zone(dir) == Excluded && !Busy(dir) && IsUnignored(dir)
    }

    /// What holds at every step of the pass, a crash included: only the excluded zone is touched,
    /// only verified bytes are gone, nothing that is gone is tracked, and what is reported as removed
    /// is gone.
    ghost predicate Harmless()
      reads this`rows, this`remotes, this`folders, this`began, this`listed
      reads this`tree, this`visits, this`cleared, this`unlinked, this`dirsGone, this`report
    {
      && DiskIsAccountedFor() && UnlinksAreVerified() && RemovedAreGone()
      && (forall c :: c in cleared ==> IsClearable(c.at, c.node))
      && (forall d :: d in dirsGone ==> IsRemovableDir(d) && IsUntracked(folders, d))
      && RowsOnlyDropped() && RemotesOnlyDropped() && FoldersOnlyDropped()
    }

    /// Between any two visits of the user, and since the last one, nothing changed on disk but what
    /// the pass may take and has on record.
    ghost predicate DiskIsAccountedFor()
      reads this`tree, this`began, this`visits, this`cleared, this`unlinked, this`dirsGone
    {
      && VisitsAccountedFor(cleared, unlinked, dirsGone, began.tree, visits)
      && OnlyWent(cleared, unlinked, dirsGone, LastLeft(), tree)
    }

    /// The disk as the user last left it.
    ghost function LastLeft(): Tree reads this`began, this`visits {
      LeftBefore(began.tree, visits, |visits|)
    }

    /// Whatever vanished was out of scope, not ignored and needed by no job and, if it was the user's,
    /// exactly what Dropbox has.
    lemma OnlyOutOfScopeVanished(before: Tree, after: Tree, p: string)
      requires Harmless() && OnlyWent(cleared, unlinked, dirsGone, before, after)
      requires p in before && !Stays(before, after, p)
      ensures p !in after
      ensures if IsSidecarName(p) && !before[p].Dir? then IsEntryOut(p, before[p]) && !Busy(TargetOf(p))
              else zone(p) != Synced
      ensures !IsJunk(p) ==> !Busy(p) && IsUnignored(p)
      ensures !before[p].Dir? && !IsSidecarName(p) && !IsJunk(p) ==>
                && before[p].File? && p !in rows
                && p in began.remotes && hash(before[p].bytes) == began.remotes[p]
      ensures before[p].Dir? ==>
                zone(p) == Excluded && EmptyDir(after, p) && IsUntracked(folders, p)
    {
      assert Stays(before, after, p) || (p !in after && MayGo(cleared, unlinked, dirsGone, p, before[p], after));
    }

    ghost predicate UnlinksAreVerified() reads this`unlinked, this`rows, this`began, this`listed {
      forall u :: u in unlinked ==>
        && InReach(u.at) && u.at !in rows
        && u.at in began.remotes && hash(u.bytes) == began.remotes[u.at]
    }

    ghost predicate RowsOnlyDropped() reads this`rows, this`began {
      forall p {:trigger Persists(began.rows, rows, p)} ::
        p in rows || (p in began.rows && (!FileExcluded(p) || Busy(p))) ==> Persists(began.rows, rows, p)
    }

    ghost predicate RemotesOnlyDropped() reads this`remotes, this`began {
      forall p {:trigger Persists(began.remotes, remotes, p)} ::
        p in remotes || (p in began.remotes && (!FileExcluded(p) || Busy(p))) ==> Persists(began.remotes, remotes, p)
    }

    ghost predicate FoldersOnlyDropped() reads this`folders, this`began {
      folders <= began.folders && forall k :: k in began.folders && zone(k) == Synced ==> k in folders
    }

    ghost predicate WasUnlinked(rel: string) reads this`unlinked {
      exists u :: u in unlinked && u.at == rel
    }

    /// It is not on disk, unless the user put it back.
    ghost predicate IsGone(rel: string) reads this`tree, this`visits {
      rel !in tree || PutBack(visits, rel)
    }

    /// What is reported as removed is gone: an entry, a file that was unlinked, or a directory.
    ghost predicate RemovedAreGone() reads this`report, this`tree, this`visits, this`unlinked, this`dirsGone {
      forall s :: s in report.removed ==>
        || (IsGone(s) && (IsSidecarName(s) || WasUnlinked(s)))
        || exists d :: d in dirsGone && s == d + "/" && IsGone(d)
    }

    /// A job needs the file or what the entry stands for.
    predicate IsNeeded(rel: string) {
      Busy(rel) || (IsSidecarName(rel) && Busy(TargetOf(rel)))
    }

    /// The file shows up in the report: as busy if a job needs it, else as removed, kept or in error.
    predicate Reported(rel: string) reads this`report {
      if IsNeeded(rel) then rel in report.busy
      else rel in report.removed || rel in report.kept || rel in report.errors
    }

    // Primitives.

    /// The user writes, moves and deletes at will.
    method UserActs()
      requires Valid() && Harmless()
      modifies this`tree, this`seen, this`visits, env
      ensures Harmless() && RemembersDisk() && RemembersGone()
      ensures env.faults >= old(env.faults) && env.crashes == old(env.crashes)
      ensures env.faults == old(env.faults) ==> tree == old(tree)
      ensures Valid() && old(seen) <= seen
      ensures forall p :: p in tree && tree[p].File? && (p, tree[p].stamp) in old(seen) ==>
                p in old(tree) && tree[p] == old(tree)[p]
    {
      var next: Tree := *;
      if forall p :: p in next && next[p].File? && (p, next[p].stamp) in seen ==> p in tree && tree[p] == next[p] {
        env.Count(tree != next);
        if tree != next {
          ghost var visit := Visit(tree, next);
          OneMoreVisit(cleared, unlinked, dirsGone, began.tree, visits, tree, next);
          forall p
            ensures PutBack(visits + [visit], p) <==> PutBack(visits, p) || (p !in tree && p in next)
            ensures TakenAway(visits + [visit], p) <==> TakenAway(visits, p) || (p in tree && p !in next)
          {
            VisitExplains(visits, visit, p);
          }
          visits := visits + [visit];
        }
        tree := next;
        seen := seen + set p | p in next && next[p].File? :: (p, next[p].stamp);
      }
    }

    method RemoveFile(rel: string) returns (r: Reply<Unit>)
      requires Valid()
      modifies this`tree, env
      ensures env.faults == old(env.faults) + if r.Ok? then 0 else 1
      ensures env.crashes == old(env.crashes) + if r.Crash? then 1 else 0
      ensures Valid()
      ensures r.Ok? ==> rel in old(tree) && rel !in tree
      ensures r.Err? ==> tree == old(tree)
      ensures tree == old(tree) || (rel in old(tree) && !old(tree)[rel].Dir? && tree == old(tree) - {rel})
    {
      var applied;
      r, applied := env.Answer(rel in tree && !tree[rel].Dir?);
      if applied {
        tree := tree - {rel};
      }
    }

    method RemoveLocalRow(rel: string) returns (r: Reply<Unit>)
      modifies this`rows, env
      ensures env.faults == old(env.faults) + if r.Ok? then 0 else 1
      ensures env.crashes == old(env.crashes) + if r.Crash? then 1 else 0
      ensures r.Ok? ==> rows == old(rows) - {rel}
      ensures r.Err? ==> rows == old(rows)
      ensures rows == old(rows) || rows == old(rows) - {rel}
    {
      var applied;
      r, applied := env.Answer(true);
      if applied {
        rows := rows - {rel};
      }
    }

    method UpsertLocalRow(rel: string, row: Row) returns (r: Reply<Unit>)
      modifies this`rows, env
      ensures env.faults == old(env.faults) + if r.Ok? then 0 else 1
      ensures env.crashes == old(env.crashes) + if r.Crash? then 1 else 0
      ensures r.Ok? ==> rows == old(rows)[rel := row]
      ensures r.Err? ==> rows == old(rows)
      ensures rows == old(rows) || rows == old(rows)[rel := row]
    {
      var applied;
      r, applied := env.Answer(true);
      if applied {
        rows := rows[rel := row];
      }
    }

    method IsFullySynced(rel: string) returns (r: Reply<bool>)
      modifies env
      ensures env.faults >= old(env.faults)
      ensures env.crashes == old(env.crashes) + if r.Crash? then 1 else 0
      ensures env.faults == old(env.faults) ==> r.Ok?
      ensures r.Ok? ==> (r.value <==> IsSynced(rel))
    {
      var read, _ := env.Answer(true);
      if !read.Ok? {
        return if read.Err? then Err else Crash;
      }
      if rel !in rows || rel !in remotes {
        return Ok(false);
      }
      var hashed, _ := env.Answer(rel in tree && tree[rel].File?);
      if !hashed.Ok? {
        return if hashed.Err? then Err else Crash;
      }
      return Ok(hash(tree[rel].bytes) == remotes[rel]);
    }

    predicate IsSynced(rel: string) reads this`tree, this`rows, this`remotes {
      rel in rows && rel in remotes && rel in tree && tree[rel].File? && hash(tree[rel].bytes) == remotes[rel]
    }

    function FileStamp(rel: string): Option<Stamp> reads this`tree {
      if rel in tree && tree[rel].File? then Some(tree[rel].stamp) else None
    }

    /// Nothing failed and nobody interfered, so this file will go: an entry or a synced file out of scope.
    predicate IsRemovable(rel: string) reads this`tree, this`rows, this`remotes {
      if IsSidecarName(rel) then
        rel in tree && !tree[rel].Dir? && IsEntryOut(rel, tree[rel]) && !IsNeeded(rel)
      else FileExcluded(rel) && !Busy(rel) && IsSynced(rel)
    }

    ghost function ToGo(): set<string> reads this`tree, this`rows, this`remotes {
      set q | q in tree && IsRemovable(q)
    }

    /// The file and its row went together, or nothing did.
    twostate predicate LosesAtMost(rel: string) reads this`tree, this`rows {
      || (tree == old(tree) && rows == old(rows))
      || (tree == old(tree) - {rel} && (rows == old(rows) || rows == old(rows) - {rel}))
    }

    twostate lemma LossShrinks(rel: string)
      requires LosesAtMost(rel) && remotes == old(remotes)
      ensures Shrinks() && forall q :: IsSynced(q) ==> old(IsSynced(q))
    {
    }

    /// Files only went, and what was to go still is or has gone.
    twostate predicate Shrinks() reads this`tree, this`rows, this`remotes {
      forall q :: q in tree ==> q in old(tree) && (old(IsRemovable(q)) ==> IsRemovable(q))
    }

    // One file.

    /// What is kept is in the excluded zone, and is to lose its row unless it is online-only. Nothing else
    /// is to lose its row.
    ghost predicate KeptAreStrangers() reads this`report, this`keptTracked, this`keptOnline {
      && (forall rel :: rel in report.kept ==> FileExcluded(rel) && (fold(rel) in keptTracked || rel in keptOnline))
      && forall k :: k in keptTracked ==> IsNameOfKept(k)
    }

    ghost predicate IsNameOfKept(name: string) reads this`report {
      exists rel :: rel in report.kept && fold(rel) == name
    }

    ghost predicate Walking() reads this {
      && Valid() && KeptAreStrangers() && Harmless()
      && remotes == began.remotes && folders == began.folders && dirsGone == []
    }

    twostate predicate ReportGrows() reads this`report {
      && old(report.removed) <= report.removed && old(report.kept) <= report.kept
      && old(report.busy) <= report.busy && old(report.errors) <= report.errors
    }

    /// What was gone or put back is.
    twostate predicate RemembersGone() reads this`tree, this`visits {
      forall p {:trigger IsGone(p)} :: old(IsGone(p)) ==> IsGone(p)
    }

    twostate predicate LogsGrow() reads this`report, this`keptTracked, this`unlinked, this`tree, this`visits {
      ReportGrows() && old(keptTracked) <= keptTracked && old(unlinked) <= unlinked && RemembersGone()
    }

    /// Why a row may be missing: the file was kept or unlinked, or met an error, or is not on disk.
    ghost predicate IsDropExplained(rel: string)
      reads this`report, this`keptTracked, this`unlinked, this`tree, this`visits
    {
      fold(rel) in keptTracked || WasUnlinked(rel) || rel in report.errors || IsGone(rel)
    }

    ghost predicate DropsAreExplained()
      reads this`rows, this`began, this`report, this`keptTracked, this`unlinked, this`tree, this`visits
    {
      forall p {:trigger IsDropExplained(p)} :: p in began.rows && p !in rows ==> IsDropExplained(p)
    }

    /// At most this row went, and it is clear why.
    twostate predicate DropsAtMost(rel: string)
      reads this`rows, this`report, this`keptTracked, this`unlinked, this`tree, this`visits
    {
      rows == old(rows) || (rows == old(rows) - {rel} && IsDropExplained(rel))
    }

    twostate lemma ExplanationsStay(rel: string)
      requires old(DropsAreExplained()) && DropsAtMost(rel) && LogsGrow() && began == old(began)
      ensures DropsAreExplained()
    {
      forall p | p in began.rows && p !in rows ensures IsDropExplained(p) {
        if p in old(rows) {
          assert p == rel;
        } else {
          assert old(IsDropExplained(p));
          assert old(IsGone(p)) ==> IsGone(p);
        }
      }
    }

    /// Reported as kept, and to lose its row unless it is `tracked`: online-only.
    ghost predicate IsKept(rel: string, tracked: bool) reads this`report, this`keptTracked, this`keptOnline {
      rel in report.kept && if tracked then rel in keptOnline else fold(rel) in keptTracked
    }

    method Keep(rel: string, tracked: bool)
      requires Walking() && FileExcluded(rel)
      modifies this`report, this`keptTracked, this`keptOnline
      ensures Walking() && LogsGrow() && IsKept(rel, tracked) && report.errors == old(report.errors)
    {
      if tracked {
        keptOnline := keptOnline + {rel};
      } else {
        keptTracked := keptTracked + {fold(rel)};
      }
      ghost var keptBefore := report.kept;
      report := report.(kept := report.kept + [rel]);
      assert forall q :: q in keptBefore + [rel] ==> q in report.kept;
    }

    method Fail(rel: string)
      requires Walking()
      modifies this`report
      ensures Walking() && LogsGrow() && report.errors == old(report.errors) + [rel]
    {
      report := report.(errors := report.errors + [rel]);
    }

    method Untrack(rel: string) returns (r: Reply<Unit>)
      requires Harmless() && FileExcluded(rel) && !Busy(rel)
      modifies this`rows, env
      ensures env.faults == old(env.faults) + if r.Ok? then 0 else 1
      ensures env.crashes == old(env.crashes) + if r.Crash? then 1 else 0
      ensures rows == old(rows) || rows == old(rows) - {rel}
      ensures Harmless()
      ensures r.Ok? ==> rows == old(rows) - {rel}
      ensures r.Err? ==> rows == old(rows)
      ensures rows.Keys <= old(rows).Keys
    {
      ghost var middle := rows;
      r := RemoveLocalRow(rel);
      OthersPersist(began.rows, middle, rows, rel);
    }

    method TrackAgain(rel: string, row: Row) returns (r: Reply<Unit>)
      requires Harmless() && rel in began.rows && began.rows[rel] == row
      requires forall u :: u in unlinked ==> u.at != rel
      modifies this`rows, env
      ensures env.faults == old(env.faults) + if r.Ok? then 0 else 1
      ensures env.crashes == old(env.crashes) + if r.Crash? then 1 else 0
      ensures Harmless()
      ensures r.Ok? ==> rows == old(rows)[rel := row]
      ensures r.Err? ==> rows == old(rows)
    {
      ghost var middle := rows;
      r := UpsertLocalRow(rel, row);
      OthersPersist(began.rows, middle, rows, rel);
      assert rel in rows && rows[rel] == row ==> Persists(began.rows, rows, rel);
    }

    /// Unlinks the bytes Dropbox has.
    method Unlink(rel: string) returns (r: Reply<Unit>)
      requires Valid() && Harmless() && InReach(rel) && rel !in rows
      requires rel in tree && tree[rel].File? && rel in began.remotes && hash(tree[rel].bytes) == began.remotes[rel]
      modifies this`tree, this`unlinked, env
      ensures env.faults == old(env.faults) + if r.Ok? then 0 else 1
      ensures env.crashes == old(env.crashes) + if r.Crash? then 1 else 0
      ensures r.Ok? ==> tree == old(tree) - {rel}
      ensures Valid() && Harmless()
      ensures r.Err? ==> unlinked == old(unlinked) && tree == old(tree)
      ensures old(unlinked) <= unlinked && RemembersGone()
      ensures r.Ok? ==> WasUnlinked(rel)
    {
      ghost var u := Unlinked(rel, tree[rel].bytes);
      LongerLogs(cleared, [], unlinked, [u], dirsGone, [], began.tree, visits, tree);
      FileWent(cleared, unlinked + [u], dirsGone, LastLeft(), tree, rel);
      r := RemoveFile(rel);
      if rel !in tree {
        unlinked := unlinked + [u];
        assert u in unlinked;
      }
    }

    method Done(rel: string)
      requires Walking() && rel !in tree && (IsSidecarName(rel) || WasUnlinked(rel)) && !IsNeeded(rel)
      modifies this`report
      ensures Walking() && LogsGrow() && Reported(rel) && report.errors == old(report.errors)
    {
      report := report.(removed := report.removed + [rel]);
    }

    method Skip(rel: string)
      requires Walking() && IsNeeded(rel)
      modifies this`report
      ensures Walking() && LogsGrow() && Reported(rel) && report.errors == old(report.errors)
    {
      report := report.(busy := report.busy + [rel]);
    }

    predicate IsUnchanged(rel: string, stamp: Option<Stamp>) reads this`tree {
      stamp.Some? && FileStamp(rel) == stamp
    }

    /// As long as the file has this stamp it is what Dropbox has.
    predicate IsVerified(rel: string, stamp: Option<Stamp>) reads this`tree, this`remotes {
      IsUnchanged(rel, stamp) ==> rel in remotes && hash(tree[rel].bytes) == remotes[rel]
    }

    /// Unlinks an untracked, verified file; one that will not go is tracked again.
    method UnlinkOrRestore(rel: string, row: Row) returns (r: Reply<Unit>)
      requires Walking() && InReach(rel) && rel !in rows && rel in began.rows && began.rows[rel] == row
      requires rel in tree && tree[rel].File? && rel in remotes && hash(tree[rel].bytes) == remotes[rel]
      requires forall u :: u in unlinked ==> u.at != rel
      modifies this`tree, this`rows, this`report, this`unlinked, env
      ensures env.faults >= old(env.faults)
      ensures env.crashes == old(env.crashes) + if r.Crash? then 1 else 0
      ensures env.faults == old(env.faults) ==> r.Ok? && tree == old(tree) - {rel} && rows == old(rows)
      ensures Walking() && LogsGrow() && (env.faults == old(env.faults) ==> report.errors == old(report.errors))
      ensures r.Ok? ==> Reported(rel)
      // One that would not go is tracked again and an error, unless that fails too.
      ensures r.Ok? && rel in tree ==> rel in report.errors && tree == old(tree)
      ensures r.Ok? && rel in tree && env.faults <= old(env.faults) + 1 ==> rows == old(rows)[rel := row]
      ensures r.Ok? ==> rows == old(rows)[rel := row] || (rows == old(rows) && IsDropExplained(rel))
      ensures r.Ok? || r.Crash?
    {
      var removed := Unlink(rel);
      if removed.Crash? {
        return Crash;
      }
      if removed.Ok? {
        Done(rel);
        return Ok(Unit);
      }
      var restored := TrackAgain(rel, row);
      if restored.Crash? {
        return Crash;
      }
      Fail(rel);
      return Ok(Unit);
    }

    /// A verified, untracked file is unlinked unless it changed; one that changed is kept.
    method UnlinkUnlessChanged(rel: string, row: Row, stamp: Option<Stamp>) returns (r: Reply<Unit>)
      requires Walking() && InReach(rel) && rel !in rows && rel in began.rows && began.rows[rel] == row
      requires IsVerified(rel, stamp)
      requires forall u :: u in unlinked ==> u.at != rel
      modifies this`tree, this`rows, this`report, this`keptTracked, this`keptOnline, this`unlinked, env
      ensures env.faults >= old(env.faults)
      ensures env.crashes == old(env.crashes) + if r.Crash? then 1 else 0
      ensures env.faults == old(env.faults) ==> r.Ok? && rows == old(rows)
      ensures env.faults == old(env.faults) && old(IsUnchanged(rel, stamp)) ==> tree == old(tree) - {rel}
      ensures Walking() && LogsGrow() && (env.faults == old(env.faults) ==> report.errors == old(report.errors))
      ensures r.Ok? ==> Reported(rel)
      ensures r.Ok? && !old(IsUnchanged(rel, stamp)) ==>
                tree == old(tree) && rows == old(rows) && IsKept(rel, false)
      ensures r.Ok? && old(IsUnchanged(rel, stamp)) && rel in tree ==>
                rel in report.errors && (env.faults <= old(env.faults) + 1 ==> rows == old(rows)[rel := row])
      ensures r.Ok? ==> rows == old(rows)[rel := row] || (rows == old(rows) && IsDropExplained(rel))
      ensures r.Ok? || r.Crash?
    {
      if !IsUnchanged(rel, stamp) {
        Keep(rel, false);
        return Ok(Unit);
      }
      r := UnlinkOrRestore(rel, row);
    }

    /// Untracks, then unlinks, a file verified while its stamp was `stamp`, unless it changed.
    method UntrackAndUnlink(rel: string, row: Row, stamp: Option<Stamp>) returns (r: Reply<Unit>)
      requires Walking() && InReach(rel) && rel in rows && rows[rel] == row
      requires IsVerified(rel, stamp)
      modifies this`tree, this`rows, this`report, this`keptTracked, this`keptOnline, this`unlinked, env
      ensures env.faults >= old(env.faults)
      ensures env.crashes == old(env.crashes) + if r.Crash? then 1 else 0
      ensures env.faults == old(env.faults) ==> r.Ok? && rows == old(rows) - {rel}
      ensures env.faults == old(env.faults) && old(IsUnchanged(rel, stamp)) ==> tree == old(tree) - {rel}
      ensures env.faults == old(env.faults) && !old(IsUnchanged(rel, stamp)) ==> IsKept(rel, false)
      ensures Walking() && LogsGrow() && (env.faults == old(env.faults) ==> report.errors == old(report.errors))
      ensures r.Ok? ==> Reported(rel) && DropsAtMost(rel)
      // A file that changed is kept and untracked (an error if untracking fails); one that would not go
      // is tracked again (if no more than that fails).
      ensures r.Ok? && !old(IsUnchanged(rel, stamp)) ==>
                tree == old(tree) && (rel in report.errors || (IsKept(rel, false) && rel !in rows))
      ensures r.Ok? && old(IsUnchanged(rel, stamp)) && rel in tree ==>
                rel in report.errors && (env.faults <= old(env.faults) + 1 ==> rows == old(rows))
      ensures r.Ok? || r.Crash?
    {
      assert Persists(began.rows, rows, rel) && forall u :: u in unlinked ==> u.at != rel;
      assert (rows - {rel})[rel := row] == rows;
      var untracked := Untrack(rel);
      if untracked.Crash? {
        return Crash;
      }
      if untracked.Err? {
        Fail(rel);
        return Ok(Unit);
      }
      r := UnlinkUnlessChanged(rel, row, stamp);
    }

    /// Hashes the file against the remote row; `Ok(false)` keeps it, as an error if it could not tell.
    method HashOrKeep(rel: string) returns (r: Reply<bool>)
      requires Walking() && InReach(rel)
      modifies this`report, this`keptTracked, this`keptOnline, env
      ensures env.faults >= old(env.faults)
      ensures env.crashes == old(env.crashes) + if r.Crash? then 1 else 0
      ensures env.faults == old(env.faults) ==> r == Ok(IsSynced(rel)) && report.errors == old(report.errors)
      ensures Walking() && LogsGrow()
      ensures r.Ok? || r.Crash?
      ensures r == Ok(false) ==> IsKept(rel, false) && (IsSynced(rel) ==> rel in report.errors)
      ensures r == Ok(true) ==> IsSynced(rel)
    {
      var synced := IsFullySynced(rel);
      if synced.Crash? {
        return Crash;
      }
      if synced.Err? {
        Fail(rel);
      }
      if synced != Ok(true) {
        Keep(rel, false);
        return Ok(false);
      }
      return Ok(true);
    }

    /// The user may write before and after the check. If the file has the stamp again that it had before,
    /// it is what was verified.
    method Verify(rel: string, stamp: Option<Stamp>) returns (r: Reply<bool>)
      requires Walking() && InReach(rel) && (stamp.Some? ==> (rel, stamp.value) in seen)
      modifies this`tree, this`seen, this`visits, this`report, this`keptTracked, this`keptOnline, env
      ensures env.faults >= old(env.faults)
      ensures env.crashes == old(env.crashes) + if r.Crash? then 1 else 0
      ensures env.faults == old(env.faults) ==>
                r == Ok(IsSynced(rel)) && tree == old(tree) && report.errors == old(report.errors)
      ensures Walking() && LogsGrow()
      ensures r.Ok? || r.Crash?
      ensures r == Ok(false) ==> IsKept(rel, false) && (IsSynced(rel) ==> rel in report.errors)
      ensures r == Ok(true) ==> rel in rows
      ensures r == Ok(true) && stamp.Some? && FileStamp(rel) == stamp ==>
                rel in remotes && hash(tree[rel].bytes) == remotes[rel]
    {
      UserActs();
      r := HashOrKeep(rel);
      if r != Ok(true) {
        return;
      }
      UserActs();
    }

    predicate IsOnlineOnly(rel: string) reads this`tree {
      rel in tree && tree[rel].Placeholder?
    }

    method RemoveExcludedFile(rel: string) returns (r: Reply<Unit>)
      requires Walking() && InReach(rel)
      modifies this`tree, this`seen, this`visits, this`rows, this`report, this`keptTracked, this`keptOnline,
               this`unlinked, env
      ensures env.faults >= old(env.faults)
      ensures env.crashes == old(env.crashes) + if r.Crash? then 1 else 0
      ensures env.faults == old(env.faults) ==>
                r.Ok? && if old(IsSynced(rel)) then tree == old(tree) - {rel} && rows == old(rows) - {rel}
                         else tree == old(tree) && rows == old(rows) && IsKept(rel, old(IsOnlineOnly(rel)))
      ensures Walking() && LogsGrow() && (env.faults == old(env.faults) ==> report.errors == old(report.errors))
      ensures r.Ok? ==> Reported(rel)
      ensures r.Ok? ==> DropsAtMost(rel)
      ensures r.Ok? || r.Crash?
    {
      UserActs();
      if IsOnlineOnly(rel) {
        Keep(rel, true);
        return Ok(Unit);
      }
      r := RemoveLocalCopy(rel);
    }

    /// The file is no placeholder, so it may be opened and hashed.
    method RemoveLocalCopy(rel: string) returns (r: Reply<Unit>)
      requires Walking() && InReach(rel)
      modifies this`tree, this`seen, this`visits, this`rows, this`report, this`keptTracked, this`keptOnline,
               this`unlinked, env
      ensures env.faults >= old(env.faults)
      ensures env.crashes == old(env.crashes) + if r.Crash? then 1 else 0
      ensures env.faults == old(env.faults) ==>
                r.Ok? && if old(IsSynced(rel)) then tree == old(tree) - {rel} && rows == old(rows) - {rel}
                         else tree == old(tree) && rows == old(rows) && IsKept(rel, false)
      ensures Walking() && LogsGrow() && (env.faults == old(env.faults) ==> report.errors == old(report.errors))
      ensures r.Ok? ==> Reported(rel)
      ensures r.Ok? ==> DropsAtMost(rel)
      ensures r.Ok? || r.Crash?
    {
      var read, _ := env.Answer(true);
      if read.Crash? {
        return Crash;
      }
      if read.Err? {
        Fail(rel);
        return Ok(Unit);
      }
      var row := if rel in rows then Some(rows[rel]) else None;
      var stamp := FileStamp(rel);
      var verified := Verify(rel, stamp);
      if verified.Crash? {
        return Crash;
      }
      if !verified.value || row.None? {
        return Ok(Unit);
      }
      r := UntrackAndUnlink(rel, row.value, stamp);
    }

    // The walk.

    /// Removes an entry, or junk that is the last thing in its directory.
    method Clear(rel: string) returns (r: Reply<Unit>)
      requires Valid() && Harmless()
      requires rel in tree && !tree[rel].Dir? ==>
                 IsClearable(rel, tree[rel]) && (IsSidecarName(rel) || EmptyDir(tree - {rel}, DirOfJunk(rel)))
      modifies this`tree, this`cleared, env
      ensures env.faults == old(env.faults) + if r.Ok? then 0 else 1
      ensures env.crashes == old(env.crashes) + if r.Crash? then 1 else 0
      ensures Valid() && Harmless()
      ensures r.Ok? ==> rel in old(tree) && rel !in tree
      ensures r.Err? ==> tree == old(tree)
      ensures tree == old(tree) || (rel in old(tree) && !old(tree)[rel].Dir? && tree == old(tree) - {rel})
    {
      if rel in tree && !tree[rel].Dir? {
        LongerLogs(cleared, [Cleared(rel, tree[rel])], unlinked, [], dirsGone, [], began.tree, visits, tree);
        cleared := cleared + [Cleared(rel, tree[rel])];
        FileWent(cleared, unlinked, dirsGone, LastLeft(), tree, rel);
      }
      r := RemoveFile(rel);
    }

    method RemoveSidecar(rel: string) returns (r: Reply<Unit>)
      requires Walking() && IsSidecarName(rel) && !IsNeeded(rel)
      requires rel in tree && !tree[rel].Dir? ==> IsClearable(rel, tree[rel])
      modifies this`tree, this`report, this`cleared, env
      ensures env.faults >= old(env.faults)
      ensures env.crashes == old(env.crashes) + if r.Crash? then 1 else 0
      ensures env.faults == old(env.faults) ==> r.Ok? && tree == old(tree) - {rel}
      ensures Walking() && LogsGrow() && (env.faults == old(env.faults) ==> report.errors == old(report.errors))
      ensures r.Ok? ==> Reported(rel)
      ensures r.Ok? || r.Crash?
    {
      var removed := Clear(rel);
      if removed.Crash? {
        return Crash;
      }
      if removed.Ok? {
        Done(rel);
      } else {
        Fail(rel);
      }
      return Ok(Unit);
    }

    /// A `.cloudsc` entry is judged by what it stands for.
    method VisitSidecar(rel: string) returns (r: Reply<Unit>)
      requires Walking() && IsSidecarName(rel) && IsUnignored(rel)
      modifies this`tree, this`seen, this`visits, this`report, this`cleared, env
      ensures env.faults >= old(env.faults)
      ensures env.crashes == old(env.crashes) + if r.Crash? then 1 else 0
      ensures env.faults == old(env.faults) ==> r.Ok? && LosesAtMost(rel) && (old(IsRemovable(rel)) ==> rel !in tree)
      ensures Walking() && LogsGrow() && (env.faults == old(env.faults) ==> report.errors == old(report.errors))
      ensures r.Ok? && zone(TargetOf(rel)) == Excluded ==> Reported(rel)
      ensures env.faults == old(env.faults) && old(IsOut(rel)) ==> Reported(rel)
      ensures r.Ok? || r.Crash?
    {
      UserActs();
      var target := TargetOf(rel);
      var excluded :=
        match zone(target)
        case Excluded => true
        case Ancestor => rel in tree && tree[rel] == Sidecar(true)
        case Synced => false;
      if !excluded {
        return Ok(Unit);
      }
      if Busy(target) || Busy(rel) {
        Skip(rel);
        return Ok(Unit);
      }
      r := RemoveSidecar(rel);
    }

    method VisitFile(rel: string) returns (r: Reply<Unit>)
      requires Walking() && IsUnignored(rel)
      modifies this`tree, this`seen, this`visits, this`rows, this`report, this`keptTracked, this`keptOnline,
               this`cleared, this`unlinked, env
      ensures env.faults >= old(env.faults)
      ensures env.crashes == old(env.crashes) + if r.Crash? then 1 else 0
      ensures env.faults == old(env.faults) ==> r.Ok? && LosesAtMost(rel) && (old(IsRemovable(rel)) ==> rel !in tree)
      ensures Walking() && LogsGrow() && (env.faults == old(env.faults) ==> report.errors == old(report.errors))
      ensures r.Ok? && IsOutOfScope(rel) ==> Reported(rel)
      ensures env.faults == old(env.faults) && old(IsOut(rel)) ==> Reported(rel)
      ensures env.faults == old(env.faults) && MustKeep(rel) && !old(IsSynced(rel)) ==> rel in report.kept
      ensures r.Ok? ==> DropsAtMost(rel)
      ensures r.Ok? || r.Crash?
    {
      if IsSidecarName(rel) {
        r := VisitSidecar(rel);
        return;
      }
      if !FileExcluded(rel) {
        return Ok(Unit);
      }
      if Busy(rel) {
        Skip(rel);
        return Ok(Unit);
      }
      r := RemoveExcludedFile(rel);
    }

    /// A file the pass keeps if it is not synced.
    predicate MustKeep(rel: string) {
      !IsSidecarName(rel) && FileExcluded(rel) && !Busy(rel)
    }

    ghost function ToKeep(listing: seq<Entry>): set<string> reads this`tree, this`rows, this`remotes {
      set e | e in listing && MustKeep(e.rel) && !IsSynced(e.rel) :: e.rel
    }

    /// What the pass has to deal with, whatever the disk says: an entry of an Excluded path, any other
    /// file out of scope.
    predicate IsOutOfScope(rel: string) {
      if IsSidecarName(rel) then zone(TargetOf(rel)) == Excluded else FileExcluded(rel)
    }

    /// What it has to deal with as the disk is: also the entry of a file in an Ancestor folder.
    predicate IsOut(rel: string) reads this`tree {
      if IsSidecarName(rel) then rel in tree && IsEntryOut(rel, tree[rel]) else FileExcluded(rel)
    }

    /// What it has to look at.
    predicate MayBeOut(rel: string) {
      if IsSidecarName(rel) then zone(TargetOf(rel)) != Synced else FileExcluded(rel)
    }

    ghost function AllOut(): set<string> reads this`tree {
      set q | q in tree && IsOut(q)
    }

    /// Nothing failed and nobody interfered, so what was to go is gone, what is not synced was kept, and
    /// whatever was out of scope is reported.
    ghost predicate AllDealtWith(listing: seq<Entry>, toGo: set<string>, toKeep: set<string>, out: set<string>)
      reads this`tree, this`report
    {
      forall e :: e in listing && MustVisit(listing, e) ==> IsDealtWith(e.rel, toGo, toKeep, out)
    }

    predicate IsDealtWith(rel: string, toGo: set<string>, toKeep: set<string>, out: set<string>)
      reads this`tree, this`report
    {
      (rel in toGo ==> rel !in tree) && (rel in toKeep ==> rel in report.kept) && (rel in out ==> Reported(rel))
    }

    predicate IsExcludedDir(e: Entry) {
      e.kind.DirKind? && !ignored(e.rel) && zone(e.rel) == Excluded
    }

    ghost predicate IsExcludedDepth(d: (nat, string)) reads this`listed {
      zone(d.1) == Excluded && IsUnignored(d.1) && d.0 == Depth(d.1)
    }

    /// The directory is to go if nothing is left in it, unless an ignored directory holds it.
    ghost predicate MustEmpty(listing: seq<Entry>, e: Entry) {
      IsExcludedDir(e) && forall d :: d in listing && IsIgnoredDir(d) ==> !Beneath(e.rel, d.rel)
    }

    ghost predicate AllDirsListed(listing: seq<Entry>) reads this`excludedDirs {
      forall e :: e in listing && MustEmpty(listing, e) ==> (Depth(e.rel), e.rel) in excludedDirs
    }

    predicate MayPassOver(dir: string) {
      zone(dir) == Synced && !ExcludedBeneath(f, filter, dir)
    }

    ghost predicate PassedOver(listing: seq<Entry>, skipped: seq<string>) {
      forall d :: d in skipped ==> MayPassOver(d) || (Entry(d, DirKind) in listing && ignored(d))
    }

    /// The walk must come to the file, unless an ignored directory holds it.
    ghost predicate MustVisit(listing: seq<Entry>, e: Entry) {
      && e.kind.FileKind? && !ignored(e.rel) && MayBeOut(e.rel)
      && forall d :: d in listing && IsIgnoredDir(d) ==> !Beneath(e.rel, d.rel)
    }

    /// And the file must show up in the report.
    ghost predicate MustReport(listing: seq<Entry>, e: Entry) {
      MustVisit(listing, e) && IsOutOfScope(e.rel)
    }

    ghost predicate AllReported(listing: seq<Entry>) reads this`report {
      forall e :: e in listing && MustReport(listing, e) ==> Reported(e.rel)
    }

    /// Nothing beneath a Synced directory without excludes is out of scope.
    lemma PassingOverIsRight(dir: string, rel: string)
      requires ZonesAreScopes() && MayPassOver(dir) && Beneath(rel, dir)
      ensures !MayBeOut(rel) && zone(rel) == Synced
    {
      assert zone(dir) == ScopeOf(f, filter, dir) && zone(rel) == ScopeOf(f, filter, rel);
      if IsSidecarName(rel) {
        assert zone(TargetOf(rel)) == ScopeOf(f, filter, TargetOf(rel));
      }
      SkipMissesNothing(f, filter, rel, dir);
    }

    lemma SkippedNeedsNoReport(listing: seq<Entry>, skipped: seq<string>, dir: string, e: Entry)
      requires ZonesAreScopes() && PassedOver(listing, skipped) && dir in skipped && Beneath(e.rel, dir)
      ensures !MustVisit(listing, e) && !MustEmpty(listing, e)
    {
      if MayPassOver(dir) {
        PassingOverIsRight(dir, e.rel);
      } else {
        assert IsIgnoredDir(Entry(dir, DirKind));
      }
    }

    lemma MoreSkipped(listing: seq<Entry>, skipped: seq<string>, dir: string)
      requires PassedOver(listing, skipped) && (MayPassOver(dir) || (Entry(dir, DirKind) in listing && ignored(dir)))
      ensures PassedOver(listing, skipped + [dir])
    {
    }

    /// Whether the walk passed over a directory that holds the entry.
    method FindSkipped(ghost listing: seq<Entry>, skipped: seq<string>, e: Entry) returns (within: bool)
      requires ZonesAreScopes() && PassedOver(listing, skipped)
      ensures within ==> IsPassedOver(e.rel, skipped)
      ensures within ==> !MustVisit(listing, e) && !MustEmpty(listing, e)
      ensures !within ==> forall d :: d in skipped ==> !Beneath(e.rel, d)
    {
      if d :| d in skipped && Beneath(e.rel, d) {
        SkippedNeedsNoReport(listing, skipped, d, e);
        return true;
      }
      return false;
    }

    /// One entry of the walk. `Ok(true)` leaves out what the directory holds.
    method VisitEntry(e: Entry) returns (r: Reply<bool>)
      requires Walking() && !IsSheltered(e.rel)
      modifies this`tree, this`seen, this`visits, this`rows, this`report, this`keptTracked, this`keptOnline,
               this`cleared, this`unlinked, this`excludedDirs, env
      ensures env.faults >= old(env.faults)
      ensures env.crashes == old(env.crashes) + if r.Crash? then 1 else 0
      ensures env.faults == old(env.faults) ==> r.Ok? && LosesAtMost(e.rel)
      ensures env.faults == old(env.faults) && e.kind.FileKind? && !ignored(e.rel) && old(IsRemovable(e.rel)) ==>
                e.rel !in tree
      ensures env.faults == old(env.faults) && e.kind.FileKind? && !ignored(e.rel) && MustKeep(e.rel) ==>
                !old(IsSynced(e.rel)) ==> e.rel in report.kept
      ensures !e.kind.FileKind? || ignored(e.rel) ==> tree == old(tree)
      ensures r.Ok? && IsExcludedDir(e) ==> (Depth(e.rel), e.rel) in excludedDirs && r == Ok(false)
      ensures old(excludedDirs) <= excludedDirs
      ensures Walking() && LogsGrow()
      ensures forall d :: d in excludedDirs ==> d in old(excludedDirs) || IsExcludedDepth(d)
      ensures r == Ok(true) ==> e.kind.DirKind? && (ignored(e.rel) || MayPassOver(e.rel))
      ensures IsIgnoredDir(e) ==> r == Ok(true)
      ensures r.Ok? && e.kind.FileKind? && !ignored(e.rel) && IsOutOfScope(e.rel) ==> Reported(e.rel)
      ensures env.faults == old(env.faults) && e.kind.FileKind? && !ignored(e.rel) && old(IsOut(e.rel)) ==>
                Reported(e.rel)
      ensures r.Ok? ==> DropsAtMost(e.rel)
      ensures e.kind.WalkError? ==> e.rel in report.errors
      ensures env.faults == old(env.faults) ==>
                report.errors == old(report.errors) + if e.kind.WalkError? then [e.rel] else []
      ensures r.Ok? || r.Crash?
    {
      match e.kind
      case WalkError =>
        Fail(e.rel);
        return Ok(false);
      case OtherKind =>
        return Ok(false);
      case DirKind =>
        if ignored(e.rel) {
          return Ok(true);
        }
        if zone(e.rel) == Excluded {
          excludedDirs := excludedDirs + [(Depth(e.rel), e.rel)];
        }
        return Ok(MayPassOver(e.rel));
      case FileKind =>
        if ignored(e.rel) {
          return Ok(false);
        }
        var visited := VisitFile(e.rel);
        return if visited.Ok? then Ok(false) else Crash;
    }

    /// The visited files that had to be reported are.
    ghost predicate AreReported(visited: set<string>) reads this`report {
      forall rel :: rel in visited && IsOutOfScope(rel) ==> Reported(rel)
    }

    /// What was to go and is still there can go, and was not visited yet.
    ghost predicate StillToGo(toGo: set<string>, visited: set<string>) reads this`tree, this`rows, this`remotes {
      forall q :: q in toGo && q in tree ==> IsRemovable(q) && q !in visited
    }

    /// What is to be kept can still not go, and is kept once visited.
    ghost predicate StillToKeep(toKeep: set<string>, visited: set<string>)
      reads this`tree, this`rows, this`remotes, this`report
    {
      forall q :: q in toKeep ==> MustKeep(q) && !IsSynced(q) && (q in visited ==> q in report.kept)
    }

    /// What was out of scope still is, or is reported once visited.
    ghost predicate StillOut(out: set<string>, visited: set<string>) reads this`tree, this`report {
      forall q :: q in out ==> if q in visited then Reported(q) else IsOut(q)
    }

    /// All three.
    ghost predicate OnCourse(toGo: set<string>, toKeep: set<string>, out: set<string>, visited: set<string>)
      reads this`tree, this`rows, this`remotes, this`report
    {
      StillToGo(toGo, visited) && StillToKeep(toKeep, visited) && StillOut(out, visited)
    }

    twostate lemma OthersStayOut(rel: string)
      requires LosesAtMost(rel)
      ensures forall q :: q != rel && old(IsOut(q)) ==> IsOut(q)
    {
    }

    method VisitNext(e: Entry, ghost toGo: set<string>, ghost toKeep: set<string>, ghost out: set<string>,
                     ghost before: set<string>)
      returns (r: Reply<bool>, ghost visited: set<string>)
      requires Walking() && AreReported(before) && DropsAreExplained() && !IsSheltered(e.rel)
      modifies this`tree, this`seen, this`visits, this`rows, this`report, this`keptTracked, this`keptOnline,
               this`cleared, this`unlinked, this`excludedDirs, env
      ensures env.faults >= old(env.faults)
      ensures env.crashes == old(env.crashes) + if r.Crash? then 1 else 0
      ensures env.faults == old(env.faults) ==> r.Ok?
      ensures env.faults == old(env.faults) && old(OnCourse(toGo, toKeep, out, before)) ==>
                OnCourse(toGo, toKeep, out, visited)
      ensures env.faults == old(env.faults) ==>
                report.errors == old(report.errors) + if e.kind.WalkError? then [e.rel] else []
      ensures Walking() && before <= visited && (r.Ok? ==> AreReported(visited) && DropsAreExplained())
      ensures e.kind.FileKind? && !ignored(e.rel) ==> e.rel in visited
      ensures forall d :: d in excludedDirs ==> d in old(excludedDirs) || IsExcludedDepth(d)
      ensures old(excludedDirs) <= excludedDirs
      ensures r.Ok? && IsExcludedDir(e) ==> (Depth(e.rel), e.rel) in excludedDirs
      ensures r == Ok(true) ==> e.kind.DirKind? && (ignored(e.rel) || MayPassOver(e.rel))
      ensures IsIgnoredDir(e) ==> r == Ok(true)
      ensures r.Ok? || r.Crash?
    {
      visited := if e.kind.FileKind? && !ignored(e.rel) then before + {e.rel} else before;
      r := VisitEntry(e);
      if r.Ok? {
        ExplanationsStay(e.rel);
      }
      if env.faults == old(env.faults) {
        LossShrinks(e.rel);
        OthersStayOut(e.rel);
      }
    }

    ghost predicate DirsAreSettled(listing: seq<Entry>) reads this`tree {
      forall e :: e in listing && MustEmpty(listing, e) ==> IsSettled(e.rel)
    }

    /// Of the first entries, the files to report were visited, the directories to empty collected and the
    /// ignored ones passed over.
    ghost predicate AreAccountedFor(listing: seq<Entry>, n: nat, visited: set<string>, dirs: seq<(nat, string)>,
                                    skipped: seq<string>)
      requires n <= |listing|
    {
      && (forall k :: 0 <= k < n && MustVisit(listing, listing[k]) ==> listing[k].rel in visited)
      && (forall k :: 0 <= k < n && MustEmpty(listing, listing[k]) ==>
            (Depth(listing[k].rel), listing[k].rel) in dirs)
      && forall k :: 0 <= k < n && IsIgnoredDir(listing[k]) ==> IsPassedOver(listing[k].rel, skipped)
    }

    ghost predicate IsPassedOver(rel: string, skipped: seq<string>) {
      exists d :: d in skipped && AtOrBeneath(rel, d)
    }

    lemma OneMoreAccountedFor(listing: seq<Entry>, n: nat, visitedBefore: set<string>, dirsBefore: seq<(nat, string)>,
                              skippedBefore: seq<string>, visited: set<string>, dirs: seq<(nat, string)>,
                              skipped: seq<string>)
      requires n < |listing| && AreAccountedFor(listing, n, visitedBefore, dirsBefore, skippedBefore)
      requires visitedBefore <= visited && dirsBefore <= dirs && skippedBefore <= skipped
      requires MustVisit(listing, listing[n]) ==> listing[n].rel in visited
      requires MustEmpty(listing, listing[n]) ==> (Depth(listing[n].rel), listing[n].rel) in dirs
      requires IsIgnoredDir(listing[n]) ==> IsPassedOver(listing[n].rel, skipped)
      ensures AreAccountedFor(listing, n + 1, visited, dirs, skipped)
    {
      forall k | 0 <= k < n && IsIgnoredDir(listing[k]) ensures IsPassedOver(listing[k].rel, skipped) {
        var d :| d in skippedBefore && AtOrBeneath(listing[k].rel, d);
        assert d in skipped;
      }
    }

    lemma NotSheltered(n: nat, visited: set<string>, dirs: seq<(nat, string)>, skipped: seq<string>)
      requires n < |listed| && AreAccountedFor(listed, n, visited, dirs, skipped)
      requires forall d :: d in skipped ==> !Beneath(listed[n].rel, d)
      ensures !IsSheltered(listed[n].rel)
    {
      if IsSheltered(listed[n].rel) {
        var k :| 0 <= k < |listed| && IsIgnoredDir(listed[k]) && Beneath(listed[n].rel, listed[k].rel);
        assert IsPassedOver(listed[k].rel, skipped);
        var d :| d in skipped && AtOrBeneath(listed[k].rel, d);
        BeneathIsTransitive(listed[n].rel, listed[k].rel, d);
      }
    }

    /// One more entry of the walk, unless the walk passed over it.
    method WalkOn(listing: seq<Entry>, i: nat, skipped: seq<string>, ghost toGo: set<string>, ghost toKeep: set<string>,
                  ghost out: set<string>, ghost before: set<string>)
      returns (r: Reply<seq<string>>, ghost visited: set<string>)
      requires listed == listing && i < |listing| && ZonesAreScopes() && PassedOver(listing, skipped)
      requires Walking() && AreReported(before) && DropsAreExplained()
      requires AreAccountedFor(listing, i, before, excludedDirs, skipped)
      requires forall d :: d in excludedDirs ==> IsExcludedDepth(d)
      modifies this`tree, this`seen, this`visits, this`rows, this`report, this`keptTracked, this`keptOnline,
               this`cleared, this`unlinked, this`excludedDirs, env
      ensures env.faults >= old(env.faults)
      ensures env.crashes == old(env.crashes) + if r.Crash? then 1 else 0
      ensures env.faults == old(env.faults) ==> r.Ok?
      ensures env.faults == old(env.faults) && old(OnCourse(toGo, toKeep, out, before)) ==>
                OnCourse(toGo, toKeep, out, visited)
      ensures env.faults == old(env.faults) && old(ErrorsAreUnreadable(listing)) ==> ErrorsAreUnreadable(listing)
      ensures Walking() && forall d :: d in excludedDirs ==> IsExcludedDepth(d)
      ensures r.Ok? ==> AreReported(visited) && DropsAreExplained() && PassedOver(listing, r.value)
      ensures r.Ok? ==> AreAccountedFor(listing, i + 1, visited, excludedDirs, r.value)
      ensures r.Ok? || r.Crash?
    {
      var e := listing[i];
      ghost var dirsBefore := excludedDirs;
      visited := before;
      var within := FindSkipped(listing, skipped, e);
      if within {
        OneMoreAccountedFor(listing, i, before, dirsBefore, skipped, visited, excludedDirs, skipped);
        return Ok(skipped), visited;
      }
      NotSheltered(i, before, excludedDirs, skipped);
      var skip;
      skip, visited := VisitNext(e, toGo, toKeep, out, before);
      if !skip.Ok? {
        return Crash, visited;
      }
      var more := skipped;
      if skip.value {
        assert e == Entry(e.rel, DirKind) && e in listing;
        MoreSkipped(listing, skipped, e.rel);
        more := skipped + [e.rel];
        assert e.rel in more;
      }
      OneMoreAccountedFor(listing, i, before, dirsBefore, skipped, visited, excludedDirs, more);
      return Ok(more), visited;
    }

    /// The listing is what a full walk would report.
    method Walk(listing: seq<Entry>) returns (r: Reply<Unit>)
      requires listed == listing && ZonesAreScopes()
      requires Walking() && excludedDirs == [] && report.errors == [] && DropsAreExplained()
      modifies this`tree, this`seen, this`visits, this`rows, this`report, this`keptTracked, this`keptOnline,
               this`cleared, this`unlinked, this`excludedDirs, env
      ensures env.faults >= old(env.faults)
      ensures env.crashes == old(env.crashes) + if r.Crash? then 1 else 0
      ensures env.faults == old(env.faults) ==>
                && r.Ok? && AllDealtWith(listing, old(ToGo()), old(ToKeep(listing)), old(AllOut()))
                && ErrorsAreUnreadable(listing)
      ensures Walking()
      ensures forall d :: d in excludedDirs ==> IsExcludedDepth(d)
      ensures r.Ok? ==> AllReported(listing) && AllDirsListed(listing) && DropsAreExplained()
      ensures r.Ok? || r.Crash?
    {
      var skipped: seq<string> := [];
      ghost var visited: set<string> := {};
      ghost var toGo, toKeep, out := ToGo(), ToKeep(listing), AllOut();
      for i := 0 to |listing|
        invariant Walking() && PassedOver(listing, skipped) && AreReported(visited) && DropsAreExplained()
        invariant env.faults >= old(env.faults) && env.crashes == old(env.crashes)
        invariant env.faults == old(env.faults) ==>
                    OnCourse(toGo, toKeep, out, visited) && ErrorsAreUnreadable(listing)
        invariant forall d :: d in excludedDirs ==> IsExcludedDepth(d)
        invariant AreAccountedFor(listing, i, visited, excludedDirs, skipped)
      {
        var next;
        next, visited := WalkOn(listing, i, skipped, toGo, toKeep, out, visited);
        if !next.Ok? {
          return Crash;
        }
        skipped := next.value;
      }
      r := Ok(Unit);
    }

    /// The only errors are entries the walk could not read.
    ghost predicate ErrorsAreUnreadable(listing: seq<Entry>) reads this`report {
      forall p :: p in report.errors ==> Entry(p, WalkError) in listing
    }

    // The index outside the synced zone, cleaned before any directory goes.

    method RemoveKnownFolder(dir: string) returns (r: Reply<Unit>)
      requires Harmless() && zone(dir) != Synced
      modifies this`folders, env
      ensures env.faults == old(env.faults) + if r.Ok? then 0 else 1
      ensures env.crashes == old(env.crashes) + if r.Crash? then 1 else 0
      ensures Harmless()
      ensures r.Ok? ==> folders == old(folders) - {dir}
      ensures old(folders) - {dir} <= folders <= old(folders)
    {
      var applied;
      r, applied := env.Answer(true);
      if applied {
        folders := folders - {dir};
      }
    }

    method DropFolderRows() returns (r: Reply<Unit>)
      requires Harmless()
      modifies this`folders, env
      ensures env.faults >= old(env.faults)
      ensures env.crashes == old(env.crashes) + if r.Crash? then 1 else 0
      ensures env.faults == old(env.faults) ==> r.Ok?
      ensures Harmless() && folders <= old(folders)
      ensures r.Ok? ==> forall k :: k in folders ==> zone(k) == Synced || Busy(k)
      ensures forall k :: k in old(folders) && Busy(k) ==> k in folders
    {
      var read, _ := env.Answer(true);
      if !read.Ok? {
        return read;
      }
      var pending := folders;
      while pending != {}
        invariant env.faults >= old(env.faults) && env.crashes == old(env.crashes)
        invariant Harmless() && folders <= old(folders)
        invariant forall k :: k in folders && k !in pending ==> zone(k) == Synced || Busy(k)
        invariant forall k :: k in old(folders) && Busy(k) ==> k in folders
        decreases |pending|
      {
        var k :| k in pending;
        pending := pending - {k};
        if zone(k) != Synced && !Busy(k) {
          var removed := RemoveKnownFolder(k);
          if !removed.Ok? {
            return removed;
          }
        }
      }
      r := Ok(Unit);
    }

    /// A row left outside the synced zone names a busy path, or something that was not kept and was
    /// on disk: only the user took it away since, or it was junk, or a directory that is gone now.
    ghost predicate MayStay(rel: string) reads this`keptTracked, this`tree, this`visits, this`dirsGone {
      !FileExcluded(rel) || Busy(rel) || (fold(rel) !in keptTracked && WasOnDisk(rel))
    }

    /// What was on disk still was.
    twostate predicate RemembersDisk() reads this`tree, this`visits, this`dirsGone {
      forall p {:trigger WasOnDisk(p)} :: old(WasOnDisk(p)) ==> WasOnDisk(p)
    }

    ghost predicate WasOnDisk(rel: string) reads this`tree, this`visits, this`dirsGone {
      rel in tree || TakenAway(visits, rel) || IsJunk(rel) || rel in dirsGone
    }

    method DropLocalRow(rel: string) returns (r: Reply<Unit>)
      requires Valid() && Harmless()
      modifies this`rows, this`tree, this`seen, this`visits, env
      ensures env.faults >= old(env.faults)
      ensures env.crashes == old(env.crashes) + if r.Crash? then 1 else 0
      ensures env.faults == old(env.faults) ==> r.Ok? && tree == old(tree)
      ensures Valid() && Harmless() && rows.Keys <= old(rows).Keys && RemembersDisk() && RemembersGone()
      ensures r.Ok? && rel in rows ==> MayStay(rel)
      ensures DropsAtMost(rel)
    {
      r := Ok(Unit);
      if FileExcluded(rel) && !Busy(rel) {
        UserActs();
        if rel !in tree || fold(rel) in keptTracked {
          r := Untrack(rel);
        }
      }
    }

    method DropLocalRows() returns (r: Reply<Unit>)
      requires Valid() && Harmless() && DropsAreExplained()
      modifies this`rows, this`tree, this`seen, this`visits, env
      ensures env.faults >= old(env.faults)
      ensures env.crashes == old(env.crashes) + if r.Crash? then 1 else 0
      ensures env.faults == old(env.faults) ==> r.Ok? && tree == old(tree)
      ensures Valid() && Harmless() && DropsAreExplained()
      ensures r.Ok? ==> forall p :: p in rows ==> MayStay(p)
    {
      var read, _ := env.Answer(true);
      if !read.Ok? {
        return read;
      }
      var pending := rows.Keys;
      while pending != {}
        invariant env.faults >= old(env.faults) && env.crashes == old(env.crashes)
        invariant env.faults == old(env.faults) ==> tree == old(tree)
        invariant Valid() && Harmless() && DropsAreExplained()
        invariant forall p :: p in rows && p !in pending ==> MayStay(p)
        decreases |pending|
      {
        var rel :| rel in pending;
        pending := pending - {rel};
        label Before:
        var dropped := DropLocalRow(rel);
        ExplanationsStay@Before(rel);
        if !dropped.Ok? {
          return dropped;
        }
      }
      r := Ok(Unit);
    }

    ghost predicate NoExcludedRemotes() reads this`remotes {
      forall p :: p in remotes ==> !FileExcluded(p)
    }

    method RemoveRemoteRow(rel: string) returns (r: Reply<Unit>)
      requires Harmless() && FileExcluded(rel) && !Busy(rel)
      modifies this`remotes, env
      ensures env.faults == old(env.faults) + if r.Ok? then 0 else 1
      ensures env.crashes == old(env.crashes) + if r.Crash? then 1 else 0
      ensures Harmless()
      ensures r.Ok? ==> remotes == old(remotes) - {rel}
      ensures remotes.Keys <= old(remotes).Keys
    {
      var applied;
      r, applied := env.Answer(true);
      if applied {
        OthersPersist(began.remotes, remotes, remotes - {rel}, rel);
        remotes := remotes - {rel};
      }
    }

    method DropExcludedRemotes() returns (r: Reply<bool>)
      requires Harmless()
      modifies this`remotes, env
      ensures env.faults >= old(env.faults)
      ensures env.crashes == old(env.crashes) + if r.Crash? then 1 else 0
      ensures env.faults == old(env.faults) ==> r.Ok?
      ensures Harmless() && remotes.Keys <= old(remotes).Keys
      ensures r.Ok? ==> forall p :: p in remotes ==> !FileExcluded(p) || (!r.value && Busy(p))
      ensures r == Ok(false) ==> !NoExcludedRemotes()
    {
      var complete := true;
      var pending := remotes.Keys;
      while pending != {}
        invariant env.faults >= old(env.faults) && env.crashes == old(env.crashes)
        invariant Harmless() && remotes.Keys <= old(remotes).Keys
        invariant forall p :: p in remotes && p !in pending ==> !FileExcluded(p) || (!complete && Busy(p))
        invariant pending <= remotes.Keys && (!complete ==> exists p :: p in remotes && FileExcluded(p) && Busy(p))
        decreases |pending|
      {
        var rel :| rel in pending;
        pending := pending - {rel};
        if FileExcluded(rel) {
          if Busy(rel) {
            complete := false;
          } else {
            var removed := RemoveRemoteRow(rel);
            if !removed.Ok? {
              return if removed.Err? then Err else Crash;
            }
          }
        }
      }
      r := Ok(complete);
    }

    /// Once per filter. The note that the rows are gone is written exactly when they are.
    method DropRemoteRows() returns (r: Reply<Unit>)
      requires Harmless() && (cleanedFor == Some(signature) ==> NoExcludedRemotes())
      modifies this`remotes, this`cleanedFor, env
      ensures env.faults >= old(env.faults)
      ensures env.crashes == old(env.crashes) + if r.Crash? then 1 else 0
      ensures env.faults == old(env.faults) ==> r.Ok?
      ensures Harmless() && (cleanedFor == Some(signature) ==> NoExcludedRemotes())
      ensures r.Ok? ==> forall p :: p in remotes ==> !FileExcluded(p) || Busy(p)
      ensures r.Ok? && NoExcludedRemotes() ==> cleanedFor == Some(signature)
      ensures old(cleanedFor) == Some(signature) ==> remotes == old(remotes)
    {
      var read, _ := env.Answer(true);
      if !read.Ok? {
        return read;
      }
      if cleanedFor == Some(signature) {
        return Ok(Unit);
      }
      var dropped := DropExcludedRemotes();
      if !dropped.Ok? {
        return if dropped.Err? then Err else Crash;
      }
      r := Ok(Unit);
      if dropped.value {
        var applied;
        r, applied := env.Answer(true);
        if applied {
          cleanedFor := Some(signature);
        }
      }
    }

    // The directories, deepest first and only when empty.

    method UntrackFoldersSubtree(dir: string) returns (r: Reply<Unit>)
      requires ZonesAreScopes() && Harmless() && zone(dir) == Excluded
      modifies this`folders, env
      ensures env.faults >= old(env.faults)
      ensures env.crashes == old(env.crashes) + if r.Crash? then 1 else 0
      ensures env.faults == old(env.faults) ==> r.Ok?
      ensures Harmless() && folders <= old(folders)
      ensures r.Ok? ==> IsUntracked(folders, dir)
    {
      var read, _ := env.Answer(true);
      if !read.Ok? {
        return read;
      }
      var pending := folders;
      while pending != {}
        invariant env.faults >= old(env.faults) && env.crashes == old(env.crashes)
        invariant Harmless() && folders <= old(folders)
        invariant forall k :: k in folders && k !in pending ==> !AtOrBeneath(k, dir)
        decreases |pending|
      {
        var k :| k in pending;
        pending := pending - {k};
        if AtOrBeneath(k, dir) {
          if k != dir {
            assert zone(dir) == ScopeOf(f, filter, dir) && zone(k) == ScopeOf(f, filter, k);
            ExcludedBelow(f, filter, k, dir);
          }
          var removed := RemoveKnownFolder(k);
          if !removed.Ok? {
            return removed;
          }
        }
      }
      r := Ok(Unit);
    }

    lemma JunkIsClearable(dir: string, node: Node)
      requires ZonesAreScopes() && IsRemovableDir(dir)
      ensures IsClearable(dir + "/" + JUNK, node)
    {
      var junk := dir + "/" + JUNK;
      JunkIsJunk(dir);
      assert zone(dir) == ScopeOf(f, filter, dir) && zone(junk) == ScopeOf(f, filter, junk);
      ExcludedBelow(f, filter, junk, dir);
    }

    /// Removes what Finder left, when there is nothing else. A failure is ignored.
    method RemoveJunk(dir: string) returns (r: Reply<Unit>)
      requires ZonesAreScopes() && Valid() && Harmless() && IsRemovableDir(dir)
      modifies this`tree, this`cleared, env
      ensures env.faults >= old(env.faults)
      ensures env.crashes == old(env.crashes) + if r.Crash? then 1 else 0
      ensures env.faults == old(env.faults) ==> r.Ok? && !OnlyJunk(tree, dir)
      ensures tree == old(tree) || (OnlyJunk(old(tree), dir) && tree == old(tree) - {dir + "/" + JUNK})
      ensures Valid() && Harmless() && RemembersDisk() && RemembersGone()
      ensures r.Ok? || r.Crash?
    {
      r := Ok(Unit);
      if OnlyJunk(tree, dir) {
        JunkIsJunk(dir);
        JunkIsClearable(dir, tree[dir + "/" + JUNK]);
        var removed := Clear(dir + "/" + JUNK);
        if removed.Crash? {
          return Crash;
        }
      }
    }

    predicate IsEmptyDir(dir: string) reads this`tree {
      HoldsEmptyDir(tree, dir)
    }

    /// A directory the pass is done with: a job needs it, it is gone, or something is left in it.
    predicate IsSettled(dir: string) reads this`tree {
      Busy(dir) || !HoldsNothing(tree, dir)
    }

    /// `remove_dir`, once no folder row is left in the subtree.
    method RemoveEmptyDir(dir: string) returns (r: Reply<Unit>)
      requires Valid() && Harmless() && IsRemovableDir(dir) && IsUntracked(folders, dir)
      modifies this`tree, this`dirsGone, env
      ensures env.faults >= old(env.faults)
      ensures env.crashes == old(env.crashes) + if r.Crash? then 1 else 0
      ensures Valid() && Harmless() && RemembersDisk() && RemembersGone()
      ensures r.Ok? ==> dir !in tree
      ensures tree == old(tree) || (HoldsEmptyDir(old(tree), dir) && tree == old(tree) - {dir})
      ensures r.Ok? ==> dirsGone == old(dirsGone) + [dir]
      ensures r.Err? ==> dirsGone == old(dirsGone)
      ensures env.faults == old(env.faults) ==>
                !r.Crash? && !IsEmptyDir(dir) && (old(OnlyJunk(tree, dir)) || !OnlyJunk(tree, dir))
    {
      if !IsEmptyDir(dir) {
        return Err;
      }
      var applied;
      r, applied := env.Answer(true);
      if applied {
        LongerLogs(cleared, [], unlinked, [], dirsGone, [dir], began.tree, visits, tree);
        FileWent(cleared, unlinked, dirsGone + [dir], LastLeft(), tree, dir);
        tree := tree - {dir};
        dirsGone := dirsGone + [dir];
      }
    }

    method Note(entry: string, busy: bool, removed: bool)
      requires Harmless()
      requires removed && !busy ==> exists d :: d in dirsGone && entry == d + "/" && d !in tree
      modifies this`report
      ensures Harmless() && ReportGrows() && report.kept == old(report.kept)
      ensures entry in if busy then report.busy else if removed then report.removed else report.errors
    {
      report :=
        if busy then report.(busy := report.busy + [entry])
        else if removed then report.(removed := report.removed + [entry])
        else report.(errors := report.errors + [entry]);
    }

    /// The junk first, then the directory. `Err` leaves it.
    method ClearAndRemove(dir: string) returns (r: Reply<Unit>)
      requires ZonesAreScopes() && Valid() && Harmless() && IsRemovableDir(dir)
      requires IsUntracked(folders, dir)
      modifies this`tree, this`seen, this`visits, this`cleared, this`dirsGone, env
      ensures env.faults >= old(env.faults)
      ensures env.crashes == old(env.crashes) + if r.Crash? then 1 else 0
      ensures env.faults == old(env.faults) ==>
                !r.Crash? && !HoldsNothing(tree, dir) && LosesDir(old(tree), tree, dir)
      ensures Valid() && Harmless() && RemembersDisk() && RemembersGone()
      ensures r.Ok? ==> dirsGone == old(dirsGone) + [dir] && dir !in tree
      ensures r.Err? ==> dirsGone == old(dirsGone)
    {
      UserActs();
      r := RemoveJunk(dir);
      if r.Ok? {
        r := RemoveEmptyDir(dir);
      }
    }

    /// A job needs it, or no folder row is left for it; one that is left empty is an error.
    ghost predicate DirIsDone(dir: string) reads this`tree, this`folders, this`report {
      if Busy(dir) then dir + "/" in report.busy
      else IsUntracked(folders, dir) && (HoldsEmptyDir(tree, dir) ==> dir + "/" in report.errors)
    }

    /// What a complete pass does with the directories it was to empty.
    ghost predicate DirsAreReported(listing: seq<Entry>) reads this`folders, this`report, this`dirsGone {
      && GoneAreReported()
      && forall e :: e in listing && MustEmpty(listing, e) ==>
           if Busy(e.rel) then e.rel + "/" in report.busy else IsUntracked(folders, e.rel)
    }

    ghost predicate GoneAreReported() reads this`dirsGone, this`report {
      forall d :: d in dirsGone ==> d + "/" in report.removed
    }

    method RemoveExcludedDir(dir: string) returns (r: Reply<Unit>)
      requires ZonesAreScopes() && Valid() && Harmless() && zone(dir) == Excluded && IsUnignored(dir)
      modifies this`tree, this`seen, this`visits, this`folders, this`report, this`cleared, this`dirsGone, env
      ensures env.faults >= old(env.faults)
      ensures env.crashes == old(env.crashes) + if r.Crash? then 1 else 0
      ensures Valid() && Harmless() && folders <= old(folders) && RemembersDisk() && RemembersGone()
      ensures env.faults == old(env.faults) ==> r.Ok? && IsSettled(dir) && LosesDir(old(tree), tree, dir)
      ensures r.Ok? ==> DirIsDone(dir) && (old(GoneAreReported()) ==> GoneAreReported())
      ensures ReportGrows() && report.kept == old(report.kept)
      // Not empty is the expected outcome.
      ensures !Busy(dir) && dir in tree && !EmptyDir(tree, dir) ==> report == old(report)
    {
      if Busy(dir) {
        Note(dir + "/", true, false);
        return Ok(Unit);
      }
      r := UntrackFoldersSubtree(dir);
      if !r.Ok? {
        return;
      }
      var removed := ClearAndRemove(dir);
      if removed.Crash? {
        return Crash;
      }
      if removed.Ok? || (dir in tree && EmptyDir(tree, dir)) {
        Note(dir + "/", false, removed.Ok?);
      }
    }

    /// What a complete pass leaves in the index.
    ghost predicate IndexIsClean()
      reads this`folders, this`rows, this`remotes, this`keptTracked, this`tree, this`visits, this`dirsGone
    {
      && (forall k :: k in folders ==> zone(k) == Synced || Busy(k))
      && (forall p :: p in rows ==> MayStay(p))
      && forall p :: p in remotes ==> !FileExcluded(p) || Busy(p)
    }

    /// What holds for a listing once its files are dealt with and the index is clean.
    ghost predicate PassIsComplete(listing: seq<Entry>)
      reads this`report, this`folders, this`rows, this`remotes, this`keptTracked, this`keptOnline
      reads this`tree, this`visits, this`dirsGone, this`began, this`unlinked, this`listed
    {
      AllReported(listing) && IndexIsClean() && KeptAreStrangers() && DropsAreExplained()
    }

    /// The first directories are reported or untracked, and those that are gone are reported.
    ghost predicate AreDone(sorted: seq<(nat, string)>, n: nat)
      requires n <= |sorted|
      reads this`folders, this`report, this`dirsGone
    {
      && GoneAreReported()
      && forall j :: 0 <= j < n ==>
           if Busy(sorted[j].1) then sorted[j].1 + "/" in report.busy else IsUntracked(folders, sorted[j].1)
    }

    /// One more directory; the ones before it stay settled.
    method RemoveNextDir(sorted: seq<(nat, string)>, i: nat, ghost listing: seq<Entry>) returns (r: Reply<Unit>)
      requires ZonesAreScopes() && Valid() && Harmless() && PassIsComplete(listing)
      requires ChildrenFirst(sorted) && i < |sorted| && IsExcludedDepth(sorted[i])
      modifies this`tree, this`seen, this`visits, this`folders, this`report, this`cleared, this`dirsGone, env
      ensures env.faults >= old(env.faults)
      ensures env.crashes == old(env.crashes) + if r.Crash? then 1 else 0
      ensures env.faults == old(env.faults) ==> r.Ok? && tree.Keys <= old(tree).Keys
      ensures env.faults == old(env.faults) && (forall j :: 0 <= j < i ==> old(IsSettled(sorted[j].1))) ==>
                forall j :: 0 <= j <= i ==> IsSettled(sorted[j].1)
      ensures r.Ok? && old(AreDone(sorted, i)) ==> AreDone(sorted, i + 1)
      ensures Valid() && Harmless() && PassIsComplete(listing) && report.kept == old(report.kept) && ReportGrows()
    {
      ghost var before := tree;
      r := RemoveExcludedDir(sorted[i].1);
      ExplanationsStay(sorted[i].1);
      if env.faults == old(env.faults) {
        forall j | 0 <= j < i && !Busy(sorted[j].1) && !HoldsNothing(before, sorted[j].1)
          ensures IsSettled(sorted[j].1)
        {
          if sorted[j].1 != sorted[i].1 {
            OthersStayNonEmpty(before, tree, sorted[i].1, sorted[j].1);
          }
        }
      }
    }

    method RemoveExcludedDirs(ghost listing: seq<Entry>) returns (r: Reply<Unit>)
      requires ZonesAreScopes() && Valid() && Harmless() && forall d :: d in excludedDirs ==> IsExcludedDepth(d)
      requires PassIsComplete(listing) && AllDirsListed(listing) && dirsGone == []
      modifies this`tree, this`seen, this`visits, this`folders, this`report, this`cleared, this`dirsGone, env
      ensures env.faults >= old(env.faults)
      ensures env.crashes == old(env.crashes) + if r.Crash? then 1 else 0
      ensures env.faults == old(env.faults) ==> r.Ok? && tree.Keys <= old(tree).Keys && DirsAreSettled(listing)
      ensures r.Ok? ==> DirsAreReported(listing)
      ensures Valid() && Harmless() && PassIsComplete(listing) && report.kept == old(report.kept) && ReportGrows()
    {
      var sorted := SortDeepestFirst(excludedDirs);
      SortedDeepestFirst(excludedDirs);
      DeepestFirstIsChildrenFirst(excludedDirs);
      for i := 0 to |sorted|
        invariant env.faults >= old(env.faults) && env.crashes == old(env.crashes)
        invariant env.faults == old(env.faults) ==> tree.Keys <= old(tree).Keys
        invariant env.faults == old(env.faults) ==> forall j :: 0 <= j < i ==> IsSettled(sorted[j].1)
        invariant AreDone(sorted, i)
        invariant Valid() && Harmless() && PassIsComplete(listing)
        invariant report.kept == old(report.kept) && ReportGrows()
      {
        assert sorted[i] in sorted;
        r := RemoveNextDir(sorted, i, listing);
        if !r.Ok? {
          return;
        }
      }
      assert env.faults == old(env.faults) ==> forall d :: d in sorted ==> IsSettled(d.1);
      r := Ok(Unit);
    }

    // The whole pass.

    method ForgetLosses()
      modifies this`began, this`visits,
               this`cleared, this`unlinked, this`dirsGone
      requires report.removed == []
      ensures Harmless() && dirsGone == [] && began == Snapshot(tree, rows, remotes, folders)
    {
      began := Snapshot(tree, rows, remotes, folders);
      cleared, unlinked, dirsGone, visits := [], [], [], [];
      assert DiskIsAccountedFor() && UnlinksAreVerified() && RemovedAreGone();
      assert RowsOnlyDropped() && RemotesOnlyDropped() && FoldersOnlyDropped();
    }

    method Start(listing: seq<Entry>)
      requires Valid()
      modifies this`listed, this`report, this`keptTracked, this`excludedDirs, this`began, this`visits,
               this`cleared, this`unlinked, this`dirsGone, this`keptOnline
      ensures Walking() && DropsAreExplained() && excludedDirs == [] && report.errors == [] && listed == listing
      ensures began == Snapshot(tree, rows, remotes, folders)
    {
      report, keptTracked, excludedDirs, keptOnline, listed := Report([], [], [], []), {}, [], {}, listing;
      ForgetLosses();
    }

    /// The index part of the pass.
    method CleanIndex() returns (r: Reply<Unit>)
      requires Valid() && Harmless() && DropsAreExplained() && (cleanedFor == Some(signature) ==> NoExcludedRemotes())
      modifies this`tree, this`seen, this`visits, this`rows, this`remotes, this`folders, this`cleanedFor, env
      ensures env.faults >= old(env.faults)
      ensures env.crashes == old(env.crashes) + if r.Crash? then 1 else 0
      ensures env.faults == old(env.faults) ==> r.Ok? && tree == old(tree)
      ensures Valid() && Harmless() && DropsAreExplained() && (cleanedFor == Some(signature) ==> NoExcludedRemotes())
      ensures r.Ok? ==> IndexIsClean() && (NoExcludedRemotes() ==> cleanedFor == Some(signature))
    {
      r := DropFolderRows();
      if r.Ok? {
        r := DropLocalRows();
      }
      if r.Ok? {
        r := DropRemoteRows();
      }
    }

    /// The directories; what was dealt with before stays so.
    method FinishDirs(ghost listing: seq<Entry>, ghost toGo: set<string>, ghost toKeep: set<string>,
                      ghost out: set<string>)
      returns (r: Reply<Unit>)
      requires ZonesAreScopes() && Valid() && Harmless() && forall d :: d in excludedDirs ==> IsExcludedDepth(d)
      requires PassIsComplete(listing) && AllDirsListed(listing) && dirsGone == []
      modifies this`tree, this`seen, this`visits, this`folders, this`report, this`cleared, this`dirsGone, env
      ensures env.faults >= old(env.faults)
      ensures env.crashes == old(env.crashes) + if r.Crash? then 1 else 0
      ensures env.faults == old(env.faults) ==> r.Ok? && DirsAreSettled(listing)
      ensures env.faults == old(env.faults) && old(AllDealtWith(listing, toGo, toKeep, out)) ==>
                AllDealtWith(listing, toGo, toKeep, out)
      ensures r.Ok? ==> DirsAreReported(listing)
      ensures Valid() && Harmless() && PassIsComplete(listing)
    {
      r := RemoveExcludedDirs(listing);
      forall rel | old(IsDealtWith(rel, toGo, toKeep, out)) && tree.Keys <= old(tree).Keys
        ensures IsDealtWith(rel, toGo, toKeep, out)
      {
      }
    }

    /// What follows the walk: the index, then the directories.
    method FinishPass(ghost listing: seq<Entry>, ghost toGo: set<string>, ghost toKeep: set<string>,
                      ghost out: set<string>)
      returns (r: Reply<Unit>)
      requires ZonesAreScopes() && Valid() && Harmless() && forall d :: d in excludedDirs ==> IsExcludedDepth(d)
      requires DropsAreExplained() && (cleanedFor == Some(signature) ==> NoExcludedRemotes())
      requires KeptAreStrangers() && AllReported(listing) && AllDirsListed(listing) && dirsGone == []
      modifies this`tree, this`seen, this`visits, this`rows, this`remotes, this`folders, this`cleanedFor,
               this`report, this`cleared, this`dirsGone, env
      ensures env.faults >= old(env.faults)
      ensures env.crashes == old(env.crashes) + if r.Crash? then 1 else 0
      ensures env.faults == old(env.faults) ==> r.Ok? && DirsAreSettled(listing)
      ensures env.faults == old(env.faults) && old(AllDealtWith(listing, toGo, toKeep, out)) ==>
                AllDealtWith(listing, toGo, toKeep, out)
      ensures Valid() && Harmless() && KeptAreStrangers() && (cleanedFor == Some(signature) ==> NoExcludedRemotes())
      ensures r.Ok? ==> PassIsComplete(listing) && DirsAreReported(listing)
      ensures r.Ok? && NoExcludedRemotes() ==> cleanedFor == Some(signature)
    {
      r := CleanIndex();
      if r.Ok? {
        r := FinishDirs(listing, toGo, toKeep, out);
      }
    }

    method RunPass(listing: seq<Entry>) returns (r: Reply<Unit>)
      requires listed == listing && ZonesAreScopes() && Walking() && DropsAreExplained() && excludedDirs == []
      requires report.errors == []
      requires cleanedFor == Some(signature) ==> NoExcludedRemotes()
      modifies this`tree, this`seen, this`visits, this`rows, this`remotes, this`folders, this`cleanedFor,
               this`report, this`keptTracked,
               this`keptOnline, this`excludedDirs, this`cleared, this`unlinked, this`dirsGone, env
      ensures env.faults >= old(env.faults)
      ensures env.crashes == old(env.crashes) + if r.Crash? then 1 else 0
      ensures env.faults == old(env.faults) ==>
                && r.Ok? && AllDealtWith(listing, old(ToGo()), old(ToKeep(listing)), old(AllOut()))
                && DirsAreSettled(listing)
      ensures Valid() && Harmless() && KeptAreStrangers() && (cleanedFor == Some(signature) ==> NoExcludedRemotes())
      ensures r.Ok? ==> PassIsComplete(listing) && DirsAreReported(listing)
      ensures r.Ok? && NoExcludedRemotes() ==> cleanedFor == Some(signature)
    {
      ghost var toGo, toKeep, out := ToGo(), ToKeep(listing), AllOut();
      r := Walk(listing);
      if r.Ok? {
        r := FinishPass(listing, toGo, toKeep, out);
      }
    }

    lemma NothingIsExcluded()
      requires ZonesAreScopes() && IsInactive(filter)
      ensures NoExcludedRemotes()
    {
      forall p | p in remotes ensures !FileExcluded(p) {
        assert zone(p) == ScopeOf(f, filter, p);
      }
    }

    /// Without a filter: forget which filter the remote rows were cleaned for.
    method ForgetCleaned() returns (r: Reply<bool>)
      requires ZonesAreScopes() && IsInactive(filter)
      modifies this`cleanedFor, env
      ensures env.faults >= old(env.faults)
      ensures env.crashes == old(env.crashes) + if r.Crash? then 1 else 0
      ensures env.faults == old(env.faults) ==> r.Ok?
      ensures cleanedFor == old(cleanedFor) || cleanedFor == Some("")
      ensures r.Ok? ==> !r.value && (cleanedFor.Some? ==> cleanedFor.value == "")
      ensures NoExcludedRemotes()
    {
      NothingIsExcluded();
      r := Ok(false);
      if cleanedFor.Some? && cleanedFor.value != "" {
        var answer, applied := env.Answer(true);
        if applied {
          cleanedFor := Some("");
        }
        r := if answer.Ok? then Ok(false) else if answer.Err? then Err else Crash;
      }
    }

    /// `Ok(true)` when the pass ran to its end, `Ok(false)` when there was nothing for it to do: no filter, or
    /// no sync folder that is a directory (`rootIsReady`).
    method ApplyExclusions(listing: seq<Entry>, rootIsReady: bool) returns (r: Reply<bool>)
      requires ZonesAreScopes() && Valid() && (cleanedFor == Some(signature) ==> NoExcludedRemotes())
      modifies this, env
      ensures env.faults >= old(env.faults)
      ensures env.crashes == old(env.crashes) + if r.Crash? then 1 else 0
      // If nothing failed and the user kept still, every removable file is gone, every other file out of
      // scope is reported as kept, and an excluded directory is left only if a job needs it or something
      // is left in it.
      ensures env.faults == old(env.faults) ==>
                && r == Ok(!IsInactive(filter) && rootIsReady)
                && (r.value ==> AllDealtWith(listing, old(ToGo()), old(ToKeep(listing)), old(AllOut())))
                && (r.value ==> DirsAreSettled(listing))
      // On every exit, a crash included:
      ensures Valid() && Harmless() && KeptAreStrangers() && (cleanedFor == Some(signature) ==> NoExcludedRemotes())
      ensures began == old(Snapshot(tree, rows, remotes, folders)) && listed == listing
      // Without a filter, or a root to look at, it touches neither the disk nor the index:
      ensures IsInactive(filter) || !rootIsReady ==>
                r != Ok(true) && old(Snapshot(tree, rows, remotes, folders)) == Snapshot(tree, rows, remotes, folders)
      // When it ran to its end:
      ensures r == Ok(true) ==> PassIsComplete(listing) && DirsAreReported(listing)
      ensures r == Ok(true) && NoExcludedRemotes() ==> cleanedFor == Some(signature)
      // Without a filter, the note about cleaned remote rows is forgotten:
      ensures r.Ok? && IsInactive(filter) ==> r == Ok(false) && (cleanedFor.Some? ==> cleanedFor.value == "")
    {
      Start(listing);
      r := RunIfReady(listing, rootIsReady);
    }

    /// An unmounted or missing root is not an empty one.
    method RunIfReady(listing: seq<Entry>, rootIsReady: bool) returns (r: Reply<bool>)
      requires listed == listing && ZonesAreScopes() && Walking() && DropsAreExplained() && excludedDirs == []
      requires report.errors == []
      requires cleanedFor == Some(signature) ==> NoExcludedRemotes()
      modifies this`tree, this`seen, this`visits, this`rows, this`remotes, this`folders, this`cleanedFor,
               this`report, this`keptTracked,
               this`keptOnline, this`excludedDirs, this`cleared, this`unlinked, this`dirsGone, env
      ensures env.faults >= old(env.faults)
      ensures env.crashes == old(env.crashes) + if r.Crash? then 1 else 0
      ensures env.faults == old(env.faults) ==>
                && r == Ok(!IsInactive(filter) && rootIsReady)
                && (r.value ==> AllDealtWith(listing, old(ToGo()), old(ToKeep(listing)), old(AllOut())))
                && (r.value ==> DirsAreSettled(listing))
      ensures IsInactive(filter) || !rootIsReady ==>
                r != Ok(true) && old(Snapshot(tree, rows, remotes, folders)) == Snapshot(tree, rows, remotes, folders)
      ensures Valid() && Harmless() && KeptAreStrangers() && (cleanedFor == Some(signature) ==> NoExcludedRemotes())
      ensures r == Ok(true) ==> PassIsComplete(listing) && DirsAreReported(listing)
      ensures r == Ok(true) && NoExcludedRemotes() ==> cleanedFor == Some(signature)
      ensures r.Ok? && IsInactive(filter) ==> r == Ok(false) && (cleanedFor.Some? ==> cleanedFor.value == "")
    {
      if IsInactive(filter) {
        r := ForgetCleaned();
        return;
      }
      var read, _ := env.Answer(true);
      if !read.Ok? {
        return if read.Crash? then Crash else Err;
      }
      if !rootIsReady {
        return Ok(false);
      }
      var ran := RunPass(listing);
      r := if ran.Ok? then Ok(true) else if ran.Err? then Err else Crash;
    }

    /// The rows a complete pass leaves out of scope, of the files it met, are those of online-only files
    /// and of files that met an error; the others are busy.
    lemma RowsLeftAre(listing: seq<Entry>, e: Entry)
      requires ZonesAreScopes() && Harmless() && PassIsComplete(listing)
      requires e in listing && MustReport(listing, e) && !IsSidecarName(e.rel) && e.rel in rows && !Busy(e.rel)
      requires e.rel == "" || e.rel[|e.rel| - 1] != '/'
      ensures e.rel in report.errors || e.rel in keptOnline
    {
      assert Reported(e.rel) && MayStay(e.rel) && FileExcluded(e.rel) && !WasUnlinked(e.rel);
      forall d | d in dirsGone ensures e.rel != d + "/" {
        assert (d + "/")[|d|] == '/';
      }
    }

    /// Kept means untracked: after a complete pass, the only rows that name a kept file, in any
    /// spelling, are those of online-only files and of paths a job is busy with.
    lemma KeptIsUntracked(kept: string, row: string)
      requires ZonesAreScopes() && KeptAreStrangers() && kept in report.kept
      requires row in rows && MayStay(row) && fold(row) == fold(kept)
      ensures Busy(row) || kept in keptOnline
    {
      assert zone(row) == zone(kept) by {
        assert zone(row) == ScopeOf(f, filter, row) && zone(kept) == ScopeOf(f, filter, kept);
      }
    }
  }
}
