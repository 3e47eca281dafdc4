// The listing sweep of one folder: a `.cloudsc` entry for every remote child without a local
// representation, then the removal of the entries whose target is no longer listed.
module Sweep {
  import opened Common
  import opened Text
  import opened PathScope
  import opened SidecarName

  datatype Node = RealFile | RealFolder | Sidecar(remote: string, isFolder: bool)

  type Directory = map<string, Node>

  /// One entry of a `list_folder` page.
  datatype Listed = Listed(pathDisplay: Option<string>, isFolder: bool)

  /// Scope, comparison form and acceptable local names, as functions.
  datatype Rules = Rules(zone: string -> Scope, fold: string -> string, safe: string -> bool)

  function ChildName(pathDisplay: string): string {
    var segs := Split(TrimEndSlashes(pathDisplay));
    segs[|segs| - 1]
  }

  /// The child stays in the listing's name set: synced, or a folder on the way to an include.
  predicate IsKept(rules: Rules, e: Listed) {
    e.pathDisplay.Some? &&
    match rules.zone(e.pathDisplay.value)
    case Synced => true
    case Ancestor => e.isFolder
    case Excluded => false
  }

  /// The child is to be represented on disk.
  predicate IsWanted(rules: Rules, e: Listed) {
    && e.pathDisplay.Some? && rules.zone(e.pathDisplay.value) == Synced
    && rules.safe(ChildName(e.pathDisplay.value))
  }

  /// By its `.cloudsc` entry or by something real. An empty name is the directory itself.
  predicate Represented(dir: Directory, child: string) {
    child + SUFFIX in dir || child == "" || child in dir
  }

  function KeptNames(rules: Rules, entries: seq<Listed>): set<string> {
    set e | e in entries && IsKept(rules, e) :: rules.fold(ChildName(e.pathDisplay.value))
  }

  function NameKept(rules: Rules, e: Listed): set<string> {
    if IsKept(rules, e) then {rules.fold(ChildName(e.pathDisplay.value))} else {}
  }

  function Visit(rules: Rules, dir: Directory, e: Listed): Directory {
    if IsWanted(rules, e) && !Represented(dir, ChildName(e.pathDisplay.value)) then
      dir[ChildName(e.pathDisplay.value) + SUFFIX := Sidecar(e.pathDisplay.value, e.isFolder)]
    else dir
  }

  function Materialized(rules: Rules, dir: Directory, entries: seq<Listed>): Directory
    decreases |entries|
  {
    if entries == [] then dir else Materialized(rules, Visit(rules, dir, entries[0]), entries[1..])
  }

  /// A file named as a sidecar whose target is not kept. What it holds is not looked at.
  predicate Prunable(rules: Rules, dir: Directory, kept: set<string>, name: string) {
    && name in dir && !dir[name].RealFolder?
    && IsSidecarName(name) && rules.fold(TargetOf(name)) !in kept
  }

  function Pruned(rules: Rules, dir: Directory, kept: set<string>): Directory {
    map name | name in dir && !Prunable(rules, dir, kept, name) :: dir[name]
  }

  function Swept(rules: Rules, dir: Directory, entries: seq<Listed>): Directory {
    Pruned(rules, Materialized(rules, dir, entries), KeptNames(rules, entries))
  }

  // ---- One sweep ----

  predicate Extends(dir: Directory, more: Directory) {
    forall name :: name in dir ==> name in more && more[name] == dir[name]
  }

  /// What the sweep adds: the `.cloudsc` entry of a wanted child.
  ghost predicate IsNewEntry(rules: Rules, entries: seq<Listed>, name: string, node: Node) {
    exists e :: e in entries && IsWanted(rules, e)
      && name == ChildName(e.pathDisplay.value) + SUFFIX && node == Sidecar(e.pathDisplay.value, e.isFolder)
  }

  lemma {:induction false} MaterializedAdds(rules: Rules, dir: Directory, entries: seq<Listed>)
    ensures var m := Materialized(rules, dir, entries);
      Extends(dir, m) && forall name :: name in m && name !in dir ==> IsNewEntry(rules, entries, name, m[name])
    decreases |entries|
  {
    if entries != [] {
      var next := Visit(rules, dir, entries[0]);
      var m := Materialized(rules, dir, entries);
      MaterializedAdds(rules, next, entries[1..]);
      forall name | name in m && name !in dir ensures IsNewEntry(rules, entries, name, m[name]) {
        if name in next {
          assert entries[0] in entries;
        } else {
          var e :| e in entries[1..] && IsWanted(rules, e)
            && name == ChildName(e.pathDisplay.value) + SUFFIX && m[name] == Sidecar(e.pathDisplay.value, e.isFolder);
          assert e in entries;
        }
      }
    }
  }

  lemma {:induction false} MaterializedAppend(rules: Rules, dir: Directory, xs: seq<Listed>, ys: seq<Listed>)
    ensures Materialized(rules, dir, xs + ys) == Materialized(rules, Materialized(rules, dir, xs), ys)
    decreases |xs|
  {
    if xs == [] {
      assert xs + ys == ys;
    } else {
      assert (xs + ys)[1..] == xs[1..] + ys;
      MaterializedAppend(rules, Visit(rules, dir, xs[0]), xs[1..], ys);
    }
  }

  lemma KeptNamesAppend(rules: Rules, xs: seq<Listed>, ys: seq<Listed>)
    ensures KeptNames(rules, xs + ys) == KeptNames(rules, xs) + KeptNames(rules, ys)
  {
  }

  /// A wanted child is kept, so its `.cloudsc` entry is never pruned.
  lemma WantedIsKept(rules: Rules, dir: Directory, entries: seq<Listed>, e: Listed)
    requires e in entries && IsWanted(rules, e)
    ensures rules.fold(ChildName(e.pathDisplay.value)) in KeptNames(rules, entries)
    ensures !Prunable(rules, dir, KeptNames(rules, entries), ChildName(e.pathDisplay.value) + SUFFIX)
  {
    SidecarNameIs(ChildName(e.pathDisplay.value));
    assert IsKept(rules, e);
  }

  /// Nothing the sweep adds is pruned.
  lemma AddedIsNotPruned(rules: Rules, dir: Directory, entries: seq<Listed>, name: string)
    requires name in Materialized(rules, dir, entries) && name !in dir
    ensures name in Swept(rules, dir, entries)
  {
    var m := Materialized(rules, dir, entries);
    MaterializedAdds(rules, dir, entries);
    var e :| e in entries && IsWanted(rules, e)
      && name == ChildName(e.pathDisplay.value) + SUFFIX && m[name] == Sidecar(e.pathDisplay.value, e.isFolder);
    WantedIsKept(rules, m, entries, e);
  }

  /// The sweep touches only files named as sidecars of children it does not keep; everything else
  /// stays as it is, and what is new is the entry of a wanted child.
  lemma SweepTouchesOnlySidecars(rules: Rules, dir: Directory, entries: seq<Listed>)
    ensures var after := Swept(rules, dir, entries);
      && (forall name :: name in dir ==>
           if Prunable(rules, dir, KeptNames(rules, entries), name) then name !in after
           else name in after && after[name] == dir[name])
      && (forall name :: name in after && name !in dir ==> IsNewEntry(rules, entries, name, after[name]))
  {
    MaterializedAdds(rules, dir, entries);
  }

  /// No sidecar is left whose target is not kept.
  lemma NoStaleSidecars(rules: Rules, dir: Directory, entries: seq<Listed>, name: string)
    ensures !Prunable(rules, Swept(rules, dir, entries), KeptNames(rules, entries), name)
  {
  }

  lemma {:induction false} VisitedIsRepresented(rules: Rules, dir: Directory, entries: seq<Listed>, e: Listed)
    requires e in entries && IsWanted(rules, e)
    ensures Represented(Materialized(rules, dir, entries), ChildName(e.pathDisplay.value))
    decreases |entries|
  {
    var next := Visit(rules, dir, entries[0]);
    if entries[0] == e {
      MaterializedAdds(rules, next, entries[1..]);
    } else {
      VisitedIsRepresented(rules, next, entries[1..], e);
    }
  }

  lemma {:induction false} NoEntryBesideSomethingReal(rules: Rules, dir: Directory, entries: seq<Listed>, child: string)
    requires child in dir && child + SUFFIX !in dir
    ensures child + SUFFIX !in Materialized(rules, dir, entries)
    decreases |entries|
  {
    if entries != [] {
      var next := Visit(rules, dir, entries[0]);
      if child + SUFFIX in next {
        SidecarNameIs(child);
        SidecarNameIs(ChildName(entries[0].pathDisplay.value));
      }
      NoEntryBesideSomethingReal(rules, next, entries[1..], child);
    }
  }

  /// After a sweep a wanted child is represented exactly when it was not a file that the sweep
  /// takes for a stale sidecar (a real file `y.cloudsc` while no `y` is kept).
  lemma RepresentedExactlyWhen(rules: Rules, dir: Directory, entries: seq<Listed>, e: Listed)
    requires e in entries && IsWanted(rules, e)
    ensures var child := ChildName(e.pathDisplay.value);
      Represented(Swept(rules, dir, entries), child) <==>
      IsSpared(rules, dir, entries, child)
  {
    var child, kept, m := ChildName(e.pathDisplay.value), KeptNames(rules, entries), Materialized(rules, dir, entries);
    MaterializedAdds(rules, dir, entries);
    VisitedIsRepresented(rules, dir, entries, e);
    WantedIsKept(rules, m, entries, e);
    if child in dir && child + SUFFIX !in dir {
      NoEntryBesideSomethingReal(rules, dir, entries, child);
    } else if child in m && child !in dir {
      AddedIsNotPruned(rules, dir, entries, child);
    }
  }

  /// The listing shows, at this name, something Synced, or a folder that leads to something included.
  ghost predicate IsListed(rules: Rules, entries: seq<Listed>, name: string) {
    exists e :: e in entries && ShowsName(rules, e, name)
  }

  predicate ShowsName(rules: Rules, e: Listed, name: string) {
    && e.pathDisplay.Some? && rules.fold(ChildName(e.pathDisplay.value)) == name
    && (rules.zone(e.pathDisplay.value) == Synced || (rules.zone(e.pathDisplay.value) == Ancestor && e.isFolder))
  }

  /// Something Synced, of a name that may be written.
  predicate IsSafeChild(rules: Rules, e: Listed) {
    && e.pathDisplay.Some? && rules.zone(e.pathDisplay.value) == Synced
    && rules.safe(ChildName(e.pathDisplay.value))
  }

  lemma KeptNamesAreListed(rules: Rules, entries: seq<Listed>, name: string)
    ensures name in KeptNames(rules, entries) <==> IsListed(rules, entries, name)
  {
    if e :| e in entries && ShowsName(rules, e, name) {
      assert IsKept(rules, e);
    }
  }

  /// In terms of the listing: every Synced child with a safe name, file or folder, is on disk afterwards,
  /// by an entry of its own kind if the sweep made it, unless it was a file taken for a stale sidecar.
  lemma EverySafeChildIsRepresented(rules: Rules, dir: Directory, entries: seq<Listed>, e: Listed)
    requires e in entries && IsSafeChild(rules, e)
    ensures var child, after := ChildName(e.pathDisplay.value), Swept(rules, dir, entries);
      child + SUFFIX in after || child == "" || child in after
      || (child in dir && !dir[child].RealFolder? && IsSidecarName(child)
          && !IsListed(rules, entries, rules.fold(TargetOf(child))))
  {
    assert IsWanted(rules, e);
    RepresentedExactlyWhen(rules, dir, entries, e);
    var child := ChildName(e.pathDisplay.value);
    if IsSidecarName(child) {
      KeptNamesAreListed(rules, entries, rules.fold(TargetOf(child)));
    }
  }

  /// And an entry on disk stays exactly when the listing shows what it stands for, the entry of a folder
  /// on the way to an include among them.
  lemma EntryStaysExactlyWhenListed(rules: Rules, dir: Directory, entries: seq<Listed>, name: string)
    requires name in dir && !dir[name].RealFolder? && IsSidecarName(name)
    ensures name in Swept(rules, dir, entries) <==> IsListed(rules, entries, rules.fold(TargetOf(name)))
  {
    SweepTouchesOnlySidecars(rules, dir, entries);
    KeptNamesAreListed(rules, entries, rules.fold(TargetOf(name)));
  }

  /// What is new stands for a Synced child with a safe name.
  lemma NewEntriesAreOfSyncedChildren(rules: Rules, dir: Directory, entries: seq<Listed>, name: string)
    requires name in Swept(rules, dir, entries) && name !in dir
    ensures exists e :: e in entries && IsSafeChild(rules, e) && name == ChildName(e.pathDisplay.value) + SUFFIX
              && Swept(rules, dir, entries)[name] == Sidecar(e.pathDisplay.value, e.isFolder)
  {
    SweepTouchesOnlySidecars(rules, dir, entries);
  }

  // ---- Sweeping again ----

  ghost predicate AllRepresented(rules: Rules, dir: Directory, entries: seq<Listed>) {
    forall e :: e in entries && IsWanted(rules, e) ==> Represented(dir, ChildName(e.pathDisplay.value))
  }

  /// Materializing adds nothing exactly when every wanted child is represented.
  lemma {:induction false} NothingToAddExactlyWhen(rules: Rules, dir: Directory, entries: seq<Listed>)
    ensures Materialized(rules, dir, entries) == dir <==> AllRepresented(rules, dir, entries)
    decreases |entries|
  {
    if entries != [] {
      var next := Visit(rules, dir, entries[0]);
      assert forall e :: e in entries <==> e == entries[0] || e in entries[1..];
      if next == dir {
        NothingToAddExactlyWhen(rules, dir, entries[1..]);
      } else {
        MaterializedAdds(rules, next, entries[1..]);
      }
    }
  }

  lemma StableWhenRepresented(rules: Rules, dir: Directory, entries: seq<Listed>)
    ensures var after := Swept(rules, dir, entries);
      Swept(rules, after, entries) == after <==> AllRepresented(rules, after, entries)
  {
    var after := Swept(rules, dir, entries);
    var m := Materialized(rules, after, entries);
    NothingToAddExactlyWhen(rules, after, entries);
    MaterializedAdds(rules, after, entries);
    forall name | name in m && name !in after ensures name in Swept(rules, after, entries) {
      AddedIsNotPruned(rules, after, entries, name);
    }
    assert forall name :: name in after ==> !Prunable(rules, after, KeptNames(rules, entries), name);
    if m != after {
      assert exists name :: name in m && name !in after;
    }
  }

  /// The child is no file that the sweep takes for a stale sidecar, or its own entry is there.
  predicate IsSpared(rules: Rules, dir: Directory, entries: seq<Listed>, child: string) {
    child == "" || child + SUFFIX in dir || !Prunable(rules, dir, KeptNames(rules, entries), child)
  }

  /// A second sweep changes nothing exactly when the folder has, for no wanted child without an
  /// entry, a file of that name that looks like the entry of a child that is not kept.
  lemma SweepIsStableExactlyWhen(rules: Rules, dir: Directory, entries: seq<Listed>)
    ensures var after := Swept(rules, dir, entries);
      Swept(rules, after, entries) == after <==>
      forall e :: e in entries && IsWanted(rules, e) ==> IsSpared(rules, dir, entries, ChildName(e.pathDisplay.value))
  {
    StableWhenRepresented(rules, dir, entries);
    forall e | e in entries && IsWanted(rules, e)
      ensures Represented(Swept(rules, dir, entries), ChildName(e.pathDisplay.value)) <==>
        IsSpared(rules, dir, entries, ChildName(e.pathDisplay.value))
    {
      RepresentedExactlyWhen(rules, dir, entries, e);
    }
  }

  /// A listed file that is itself named `y.cloudsc`, while no `y` is kept, is removed by the first
  /// sweep; the second adds its entry.
  lemma ListedFileMayBeRemoved(rules: Rules, y: string)
    requires y != "" && '/' !in y
    requires rules.zone("/" + (y + SUFFIX)) == Synced && rules.safe(y + SUFFIX)
    requires rules.fold(y) != rules.fold(y + SUFFIX)
    ensures var entries := [Listed(Some("/" + (y + SUFFIX)), false)];
      var after := Swept(rules, map[y + SUFFIX := RealFile], entries);
      IsWanted(rules, entries[0]) && after == map[] && Swept(rules, after, entries) != after
  {
    var name := y + SUFFIX;
    var e := Listed(Some("/" + name), false);
    var dir: Directory := map[name := RealFile];
    SidecarNameIs(y);
    ChildOfTop(name);
    assert e in [e] && IsKept(rules, e);
    assert KeptNames(rules, [e]) == {rules.fold(name)};
    assert Prunable(rules, dir, KeptNames(rules, [e]), name);
    NothingToAddExactlyWhen(rules, dir, [e]);
    assert AllRepresented(rules, dir, [e]);
    assert |name + SUFFIX| != |name|;
    SweepIsStableExactlyWhen(rules, dir, [e]);
    assert !IsSpared(rules, dir, [e], name);
  }

  /// Such a folder exists under the plainest rules.
  lemma NotEverySweepIsStable()
    ensures exists rules: Rules, dir, entries ::
      Swept(rules, Swept(rules, dir, entries), entries) != Swept(rules, dir, entries)
  {
    var rules := Rules(_ => Synced, s => s, _ => true);
    var entries := [Listed(Some("/" + ("y" + SUFFIX)), false)];
    ListedFileMayBeRemoved(rules, "y");
    var dir: Directory := map["y" + SUFFIX := RealFile];
    assert Swept(rules, Swept(rules, dir, entries), entries) != Swept(rules, dir, entries);
  }

  /// The child is named by the last component of its path.
  lemma ChildNameIsLast(parent: string, name: string)
    requires name != "" && '/' !in name
    ensures ChildName(parent + "/" + name) == name
  {
    var path := parent + "/" + name;
    assert path[|path| - 1] == name[|name| - 1];
    SplitAppend(parent, name);
    SplitOne(name);
  }

  lemma ChildOfTop(name: string)
    requires name != "" && '/' !in name
    ensures ChildName("/" + name) == name
  {
    var s := "/" + name;
    assert s[|s| - 1] == name[|name| - 1];
    assert TrimEndSlashes(s) == s && s[1..] == name && s[0] == '/';
    assert FirstSlash(s) == 0;
    assert FirstSlash(name) == |name|;
    assert Split(name) == [name];
  }

  /// Two sweeps always reach the fixed point.
  lemma TwoSweepsAreStable(rules: Rules, dir: Directory, entries: seq<Listed>)
    ensures var twice := Swept(rules, Swept(rules, dir, entries), entries);
      AllRepresented(rules, twice, entries) && Swept(rules, twice, entries) == twice
  {
    var once := Swept(rules, dir, entries);
    var twice := Swept(rules, once, entries);
    forall e | e in entries && IsWanted(rules, e) ensures Represented(twice, ChildName(e.pathDisplay.value)) {
      NoStaleSidecars(rules, dir, entries, ChildName(e.pathDisplay.value));
      RepresentedExactlyWhen(rules, once, entries, e);
    }
    StableWhenRepresented(rules, once, entries);
  }

  // ---- The sweep of a folder on disk ----

  function Concat(pages: seq<seq<Listed>>): seq<Listed> {
    if pages == [] then [] else Concat(pages[..|pages| - 1]) + pages[|pages| - 1]
  }

  class LocalFolder {
    var dir: Directory
    const rules: Rules
    const env: Environment

    constructor (rules: Rules)
      ensures this.rules == rules && dir == map[]
    {
      this.rules := rules;
      dir := map[];
      env := new Environment();
    }

    /// Writing a `.cloudsc` entry; a failure may leave a torn file at its name.
    method WritePlaceholder(name: string, node: Node) returns (r: Reply<Unit>)
      requires name !in dir
      modifies this`dir, env
      ensures env.faults == old(env.faults) + if r.Ok? then 0 else 1
      ensures env.crashes == old(env.crashes) + if r.Crash? then 1 else 0
      ensures r.Ok? ==> dir == old(dir)[name := node]
      ensures Extends(old(dir), dir) && dir.Keys <= old(dir).Keys + {name}
    {
      var applied;
      r, applied := env.Answer(true);
      var torn: bool := *;
      if applied {
        dir := dir[name := node];
      } else if torn {
        dir := dir[name := RealFile];
      }
    }

    /// One entry of the listing.
    method VisitOne(e: Listed) returns (r: Reply<nat>)
      modifies this`dir, env
      ensures Extends(old(dir), dir)
      ensures r.Ok? ==> dir == Visit(rules, old(dir), e) && r.value == |dir| - |old(dir)|
      ensures if r.Ok? then env.faults == old(env.faults) else env.faults > old(env.faults)
      ensures env.crashes == old(env.crashes) + if r.Crash? then 1 else 0
    {
      if !IsWanted(rules, e) {
        return Ok(0);
      }
      var child := ChildName(e.pathDisplay.value);
      if Represented(dir, child) {
        return Ok(0);
      }
      var written := WritePlaceholder(child + SUFFIX, Sidecar(e.pathDisplay.value, e.isFolder));
      r := if written.Ok? then Ok(1) else if written.Err? then Err else Crash;
    }

    /// One page of the listing.
    method MaterializePage(entries: seq<Listed>, names: set<string>) returns (r: Reply<nat>, kept: set<string>)
      modifies this`dir, env
      ensures Extends(old(dir), dir)
      ensures r.Ok? ==> dir == Materialized(rules, old(dir), entries) && kept == names + KeptNames(rules, entries)
      ensures r.Ok? ==> r.value == |dir| - |old(dir)|
      ensures if r.Ok? then env.faults == old(env.faults) else env.faults > old(env.faults)
      ensures env.crashes == old(env.crashes) + if r.Crash? then 1 else 0
    {
      kept := names;
      var created := 0;
      ghost var before := dir;
      for i := 0 to |entries|
        invariant Extends(before, dir) && dir == Materialized(rules, before, entries[..i])
        invariant kept == names + KeptNames(rules, entries[..i])
        invariant 0 <= created == |dir| - |before|
        invariant env.faults == old(env.faults) && env.crashes == old(env.crashes)
      {
        var e := entries[i];
        assert entries[..i + 1] == entries[..i] + [e];
        MaterializedOneMore(rules, before, entries[..i], e);
        KeptOneMore(rules, entries[..i], e);
        kept := kept + NameKept(rules, e);
        var visited := VisitOne(e);
        if !visited.Ok? {
          r := visited;
          return;
        }
        created := created + visited.value;
      }
      assert entries[..|entries|] == entries;
      r := Ok(created);
    }

    /// Removes the named files; what would not go stays.
    method RemoveFiles(stale: set<string>) returns (crashed: bool, ghost gone: set<string>)
      modifies this`dir, env
      ensures gone <= stale && dir == old(dir) - gone
      ensures env.faults >= old(env.faults)
      ensures env.faults == old(env.faults) ==> !crashed && gone == stale
      // One that would not go keeps no other.
      ensures !crashed ==> |stale - gone| <= env.faults - old(env.faults)
      ensures env.crashes == old(env.crashes) + if crashed then 1 else 0
    {
      gone := {};
      assert dir == dir - gone;
      var pending := stale;
      while pending != {}
        invariant gone <= stale && pending <= stale && dir == old(dir) - gone
        invariant env.faults >= old(env.faults) && env.crashes == old(env.crashes)
        invariant gone !! pending && |stale - gone - pending| <= env.faults - old(env.faults)
        decreases |pending|
      {
        var name :| name in pending;
        pending := pending - {name};
        var removed, _ := env.Answer(true);
        if removed.Crash? {
          return true, gone;
        }
        if removed.Ok? {
          dir, gone := dir - {name}, gone + {name};
        }
      }
      crashed := false;
    }

    /// Only ever removes stale entries, and all of them if nothing fails.
    method Prune(kept: set<string>) returns (r: Reply<Unit>, ghost gone: set<string>)
      modifies this`dir, env
      ensures gone <= StaleNames(rules, old(dir), kept) && dir == old(dir) - gone
      ensures env.faults == old(env.faults) ==> r.Ok? && dir == Pruned(rules, old(dir), kept)
      ensures r.Err? ==> dir == old(dir)
      ensures r.Ok? ==> |StaleNames(rules, old(dir), kept) - gone| <= env.faults - old(env.faults)
      ensures env.faults >= old(env.faults)
      ensures env.crashes == old(env.crashes) + if r.Crash? then 1 else 0
    {
      gone := {};
      var applied;
      r, applied := env.Answer(true);
      assert dir == dir - gone;
      if !r.Ok? {
        return;
      }
      PrunedIs(rules, dir, kept);
      var crashed;
      crashed, gone := RemoveFiles(StaleNames(rules, dir, kept));
      r := if crashed then Crash else Ok(Unit);
    }

    /// All pages, and the prune only after the last one: a listing that fails removes nothing.
    method SweepPages(pages: seq<seq<Listed>>) returns (r: Reply<nat>)
      modifies this`dir, env
      ensures env.crashes == old(env.crashes) + if r.Crash? then 1 else 0
      ensures env.faults == old(env.faults) ==> r.Ok? && dir == Swept(rules, old(dir), Concat(pages))
      ensures r.Err? ==> Extends(old(dir), dir)
      // The answer counts the new entries.
      ensures r.Ok? ==> r.value == |Materialized(rules, old(dir), Concat(pages))| - |old(dir)|
      ensures forall name :: name in old(dir) ==>
        if name in dir then dir[name] == old(dir)[name]
        else Prunable(rules, old(dir), KeptNames(rules, Concat(pages)), name)
    {
      var created, names := ReadPages(pages);
      if !created.Ok? {
        return created;
      }
      ghost var full := dir;
      var pruned, gone := Prune(names);
      assert forall name :: name in old(dir) && name !in dir ==> Prunable(rules, full, names, name);
      r := if pruned.Ok? then created else if pruned.Err? then Err else Crash;
    }

    method ReadPages(pages: seq<seq<Listed>>) returns (r: Reply<nat>, names: set<string>)
      modifies this`dir, env
      ensures Extends(old(dir), dir)
      ensures r.Ok? ==> dir == Materialized(rules, old(dir), Concat(pages)) && names == KeptNames(rules, Concat(pages))
      ensures r.Ok? ==> r.value == |dir| - |old(dir)|
      ensures if r.Ok? then env.faults == old(env.faults) else env.faults > old(env.faults)
      ensures env.crashes == old(env.crashes) + if r.Crash? then 1 else 0
    {
      var created := 0;
      names := {};
      for i := 0 to |pages|
        invariant 0 <= created == |dir| - |old(dir)| && Extends(old(dir), dir)
        invariant env.faults == old(env.faults) && env.crashes == old(env.crashes)
        invariant dir == Materialized(rules, old(dir), Concat(pages[..i]))
        invariant names == KeptNames(rules, Concat(pages[..i]))
      {
        var fetched, _ := env.Answer(true);
        if !fetched.Ok? {
          r := if fetched.Err? then Err else Crash;
          return;
        }
        assert pages[..i + 1][..i] == pages[..i];
        MaterializedAppend(rules, old(dir), Concat(pages[..i]), pages[i]);
        KeptNamesAppend(rules, Concat(pages[..i]), pages[i]);
        var more;
        more, names := MaterializePage(pages[i], names);
        if !more.Ok? {
          r := more;
          return;
        }
        created := created + more.value;
      }
      assert pages[..|pages|] == pages;
      r := Ok(created);
    }
  }

  lemma MaterializedOneMore(rules: Rules, dir: Directory, entries: seq<Listed>, e: Listed)
    ensures Materialized(rules, dir, entries + [e]) == Visit(rules, Materialized(rules, dir, entries), e)
  {
    MaterializedAppend(rules, dir, entries, [e]);
    assert [e][1..] == [];
  }

  lemma KeptOneMore(rules: Rules, entries: seq<Listed>, e: Listed)
    ensures KeptNames(rules, entries + [e]) ==
      KeptNames(rules, entries) + NameKept(rules, e)
  {
    KeptNamesAppend(rules, entries, [e]);
    assert forall x :: x in [e] <==> x == e;
  }

  function StaleNames(rules: Rules, dir: Directory, kept: set<string>): set<string> {
    set name | name in dir && Prunable(rules, dir, kept, name)
  }

  lemma PrunedIs(rules: Rules, dir: Directory, kept: set<string>)
    ensures Pruned(rules, dir, kept) == dir - StaleNames(rules, dir, kept)
  {
  }
}
