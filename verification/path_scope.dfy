// Selective-sync scope: where a path sits with respect to the include and exclude lists.
module PathScope {
  import opened Text

  datatype Scope = Synced | Excluded | Ancestor

  /// Both lists already folded, trimmed and free of empty entries (see `NewFilter`).
  datatype PrefixFilter = PrefixFilter(included: seq<string>, excluded: seq<string>)

  function FoldPrefixes(f: SegmentFold, list: seq<string>): (r: seq<string>)
  {
    if list == [] then []
    else
      var p := Fold(f, TrimSlashes(TrimSpaces(list[0])));
      (if p == "" then [] else [p]) + FoldPrefixes(f, list[1..])
  }

  function NewFilter(f: SegmentFold, included: seq<string>, excluded: seq<string>): PrefixFilter {
    PrefixFilter(FoldPrefixes(f, included), FoldPrefixes(f, excluded))
  }

  /// The form in which a path is compared.
  function Key(f: SegmentFold, relative: string): string {
    TrimSlashes(Fold(f, relative))
  }

  predicate IsInactive(filter: PrefixFilter) {
    filter.included == [] && filter.excluded == []
  }

  predicate Covered(path: string, prefixes: seq<string>) {
    exists p :: p in prefixes && UnderPrefix(path, p)
  }

  /// An entry of `prefixes` lies strictly below `path`.
  predicate HoldsEntry(path: string, prefixes: seq<string>) {
    exists p :: p in prefixes && p != path && (path == "" || UnderPrefix(p, path))
  }

  function ScopeOfKey(filter: PrefixFilter, path: string): Scope {
    if Covered(path, filter.excluded) then Excluded
    else if filter.included == [] || Covered(path, filter.included) then Synced
    else if HoldsEntry(path, filter.included) then Ancestor
    else Excluded
  }

  function ScopeOf(f: SegmentFold, filter: PrefixFilter, relative: string): Scope {
    if IsInactive(filter) then Synced else ScopeOfKey(filter, Key(f, relative))
  }

  function FileScope(f: SegmentFold, filter: PrefixFilter, relative: string): Scope {
    match ScopeOf(f, filter, relative)
    case Ancestor => Excluded
    case other => other
  }

  predicate ExcludedBeneath(f: SegmentFold, filter: PrefixFilter, relative: string) {
    filter.excluded != [] && ScopeOf(f, filter, relative) == Synced && HoldsEntry(Key(f, relative), filter.excluded)
  }

  /// `relative` lies at or below the folder `folder`.
  predicate Within(f: SegmentFold, relative: string, folder: string) {
    Key(f, folder) == "" || UnderPrefix(Key(f, relative), Key(f, folder))
  }

  // ---- Keys ----

  lemma {:induction false} TrimmedIsFixed(s: string)
    requires s == "" || (s[0] != '/' && s[|s| - 1] != '/')
    ensures TrimSlashes(s) == s
  {
  }

  lemma {:induction false} TrimEndKeepsSlashRun(s: string)
    ensures TrimEndSlashes(s) + s[|TrimEndSlashes(s)|..] == s
    ensures forall k :: |TrimEndSlashes(s)| <= k < |s| ==> s[k] == '/'
  {
    if s != "" && s[|s| - 1] == '/' {
      var front := s[..|s| - 1];
      TrimEndKeepsSlashRun(front);
      var trimmed := TrimEndSlashes(front);
      assert TrimEndSlashes(s) == trimmed && s == front + "/";
      assert s[|trimmed|..] == front[|trimmed|..] + "/";
      forall k | |trimmed| <= k < |s| ensures s[k] == '/' {
        assert k < |front| ==> s[k] == front[k];
      }
    }
  }

  lemma TrimJoin(a: string, c: string)
    requires TrimSlashes(a) != ""
    ensures UnderPrefix(TrimSlashes(a + "/" + c), TrimSlashes(a))
  {
    var x, rest := TrimStartSlashes(a), "/" + c;
    var p, t := TrimEndSlashes(x), TrimEndSlashes(rest);
    assert a + "/" + c == a + rest;
    TrimStartAppend(a, rest);
    TrimEndAppend(x, rest);
    TrimEndKeepsSlashRun(x);
    if t != "" {
      assert TrimSlashes(a + "/" + c) == x + t;
      assert (x + t)[|p|] == if |p| < |x| then x[|p|] else t[0];
    }
  }

  /// A path made by joining names below a folder lies within that folder.
  lemma ChildIsWithin(f: SegmentFold, folder: string, child: string)
    ensures Within(f, folder + "/" + child, folder)
  {
    if Key(f, folder) != "" {
      FoldJoin(f, folder, child);
      TrimJoin(Fold(f, folder), Fold(f, child));
    }
  }

  /// Every entry of a folded list is the key of some path.
  lemma {:induction false} EntryIsAKey(f: SegmentFold, list: seq<string>, entry: string) returns (path: string)
    requires entry in FoldPrefixes(f, list)
    ensures entry != "" && Key(f, path) == entry
  {
    path := TrimSlashes(TrimSpaces(list[0]));
    if Fold(f, path) == entry && entry != "" {
      FoldIsTrimmed(f, TrimSpaces(list[0]));
      TrimmedIsFixed(entry);
    } else {
      path := EntryIsAKey(f, list[1..], entry);
    }
  }

  lemma {:induction false} TrimSlashesEnds(s: string)
    ensures var t := TrimSlashes(s); t != "" ==> t[0] != '/' && t[|t| - 1] != '/'
  {
  }

  lemma {:induction false} FoldEmptyHead(f: SegmentFold, s: string)
    ensures Fold(f, s) != "" ==> s != "" && (Fold(f, s)[0] == '/' <==> s[0] == '/')
  {
    var i := FirstSlash(s);
    if s != "" && i > 0 {
      assert s[..i] != "" && '/' !in s[..i];
      assert f(s[..i]) != "";
      assert f(s[..i])[0] in f(s[..i]);
      assert s[..i] == s || i < |s|;
    }
  }

  lemma {:induction false} FoldEmptyTail(f: SegmentFold, s: string)
    ensures s != "" <==> Fold(f, s) != ""
    ensures s != "" ==> (var r := Fold(f, s); r[|r| - 1] == '/' <==> s[|s| - 1] == '/')
  {
    var i := FirstSlash(s);
    if i == |s| {
      assert '/' !in s;
      if s != "" {
        assert f(s)[|f(s)| - 1] in f(s);
      }
    } else {
      var tail := s[i + 1..];
      var t := Fold(f, tail);
      FoldEmptyTail(f, tail);
      var r := f(s[..i]) + "/" + t;
      assert Fold(f, s) == r;
      if tail == "" {
        assert r[|r| - 1] == '/' && s[|s| - 1] == '/';
      } else {
        assert r[|r| - 1] == t[|t| - 1] && s[|s| - 1] == tail[|tail| - 1];
      }
    }
  }

  lemma FoldIsTrimmed(f: SegmentFold, raw: string)
    ensures var r := Fold(f, TrimSlashes(raw)); r == "" || (r[0] != '/' && r[|r| - 1] != '/')
  {
    TrimSlashesEnds(raw);
    FoldEmptyHead(f, TrimSlashes(raw));
    FoldEmptyTail(f, TrimSlashes(raw));
  }

  // ---- Zones ----

  ghost predicate NoEmptyEntry(filter: PrefixFilter) {
    "" !in filter.included && "" !in filter.excluded
  }

  lemma {:induction false} FoldedListHasNoEmptyEntry(f: SegmentFold, list: seq<string>)
    ensures "" !in FoldPrefixes(f, list)
  {
    if list != [] {
      FoldedListHasNoEmptyEntry(f, list[1..]);
    }
  }

  lemma NewFilterHasNoEmptyEntry(f: SegmentFold, included: seq<string>, excluded: seq<string>)
    ensures NoEmptyEntry(NewFilter(f, included, excluded))
  {
    FoldedListHasNoEmptyEntry(f, included);
    FoldedListHasNoEmptyEntry(f, excluded);
  }

  lemma CoverageInherited(path: string, folder: string, prefixes: seq<string>)
    requires UnderPrefix(path, folder) && Covered(folder, prefixes)
    ensures Covered(path, prefixes)
  {
    var p :| p in prefixes && UnderPrefix(folder, p);
    UnderPrefixTransitive(path, folder, p);
  }

  /// Coverage appears between a folder and what lies in it only through an entry in between.
  lemma CoverageGained(path: string, folder: string, prefixes: seq<string>)
    requires UnderPrefix(path, folder) && Covered(path, prefixes) && !Covered(folder, prefixes)
    ensures HoldsEntry(folder, prefixes)
  {
    var p :| p in prefixes && UnderPrefix(path, p);
    UnderPrefixComparable(path, folder, p);
    assert !UnderPrefix(folder, p);
    assert p != folder;
  }

  lemma EntryInherited(path: string, folder: string, prefixes: seq<string>)
    requires UnderPrefix(path, folder) && folder != "" && HoldsEntry(path, prefixes)
    ensures HoldsEntry(folder, prefixes)
  {
    var p :| p in prefixes && p != path && UnderPrefix(p, path);
    UnderPrefixTransitive(p, path, folder);
  }

  /// The sync root is Synced without an include list and an Ancestor with one.
  lemma RootIsNotExcluded(filter: PrefixFilter)
    requires NoEmptyEntry(filter)
    ensures ScopeOfKey(filter, "") == if filter.included == [] then Synced else Ancestor
  {
    if filter.included != [] {
      assert filter.included[0] in filter.included;
    }
  }

  /// The excluded zone is closed downwards: whatever lies within an Excluded path is Excluded.
  lemma ExcludedIsClosed(f: SegmentFold, filter: PrefixFilter, relative: string, folder: string)
    requires NoEmptyEntry(filter)
    requires Within(f, relative, folder) && ScopeOf(f, filter, folder) == Excluded
    ensures ScopeOf(f, filter, relative) == Excluded
  {
    var path, top := Key(f, relative), Key(f, folder);
    if top == "" {
      RootIsNotExcluded(filter);
    } else if Covered(top, filter.excluded) {
      CoverageInherited(path, top, filter.excluded);
    } else {
      if Covered(path, filter.included) {
        CoverageGained(path, top, filter.included);
      } else if HoldsEntry(path, filter.included) {
        EntryInherited(path, top, filter.included);
      }
    }
  }

  /// The synced zone is reachable: every folder above a Synced path is Synced or an Ancestor.
  lemma AboveSynced(f: SegmentFold, filter: PrefixFilter, relative: string, folder: string)
    requires NoEmptyEntry(filter)
    requires Within(f, relative, folder) && ScopeOf(f, filter, relative) == Synced
    ensures ScopeOf(f, filter, folder) != Excluded
  {
    if ScopeOf(f, filter, folder) == Excluded {
      ExcludedIsClosed(f, filter, relative, folder);
    }
  }

  /// What `excluded_beneath` refuses: only an exclude entry can lie below a Synced folder.
  lemma OnlyExcludesBeneathSynced(f: SegmentFold, filter: PrefixFilter, relative: string, folder: string)
    requires NoEmptyEntry(filter)
    requires Within(f, relative, folder) && ScopeOf(f, filter, folder) == Synced
    requires ScopeOf(f, filter, relative) != Synced
    ensures ExcludedBeneath(f, filter, folder) && ScopeOf(f, filter, relative) == Excluded
  {
    var path, top := Key(f, relative), Key(f, folder);
    if top == "" {
      RootIsNotExcluded(filter);
      var p :| p in filter.excluded && UnderPrefix(path, p);
      assert p != top;
      assert HoldsEntry(top, filter.excluded);
    } else {
      if filter.included != [] {
        CoverageInherited(path, top, filter.included);
      }
      assert Covered(path, filter.excluded);
      CoverageGained(path, top, filter.excluded);
    }
  }

  /// A Synced folder has an Excluded path within it exactly when `excluded_beneath` says so,
  /// so a walk that skips the other Synced folders misses no excluded path.
  lemma ExcludedBeneathIsExact(f: SegmentFold, included: seq<string>, excluded: seq<string>, folder: string)
    requires ScopeOf(f, NewFilter(f, included, excluded), folder) == Synced
    ensures var filter := NewFilter(f, included, excluded);
      ExcludedBeneath(f, filter, folder) <==>
      exists relative :: Within(f, relative, folder) && ScopeOf(f, filter, relative) == Excluded
  {
    var filter := NewFilter(f, included, excluded);
    NewFilterHasNoEmptyEntry(f, included, excluded);
    if ExcludedBeneath(f, filter, folder) {
      var top := Key(f, folder);
      var p :| p in filter.excluded && p != top && (top == "" || UnderPrefix(p, top));
      var relative := EntryIsAKey(f, excluded, p);
      assert UnderPrefix(p, p) && Covered(p, filter.excluded);
      assert Within(f, relative, folder) && ScopeOf(f, filter, relative) == Excluded;
    }
    if relative :| Within(f, relative, folder) && ScopeOf(f, filter, relative) == Excluded {
      OnlyExcludesBeneathSynced(f, filter, relative, folder);
    }
  }

  // ---- What the lists mean ----

  /// An entry as the user wrote it, without the spaces and slashes around it.
  function Stripped(raw: string): string {
    TrimSlashes(TrimSpaces(raw))
  }

  /// The components of a path, in the form in which they are compared.
  function Components(f: SegmentFold, path: string): seq<string> {
    FoldAll(f, Split(path))
  }

  /// The entry names something, and the path is that or lies below it, component by component.
  predicate LiesIn(f: SegmentFold, relative: string, raw: string) {
    Stripped(raw) != "" && Components(f, Stripped(raw)) <= Components(f, TrimSlashes(relative))
  }

  /// The path is the root or lies strictly above what the entry names.
  predicate LiesAbove(f: SegmentFold, relative: string, raw: string) {
    && Stripped(raw) != ""
    && (TrimSlashes(relative) == "" || Components(f, TrimSlashes(relative)) < Components(f, Stripped(raw)))
  }

  /// Folding and trimming commute: neither makes or loses a slash at an end.
  lemma {:induction false} FoldTrimsStart(f: SegmentFold, s: string)
    ensures TrimStartSlashes(Fold(f, s)) == Fold(f, TrimStartSlashes(s))
  {
    FoldEmptyHead(f, s);
    if s != "" && s[0] == '/' {
      FoldTrimsStart(f, s[1..]);
      assert Fold(f, s) == "/" + Fold(f, s[1..]);
    }
  }

  lemma FoldOfLastSlash(f: SegmentFold, front: string)
    ensures Fold(f, front + "/") == Fold(f, front) + "/"
  {
    FoldJoin(f, front, "");
    assert front + "/" + "" == front + "/";
    assert Fold(f, front) + "/" + "" == Fold(f, front) + "/";
  }

  lemma TrimEndOfSlash(s: string)
    ensures TrimEndSlashes(s + "/") == TrimEndSlashes(s)
  {
    assert (s + "/")[..|s|] == s;
  }

  lemma {:induction false} FoldTrimsEnd(f: SegmentFold, s: string)
    ensures TrimEndSlashes(Fold(f, s)) == Fold(f, TrimEndSlashes(s))
  {
    if s != "" && s[|s| - 1] == '/' {
      var front := s[..|s| - 1];
      assert s == front + "/";
      FoldOfLastSlash(f, front);
      TrimEndOfSlash(Fold(f, front));
      FoldTrimsEnd(f, front);
    } else {
      FoldEmptyTail(f, s);
    }
  }

  lemma KeyHasTheComponents(f: SegmentFold, relative: string)
    ensures Key(f, relative) == Fold(f, TrimSlashes(relative))
    ensures Split(Key(f, relative)) == Components(f, TrimSlashes(relative))
  {
    FoldTrimsStart(f, relative);
    FoldTrimsEnd(f, TrimStartSlashes(relative));
    SplitFold(f, TrimSlashes(relative));
  }

  lemma {:induction false} FoldedListHolds(f: SegmentFold, list: seq<string>, raw: string)
    requires raw in list && Stripped(raw) != ""
    ensures Fold(f, Stripped(raw)) in FoldPrefixes(f, list)
  {
    if raw == list[0] {
      FoldEmptyTail(f, Stripped(raw));
    } else {
      FoldedListHolds(f, list[1..], raw);
    }
  }

  lemma {:induction false} FoldedListIsOf(f: SegmentFold, list: seq<string>, entry: string) returns (raw: string)
    requires entry in FoldPrefixes(f, list)
    ensures raw in list && Stripped(raw) != "" && entry == Fold(f, Stripped(raw))
  {
    raw := list[0];
    FoldEmptyTail(f, Stripped(raw));
    if Stripped(raw) == "" || entry != Fold(f, Stripped(raw)) {
      raw := FoldedListIsOf(f, list[1..], entry);
    }
  }

  lemma CoveredMeans(f: SegmentFold, list: seq<string>, relative: string)
    ensures Covered(Key(f, relative), FoldPrefixes(f, list)) <==> exists raw :: raw in list && LiesIn(f, relative, raw)
  {
    KeyHasTheComponents(f, relative);
    if entry :| entry in FoldPrefixes(f, list) && UnderPrefix(Key(f, relative), entry) {
      var raw := FoldedListIsOf(f, list, entry);
      SplitFold(f, Stripped(raw));
      PrefixIsOfComponents(Key(f, relative), entry);
      assert LiesIn(f, relative, raw);
    }
    if raw :| raw in list && LiesIn(f, relative, raw) {
      FoldedListHolds(f, list, raw);
      SplitFold(f, Stripped(raw));
      PrefixIsOfComponents(Key(f, relative), Fold(f, Stripped(raw)));
    }
  }

  lemma AboveMeans(f: SegmentFold, relative: string, raw: string)
    requires Stripped(raw) != ""
    ensures var path, entry := Key(f, relative), Fold(f, Stripped(raw));
      entry != path && (path == "" || UnderPrefix(entry, path)) <==> LiesAbove(f, relative, raw)
  {
    var path, entry := Key(f, relative), Fold(f, Stripped(raw));
    KeyHasTheComponents(f, relative);
    FoldEmptyTail(f, TrimSlashes(relative));
    assert path == "" <==> TrimSlashes(relative) == "";
    FoldEmptyTail(f, Stripped(raw));
    assert entry != "";
    SplitFold(f, Stripped(raw));
    ProperPrefixIsOfComponents(entry, path);
  }

  lemma HoldsEntryMeans(f: SegmentFold, list: seq<string>, relative: string)
    ensures HoldsEntry(Key(f, relative), FoldPrefixes(f, list)) <==>
            exists raw :: raw in list && LiesAbove(f, relative, raw)
  {
    var path := Key(f, relative);
    if entry :| entry in FoldPrefixes(f, list) && entry != path && (path == "" || UnderPrefix(entry, path)) {
      var raw := FoldedListIsOf(f, list, entry);
      AboveMeans(f, relative, raw);
    }
    if raw :| raw in list && LiesAbove(f, relative, raw) {
      FoldedListHolds(f, list, raw);
      AboveMeans(f, relative, raw);
    }
  }

  lemma FoldedListIsEmptyExactlyWhen(f: SegmentFold, list: seq<string>)
    ensures FoldPrefixes(f, list) == [] <==> forall raw :: raw in list ==> Stripped(raw) == ""
  {
    var folded := FoldPrefixes(f, list);
    if folded != [] {
      var raw := FoldedListIsOf(f, list, folded[0]);
    }
    if raw :| raw in list && Stripped(raw) != "" {
      FoldedListHolds(f, list, raw);
    }
  }

  /// The zone of a path in terms of the two lists as the user wrote them, component by component:
  /// what an exclude entry names is Excluded with all below it, whatever is included; else what an
  /// include entry names is Synced with all below it, and everything is if nothing is named; else
  /// only what lies above an include entry is not Excluded.
  lemma ScopeMeans(f: SegmentFold, included: seq<string>, excluded: seq<string>, relative: string)
    ensures ScopeOf(f, NewFilter(f, included, excluded), relative) ==
      if exists raw :: raw in excluded && LiesIn(f, relative, raw) then Excluded
      else if forall raw :: raw in included ==> Stripped(raw) == "" then Synced
      else if exists raw :: raw in included && LiesIn(f, relative, raw) then Synced
      else if exists raw :: raw in included && LiesAbove(f, relative, raw) then Ancestor
      else Excluded
  {
    CoveredMeans(f, excluded, relative);
    CoveredMeans(f, included, relative);
    HoldsEntryMeans(f, included, relative);
    FoldedListIsEmptyExactlyWhen(f, included);
    FoldedListIsEmptyExactlyWhen(f, excluded);
  }

  // ---- First-upload markers beneath a folder ----

  /// The last `/` of a path, searched from the end.
  method LastSlash(path: string) returns (at: int)
    ensures -1 <= at < |path|
    ensures at >= 0 ==> path[at] == '/'
    ensures forall k :: at < k < |path| ==> path[k] != '/'
  {
    at := |path| - 1;
    while at >= 0 && path[at] != '/'
      invariant -1 <= at < |path|
      invariant forall k :: at < k < |path| ==> path[k] != '/'
    {
      at := at - 1;
    }
  }

  /// The path itself and every folder above it.
  method PathAndFolders(path: string) returns (marks: set<string>)
    ensures forall prefix :: prefix in marks <==> UnderPrefix(path, prefix)
  {
    marks := {path};
    var end := |path|;
    assert forall prefix :: UnderPrefix(path, prefix) && |prefix| >= end ==> prefix == path[..|prefix|] == path;
    var at := LastSlash(path[..end]);
    while at >= 0
      invariant -1 <= at < end <= |path|
      invariant at >= 0 ==> path[at] == '/'
      invariant forall k :: at < k < end ==> path[k] != '/'
      invariant forall prefix :: prefix in marks <==> UnderPrefix(path, prefix) && |prefix| >= end
      decreases at
    {
      assert UnderPrefix(path, path[..at]);
      assert forall prefix :: UnderPrefix(path, prefix) && at <= |prefix| < end ==>
        |prefix| == at && prefix == path[..at];
      marks := marks + {path[..at]};
      end := at;
      at := LastSlash(path[..end]);
      assert at >= 0 ==> path[..end][at] == path[at];
      assert forall k :: at < k < end ==> path[..end][k] == path[k];
    }
    assert forall prefix :: UnderPrefix(path, prefix) && |prefix| < end ==> path[|prefix|] == '/';
  }

  /// The marker set a deletion pass loads: every marked path and every folder above one, so that
  /// one lookup answers "is anything at or below this folder still waiting for its first upload?".
  method LoadUnconfirmed(paths: seq<string>) returns (unconfirmed: set<string>)
    ensures forall prefix :: prefix in unconfirmed <==> exists path :: path in paths && UnderPrefix(path, prefix)
  {
    unconfirmed := {};
    for i := 0 to |paths|
      invariant forall prefix :: prefix in unconfirmed <==>
        exists path :: path in paths[..i] && UnderPrefix(path, prefix)
    {
      var marks := PathAndFolders(paths[i]);
      unconfirmed := unconfirmed + marks;
      assert paths[..i + 1] == paths[..i] + [paths[i]];
    }
    assert paths[..|paths|] == paths;
  }
}
