// `.cloudsc` sidecars as evidence of a folder rename, and carrying that evidence across the move.
module Sidecars {
  import opened Common
  import opened SidecarName
  import opened Text

  /// A location on disk as its components.
  type Location = seq<string>

  /// A readable sidecar: where it is and the Dropbox path it stands for.
  datatype Entry = Entry(at: Location, remote: string)

  datatype Evidence = AllPointInto(count: nat) | Mismatch | NoEvidence

  predicate IsName(name: string) {
    name != "" && '/' !in name
  }

  /// A location a walk can report for a sidecar.
  ghost predicate IsSidecarLocation(at: Location) {
    at != [] && (forall name :: name in at ==> IsName(name)) && IsSidecarName(at[|at| - 1])
  }

  ghost predicate IsIndex(entries: seq<Entry>) {
    forall e :: e in entries ==> IsSidecarLocation(e.at)
  }

  function IntoPrefix(f: SegmentFold, oldRemote: string): string {
    Fold(f, TrimEndSlashes(oldRemote)) + "/"
  }

  predicate PointsInto(f: SegmentFold, remote: string, oldRemote: string) {
    IntoPrefix(f, oldRemote) <= Fold(f, remote)
  }

  predicate Matches(f: SegmentFold, tail: string, remote: string, oldRemote: string) {
    Fold(f, remote) == IntoPrefix(f, oldRemote) + Fold(f, tail)
  }

  // ---- Classification ----

  datatype Item = Item(tail: string, remote: string)

  ghost predicate NonePointsInto(f: SegmentFold, items: seq<Item>, oldRemote: string) {
    forall item :: item in items ==> !PointsInto(f, item.remote, oldRemote)
  }

  ghost predicate AllMatch(f: SegmentFold, items: seq<Item>, oldRemote: string) {
    forall item :: item in items ==> Matches(f, item.tail, item.remote, oldRemote)
  }

  /// What the items say about the folder: nothing, or all the same thing, or a mismatch.
  ghost function Classify(f: SegmentFold, items: seq<Item>, oldRemote: string): Evidence {
    if NonePointsInto(f, items, oldRemote) then NoEvidence
    else if AllMatch(f, items, oldRemote) then AllPointInto(|items|)
    else Mismatch
  }

  datatype Kind = Matched | OtherInto | Foreign

  function KindOf(f: SegmentFold, item: Item, oldRemote: string): Kind {
    var remote, into := Fold(f, item.remote), IntoPrefix(f, oldRemote);
    if remote == into + Fold(f, item.tail) then Matched
    else if into <= remote then OtherInto
    else Foreign
  }

  function Occurrences(kinds: seq<Kind>, kind: Kind): nat {
    if kinds == [] then 0
    else Occurrences(kinds[..|kinds| - 1], kind) + if kinds[|kinds| - 1] == kind then 1 else 0
  }

  lemma {:induction false} NoOccurrence(kinds: seq<Kind>, kind: Kind)
    ensures Occurrences(kinds, kind) == 0 <==> kind !in kinds
  {
    if kinds != [] {
      NoOccurrence(kinds[..|kinds| - 1], kind);
      assert kinds == kinds[..|kinds| - 1] + [kinds[|kinds| - 1]];
    }
  }

  lemma {:induction false} OccurrencesAddUp(kinds: seq<Kind>)
    ensures Occurrences(kinds, Matched) + Occurrences(kinds, OtherInto) + Occurrences(kinds, Foreign) == |kinds|
  {
    if kinds != [] {
      OccurrencesAddUp(kinds[..|kinds| - 1]);
    }
  }

  function Kinds(f: SegmentFold, items: seq<Item>, oldRemote: string): (kinds: seq<Kind>)
    ensures |kinds| == |items|
    ensures forall i :: 0 <= i < |items| ==> kinds[i] == KindOf(f, items[i], oldRemote)
  {
    seq(|items|, i requires 0 <= i < |items| => KindOf(f, items[i], oldRemote))
  }

  lemma KindsMean(f: SegmentFold, items: seq<Item>, oldRemote: string)
    ensures var kinds := Kinds(f, items, oldRemote);
      && (Matched !in kinds && OtherInto !in kinds <==> NonePointsInto(f, items, oldRemote))
      && (OtherInto !in kinds && Foreign !in kinds <==> AllMatch(f, items, oldRemote))
  {
    var kinds := Kinds(f, items, oldRemote);
    forall i | 0 <= i < |items|
      ensures kinds[i] == Foreign <==> !PointsInto(f, items[i].remote, oldRemote)
      ensures kinds[i] == Matched <==> Matches(f, items[i].tail, items[i].remote, oldRemote)
    {
    }
  }

  /// What the three counters say is what the items say.
  lemma CountsDecide(f: SegmentFold, items: seq<Item>, oldRemote: string)
    ensures var kinds := Kinds(f, items, oldRemote);
      var matched, otherInto := Occurrences(kinds, Matched), Occurrences(kinds, OtherInto);
      var foreign := Occurrences(kinds, Foreign);
      Classify(f, items, oldRemote) ==
        if matched == 0 && otherInto == 0 then NoEvidence
        else if otherInto == 0 && foreign == 0 then AllPointInto(matched)
        else Mismatch
  {
    var kinds := Kinds(f, items, oldRemote);
    NoOccurrence(kinds, Matched);
    NoOccurrence(kinds, OtherInto);
    NoOccurrence(kinds, Foreign);
    OccurrencesAddUp(kinds);
    KindsMean(f, items, oldRemote);
  }

  lemma OccurrencesOneMore(kinds: seq<Kind>, i: nat, kind: Kind)
    requires i < |kinds|
    ensures Occurrences(kinds[..i + 1], kind) == Occurrences(kinds[..i], kind) + if kinds[i] == kind then 1 else 0
  {
    assert kinds[..i + 1][..i] == kinds[..i];
  }

  /// The counting loop.
  method ClassifySidecars(f: SegmentFold, items: seq<Item>, oldRemote: string) returns (evidence: Evidence)
    ensures evidence == Classify(f, items, oldRemote)
  {
    ghost var kinds := Kinds(f, items, oldRemote);
    var matched, otherInto, foreign := 0, 0, 0;
    for i := 0 to |items|
      invariant matched == Occurrences(kinds[..i], Matched)
      invariant otherInto == Occurrences(kinds[..i], OtherInto)
      invariant foreign == Occurrences(kinds[..i], Foreign)
    {
      OccurrencesOneMore(kinds, i, Matched);
      OccurrencesOneMore(kinds, i, OtherInto);
      OccurrencesOneMore(kinds, i, Foreign);
      match KindOf(f, items[i], oldRemote)
      case Matched => matched := matched + 1;
      case OtherInto => otherInto := otherInto + 1;
      case Foreign => foreign := foreign + 1;
    }
    assert kinds[..|items|] == kinds;
    CountsDecide(f, items, oldRemote);
    evidence :=
      if matched == 0 && otherInto == 0 then NoEvidence
      else if otherInto == 0 && foreign == 0 then AllPointInto(matched)
      else Mismatch;
  }

  // ---- The index ----

  /// The path from `dir` to a sidecar, without the suffix.
  function TailFrom(dir: Location, at: Location): Option<string> {
    if !(dir <= at) || dir == at then None
    else
      var joined := Join(at[|dir|..]);
      if IsSidecarName(joined) then Some(TargetOf(joined)) else None
  }

  function ItemsUnder(entries: seq<Entry>, dir: Location): seq<Item> {
    if entries == [] then []
    else
      var tail := TailFrom(dir, entries[0].at);
      (if tail.Some? then [Item(tail.value, entries[0].remote)] else []) + ItemsUnder(entries[1..], dir)
  }

  ghost function EvidenceFor(f: SegmentFold, entries: seq<Entry>, dir: Location, oldRemote: string): Evidence {
    Classify(f, ItemsUnder(entries, dir), oldRemote)
  }

  predicate AnyPointsInto(f: SegmentFold, entries: seq<Entry>, oldRemote: string) {
    exists e :: e in entries && PointsInto(f, e.remote, oldRemote)
  }

  lemma {:induction false} JoinEndsWithLast(names: seq<string>)
    requires names != [] && IsSidecarName(names[|names| - 1])
    ensures IsSidecarName(Join(names))
  {
    if |names| > 1 {
      JoinEndsWithLast(names[1..]);
      var rest := Join(names[1..]);
      var joined := names[0] + "/" + rest;
      assert joined[|joined| - |SUFFIX|..] == rest[|rest| - |SUFFIX|..];
    }
  }

  lemma TailExists(dir: Location, at: Location)
    requires IsSidecarLocation(at)
    ensures TailFrom(dir, at).Some? <==> dir <= at && dir != at
  {
    if dir <= at && dir != at {
      assert at[|dir|..][|at| - |dir| - 1] == at[|at| - 1];
      JoinEndsWithLast(at[|dir|..]);
    }
  }

  lemma {:induction false} ItemsComeFromEntries(entries: seq<Entry>, dir: Location, item: Item)
    ensures item in ItemsUnder(entries, dir) <==>
      exists e :: e in entries && TailFrom(dir, e.at) == Some(item.tail) && e.remote == item.remote
  {
    if entries != [] {
      ItemsComeFromEntries(entries[1..], dir, item);
      assert forall e :: e in entries <==> e == entries[0] || e in entries[1..];
    }
  }

  /// A directory has evidence exactly when a sidecar strictly inside it points into the folder.
  lemma EvidenceMeansPointsInto(f: SegmentFold, entries: seq<Entry>, dir: Location, oldRemote: string)
    requires IsIndex(entries)
    ensures !EvidenceFor(f, entries, dir, oldRemote).NoEvidence? <==>
      exists e :: e in entries && dir <= e.at && dir != e.at && PointsInto(f, e.remote, oldRemote)
  {
    var items := ItemsUnder(entries, dir);
    if !EvidenceFor(f, entries, dir, oldRemote).NoEvidence? {
      var item :| item in items && PointsInto(f, item.remote, oldRemote);
      ItemsComeFromEntries(entries, dir, item);
      var e :| e in entries && TailFrom(dir, e.at) == Some(item.tail) && e.remote == item.remote;
      TailExists(dir, e.at);
    }
    if e :| e in entries && dir <= e.at && dir != e.at && PointsInto(f, e.remote, oldRemote) {
      TailExists(dir, e.at);
      var item := Item(TailFrom(dir, e.at).value, e.remote);
      ItemsComeFromEntries(entries, dir, item);
      assert item in items;
    }
  }

  /// Any sidecar of the walk points into the folder exactly when the walked root has evidence.
  lemma AnyPointsIntoMeansEvidence(f: SegmentFold, entries: seq<Entry>, root: Location, oldRemote: string)
    requires IsIndex(entries) && forall e :: e in entries ==> root <= e.at && root != e.at
    ensures AnyPointsInto(f, entries, oldRemote) <==> !EvidenceFor(f, entries, root, oldRemote).NoEvidence?
  {
    EvidenceMeansPointsInto(f, entries, root, oldRemote);
  }

  ghost predicate NoDuplicates(dirs: seq<Location>) {
    forall i, j :: 0 <= i < j < |dirs| ==> dirs[i] != dirs[j]
  }

  ghost predicate IsCandidate(f: SegmentFold, entries: seq<Entry>, oldRemote: string, root: Location, dir: Location) {
    && root <= dir && dir != root
    && exists e :: e in entries && dir <= e.at && dir != e.at && PointsInto(f, e.remote, oldRemote)
  }

  /// Adds every directory strictly between the root and a sidecar, deepest first.
  method AddAncestors(at: Location, root: Location, before: seq<Location>) returns (out: seq<Location>)
    requires at != [] && NoDuplicates(before)
    ensures NoDuplicates(out)
    ensures forall dir :: dir in out <==> dir in before || (root <= dir && dir != root && dir <= at && dir != at)
  {
    out := before;
    var k := |at| - 1;
    while k >= 0 && root <= at[..k] && at[..k] != root
      invariant -1 <= k < |at|
      invariant NoDuplicates(out)
      invariant forall dir :: dir in out <==>
        dir in before || (root <= dir && dir != root && dir <= at && k < |dir| < |at|)
      decreases k
    {
      var dir := at[..k];
      assert forall d :: d <= at && |d| == k ==> d == dir;
      if dir !in out {
        out := out + [dir];
      }
      k := k - 1;
    }
    if k >= 0 {
      assert forall dir :: root <= dir && dir <= at && |dir| <= k ==> root <= at[..k];
    }
  }

  method DirsHoldingSidecarsInto(f: SegmentFold, entries: seq<Entry>, oldRemote: string, root: Location)
    returns (out: seq<Location>)
    requires IsIndex(entries)
    ensures NoDuplicates(out)
    ensures forall dir :: dir in out <==>
      root <= dir && dir != root && !EvidenceFor(f, entries, dir, oldRemote).NoEvidence?
  {
    out := [];
    for i := 0 to |entries|
      invariant NoDuplicates(out)
      invariant forall dir :: dir in out <==> IsCandidate(f, entries[..i], oldRemote, root, dir)
    {
      assert entries[..i + 1] == entries[..i] + [entries[i]];
      assert entries[i] in entries;
      if PointsInto(f, entries[i].remote, oldRemote) {
        out := AddAncestors(entries[i].at, root, out);
      }
    }
    assert entries[..|entries|] == entries;
    forall dir
      ensures IsCandidate(f, entries, oldRemote, root, dir) <==>
        root <= dir && dir != root && !EvidenceFor(f, entries, dir, oldRemote).NoEvidence?
    {
      EvidenceMeansPointsInto(f, entries, dir, oldRemote);
    }
  }

  // ---- Rebasing ----

  predicate AllFoldEqual(f: SegmentFold, xs: seq<string>, ys: seq<string>)
    requires |xs| == |ys|
  {
    forall i :: 0 <= i < |xs| ==> Fold(f, xs[i]) == Fold(f, ys[i])
  }

  /// `remote` with the folder prefix replaced; `None` when it is not inside `oldRemote`.
  function Rebase(f: SegmentFold, remote: string, oldRemote: string, newRemote: string): Option<string> {
    var oldSegs, segs := Split(TrimSlashes(oldRemote)), Split(TrimStartSlashes(remote));
    if (forall s :: s in oldSegs ==> s == "") || |segs| < |oldSegs| then None
    else if !AllFoldEqual(f, oldSegs, segs[..|oldSegs|]) then None
    else
      var rest, base := segs[|oldSegs|..], TrimEndSlashes(newRemote);
      Some(if rest == [] then base else base + "/" + Join(rest))
  }

  lemma JoinExtend(base: string, segs: seq<string>, i: nat)
    requires 0 < i < |segs|
    ensures base + "/" + Join(segs[..i + 1]) == (base + "/" + Join(segs[..i])) + "/" + segs[i]
  {
    assert segs[..i + 1] == segs[..i] + [segs[i]];
    JoinAppend(segs[..i], [segs[i]]);
    Reassociate(base, Join(segs[..i]), segs[i]);
  }

  method AppendSegments(base: string, segs: seq<string>) returns (out: string)
    ensures out == if segs == [] then base else base + "/" + Join(segs)
  {
    out := base;
    for i := 0 to |segs|
      invariant out == if i == 0 then base else base + "/" + Join(segs[..i])
    {
      if i > 0 {
        JoinExtend(base, segs, i);
      } else {
        assert segs[..1] == [segs[0]];
      }
      out := out + "/" + segs[i];
    }
    assert segs[..|segs|] == segs;
  }

  method RebaseRemotePath(f: SegmentFold, remote: string, oldRemote: string, newRemote: string)
    returns (r: Option<string>)
    ensures r == Rebase(f, remote, oldRemote, newRemote)
  {
    var oldSegs, segs := Split(TrimSlashes(oldRemote)), Split(TrimStartSlashes(remote));
    if (forall s :: s in oldSegs ==> s == "") || |segs| < |oldSegs| {
      return None;
    }
    if !AllFoldEqual(f, oldSegs, segs[..|oldSegs|]) {
      return None;
    }
    var out := AppendSegments(TrimEndSlashes(newRemote), segs[|oldSegs|..]);
    r := Some(out);
  }

  /// Leading `/` are leading empty segments.
  function DropEmpty(segs: seq<string>): (r: seq<string>)
    requires segs != []
    ensures r != [] && |r| <= |segs|
  {
    if |segs| > 1 && segs[0] == "" then DropEmpty(segs[1..]) else segs
  }

  lemma {:induction false} SplitTrimStart(s: string)
    ensures Split(TrimStartSlashes(s)) == DropEmpty(Split(s))
  {
    var i := FirstSlash(s);
    if s != "" && s[0] == '/' {
      assert s == "" + "/" + s[1..];
      SplitCons("", s[1..]);
      SplitTrimStart(s[1..]);
    } else if i < |s| {
      assert Split(s)[0] == s[..i] && i > 0;
    }
  }

  lemma {:induction false} DropEmptyAppend(xs: seq<string>, ys: seq<string>)
    requires xs != [] && xs[|xs| - 1] != ""
    ensures DropEmpty(xs + ys) == DropEmpty(xs) + ys
  {
    if |xs| > 1 && xs[0] == "" {
      DropEmptyAppend(xs[1..], ys);
      assert (xs + ys)[1..] == xs[1..] + ys;
    }
  }

  lemma {:induction false} DropEmptyFolds(f: SegmentFold, xs: seq<string>, ys: seq<string>)
    requires xs != [] && |xs| == |ys| && FoldAll(f, xs) == FoldAll(f, ys)
    requires forall s :: s in xs || s in ys ==> '/' !in s
    ensures |DropEmpty(xs)| == |DropEmpty(ys)| && FoldAll(f, DropEmpty(xs)) == FoldAll(f, DropEmpty(ys))
  {
    assert f(xs[0]) == FoldAll(f, xs)[0] == FoldAll(f, ys)[0] == f(ys[0]);
    assert xs[0] in xs && ys[0] in ys;
    assert xs[0] == "" <==> ys[0] == "";
    if |xs| > 1 && xs[0] == "" {
      assert FoldAll(f, xs[1..]) == FoldAll(f, xs)[1..] == FoldAll(f, ys)[1..] == FoldAll(f, ys[1..]);
      DropEmptyFolds(f, xs[1..], ys[1..]);
    }
  }

  lemma FoldOfSegment(f: SegmentFold, s: string)
    requires '/' !in s
    ensures Fold(f, s) == f(s)
  {
    FirstSlashIs(s, |s|);
  }

  lemma {:induction false} LastSegment(s: string)
    requires s != "" && s[|s| - 1] != '/'
    ensures Split(s)[|Split(s)| - 1] != ""
  {
    var i := FirstSlash(s);
    if i < |s| {
      LastSegment(s[i + 1..]);
    }
  }

  lemma SameFoldFromSegments(f: SegmentFold, ys: seq<string>, tail: string)
    requires ys != [] && (forall s :: s in ys ==> '/' !in s) && FoldAll(f, ys) == FoldAll(f, Split(tail))
    ensures Fold(f, Join(ys)) == Fold(f, tail)
  {
    SplitJoin(ys);
    SplitFold(f, Join(ys));
    SplitFold(f, tail);
    JoinSplit(Fold(f, Join(ys)));
    JoinSplit(Fold(f, tail));
  }

  /// Segments that fold to those of two paths in a row fall into two parts.
  lemma FoldAllCut(f: SegmentFold, segs: seq<string>, a: seq<string>, b: seq<string>)
    returns (xs: seq<string>, ys: seq<string>)
    requires FoldAll(f, segs) == FoldAll(f, a) + FoldAll(f, b) && a != [] && b != []
    ensures segs == xs + ys && xs != [] && ys != [] && |xs| == |a|
    ensures FoldAll(f, xs) == FoldAll(f, a) && FoldAll(f, ys) == FoldAll(f, b)
  {
    var all := FoldAll(f, segs);
    xs, ys := segs[..|a|], segs[|a|..];
    assert FoldAll(f, xs) == all[..|a|];
    assert FoldAll(f, ys) == all[|a|..];
  }

  lemma SegmentsOfJoined(f: SegmentFold, path: string, head: string, tail: string)
    requires Fold(f, path) == Fold(f, head) + "/" + Fold(f, tail)
    ensures FoldAll(f, Split(path)) == FoldAll(f, Split(head)) + FoldAll(f, Split(tail))
  {
    SplitFold(f, path);
    SplitFold(f, head);
    SplitFold(f, tail);
    SplitAppend(Fold(f, head), Fold(f, tail));
  }

  /// The segments of a matching remote: the folder's, then the tail's, up to folding.
  lemma MatchingSegments(f: SegmentFold, tail: string, remote: string, oldRemote: string)
    returns (xs: seq<string>, ys: seq<string>)
    requires Matches(f, tail, remote, oldRemote)
    ensures Split(remote) == xs + ys && xs != [] && ys != []
    ensures |xs| == |Split(TrimEndSlashes(oldRemote))| && FoldAll(f, xs) == FoldAll(f, Split(TrimEndSlashes(oldRemote)))
    ensures FoldAll(f, ys) == FoldAll(f, Split(tail))
  {
    var o := TrimEndSlashes(oldRemote);
    SegmentsOfJoined(f, remote, o, tail);
    xs, ys := FoldAllCut(f, Split(remote), Split(o), Split(tail));
  }

  /// Without its leading `/`, a matching remote is the trimmed folder's segments and the tail's.
  lemma MatchingTrimmedSegments(f: SegmentFold, tail: string, remote: string, oldRemote: string)
    returns (xs: seq<string>, ys: seq<string>)
    requires Matches(f, tail, remote, oldRemote) && TrimEndSlashes(oldRemote) != ""
    ensures var oldSegs := Split(TrimSlashes(oldRemote));
      && Split(TrimStartSlashes(remote)) == xs + ys && ys != [] && FoldAll(f, ys) == FoldAll(f, Split(tail))
      && |xs| == |oldSegs| && FoldAll(f, oldSegs) == FoldAll(f, xs)
      && oldSegs[|oldSegs| - 1] != ""
  {
    var o := TrimEndSlashes(oldRemote);
    var oSegs, all := Split(o), Split(remote);
    xs, ys := MatchingSegments(f, tail, remote, oldRemote);
    LastSegment(o);
    var last := |xs| - 1;
    assert f(xs[last]) == FoldAll(f, xs)[last] == FoldAll(f, oSegs)[last] == f(oSegs[last]);
    assert oSegs[last] in oSegs && xs[last] == all[last] && all[last] in all;
    assert xs[last] != "";
    TrimSidesCommute(oldRemote);
    SplitTrimStart(o);
    SplitTrimStart(remote);
    DropEmptyAppend(xs, ys);
    assert forall s :: s in xs ==> s in all;
    DropEmptyFolds(f, xs, oSegs);
    DropEmptyKeepsLast(oSegs);
    xs := DropEmpty(xs);
  }

  /// `Rebase` on segments that start with the folder's, up to folding.
  lemma RebaseReplaces(f: SegmentFold, remote: string, oldRemote: string, newRemote: string, xs: seq<string>,
                       ys: seq<string>)
    requires Split(TrimStartSlashes(remote)) == xs + ys && ys != []
    requires var oldSegs := Split(TrimSlashes(oldRemote));
      |xs| == |oldSegs| && FoldAll(f, oldSegs) == FoldAll(f, xs) && oldSegs[|oldSegs| - 1] != ""
    ensures Rebase(f, remote, oldRemote, newRemote) == Some(TrimEndSlashes(newRemote) + "/" + Join(ys))
  {
    var oldSegs, segs := Split(TrimSlashes(oldRemote)), Split(TrimStartSlashes(remote));
    assert oldSegs[|oldSegs| - 1] in oldSegs;
    assert segs[..|oldSegs|] == xs && segs[|oldSegs|..] == ys;
    assert forall s :: s in xs ==> s in segs;
    SegmentsFoldEqual(f, oldSegs, xs);
  }

  /// A sidecar that names the old folder plus its tail names, once rebased, the new folder plus
  /// the same tail. The root (`/` alone) is the one folder that is never rebased.
  lemma RebaseKeepsTail(f: SegmentFold, tail: string, remote: string, oldRemote: string, newRemote: string)
    requires Matches(f, tail, remote, oldRemote) && TrimEndSlashes(oldRemote) != ""
    ensures var r := Rebase(f, remote, oldRemote, newRemote); r.Some? && Matches(f, tail, r.value, newRemote)
  {
    var xs, ys := MatchingTrimmedSegments(f, tail, remote, oldRemote);
    RebaseReplaces(f, remote, oldRemote, newRemote, xs, ys);
    var segs := Split(TrimStartSlashes(remote));
    assert forall s :: s in ys ==> s in segs;
    SameFoldFromSegments(f, ys, tail);
    FoldJoin(f, TrimEndSlashes(newRemote), Join(ys));
  }

  /// The Dropbox path is that of the folder or of something in it.
  predicate NamesWithin(f: SegmentFold, remote: string, folder: string) {
    TrimSlashes(folder) != "" && UnderPrefix(Fold(f, TrimStartSlashes(remote)), Fold(f, TrimSlashes(folder)))
  }

  lemma FoldEqualIsOfSegments(f: SegmentFold, xs: seq<string>, ys: seq<string>)
    requires |xs| == |ys| && forall s :: s in xs || s in ys ==> '/' !in s
    ensures AllFoldEqual(f, xs, ys) <==> FoldAll(f, xs) == FoldAll(f, ys)
  {
    forall s | s in xs || s in ys ensures Fold(f, s) == f(s) {
      FoldOfSegment(f, s);
    }
    if AllFoldEqual(f, xs, ys) {
      assert forall i :: 0 <= i < |xs| ==> FoldAll(f, xs)[i] == FoldAll(f, ys)[i];
    }
    if FoldAll(f, xs) == FoldAll(f, ys) {
      SegmentsFoldEqual(f, xs, ys);
    }
  }

  /// A trimmed path has only empty components when it is empty.
  lemma TrimmedHasComponents(s: string)
    requires s == "" || s[0] != '/'
    ensures (forall seg :: seg in Split(s) ==> seg == "") <==> s == ""
  {
    if s != "" {
      assert FirstSlash(s) > 0;
      assert Split(s)[0] == s[..FirstSlash(s)];
      assert Split(s)[0] in Split(s);
    } else {
      assert Split("") == [""];
    }
  }

  lemma TrimmedStart(s: string)
    ensures TrimSlashes(s) == "" || TrimSlashes(s)[0] != '/'
  {
  }

  lemma FirstSegmentsFoldEqual(f: SegmentFold, xs: seq<string>, segs: seq<string>)
    requires |xs| <= |segs| && forall s :: s in xs || s in segs ==> '/' !in s
    ensures AllFoldEqual(f, xs, segs[..|xs|]) <==> FoldAll(f, xs) <= FoldAll(f, segs)
  {
    var head := segs[..|xs|];
    assert forall s :: s in head ==> s in segs;
    assert FoldAll(f, segs)[..|xs|] == FoldAll(f, head);
    FoldEqualIsOfSegments(f, xs, head);
  }

  /// A path is rebased exactly when it names the folder or something in it.
  lemma RebasedExactlyWhenWithin(f: SegmentFold, remote: string, oldRemote: string, newRemote: string)
    ensures Rebase(f, remote, oldRemote, newRemote).Some? <==> NamesWithin(f, remote, oldRemote)
  {
    var was, path := TrimSlashes(oldRemote), TrimStartSlashes(remote);
    var oldSegs, segs := Split(was), Split(path);
    TrimmedStart(oldRemote);
    TrimmedHasComponents(was);
    assert NamesWithin(f, remote, oldRemote) <==> was != "" && FoldAll(f, oldSegs) <= FoldAll(f, segs) by {
      PrefixIsOfComponents(Fold(f, path), Fold(f, was));
      SplitFold(f, path);
      SplitFold(f, was);
    }
    if |segs| >= |oldSegs| {
      FirstSegmentsFoldEqual(f, oldSegs, segs);
    }
  }

  /// The folder itself becomes the new folder.
  lemma FolderItselfIsRebased(f: SegmentFold, remote: string, oldRemote: string, newRemote: string)
    requires NamesWithin(f, remote, oldRemote) && Fold(f, TrimStartSlashes(remote)) == Fold(f, TrimSlashes(oldRemote))
    ensures Rebase(f, remote, oldRemote, newRemote) == Some(TrimEndSlashes(newRemote))
  {
    RebasedExactlyWhenWithin(f, remote, oldRemote, newRemote);
    SplitFold(f, TrimStartSlashes(remote));
    SplitFold(f, TrimSlashes(oldRemote));
    var segs, oldSegs := Split(TrimStartSlashes(remote)), Split(TrimSlashes(oldRemote));
    assert |segs| == |oldSegs|;
    assert segs[|oldSegs|..] == [];
  }

  /// The root, however many `/` it is written with, is never rebased although everything points
  /// into it.
  lemma RootIsNotRebased(f: SegmentFold, remote: string, oldRemote: string, newRemote: string)
    requires TrimEndSlashes(oldRemote) == ""
    ensures Rebase(f, remote, oldRemote, newRemote) == None
  {
    TrimSidesCommute(oldRemote);
    assert TrimStartSlashes("") == "" && Split("") == [""];
  }

  lemma {:induction false} DropEmptyKeepsLast(segs: seq<string>)
    requires segs != []
    ensures DropEmpty(segs)[|DropEmpty(segs)| - 1] == segs[|segs| - 1]
  {
    if |segs| > 1 && segs[0] == "" {
      DropEmptyKeepsLast(segs[1..]);
    }
  }

  lemma SegmentsFoldEqual(f: SegmentFold, xs: seq<string>, ys: seq<string>)
    requires |xs| == |ys| && FoldAll(f, xs) == FoldAll(f, ys)
    requires forall s :: s in xs || s in ys ==> '/' !in s
    ensures AllFoldEqual(f, xs, ys)
  {
    forall i | 0 <= i < |xs| ensures Fold(f, xs[i]) == Fold(f, ys[i]) {
      FoldOfSegment(f, xs[i]);
      FoldOfSegment(f, ys[i]);
      assert f(xs[i]) == FoldAll(f, xs)[i] == FoldAll(f, ys)[i] == f(ys[i]);
    }
  }

  // ---- Rewriting after the move ----

  /// A file under the moved folder: a readable sidecar or one that cannot be read.
  datatype Content = Readable(remote: string) | Unreadable

  /// What the scan of a listing sees: the readable sidecars, in order.
  function Scan(files: map<Location, Content>, listing: seq<Location>): seq<Entry> {
    if listing == [] then []
    else
      var at := listing[0];
      (if at in files && files[at].Readable? then [Entry(at, files[at].remote)] else []) + Scan(files, listing[1..])
  }

  function RebasedContent(f: SegmentFold, c: Content, oldRemote: string, newRemote: string): Content {
    if c.Unreadable? then c
    else
      match Rebase(f, c.remote, oldRemote, newRemote)
      case None => c
      case Some(r) => Readable(r)
  }

  class SidecarTree {
    var files: map<Location, Content>

    const env: Environment

    constructor (files: map<Location, Content>)
      ensures this.files == files
    {
      this.files := files;
      env := new Environment();
    }

    /// A write that fails leaves the old sidecar or a torn, unreadable one.
    method Write(at: Location, remote: string) returns (ok: bool)
      requires at in files
      modifies this, env
      ensures env.faults == old(env.faults) + if ok then 0 else 1
      ensures || files == old(files)[at := Readable(remote)]
              || (!ok && (files == old(files) || files == old(files)[at := Unreadable]))
    {
      var written, applied := env.Answer(true);
      var torn: bool := *;
      ok := written.Ok?;
      if applied {
        files := files[at := Readable(remote)];
      } else if torn {
        files := files[at := Unreadable];
      }
    }

    /// Rewrites one sidecar, if it is readable and names something in the old folder.
    method RewriteOne(f: SegmentFold, at: Location, oldRemote: string, newRemote: string)
      returns (ok: bool, changed: bool)
      requires at in files
      modifies this, env
      ensures env.faults == old(env.faults) + if ok then 0 else 1
      ensures files.Keys == old(files.Keys)
      ensures forall p :: p in files && p != at ==> files[p] == old(files[p])
      ensures ok ==> files[at] == RebasedContent(f, old(files[at]), oldRemote, newRemote)
      ensures ok ==> (changed <==> files[at] != old(files[at]))
      ensures ok && !changed ==> files == old(files)
    {
      ok, changed := true, false;
      if files[at].Readable? {
        var rebased := RebaseRemotePath(f, files[at].remote, oldRemote, newRemote);
        if rebased.Some? && rebased.value != files[at].remote {
          ok := Write(at, rebased.value);
          changed := true;
        }
      }
    }

    /// Points every sidecar under the moved folder at the new Dropbox path.
    method RewriteSidecarsAfterMove(f: SegmentFold, listing: seq<Location>, oldRemote: string, newRemote: string)
      returns (rewritten: nat, failed: nat)
      requires forall i :: 0 <= i < |listing| ==> listing[i] in files
      requires forall i, j :: 0 <= i < j < |listing| ==> listing[i] != listing[j]
      modifies this, env
      ensures env.faults == old(env.faults) + failed
      ensures files.Keys == old(files.Keys)
      ensures failed == 0 ==> IsRewritten(f, old(files), files, listing, oldRemote, newRemote)
      ensures forall p :: p in files && p !in listing ==> files[p] == old(files[p])
      ensures failed == 0 ==> rewritten == |Differing(old(files), files)|
    {
      rewritten, failed := 0, 0;
      for i := 0 to |listing|
        invariant env.faults == old(env.faults) + failed
        invariant files.Keys == old(files.Keys)
        invariant failed == 0 ==> IsRewritten(f, old(files), files, listing[..i], oldRemote, newRemote)
        invariant forall p :: p in files && p !in listing[..i] ==> files[p] == old(files[p])
        invariant failed == 0 ==> rewritten == |Differing(old(files), files)|
      {
        assert listing[..i + 1] == listing[..i] + [listing[i]];
        assert listing[i] !in listing[..i];
        ghost var before := files;
        var ok, changed := RewriteOne(f, listing[i], oldRemote, newRemote);
        assert ok ==> Differing(old(files), files) ==
                      Differing(old(files), before) + if changed then {listing[i]} else {};
        if !ok {
          failed := failed + 1;
        } else if changed {
          rewritten := rewritten + 1;
        }
      }
      assert listing[..|listing|] == listing;
    }
  }

  ghost function Differing(before: map<Location, Content>, after: map<Location, Content>): set<Location> {
    set p | p in before && p in after && after[p] != before[p]
  }

  ghost predicate IsRewritten(f: SegmentFold, before: map<Location, Content>, after: map<Location, Content>,
                        listing: seq<Location>, oldRemote: string, newRemote: string) {
    forall p :: p in listing ==>
      p in before && p in after && after[p] == RebasedContent(f, before[p], oldRemote, newRemote)
  }

  /// A sidecar that names nothing in the old folder is left as it was.
  lemma OthersAreNotRewritten(f: SegmentFold, before: map<Location, Content>, after: map<Location, Content>,
                              listing: seq<Location>, oldRemote: string, newRemote: string, at: Location)
    requires IsRewritten(f, before, after, listing, oldRemote, newRemote) && at in listing
    requires before[at].Unreadable? || !NamesWithin(f, before[at].remote, oldRemote)
    ensures after[at] == before[at]
  {
    if before[at].Readable? {
      RebasedExactlyWhenWithin(f, before[at].remote, oldRemote, newRemote);
    }
  }

  /// Every sidecar that agreed before the rewrite agrees after it, and none is added or lost.
  lemma {:induction false} RewriteCarriesItems(f: SegmentFold, before: map<Location, Content>,
                                               after: map<Location, Content>, listing: seq<Location>, dir: Location,
                                               oldRemote: string, newRemote: string)
    requires IsRewritten(f, before, after, listing, oldRemote, newRemote) && TrimEndSlashes(oldRemote) != ""
    requires AllMatch(f, ItemsUnder(Scan(before, listing), dir), oldRemote)
    ensures AllMatch(f, ItemsUnder(Scan(after, listing), dir), newRemote)
    ensures |ItemsUnder(Scan(after, listing), dir)| == |ItemsUnder(Scan(before, listing), dir)|
  {
    if listing != [] {
      var at, rest := listing[0], listing[1..];
      var itemsBefore := ItemsUnder(Scan(before, rest), dir);
      assert IsRewritten(f, before, after, rest, oldRemote, newRemote);
      if before[at].Readable? && TailFrom(dir, at).Some? {
        var item := Item(TailFrom(dir, at).value, before[at].remote);
        ScanCons(before, listing, dir);
        assert ItemsUnder(Scan(before, listing), dir) == [item] + itemsBefore;
        assert item in [item] + itemsBefore && forall x :: x in itemsBefore ==> x in [item] + itemsBefore;
        RebaseKeepsTail(f, item.tail, item.remote, oldRemote, newRemote);
      } else {
        ScanCons(before, listing, dir);
      }
      ScanCons(after, listing, dir);
      RewriteCarriesItems(f, before, after, rest, dir, oldRemote, newRemote);
    }
  }

  lemma ItemsCons(e: Entry, rest: seq<Entry>, dir: Location)
    ensures ItemsUnder([e] + rest, dir) ==
      (if TailFrom(dir, e.at).Some? then [Item(TailFrom(dir, e.at).value, e.remote)] else []) + ItemsUnder(rest, dir)
  {
    assert ([e] + rest)[1..] == rest;
  }

  lemma ScanCons(files: map<Location, Content>, listing: seq<Location>, dir: Location)
    requires listing != [] && listing[0] in files
    ensures var at, rest := listing[0], ItemsUnder(Scan(files, listing[1..]), dir);
      ItemsUnder(Scan(files, listing), dir) ==
      if files[at].Readable? && TailFrom(dir, at).Some? then [Item(TailFrom(dir, at).value, files[at].remote)] + rest
      else rest
  {
    var at, rest := listing[0], Scan(files, listing[1..]);
    if files[at].Readable? {
      ItemsCons(Entry(at, files[at].remote), rest, dir);
    } else {
      assert Scan(files, listing) == rest;
    }
  }

  /// Evidence survives the move: if `n` sidecars all pointed into the old folder, a rewrite whose
  /// writes all succeed leaves `n` sidecars that all point into the new one.
  lemma RewriteCarriesEvidence(f: SegmentFold, before: map<Location, Content>, after: map<Location, Content>,
                               listing: seq<Location>, dir: Location, oldRemote: string, newRemote: string, n: nat)
    requires IsRewritten(f, before, after, listing, oldRemote, newRemote) && TrimEndSlashes(oldRemote) != ""
    requires EvidenceFor(f, Scan(before, listing), dir, oldRemote) == AllPointInto(n)
    ensures EvidenceFor(f, Scan(after, listing), dir, newRemote) == AllPointInto(n)
  {
    var items := ItemsUnder(Scan(after, listing), dir);
    RewriteCarriesItems(f, before, after, listing, dir, oldRemote, newRemote);
    assert items != [];
    assert items[0] in items;
    assert Matches(f, items[0].tail, items[0].remote, newRemote);
    assert PointsInto(f, items[0].remote, newRemote);
  }

  /// When neither folder lies inside the other, what names the new folder no longer points into
  /// the old one.
  lemma RebasedLeavesOldFolder(f: SegmentFold, tail: string, remote: string, oldRemote: string, newRemote: string)
    requires Matches(f, tail, remote, newRemote)
    requires var o, n := Fold(f, TrimEndSlashes(oldRemote)), Fold(f, TrimEndSlashes(newRemote));
      !UnderPrefix(n, o) && !UnderPrefix(o, n)
    ensures !PointsInto(f, remote, oldRemote)
  {
    var o, n, t := Fold(f, TrimEndSlashes(oldRemote)), Fold(f, TrimEndSlashes(newRemote)), Fold(f, tail);
    var r := n + "/" + t;
    assert n + "/" <= r;
    if o + "/" <= r {
      AboveOnePath(r, o, n);
    }
  }

  lemma AboveOnePath(path: string, a: string, b: string)
    requires a + "/" <= path && b + "/" <= path
    ensures UnderPrefix(a, b) || UnderPrefix(b, a)
  {
    assert path[..|a|] == (a + "/")[..|a|] == a && path[|a|] == (a + "/")[|a|];
    assert path[..|b|] == (b + "/")[..|b|] == b && path[|b|] == (b + "/")[|b|];
    UnderPrefixComparable(path, a, b);
  }

  /// So the directory has no evidence for the old folder any more.
  lemma RewriteLeavesOldFolder(f: SegmentFold, before: map<Location, Content>, after: map<Location, Content>,
                               listing: seq<Location>, dir: Location, oldRemote: string, newRemote: string, n: nat)
    requires IsRewritten(f, before, after, listing, oldRemote, newRemote) && TrimEndSlashes(oldRemote) != ""
    requires EvidenceFor(f, Scan(before, listing), dir, oldRemote) == AllPointInto(n)
    requires var o, n := Fold(f, TrimEndSlashes(oldRemote)), Fold(f, TrimEndSlashes(newRemote));
      !UnderPrefix(n, o) && !UnderPrefix(o, n)
    ensures EvidenceFor(f, Scan(after, listing), dir, oldRemote) == NoEvidence
  {
    var items := ItemsUnder(Scan(after, listing), dir);
    RewriteCarriesItems(f, before, after, listing, dir, oldRemote, newRemote);
    forall item | item in items ensures !PointsInto(f, item.remote, oldRemote) {
      assert Matches(f, item.tail, item.remote, newRemote);
      RebasedLeavesOldFolder(f, item.tail, item.remote, oldRemote, newRemote);
    }
  }

  /// A folder moved inside itself: every rewritten sidecar still points into the old folder.
  lemma RebasedInsideOldStillPoints(f: SegmentFold, tail: string, remote: string, oldRemote: string, newRemote: string)
    requires Matches(f, tail, remote, newRemote)
    requires UnderPrefix(Fold(f, TrimEndSlashes(newRemote)), Fold(f, TrimEndSlashes(oldRemote)))
    ensures PointsInto(f, remote, oldRemote)
  {
    var o, n, t := Fold(f, TrimEndSlashes(oldRemote)), Fold(f, TrimEndSlashes(newRemote)), Fold(f, tail);
    UnderPrefixInside(n, o, t);
  }

  lemma UnderPrefixInside(n: string, o: string, t: string)
    requires UnderPrefix(n, o)
    ensures o + "/" <= n + "/" + t
  {
    if n != o {
      var rest := n[|o| + 1..];
      assert n == o + "/" + rest;
      Reassociate(o, rest, t);
      assert n + "/" + t == (o + "/") + (rest + "/" + t);
    }
  }

  lemma PrefixAfter(head: string, x: string, y: string)
    ensures head + x <= head + y <==> x <= y
  {
    if head + x <= head + y {
      assert (head + y)[|head|..|head| + |x|] == y[..|x|];
      assert (head + x)[|head|..] == x;
    }
    if x <= y {
      assert head + y == (head + x) + y[|x|..];
    }
  }

  /// A folder moved onto an ancestor of itself: a rewritten sidecar points into the old folder
  /// exactly when its tail starts with the components the move dropped.
  lemma RebasedOntoAncestorPointsExactlyWhen(f: SegmentFold, tail: string, remote: string, oldRemote: string,
                                             newRemote: string, dropped: string)
    requires Matches(f, tail, remote, newRemote)
    requires Fold(f, TrimEndSlashes(oldRemote)) == Fold(f, TrimEndSlashes(newRemote)) + "/" + dropped
    ensures PointsInto(f, remote, oldRemote) <==> dropped + "/" <= Fold(f, tail)
  {
    var head := IntoPrefix(f, newRemote);
    assert IntoPrefix(f, oldRemote) == head + (dropped + "/");
    PrefixAfter(head, dropped + "/", Fold(f, tail));
  }

  /// Such sidecars exist for every folder moved onto an ancestor: `n/d` moved onto `n` with a
  /// sidecar for `n/d/d/t` in it is rewritten to name `n/d/t`.
  lemma RebasedOntoAncestorMayPoint(f: SegmentFold, newRemote: string, dropped: string, t: string)
    requires TrimEndSlashes(newRemote) == newRemote && dropped != "" && dropped[|dropped| - 1] != '/'
    ensures var oldRemote, tail := newRemote + "/" + dropped, dropped + "/" + t;
      var remote := oldRemote + "/" + tail;
      var r := Rebase(f, remote, oldRemote, newRemote);
      Matches(f, tail, remote, oldRemote) && r.Some? && PointsInto(f, r.value, oldRemote)
  {
    var oldRemote, tail := newRemote + "/" + dropped, dropped + "/" + t;
    var remote := oldRemote + "/" + tail;
    assert oldRemote[|oldRemote| - 1] == dropped[|dropped| - 1];
    FoldJoin(f, oldRemote, tail);
    RebaseKeepsTail(f, tail, remote, oldRemote, newRemote);
    FoldJoin(f, newRemote, dropped);
    FoldJoin(f, dropped, t);
    RebasedOntoAncestorPointsExactlyWhen(f, tail, Rebase(f, remote, oldRemote, newRemote).value, oldRemote, newRemote,
                                         Fold(f, dropped));
  }
}
