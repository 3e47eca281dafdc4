// Strings with '/'-separated segments: the key arithmetic every other module builds on.
module Text {

  /// True if `path` equals `prefix` or lies under it, on a `/` boundary.
  predicate UnderPrefix(path: string, prefix: string) {
    prefix <= path && (|path| == |prefix| || path[|prefix|] == '/')
  }

  function TrimStartSlashes(s: string): (r: string)
    ensures |r| <= |s|
    ensures r != "" ==> r[0] != '/'
  {
    if s == "" || s[0] != '/' then s else TrimStartSlashes(s[1..])
  }

  function TrimEndSlashes(s: string): (r: string)
    ensures r <= s
    ensures r != "" ==> r[|r| - 1] != '/'
  {
    if s == "" || s[|s| - 1] != '/' then s else TrimEndSlashes(s[..|s| - 1])
  }

  function TrimSlashes(s: string): string {
    TrimEndSlashes(TrimStartSlashes(s))
  }

  /// The characters Unicode calls white space.
  predicate IsSpace(c: char) {
    '\t' <= c <= '\r' || c == ' ' || c == '\U{0085}' || c == '\U{00A0}' || c == '\U{1680}'
    || '\U{2000}' <= c <= '\U{200A}' || c == '\U{2028}' || c == '\U{2029}' || c == '\U{202F}'
    || c == '\U{205F}' || c == '\U{3000}'
  }

  function TrimStartSpaces(s: string): string {
    if s == "" || !IsSpace(s[0]) then s else TrimStartSpaces(s[1..])
  }

  function TrimEndSpaces(s: string): string {
    if s == "" || !IsSpace(s[|s| - 1]) then s else TrimEndSpaces(s[..|s| - 1])
  }

  function TrimSpaces(s: string): string {
    TrimEndSpaces(TrimStartSpaces(s))
  }

  /// The index of the first `/`, or the length of the string.
  function FirstSlash(s: string): (i: nat)
    ensures i <= |s|
    ensures forall k :: 0 <= k < i ==> s[k] != '/'
    ensures i < |s| ==> s[i] == '/'
  {
    if s == "" || s[0] == '/' then 0 else 1 + FirstSlash(s[1..])
  }

  /// A comparison form for one segment: it never makes a `/` and never makes or loses an
  /// empty segment. Lower case after NFC is one.
  ghost predicate KeepsSegments(f: string -> string) {
    f("") == "" && forall x :: '/' !in x ==> '/' !in f(x) && (f(x) == "" ==> x == "")
  }

  type SegmentFold = f: string -> string | KeepsSegments(f) witness (s: string) => s

  /// `fold` of a whole path: segment by segment, so every `/` stays where it is.
  function Fold(f: SegmentFold, s: string): string {
    var i := FirstSlash(s);
    if i == |s| then f(s) else f(s[..i]) + "/" + Fold(f, s[i + 1..])
  }

  lemma FirstSlashIs(s: string, i: nat)
    requires i <= |s| && (forall k :: 0 <= k < i ==> s[k] != '/') && (i < |s| ==> s[i] == '/')
    ensures FirstSlash(s) == i
  {
  }

  lemma FoldCons(f: SegmentFold, head: string, rest: string)
    requires '/' !in head
    ensures Fold(f, head + "/" + rest) == f(head) + "/" + Fold(f, rest)
  {
    var s := head + "/" + rest;
    FirstSlashIs(s, |head|);
    assert s[..|head|] == head && s[|head| + 1..] == rest;
  }

  lemma Reassociate(u: string, v: string, w: string)
    ensures (u + "/" + v) + "/" + w == u + "/" + (v + "/" + w)
  {
  }

  /// Folding commutes with joining on `/`.
  lemma {:induction false} FoldJoin(f: SegmentFold, a: string, b: string)
    ensures Fold(f, a + "/" + b) == Fold(f, a) + "/" + Fold(f, b)
  {
    var i := FirstSlash(a);
    if i == |a| {
      FoldCons(f, a, b);
    } else {
      var head, tail := a[..i], a[i + 1..];
      assert a == head + "/" + tail;
      Reassociate(head, tail, b);
      FoldCons(f, head, tail + "/" + b);
      FoldJoin(f, tail, b);
      FoldCons(f, head, tail);
      Reassociate(f(head), Fold(f, tail), Fold(f, b));
    }
  }

  /// The segments of a path: one more than it has `/`.
  function Split(s: string): (r: seq<string>)
    ensures r != []
    ensures forall seg :: seg in r ==> '/' !in seg
  {
    var i := FirstSlash(s);
    if i == |s| then [s] else [s[..i]] + Split(s[i + 1..])
  }

  function Join(segs: seq<string>): string
    requires segs != []
  {
    if |segs| == 1 then segs[0] else segs[0] + "/" + Join(segs[1..])
  }

  function FoldAll(f: SegmentFold, segs: seq<string>): (r: seq<string>)
    ensures |r| == |segs|
    ensures forall i :: 0 <= i < |r| ==> r[i] == f(segs[i])
  {
    seq(|segs|, i requires 0 <= i < |segs| => f(segs[i]))
  }

  lemma SplitCons(head: string, rest: string)
    requires '/' !in head
    ensures Split(head + "/" + rest) == [head] + Split(rest)
  {
    var s := head + "/" + rest;
    FirstSlashIs(s, |head|);
    assert s[..|head|] == head && s[|head| + 1..] == rest;
  }

  lemma SplitOne(s: string)
    requires '/' !in s
    ensures Split(s) == [s]
  {
    FirstSlashIs(s, |s|);
  }

  lemma JoinCons(head: string, rest: seq<string>)
    requires rest != []
    ensures Join([head] + rest) == head + "/" + Join(rest)
  {
    assert ([head] + rest)[1..] == rest;
  }

  lemma {:induction false} SplitJoin(segs: seq<string>)
    requires segs != [] && forall seg :: seg in segs ==> '/' !in seg
    ensures Split(Join(segs)) == segs
  {
    assert '/' !in segs[0];
    if |segs| == 1 {
      SplitOne(segs[0]);
    } else {
      SplitJoin(segs[1..]);
      SplitCons(segs[0], Join(segs[1..]));
    }
  }

  lemma {:induction false} JoinSplit(s: string)
    ensures Join(Split(s)) == s
  {
    var i := FirstSlash(s);
    if i < |s| {
      var head, tail := s[..i], s[i + 1..];
      assert s == head + "/" + tail;
      JoinSplit(tail);
      JoinCons(head, Split(tail));
    }
  }

  lemma {:induction false} SplitAppend(a: string, b: string)
    ensures Split(a + "/" + b) == Split(a) + Split(b)
  {
    var i := FirstSlash(a);
    if i == |a| {
      SplitCons(a, b);
    } else {
      var head, tail := a[..i], a[i + 1..];
      assert a == head + "/" + tail;
      Reassociate(head, tail, b);
      SplitCons(head, tail + "/" + b);
      SplitAppend(tail, b);
    }
  }

  lemma {:induction false} JoinAppend(xs: seq<string>, ys: seq<string>)
    requires xs != [] && ys != []
    ensures Join(xs + ys) == Join(xs) + "/" + Join(ys)
  {
    if |xs| == 1 {
      JoinCons(xs[0], ys);
      assert xs + ys == [xs[0]] + ys;
    } else {
      JoinAppend(xs[1..], ys);
      assert xs + ys == [xs[0]] + (xs[1..] + ys);
      JoinCons(xs[0], xs[1..] + ys);
      Reassociate(xs[0], Join(xs[1..]), Join(ys));
    }
  }

  lemma FoldAllCons(f: SegmentFold, head: string, rest: seq<string>)
    ensures FoldAll(f, [head] + rest) == [f(head)] + FoldAll(f, rest)
  {
  }

  /// Folding keeps the segments apart: the segments of the fold are the folds of the segments.
  lemma {:induction false} SplitFold(f: SegmentFold, s: string)
    ensures Split(Fold(f, s)) == FoldAll(f, Split(s))
  {
    var i := FirstSlash(s);
    if i == |s| {
      SplitOne(f(s));
    } else {
      var head, tail := s[..i], s[i + 1..];
      assert s == head + "/" + tail;
      SplitFold(f, tail);
      SplitCons(f(head), Fold(f, tail));
      FoldAllCons(f, head, Split(tail));
    }
  }

  lemma {:induction false} TrimEndAppend(x: string, y: string)
    ensures TrimEndSlashes(x + y) == if TrimEndSlashes(y) == "" then TrimEndSlashes(x) else x + TrimEndSlashes(y)
  {
    if y == "" {
      assert x + y == x;
    } else if y[|y| - 1] == '/' {
      assert (x + y)[..|x + y| - 1] == x + y[..|y| - 1];
      TrimEndAppend(x, y[..|y| - 1]);
    }
  }

  lemma {:induction false} TrimStartAppend(x: string, y: string)
    ensures TrimStartSlashes(x + y) ==
      if TrimStartSlashes(x) == "" then TrimStartSlashes(y) else TrimStartSlashes(x) + y
  {
    if x == "" {
      assert x + y == y;
    } else if x[0] == '/' {
      assert (x + y)[1..] == x[1..] + y;
      TrimStartAppend(x[1..], y);
    }
  }

  lemma {:induction false} TrimSidesCommute(s: string)
    ensures TrimEndSlashes(TrimStartSlashes(s)) == TrimStartSlashes(TrimEndSlashes(s))
  {
    if s != "" && s[0] == '/' {
      TrimSidesCommute(s[1..]);
      assert s == "/" + s[1..];
      TrimEndAppend("/", s[1..]);
      assert TrimEndSlashes("/") == "";
    } else if TrimEndSlashes(s) != "" {
      assert TrimEndSlashes(s)[0] == s[0];
    }
  }

  lemma UnderPrefixTransitive(a: string, b: string, c: string)
    requires UnderPrefix(a, b) && UnderPrefix(b, c)
    ensures UnderPrefix(a, c)
  {
    assert a[..|c|] == b[..|c|];
  }

  /// Two prefixes of one path lie one under the other.
  lemma UnderPrefixComparable(path: string, p: string, q: string)
    requires UnderPrefix(path, p) && UnderPrefix(path, q)
    ensures UnderPrefix(p, q) || UnderPrefix(q, p)
  {
    if |q| <= |p| {
      assert p[..|q|] == path[..|q|];
    } else {
      assert q[..|p|] == path[..|p|];
    }
  }

  lemma BelowHasMoreComponents(path: string, prefix: string)
    requires UnderPrefix(path, prefix) && path != prefix
    ensures Split(prefix) < Split(path)
  {
    var rest := path[|prefix| + 1..];
    assert path == prefix + "/" + rest;
    SplitAppend(prefix, rest);
  }

  lemma JoinOfMoreIsBelow(head: seq<string>, all: seq<string>)
    requires [] < head < all
    ensures UnderPrefix(Join(all), Join(head)) && Join(all) != Join(head)
  {
    assert all == head + all[|head|..];
    JoinAppend(head, all[|head|..]);
  }

  /// Lying at or under a path means having its components first.
  lemma ProperPrefixIsOfComponents(path: string, prefix: string)
    ensures path != prefix && UnderPrefix(path, prefix) <==> Split(prefix) < Split(path)
  {
    if path != prefix && UnderPrefix(path, prefix) {
      BelowHasMoreComponents(path, prefix);
    } else if Split(prefix) < Split(path) {
      JoinOfMoreIsBelow(Split(prefix), Split(path));
      JoinSplit(path);
      JoinSplit(prefix);
    }
  }

  lemma PrefixIsOfComponents(path: string, prefix: string)
    ensures UnderPrefix(path, prefix) <==> Split(prefix) <= Split(path)
  {
    ProperPrefixIsOfComponents(path, prefix);
    if Split(prefix) == Split(path) {
      JoinSplit(path);
      JoinSplit(prefix);
    }
  }
}
