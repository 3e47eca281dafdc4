// Directories deepest first: the order in which empty-only removal can empty a tree.
module DepthOrder {

  ghost predicate DeepestFirst<T(!new)>(dirs: seq<(nat, T)>) {
    forall i, j :: 0 <= i < j < |dirs| ==> dirs[i].0 >= dirs[j].0
  }

  function InsertByDepth<T(==)>(dir: (nat, T), sorted: seq<(nat, T)>): (r: seq<(nat, T)>)
    ensures multiset(r) == multiset(sorted) + multiset{dir}
  {
    if sorted == [] then [dir]
    else if dir.0 >= sorted[0].0 then
      [dir] + sorted
    else
      assert sorted == [sorted[0]] + sorted[1..];
      [sorted[0]] + InsertByDepth(dir, sorted[1..])
  }

  function SortDeepestFirst<T(==)>(dirs: seq<(nat, T)>): (r: seq<(nat, T)>)
    ensures multiset(r) == multiset(dirs)
  {
    if dirs == [] then []
    else
      assert dirs == [dirs[0]] + dirs[1..];
      InsertByDepth(dirs[0], SortDeepestFirst(dirs[1..]))
  }

  lemma {:induction false} InsertKeepsOrder<T(!new)>(dir: (nat, T), sorted: seq<(nat, T)>)
    requires DeepestFirst(sorted)
    ensures DeepestFirst(InsertByDepth(dir, sorted))
  {
    if sorted != [] && dir.0 < sorted[0].0 {
      InsertKeepsOrder(dir, sorted[1..]);
      var r := InsertByDepth(dir, sorted[1..]);
      forall j | 0 <= j < |r| ensures sorted[0].0 >= r[j].0 {
        assert r[j] in multiset(r);
        assert r[j] == dir || r[j] in sorted[1..];
      }
    }
  }

  /// The sort keeps every directory and puts the deeper ones first.
  lemma {:induction false} SortedDeepestFirst<T(!new)>(dirs: seq<(nat, T)>)
    ensures DeepestFirst(SortDeepestFirst(dirs))
    ensures forall d :: d in SortDeepestFirst(dirs) <==> d in dirs
  {
    if dirs != [] {
      SortedDeepestFirst(dirs[1..]);
      InsertKeepsOrder(dirs[0], SortDeepestFirst(dirs[1..]));
    }
    assert forall d :: d in SortDeepestFirst(dirs) <==> d in multiset(dirs);
  }
}
