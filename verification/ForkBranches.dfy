/**
 The branches of a fork tree: where two blocks part ways, and what is left when the root
 moves up to a block (fork_database.cpp).
 */
module ForkBranches {
  import opened ForkTree

  // ----- two branches -----

  // The blocks from x down to the root.
  ghost function Up(index: Index, x: Id): seq<Block>
    requires Ranked(index)
    decreases Height(index, x)
  {
    if x in index then (PrevIsLower(index, x); [index[x]] + Up(index, index[x].prev)) else []
  }

  // The branch a leads from x down to y.
  ghost predicate Along(index: Index, x: Id, a: seq<Block>, y: Id)
    requires Ranked(index)
  {
    Up(index, x) == a + Up(index, y)
  }

  lemma AlongStep(index: Index, x: Id, a: seq<Block>, y: Id)
    requires Ranked(index) && Along(index, x, a, y) && y in index
    ensures Along(index, x, a + [index[y]], index[y].prev)
  {
    var rest := Up(index, index[y].prev);
    assert a + ([index[y]] + rest) == (a + [index[y]]) + rest;
  }

  // a and b are u and v without what they end in in common.
  ghost predicate Parts(u: seq<Block>, v: seq<Block>, a: seq<Block>, b: seq<Block>) {
    && a <= u && b <= v && u[|a|..] == v[|b|..]
    && (a == [] || b == [] || a[|a| - 1] != b[|b| - 1])
  }

  lemma {:induction false} UpSuffix(index: Index, x: Id, i: nat)
    requires Ranked(index) && i < |Up(index, x)|
    ensures Up(index, x)[i..] == Up(index, Up(index, x)[i].id) && Up(index, x)[i].id in index
    decreases i
  {
    assert RankedAt(index, x);
    if i > 0 {
      UpSuffix(index, index[x].prev, i - 1);
      assert Up(index, x)[i..] == Up(index, index[x].prev)[i - 1..];
    }
  }

  // So they have no block in common.
  lemma PartsDisjoint(index: Index, x: Id, y: Id, a: seq<Block>, b: seq<Block>, i: nat, j: nat)
    requires Ranked(index) && Parts(Up(index, x), Up(index, y), a, b) && i < |a| && j < |b|
    ensures a[i] != b[j]
  {
    if a[i] == b[j] {
      UpSuffix(index, x, i);
      UpSuffix(index, y, j);
    }
  }

  ghost predicate Known(index: Index, root: Block, b: Block) {
    b == root || (b.id in index && index[b.id] == b)
  }

  lemma {:induction false} NumAboveRoot(index: Index, root: Block, x: Id)
    requires Tree(index, root) && x in index
    ensures index[x].num > root.num && index[x].id == x
    decreases Height(index, x)
  {
    assert RankedAt(index, x) && LinkedAt(index, root, x);
    if index[x].prev in index {
      PrevIsLower(index, x);
      NumAboveRoot(index, root, index[x].prev);
    }
  }

  function Lookup(index: Index, root: Block, id: Id): Block
    requires id == root.id || id in index
  {
    if id == root.id then root else index[id]
  }

  // The block a stored block builds on.
  lemma PrevIsKnown(index: Index, root: Block, b: Block)
    requires Tree(index, root) && Known(index, root, b) && b.num > root.num
    ensures b.id in index && (b.prev == root.id || b.prev in index)
    ensures Known(index, root, Lookup(index, root, b.prev)) && Lookup(index, root, b.prev).num + 1 == b.num
    ensures Lookup(index, root, b.prev).id == b.prev
  {
    assert RankedAt(index, b.id) && LinkedAt(index, root, b.id);
    if b.prev in index {
      assert RankedAt(index, b.prev) && LinkedAt(index, root, b.prev);
    }
  }

  // The first two loops of fetch_branch_from(): down to a given number.
  method DownTo(index: Index, root: Block, b: Block, num: nat) returns (branch: seq<Block>, c: Block)
    requires Tree(index, root) && Known(index, root, b) && root.num <= num
    ensures Known(index, root, c) && Along(index, b.id, branch, c.id)
    ensures if b.num <= num then branch == [] && c == b else c.num == num
  {
    branch, c := [], b;
    while c.num > num
      invariant Known(index, root, c) && Along(index, b.id, branch, c.id)
      invariant if b.num <= num then branch == [] && c == b else c.num >= num
      decreases c.num
    {
      PrevIsKnown(index, root, c);
      AlongStep(index, b.id, branch, c.id);
      branch := branch + [c];
      c := Lookup(index, root, c.prev);
    }
  }

  // Two different blocks with the same number are both stored.
  lemma BothStored(index: Index, root: Block, f: Block, s: Block)
    requires Tree(index, root) && Known(index, root, f) && Known(index, root, s) && f.num == s.num && f.id != s.id
    ensures f.id in index && s.id in index && f.num > root.num
  {
    if f.id in index {
      NumAboveRoot(index, root, f.id);
    }
    if s.id in index {
      NumAboveRoot(index, root, s.id);
    }
  }

  // And where they build on different blocks, these have the same number and are stored.
  lemma PrevStored(index: Index, root: Block, f: Block, s: Block)
    requires Tree(index, root) && Known(index, root, f) && Known(index, root, s) && f.num == s.num && f.id != s.id
    requires f.prev != s.prev
    ensures f.prev in index && s.prev in index && index[f.prev].id == f.prev && index[s.prev].id == s.prev
    ensures index[f.prev].num == index[s.prev].num == f.num - 1
  {
    BothStored(index, root, f, s);
    PrevIsKnown(index, root, f);
    PrevIsKnown(index, root, s);
    BothStored(index, root, Lookup(index, root, f.prev), Lookup(index, root, s.prev));
    assert RankedAt(index, f.prev) && RankedAt(index, s.prev);
  }

  // The last loop: down both until they build on the same block.
  method DownBoth(index: Index, root: Block, f0: Block, s0: Block) returns (a: seq<Block>, b: seq<Block>)
    requires Tree(index, root) && Known(index, root, f0) && Known(index, root, s0)
    requires f0.num == s0.num && f0.id != s0.id
    ensures Parts(Up(index, f0.id), Up(index, s0.id), a, b) && a != [] && b != []
  {
    var f, s := f0, s0;
    a, b := [], [];
    BothStored(index, root, f, s);
    while f.prev != s.prev
      invariant Known(index, root, f) && Known(index, root, s) && f.num == s.num && f.id != s.id
      invariant f.id in index && s.id in index
      invariant Along(index, f0.id, a, f.id) && Along(index, s0.id, b, s.id)
      decreases f.num
    {
      PrevStored(index, root, f, s);
      AlongStep(index, f0.id, a, f.id);
      AlongStep(index, s0.id, b, s.id);
      a := a + [f];
      b := b + [s];
      f := index[f.prev];
      s := index[s.prev];
    }
    AlongStep(index, f0.id, a, f.id);
    AlongStep(index, s0.id, b, s.id);
    a := a + [f];
    b := b + [s];
    AlongParts(index, f0.id, s0.id, a, b, f.prev);
  }

  lemma AlongParts(index: Index, x: Id, y: Id, a: seq<Block>, b: seq<Block>, z: Id)
    requires Ranked(index) && Along(index, x, a, z) && Along(index, y, b, z)
    requires a == [] || b == [] || a[|a| - 1] != b[|b| - 1]
    ensures Parts(Up(index, x), Up(index, y), a, b)
  {
  }

  datatype Branches = Branches(first: seq<Block>, second: seq<Block>) | NotFound

  // fetch_branch_from(): fails only for blocks that are not there.
  method FetchBranchFrom(index: Index, root: Block, first: Id, second: Id) returns (r: Branches)
    requires Tree(index, root)
    ensures r.NotFound? <==> !(first == root.id || first in index) || !(second == root.id || second in index)
    ensures r.Branches? ==> Parts(Up(index, first), Up(index, second), r.first, r.second)
  {
    if !(first == root.id || first in index) || !(second == root.id || second in index) {
      return NotFound;
    }
    LookupIsKnown(index, root, first);
    LookupIsKnown(index, root, second);
    var f0, s0 := Lookup(index, root, first), Lookup(index, root, second);
    var a, f := DownTo(index, root, f0, s0.num);
    var b, s := DownTo(index, root, s0, f.num);
    if f.id == s.id {
      AlongParts(index, first, second, a, b, f.id);
      return Branches(a, b);
    }
    var c, d := DownBoth(index, root, f, s);
    PartsExtend(index, first, second, a, b, f.id, s.id, c, d);
    r := Branches(a + c, b + d);
  }

  lemma LookupIsKnown(index: Index, root: Block, id: Id)
    requires Tree(index, root) && (id == root.id || id in index)
    ensures var b := Lookup(index, root, id); Known(index, root, b) && b.id == id && b.num >= root.num
  {
    if id in index {
      NumAboveRoot(index, root, id);
    }
  }

  lemma PartsExtend(index: Index, x: Id, y: Id, a: seq<Block>, b: seq<Block>, f: Id, s: Id, c: seq<Block>,
                    d: seq<Block>)
    requires Ranked(index) && Along(index, x, a, f) && Along(index, y, b, s)
    requires Parts(Up(index, f), Up(index, s), c, d) && c != [] && d != []
    ensures Parts(Up(index, x), Up(index, y), a + c, b + d)
  {
    var u, v := Up(index, f), Up(index, s);
    assert Up(index, x)[|a + c|..] == u[|c|..];
    assert Up(index, y)[|b + d|..] == v[|d|..];
  }

  // ----- moving the root up to block a -----

  // part is whole without a and with only some of the other branches: what is stored in it
  // has its predecessors stored, and everything built on a is.
  ghost predicate Stripped(whole: Index, a: Id, part: Index)
    requires Ranked(whole)
  {
    && (forall x :: x in part ==> x in whole && x != a && part[x] == whole[x])
    && (forall x :: x in part ==> PrevKept(whole, a, part, whole[x].prev))
    && (forall x :: x in whole && x != a && Descends(whole, x, a) ==> x in part)
  }

  ghost predicate PrevKept(whole: Index, a: Id, part: Index, p: Id) {
    p in whole && p != a ==> p in part
  }

  lemma StrippedRanked(whole: Index, a: Id, part: Index)
    requires Ranked(whole) && Stripped(whole, a, part)
    ensures Ranked(part)
  {
    forall x | x in part
      ensures RankedAt(part, x)
    {
      assert RankedAt(whole, x);
    }
  }

  // Within the part, what is built on a leads to no predecessor of a.
  lemma {:induction false} SubtreeApart(whole: Index, a: Id, part: Index, x: Id, t: Id)
    requires Ranked(whole) && Ranked(part) && Stripped(whole, a, part)
    requires Descends(whole, x, a) && Descends(part, x, t)
    ensures Descends(whole, t, a)
    decreases Height(part, x)
  {
    if x != t {
      PrevIsLower(part, x);
      SubtreeApart(whole, a, part, part[x].prev, t);
    }
  }

  lemma SubtreeStays(whole: Index, a: Id, part: Index, x: Id, t: Id)
    requires Ranked(whole) && Ranked(part) && Stripped(whole, a, part)
    requires Descends(whole, x, a) && Descends(whole, a, t) && t != a
    ensures !Descends(part, x, t)
  {
    if Descends(part, x, t) {
      SubtreeApart(whole, a, part, x, t);
      DescendsAntisymmetric(whole, a, t);
    }
  }

  lemma StrippedFurther(whole: Index, a: Id, part: Index, t: Id)
    requires Ranked(whole) && Ranked(part) && Stripped(whole, a, part) && Descends(whole, a, t) && t != a
    ensures Stripped(whole, a, Pruned(part, t))
    ensures forall y :: y in Pruned(part, t) ==> part[y].prev != t
  {
    var less := Pruned(part, t);
    forall x | x in whole && x != a && Descends(whole, x, a)
      ensures x in less
    {
      SubtreeStays(whole, a, part, x, t);
    }
    forall x | x in less
      ensures PrevKept(whole, a, less, whole[x].prev) && part[x].prev != t
    {
      assert PrevKept(whole, a, part, whole[x].prev);
      PrevIsLower(part, x);
    }
  }

  // When nothing in the part builds on the old root, only what is built on a is left.
  lemma {:induction false} OnlySubtree(whole: Index, root: Block, a: Id, part: Index, x: Id)
    requires Tree(whole, root) && Stripped(whole, a, part) && x in part
    requires forall y :: y in part ==> part[y].prev != root.id
    ensures Descends(whole, x, a)
    decreases Height(whole, x)
  {
    assert LinkedAt(whole, root, x);
    PrevIsLower(whole, x);
    if whole[x].prev != a {
      assert PrevKept(whole, a, part, whole[x].prev);
      OnlySubtree(whole, root, a, part, whole[x].prev);
    }
  }

  // What builds on a, the tree with a as its root.
  ghost function Above(index: Index, a: Id): Index
    requires Ranked(index)
  {
    map x | x in index && x != a && Descends(index, x, a) :: index[x]
  }

  lemma AboveIsTree(index: Index, a: Id)
    requires Ranked(index) && a in index
    ensures Tree(Above(index, a), index[a])
  {
    var r := Above(index, a);
    assert RankedAt(index, a);
    forall x | x in r
      ensures RankedAt(r, x) && LinkedAt(r, index[a], x)
    {
      assert RankedAt(index, x);
      PrevIsLower(index, x);
      DescendantIsHigher(index, index[x].prev, a);
    }
  }

  // The first loop of advance_root(): the predecessors of a.
  method Predecessors(index: Index, root: Block, a: Id) returns (ids: seq<Id>)
    requires Tree(index, root) && a in index
    ensures root.id in ids
    ensures forall i :: 0 <= i < |ids| ==> ids[i] != a && Descends(index, a, ids[i])
  {
    var b := index[a];
    ids := [];
    assert RankedAt(index, a) && LinkedAt(index, root, a);
    while b.prev in index
      invariant b.id in index && index[b.id] == b && Descends(index, a, b.id)
      invariant forall i :: 0 <= i < |ids| ==> ids[i] != a && Descends(index, a, ids[i])
      invariant b.prev !in index ==> b.prev == root.id
      decreases b.num
    {
      PrevIsStrict(index, a, b.id);
      assert RankedAt(index, b.id) && RankedAt(index, b.prev) && LinkedAt(index, root, b.prev);
      ids := ids + [b.prev];
      b := index[b.prev];
    }
    PrevIsStrict(index, a, b.id);
    ids := ids + [b.prev];
  }

  lemma PrevIsStrict(index: Index, a: Id, x: Id)
    requires Ranked(index) && a in index && x in index && Descends(index, a, x)
    ensures Descends(index, a, index[x].prev) && index[x].prev != a
  {
    PrevIsLower(index, x);
    DescendantIsHigher(index, a, x);
    DescendsTransitive(index, a, x, index[x].prev);
  }

  // The second loop: fails as soon as the head would be removed.
  method PruneAll(whole: Index, root: Block, a: Id, ids: seq<Id>, head: Id) returns (ok: bool, part: Index)
    requires Tree(whole, root) && a in whole && root.id in ids && (head == root.id || head in whole)
    requires forall i :: 0 <= i < |ids| ==> ids[i] != a && Descends(whole, a, ids[i])
    ensures ok <==> Descends(whole, head, a)
    ensures ok ==> part == Above(whole, a)
    ensures Stripped(whole, a, part) && (head == root.id || head == a || head in part)
  {
    part := whole - {a};
    StrippedStart(whole, a);
    for k := 0 to |ids|
      invariant Stripped(whole, a, part) && Ranked(part)
      invariant forall i :: 0 <= i < k ==> head != ids[i] && forall y :: y in part ==> part[y].prev != ids[i]
      invariant head == root.id || head == a || head in part
    {
      StrippedFurther(whole, a, part, ids[k]);
      PrunedRanked(part, ids[k]);
      if Descends(whole, head, a) {
        SubtreeStays(whole, a, part, head, ids[k]);
      }
      var less: Index;
      ok, less := Prune(part, ids[k], head);
      if !ok {
        return;
      }
      part := less;
    }
    ok := true;
    assert forall y :: y in part ==> part[y].prev != root.id;
    forall x | x in part
      ensures Descends(whole, x, a)
    {
      OnlySubtree(whole, root, a, part, x);
    }
  }

  lemma StrippedStart(whole: Index, a: Id)
    requires Ranked(whole)
    ensures Stripped(whole, a, whole - {a}) && Ranked(whole - {a})
  {
    StrippedRanked(whole, a, whole - {a});
  }

  // Where nothing built on a, the rest is still a tree; otherwise what built on it has lost
  // its predecessor.
  lemma StrippedTree(whole: Index, root: Block, a: Id, part: Index)
    requires Tree(whole, root) && a in whole && Stripped(whole, a, part)
    ensures Tree(part, root) <==> forall x :: x in whole ==> whole[x].prev != a
  {
    StrippedRanked(whole, a, part);
    if x :| x in whole && whole[x].prev == a {
      PrevIsLower(whole, x);
      assert Descends(whole, x, a);
      LostPredecessor(part, root, x, a);
    } else {
      forall x | x in part
        ensures LinkedAt(part, root, x)
      {
        assert LinkedAt(whole, root, x) && PrevKept(whole, a, part, whole[x].prev);
      }
    }
  }

  lemma LostPredecessor(part: Index, root: Block, x: Id, a: Id)
    requires x in part && part[x].prev == a && a !in part && a != root.id
    ensures !Tree(part, root)
  {
    assert !LinkedAt(part, root, x);
  }
}
