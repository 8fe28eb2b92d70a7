/**
 The tree of blocks that a fork database holds: blocks that are not yet irreversible, each
 built on another one of the tree or on the root (fork_database.cpp).
 */
module ForkTree {
  import opened Collections

  type Id = nat

  datatype Block = Block(id: Id, prev: Id, num: nat, lib: nat, valid: bool)

  type Index = map<Id, Block>

  // Every block is stored under its id and has a number one above that of the block it
  // builds on, where that is stored too.
  ghost predicate RankedAt(index: Index, x: Id)
    requires x in index
  {
    var b := index[x];
    b.id == x && (b.prev in index ==> b.num == index[b.prev].num + 1)
  }

  ghost predicate Ranked(index: Index) {
    forall x {:trigger RankedAt(index, x)} :: x in index ==> RankedAt(index, x)
  }

  // In a tree every block builds on a stored one or on the root, which is not stored.
  ghost predicate LinkedAt(index: Index, root: Block, x: Id)
    requires x in index
  {
    var b := index[x];
    b.prev !in index ==> b.prev == root.id && b.num == root.num + 1
  }

  ghost predicate Tree(index: Index, root: Block) {
    && root.id !in index && Ranked(index)
    && forall x {:trigger LinkedAt(index, root, x)} :: x in index ==> LinkedAt(index, root, x)
  }

  // Where the blocks that x is built on are, counted downwards.
  ghost function Height(index: Index, x: Id): nat {
    if x in index then index[x].num + 1 else 0
  }

  lemma PrevIsLower(index: Index, x: Id)
    requires Ranked(index) && x in index
    ensures Height(index, index[x].prev) < Height(index, x)
  {
    assert RankedAt(index, x);
  }

  // x is a or built on it.
  ghost predicate Descends(index: Index, x: Id, a: Id)
    requires Ranked(index)
    decreases Height(index, x)
  {
    x == a || (x in index && (PrevIsLower(index, x); Descends(index, index[x].prev, a)))
  }

  // A descendant of a stored block is stored and not below it.
  lemma {:induction false} DescendantIsHigher(index: Index, x: Id, a: Id)
    requires Ranked(index) && Descends(index, x, a)
    ensures Height(index, a) <= Height(index, x) && (x == a || x in index)
    ensures x != a ==> Height(index, a) < Height(index, x)
    decreases Height(index, x)
  {
    if x != a {
      PrevIsLower(index, x);
      DescendantIsHigher(index, index[x].prev, a);
    }
  }

  lemma DescendsAntisymmetric(index: Index, x: Id, a: Id)
    requires Ranked(index) && Descends(index, x, a) && Descends(index, a, x)
    ensures x == a
  {
    DescendantIsHigher(index, x, a);
    DescendantIsHigher(index, a, x);
  }

  lemma {:induction false} DescendsTransitive(index: Index, x: Id, y: Id, z: Id)
    requires Ranked(index) && Descends(index, x, y) && Descends(index, y, z)
    ensures Descends(index, x, z)
    decreases Height(index, x)
  {
    if x != y {
      PrevIsLower(index, x);
      DescendsTransitive(index, index[x].prev, y, z);
    }
  }

  // ----- removing a block with everything built on it -----

  ghost function Pruned(index: Index, a: Id): (r: Index)
    requires Ranked(index)
  {
    map x | x in index && !Descends(index, x, a) :: index[x]
  }

  lemma PrunedRanked(index: Index, a: Id)
    requires Ranked(index)
    ensures Ranked(Pruned(index, a))
  {
    var r := Pruned(index, a);
    forall x | x in r
      ensures RankedAt(r, x)
    {
      assert RankedAt(index, x);
    }
  }

  lemma PrunedTree(index: Index, root: Block, a: Id)
    requires Tree(index, root)
    ensures Tree(Pruned(index, a), root)
  {
    PrunedRanked(index, a);
    var r := Pruned(index, a);
    forall x | x in r
      ensures LinkedAt(r, root, x)
    {
      assert LinkedAt(index, root, x);
      PrevIsLower(index, x);
    }
  }

  // ----- finding the descendants, level by level -----

  function Children(index: Index, a: Id): set<Id> {
    set x | x in index && index[x].prev == a
  }

  // cs lists the set c.
  ghost predicate Lists(cs: seq<Id>, c: set<Id>) {
    Distinct(cs) && (forall i :: 0 <= i < |cs| ==> cs[i] in c) && forall x :: x in c ==> x in cs
  }

  // The inner loop of remove(): the blocks found under one previous id.
  method Enumerate(c: set<Id>) returns (cs: seq<Id>)
    ensures Lists(cs, c)
  {
    cs := [];
    var rest := c;
    while rest != {}
      invariant rest <= c && Lists(cs, c - rest)
      decreases |rest|
    {
      var x :| x in rest;
      cs := cs + [x];
      rest := rest - {x};
    }
  }

  // What the first i members of the queue have led to.
  ghost predicate ParentDone(index: Index, queue: seq<Id>, i: nat, j: nat)
    requires j < |queue|
  {
    queue[j] in index && exists t :: 0 <= t < i && t < |queue| && queue[t] == index[queue[j]].prev
  }

  ghost predicate Queue(index: Index, a: Id, queue: seq<Id>, i: nat)
    requires Ranked(index)
  {
    && i <= |queue| && 0 < |queue| && queue[0] == a && Distinct(queue)
    && (forall j :: 0 < j < |queue| ==> ParentDone(index, queue, i, j))
    && (forall j :: 0 <= j < |queue| ==> Descends(index, queue[j], a))
    && (forall j :: 0 <= j < i ==> Children(index, queue[j]) <= Members(queue))
  }

  function Members(s: seq<Id>): set<Id> {
    set x | x in s
  }

  lemma {:induction false} DistinctSize(s: seq<Id>)
    requires Distinct(s)
    ensures |Members(s)| == |s|
  {
    if s != [] {
      var n := |s| - 1;
      DistinctSize(s[..n]);
      assert Members(s) == Members(s[..n]) + {s[n]};
    }
  }

  lemma QueueBound(index: Index, a: Id, queue: seq<Id>, i: nat)
    requires Ranked(index) && Queue(index, a, queue, i)
    ensures |queue| <= |index| + 1
  {
    DistinctSize(queue);
    forall x | x in queue
      ensures x in index.Keys + {a}
    {
      var j :| 0 <= j < |queue| && queue[j] == x;
      assert j > 0 ==> ParentDone(index, queue, i, j);
    }
    assert Members(queue) <= index.Keys + {a};
    SubsetSize(Members(queue), index.Keys + {a});
    assert |index.Keys| == |index|;
  }

  // A child of the next member is not in the queue yet.
  lemma ChildIsNew(index: Index, a: Id, queue: seq<Id>, i: nat, x: Id)
    requires Ranked(index) && Queue(index, a, queue, i) && i < |queue| && x in Children(index, queue[i])
    ensures x !in queue && Descends(index, x, a)
  {
    PrevIsLower(index, x);
    assert Descends(index, queue[i], a);
    DescendantIsHigher(index, queue[i], a);
    forall j | 0 < j < |queue|
      ensures queue[j] != x
    {
      assert ParentDone(index, queue, i, j);
    }
  }

  lemma QueueGrows(index: Index, a: Id, queue: seq<Id>, i: nat, cs: seq<Id>)
    requires Ranked(index) && Queue(index, a, queue, i) && i < |queue| && Lists(cs, Children(index, queue[i]))
    ensures Queue(index, a, queue + cs, i + 1)
  {
    var all, next := queue + cs, i + 1;
    forall k | 0 <= k < |cs|
      ensures cs[k] !in queue && Descends(index, cs[k], a) && cs[k] in index && index[cs[k]].prev == queue[i]
    {
      ChildIsNew(index, a, queue, i, cs[k]);
    }
    forall j | 0 < j < |all|
      ensures ParentDone(index, all, next, j)
    {
      if j < |queue| {
        assert ParentDone(index, queue, i, j);
        var t :| 0 <= t < i && t < |queue| && queue[t] == index[queue[j]].prev;
        assert all[t] == queue[t];
      } else {
        assert all[i] == queue[i];
      }
    }
    assert Distinct(all);
  }

  // Once every member is done the queue holds all descendants.
  lemma {:induction false} QueueIsComplete(index: Index, a: Id, queue: seq<Id>, x: Id)
    requires Ranked(index) && Queue(index, a, queue, |queue|) && Descends(index, x, a)
    ensures x in queue
    decreases Height(index, x)
  {
    if x != a {
      PrevIsLower(index, x);
      QueueIsComplete(index, a, queue, index[x].prev);
      var j :| 0 <= j < |queue| && queue[j] == index[x].prev;
      assert x in Children(index, queue[j]);
    }
  }

  // The first loop of remove(): fails if it meets the head.
  method Collect(index: Index, a: Id, head: Id) returns (ok: bool, queue: seq<Id>)
    requires Ranked(index)
    ensures ok <==> !Descends(index, head, a)
    ensures ok ==> forall x :: x in queue <==> Descends(index, x, a)
  {
    queue := [a];
    var i := 0;
    while i < |queue|
      invariant Queue(index, a, queue, i)
      invariant forall j :: 0 <= j < i ==> queue[j] != head
      decreases |index| + 1 - i
    {
      if queue[i] == head {
        return false, queue;
      }
      var cs := Enumerate(Children(index, queue[i]));
      QueueGrows(index, a, queue, i, cs);
      queue := queue + cs;
      QueueBound(index, a, queue, i + 1);
      i := i + 1;
    }
    forall x | Descends(index, x, a)
      ensures x in queue
    {
      QueueIsComplete(index, a, queue, x);
    }
    ok := true;
  }

  // remove(): all or nothing.
  method Prune(index: Index, a: Id, head: Id) returns (ok: bool, r: Index)
    requires Ranked(index)
    ensures ok <==> !Descends(index, head, a)
    ensures r == if ok then Pruned(index, a) else index
  {
    var queue: seq<Id>;
    ok, queue := Collect(index, a, head);
    r := index;
    if ok {
      for i := 0 to |queue|
        invariant r == map x | x in index && x !in queue[..i] :: index[x]
      {
        r := r - {queue[i]};
        assert queue[..i + 1] == queue[..i] + [queue[i]];
      }
      assert queue[..|queue|] == queue;
    }
  }
}
