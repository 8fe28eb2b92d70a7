/**
 The fork database: the blocks since the last irreversible one, and the head that a node
 follows (fork_database.cpp).
 */
module ForkDatabase {
  import opened Collections
  import opened ForkTree
  import opened ForkBranches

  // Longest irreversible chain first, then longest chain.
  predicate FirstPreferred(a: Block, b: Block) {
    a.lib > b.lib || (a.lib == b.lib && a.num > b.num)
  }

  // The order of the index by_lib_block_num: valid blocks first, equals by id.
  predicate Before(a: Block, b: Block) {
    if a.valid != b.valid then a.valid
    else if FirstPreferred(a, b) || FirstPreferred(b, a) then FirstPreferred(a, b)
    else a.id < b.id
  }

  // The first of the blocks in this order.
  ghost predicate IsFirst(index: Index, b: Block) {
    b.id in index && index[b.id] == b && forall x :: x in index && x != b.id ==> Before(b, index[x])
  }

  method First(index: Index) returns (b: Block)
    requires index != map[] && forall x :: x in index ==> index[x].id == x
    ensures IsFirst(index, b)
  {
    var keys := index.Keys;
    var x :| x in keys;
    b := index[x];
    keys := keys - {x};
    while keys != {}
      invariant keys <= index.Keys && b.id in index && index[b.id] == b && b.id !in keys
      invariant forall y :: y in index && y !in keys && y != b.id ==> Before(b, index[y])
      decreases |keys|
    {
      x :| x in keys;
      keys := keys - {x};
      if Before(index[x], b) {
        b := index[x];
      }
    }
  }

  // The first block not validated, if there is any.
  method FirstUnvalidated(index: Index) returns (r: Option<Block>)
    requires forall x :: x in index ==> index[x].id == x
    ensures r.None? <==> forall x :: x in index ==> index[x].valid
    ensures r.Some? ==> r.value.id in index && index[r.value.id] == r.value && !r.value.valid
    ensures r.Some? ==> forall x :: x in index && !index[x].valid ==> !FirstPreferred(index[x], r.value)
  {
    var open := map x | x in index && !index[x].valid :: index[x];
    if open == map[] {
      forall x | x in index
        ensures index[x].valid
      {
        assert index[x].valid || x in open;
      }
      return None;
    }
    var b := First(open);
    r := Some(b);
    forall x | x in index && !index[x].valid
      ensures !FirstPreferred(index[x], b)
    {
      assert x in open;
    }
  }

  // The head is the root or a valid block, and no valid block is preferred to it.
  ghost predicate GoodHead(index: Index, root: Block, head: Block) {
    && (head == root || (head.id in index && index[head.id] == head && head.valid))
    && forall x :: x in index && index[x].valid ==> !FirstPreferred(index[x], head)
  }

  // There are valid blocks, and the given one is preferred to all of them.
  ghost predicate Below(index: Index, b: Block) {
    && (exists x :: x in index && index[x].valid)
    && forall x :: x in index && index[x].valid ==> FirstPreferred(b, index[x])
  }

  lemma TreeIds(index: Index, root: Block)
    requires Tree(index, root)
    ensures forall x :: x in index ==> index[x].id == x
  {
    forall x | x in index
      ensures index[x].id == x
    {
      assert RankedAt(index, x);
    }
  }

  // The head remains good where blocks other than it are removed.
  lemma GoodHeadSub(index: Index, root: Block, head: Block, part: Index, root': Block)
    requires GoodHead(index, root, head) && forall x :: x in part ==> x in index && part[x] == index[x]
    requires root.id !in index && (head == root' || head.id in part)
    ensures GoodHead(part, root', head)
  {
  }

  datatype AddOutcome = Added | Ignored | Unlinkable | Duplicate
  datatype AdvanceOutcome = Advanced | Missing | NotValidated | WouldRemoveHead

  class ForkDatabase {
    var index: Index
    var root: Block
    var head: Block

    ghost predicate Valid()
      reads this
    {
      Tree(index, root) && GoodHead(index, root, head)
    }

    constructor (r: Block)
      ensures Valid() && index == map[] && root == head == r.(valid := true)
    {
      index := map[];
      root := r.(valid := true);
      head := r.(valid := true);
    }

    method Reset(r: Block)
      modifies this
      ensures Valid() && index == map[] && root == head == r.(valid := true)
    {
      index := map[];
      root := r.(valid := true);
      head := root;
    }

    method RollbackHeadToRoot()
      requires Valid()
      modifies this
      ensures Valid() && root == old(root) && head == root
      ensures index == map x | x in old(index) :: old(index)[x].(valid := false)
    {
      var keys := index.Keys;
      ghost var was := index;
      while keys != {}
        invariant keys <= was.Keys && root == old(root)
        invariant index == map x | x in was :: if x in keys then was[x] else was[x].(valid := false)
        decreases |keys|
      {
        var x :| x in keys;
        index := index[x := index[x].(valid := false)];
        keys := keys - {x};
      }
      head := root;
      RevalidatedTree(was, root, index);
    }

    // A block that is added builds on a known one with the number before its own; an id
    // starts with the block number.
    method Add(n: Block, ignoreDuplicate: bool) returns (r: AddOutcome)
      requires Valid()
      requires n.prev == root.id || n.prev in index ==> n.num == Lookup(index, root, n.prev).num + 1
      requires n.id == root.id ==> n.num == root.num
      modifies this
      ensures Valid() && root == old(root)
      ensures r == if old(n.prev != root.id && n.prev !in index) then Unlinkable
                   else if n.id !in old(index) then Added
                   else if ignoreDuplicate then Ignored else Duplicate
      ensures r.Added? ==> index == old(index)[n.id := n]
      ensures r.Added? ==> IsFirst(index, head) || (head == old(head) && forall x :: x in index ==> !index[x].valid)
      ensures !r.Added? ==> index == old(index) && head == old(head)
      ensures FirstPreferred(old(head), head) <==>
              r.Added? && old(head == root) && Below(old(index)[n.id := n], root)
    {
      if n.prev != root.id && n.prev !in index {
        return Unlinkable;
      }
      if n.id in index {
        return if ignoreDuplicate then Ignored else Duplicate;
      }
      ghost var was := index;
      AddedTree(index, root, n);
      index := index[n.id := n];
      assert n.id in index;
      TreeIds(index, root);
      var candidate := First(index);
      if candidate.valid {
        head := candidate;
      }
      r := Added;
      AddedHead(was, root, old(head), n, index, candidate, head);
    }

    method MarkValid(h: Block) returns (ok: bool)
      requires Valid()
      modifies this
      ensures Valid() && root == old(root)
      ensures ok <==> h.valid || h.id in old(index)
      ensures index == if h.valid || h.id !in old(index) then old(index)
                       else old(index)[h.id := old(index)[h.id].(valid := true)]
      ensures head == old(head) || (FirstPreferred(head, old(head)) && IsFirst(index, head))
      ensures h.valid || h.id !in old(index) ==> head == old(head)
    {
      if h.valid {
        return true;
      }
      if h.id !in index {
        return false;
      }
      ghost var was := index;
      TreeIds(index, root);
      index := index[h.id := index[h.id].(valid := true)];
      assert h.id in index;
      MarkedTree(was, root, h.id, index);
      TreeIds(index, root);
      var candidate := First(index);
      if FirstPreferred(candidate, head) {
        head := candidate;
      }
      ok := true;
      MarkedHead(was, root, old(head), h.id, index, candidate, head);
    }

    // All blocks built on a given one and itself.
    method Remove(id: Id) returns (ok: bool)
      requires Valid()
      modifies this
      ensures Valid() && root == old(root) && head == old(head)
      ensures ok <==> !Descends(old(index), head.id, id)
      ensures index == if ok then Pruned(old(index), id) else old(index)
    {
      var part: Index;
      PrunedTree(index, root, id);
      ok, part := Prune(index, id, head.id);
      if ok {
        GoodHeadSub(index, root, head, part, root);
      }
      index := part;
    }

    // The new root must be a valid block that the head is or builds on. Failing on the last
    // condition the block is not stored any more, and some branches beside it may be gone; the
    // database is in order then exactly if nothing was built on the block.
    method AdvanceRoot(id: Id) returns (r: AdvanceOutcome)
      requires Valid()
      modifies this
      ensures r == if id !in old(index) then Missing
                   else if !old(index)[id].valid then NotValidated
                   else if old(Descends(index, head.id, id)) then Advanced else WouldRemoveHead
      ensures head == old(head)
      ensures r.Advanced? ==> Valid() && root == old(index)[id] && index == Above(old(index), id)
      ensures r.Missing? || r.NotValidated? ==> Valid() && root == old(root) && index == old(index)
      ensures r.WouldRemoveHead? ==> root == old(root) && old(Ranked(index)) && Stripped(old(index), id, index)
      ensures r.WouldRemoveHead? ==> (Valid() <==> forall x :: x in old(index) ==> old(index)[x].prev != id)
    {
      if id !in index {
        return Missing;
      }
      if !index[id].valid {
        return NotValidated;
      }
      ghost var was := index;
      var newRoot := index[id];
      var ids := Predecessors(index, root, id);
      var ok, part := PruneAll(index, root, id, ids, head.id);
      index := part;
      if !ok {
        StrippedTree(was, root, id, part);
        GoodHeadSub(was, root, head, part, root);
        return WouldRemoveHead;
      }
      AboveIsTree(was, id);
      AboveHead(was, root, head, id);
      GoodHeadSub(was, root, head, part, newRoot);
      root := newRoot;
      r := Advanced;
    }

    // The block to follow if every stored block were valid.
    method PendingHead() returns (b: Block)
      requires Valid()
      ensures b == head || (b.id in index && index[b.id] == b && !b.valid && FirstPreferred(b, head))
      ensures forall x :: x in index ==> !FirstPreferred(index[x], b)
    {
      TreeIds(index, root);
      var r := FirstUnvalidated(index);
      b := head;
      if r.Some? && FirstPreferred(r.value, head) {
        b := r.value;
      }
    }
  }

  // ----- what the methods keep -----

  ghost predicate SameShape(a: Index, b: Index) {
    a.Keys == b.Keys && forall x :: x in a ==> a[x].id == b[x].id && a[x].prev == b[x].prev && a[x].num == b[x].num
  }

  lemma ShapeTree(a: Index, root: Block, b: Index)
    requires Tree(a, root) && SameShape(a, b)
    ensures Tree(b, root)
  {
    forall x | x in b
      ensures RankedAt(b, x) && LinkedAt(b, root, x)
    {
      assert RankedAt(a, x) && LinkedAt(a, root, x);
    }
  }

  lemma RevalidatedTree(a: Index, root: Block, b: Index)
    requires Tree(a, root) && b == map x | x in a :: a[x].(valid := false)
    ensures Tree(b, root)
  {
    ShapeTree(a, root, b);
  }

  lemma MarkedTree(a: Index, root: Block, id: Id, b: Index)
    requires Tree(a, root) && id in a && b == a[id := a[id].(valid := true)]
    ensures Tree(b, root)
  {
    ShapeTree(a, root, b);
  }

  lemma MarkedHead(a: Index, root: Block, head: Block, id: Id, b: Index, candidate: Block, head': Block)
    requires GoodHead(a, root, head) && id in a && b == a[id := a[id].(valid := true)] && a[id].id == id
    requires IsFirst(b, candidate) && head' == if FirstPreferred(candidate, head) then candidate else head
    ensures GoodHead(b, root, head')
  {
    assert candidate.id == id || Before(candidate, b[id]);
    assert head.id == id && head != root ==> b == a;
  }

  lemma AddedTree(index: Index, root: Block, n: Block)
    requires Tree(index, root) && n.id !in index && (n.prev == root.id || n.prev in index)
    requires n.num == Lookup(index, root, n.prev).num + 1 && (n.id == root.id ==> n.num == root.num)
    ensures Tree(index[n.id := n], root)
  {
    LookupIsKnown(index, root, n.prev);
    var all := index[n.id := n];
    forall x | x in all
      ensures RankedAt(all, x) && LinkedAt(all, root, x)
    {
      if x != n.id {
        assert RankedAt(index, x) && LinkedAt(index, root, x);
      }
    }
  }

  lemma AddedHead(index: Index, root: Block, head: Block, n: Block, all: Index, candidate: Block, head': Block)
    requires GoodHead(index, root, head) && n.id !in index && all == index[n.id := n]
    requires IsFirst(all, candidate) && head' == if candidate.valid then candidate else head
    ensures GoodHead(all, root, head')
    ensures !candidate.valid ==> forall x :: x in all ==> !all[x].valid
    ensures FirstPreferred(head, head') <==> head == root && Below(all, root)
  {
    assert head != root ==> candidate.id == head.id || Before(candidate, all[head.id]);
    if candidate.valid && head == root && FirstPreferred(root, candidate) {
      forall x | x in all && all[x].valid
        ensures FirstPreferred(root, all[x])
      {
        assert x == candidate.id || Before(candidate, all[x]);
      }
    }
  }

  // A root with a later irreversible block than the valid block added to it: the head goes
  // from the root to the worse block.
  method HeadGetsWorse() returns (before: Block, after: Block)
    ensures before == Block(1, 0, 1, 5, true) && after == Block(2, 1, 2, 0, true) && FirstPreferred(before, after)
  {
    var db := new ForkDatabase(Block(1, 0, 1, 5, true));
    before := db.head;
    var r := db.Add(Block(2, 1, 2, 0, true), false);
    assert db.index == map[2 := Block(2, 1, 2, 0, true)];
    assert db.index[2].valid;
    after := db.head;
  }

  lemma AboveHead(index: Index, root: Block, head: Block, id: Id)
    requires Tree(index, root) && GoodHead(index, root, head) && id in index && Descends(index, head.id, id)
    ensures head == index[id] || head.id in Above(index, id)
  {
    assert RankedAt(index, id);
    DescendantIsHigher(index, head.id, id);
  }
}
