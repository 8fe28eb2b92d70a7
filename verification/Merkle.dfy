/**
 The merkle root of a list of digests, computed two ways: in one go over the whole list
 (merkle.cpp), and incrementally, one append at a time, keeping only the roots of the
 complete subtrees (incremental_merkle.hpp). The incremental root is proved equal to the
 other after every sequence of appends.

 A digest is any type D, and hash(l, r) stands for hashing the canonical pair of l and r.
 */
module Merkle {
  import opened Bits
  import opened MerkleDepth

  // ----- the tree -----

  // One level up: neighbours are hashed together, a last one without a neighbour with itself.
  function PairUp<D>(hash: (D, D) -> D, ids: seq<D>): (r: seq<D>)
    ensures |r| == (|ids| + 1) / 2
  {
    if |ids| == 0 then []
    else if |ids| == 1 then [hash(ids[0], ids[0])]
    else [hash(ids[0], ids[1])] + PairUp(hash, ids[2..])
  }

  // The root: pair up until one digest is left.
  function Root<D>(hash: (D, D) -> D, ids: seq<D>): D
    requires ids != []
    decreases |ids|
  {
    if |ids| == 1 then ids[0] else Root(hash, PairUp(hash, ids))
  }

  // The digests of one level, counted from the leaves.
  function Level<D>(hash: (D, D) -> D, ids: seq<D>, k: nat): seq<D>
    decreases k
  {
    if k == 0 then ids else PairUp(hash, Level(hash, ids, k - 1))
  }

  // ----- merkle.cpp -----

  // The digest at i of the next level, from its neighbours below.
  lemma {:induction false} PairUpAt<D>(hash: (D, D) -> D, ids: seq<D>, i: nat)
    requires 2 * i < |ids|
    ensures PairUp(hash, ids)[i] == hash(ids[2 * i], ids[if 2 * i + 1 < |ids| then 2 * i + 1 else 2 * i])
    decreases i
  {
    if i > 0 {
      PairUpAt(hash, ids[2..], i - 1);
    }
  }

  // The inner loop: each pair is replaced by its hash at the front of the same list, which
  // is then cut to half its length.
  method PairInPlace<D>(hash: (D, D) -> D, padded: seq<D>) returns (ids: seq<D>)
    requires |padded| % 2 == 0
    ensures ids == PairUp(hash, padded)
  {
    ids := padded;
    var i := 0;
    while i < |ids| / 2
      invariant 0 <= i <= |ids| / 2 && |ids| == |padded|
      invariant ids[..i] == PairUp(hash, padded)[..i]
      invariant ids[i..] == padded[i..]
    {
      assert ids[2 * i] == padded[2 * i] && ids[2 * i + 1] == padded[2 * i + 1] by {
        assert ids[2 * i] == ids[i..][i] && ids[2 * i + 1] == ids[i..][i + 1];
      }
      PairUpAt(hash, padded, i);
      ids := ids[i := hash(ids[2 * i], ids[2 * i + 1])];
      i := i + 1;
    }
    ids := ids[..|ids| / 2];
  }

  // Repeating a last digest that has no neighbour is what PairUp does with it.
  lemma {:induction false} Padding<D>(hash: (D, D) -> D, ids: seq<D>)
    requires |ids| % 2 == 1
    ensures PairUp(hash, ids + [ids[|ids| - 1]]) == PairUp(hash, ids)
    decreases |ids|
  {
    if |ids| > 1 {
      Padding(hash, ids[2..]);
      assert (ids + [ids[|ids| - 1]])[2..] == ids[2..] + [ids[2..][|ids| - 3]];
    }
  }

  method BatchMerkle<D>(hash: (D, D) -> D, arg: seq<D>, empty: D) returns (root: D)
    ensures root == if arg == [] then empty else Root(hash, arg)
  {
    if |arg| == 0 {
      return empty;
    }
    var ids := arg;
    while |ids| > 1
      invariant ids != [] && Root(hash, ids) == Root(hash, arg)
      decreases |ids|
    {
      if |ids| % 2 != 0 {
        Padding(hash, ids);
        ids := PairInPlace(hash, ids + [ids[|ids| - 1]]);
      } else {
        ids := PairInPlace(hash, ids);
      }
    }
    root := ids[0];
  }

  // ----- shape of the levels -----

  // The last index of level k is that of the last leaf, shifted right k.
  lemma {:induction false} LevelSize<D>(hash: (D, D) -> D, ids: seq<D>, k: nat)
    requires ids != []
    ensures |Level(hash, ids, k)| == Shr(|ids| - 1, k) + 1
  {
    if k > 0 {
      LevelSize(hash, ids, k - 1);
      ShrStep(|ids| - 1, k - 1);
    }
  }

  lemma ShrStep(n: nat, k: nat)
    ensures Shr(n, k + 1) == Shr(n, k) / 2
  {
    ShrShr(n, k, 1);
    assert Shr(Shr(n, k), 1) == Shr(n, k) / 2;
  }

  // Levels below the root are pairings on the way to it.
  lemma {:induction false} RootOfLevel<D>(hash: (D, D) -> D, ids: seq<D>, k: nat)
    requires ids != [] && forall j :: 0 <= j < k ==> |Level(hash, ids, j)| > 1
    ensures Level(hash, ids, k) != [] && Root(hash, Level(hash, ids, k)) == Root(hash, ids)
  {
    if k > 0 {
      RootOfLevel(hash, ids, k - 1);
    }
  }

  // A level with one digest, the first such, holds the root.
  lemma RootAtDepth<D>(hash: (D, D) -> D, ids: seq<D>, k: nat)
    requires ids != [] && |ids| <= Pow2(k) && (k > 0 ==> Pow2(k - 1) < |ids|)
    ensures |Level(hash, ids, k)| == 1 && Level(hash, ids, k)[0] == Root(hash, ids)
  {
    LevelSize(hash, ids, k);
    LowSmall(|ids| - 1, k);
    forall j | 0 <= j < k
      ensures |Level(hash, ids, j)| > 1
    {
      LevelSize(hash, ids, j);
      Pow2Monotone(j, k - 1);
      ShrAtLeastOne(|ids| - 1, j);
    }
    RootOfLevel(hash, ids, k);
  }

  lemma ShrAtLeastOne(n: nat, j: nat)
    requires n >= Pow2(j)
    ensures Shr(n, j) >= 1
  {
    Split(n, j);
    ShlNegate(0, j);
  }

  // A digest of a complete subtree does not change when a leaf is appended.
  lemma {:induction false} Stable<D>(hash: (D, D) -> D, ids: seq<D>, d: D, k: nat, i: nat)
    requires i < Shr(|ids|, k)
    ensures i < |Level(hash, ids, k)| && i < |Level(hash, ids + [d], k)|
    ensures Level(hash, ids, k)[i] == Level(hash, ids + [d], k)[i]
    decreases k
  {
    if k > 0 {
      ShrStep(|ids|, k - 1);
      Stable(hash, ids, d, k - 1, 2 * i);
      Stable(hash, ids, d, k - 1, 2 * i + 1);
      PairUpAt(hash, Level(hash, ids, k - 1), i);
      PairUpAt(hash, Level(hash, ids + [d], k - 1), i);
    }
  }

  // ----- what the incremental tree keeps -----

  lemma {:induction false} ShrPredecessor(n: nat, k: nat)
    requires n >= 1
    ensures Shr(n - 1, k) <= Shr(n, k) <= Shr(n - 1, k) + 1
    decreases k
  {
    if k > 0 && n >= 2 {
      if n % 2 == 0 {
        ShrPredecessor(n / 2, k - 1);
      }
    } else if k > 0 {
      LowSmall(0, k - 1);
    }
  }

  lemma ShrZero(k: nat)
    ensures Shr(0, k) == 0
  {
    LowSmall(0, k);
  }

  lemma {:induction false} LevelReaches<D>(hash: (D, D) -> D, ids: seq<D>, k: nat)
    ensures Shr(|ids|, k) <= |Level(hash, ids, k)|
  {
    if ids == [] {
      ShrZero(k);
    } else {
      LevelSize(hash, ids, k);
      ShrPredecessor(|ids|, k);
    }
  }

  // From level k up, the root of each complete subtree that is waiting for a right neighbour:
  // one for every bit set in the number of leaves.
  function Lefts<D>(hash: (D, D) -> D, ids: seq<D>, k: nat): seq<D>
    decreases Shr(|ids|, k)
  {
    var m := Shr(|ids|, k);
    if m == 0 then []
    else
      ShrStep(|ids|, k);
      LevelReaches(hash, ids, k);
      (if m % 2 == 1 then [Level(hash, ids, k)[m - 1]] else []) + Lefts(hash, ids, k + 1)
  }

  // Those subtree roots, lowest first, with the root of the whole tree last. When the number
  // of leaves is a power of two the two coincide.
  ghost predicate Represents<D>(hash: (D, D) -> D, ids: seq<D>, active: seq<D>) {
    && (active == Lefts(hash, ids, 0) || (active != [] && active[..|active| - 1] == Lefts(hash, ids, 0)))
    && (ids != [] ==> active != [] && active[|active| - 1] == Root(hash, ids))
  }

  // ----- one append, climbing from the new leaf to the root -----

  // At level k: index and value of the node above the new leaf, the subtree roots still to be
  // read, and the new list so far. partial says that a missing right neighbour was met.
  ghost predicate Climbing<D>(hash: (D, D) -> D, ids: seq<D>, d: D, k: nat, index: nat, top: D,
                                    unread: seq<D>, updated: seq<D>, partial: bool)
  {
    && index == Shr(|ids|, k)
    && |Level(hash, ids + [d], k)| == index + 1 && top == Level(hash, ids + [d], k)[index]
    && Lefts(hash, ids, k) <= unread
    && updated + Lefts(hash, ids + [d], k) == Lefts(hash, ids + [d], 0)
    && (if partial then Shr(|ids| + 1, k) == index else Shr(|ids| + 1, k) == index + 1 && updated == [])
  }

  lemma LeftsStep<D>(hash: (D, D) -> D, ids: seq<D>, k: nat)
    ensures Lefts(hash, ids, k) ==
            (if Shr(|ids|, k) % 2 == 1 then
               LevelReaches(hash, ids, k);
               [Level(hash, ids, k)[Shr(|ids|, k) - 1]] + Lefts(hash, ids, k + 1)
             else Lefts(hash, ids, k + 1))
  {
    ShrStep(|ids|, k);
    assert [] + Lefts(hash, ids, k + 1) == Lefts(hash, ids, k + 1);
  }

  // The node above the last one of a level.
  lemma NodeAbove<D>(hash: (D, D) -> D, ids: seq<D>, k: nat, index: nat)
    requires |Level(hash, ids, k)| == index + 1
    ensures |Level(hash, ids, k + 1)| == index / 2 + 1
    ensures Level(hash, ids, k + 1)[index / 2] ==
            var v := Level(hash, ids, k);
            if index % 2 == 0 then hash(v[index], v[index]) else hash(v[index - 1], v[index])
  {
    PairUpAt(hash, Level(hash, ids, k), index / 2);
  }

  // The next subtree root to be read is the left neighbour of a right node.
  lemma NextUnread<D>(hash: (D, D) -> D, ids: seq<D>, d: D, k: nat, unread: seq<D>)
    requires Shr(|ids|, k) % 2 == 1 && Lefts(hash, ids, k) <= unread
    ensures unread != [] && Lefts(hash, ids, k + 1) <= unread[1..]
    ensures Shr(|ids|, k) - 1 < |Level(hash, ids + [d], k)|
    ensures unread[0] == Level(hash, ids + [d], k)[Shr(|ids|, k) - 1]
  {
    LeftsStep(hash, ids, k);
    Stable(hash, ids, d, k, Shr(|ids|, k) - 1);
    var ls := Lefts(hash, ids, k);
    assert ls[0] == unread[0] && ls[1..] == Lefts(hash, ids, k + 1);
    assert ls[1..] <= unread[1..];
  }

  lemma EvenNext(index: nat, h: nat)
    requires index == 2 * h
    ensures (index + 1) / 2 == h && (index + 1) % 2 == 1
  {
  }

  // A left node is hashed with itself; it is kept if its subtree is complete.
  lemma {:induction false} ClimbFromLeft<D>(hash: (D, D) -> D, ids: seq<D>, d: D, k: nat, index: nat, top: D,
                         unread: seq<D>, updated: seq<D>, partial: bool)
    requires Climbing(hash, ids, d, k, index, top, unread, updated, partial) && index % 2 == 0
    ensures Climbing(hash, ids, d, k + 1, index / 2, hash(top, top), unread,
                     if partial then updated else updated + [top], true)
  {
    var ids' := ids + [d];
    assert (index + 1) / 2 == index / 2 && (index + 1) % 2 == 1 by {
      EvenNext(index, index / 2);
    }
    ShrStep(|ids|, k);
    ShrStep(|ids| + 1, k);
    NodeAbove(hash, ids', k, index);
    LeftsStep(hash, ids, k);
    LeftsAbove(hash, ids', k, updated);
  }

  // What is still to come of the new list at level k + 1.
  lemma LeftsAbove<D>(hash: (D, D) -> D, ids: seq<D>, k: nat, updated: seq<D>)
    ensures Shr(|ids|, k) <= |Level(hash, ids, k)|
    ensures updated + Lefts(hash, ids, k) ==
            (if Shr(|ids|, k) % 2 == 1 then updated + [Level(hash, ids, k)[Shr(|ids|, k) - 1]] else updated)
            + Lefts(hash, ids, k + 1)
  {
    LevelReaches(hash, ids, k);
    LeftsStep(hash, ids, k);
    if Shr(|ids|, k) % 2 == 1 {
      var x, rest := Level(hash, ids, k)[Shr(|ids|, k) - 1], Lefts(hash, ids, k + 1);
      assert updated + ([x] + rest) == updated + [x] + rest;
    }
  }

  // A right node is hashed with the complete subtree on its left, which is the next one to be
  // read; that one is kept if the right node is incomplete.
  lemma {:induction false} ClimbFromRight<D>(hash: (D, D) -> D, ids: seq<D>, d: D, k: nat, index: nat, top: D,
                          unread: seq<D>, updated: seq<D>, partial: bool)
    requires Climbing(hash, ids, d, k, index, top, unread, updated, partial) && index % 2 == 1
    ensures unread != []
    ensures Climbing(hash, ids, d, k + 1, index / 2, hash(unread[0], top), unread[1..],
                     if partial then updated + [unread[0]] else updated, partial)
  {
    ShrStep(|ids|, k);
    ShrStep(|ids| + 1, k);
    NodeAbove(hash, ids + [d], k, index);
    NextUnread(hash, ids, d, k, unread);
    LeftsAbove(hash, ids + [d], k, updated);
  }

  // Arrived at the depth of the new tree, the node is the root and the new list is complete.
  lemma ClimbEnds<D>(hash: (D, D) -> D, ids: seq<D>, d: D, k: nat, index: nat, top: D,
                     unread: seq<D>, updated: seq<D>, partial: bool)
    requires Climbing(hash, ids, d, k, index, top, unread, updated, partial)
    requires |ids| + 1 <= Pow2(k) && (k > 0 ==> Pow2(k - 1) < |ids| + 1)
    ensures Represents(hash, ids + [d], updated + [top])
  {
    var ids' := ids + [d];
    RootAtDepth(hash, ids', k);
    assert top == Root(hash, ids');
    LowSmall(|ids|, k);
    LeftsStep(hash, ids', k);
    ShrStep(|ids'|, k);
    assert Lefts(hash, ids', k + 1) == [];
    assert (updated + [top])[..|updated|] == updated;
    if partial {
      assert updated + [] == updated;
    } else {
      assert updated + ([top] + []) == updated + [top];
    }
  }

  // ----- incremental_merkle.hpp -----

  // The number of levels above the leaves, for a count one more than a 64-bit number.
  method TreeDepth(n: nat) returns (depth: nat)
    requires 1 <= n && BitLength(n - 1) <= 64
    ensures n <= Pow2(depth) && (depth > 0 ==> Pow2(depth - 1) < n)
  {
    MaxDepthIsLeast(n);
    depth := MaxDepth(n) - 1;
  }

  // One level of the loop of append.
  method ClimbLevel<D>(hash: (D, D) -> D, ghost ids: seq<D>, ghost d: D, ghost k: nat, index: nat, top: D,
                       unread: seq<D>, updated: seq<D>, partial: bool)
    returns (top': D, unread': seq<D>, updated': seq<D>, partial': bool)
    requires Climbing(hash, ids, d, k, index, top, unread, updated, partial)
    ensures Climbing(hash, ids, d, k + 1, index / 2, top', unread', updated', partial')
  {
    if index % 2 == 0 {
      ClimbFromLeft(hash, ids, d, k, index, top, unread, updated, partial);
      updated' := if partial then updated else updated + [top];
      top', unread', partial' := hash(top, top), unread, true;
    } else {
      ClimbFromRight(hash, ids, d, k, index, top, unread, updated, partial);
      var left := unread[0];
      updated' := if partial then updated + [left] else updated;
      top', unread', partial' := hash(left, top), unread[1..], partial;
    }
  }

  // The loop of append, level by level.
  method ClimbLevels<D>(hash: (D, D) -> D, active: seq<D>, nodeCount: nat, digest: D, depth: nat, ghost ids: seq<D>)
    returns (index: nat, top: D, unread: seq<D>, updated: seq<D>, partial: bool)
    requires Climbing(hash, ids, digest, 0, nodeCount, digest, active, [], false)
    ensures Climbing(hash, ids, digest, depth, index, top, unread, updated, partial)
  {
    var currentDepth := depth;
    ghost var k := 0;
    index, top, unread, updated, partial := nodeCount, digest, active, [], false;
    while currentDepth > 0
      invariant k + currentDepth == depth
      invariant Climbing(hash, ids, digest, k, index, top, unread, updated, partial)
    {
      top, unread, updated, partial := ClimbLevel(hash, ids, digest, k, index, top, unread, updated, partial);
      currentDepth := currentDepth - 1;
      index := index / 2;
      k := k + 1;
    }
  }

  // From the new leaf up to the root.
  method Climb<D>(hash: (D, D) -> D, active: seq<D>, nodeCount: nat, digest: D, ghost ids: seq<D>)
    returns (updated: seq<D>)
    requires nodeCount == |ids| && BitLength(nodeCount) <= 64 && Represents(hash, ids, active)
    ensures Represents(hash, ids + [digest], updated)
  {
    var depth := TreeDepth(nodeCount + 1);
    var index, top, unread, partial;
    ClimbStarts(hash, ids, digest, active);
    index, top, unread, updated, partial := ClimbLevels(hash, active, nodeCount, digest, depth, ids);
    ClimbEnds(hash, ids, digest, depth, index, top, unread, updated, partial);
    updated := updated + [top];
  }

  lemma {:induction false} BitLengthNext(n: nat)
    ensures BitLength(n) <= BitLength(n + 1)
  {
    if n > 0 {
      if n % 2 == 0 {
        assert (n + 1) / 2 == n / 2;
      } else {
        assert (n + 1) / 2 == n / 2 + 1;
        BitLengthNext(n / 2);
      }
    }
  }

  class IncrementalMerkle<D> {
    const hash: (D, D) -> D
    const empty: D                 // DigestType()
    var nodeCount: nat             // _node_count
    var active: seq<D>             // _active_nodes
    ghost var leaves: seq<D>       // everything appended so far

    ghost predicate Valid()
      reads this
    {
      nodeCount == |leaves| && Represents(hash, leaves, active)
    }

    constructor (hash: (D, D) -> D, empty: D)
      ensures Valid() && leaves == [] && this.hash == hash && this.empty == empty
    {
      this.hash := hash;
      this.empty := empty;
      nodeCount := 0;
      active := [];
      leaves := [];
    }

    // append. The node count is a 64-bit number, and so is one more.
    method Append(digest: D) returns (root: D)
      requires Valid() && BitLength(nodeCount + 1) <= 64
      modifies this
      ensures Valid() && leaves == old(leaves) + [digest]
      ensures root == Root(hash, leaves)
    {
      BitLengthNext(nodeCount);
      active := Climb(hash, active, nodeCount, digest, leaves);
      nodeCount := nodeCount + 1;
      leaves := leaves + [digest];
      root := active[|active| - 1];
    }

    // get_root: the root the batch computation gives for everything appended so far.
    method GetRoot() returns (root: D)
      requires Valid()
      ensures root == if leaves == [] then empty else Root(hash, leaves)
    {
      if nodeCount > 0 {
        root := active[|active| - 1];
      } else {
        root := empty;
      }
    }
  }

  lemma ClimbStarts<D>(hash: (D, D) -> D, ids: seq<D>, d: D, active: seq<D>)
    requires Represents(hash, ids, active)
    ensures Climbing(hash, ids, d, 0, |ids|, d, active, [], false)
  {
    assert [] + Lefts(hash, ids + [d], 0) == Lefts(hash, ids + [d], 0);
  }
}
