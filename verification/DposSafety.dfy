/**
 What Dpos guarantees over whole chains. A chain is a header state together with the
 record of all blocks since genesis: who produced them and what they confirmed.
 */
module DposSafety {
  import opened Collections
  import opened Dpos

  // A block: its producer, how many blocks before it it confirms, and how many producers
  // the schedule had that signs it.
  datatype Block = Block(producer: Account, confirmed: nat, scheduled: nat)

  // blocks[i] has number base + 1 + i.
  datatype Chain = Chain(base: nat, st: State, blocks: seq<Block>)

  // ----- who confirmed what -----

  predicate ConfirmsBlock(number: nat, b: Block, k: nat) {
    k <= number <= k + b.confirmed
  }

  // The producers that confirmed block k.
  function Confirmers(base: nat, blocks: seq<Block>, k: nat): set<Account> {
    if blocks == [] then {}
    else
      var n := |blocks| - 1;
      Confirmers(base, blocks[..n], k) + if ConfirmsBlock(base + 1 + n, blocks[n], k) then {blocks[n].producer} else {}
  }

  // The number of the last block of a producer, 0 if it has none.
  function LastBlock(base: nat, blocks: seq<Block>, p: Account): nat {
    if blocks == [] then 0
    else
      var n := |blocks| - 1;
      if blocks[n].producer == p then base + 1 + n else LastBlock(base, blocks[..n], p)
  }

  // Confirmed by more than two thirds as many producers as were scheduled for the block.
  predicate Settled(base: nat, blocks: seq<Block>, k: nat) {
    k == 0 || (base < k <= base + |blocks|
               && |Confirmers(base, blocks, k)| >= RequiredConfirmations(blocks[k - base - 1].scheduled))
  }

  lemma Appended(base: nat, blocks: seq<Block>, b: Block, k: nat, p: Account)
    ensures var number := base + 1 + |blocks|;
            && Confirmers(base, blocks + [b], k) ==
                 Confirmers(base, blocks, k) + (if ConfirmsBlock(number, b, k) then {b.producer} else {})
            && LastBlock(base, blocks + [b], p) == if b.producer == p then number else LastBlock(base, blocks, p)
  {
    assert (blocks + [b])[..|blocks|] == blocks;
  }

  // Who confirmed block k produced block k or a later one.
  lemma {:induction false} ConfirmerProduced(base: nat, blocks: seq<Block>, k: nat, p: Account)
    requires p in Confirmers(base, blocks, k)
    ensures k <= LastBlock(base, blocks, p)
    decreases |blocks|
  {
    var n := |blocks| - 1;
    if p in Confirmers(base, blocks[..n], k) {
      ConfirmerProduced(base, blocks[..n], k, p);
      LastBlockBound(base, blocks[..n], p);
    }
  }

  lemma {:induction false} LastBlockBound(base: nat, blocks: seq<Block>, p: Account)
    ensures LastBlock(base, blocks, p) <= base + |blocks|
    decreases |blocks|
  {
    if blocks != [] {
      LastBlockBound(base, blocks[..|blocks| - 1], p);
    }
  }

  // No block confirms one that is not there yet.
  lemma {:induction false} NoEarlyConfirmers(base: nat, blocks: seq<Block>, k: nat)
    requires k > base + |blocks|
    ensures Confirmers(base, blocks, k) == {}
    decreases |blocks|
  {
    if blocks != [] {
      NoEarlyConfirmers(base, blocks[..|blocks| - 1], k);
    }
  }

  lemma SettledStays(base: nat, blocks: seq<Block>, b: Block, k: nat)
    requires Settled(base, blocks, k)
    ensures Settled(base, blocks + [b], k)
  {
    Appended(base, blocks, b, k, 0);
    SubsetSize(Confirmers(base, blocks, k), Confirmers(base, blocks + [b], k));
  }

  // ----- what every chain keeps -----

  // The count of block number base + 1 + i is what it is missing of its quorum, given the
  // blocks that have confirmed it.
  ghost predicate MissingAt(base: nat, confirming: seq<Block>, blocks: seq<Block>, counts: seq<nat>, i: nat)
    requires |counts| <= |blocks| && |blocks| - |counts| <= i < |blocks|
  {
    counts[i - (|blocks| - |counts|)] + |Confirmers(base, confirming, base + 1 + i)|
    == RequiredConfirmations(blocks[i].scheduled)
  }

  ghost predicate Missing(base: nat, confirming: seq<Block>, blocks: seq<Block>, counts: seq<nat>) {
    && |counts| <= |blocks|
    && forall i :: |blocks| - |counts| <= i < |blocks| ==> MissingAt(base, confirming, blocks, counts, i)
  }

  // Nothing irreversible or implied is later than the proposed block, and only blocks after
  // that are counted.
  ghost predicate Ordered(st: State) {
    && WellFormed(st) && st.proposed + |st.counts| <= st.blockNum && st.lib <= st.proposed
    && forall p :: p in st.lastIrb ==> st.lastIrb[p] <= st.proposed
  }

  // The last block of each producer is known, except for producers without a turn; those
  // that lost theirs have produced nothing since the pending schedule was announced.
  ghost predicate Produced(c: Chain) {
    && (forall p :: p in c.st.lastProduced ==> LastBlock(c.base, c.blocks, p) <= c.st.lastProduced[p])
    && (forall p :: p !in c.st.lastProduced && p in c.st.active.producers ==> LastBlock(c.base, c.blocks, p) == 0)
    && (c.st.pending.schedule.producers != [] ==>
          forall p :: p !in c.st.lastProduced ==> LastBlock(c.base, c.blocks, p) <= c.st.pending.libNum)
  }

  // Everything proposed or implied as irreversible is settled.
  ghost predicate AllSettled(c: Chain) {
    && Settled(c.base, c.blocks, c.st.proposed) && Settled(c.base, c.blocks, c.st.lib)
    && forall p :: p in c.st.lastIrb ==> Settled(c.base, c.blocks, c.st.lastIrb[p])
  }

  ghost predicate Inv(c: Chain) {
    && Ordered(c.st) && c.st.blockNum == c.base + |c.blocks|
    && Missing(c.base, c.blocks, c.blocks, c.st.counts) && Produced(c) && AllSettled(c)
  }

  // ----- one block -----

  // The caller's part: an announced schedule is within the limit, and block numbers are 32-bit
  // numbers.
  predicate Representable(st: State, input: Input) {
    && st.blockNum + 1 < 0x1_0000_0000
    && (input.announced.Some? ==> |input.announced.value.producers| <= MAX_PRODUCERS)
  }

  // The block confirms no more blocks than there are numbers before its own, too.
  predicate Admissible(st: State, input: Input) {
    Representable(st, input) && input.confirmed <= st.blockNum + 1
  }

  function BlockProducer(st: State, input: Input): Account
    requires WellFormed(st)
  {
    ScheduledProducer(st.active, BlockSlot(st, input))
  }

  // c' is c with one more accepted block.
  ghost predicate Step(c: Chain, input: Input, c': Chain) {
    && WellFormed(c.st) && Representable(c.st, input)
    && IsLib(WithProducer(c.st.lastIrb, BlockProducer(c.st, input), c.st.proposed), c'.st.lib)
    && Next(c.st, input, c'.st.lib) == Ok(c'.st)
    && c'.base == c.base
    && c'.blocks == c.blocks + [Block(BlockProducer(c.st, input), input.confirmed, |c.st.active.producers|)]
  }

  // What the step makes of each field.
  ghost predicate Extends(c: Chain, input: Input, c': Chain, p: Account) {
    && WellFormed(c.st) && Representable(c.st, input)
    && p in c.st.active.producers && MayConfirm(c.st, p, input.confirmed)
    && IsLib(WithProducer(c.st.lastIrb, p, c.st.proposed), c'.st.lib)
    && c'.base == c.base && c'.blocks == c.blocks + [Block(p, input.confirmed, |c.st.active.producers|)]
    && c'.st.blockNum == c.st.blockNum + 1
    && Counted(c.st, input.confirmed, c'.st.counts, c'.st.proposed)
    && (if Promotes(c.st, c'.st.lib) then Promoted(c.st, c'.st, p) else Continued(c.st, input, c'.st, p))
  }

  // d is the counts after one more confirmation of the newest block and confirmed before it.
  ghost predicate Decremented(tracked: seq<nat>, confirmed: nat, d: seq<nat>) {
    && |d| == |tracked|
    && forall j :: 0 <= j < |d| ==> tracked[j] == d[j] + if j >= |tracked| - (confirmed + 1) then 1 else 0
  }

  // The newest block without a missing confirmation, i, is proposed; only later ones are kept.
  ghost predicate Newest(d: seq<nat>, i: nat, parent: nat, counts: seq<nat>, proposed: nat) {
    && i < |d| <= parent + 1 && d[i] == 0 && (forall j :: i < j < |d| ==> d[j] > 0)
    && counts == d[i + 1..] && proposed == parent + 1 - (|d| - 1 - i)
  }

  ghost predicate NoneYet(d: seq<nat>, before: nat, counts: seq<nat>, proposed: nat) {
    (forall j :: 0 <= j < |d| ==> d[j] > 0) && counts == d && proposed == before
  }

  ghost predicate Counted(st: State, confirmed: nat, counts: seq<nat>, proposed: nat) {
    exists d :: Decremented(Track(st.counts, RequiredConfirmations(|st.active.producers|)), confirmed, d)
                && (NoneYet(d, st.proposed, counts, proposed)
                    || exists i :: Newest(d, i, st.blockNum, counts, proposed))
  }

  lemma LoopCompletes(tracked: seq<nat>, todo: nat, parent: nat, before: nat, i: nat)
    requires |tracked| <= parent + 1 && forall j :: 0 <= j < |tracked| ==> 1 <= tracked[j] < 256
    requires Completed(tracked, |tracked|, todo) == Some(i)
    ensures Newest(Decrement(tracked, |tracked| - todo), i, parent, Confirm(tracked, todo),
                   Proposed(tracked, todo, parent + 1, before))
  {
    CompletedIs(tracked, |tracked|, todo);
    var d := Decrement(tracked, |tracked| - todo);
    assert Decrement(tracked, i)[i + 1..] == d[i + 1..];
  }

  lemma LoopEnds(tracked: seq<nat>, todo: nat, parent: nat, before: nat)
    requires |tracked| <= parent + 1 && forall j :: 0 <= j < |tracked| ==> 1 <= tracked[j] < 256
    requires Completed(tracked, |tracked|, todo) == None
    ensures NoneYet(Decrement(tracked, |tracked| - todo), before, Confirm(tracked, todo),
                    Proposed(tracked, todo, parent + 1, before))
  {
    CompletedIs(tracked, |tracked|, todo);
  }

  // This is what the loop over the counts does.
  lemma LoopCounts(st: State, confirmed: nat)
    requires WellFormed(st)
    ensures Counted(st, confirmed, NextCounts(st, confirmed), NextProposed(st, confirmed))
  {
    var tracked := Track(st.counts, RequiredConfirmations(|st.active.producers|));
    TrackBounds(st);
    assert Decremented(tracked, confirmed, Decrement(tracked, |tracked| - (confirmed + 1)));
    match Completed(tracked, |tracked|, confirmed + 1)
    case Some(i) =>
      LoopCompletes(tracked, confirmed + 1, st.blockNum, st.proposed, i);
      assert Newest(Decrement(tracked, |tracked| - (confirmed + 1)), i, st.blockNum, NextCounts(st, confirmed),
                    NextProposed(st, confirmed));
    case None =>
      LoopEnds(tracked, confirmed + 1, st.blockNum, st.proposed);
  }

  ghost predicate Promoted(st: State, st': State, p: Account) {
    && st'.active == st.pending.schedule && st'.pending.schedule.producers == []
    && st'.lastProduced ==
         Renewed(st.lastProduced, st'.active.producers, p, st.blockNum + 1, st'.lib)[p := st.blockNum + 1]
    && st'.lastIrb == Renewed(st.lastIrb, st'.active.producers, p, st.proposed, st'.lib)
  }

  ghost predicate Continued(st: State, input: Input, st': State, p: Account) {
    && st'.active == st.active
    && st'.lastProduced == st.lastProduced[p := st.blockNum + 1]
    && st'.lastIrb == st.lastIrb[p := st.proposed]
    && st'.pending == (if input.announced.Some? then Pending(st.blockNum + 1, input.announced.value) else st.pending)
  }

  lemma StepExtends(c: Chain, input: Input, c': Chain)
    requires Step(c, input, c')
    ensures Extends(c, input, c', BlockProducer(c.st, input))
  {
    LoopCounts(c.st, input.confirmed);
  }

  // ----- confirmations come from distinct producers -----

  lemma Sub32Small(a: nat, b: nat)
    requires b <= a < 0x1_0000_0000
    ensures Sub32(a, b) == a - b
  {
  }

  // The producer of a block has not confirmed before any of the blocks it confirms.
  lemma ConfirmsOnce(c: Chain, input: Input, p: Account, k: nat)
    requires Produced(c) && Admissible(c.st, input)
    requires p in c.st.active.producers && MayConfirm(c.st, p, input.confirmed)
    requires 0 < k && c.st.blockNum + 1 <= k + input.confirmed
    ensures p !in Confirmers(c.base, c.blocks, k)
  {
    Sub32Small(c.st.blockNum + 1, input.confirmed);
    if p in Confirmers(c.base, c.blocks, k) {
      ConfirmerProduced(c.base, c.blocks, k, p);
    }
  }

  // So each confirmed block gains exactly one.
  lemma ConfirmersGrow(c: Chain, input: Input, p: Account, scheduled: nat, k: nat)
    requires Produced(c) && Admissible(c.st, input) && c.st.blockNum == c.base + |c.blocks|
    requires p in c.st.active.producers && MayConfirm(c.st, p, input.confirmed)
    requires 0 < k <= c.st.blockNum + 1
    ensures |Confirmers(c.base, c.blocks + [Block(p, input.confirmed, scheduled)], k)| ==
            |Confirmers(c.base, c.blocks, k)| + if c.st.blockNum + 1 <= k + input.confirmed then 1 else 0
  {
    Appended(c.base, c.blocks, Block(p, input.confirmed, scheduled), k, 0);
    if c.st.blockNum + 1 <= k + input.confirmed {
      ConfirmsOnce(c, input, p, k);
    }
  }

  // ----- the counts stay exact -----

  lemma TrackKeeps(base: nat, blocks: seq<Block>, counts: seq<nat>, b: Block)
    requires Missing(base, blocks, blocks, counts)
    ensures Missing(base, blocks, blocks + [b], Track(counts, RequiredConfirmations(b.scheduled)))
  {
    var tracked := Track(counts, RequiredConfirmations(b.scheduled));
    var all := blocks + [b];
    forall i | |all| - |tracked| <= i < |all|
      ensures MissingAt(base, blocks, all, tracked, i)
    {
      if i < |blocks| {
        assert MissingAt(base, blocks, blocks, counts, i);
        assert tracked[i - (|all| - |tracked|)] == counts[i - (|blocks| - |counts|)];
      } else {
        NoEarlyConfirmers(base, blocks, base + 1 + |blocks|);
      }
    }
  }

  // Decrementing the counts of the confirmed blocks accounts for the new confirmations.
  lemma DecrementKeeps(c: Chain, input: Input, p: Account, all: seq<Block>, tracked: seq<nat>, d: seq<nat>)
    requires Produced(c) && Admissible(c.st, input) && c.st.blockNum == c.base + |c.blocks|
    requires p in c.st.active.producers && MayConfirm(c.st, p, input.confirmed)
    requires all == c.blocks + [Block(p, input.confirmed, |c.st.active.producers|)]
    requires Missing(c.base, c.blocks, all, tracked) && Decremented(tracked, input.confirmed, d)
    ensures Missing(c.base, all, all, d)
  {
    forall i | |all| - |d| <= i < |all|
      ensures MissingAt(c.base, all, all, d, i)
    {
      assert MissingAt(c.base, c.blocks, all, tracked, i);
      ConfirmersGrow(c, input, p, |c.st.active.producers|, c.base + 1 + i);
    }
  }

  lemma MissingSuffix(base: nat, blocks: seq<Block>, counts: seq<nat>, j: nat)
    requires Missing(base, blocks, blocks, counts) && j <= |counts|
    ensures Missing(base, blocks, blocks, counts[j..])
  {
    var rest := counts[j..];
    forall i | |blocks| - |rest| <= i < |blocks|
      ensures MissingAt(base, blocks, blocks, rest, i)
    {
      assert MissingAt(base, blocks, blocks, counts, i);
      assert rest[i - (|blocks| - |rest|)] == counts[i - (|blocks| - |counts|)];
    }
  }

  // A count that reaches zero means that the block is settled.
  lemma ZeroMeansSettled(base: nat, blocks: seq<Block>, counts: seq<nat>, j: nat)
    requires Missing(base, blocks, blocks, counts) && j < |counts| && counts[j] == 0
    ensures Settled(base, blocks, base + |blocks| - (|counts| - 1 - j))
  {
    var i := |blocks| - |counts| + j;
    assert MissingAt(base, blocks, blocks, counts, i);
  }

  // The remaining counts are exact, and the proposed block is settled.
  lemma NewestKeeps(base: nat, blocks: seq<Block>, d: seq<nat>, i: nat, parent: nat, counts: seq<nat>, proposed: nat)
    requires Missing(base, blocks, blocks, d) && Newest(d, i, parent, counts, proposed) && base + |blocks| == parent + 1
    ensures Missing(base, blocks, blocks, counts) && Settled(base, blocks, proposed)
  {
    MissingSuffix(base, blocks, d, i + 1);
    ZeroMeansSettled(base, blocks, d, i);
  }

  lemma CountsDecremented(c: Chain, input: Input, p: Account, all: seq<Block>, tracked: seq<nat>, d: seq<nat>)
    requires Produced(c) && Missing(c.base, c.blocks, c.blocks, c.st.counts)
    requires Admissible(c.st, input) && c.st.blockNum == c.base + |c.blocks|
    requires p in c.st.active.producers && MayConfirm(c.st, p, input.confirmed)
    requires all == c.blocks + [Block(p, input.confirmed, |c.st.active.producers|)]
    requires tracked == Track(c.st.counts, RequiredConfirmations(|c.st.active.producers|))
    requires Decremented(tracked, input.confirmed, d)
    ensures Missing(c.base, all, all, d)
  {
    TrackKeeps(c.base, c.blocks, c.st.counts, Block(p, input.confirmed, |c.st.active.producers|));
    DecrementKeeps(c, input, p, all, tracked, d);
  }

  lemma TrackBounds(st: State)
    requires WellFormed(st)
    ensures var tracked := Track(st.counts, RequiredConfirmations(|st.active.producers|));
            && (forall j :: 0 <= j < |tracked| ==> 1 <= tracked[j] < 256)
            && |tracked| <= MAX_TRACKED && |tracked| <= |st.counts| + 1
  {
  }

  // The list shrinks to what lies after the proposed block, which never moves back.
  lemma CountBoundsKept(st: State, confirmed: nat, counts: seq<nat>, proposed: nat)
    requires WellFormed(st) && Counted(st, confirmed, counts, proposed)
    requires st.proposed + |st.counts| <= st.blockNum
    ensures |counts| <= MAX_TRACKED && (forall j :: 0 <= j < |counts| ==> 1 <= counts[j] < 256)
    ensures proposed + |counts| <= st.blockNum + 1 && st.proposed <= proposed
  {
    var tracked := Track(st.counts, RequiredConfirmations(|st.active.producers|));
    TrackBounds(st);
    var d :| Decremented(tracked, confirmed, d)
             && (NoneYet(d, st.proposed, counts, proposed) || exists i :: Newest(d, i, st.blockNum, counts, proposed));
  }

  lemma CountsKept(c: Chain, input: Input, c': Chain, p: Account)
    requires Inv(c) && Extends(c, input, c', p) && Admissible(c.st, input)
    ensures Missing(c'.base, c'.blocks, c'.blocks, c'.st.counts) && Settled(c'.base, c'.blocks, c'.st.proposed)
  {
    var tracked := Track(c.st.counts, RequiredConfirmations(|c.st.active.producers|));
    var d :| Decremented(tracked, input.confirmed, d)
             && (NoneYet(d, c.st.proposed, c'.st.counts, c'.st.proposed)
                 || exists i :: Newest(d, i, c.st.blockNum, c'.st.counts, c'.st.proposed));
    CountsDecremented(c, input, p, c'.blocks, tracked, d);
    if NoneYet(d, c.st.proposed, c'.st.counts, c'.st.proposed) {
      SettledStays(c.base, c.blocks, Block(p, input.confirmed, |c.st.active.producers|), c.st.proposed);
    } else {
      var i :| Newest(d, i, c.st.blockNum, c'.st.counts, c'.st.proposed);
      NewestKeeps(c.base, c'.blocks, d, i, c.st.blockNum, c'.st.counts, c'.st.proposed);
    }
  }

  // ----- the record of last blocks stays complete -----

  lemma LastBlockAfter(c: Chain, input: Input, c': Chain, p: Account, q: Account)
    requires Extends(c, input, c', p) && c.st.blockNum == c.base + |c.blocks|
    ensures LastBlock(c'.base, c'.blocks, q) == if q == p then c.st.blockNum + 1 else LastBlock(c.base, c.blocks, q)
    ensures LastBlock(c'.base, c'.blocks, q) <= c.st.blockNum + 1
  {
    Appended(c.base, c.blocks, Block(p, input.confirmed, |c.st.active.producers|), 0, q);
    LastBlockBound(c.base, c.blocks, q);
  }

  lemma ProducedKept(c: Chain, input: Input, c': Chain, p: Account)
    requires Produced(c) && Extends(c, input, c', p) && c.st.blockNum == c.base + |c.blocks|
    ensures Produced(c')
  {
    forall q
      ensures LastBlock(c'.base, c'.blocks, q) == (if q == p then c.st.blockNum + 1 else LastBlock(c.base, c.blocks, q))
      ensures LastBlock(c'.base, c'.blocks, q) <= c.st.blockNum + 1
    {
      LastBlockAfter(c, input, c', p, q);
    }
    if Promotes(c.st, c'.st.lib) {
      ProducedPromoted(c, c', p);
    } else {
      ProducedContinued(c, input, c', p);
    }
  }

  // A producer that a schedule brings back last produced no later than the block that
  // announced the schedule, so not after the last irreversible block.
  lemma ProducedPromoted(c: Chain, c': Chain, p: Account)
    requires Produced(c) && Promotes(c.st, c'.st.lib) && Promoted(c.st, c'.st, p)
    requires forall q :: LastBlock(c'.base, c'.blocks, q) ==
                         if q == p then c.st.blockNum + 1 else LastBlock(c.base, c.blocks, q)
    ensures Produced(c')
  {
  }

  lemma ProducedContinued(c: Chain, input: Input, c': Chain, p: Account)
    requires Produced(c) && Continued(c.st, input, c'.st, p)
    requires forall q :: LastBlock(c'.base, c'.blocks, q) ==
                         if q == p then c.st.blockNum + 1 else LastBlock(c.base, c.blocks, q)
    requires forall q :: LastBlock(c'.base, c'.blocks, q) <= c.st.blockNum + 1
    ensures Produced(c')
  {
  }

  // ----- everything implied stays settled -----

  // The last irreversible block is one that some producer implied, or none.
  lemma LibIsImplied(m: map<Account, nat>, r: nat)
    requires IsLib(m, r)
    ensures r == 0 || exists p :: p in m && m[p] == r
  {
    if r > 0 {
      var a, b := AtLeast(m, r), AtLeast(m, r + 1);
      if a <= b {
        SubsetSize(a, b);
      }
      var p :| p in a && p !in b;
    }
  }

  lemma LibSettled(c: Chain, p: Account, r: nat)
    requires AllSettled(c) && IsLib(WithProducer(c.st.lastIrb, p, c.st.proposed), r)
    ensures Settled(c.base, c.blocks, r)
  {
    LibIsImplied(WithProducer(c.st.lastIrb, p, c.st.proposed), r);
  }

  // What producers imply afterwards they implied before, or is what was proposed or the
  // last irreversible block.
  lemma ImpliedAfter(c: Chain, input: Input, c': Chain, p: Account, q: Account)
    requires Extends(c, input, c', p) && q in c'.st.lastIrb
    ensures var v := c'.st.lastIrb[q];
            v == c.st.proposed || v == c'.st.lib || (q in c.st.lastIrb && v == c.st.lastIrb[q])
  {
  }

  lemma SettledKept(c: Chain, input: Input, c': Chain, p: Account)
    requires AllSettled(c) && Extends(c, input, c', p)
    requires Settled(c'.base, c'.blocks, c'.st.proposed)
    ensures AllSettled(c')
  {
    var b := Block(p, input.confirmed, |c.st.active.producers|);
    LibSettled(c, p, c'.st.lib);
    SettledStays(c.base, c.blocks, b, c'.st.lib);
    SettledStays(c.base, c.blocks, b, c.st.proposed);
    forall q | q in c'.st.lastIrb
      ensures Settled(c'.base, c'.blocks, c'.st.lastIrb[q])
    {
      ImpliedAfter(c, input, c', p, q);
      if q in c.st.lastIrb {
        SettledStays(c.base, c.blocks, b, c.st.lastIrb[q]);
      }
    }
  }

  // ----- every chain -----

  lemma LibOrdered(st: State, p: Account, r: nat)
    requires Ordered(st) && IsLib(WithProducer(st.lastIrb, p, st.proposed), r)
    ensures r <= st.proposed
  {
    LibIsImplied(WithProducer(st.lastIrb, p, st.proposed), r);
  }

  // Whatever a block confirms, the order is kept and the proposed block does not move back.
  lemma StepKeepsOrder(c: Chain, input: Input, c': Chain)
    requires Ordered(c.st) && Step(c, input, c')
    ensures Ordered(c'.st) && c.st.proposed <= c'.st.proposed
  {
    StepExtends(c, input, c');
    ExtendsKeepsOrder(c, input, c', BlockProducer(c.st, input));
  }

  lemma ExtendsKeepsOrder(c: Chain, input: Input, c': Chain, p: Account)
    requires Ordered(c.st) && Extends(c, input, c', p)
    ensures Ordered(c'.st) && c.st.proposed <= c'.st.proposed
  {
    CountBoundsKept(c.st, input.confirmed, c'.st.counts, c'.st.proposed);
    LibOrdered(c.st, p, c'.st.lib);
    forall q | q in c'.st.lastIrb
      ensures c'.st.lastIrb[q] <= c'.st.proposed
    {
      ImpliedAfter(c, input, c', p, q);
    }
  }

  lemma StepKeepsInv(c: Chain, input: Input, c': Chain)
    requires Inv(c) && Step(c, input, c') && Admissible(c.st, input)
    ensures Inv(c') && c.st.proposed <= c'.st.proposed
  {
    var p := BlockProducer(c.st, input);
    StepExtends(c, input, c');
    ExtendsKeepsInv(c, input, c', p);
  }

  lemma ExtendsKeepsInv(c: Chain, input: Input, c': Chain, p: Account)
    requires Inv(c) && Extends(c, input, c', p) && Admissible(c.st, input)
    ensures Inv(c') && c.st.proposed <= c'.st.proposed
  {
    ExtendsKeepsOrder(c, input, c', p);
    CountsKept(c, input, c', p);
    ProducedKept(c, input, c', p);
    SettledKept(c, input, c', p);
  }

  // Genesis: nothing produced, nothing proposed, the initial schedule active and pending.
  ghost predicate Genesis(c: Chain) {
    && c.blocks == [] && c.st.blockNum == c.base
    && c.st.proposed == 0 && c.st.lib == 0 && c.st.counts == []
    && c.st.lastProduced == map[] && c.st.lastIrb == map[]
    && 0 < |c.st.active.producers| <= MAX_PRODUCERS && c.st.pending == Pending(0, c.st.active)
  }

  // c' is reached from c by accepting the given blocks.
  ghost predicate Run(c: Chain, inputs: seq<Input>, c': Chain)
    decreases |inputs|
  {
    if inputs == [] then c' == c
    else
      var n := |inputs| - 1;
      exists m :: Run(c, inputs[..n], m) && Step(m, inputs[n], c')
  }

  // The chain has n blocks, from number base + 1 on.
  predicate Numbered(base: nat, n: nat, c: Chain) {
    c.base == base && |c.blocks| == n && c.st.blockNum == base + n
  }

  lemma StepNumbers(base: nat, n: nat, c: Chain, input: Input, c': Chain)
    requires Numbered(base, n, c) && Step(c, input, c')
    ensures Numbered(base, n + 1, c')
  {
  }

  lemma {:induction false} RunKeepsOrder(c: Chain, inputs: seq<Input>, c': Chain)
    requires Genesis(c) && Run(c, inputs, c')
    ensures Ordered(c'.st) && Numbered(c.base, |inputs|, c')
    decreases |inputs|
  {
    if inputs != [] {
      var n := |inputs| - 1;
      var m :| Run(c, inputs[..n], m) && Step(m, inputs[n], c');
      RunKeepsOrder(c, inputs[..n], m);
      StepKeepsOrder(m, inputs[n], c');
      StepNumbers(c.base, n, m, inputs[n], c');
    }
  }

  // None of the blocks from number base + 1 on confirms more blocks than there are numbers
  // before its own.
  predicate Modest(base: nat, inputs: seq<Input>) {
    forall i :: 0 <= i < |inputs| ==> inputs[i].confirmed <= base + i + 1
  }

  lemma ModestPrefix(base: nat, inputs: seq<Input>, n: nat)
    requires Modest(base, inputs) && n <= |inputs|
    ensures Modest(base, inputs[..n])
  {
  }

  lemma GenesisInv(c: Chain)
    requires Genesis(c)
    ensures Inv(c)
  {
  }

  lemma ModestStepKeepsInv(base: nat, inputs: seq<Input>, n: nat, c: Chain, c': Chain)
    requires n < |inputs| && Modest(base, inputs) && Numbered(base, n, c)
    requires Inv(c) && Step(c, inputs[n], c')
    ensures Inv(c')
  {
    StepKeepsInv(c, inputs[n], c');
  }

  lemma {:induction false} RunKeepsInv(c: Chain, inputs: seq<Input>, c': Chain)
    requires Genesis(c) && Run(c, inputs, c') && Modest(c.base, inputs)
    ensures Inv(c')
    decreases |inputs|
  {
    if inputs == [] {
      GenesisInv(c);
    } else {
      var n := |inputs| - 1;
      var m :| Run(c, inputs[..n], m) && Step(m, inputs[n], c');
      ModestPrefix(c.base, inputs, n);
      RunKeepsInv(c, inputs[..n], m);
      RunKeepsOrder(c, inputs[..n], m);
      ModestStepKeepsInv(c.base, inputs, n, m, c');
    }
  }

  // Block k was confirmed by more than two thirds as many distinct producers as its schedule
  // has.
  predicate HasQuorum(c: Chain, k: nat) {
    && c.base < k <= c.base + |c.blocks|
    && 3 * |Confirmers(c.base, c.blocks, k)| > 2 * c.blocks[k - c.base - 1].scheduled
  }

  lemma SettledQuorum(c: Chain, k: nat)
    requires Settled(c.base, c.blocks, k) && k != 0
    ensures HasQuorum(c, k)
  {
  }

  // On every chain, a block that is irreversible or proposed to be has a quorum.
  lemma IrreversibleHasQuorum(c: Chain, inputs: seq<Input>, c': Chain)
    requires Genesis(c) && Run(c, inputs, c') && Modest(c.base, inputs)
    ensures c'.st.lib <= c'.st.proposed <= c'.st.blockNum == c'.base + |c'.blocks|
    ensures c'.st.lib != 0 ==> HasQuorum(c', c'.st.lib)
    ensures c'.st.proposed != 0 ==> HasQuorum(c', c'.st.proposed)
  {
    RunKeepsInv(c, inputs, c');
    if c'.st.lib != 0 {
      SettledQuorum(c', c'.st.lib);
    }
    if c'.st.proposed != 0 {
      SettledQuorum(c', c'.st.proposed);
    }
  }
}
