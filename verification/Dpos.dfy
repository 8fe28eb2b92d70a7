/**
 Irreversibility in delegated proof of stake: the part of a block header's state that
 decides which blocks can no longer be undone, and how the next block changes it
 (block_header_state.cpp).

 Every block confirms itself and a number of blocks before it. A block with confirmations
 from more than two thirds of the producers is proposed as irreversible; the last block
 proposed by more than two thirds of the producers is irreversible.
 */
module Dpos {
  import opened Collections
  import RoundRobin

  type Account = nat

  const PRODUCER_REPETITIONS: nat := 1
  const MAX_PRODUCERS: nat := 23
  const MAX_TRACKED: nat := 1024       // maximum_tracked_dpos_confirmations

  datatype Schedule = Schedule(version: nat, producers: seq<Account>)

  // A schedule waiting for the block that announced it to become irreversible.
  datatype Pending = Pending(libNum: nat, schedule: Schedule)

  datatype State = State(
    blockNum: nat,
    slot: nat,                            // header.timestamp
    proposed: nat,                        // dpos_proposed_irreversible_blocknum
    lib: nat,                             // dpos_irreversible_blocknum
    active: Schedule,
    lastProduced: map<Account, nat>,      // producer_to_last_produced
    lastIrb: map<Account, nat>,           // producer_to_last_implied_irb
    counts: seq<nat>,                     // confirm_count, the newest block last
    pending: Pending)

  // What a block brings: its slot (0 for the next one), how many blocks before it it
  // confirms, and the schedule it announces, if any.
  datatype Input = Input(slot: nat, confirmed: nat, announced: Option<Schedule>)

  datatype Error = NotInFuture | DoubleConfirm | PendingPromoted | WrongVersion | PendingNotConfirmed

  datatype Result = Ok(state: State) | Err(error: Error)

  // ----- confirmations still missing, newest block last -----

  function RequiredConfirmations(producers: nat): nat {
    producers * 2 / 3 + 1
  }

  // The new block is tracked too; the oldest one is dropped when the list is full.
  function Track(counts: seq<nat>, required: nat): (r: seq<nat>)
    ensures 0 < |r| <= |counts| + 1 && r[|r| - 1] == required
  {
    if |counts| < MAX_TRACKED then counts + [required] else counts[1..] + [required]
  }

  // The newest of the last todo blocks that one more confirmation completes.
  function Completed(counts: seq<nat>, i: nat, todo: nat): (r: Option<nat>)
    requires i <= |counts|
    ensures r.Some? ==> r.value < i
    decreases i
  {
    if i == 0 || todo == 0 then None
    else if counts[i - 1] == 1 then Some(i - 1)
    else Completed(counts, i - 1, todo - 1)
  }

  // One confirmation for each of the blocks from lo on.
  function Decrement(counts: seq<nat>, lo: int): (r: seq<nat>)
    requires forall j :: 0 <= j < |counts| ==> counts[j] >= 1
    ensures |r| == |counts|
    ensures forall j :: 0 <= j < |counts| ==> r[j] == if j >= lo then counts[j] - 1 else counts[j]
  {
    seq(|counts|, j requires 0 <= j < |counts| => if j >= lo then counts[j] - 1 else counts[j])
  }

  // Confirming todo blocks: a completed block is dropped with everything before it.
  function Confirm(counts: seq<nat>, todo: nat): seq<nat>
    requires forall j :: 0 <= j < |counts| ==> counts[j] >= 1
  {
    match Completed(counts, |counts|, todo)
    case Some(i) => Decrement(counts, i)[i + 1..]
    case None => Decrement(counts, |counts| - todo)
  }

  // The block a completed entry stands for.
  function Proposed(counts: seq<nat>, todo: nat, blockNum: nat, before: nat): nat
    requires |counts| <= blockNum + 1
  {
    match Completed(counts, |counts|, todo)
    case Some(i) => blockNum - (|counts| - 1 - i)
    case None => before
  }

  lemma {:induction false} CompletedIs(counts: seq<nat>, i: nat, todo: nat)
    requires i <= |counts|
    ensures match Completed(counts, i, todo)
            case Some(j) => i - todo <= j < i && counts[j] == 1 && (forall t :: j < t < i ==> counts[t] != 1)
            case None => forall t :: 0 <= t < i && i - todo <= t ==> counts[t] != 1
    decreases i
  {
    if i > 0 && todo > 0 && counts[i - 1] != 1 {
      CompletedIs(counts, i - 1, todo - 1);
    }
  }

  // The loop of next(). A confirmation count is an 8-bit number.
  method ConfirmBlocks(tracked: seq<nat>, confirmed: nat, blockNum: nat, before: nat)
    returns (counts: seq<nat>, proposed: nat)
    requires |tracked| <= blockNum + 1
    requires forall j :: 0 <= j < |tracked| ==> 1 <= tracked[j] < 256
    ensures counts == Confirm(tracked, confirmed + 1)
    ensures proposed == Proposed(tracked, confirmed + 1, blockNum, before)
  {
    counts := tracked;
    proposed := before;
    var i := |counts| - 1;
    var blocksToConfirm := confirmed + 1;
    while i >= 0 && blocksToConfirm > 0
      invariant -1 <= i < |tracked| && |counts| == |tracked|
      invariant blocksToConfirm + |tracked| - 1 - i == confirmed + 1 && blocksToConfirm >= 0
      invariant counts == Decrement(tracked, i + 1)
      invariant Completed(tracked, |tracked|, confirmed + 1) == Completed(tracked, i + 1, blocksToConfirm)
      invariant proposed == before
    {
      counts := counts[i := (counts[i] + 255) % 256];
      assert counts == Decrement(tracked, i);
      if counts[i] == 0 {
        proposed := blockNum - (|counts| - 1 - i);
        counts := counts[i + 1..];
        return;
      }
      i := i - 1;
      blocksToConfirm := blocksToConfirm - 1;
    }
    assert counts == Decrement(tracked, |tracked| - (confirmed + 1));
  }

  // ----- the last irreversible block -----

  // The producers that have implied v or a later block to be irreversible.
  function AtLeast(m: map<Account, nat>, v: nat): set<Account> {
    set p | p in m && m[p] >= v
  }

  // More than two thirds of n.
  function Needed(n: nat): int {
    n - (n - 1) / 3
  }

  lemma NeededIsTwoThirds(n: nat)
    requires n > 0
    ensures 3 * Needed(n) > 2 * n && 3 * (Needed(n) - 1) <= 2 * n
  {
  }

  // The latest block number that enough producers imply.
  predicate IsLib(m: map<Account, nat>, r: nat) {
    if |m| == 0 then r == 0 else |AtLeast(m, r)| >= Needed(|m|) && |AtLeast(m, r + 1)| < Needed(|m|)
  }

  lemma AtLeastShrinks(m: map<Account, nat>, u: nat, v: nat)
    requires u <= v
    ensures AtLeast(m, v) <= AtLeast(m, u) <= m.Keys
    ensures |AtLeast(m, v)| <= |AtLeast(m, u)| <= |m|
  {
    SubsetSize(AtLeast(m, v), AtLeast(m, u));
    SubsetSize(AtLeast(m, u), m.Keys);
  }

  // A block number is irreversible or earlier exactly when enough producers imply it.
  lemma LibReaches(m: map<Account, nat>, r: nat, v: nat)
    requires IsLib(m, r) && |m| > 0
    ensures v <= r <==> |AtLeast(m, v)| >= Needed(|m|)
  {
    if v <= r {
      AtLeastShrinks(m, v, r);
    } else {
      AtLeastShrinks(m, r + 1, v);
    }
  }

  lemma LibUnique(m: map<Account, nat>, r: nat, r': nat)
    requires IsLib(m, r) && IsLib(m, r')
    ensures r == r'
  {
    if |m| > 0 {
      LibReaches(m, r, r');
      LibReaches(m, r', r);
    }
  }

  // ----- computing it by rank -----

  function Count(s: seq<nat>, v: nat): nat {
    if s == [] then 0 else Count(s[..|s| - 1], v) + if s[|s| - 1] >= v then 1 else 0
  }

  predicate Sorted(s: seq<nat>) {
    forall i, j :: 0 <= i < j < |s| ==> s[i] <= s[j]
  }

  lemma {:induction false} CountBounds(s: seq<nat>, v: nat, lo: nat, hi: nat)
    requires lo <= hi <= |s|
    requires forall i :: 0 <= i < lo ==> s[i] < v
    requires forall i :: hi <= i < |s| ==> s[i] >= v
    ensures |s| - hi <= Count(s, v) <= |s| - lo
    decreases |s|
  {
    if s != [] {
      var n := |s| - 1;
      CountBounds(s[..n], v, if lo < n then lo else n, if hi < n then hi else n);
    }
  }

  // std::nth_element: the element that would be at index k if the list were sorted.
  method NthElement(s: seq<nat>, k: nat) returns (r: nat)
    requires k < |s|
    ensures Count(s, r) >= |s| - k && Count(s, r + 1) < |s| - k
  {
    var t: seq<nat> := [];
    var i := 0;
    while i < |s|
      invariant 0 <= i <= |s| && |t| == i && Sorted(t)
      invariant forall v :: Count(t, v) == Count(s[..i], v)
    {
      assert s[..i + 1][..i] == s[..i];
      t := Insert(t, s[i]);
      i := i + 1;
    }
    assert s[..i] == s;
    r := t[k];
    CountBounds(t, r, 0, k);
    CountBounds(t, r + 1, k + 1, |t|);
  }

  method Insert(t: seq<nat>, x: nat) returns (r: seq<nat>)
    requires Sorted(t)
    ensures Sorted(r) && |r| == |t| + 1
    ensures forall v :: Count(r, v) == Count(t, v) + if x >= v then 1 else 0
  {
    if t == [] || t[|t| - 1] <= x {
      r := t + [x];
      assert r[..|t|] == t;
    } else {
      var n := |t| - 1;
      r := Insert(t[..n], x);
      assert forall i :: 0 <= i < |r| ==> r[i] <= t[n] by {
        InsertedBound(t, x, r);
      }
      var q := r + [t[n]];
      assert q[..|r|] == r;
      r := q;
    }
  }

  lemma InsertedBound(t: seq<nat>, x: nat, r: seq<nat>)
    requires t != [] && Sorted(t) && x < t[|t| - 1]
    requires Sorted(r) && forall v :: Count(r, v) == Count(t[..|t| - 1], v) + if x >= v then 1 else 0
    ensures forall i :: 0 <= i < |r| ==> r[i] <= t[|t| - 1]
  {
    var n := |t| - 1;
    CountBounds(t[..n], t[n] + 1, n, n);
    if r != [] && r[|r| - 1] > t[n] {
      CountsLast(r, t[n] + 1);
    }
  }

  lemma CountsLast(r: seq<nat>, v: nat)
    requires r != [] && r[|r| - 1] >= v
    ensures Count(r, v) >= 1
  {
  }

  // The producer of the next block stands for the block proposed now, if it is in the list.
  function WithProducer(m: map<Account, nat>, producer: Account, proposed: nat): (r: map<Account, nat>)
    ensures r.Keys == m.Keys
  {
    if producer in m then m[producer := proposed] else m
  }

  lemma CountStep(m: map<Account, nat>, keys: set<Account>, p: Account, nums: seq<nat>, v: nat)
    requires p in keys && p in m && Count(nums, v) == |AtLeast(m, v) - keys|
    ensures Count(nums + [m[p]], v) == |AtLeast(m, v) - (keys - {p})|
  {
    assert (nums + [m[p]])[..|nums|] == nums;
    var a := AtLeast(m, v);
    if m[p] >= v {
      assert a - (keys - {p}) == (a - keys) + {p};
    } else {
      assert a - (keys - {p}) == a - keys;
    }
  }

  // The numbers of all entries, that of the producer replaced.
  method CollectNumbers(lastIrb: map<Account, nat>, producer: Account, proposed: nat) returns (blocknums: seq<nat>)
    ensures |blocknums| == |lastIrb|
    ensures forall v: nat :: Count(blocknums, v) == |AtLeast(WithProducer(lastIrb, producer, proposed), v)|
  {
    ghost var m := WithProducer(lastIrb, producer, proposed);
    var keys := lastIrb.Keys;
    blocknums := [];
    forall v: nat
      ensures Count(blocknums, v) == |AtLeast(m, v) - keys|
    {
      assert AtLeast(m, v) - keys == {};
    }
    while keys != {}
      invariant keys <= lastIrb.Keys && |blocknums| + |keys| == |lastIrb.Keys|
      invariant forall v: nat :: Count(blocknums, v) == |AtLeast(m, v) - keys|
      decreases |keys|
    {
      var p :| p in keys;
      forall v: nat
        ensures Count(blocknums + [m[p]], v) == |AtLeast(m, v) - (keys - {p})|
      {
        CountStep(m, keys, p, blocknums, v);
      }
      blocknums := blocknums + [if p == producer then proposed else lastIrb[p]];
      keys := keys - {p};
    }
    forall v: nat
      ensures Count(blocknums, v) == |AtLeast(m, v)|
    {
      assert AtLeast(m, v) - keys == AtLeast(m, v);
    }
  }

  // calc_dpos_last_irreversible
  method CalcLib(lastIrb: map<Account, nat>, producer: Account, proposed: nat) returns (r: nat)
    ensures IsLib(WithProducer(lastIrb, producer, proposed), r)
  {
    var blocknums := CollectNumbers(lastIrb, producer, proposed);
    ghost var m := WithProducer(lastIrb, producer, proposed);
    assert |m| == |m.Keys| == |lastIrb|;
    if |blocknums| == 0 {
      return 0;
    }
    r := NthElement(blocknums, (|blocknums| - 1) / 3);
  }

  // ----- the next block -----

  // Unsigned 32-bit subtraction.
  function Sub32(a: nat, b: nat): int {
    (a - b) % 0x1_0000_0000
  }

  // The producer whose turn the slot is.
  function ScheduledProducer(active: Schedule, slot: nat): Account
    requires active.producers != []
  {
    active.producers[RoundRobin.ScheduledIndex(|active.producers|, PRODUCER_REPETITIONS, slot)]
  }

  function BlockSlot(st: State, input: Input): nat {
    if input.slot == 0 then st.slot + 1 else input.slot
  }

  // A producer must not confirm blocks up to its own last one again.
  predicate MayConfirm(st: State, producer: Account, confirmed: nat) {
    producer in st.lastProduced ==> st.lastProduced[producer] < Sub32(st.blockNum + 1, confirmed)
  }

  // The last block of every producer of a schedule that takes effect, and the producer of
  // the block itself.
  function Renewed(known: map<Account, nat>, producers: seq<Account>, producer: Account, own: nat,
                   other: nat): map<Account, nat>
  {
    map p | p in producers :: if p == producer then own else if p in known then known[p] else other
  }

  function Promotes(st: State, lib: nat): bool {
    st.pending.schedule.producers != [] && lib >= st.pending.libNum
  }

  // The pending schedule after the block: a new one, none after a promotion, or the old one.
  function NextPending(st: State, input: Input, promoted: bool): Pending {
    match input.announced
    case Some(sch) => Pending(st.blockNum + 1, sch)
    case None => if promoted then Pending(st.pending.libNum, Schedule(st.pending.schedule.version, [])) else st.pending
  }

  // Schedules have at least one producer and few enough for 8-bit confirmation counts, and
  // every tracked block is missing a confirmation.
  predicate WellFormed(st: State) {
    && 0 < |st.active.producers| <= MAX_PRODUCERS && |st.pending.schedule.producers| <= MAX_PRODUCERS
    && |st.counts| <= MAX_TRACKED && |st.counts| <= st.blockNum
    && forall j :: 0 <= j < |st.counts| ==> 1 <= st.counts[j] < 256
  }

  function NextCounts(st: State, confirmed: nat): seq<nat>
    requires WellFormed(st)
  {
    Confirm(Track(st.counts, RequiredConfirmations(|st.active.producers|)), confirmed + 1)
  }

  function NextProposed(st: State, confirmed: nat): nat
    requires WellFormed(st)
  {
    Proposed(Track(st.counts, RequiredConfirmations(|st.active.producers|)), confirmed + 1,
             st.blockNum + 1, st.proposed)
  }

  // The state after an accepted block, given its confirmation counts and proposed block.
  function Assembled(st: State, input: Input, lib: nat, slot: nat, producer: Account, counts: seq<nat>,
                     proposed: nat): State
  {
    var blockNum := st.blockNum + 1;
    if Promotes(st, lib) then
      var active := st.pending.schedule;
      State(blockNum, slot, proposed, lib, active,
            Renewed(st.lastProduced, active.producers, producer, blockNum, lib)[producer := blockNum],
            Renewed(st.lastIrb, active.producers, producer, st.proposed, lib),
            counts, NextPending(st, input, true))
    else
      State(blockNum, slot, proposed, lib, st.active,
            st.lastProduced[producer := blockNum], st.lastIrb[producer := st.proposed],
            counts, NextPending(st, input, false))
  }

  function Accepted(st: State, input: Input, lib: nat, slot: nat, producer: Account): State
    requires WellFormed(st)
  {
    Assembled(st, input, lib, slot, producer, NextCounts(st, input.confirmed), NextProposed(st, input.confirmed))
  }

  // next() followed by _finish_next(), given the last irreversible block number.
  function Next(st: State, input: Input, lib: nat): Result
    requires WellFormed(st)
  {
    var slot := BlockSlot(st, input);
    var producer := ScheduledProducer(st.active, slot);
    var promoted := Promotes(st, lib);
    if slot <= st.slot then Err(NotInFuture)
    else if !MayConfirm(st, producer, input.confirmed) then Err(DoubleConfirm)
    else if input.announced.Some? && promoted then Err(PendingPromoted)
    else if input.announced.Some? && input.announced.value.version != st.active.version + 1 then Err(WrongVersion)
    else if input.announced.Some? && st.pending.schedule.producers != [] then Err(PendingNotConfirmed)
    else Ok(Accepted(st, input, lib, slot, producer))
  }

  // The loops of next() that rebuild a map for a schedule taking effect.
  method RenewMap(known: map<Account, nat>, producers: seq<Account>, producer: Account, own: nat, other: nat)
    returns (r: map<Account, nat>)
    ensures r == Renewed(known, producers, producer, own, other)
  {
    r := map[];
    for i := 0 to |producers|
      invariant r == Renewed(known, producers[..i], producer, own, other)
    {
      var p := producers[i];
      assert producers[..i + 1] == producers[..i] + [p];
      r := r[p := if p == producer then own else if p in known then known[p] else other];
    }
    assert producers[..|producers|] == producers;
  }

  method CountBlock(st: State, confirmed: nat) returns (counts: seq<nat>, proposed: nat)
    requires WellFormed(st)
    ensures counts == NextCounts(st, confirmed) && proposed == NextProposed(st, confirmed)
  {
    var tracked := Track(st.counts, RequiredConfirmations(|st.active.producers|));
    counts, proposed := ConfirmBlocks(tracked, confirmed, st.blockNum + 1, st.proposed);
  }

  // next(), for a producer that may confirm what it confirms.
  method BuildNext(st: State, input: Input, slot: nat, producer: Account) returns (r: State)
    requires WellFormed(st)
    ensures IsLib(WithProducer(st.lastIrb, producer, st.proposed), r.lib)
    ensures r == Accepted(st, input, r.lib, slot, producer)
  {
    var counts, proposed := CountBlock(st, input.confirmed);
    var lib := CalcLib(st.lastIrb, producer, st.proposed);
    r := Assemble(st, input, lib, slot, producer, counts, proposed);
  }

  method Assemble(st: State, input: Input, lib: nat, slot: nat, producer: Account, counts: seq<nat>, proposed: nat)
    returns (r: State)
    ensures r == Assembled(st, input, lib, slot, producer, counts, proposed)
  {
    var blockNum := st.blockNum + 1;
    if st.pending.schedule.producers != [] && lib >= st.pending.libNum {
      var active := st.pending.schedule;
      var lastProduced := RenewMap(st.lastProduced, active.producers, producer, blockNum, lib);
      lastProduced := lastProduced[producer := blockNum];
      var lastIrb := RenewMap(st.lastIrb, active.producers, producer, st.proposed, lib);
      r := State(blockNum, slot, proposed, lib, active, lastProduced, lastIrb, counts, NextPending(st, input, true));
    } else {
      r := State(blockNum, slot, proposed, lib, st.active, st.lastProduced[producer := blockNum],
                 st.lastIrb[producer := st.proposed], counts, NextPending(st, input, false));
    }
  }

  // The whole step, with the last irreversible block number it finds.
  method NextBlock(st: State, input: Input) returns (r: Result, lib: nat)
    requires WellFormed(st)
    ensures r == Next(st, input, lib)
    ensures r == Err(NotInFuture) || r == Err(DoubleConfirm)
            || IsLib(WithProducer(st.lastIrb, ScheduledProducer(st.active, BlockSlot(st, input)), st.proposed), lib)
  {
    lib := 0;
    var slot := BlockSlot(st, input);
    if slot <= st.slot {
      return Err(NotInFuture), lib;
    }
    var producer := ScheduledProducer(st.active, slot);
    if !MayConfirm(st, producer, input.confirmed) {
      return Err(DoubleConfirm), lib;
    }
    var next := BuildNext(st, input, slot, producer);
    lib := next.lib;
    if input.announced.Some? {
      if Promotes(st, lib) {
        return Err(PendingPromoted), lib;
      }
      if input.announced.value.version != next.active.version + 1 {
        return Err(WrongVersion), lib;
      }
      if st.pending.schedule.producers != [] {
        return Err(PendingNotConfirmed), lib;
      }
    }
    r := Ok(next);
  }
}
