/**
 Round-robin scheduling: each producer of a schedule is given a fixed number of
 consecutive slots, and the schedule repeats.
 */
module RoundRobin {
  import opened Bits

  // The position whose turn it is at a slot, in rounds of the given length.
  function Position(round: nat, repetitions: nat, slot: nat): nat
    requires round > 0 && repetitions > 0
  {
    slot % round / repetitions
  }

  // The position in a schedule of the given size.
  function ScheduledIndex(size: nat, repetitions: nat, slot: nat): (i: nat)
    requires size > 0 && repetitions > 0
    ensures i < size
  {
    MulMonotone(1, size, repetitions);
    QuotientBound(slot % (size * repetitions), size, repetitions);
    Position(size * repetitions, repetitions, slot)
  }

  lemma QuotientBound(s: nat, size: nat, repetitions: nat)
    requires repetitions > 0 && s < size * repetitions
    ensures s / repetitions < size
  {
    if s / repetitions >= size {
      MulMonotone(size, s / repetitions, repetitions);
    }
  }

  // How many of the slots from lo up to hi are given to a position.
  function Turns(round: nat, repetitions: nat, lo: nat, hi: nat, position: nat): nat
    requires round > 0 && repetitions > 0 && lo <= hi
    decreases hi
  {
    if lo == hi then 0
    else Turns(round, repetitions, lo, hi - 1, position) +
         if Position(round, repetitions, hi - 1) == position then 1 else 0
  }

  lemma {:induction false} TurnsJoin(round: nat, repetitions: nat, lo: nat, mid: nat, hi: nat, position: nat)
    requires round > 0 && repetitions > 0 && lo <= mid <= hi
    ensures Turns(round, repetitions, lo, hi, position) ==
            Turns(round, repetitions, lo, mid, position) + Turns(round, repetitions, mid, hi, position)
    decreases hi
  {
    if mid < hi {
      TurnsJoin(round, repetitions, lo, mid, hi - 1, position);
    }
  }

  // ----- one aligned round -----

  // The turn of position q begins at slot x of a round.
  lemma PositionInTurn(round: nat, repetitions: nat, x: nat, q: nat, t: nat)
    requires x == q * repetitions && x + repetitions <= round && t < repetitions
    ensures Position(round, repetitions, x + t) == q
  {
    QuotientUnique(x + t, round, 0, x + t);
    QuotientUnique(x + t, repetitions, q, t);
  }

  // The first t slots of that turn.
  lemma {:induction false} TurnsWithin(round: nat, repetitions: nat, x: nat, q: nat, t: nat, position: nat)
    requires x == q * repetitions && x + repetitions <= round && t <= repetitions && repetitions > 0
    ensures Turns(round, repetitions, x, x + t, position) == if position == q then t else 0
    decreases t
  {
    if t > 0 {
      TurnsWithin(round, repetitions, x, q, t - 1, position);
      PositionInTurn(round, repetitions, x, q, t - 1);
    }
  }

  // The first q turns of a round, up to slot x.
  lemma {:induction false} TurnsFirst(round: nat, repetitions: nat, x: nat, q: nat, position: nat)
    requires x == q * repetitions && x <= round && repetitions > 0 && round > 0
    ensures Turns(round, repetitions, 0, x, position) == if position < q then repetitions else 0
    decreases q
  {
    if q > 0 {
      PreviousTurn(x, q, repetitions);
      var y := x - repetitions;
      TurnsFirst(round, repetitions, y, q - 1, position);
      TurnsWithin(round, repetitions, y, q - 1, repetitions, position);
      TurnsJoin(round, repetitions, 0, y, x, position);
    }
  }

  lemma PreviousTurn(x: nat, q: nat, repetitions: nat)
    requires x == q * repetitions && q > 0
    ensures x - repetitions == (q - 1) * repetitions >= 0
  {
  }

  // ----- any window of one round -----

  // A slot and the one a full round later belong to the same position.
  lemma SameAfterRound(round: nat, repetitions: nat, slot: nat)
    requires round > 0 && repetitions > 0
    ensures Position(round, repetitions, slot) == Position(round, repetitions, slot + round)
  {
    QuotientUnique(slot + round, round, slot / round + 1, slot % round);
  }

  lemma {:induction false} WindowSlides(round: nat, repetitions: nat, start: nat, position: nat)
    requires round > 0 && repetitions > 0
    ensures Turns(round, repetitions, start, start + round, position) == Turns(round, repetitions, 0, round, position)
    decreases start
  {
    if start > 0 {
      var s := start - 1;
      WindowSlides(round, repetitions, s, position);
      SameAfterRound(round, repetitions, s);
      TurnsJoin(round, repetitions, s, start, start + round, position);
      assert Turns(round, repetitions, s, s, position) == 0;
    }
  }

  // Every window of size * repetitions slots, aligned or not, gives each position its
  // repetitions.
  lemma Fairness(size: nat, repetitions: nat, start: nat, position: nat)
    requires size > 0 && repetitions > 0 && position < size
    ensures size * repetitions > 0
    ensures Turns(size * repetitions, repetitions, start, start + size * repetitions, position) == repetitions
  {
    var round := size * repetitions;
    MulMonotone(1, size, repetitions);
    TurnsFirst(round, repetitions, round, size, position);
    WindowSlides(round, repetitions, start, position);
  }

  // ----- the first block of the next round -----

  // calc_block_num_of_next_round_first_block
  method NextRoundFirstBlock(headBlockNum: nat, size: nat, repetitions: nat) returns (res: nat)
    requires size > 0 && repetitions > 0
    ensures size * repetitions > 0
    ensures res > headBlockNum && res % (size * repetitions) == 0
    ensures forall n :: headBlockNum < n < res ==> n % (size * repetitions) != 0
  {
    MulMonotone(1, size, repetitions);
    res := headBlockNum + 1;
    var blocksPerRound := size * repetitions;
    ghost var last := headBlockNum + blocksPerRound - headBlockNum % blocksPerRound;
    NextMultiple(headBlockNum, blocksPerRound);
    while res % blocksPerRound != 0
      invariant headBlockNum < res <= last
      invariant forall n :: headBlockNum < n < res ==> n % blocksPerRound != 0
      decreases last - res
    {
      res := res + 1;
    }
  }

  lemma NextMultiple(a: nat, b: nat)
    requires b > 0
    ensures (a + b - a % b) % b == 0
  {
    QuotientUnique(a + b - a % b, b, a / b + 1, 0);
  }

  // From there the first position has its whole turn.
  lemma RoundStartsAtFirst(n: nat, size: nat, repetitions: nat, t: nat)
    requires size > 0 && repetitions > 0 && t < repetitions
    requires size * repetitions > 0 && n % (size * repetitions) == 0
    ensures ScheduledIndex(size, repetitions, n + t) == 0
  {
    var round := size * repetitions;
    MulMonotone(1, size, repetitions);
    QuotientUnique(n + t, round, n / round, t);
    QuotientUnique(t, repetitions, 0, t);
  }
}
