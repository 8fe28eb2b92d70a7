/**
 How the last irreversible block moves along a chain, and what the check against confirming
 a block twice is worth.
 */
module DposLib {
  import opened Collections
  import opened Dpos
  import opened DposSafety

  // ----- the last irreversible block -----

  // Enough producers imply the last irreversible block or a later one.
  ghost predicate Backed(st: State) {
    if st.lastIrb == map[] then st.lib == 0 else |AtLeast(st.lastIrb, st.lib)| >= Needed(|st.lastIrb|)
  }

  // The next last irreversible block is not before v exactly when enough producers imply v,
  // counting the one whose turn it is for the block proposed now.
  lemma LibMoves(c: Chain, input: Input, c': Chain, v: nat)
    requires Step(c, input, c') && c.st.lastIrb != map[]
    ensures var m := WithProducer(c.st.lastIrb, BlockProducer(c.st, input), c.st.proposed);
            v <= c'.st.lib <==> |AtLeast(m, v)| >= Needed(|m|)
  {
    var m := WithProducer(c.st.lastIrb, BlockProducer(c.st, input), c.st.proposed);
    assert |m| == |m.Keys| == |c.st.lastIrb|;
    LibReaches(m, c'.st.lib, v);
  }

  // It cannot fall where it is backed.
  lemma BackedRises(c: Chain, input: Input, c': Chain)
    requires Ordered(c.st) && Backed(c.st) && Step(c, input, c')
    ensures c.st.lib <= c'.st.lib
  {
    if c.st.lastIrb != map[] {
      var m := WithProducer(c.st.lastIrb, BlockProducer(c.st, input), c.st.proposed);
      assert |m| == |m.Keys| == |c.st.lastIrb|;
      SubsetSize(AtLeast(c.st.lastIrb, c.st.lib), AtLeast(m, c.st.lib));
      LibMoves(c, input, c', c.st.lib);
    }
  }

  lemma NeededGrows(n: nat)
    ensures Needed(n) <= Needed(n + 1) <= Needed(n) + 1 && Needed(1) == 1
  {
  }

  // A block that leaves the schedule as it is leaves the last irreversible block backed.
  lemma ContinuedBacks(m: map<Account, nat>, p: Account, proposed: nat, lib: nat)
    requires IsLib(WithProducer(m, p, proposed), lib) && lib <= proposed
    ensures |AtLeast(m[p := proposed], lib)| >= Needed(|m[p := proposed]|)
  {
    if p !in m {
      var m' := m[p := proposed];
      assert m'.Keys == m.Keys + {p};
      assert |m'| == |m'.Keys| && |m| == |m.Keys|;
      assert AtLeast(m', lib) == AtLeast(m, lib) + {p};
      NeededGrows(|m|);
    }
  }

  lemma StepBacks(c: Chain, input: Input, c': Chain)
    requires Ordered(c.st) && Step(c, input, c') && !Promotes(c.st, c'.st.lib)
    ensures Backed(c'.st)
  {
    var p := BlockProducer(c.st, input);
    LibOrdered(c.st, p, c'.st.lib);
    ContinuedBacks(c.st.lastIrb, p, c.st.proposed, c'.st.lib);
  }

  // On every chain the last irreversible block falls only in a block after one that put a
  // new schedule into effect.
  lemma LibFallsOnlyAfterPromotion(c: Chain, inputs: seq<Input>, c1: Chain, input1: Input, c2: Chain, input2: Input,
                                   c3: Chain)
    requires Genesis(c) && Run(c, inputs, c1) && Step(c1, input1, c2) && Step(c2, input2, c3)
    requires c3.st.lib < c2.st.lib
    ensures Promotes(c1.st, c2.st.lib)
  {
    RunKeepsOrder(c, inputs, c1);
    StepKeepsOrder(c1, input1, c2);
    if !Promotes(c1.st, c2.st.lib) {
      StepBacks(c1, input1, c2);
      BackedRises(c2, input2, c3);
    }
  }

  // ----- who implies it -----

  function Producers(schedule: Schedule): set<Account> {
    set p | p in schedule.producers
  }

  // Exactly the active producers imply blocks.
  ghost predicate ActiveImply(st: State) {
    st.lastIrb.Keys == Producers(st.active)
  }

  // The first block puts the initial schedule into effect.
  lemma FirstActiveImply(c: Chain, input: Input, c': Chain)
    requires Genesis(c) && Step(c, input, c')
    ensures ActiveImply(c'.st)
  {
    StepExtends(c, input, c');
  }

  lemma StepActiveImply(c: Chain, input: Input, c': Chain)
    requires ActiveImply(c.st) && Step(c, input, c')
    ensures ActiveImply(c'.st)
  {
    StepExtends(c, input, c');
  }

  lemma {:induction false} RunActiveImply(c: Chain, inputs: seq<Input>, c': Chain)
    requires Genesis(c) && Run(c, inputs, c') && inputs != []
    ensures ActiveImply(c'.st)
    decreases |inputs|
  {
    var n := |inputs| - 1;
    var m :| Run(c, inputs[..n], m) && Step(m, inputs[n], c');
    if n == 0 {
      FirstActiveImply(c, inputs[0], c');
    } else {
      RunActiveImply(c, inputs[..n], m);
      StepActiveImply(m, inputs[n], c');
    }
  }

  // On every run the last irreversible block has two stages behind it: more than two thirds
  // of the active producers imply it or a later block; and each block a producer implies was
  // confirmed by a quorum, if no block confirms more than there are.
  lemma IrreversibleIsImplied(g: Chain, inputs: seq<Input>, c: Chain, input: Input, c': Chain)
    requires Genesis(g) && Run(g, inputs, c) && inputs != [] && Step(c, input, c')
    ensures var m := WithProducer(c.st.lastIrb, BlockProducer(c.st, input), c.st.proposed);
            && m.Keys == Producers(c.st.active)
            && 3 * |AtLeast(m, c'.st.lib)| > 2 * |Producers(c.st.active)|
            && (Modest(g.base, inputs) ==> forall p :: p in m && m[p] != 0 ==> HasQuorum(c, m[p]))
  {
    var m := WithProducer(c.st.lastIrb, BlockProducer(c.st, input), c.st.proposed);
    RunActiveImply(g, inputs, c);
    SupportOfLib(c, input, c', m);
    if Modest(g.base, inputs) {
      RunKeepsInv(g, inputs, c);
      ImpliedQuorums(c, BlockProducer(c.st, input), m);
    }
  }

  lemma ImpliedQuorums(c: Chain, p: Account, m: map<Account, nat>)
    requires Inv(c) && m == WithProducer(c.st.lastIrb, p, c.st.proposed)
    ensures forall q :: q in m && m[q] != 0 ==> HasQuorum(c, m[q])
  {
    forall q | q in m && m[q] != 0
      ensures HasQuorum(c, m[q])
    {
      SettledQuorum(c, m[q]);
    }
  }

  lemma SupportOfLib(c: Chain, input: Input, c': Chain, m: map<Account, nat>)
    requires Step(c, input, c') && ActiveImply(c.st)
    requires m == WithProducer(c.st.lastIrb, BlockProducer(c.st, input), c.st.proposed)
    ensures 3 * |AtLeast(m, c'.st.lib)| > 2 * |Producers(c.st.active)|
  {
    assert |m| == |m.Keys| == |Producers(c.st.active)|;
    assert BlockProducer(c.st, input) in Producers(c.st.active);
    NeededIsTwoThirds(|m|);
  }

  // ----- the check against confirming twice -----

  // Read without wrap-around: the producer's last block is before all blocks confirmed now.
  predicate ConfirmsNew(st: State, p: Account, confirmed: nat) {
    p in st.lastProduced ==> st.lastProduced[p] + confirmed < st.blockNum + 1
  }

  // For a producer known to have produced, the check says this exactly when no more blocks
  // are confirmed than there are numbers: the subtraction wraps around beyond that.
  lemma GuardIsExact(st: State, p: Account, confirmed: nat)
    requires st.blockNum + 1 < 0x1_0000_0000 && confirmed < 0x1_0000
    requires p in st.lastProduced && st.lastProduced[p] <= st.blockNum
    ensures (MayConfirm(st, p, confirmed) <==> ConfirmsNew(st, p, confirmed)) <==> confirmed <= st.blockNum + 1
  {
    if confirmed <= st.blockNum + 1 {
      Sub32Small(st.blockNum + 1, confirmed);
    } else {
      assert Sub32(st.blockNum + 1, confirmed) == st.blockNum + 1 - confirmed + 0x1_0000_0000;
    }
  }
}
