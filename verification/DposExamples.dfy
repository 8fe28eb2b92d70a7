/**
 Two runs from a genesis state, block by block: one in which the last irreversible block
 falls, and one in which a block confirms more blocks than there are.
 */
module DposExamples {
  import opened Collections
  import opened Dpos
  import opened DposSafety
  import DposLib

  // ----- symbolic steps -----

  // What makes a block acceptable.
  ghost predicate Acceptable(st: State, input: Input, p: Account, lib: nat) {
    && WellFormed(st) && input.slot > st.slot && p == ScheduledProducer(st.active, input.slot)
    && MayConfirm(st, p, input.confirmed)
    && (input.announced.Some? ==> !Promotes(st, lib) && st.pending.schedule.producers == []
                                  && input.announced.value.version == st.active.version + 1)
  }

  lemma Accepts(st: State, input: Input, st': State, p: Account, counts: seq<nat>, proposed: nat)
    requires Acceptable(st, input, p, st'.lib)
    requires counts == NextCounts(st, input.confirmed) && proposed == NextProposed(st, input.confirmed)
    requires st' == Assembled(st, input, st'.lib, input.slot, p, counts, proposed)
    ensures Next(st, input, st'.lib) == Ok(st')
  {
  }

  lemma Accept(c: Chain, input: Input, c': Chain, p: Account, counts: seq<nat>, proposed: nat)
    requires Acceptable(c.st, input, p, c'.st.lib) && Representable(c.st, input)
    requires counts == NextCounts(c.st, input.confirmed) && proposed == NextProposed(c.st, input.confirmed)
    requires c'.st == Assembled(c.st, input, c'.st.lib, input.slot, p, counts, proposed)
    requires IsLib(WithProducer(c.st.lastIrb, p, c.st.proposed), c'.st.lib)
    requires c'.base == c.base && c'.blocks == c.blocks + [Block(p, input.confirmed, |c.st.active.producers|)]
    ensures Step(c, input, c')
  {
    Accepts(c.st, input, c'.st, p, counts, proposed);
  }

  // The first block after genesis: nothing is implied yet.
  lemma AcceptFirst(c: Chain, input: Input, c': Chain, p: Account, counts: seq<nat>, proposed: nat)
    requires Acceptable(c.st, input, p, 0) && Representable(c.st, input)
    requires counts == NextCounts(c.st, input.confirmed) && proposed == NextProposed(c.st, input.confirmed)
    requires c'.st == Assembled(c.st, input, 0, input.slot, p, counts, proposed) && c'.st.lib == 0
    requires c.st.lastIrb == map[]
    requires c'.base == c.base && c'.blocks == [Block(p, input.confirmed, |c.st.active.producers|)] && c.blocks == []
    ensures Step(c, input, c')
  {
    Accept(c, input, c', p, counts, proposed);
  }

  // A small block confirms nothing twice.
  lemma MayConfirmNew(st: State, p: Account, confirmed: nat)
    requires confirmed <= st.blockNum + 1 < 1000 && DposLib.ConfirmsNew(st, p, confirmed)
    ensures MayConfirm(st, p, confirmed)
  {
    Sub32Small(st.blockNum + 1, confirmed);
  }

  // Three of four producers taking turns: each block settles the one two before it.
  lemma Rolling(st: State)
    requires WellFormed(st) && |st.active.producers| == 4 && st.counts == [1, 2]
    ensures NextCounts(st, 2) == [1, 2] && NextProposed(st, 2) == st.blockNum - 1
  {
  }

  lemma RollingBlock(c: Chain, input: Input, c': Chain, p: Account)
    requires Acceptable(c.st, input, p, c'.st.lib) && Representable(c.st, input)
    requires |c.st.active.producers| == 4 && c.st.counts == [1, 2] && input.confirmed == 2
    requires c'.st == Assembled(c.st, input, c'.st.lib, input.slot, p, [1, 2], c.st.blockNum - 1)
    requires IsLib(WithProducer(c.st.lastIrb, p, c.st.proposed), c'.st.lib)
    requires c'.base == c.base && c'.blocks == c.blocks + [Block(p, 2, 4)]
    ensures Step(c, input, c')
  {
    Rolling(c.st);
    Accept(c, input, c', p, [1, 2], c.st.blockNum - 1);
  }

  function One(b: bool): nat {
    if b then 1 else 0
  }

  function Four(a: nat, b: nat, c: nat, d: nat): map<Account, nat> {
    map[1 := a, 2 := b, 3 := c, 4 := d]
  }

  lemma FourSet(a: nat, b: nat, c: nat, d: nat, x: nat)
    ensures Four(a, b, c, d)[1 := x] == Four(x, b, c, d)
    ensures Four(a, b, c, d)[2 := x] == Four(a, x, c, d)
    ensures Four(a, b, c, d)[3 := x] == Four(a, b, x, d)
  {
  }

  lemma OneMore(m: map<Account, nat>, p: Account, x: nat, v: nat)
    requires p !in m
    ensures |AtLeast(m[p := x], v)| == |AtLeast(m, v)| + One(x >= v)
  {
    if x >= v {
      assert AtLeast(m[p := x], v) == AtLeast(m, v) + {p};
    } else {
      assert AtLeast(m[p := x], v) == AtLeast(m, v);
    }
  }

  lemma FourAtLeast(a: nat, b: nat, c: nat, d: nat, v: nat)
    ensures |AtLeast(Four(a, b, c, d), v)| == One(a >= v) + One(b >= v) + One(c >= v) + One(d >= v)
  {
    var none: map<Account, nat> := map[];
    assert AtLeast(none, v) == {};
    OneMore(none, 1, a, v);
    OneMore(map[1 := a], 2, b, v);
    OneMore(map[1 := a, 2 := b], 3, c, v);
    OneMore(map[1 := a, 2 := b, 3 := c], 4, d, v);
  }

  // Three of four producers imply r, not three a later block.
  lemma FourLib(a: nat, b: nat, c: nat, d: nat, r: nat)
    requires One(a >= r) + One(b >= r) + One(c >= r) + One(d >= r) >= 3
    requires One(a > r) + One(b > r) + One(c > r) + One(d > r) < 3
    ensures IsLib(Four(a, b, c, d), r)
  {
    FourAtLeast(a, b, c, d, r);
    FourAtLeast(a, b, c, d, r + 1);
    assert Four(a, b, c, d).Keys == {1, 2, 3, 4};
    assert |Four(a, b, c, d)| == |Four(a, b, c, d).Keys|;
  }

  function Two(a: nat, d: nat): map<Account, nat> {
    map[1 := a, 4 := d]
  }

  lemma TwoSet(a: nat, d: nat, x: nat)
    ensures Two(a, d)[1 := x] == Two(x, d)
  {
  }

  lemma TwoLib(a: nat, d: nat)
    requires d <= a
    ensures IsLib(Two(a, d), d)
  {
    var none: map<Account, nat> := map[];
    forall v: nat
      ensures |AtLeast(Two(a, d), v)| == One(a >= v) + One(d >= v)
    {
      assert AtLeast(none, v) == {};
      OneMore(none, 1, a, v);
      OneMore(map[1 := a], 4, d, v);
    }
    assert Two(a, d).Keys == {1, 4};
    assert |Two(a, d)| == |Two(a, d).Keys|;
  }

  // The producer whose turn it is, without the arithmetic of rounds.
  lemma Turn(active: Schedule, slot: nat, i: nat)
    requires i < |active.producers| && slot % |active.producers| == i
    ensures ScheduledProducer(active, slot) == active.producers[i]
  {
  }

  // ----- a run in which the last irreversible block falls -----

  const INITIAL := Schedule(0, [1, 2, 3, 4])
  const LATER := Schedule(1, [4, 1])

  // While producers 1, 2 and 3 take turns and the later schedule waits.
  function Steady(n: nat, slot: nat, proposed: nat, lib: nat,
                  produced: map<Account, nat>, implied: map<Account, nat>): State
  {
    State(n, slot, proposed, lib, INITIAL, produced, implied, [1, 2], Pending(3, LATER))
  }

  lemma SteadyBlock(n: nat, slot: nat, proposed: nat, lib: nat, produced: map<Account, nat>, implied: map<Account, nat>,
                    slot': nat, p: Account, lib': nat, blocks: seq<Block>)
    requires 3 <= n < 900 && slot < slot' && p == INITIAL.producers[slot' % 4] && lib' < 3
    requires p in produced && produced[p] < n - 1 && p in implied && IsLib(implied[p := proposed], lib')
    ensures Step(Chain(1, Steady(n, slot, proposed, lib, produced, implied), blocks), Input(slot', 2, None),
                 Chain(1, Steady(n + 1, slot', n - 1, lib', produced[p := n + 1], implied[p := proposed]),
                       blocks + [Block(p, 2, 4)]))
  {
    var c := Chain(1, Steady(n, slot, proposed, lib, produced, implied), blocks);
    var c' := Chain(1, Steady(n + 1, slot', n - 1, lib', produced[p := n + 1], implied[p := proposed]),
                    blocks + [Block(p, 2, 4)]);
    Turn(INITIAL, slot', slot' % 4);
    MayConfirmNew(c.st, p, 2);
    RollingBlock(c, Input(slot', 2, None), c', p);
  }

  const AT1 := State(1, 0, 0, 0, INITIAL,
    map[], map[], [], Pending(0, INITIAL))

  const AT2 := State(2, 4, 0, 0, INITIAL,
    Four(2, 0, 0, 0), Four(0, 0, 0, 0),
    [2], Pending(0, Schedule(0, [])))

  const AT3 := Steady(3, 5, 0, 0, Four(2, 3, 0, 0), Four(0, 0, 0, 0))

  const AT4 := Steady(4, 6, 2, 0, Four(2, 3, 4, 0), Four(0, 0, 0, 0))

  const AT5 := Steady(5, 8, 3, 0, Four(5, 3, 4, 0), Four(2, 0, 0, 0))

  const AT6 := Steady(6, 9, 4, 0, Four(5, 6, 4, 0), Four(2, 3, 0, 0))

  const AT7 := Steady(7, 10, 5, 2, Four(5, 6, 7, 0), Four(2, 3, 4, 0))

  const AT8 := State(8, 12, 6, 3, LATER,
    Two(8, 0), Two(5, 0),
    [1, 2], Pending(3, Schedule(1, [])))

  const AT9 := State(9, 13, 6, 0, LATER,
    Two(9, 0), Two(6, 0),
    [1, 2, 1], Pending(3, Schedule(1, [])))

  const C1 := Chain(1, AT1, [])
  const C2 := Chain(1, AT2, [Block(1, 0, 4)])
  const C3 := Chain(1, AT3, [Block(1, 0, 4), Block(2, 1, 4)])
  const C4 := Chain(1, AT4, [Block(1, 0, 4), Block(2, 1, 4), Block(3, 2, 4)])
  const C5 := Chain(1, AT5, [Block(1, 0, 4), Block(2, 1, 4), Block(3, 2, 4), Block(1, 2, 4)])
  const C6 := Chain(1, AT6, [Block(1, 0, 4), Block(2, 1, 4), Block(3, 2, 4), Block(1, 2, 4), Block(2, 2, 4)])
  const C7 := Chain(1, AT7, [Block(1, 0, 4), Block(2, 1, 4), Block(3, 2, 4), Block(1, 2, 4), Block(2, 2, 4),
                             Block(3, 2, 4)])
  const C8 := Chain(1, AT8, [Block(1, 0, 4), Block(2, 1, 4), Block(3, 2, 4), Block(1, 2, 4), Block(2, 2, 4),
                             Block(3, 2, 4), Block(1, 2, 4)])
  const C9 := Chain(1, AT9, [Block(1, 0, 4), Block(2, 1, 4), Block(3, 2, 4), Block(1, 2, 4), Block(2, 2, 4),
                             Block(3, 2, 4), Block(1, 2, 4), Block(1, 0, 2)])

  lemma Counts2()
    ensures WellFormed(AT1) && NextCounts(AT1, 0) == [2] && NextProposed(AT1, 0) == 0
  {
  }

  lemma Renewed2()
    ensures Renewed(map[], [1, 2, 3, 4], 1, 2, 0)[1 := 2] == Four(2, 0, 0, 0)
    ensures Renewed(map[], [1, 2, 3, 4], 1, 0, 0) == Four(0, 0, 0, 0)
  {
  }

  lemma Assembled2()
    ensures AT2 == Assembled(AT1, Input(4, 0, None), 0, 4, 1, [2], 0) && Acceptable(AT1, Input(4, 0, None), 1, 0)
  {
    Renewed2();
    Turn(INITIAL, 4, 0);
  }

  lemma Block2()
    ensures Step(C1, Input(4, 0, None), C2)
  {
    Counts2();
    Assembled2();
    AcceptFirst(C1, Input(4, 0, None), C2, 1, [2], 0);
  }

  lemma Counts3()
    ensures WellFormed(AT2) && NextCounts(AT2, 1) == [1, 2] && NextProposed(AT2, 1) == 0
  {
  }

  lemma Lib3()
    ensures IsLib(WithProducer(AT2.lastIrb, 2, 0), 0)
  {
    FourSet(0, 0, 0, 0, 0);
    FourLib(0, 0, 0, 0, 0);
  }

  lemma Assembled3()
    ensures AT3 == Assembled(AT2, Input(5, 1, Some(LATER)), 0, 5, 2, [1, 2], 0)
  {
    FourSet(2, 0, 0, 0, 3);
    FourSet(0, 0, 0, 0, 0);
  }

  lemma Acceptable3()
    ensures Acceptable(AT2, Input(5, 1, Some(LATER)), 2, 0)
  {
    Turn(INITIAL, 5, 1);
    MayConfirmNew(AT2, 2, 1);
  }

  lemma Block3()
    ensures Step(C2, Input(5, 1, Some(LATER)), C3)
  {
    Counts3();
    Lib3();
    Assembled3();
    Acceptable3();
    Accept(C2, Input(5, 1, Some(LATER)), C3, 2, [1, 2], 0);
  }

  lemma Block4()
    ensures Step(C3, Input(6, 2, None), C4)
  {
    FourSet(2, 3, 0, 0, 4);
    FourSet(0, 0, 0, 0, 0);
    FourLib(0, 0, 0, 0, 0);
    SteadyBlock(3, 5, 0, 0, Four(2, 3, 0, 0), Four(0, 0, 0, 0), 6, 3, 0, C3.blocks);
  }

  lemma Block5()
    ensures Step(C4, Input(8, 2, None), C5)
  {
    FourSet(2, 3, 4, 0, 5);
    FourSet(0, 0, 0, 0, 2);
    FourLib(2, 0, 0, 0, 0);
    SteadyBlock(4, 6, 2, 0, Four(2, 3, 4, 0), Four(0, 0, 0, 0), 8, 1, 0, C4.blocks);
  }

  lemma Block6()
    ensures Step(C5, Input(9, 2, None), C6)
  {
    FourSet(5, 3, 4, 0, 6);
    FourSet(2, 0, 0, 0, 3);
    FourLib(2, 3, 0, 0, 0);
    SteadyBlock(5, 8, 3, 0, Four(5, 3, 4, 0), Four(2, 0, 0, 0), 9, 2, 0, C5.blocks);
  }

  lemma Block7()
    ensures Step(C6, Input(10, 2, None), C7)
  {
    FourSet(5, 6, 4, 0, 7);
    FourSet(2, 3, 0, 0, 4);
    FourLib(2, 3, 4, 0, 2);
    SteadyBlock(6, 9, 4, 0, Four(5, 6, 4, 0), Four(2, 3, 0, 0), 10, 3, 2, C6.blocks);
  }

  lemma Renewed8()
    ensures Renewed(Four(5, 6, 7, 0), [4, 1], 1, 8, 3)[1 := 8] == Two(8, 0)
    ensures Renewed(Four(2, 3, 4, 0), [4, 1], 1, 5, 3) == Two(5, 0)
  {
  }

  lemma Assembled8()
    ensures AT8 == Assembled(AT7, Input(12, 2, None), 3, 12, 1, [1, 2], 6)
  {
    Renewed8();
  }

  lemma Lib8()
    ensures IsLib(WithProducer(AT7.lastIrb, 1, 5), 3)
  {
    FourSet(2, 3, 4, 0, 5);
    FourLib(5, 3, 4, 0, 3);
  }

  lemma Acceptable8()
    ensures Acceptable(AT7, Input(12, 2, None), 1, 3)
  {
    Turn(INITIAL, 12, 0);
    MayConfirmNew(AT7, 1, 2);
  }

  lemma Block8()
    ensures Step(C7, Input(12, 2, None), C8)
  {
    Assembled8();
    Lib8();
    Acceptable8();
    RollingBlock(C7, Input(12, 2, None), C8, 1);
  }

  lemma Counts9()
    ensures WellFormed(AT8) && NextCounts(AT8, 0) == [1, 2, 1] && NextProposed(AT8, 0) == 6
  {
  }

  lemma Lib9()
    ensures IsLib(WithProducer(AT8.lastIrb, 1, 6), 0)
  {
    TwoSet(5, 0, 6);
    TwoLib(6, 0);
  }

  lemma Assembled9()
    ensures AT9 == Assembled(AT8, Input(13, 0, None), 0, 13, 1, [1, 2, 1], 6)
  {
    TwoSet(8, 0, 9);
    TwoSet(5, 0, 6);
  }

  lemma Acceptable9()
    ensures Acceptable(AT8, Input(13, 0, None), 1, 0)
  {
    Turn(LATER, 13, 1);
    MayConfirmNew(AT8, 1, 0);
  }

  lemma Block9()
    ensures Step(C8, Input(13, 0, None), C9)
  {
    Counts9();
    Lib9();
    Assembled9();
    Acceptable9();
    Accept(C8, Input(13, 0, None), C9, 1, [1, 2, 1], 6);
  }

  lemma RunOn(c: Chain, inputs: seq<Input>, m: Chain, input: Input, c': Chain)
    requires Run(c, inputs, m) && Step(m, input, c')
    ensures Run(c, inputs + [input], c')
  {
    assert (inputs + [input])[..|inputs|] == inputs;
  }

  const I2 := [Input(4, 0, None)]
  const I3 := I2 + [Input(5, 1, Some(LATER))]
  const I4 := I3 + [Input(6, 2, None)]
  const I5 := I4 + [Input(8, 2, None)]
  const I6 := I5 + [Input(9, 2, None)]
  const I7 := I6 + [Input(10, 2, None)]

  lemma Run2()
    ensures Genesis(C1) && Run(C1, I2, C2)
  {
    Block2();
    RunOn(C1, [], C1, Input(4, 0, None), C2);
  }

  lemma Run3()
    ensures Run(C1, I3, C3)
  {
    Run2();
    Block3();
    RunOn(C1, I2, C2, Input(5, 1, Some(LATER)), C3);
  }

  lemma Run4()
    ensures Run(C1, I4, C4)
  {
    Run3();
    Block4();
    RunOn(C1, I3, C3, Input(6, 2, None), C4);
  }

  lemma Run5()
    ensures Run(C1, I5, C5)
  {
    Run4();
    Block5();
    RunOn(C1, I4, C4, Input(8, 2, None), C5);
  }

  lemma Run6()
    ensures Run(C1, I6, C6)
  {
    Run5();
    Block6();
    RunOn(C1, I5, C5, Input(9, 2, None), C6);
  }

  lemma Run7()
    ensures Run(C1, I7, C7)
  {
    Run6();
    Block7();
    RunOn(C1, I6, C6, Input(10, 2, None), C7);
  }

  // In block 8 a schedule takes effect, and in block 9 the last irreversible block falls
  // from 3 to 0.
  lemma LibCanFall()
    ensures Genesis(C1) && Run(C1, I7, C7)
    ensures Step(C7, Input(12, 2, None), C8) && Step(C8, Input(13, 0, None), C9)
    ensures C8.st.lib == 3 && C9.st.lib == 0
  {
    Run2();
    Run7();
    Block8();
    Block9();
  }

  // ----- a run in which the check against confirming twice wraps around -----

  const PAIR := Schedule(0, [1, 2])

  function Both(a: nat, b: nat): map<Account, nat> {
    map[1 := a, 2 := b]
  }

  const U1 := State(1, 0, 0, 0, PAIR, map[], map[], [], Pending(0, PAIR))
  const U2 := State(2, 2, 0, 0, PAIR, Both(2, 0), Both(0, 0), [1], Pending(0, Schedule(0, [])))
  const U3 := State(3, 4, 2, 0, PAIR, Both(3, 0), Both(0, 0), [1], Pending(0, Schedule(0, [])))

  const D1 := Chain(1, U1, [])
  const D2 := Chain(1, U2, [Block(1, 0, 2)])
  const D3 := Chain(1, U3, [Block(1, 0, 2), Block(1, 10, 2)])

  lemma CountsU2()
    ensures WellFormed(U1) && NextCounts(U1, 0) == [1] && NextProposed(U1, 0) == 0
  {
  }

  lemma AssembledU2()
    ensures U2 == Assembled(U1, Input(2, 0, None), 0, 2, 1, [1], 0) && Acceptable(U1, Input(2, 0, None), 1, 0)
  {
    assert Renewed(map[], [1, 2], 1, 2, 0)[1 := 2] == Both(2, 0) && Renewed(map[], [1, 2], 1, 0, 0) == Both(0, 0);
    Turn(PAIR, 2, 0);
  }

  // Producer 1 of two produces block 2.
  lemma FirstBlock()
    ensures Genesis(D1) && Step(D1, Input(2, 0, None), D2)
  {
    CountsU2();
    AssembledU2();
    AcceptFirst(D1, Input(2, 0, None), D2, 1, [1], 0);
  }

  lemma LibU3()
    ensures IsLib(WithProducer(U2.lastIrb, 1, 0), 0)
  {
    var none: map<Account, nat> := map[];
    forall v: nat
      ensures |AtLeast(Both(0, 0), v)| == One(0 >= v) + One(0 >= v)
    {
      assert AtLeast(none, v) == {};
      OneMore(none, 1, 0, v);
      OneMore(map[1 := 0], 2, 0, v);
    }
    assert Both(0, 0).Keys == {1, 2} && Both(0, 0)[1 := 0] == Both(0, 0);
    assert |Both(0, 0)| == |Both(0, 0).Keys|;
  }

  lemma CountsU3()
    ensures WellFormed(U2) && NextCounts(U2, 10) == [1] && NextProposed(U2, 10) == 2
  {
  }

  lemma AssembledU3()
    ensures U3 == Assembled(U2, Input(4, 10, None), 0, 4, 1, [1], 2)
  {
    assert Both(2, 0)[1 := 3] == Both(3, 0) && Both(0, 0)[1 := 0] == Both(0, 0);
  }

  lemma AcceptableU3()
    ensures Acceptable(U2, Input(4, 10, None), 1, 0)
  {
    Turn(PAIR, 4, 0);
    DposLib.GuardIsExact(U2, 1, 10);
  }

  lemma OnlyOneConfirms()
    ensures Confirmers(1, D3.blocks, 2) == {1}
  {
    assert D3.blocks[..1] == [Block(1, 0, 2)];
  }

  lemma BlocksU3()
    ensures D3.base == D2.base && D3.blocks == D2.blocks + [Block(1, 10, |D2.st.active.producers|)]
  {
  }

  // Then it produces block 3, confirming ten blocks before it. That passes the check.
  lemma SecondBlock()
    ensures Step(D2, Input(4, 10, None), D3)
  {
    CountsU3();
    AssembledU3();
    AcceptableU3();
    LibU3();
    BlocksU3();
    Accept(D2, Input(4, 10, None), D3, 1, [1], 2);
  }

  const J2 := [Input(2, 0, None)]
  const J3 := J2 + [Input(4, 10, None)]

  lemma RunU2()
    ensures Genesis(D1) && Run(D1, J2, D2)
  {
    FirstBlock();
    RunOn(D1, [], D1, Input(2, 0, None), D2);
    assert [] + J2 == J2;
  }

  lemma RunU3()
    ensures Run(D1, J3, D3)
  {
    RunU2();
    SecondBlock();
    RunOn(D1, J2, D2, Input(4, 10, None), D3);
  }

  // Block 2 is proposed with the confirmations of one producer.
  lemma UnguardedProposal()
    ensures Genesis(D1) && Run(D1, J3, D3) && !Modest(D1.base, J3)
    ensures D3.st.proposed == 2 && !HasQuorum(D3, 2)
  {
    RunU2();
    RunU3();
    assert J3[1] == Input(4, 10, None);
    OnlyOneConfirms();
  }
}
