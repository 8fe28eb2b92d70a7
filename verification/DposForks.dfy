/**
 Two forks of one chain under one schedule cannot both settle a block of the same number
 unless more than a third of the producers confirmed that number on both.
 */
module DposForks {
  import opened Collections
  import opened Dpos
  import opened DposSafety

  // The schedule is and stays S, and only its producers have produced.
  ghost predicate Fixed(c: Chain, s: seq<Account>) {
    && c.st.active.producers == s && (c.st.pending.schedule.producers == [] || c.st.pending.schedule.producers == s)
    && forall i :: 0 <= i < |c.blocks| ==> c.blocks[i].producer in s && c.blocks[i].scheduled == |s|
  }

  ghost predicate Quiet(inputs: seq<Input>) {
    forall i :: 0 <= i < |inputs| ==> inputs[i].announced.None?
  }

  lemma ExtendsKeepsFixed(c: Chain, input: Input, c': Chain, p: Account, s: seq<Account>)
    requires Fixed(c, s) && Extends(c, input, c', p) && input.announced.None?
    ensures Fixed(c', s)
  {
  }

  lemma StepKeepsFixed(c: Chain, input: Input, c': Chain, s: seq<Account>)
    requires Fixed(c, s) && Step(c, input, c') && input.announced.None?
    ensures Fixed(c', s) && c'.base == c.base
  {
    StepExtends(c, input, c');
    ExtendsKeepsFixed(c, input, c', BlockProducer(c.st, input), s);
  }

  lemma {:induction false} RunKeepsFixed(c: Chain, inputs: seq<Input>, c': Chain, s: seq<Account>)
    requires Fixed(c, s) && Quiet(inputs) && Run(c, inputs, c')
    ensures Fixed(c', s) && c'.base == c.base
    decreases |inputs|
  {
    if inputs != [] {
      var n := |inputs| - 1;
      assert Quiet(inputs[..n]);
      var m :| Run(c, inputs[..n], m) && Step(m, inputs[n], c');
      RunKeepsFixed(c, inputs[..n], m, s);
      StepKeepsFixed(m, inputs[n], c', s);
    }
  }

  lemma {:induction false} ConfirmersScheduled(base: nat, blocks: seq<Block>, k: nat, s: seq<Account>)
    requires forall i :: 0 <= i < |blocks| ==> blocks[i].producer in s
    ensures forall p :: p in Confirmers(base, blocks, k) ==> p in s
    decreases |blocks|
  {
    if blocks != [] {
      ConfirmersScheduled(base, blocks[..|blocks| - 1], k, s);
    }
  }

  // A set of members of a list has at most as many elements as the list.
  lemma {:induction false} MembersSize(a: set<Account>, s: seq<Account>)
    requires forall p :: p in a ==> p in s
    ensures |a| <= |s|
    decreases |s|
  {
    if s == [] {
      assert a == {};
    } else {
      MembersSize(a - {s[0]}, s[1..]);
      SubsetSize(a, (a - {s[0]}) + {s[0]});
    }
  }

  // Two quorums of the same producers share more than a third of them.
  lemma QuorumsMeet(a: set<Account>, b: set<Account>, s: seq<Account>)
    requires forall p :: p in a + b ==> p in s
    requires 3 * |a| > 2 * |s| && 3 * |b| > 2 * |s|
    ensures 3 * |a * b| > |s|
  {
    MembersSize(a + b, s);
    assert a + b == a + (b - a * b);
    assert |a + b| == |a| + |b - a * b|;
    assert b == (b - a * b) + a * b;
  }

  // k is irreversible or proposed to be on the chain.
  ghost predicate Final(c: Chain, k: nat) {
    k != 0 && (k == c.st.lib || k == c.st.proposed)
  }

  // What each fork contributes: a quorum of the producers of the schedule.
  lemma FinalQuorum(g: Chain, inputs: seq<Input>, c: Chain, k: nat)
    requires Genesis(g) && Run(g, inputs, c) && Quiet(inputs) && Modest(g.base, inputs) && Final(c, k)
    ensures 3 * |Confirmers(c.base, c.blocks, k)| > 2 * |g.st.active.producers|
    ensures forall p :: p in Confirmers(c.base, c.blocks, k) ==> p in g.st.active.producers
  {
    IrreversibleHasQuorum(g, inputs, c);
    RunKeepsFixed(g, inputs, c, g.st.active.producers);
    ConfirmersScheduled(c.base, c.blocks, k, g.st.active.producers);
  }

  lemma ForksShareConfirmers(g: Chain, inputs1: seq<Input>, c1: Chain, inputs2: seq<Input>, c2: Chain, k: nat)
    requires Genesis(g)
    requires Run(g, inputs1, c1) && Quiet(inputs1) && Modest(g.base, inputs1)
    requires Run(g, inputs2, c2) && Quiet(inputs2) && Modest(g.base, inputs2)
    requires Final(c1, k) && Final(c2, k)
    ensures 3 * |Confirmers(c1.base, c1.blocks, k) * Confirmers(c2.base, c2.blocks, k)| > |g.st.active.producers|
  {
    FinalQuorum(g, inputs1, c1, k);
    FinalQuorum(g, inputs2, c2, k);
    QuorumsMeet(Confirmers(c1.base, c1.blocks, k), Confirmers(c2.base, c2.blocks, k), g.st.active.producers);
  }
}
