/**
 The visitor that records permissions and can undo (unittests/misc_tests.cpp). It keeps one
 list and the lengths the list had at each push; this refines a stack of transactions.
 */
module UndoStack {
  import opened Collections

  type Permission = nat

  datatype Log = Log(permissions: seq<Permission>, sizes: seq<nat>)

  datatype Op = Visit(p: Permission) | Repeat(p: Permission) | Push | Pop | Squash

  ghost predicate Valid(t: Log) {
    && (forall i :: 0 <= i < |t.sizes| ==> t.sizes[i] <= |t.permissions|)
    && (forall i, j :: 0 <= i < j < |t.sizes| ==> t.sizes[i] <= t.sizes[j])
  }

  // Undoing and squashing need a push before them.
  predicate Allowed(t: Log, op: Op) {
    op.Pop? || op.Squash? ==> t.sizes != []
  }

  function Step(t: Log, op: Op): Log
    requires Valid(t) && Allowed(t, op)
  {
    match op
    case Visit(p) => Log(t.permissions + [p], t.sizes)
    case Repeat(_) => t
    case Push => Log(t.permissions, t.sizes + [|t.permissions|])
    case Pop => Log(t.permissions[..t.sizes[|t.sizes| - 1]], t.sizes[..|t.sizes| - 1])
    case Squash => Log(t.permissions, t.sizes[..|t.sizes| - 1])
  }

  lemma StepKeepsValid(t: Log, op: Op)
    requires Valid(t) && Allowed(t, op)
    ensures Valid(Step(t, op))
  {
  }

  class PermissionVisitor {
    var permissions: seq<Permission>
    var sizes: seq<nat>

    ghost function State(): Log
      reads this
    {
      Log(permissions, sizes)
    }

    constructor ()
      ensures State() == Log([], [])
    {
      permissions, sizes := [], [];
    }

    method Visit(p: Permission)
      requires Valid(State())
      modifies this
      ensures State() == Step(old(State()), Op.Visit(p))
    {
      permissions := permissions + [p];
    }

    method PushUndo()
      requires Valid(State())
      modifies this
      ensures State() == Step(old(State()), Push)
    {
      sizes := sizes + [|permissions|];
    }

    // The check that the list is long enough never fails.
    method PopUndo()
      requires Valid(State()) && sizes != []
      modifies this
      ensures State() == Step(old(State()), Pop)
    {
      var n := sizes[|sizes| - 1];
      permissions := permissions[..n];
      sizes := sizes[..|sizes| - 1];
    }

    method SquashUndo() returns (ok: bool)
      requires Valid(State())
      modifies this
      ensures ok <==> old(sizes) != []
      ensures State() == if ok then Step(old(State()), Squash) else old(State())
    {
      ok := |sizes| >= 1;
      if ok {
        sizes := sizes[..|sizes| - 1];
      }
    }
  }

  // ----- a stack of transactions -----

  // The lengths up to the k-th, then hi, cut the list in pieces.
  ghost predicate Cuts(p: seq<Permission>, sizes: seq<nat>, k: nat, hi: nat) {
    && k <= |sizes| && hi <= |p| && (forall i :: 0 <= i < k ==> sizes[i] <= hi)
    && (forall i, j :: 0 <= i < j < k ==> sizes[i] <= sizes[j])
  }

  function Pieces(p: seq<Permission>, sizes: seq<nat>, k: nat, hi: nat): (f: seq<seq<Permission>>)
    requires Cuts(p, sizes, k, hi)
    ensures |f| == k + 1
    decreases k
  {
    if k == 0 then [p[..hi]] else Pieces(p, sizes, k - 1, sizes[k - 1]) + [p[sizes[k - 1]..hi]]
  }

  // What each open transaction has recorded, the outermost first.
  function Frames(t: Log): (f: seq<seq<Permission>>)
    requires Valid(t)
    ensures |f| == |t.sizes| + 1
  {
    Pieces(t.permissions, t.sizes, |t.sizes|, |t.permissions|)
  }

  // Record, begin a transaction, drop it, or make it part of the one around it.
  function Transact(f: seq<seq<Permission>>, op: Op): seq<seq<Permission>>
    requires f != [] && (op.Pop? || op.Squash? ==> |f| > 1)
  {
    var n := |f| - 1;
    match op
    case Visit(p) => f[n := f[n] + [p]]
    case Repeat(_) => f
    case Push => f + [[]]
    case Pop => f[..n]
    case Squash => f[..n][n - 1 := f[n - 1] + f[n]]
  }

  function Flatten(f: seq<seq<Permission>>): seq<Permission> {
    if f == [] then [] else Flatten(f[..|f| - 1]) + f[|f| - 1]
  }

  lemma {:induction false} PiecesFlatten(p: seq<Permission>, sizes: seq<nat>, k: nat, hi: nat)
    requires Cuts(p, sizes, k, hi)
    ensures Flatten(Pieces(p, sizes, k, hi)) == p[..hi]
    decreases k
  {
    var f := Pieces(p, sizes, k, hi);
    if k == 0 {
      assert f[..0] == [];
    } else {
      PiecesFlatten(p, sizes, k - 1, sizes[k - 1]);
      assert f[..k] == Pieces(p, sizes, k - 1, sizes[k - 1]);
    }
  }

  // The list is what all transactions have recorded.
  lemma FramesFlatten(t: Log)
    requires Valid(t)
    ensures Flatten(Frames(t)) == t.permissions
  {
    PiecesFlatten(t.permissions, t.sizes, |t.sizes|, |t.permissions|);
  }

  // Pieces depend on the list up to hi and on the lengths up to the k-th.
  lemma {:induction false} PiecesSame(p: seq<Permission>, q: seq<Permission>, s: seq<nat>, r: seq<nat>, k: nat, hi: nat)
    requires Cuts(p, s, k, hi) && Cuts(q, r, k, hi)
    requires p[..hi] == q[..hi] && forall i :: 0 <= i < k ==> s[i] == r[i]
    ensures Pieces(p, s, k, hi) == Pieces(q, r, k, hi)
    decreases k
  {
    if k > 0 {
      var n := s[k - 1];
      assert p[..n] == p[..hi][..n] && q[..n] == q[..hi][..n];
      assert p[n..hi] == p[..hi][n..] && q[n..hi] == q[..hi][n..];
      PiecesSame(p, q, s, r, k - 1, n);
    }
  }

  // What is recorded on top belongs to the innermost transaction.
  lemma PiecesGrow(p: seq<Permission>, s: seq<nat>, k: nat, lo: nat, hi: nat)
    requires Cuts(p, s, k, lo) && lo <= hi <= |p|
    ensures Pieces(p, s, k, hi) == Pieces(p, s, k, lo)[k := Pieces(p, s, k, lo)[k] + p[lo..hi]]
  {
    if k == 0 {
      assert p[..lo] + p[lo..hi] == p[..hi];
    } else {
      assert p[s[k - 1]..lo] + p[lo..hi] == p[s[k - 1]..hi];
    }
  }

  lemma TakeAll(a: seq<Permission>, b: seq<Permission>)
    ensures (a + b)[..|a|] == a[..|a|] == a && (a + b)[|a|..|a + b|] == b
  {
  }

  lemma VisitRefines(t: Log, x: Permission)
    requires Valid(t)
    ensures Valid(Step(t, Visit(x))) && Frames(Step(t, Visit(x))) == Transact(Frames(t), Visit(x))
  {
    var k, n, p := |t.sizes|, |t.permissions|, t.permissions + [x];
    StepKeepsValid(t, Visit(x));
    TakeAll(t.permissions, [x]);
    PiecesSame(t.permissions, p, t.sizes, t.sizes, k, n);
    PiecesGrow(p, t.sizes, k, n, n + 1);
  }

  lemma PushRefines(t: Log)
    requires Valid(t)
    ensures Valid(Step(t, Push)) && Frames(Step(t, Push)) == Transact(Frames(t), Push)
  {
    var n := |t.permissions|;
    StepKeepsValid(t, Push);
    PiecesSame(t.permissions, t.permissions, t.sizes, t.sizes + [n], |t.sizes|, n);
    assert t.permissions[n..n] == [];
  }

  lemma PopRefines(t: Log)
    requires Valid(t) && t.sizes != []
    ensures Valid(Step(t, Pop)) && Frames(Step(t, Pop)) == Transact(Frames(t), Pop)
  {
    var k := |t.sizes| - 1;
    var n := t.sizes[k];
    StepKeepsValid(t, Pop);
    PiecesSame(t.permissions, t.permissions[..n], t.sizes, t.sizes[..k], k, n);
    assert Frames(t)[..k + 1] == Pieces(t.permissions, t.sizes, k, n);
  }

  lemma SquashRefines(t: Log)
    requires Valid(t) && t.sizes != []
    ensures Valid(Step(t, Squash)) && Frames(Step(t, Squash)) == Transact(Frames(t), Squash)
  {
    var k := |t.sizes| - 1;
    var n, hi := t.sizes[k], |t.permissions|;
    StepKeepsValid(t, Squash);
    PiecesSame(t.permissions, t.permissions, t.sizes, t.sizes[..k], k, hi);
    PiecesGrow(t.permissions, t.sizes, k, n, hi);
    assert Frames(t)[..k + 1] == Pieces(t.permissions, t.sizes, k, n);
  }

  // One list with lengths does what a stack of transactions does, step by step.
  lemma Refines(t: Log, op: Op)
    requires Valid(t) && Allowed(t, op)
    ensures Valid(Step(t, op)) && Frames(Step(t, op)) == Transact(Frames(t), op)
  {
    match op
    case Visit(x) => VisitRefines(t, x);
    case Repeat(_) =>
    case Push => PushRefines(t);
    case Pop => PopRefines(t);
    case Squash => SquashRefines(t);
  }

  // ----- whole runs -----

  // Each undo or squash has its push in the sequence, and the other way round.
  predicate Balanced(ops: seq<Op>, depth: nat)
    decreases |ops|
  {
    if ops == [] then depth == 0
    else
      var n := |ops| - 1;
      match ops[n]
      case Push => depth > 0 && Balanced(ops[..n], depth - 1)
      case Pop => Balanced(ops[..n], depth + 1)
      case Squash => Balanced(ops[..n], depth + 1)
      case Visit(_) => Balanced(ops[..n], depth)
      case Repeat(_) => Balanced(ops[..n], depth)
  }

  // u is reached from t by the operations, all of them allowed.
  ghost predicate Run(t: Log, ops: seq<Op>, u: Log)
    decreases |ops|
  {
    if ops == [] then u == t
    else
      var n := |ops| - 1;
      exists v :: Run(t, ops[..n], v) && Valid(v) && Allowed(v, ops[n]) && u == Step(v, ops[n])
  }

  // The operations on a stack of transactions, unless one has no transaction to end.
  function TransactAll(f: seq<seq<Permission>>, ops: seq<Op>): (r: Option<seq<seq<Permission>>>)
    requires f != []
    ensures r.Some? ==> r.value != []
    decreases |ops|
  {
    if ops == [] then Some(f)
    else
      var n := |ops| - 1;
      var g := TransactAll(f, ops[..n]);
      if g.None? || ((ops[n].Pop? || ops[n].Squash?) && |g.value| == 1) then None else Some(Transact(g.value, ops[n]))
  }

  // Over every sequence of operations the visitor does what the stack of transactions does.
  lemma {:induction false} RunRefines(t: Log, ops: seq<Op>, u: Log)
    requires Valid(t) && Run(t, ops, u)
    ensures Valid(u) && TransactAll(Frames(t), ops) == Some(Frames(u))
    decreases |ops|
  {
    if ops != [] {
      var n := |ops| - 1;
      var v :| Run(t, ops[..n], v) && Valid(v) && Allowed(v, ops[n]) && u == Step(v, ops[n]);
      RunRefines(t, ops[..n], v);
      Refines(v, ops[n]);
    }
  }

  // And it can do all that the stack of transactions can.
  lemma {:induction false} RunExists(t: Log, ops: seq<Op>) returns (u: Log)
    requires Valid(t) && TransactAll(Frames(t), ops).Some?
    ensures Run(t, ops, u)
    decreases |ops|
  {
    u := t;
    if ops != [] {
      var n := |ops| - 1;
      var v := RunExists(t, ops[..n]);
      RunRefines(t, ops[..n], v);
      u := Step(v, ops[n]);
    }
  }

  // u has t underneath: its list and its lengths begin with those of t, and depth more
  // lengths follow that are not below the length of the list of t.
  ghost predicate Above(t: Log, u: Log, depth: nat) {
    && Valid(u) && t.permissions <= u.permissions && |u.sizes| == |t.sizes| + depth && t.sizes <= u.sizes
    && forall i :: |t.sizes| <= i < |u.sizes| ==> |t.permissions| <= u.sizes[i]
  }

  lemma StepAbove(t: Log, u: Log, op: Op, depth: nat)
    requires Above(t, u, depth) && Allowed(u, op) && (op.Pop? || op.Squash? ==> depth > 0)
    ensures var after := match op case Push => depth + 1 case Pop => depth - 1 case Squash => depth - 1 case _ => depth;
            Above(t, Step(u, op), after)
  {
    StepKeepsValid(u, op);
  }

  lemma {:induction false} RunStaysAbove(t: Log, ops: seq<Op>, u: Log, depth: nat)
    requires Valid(t) && Run(t, ops, u) && Balanced(ops, depth)
    ensures Above(t, u, depth)
    decreases |ops|
  {
    if ops != [] {
      var n := |ops| - 1;
      var v :| Run(t, ops[..n], v) && Valid(v) && Allowed(v, ops[n]) && u == Step(v, ops[n]);
      var before := match ops[n] case Push => depth - 1 case Pop => depth + 1 case Squash => depth + 1 case _ => depth;
      RunStaysAbove(t, ops[..n], v, before);
      StepAbove(t, v, ops[n], before);
    }
  }

  // Whatever happens between a push and its undo, the undo restores the list and the stack.
  lemma PopRestores(t: Log, ops: seq<Op>, u: Log)
    requires Valid(t) && Balanced(ops, 0) && Run(Step(t, Push), ops, u)
    ensures Valid(u) && Allowed(u, Pop) && Step(u, Pop) == t
  {
    StepKeepsValid(t, Push);
    RunStaysAbove(Step(t, Push), ops, u, 0);
    PopOnTop(t, Step(t, Push), u);
  }

  lemma PopOnTop(t: Log, pushed: Log, u: Log)
    requires Valid(t) && pushed == Log(t.permissions, t.sizes + [|t.permissions|]) && Above(pushed, u, 0)
    ensures Allowed(u, Pop) && Step(u, Pop) == t
  {
    assert u.sizes == pushed.sizes;
    assert u.permissions[..|t.permissions|] == t.permissions;
  }
}
