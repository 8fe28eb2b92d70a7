/**
 The field check of the reflection validator: the fields of a class, in declaration
 order, against the fields its FC_REFLECT macro lists, under @swap and @ignore markers.

 The check walks both lists with one cursor each and five lists of names in flight. It
 is proved to pass exactly when an order-free description of the inputs holds.
 */
module FieldMatcher {
  import opened Collections

  type Name = string

  // What the check is given: the class fields, the reflected fields and the two markers.
  datatype Lists = Lists(cls: seq<Name>, refl: seq<Name>, swapped: seq<Name>, ignored: seq<Name>)

  // The assertion that stops the check, in the order of the source.
  datatype Verdict =
    | Passed
    | SwapNotReflected
    | RedundantSwap
    | IgnoredButReflected
    | RedundantIgnore
    | Mismatch
    | ErroneousIgnores
    | UnusedReflectFields
    | ErroneousSwaps
    | SwapsNeverProvided
    | SwapsNotInClass

  // What the macro reader has established before the check starts: no list repeats a name,
  // and a name under both markers (only the implicit id) is not reflected.
  predicate Prepared(l: Lists) {
    && Distinct(l.refl) && Distinct(l.swapped) && Distinct(l.ignored)
    && forall x :: x in l.swapped && x in l.ignored ==> x !in l.refl
  }

  // ----- the description of what passes -----

  // A name under neither marker.
  predicate IsCore(l: Lists, x: Name) {
    x !in l.swapped && x !in l.ignored
  }

  // The first i names of a list, without the marked ones.
  function Core(l: Lists, s: seq<Name>, i: nat): seq<Name>
    requires i <= |s|
  {
    if i == 0 then [] else if IsCore(l, s[i - 1]) then Core(l, s, i - 1) + [s[i - 1]] else Core(l, s, i - 1)
  }

  // The class lists the reflected and the ignored fields and nothing else, nothing is both,
  // swapped fields are reflected, and the unmarked fields come in the same order.
  predicate Consistent(l: Lists) {
    && multiset(l.cls) == multiset(l.refl) + multiset(l.ignored)
    && (forall x :: x in l.refl ==> x !in l.ignored)
    && (forall x :: x in l.swapped ==> x in l.refl)
    && Core(l, l.cls, |l.cls|) == Core(l, l.refl, |l.refl|)
  }

  // Where the run of marked names that ends before position i begins.
  function RunStart(l: Lists, s: seq<Name>, i: nat): (k: nat)
    requires i <= |s|
    ensures k <= i
  {
    if i == 0 || IsCore(l, s[i - 1]) then i else RunStart(l, s, i - 1)
  }

  predicate OpensRun(l: Lists, s: seq<Name>, j: nat)
    requires j <= |s|
  {
    j == 0 || IsCore(l, s[j - 1])
  }

  // Everything the class has listed since the last unmarked field, up to i, is marked as
  // swapped and not among the first j reflected fields.
  predicate OnlyNewSwaps(l: Lists, i: nat, j: nat)
    requires i <= |l.cls| && j <= |l.refl|
  {
    forall t :: RunStart(l, l.cls, i) <= t < i ==> l.cls[t] in l.swapped && l.cls[t] !in l.refl[..j]
  }

  // The class field at i is marked as swapped although it is in order: both lists reach it
  // after the same unmarked fields, the macro lists it first after them, and the class
  // lists nothing but newly swapped fields between them and it.
  predicate InOrderSwap(l: Lists, i: nat, j: nat)
    requires i < |l.cls| && j < |l.refl|
  {
    && l.cls[i] == l.refl[j] && l.cls[i] in l.swapped
    && OpensRun(l, l.refl, j) && Core(l, l.cls, i) == Core(l, l.refl, j)
    && OnlyNewSwaps(l, i, j)
  }

  predicate HasInOrderSwap(l: Lists) {
    exists i, j :: 0 <= i < |l.cls| && 0 <= j < |l.refl| && InOrderSwap(l, i, j)
  }

  // ----- the state of the walk -----

  datatype State = State(
    f: nat,                // f_index
    rf: nat,               // rf_index
    swapped: seq<Name>,    // reflection.swapped
    ignored: seq<Name>,    // reflection.ignored
    back: seq<Name>,       // back_swapped
    fwd: seq<Name>,        // fwd_swapped
    done: seq<Name>)       // ignored

  // list.remove: the first occurrence of x.
  function Remove(s: seq<Name>, x: Name): (r: seq<Name>)
    requires x in s
    ensures multiset(s) == multiset(r) + multiset{x}
    ensures |r| == |s| - 1
  {
    if s[0] == x then
      assert s == [s[0]] + s[1..];
      s[1..]
    else
      assert s == [s[0]] + s[1..];
      [s[0]] + Remove(s[1..], x)
  }

  // One iteration, by the branch it takes.

  function SwapBack(l: Lists, st: State): State
    requires st.f < |l.cls| && l.cls[st.f] in st.swapped
  {
    var x := l.cls[st.f];
    st.(swapped := Remove(st.swapped, x), back := st.back + [x], f := st.f + 1)
  }

  function SwapForward(l: Lists, st: State): State
    requires st.rf < |l.refl| && l.refl[st.rf] in st.swapped
  {
    var x := l.refl[st.rf];
    st.(swapped := Remove(st.swapped, x), fwd := st.fwd + [x], rf := st.rf + 1)
  }

  function Ignore(l: Lists, st: State): State
    requires st.f < |l.cls| && l.cls[st.f] in st.ignored
  {
    var x := l.cls[st.f];
    st.(ignored := Remove(st.ignored, x), done := st.done + [x], f := st.f + 1)
  }

  function SettleBack(l: Lists, st: State): State
    requires st.rf < |l.refl| && l.refl[st.rf] in st.back
  {
    st.(back := Remove(st.back, l.refl[st.rf]), rf := st.rf + 1)
  }

  function SettleForward(l: Lists, st: State): State
    requires st.f < |l.cls| && l.cls[st.f] in st.fwd
  {
    st.(fwd := Remove(st.fwd, l.cls[st.f]), f := st.f + 1)
  }

  function MatchBoth(st: State): State {
    st.(f := st.f + 1, rf := st.rf + 1)
  }

  // ----- what every iteration keeps, whatever the input -----

  ghost predicate InBounds(l: Lists, st: State) {
    st.f <= |l.cls| && st.rf <= |l.refl|
  }

  // Names are conserved: what the class cursor has passed is what the other cursor has
  // passed, up to the names in flight.
  ghost predicate Conserved(l: Lists, st: State)
    requires InBounds(l, st)
  {
    && multiset(l.cls[..st.f]) + multiset(st.fwd)
       == multiset(l.refl[..st.rf]) + multiset(st.back) + multiset(st.done)
    && multiset(st.ignored) + multiset(st.done) == multiset(l.ignored)
  }

  // The unmarked names passed so far agree, and nothing reflected so far is ignored.
  ghost predicate Aligned(l: Lists, st: State)
    requires InBounds(l, st)
  {
    && Core(l, l.cls, st.f) == Core(l, l.refl, st.rf)
    && forall x :: x in l.refl[..st.rf] ==> x !in l.ignored
  }

  // Names in flight are marked as swapped, and a swapped name gone from the list is reflected.
  ghost predicate Marked(l: Lists, st: State) {
    && (forall x :: x in st.swapped ==> x in l.swapped)
    && (forall x :: x in st.back ==> x in l.swapped)
    && (forall x :: x in st.fwd ==> x in l.swapped)
    && (forall x :: x in l.swapped && x !in st.swapped ==> x in l.refl)
  }

  ghost predicate Sound(l: Lists, st: State) {
    InBounds(l, st) && Conserved(l, st) && Aligned(l, st) && Marked(l, st)
  }

  // ----- prefixes and removal -----

  lemma Prefix(s: seq<Name>, i: nat)
    requires i < |s|
    ensures s[..i + 1] == s[..i] + [s[i]]
    ensures multiset(s[..i + 1]) == multiset(s[..i]) + multiset{s[i]}
    ensures forall x :: x in s[..i + 1] <==> x in s[..i] || x == s[i]
  {
    assert s[..i + 1] == s[..i] + [s[i]];
  }

  // The ways a name can enter both sides of a + w == r + b + g, or cross within one.

  lemma EnterBack(a: multiset<Name>, w: multiset<Name>, r: multiset<Name>, b: multiset<Name>, g: multiset<Name>,
                  x: multiset<Name>)
    requires a + w == r + b + g
    ensures a + x + w == r + (b + x) + g
  {
    assert a + x + w == a + w + x;
    assert r + (b + x) + g == r + b + g + x;
  }

  lemma EnterDone(a: multiset<Name>, w: multiset<Name>, r: multiset<Name>, b: multiset<Name>, g: multiset<Name>,
                  x: multiset<Name>)
    requires a + w == r + b + g
    ensures a + x + w == r + b + (g + x)
  {
    assert a + x + w == a + w + x;
    assert r + b + (g + x) == r + b + g + x;
  }

  lemma EnterForward(a: multiset<Name>, w: multiset<Name>, r: multiset<Name>, b: multiset<Name>, g: multiset<Name>,
                     x: multiset<Name>)
    requires a + w == r + b + g
    ensures a + (w + x) == r + x + b + g
  {
    assert a + (w + x) == a + w + x;
    assert r + x + b + g == r + b + g + x;
  }

  lemma EnterBoth(a: multiset<Name>, w: multiset<Name>, r: multiset<Name>, b: multiset<Name>, g: multiset<Name>,
                  x: multiset<Name>)
    requires a + w == r + b + g
    ensures a + x + w == r + x + b + g
  {
    assert a + x + w == a + w + x;
    assert r + x + b + g == r + b + g + x;
  }

  lemma LeaveForward(a: multiset<Name>, w: multiset<Name>, r: multiset<Name>, x: multiset<Name>)
    requires a + (w + x) == r
    ensures a + x + w == r
  {
    assert a + x + w == a + (w + x);
  }

  lemma LeaveBack(a: multiset<Name>, r: multiset<Name>, b: multiset<Name>, g: multiset<Name>, x: multiset<Name>)
    requires a == r + (b + x) + g
    ensures a == r + x + b + g
  {
    assert r + (b + x) + g == r + x + b + g;
  }

  lemma RemoveMembers(s: seq<Name>, x: Name)
    requires x in s
    ensures forall y :: y in Remove(s, x) ==> y in s
    ensures forall y :: y in s && y != x ==> y in Remove(s, x)
  {
    var r := Remove(s, x);
    assert forall y :: y in r <==> y in multiset(r);
    assert forall y :: y in s <==> y in multiset(s);
  }

  lemma IgnoredSplit(l: Lists, st: State, x: Name)
    requires InBounds(l, st) && Conserved(l, st)
    ensures x in l.ignored <==> x in st.ignored || x in st.done
  {
    assert x in l.ignored <==> x in multiset(l.ignored);
    assert x in st.ignored <==> x in multiset(st.ignored);
    assert x in st.done <==> x in multiset(st.done);
  }

  // ----- each branch keeps Sound -----

  lemma SwapBackSound(l: Lists, st: State)
    requires Sound(l, st) && st.f < |l.cls| && l.cls[st.f] in st.swapped && l.cls[st.f] in l.refl
    ensures Sound(l, SwapBack(l, st))
  {
    var x, t := l.cls[st.f], SwapBack(l, st);
    Prefix(l.cls, st.f);
    RemoveMembers(st.swapped, x);
    EnterBack(multiset(l.cls[..st.f]), multiset(st.fwd), multiset(l.refl[..st.rf]), multiset(st.back),
              multiset(st.done), multiset{x});
    assert Conserved(l, t) && Aligned(l, t);
  }

  lemma SwapForwardSound(l: Lists, st: State)
    requires Prepared(l) && Sound(l, st) && st.rf < |l.refl| && l.refl[st.rf] in st.swapped
    ensures Sound(l, SwapForward(l, st))
  {
    var x, t := l.refl[st.rf], SwapForward(l, st);
    Prefix(l.refl, st.rf);
    RemoveMembers(st.swapped, x);
    EnterForward(multiset(l.cls[..st.f]), multiset(st.fwd), multiset(l.refl[..st.rf]), multiset(st.back),
                 multiset(st.done), multiset{x});
    assert Conserved(l, t) && Aligned(l, t);
  }

  lemma IgnoreSound(l: Lists, st: State)
    requires Sound(l, st) && st.f < |l.cls| && l.cls[st.f] in st.ignored
    ensures Sound(l, Ignore(l, st))
  {
    var x, t := l.cls[st.f], Ignore(l, st);
    Prefix(l.cls, st.f);
    IgnoredSplit(l, st, x);
    EnterDone(multiset(l.cls[..st.f]), multiset(st.fwd), multiset(l.refl[..st.rf]), multiset(st.back),
              multiset(st.done), multiset{x});
    assert Conserved(l, t) && Aligned(l, t);
  }

  lemma SettleBackSound(l: Lists, st: State)
    requires Prepared(l) && Sound(l, st) && st.rf < |l.refl| && l.refl[st.rf] in st.back
    ensures Sound(l, SettleBack(l, st))
  {
    var x, t := l.refl[st.rf], SettleBack(l, st);
    Prefix(l.refl, st.rf);
    RemoveMembers(st.back, x);
    LeaveBack(multiset(l.cls[..st.f]) + multiset(st.fwd), multiset(l.refl[..st.rf]), multiset(t.back),
              multiset(st.done), multiset{x});
    assert Conserved(l, t) && Aligned(l, t);
  }

  lemma SettleForwardSound(l: Lists, st: State)
    requires Sound(l, st) && st.f < |l.cls| && l.cls[st.f] in st.fwd
    ensures Sound(l, SettleForward(l, st))
  {
    var x, t := l.cls[st.f], SettleForward(l, st);
    Prefix(l.cls, st.f);
    RemoveMembers(st.fwd, x);
    LeaveForward(multiset(l.cls[..st.f]), multiset(t.fwd),
                 multiset(l.refl[..st.rf]) + multiset(st.back) + multiset(st.done), multiset{x});
    assert Conserved(l, t) && Aligned(l, t);
  }

  lemma MatchBothSound(l: Lists, st: State)
    requires Sound(l, st) && st.f < |l.cls| && st.rf < |l.refl| && l.cls[st.f] == l.refl[st.rf]
    requires l.cls[st.f] !in st.ignored && l.cls[st.f] !in st.done
    ensures Sound(l, MatchBoth(st))
  {
    var x, t := l.cls[st.f], MatchBoth(st);
    Prefix(l.cls, st.f);
    Prefix(l.refl, st.rf);
    IgnoredSplit(l, st, x);
    EnterBoth(multiset(l.cls[..st.f]), multiset(st.fwd), multiset(l.refl[..st.rf]), multiset(st.back),
              multiset(st.done), multiset{x});
    assert Conserved(l, t) && Aligned(l, t);
  }

  // With both lists walked and nothing left in flight, the lists are consistent.
  lemma FinishSound(l: Lists, st: State)
    requires Sound(l, st) && st.f == |l.cls| && st.rf == |l.refl|
    requires st.ignored == [] && st.swapped == [] && st.back == [] && st.fwd == []
    ensures Consistent(l)
  {
    assert l.cls[..st.f] == l.cls && l.refl[..st.rf] == l.refl;
    assert multiset(st.ignored) + multiset(st.done) == multiset(st.done);
    assert multiset(l.cls) + multiset(st.fwd) == multiset(l.cls);
    assert multiset(l.refl) + multiset(st.back) == multiset(l.refl);
  }

  // ----- what a consistent input adds -----

  // Every list in flight is determined by the two cursors.
  ghost predicate Tracked(l: Lists, st: State)
    requires InBounds(l, st)
  {
    var p, q := l.cls[..st.f], l.refl[..st.rf];
    && (forall x :: x in st.swapped <==> x in l.swapped && x !in p && x !in q)
    && (forall x :: x in st.back <==> x in l.swapped && x in p && x !in q)
    && (forall x :: x in st.fwd <==> x in l.swapped && x !in p && x in q)
    && (forall x :: x in st.ignored <==> x in l.ignored && x !in p)
    && (forall x :: x in st.done <==> x in l.ignored && x in p)
    && Distinct(st.swapped) && Distinct(st.back) && Distinct(st.fwd) && Distinct(st.ignored)
  }

  // Unless the walk is still at the head of a run of swaps, the two cursors are not both
  // at names that are still to be swapped.
  ghost predicate HeadOfRun(l: Lists, st: State)
    requires InBounds(l, st)
  {
    || (OpensRun(l, l.refl, st.rf) && OnlyNewSwaps(l, st.f, st.rf))
    || (st.f < |l.cls| && l.cls[st.f] !in st.swapped)
    || (st.rf < |l.refl| && l.refl[st.rf] !in st.swapped)
    || st.f == |l.cls| || st.rf == |l.refl|
  }

  // The walk has not passed a swap that was in order.
  ghost predicate NotPast(l: Lists, st: State) {
    forall i, j :: 0 <= i < |l.cls| && 0 <= j < |l.refl| && InOrderSwap(l, i, j) ==> st.f <= i && st.rf <= j
  }

  ghost predicate Exact(l: Lists, st: State) {
    InBounds(l, st) && Tracked(l, st) && HeadOfRun(l, st) && NotPast(l, st)
  }

  // Consistent lists do not repeat a class field.
  lemma ConsistentDistinct(l: Lists)
    requires Prepared(l) && Consistent(l)
    ensures Distinct(l.cls)
  {
    forall x
      ensures multiset(l.cls)[x] <= 1
    {
      DistinctCount(l.refl, x);
      DistinctCount(l.ignored, x);
      assert x in l.refl <==> x in multiset(l.refl);
      assert x in l.ignored <==> x in multiset(l.ignored);
    }
    CountDistinct(l.cls);
  }

  lemma {:induction false} DistinctCount(s: seq<Name>, x: Name)
    requires Distinct(s)
    ensures multiset(s)[x] <= 1
  {
    if s != [] {
      assert s == [s[0]] + s[1..];
      DistinctCount(s[1..], x);
      assert s[0] !in s[1..];
      assert s[0] !in multiset(s[1..]);
    }
  }

  lemma CountDistinct(s: seq<Name>)
    requires forall x :: multiset(s)[x] <= 1
    ensures Distinct(s)
  {
    forall i, j | 0 <= i < j < |s|
      ensures s[i] != s[j]
    {
      assert s == s[..i] + [s[i]] + s[i + 1..];
      assert multiset(s) == multiset(s[..i]) + multiset{s[i]} + multiset(s[i + 1..]);
      assert s[j] in s[i + 1..];
      assert s[j] in multiset(s[i + 1..]);
      assert multiset(s)[s[i]] == multiset(s[..i])[s[i]] + 1 + multiset(s[i + 1..])[s[i]];
    }
  }

  lemma RemoveDistinct(s: seq<Name>, x: Name)
    requires x in s && Distinct(s)
    ensures Distinct(Remove(s, x)) && x !in Remove(s, x)
    ensures forall y :: y in Remove(s, x) <==> y in s && y != x
  {
    var r := Remove(s, x);
    RemoveMembers(s, x);
    forall y
      ensures multiset(r)[y] <= 1
    {
      DistinctCount(s, y);
    }
    CountDistinct(r);
    DistinctCount(s, x);
    assert x in r <==> x in multiset(r);
  }

  // ----- each branch keeps Tracked -----

  lemma SwapBackTracked(l: Lists, st: State)
    requires Prepared(l) && Consistent(l) && Exact(l, st)
    requires st.f < |l.cls| && l.cls[st.f] in st.swapped
    ensures Tracked(l, SwapBack(l, st))
  {
    Prefix(l.cls, st.f);
    RemoveDistinct(st.swapped, l.cls[st.f]);
  }

  lemma SwapForwardTracked(l: Lists, st: State)
    requires Prepared(l) && Consistent(l) && Exact(l, st)
    requires st.rf < |l.refl| && l.refl[st.rf] in st.swapped
    ensures Tracked(l, SwapForward(l, st))
  {
    Prefix(l.refl, st.rf);
    RemoveDistinct(st.swapped, l.refl[st.rf]);
  }

  lemma IgnoreTracked(l: Lists, st: State)
    requires Prepared(l) && Consistent(l) && Exact(l, st)
    requires st.f < |l.cls| && l.cls[st.f] in st.ignored
    ensures Tracked(l, Ignore(l, st))
  {
    Prefix(l.cls, st.f);
    RemoveDistinct(st.ignored, l.cls[st.f]);
  }

  lemma SettleBackTracked(l: Lists, st: State)
    requires Prepared(l) && Consistent(l) && Exact(l, st)
    requires st.rf < |l.refl| && l.refl[st.rf] in st.back
    ensures Tracked(l, SettleBack(l, st))
  {
    Prefix(l.refl, st.rf);
    RemoveDistinct(st.back, l.refl[st.rf]);
  }

  lemma SettleForwardTracked(l: Lists, st: State)
    requires Prepared(l) && Consistent(l) && Exact(l, st)
    requires st.f < |l.cls| && l.cls[st.f] in st.fwd
    ensures Tracked(l, SettleForward(l, st))
  {
    Prefix(l.cls, st.f);
    RemoveDistinct(st.fwd, l.cls[st.f]);
  }

  lemma MatchBothTracked(l: Lists, st: State)
    requires Prepared(l) && Consistent(l) && Exact(l, st)
    requires st.f < |l.cls| && st.rf < |l.refl| && l.cls[st.f] == l.refl[st.rf] && IsCore(l, l.cls[st.f])
    ensures Tracked(l, MatchBoth(st))
  {
    Prefix(l.cls, st.f);
    Prefix(l.refl, st.rf);
  }

  // ----- runs of marked names -----

  lemma {:induction false} RunCore(l: Lists, s: seq<Name>, i: nat)
    requires i <= |s|
    ensures var k := RunStart(l, s, i);
            && OpensRun(l, s, k) && Core(l, s, k) == Core(l, s, i)
            && forall t :: k <= t < i ==> !IsCore(l, s[t])
  {
    if i > 0 && !IsCore(l, s[i - 1]) {
      RunCore(l, s, i - 1);
    }
  }

  // A longer prefix has no shorter core, and a longer one if it ends in an unmarked name.
  lemma {:induction false} CoreGrows(l: Lists, s: seq<Name>, a: nat, b: nat)
    requires a <= b <= |s|
    ensures Core(l, s, a) <= Core(l, s, b)
    ensures a < b && IsCore(l, s[b - 1]) ==> |Core(l, s, a)| < |Core(l, s, b)|
    ensures (forall t :: a <= t < b ==> !IsCore(l, s[t])) ==> Core(l, s, a) == Core(l, s, b)
    decreases b
  {
    if a < b {
      CoreGrows(l, s, a, b - 1);
    }
  }

  // Before a swap that is in order, the cursors have not reached its run, or the reflected
  // one is at the swap and the class one at a name still to be swapped.
  lemma BeforeSwap(l: Lists, st: State, i: nat, j: nat)
    requires Prepared(l) && Consistent(l) && Sound(l, st) && Exact(l, st)
    requires i < |l.cls| && j < |l.refl| && InOrderSwap(l, i, j) && st.f <= i && st.rf <= j
    ensures (st.f < i && st.rf < j) || (st.rf == j && l.cls[st.f] in st.swapped)
  {
    var k := RunStart(l, l.cls, i);
    RunCore(l, l.cls, i);
    if st.f < k {
      CoreGrows(l, l.cls, st.f, k);
    } else {
      CoreGrows(l, l.cls, k, st.f);
      CoreGrows(l, l.refl, st.rf, j);
      StillToSwap(l, st, i, j);
    }
  }

  lemma StillToSwap(l: Lists, st: State, i: nat, j: nat)
    requires Prepared(l) && Consistent(l) && InBounds(l, st) && Tracked(l, st)
    requires i < |l.cls| && j < |l.refl| && InOrderSwap(l, i, j)
    requires RunStart(l, l.cls, i) <= st.f <= i && st.rf == j
    ensures l.cls[st.f] in st.swapped
  {
    ConsistentDistinct(l);
    assert l.cls[st.f] !in l.cls[..st.f];
    assert l.cls[st.f] in l.swapped && l.cls[st.f] !in l.refl[..j];
  }

  // A step away from a pair of names that are not both to be swapped there does not pass one.
  lemma StepNotPast(l: Lists, st: State, t: State)
    requires Prepared(l) && Consistent(l) && Sound(l, st) && Exact(l, st)
    requires st.f < |l.cls| && st.f <= t.f <= st.f + 1 && st.rf <= t.rf <= st.rf + 1
    requires l.cls[st.f] in st.swapped ==> t.rf == st.rf && (st.rf < |l.refl| ==> l.refl[st.rf] != l.cls[st.f])
    ensures NotPast(l, t)
  {
    forall i, j | 0 <= i < |l.cls| && 0 <= j < |l.refl| && InOrderSwap(l, i, j)
      ensures t.f <= i && t.rf <= j
    {
      BeforeSwap(l, st, i, j);
    }
  }

  // ----- each branch keeps Exact -----

  // In every branch but the first the class field is not still to be swapped, and once the
  // second is past, nor is the reflected field.

  lemma SwapBackExact(l: Lists, st: State)
    requires Prepared(l) && Consistent(l) && Sound(l, st) && Exact(l, st)
    requires st.f < |l.cls| && l.cls[st.f] in st.swapped
    requires st.rf < |l.refl| ==> l.refl[st.rf] != l.cls[st.f]
    ensures Exact(l, SwapBack(l, st))
  {
    SwapBackTracked(l, st);
    SwapBackHead(l, st);
    StepNotPast(l, st, SwapBack(l, st));
  }

  lemma SwapBackHead(l: Lists, st: State)
    requires InBounds(l, st) && Tracked(l, st) && HeadOfRun(l, st)
    requires st.f < |l.cls| && l.cls[st.f] in st.swapped
    ensures HeadOfRun(l, SwapBack(l, st))
  {
    RemoveMembers(st.swapped, l.cls[st.f]);
    assert RunStart(l, l.cls, st.f + 1) == RunStart(l, l.cls, st.f);
  }

  lemma SwapForwardExact(l: Lists, st: State)
    requires Prepared(l) && Consistent(l) && Sound(l, st) && Exact(l, st)
    requires st.f < |l.cls| && l.cls[st.f] !in st.swapped
    requires st.rf < |l.refl| && l.refl[st.rf] in st.swapped
    ensures Exact(l, SwapForward(l, st))
  {
    SwapForwardTracked(l, st);
    StepNotPast(l, st, SwapForward(l, st));
    RemoveMembers(st.swapped, l.refl[st.rf]);
  }

  lemma IgnoreExact(l: Lists, st: State)
    requires Prepared(l) && Consistent(l) && Sound(l, st) && Exact(l, st)
    requires st.f < |l.cls| && l.cls[st.f] !in st.swapped && l.cls[st.f] in st.ignored
    requires st.rf < |l.refl| ==> l.refl[st.rf] !in st.swapped
    ensures Exact(l, Ignore(l, st))
  {
    IgnoreTracked(l, st);
    StepNotPast(l, st, Ignore(l, st));
  }

  lemma SettleBackExact(l: Lists, st: State)
    requires Prepared(l) && Consistent(l) && Sound(l, st) && Exact(l, st)
    requires st.f < |l.cls| && l.cls[st.f] !in st.swapped
    requires st.rf < |l.refl| && l.refl[st.rf] in st.back
    ensures Exact(l, SettleBack(l, st))
  {
    SettleBackTracked(l, st);
    StepNotPast(l, st, SettleBack(l, st));
  }

  lemma SettleForwardExact(l: Lists, st: State)
    requires Prepared(l) && Consistent(l) && Sound(l, st) && Exact(l, st)
    requires st.f < |l.cls| && l.cls[st.f] !in st.swapped && l.cls[st.f] in st.fwd
    requires st.rf < |l.refl| ==> l.refl[st.rf] !in st.swapped
    ensures Exact(l, SettleForward(l, st))
  {
    SettleForwardTracked(l, st);
    StepNotPast(l, st, SettleForward(l, st));
  }

  lemma MatchBothExact(l: Lists, st: State)
    requires Prepared(l) && Consistent(l) && Sound(l, st) && Exact(l, st)
    requires st.f < |l.cls| && l.cls[st.f] !in st.swapped
    requires st.rf < |l.refl| && l.cls[st.f] == l.refl[st.rf] && IsCore(l, l.cls[st.f])
    ensures Exact(l, MatchBoth(st))
  {
    MatchBothTracked(l, st);
    MatchBothHead(l, st);
    StepNotPast(l, st, MatchBoth(st));
  }

  lemma MatchBothHead(l: Lists, st: State)
    requires st.f < |l.cls| && st.rf < |l.refl| && l.cls[st.f] == l.refl[st.rf] && IsCore(l, l.cls[st.f])
    ensures HeadOfRun(l, MatchBoth(st))
  {
    assert RunStart(l, l.cls, st.f + 1) == st.f + 1;
  }

  // Once the class fields are exhausted only the names swapped back remain to be settled.
  lemma TailExact(l: Lists, st: State)
    requires Prepared(l) && Consistent(l) && Exact(l, st)
    requires st.f == |l.cls| && st.rf < |l.refl| && l.refl[st.rf] in st.back
    ensures Exact(l, SettleBack(l, st))
  {
    SettleBackTracked(l, st);
    assert forall i, j :: 0 <= i < |l.cls| && 0 <= j < |l.refl| ==> !InOrderSwap(l, i, j);
  }

  // ----- on a consistent input no assertion fails but the redundant swap -----

  lemma ConsistentMembers(l: Lists, x: Name)
    requires Consistent(l)
    ensures x in l.cls <==> x in l.refl || x in l.ignored
  {
    assert x in l.cls <==> x in multiset(l.cls);
    assert x in l.refl <==> x in multiset(l.refl);
    assert x in l.ignored <==> x in multiset(l.ignored);
  }

  lemma RedundantSwapIsInOrder(l: Lists, st: State)
    requires Prepared(l) && Consistent(l) && Sound(l, st) && Exact(l, st)
    requires st.f < |l.cls| && st.rf < |l.refl|
    requires l.cls[st.f] in st.swapped && l.refl[st.rf] == l.cls[st.f]
    ensures HasInOrderSwap(l)
  {
    assert InOrderSwap(l, st.f, st.rf);
  }

  // The last branch finds the same unmarked name at both cursors.
  lemma NoMismatch(l: Lists, st: State)
    requires Prepared(l) && Consistent(l) && Sound(l, st) && Exact(l, st) && st.f < |l.cls|
    requires l.cls[st.f] !in st.swapped && l.cls[st.f] !in st.ignored && l.cls[st.f] !in st.fwd
    requires st.rf < |l.refl| ==> l.refl[st.rf] !in st.swapped && l.refl[st.rf] !in st.back
    ensures IsCore(l, l.cls[st.f]) && st.rf < |l.refl| && l.refl[st.rf] == l.cls[st.f]
  {
    ConsistentDistinct(l);
    assert l.cls[st.f] !in l.cls[..st.f];
    CoreGrows(l, l.cls, st.f, st.f + 1);
    CoreGrows(l, l.cls, st.f + 1, |l.cls|);
    if st.rf < |l.refl| {
      assert l.refl[st.rf] !in l.refl[..st.rf];
      CoreGrows(l, l.refl, st.rf + 1, |l.refl|);
      assert Core(l, l.cls, st.f + 1)[|Core(l, l.cls, st.f)|] == l.cls[st.f];
      assert Core(l, l.refl, st.rf + 1)[|Core(l, l.refl, st.rf)|] == l.refl[st.rf];
    }
  }

  lemma NoMembers(s: seq<Name>)
    requires forall x :: x !in s
    ensures s == []
  {
    if s != [] {
      HeadIsMember(s);
    }
  }

  lemma HeadIsMember(s: seq<Name>)
    requires s != []
    ensures s[0] in s
  {
  }

  lemma NoIgnoresLeft(l: Lists, st: State)
    requires Consistent(l) && InBounds(l, st) && Tracked(l, st) && st.f == |l.cls|
    ensures st.ignored == []
  {
    assert l.cls[..st.f] == l.cls;
    forall x
      ensures x !in st.ignored
    {
      ConsistentMembers(l, x);
    }
    NoMembers(st.ignored);
  }

  lemma TailIsBackSwapped(l: Lists, st: State)
    requires Prepared(l) && Consistent(l) && Sound(l, st) && Exact(l, st)
    requires st.f == |l.cls| && st.rf < |l.refl|
    ensures l.refl[st.rf] in st.back
  {
    var x := l.refl[st.rf];
    ConsistentMembers(l, x);
    assert l.cls[..st.f] == l.cls;
    assert x !in l.refl[..st.rf];
    CoreGrows(l, l.refl, st.rf, st.rf + 1);
    CoreGrows(l, l.refl, st.rf + 1, |l.refl|);
  }

  lemma NothingInFlight(l: Lists, st: State)
    requires Consistent(l) && InBounds(l, st) && Tracked(l, st)
    requires st.f == |l.cls| && st.rf == |l.refl|
    ensures st.swapped == [] && st.back == [] && st.fwd == []
  {
    assert l.cls[..st.f] == l.cls && l.refl[..st.rf] == l.refl;
    forall x
      ensures x !in st.fwd
    {
      ConsistentMembers(l, x);
    }
    NoMembers(st.fwd);
    NoMembers(st.swapped);
    NoMembers(st.back);
  }

  // ----- the check -----

  // What the walk keeps.
  ghost predicate Account(l: Lists, st: State) {
    Sound(l, st) && (Consistent(l) ==> Exact(l, st))
  }

  lemma StartAccount(l: Lists)
    requires Prepared(l)
    ensures Account(l, State(0, 0, l.swapped, l.ignored, [], [], []))
  {
  }

  lemma SwapBackAccount(l: Lists, st: State)
    requires Prepared(l) && Account(l, st)
    requires st.f < |l.cls| && l.cls[st.f] in st.swapped && l.cls[st.f] in l.refl
    requires st.rf < |l.refl| ==> l.refl[st.rf] != l.cls[st.f]
    ensures Account(l, SwapBack(l, st))
  {
    SwapBackSound(l, st);
    if Consistent(l) {
      SwapBackExact(l, st);
    }
  }

  lemma SwapForwardAccount(l: Lists, st: State)
    requires Prepared(l) && Account(l, st)
    requires st.f < |l.cls| && l.cls[st.f] !in st.swapped
    requires st.rf < |l.refl| && l.refl[st.rf] in st.swapped
    ensures Account(l, SwapForward(l, st))
  {
    SwapForwardSound(l, st);
    if Consistent(l) {
      SwapForwardExact(l, st);
    }
  }

  lemma IgnoreAccount(l: Lists, st: State)
    requires Prepared(l) && Account(l, st)
    requires st.f < |l.cls| && l.cls[st.f] !in st.swapped && l.cls[st.f] in st.ignored
    requires st.rf < |l.refl| ==> l.refl[st.rf] !in st.swapped
    ensures Account(l, Ignore(l, st))
  {
    IgnoreSound(l, st);
    if Consistent(l) {
      IgnoreExact(l, st);
    }
  }

  lemma SettleBackAccount(l: Lists, st: State)
    requires Prepared(l) && Account(l, st)
    requires st.f < |l.cls| && l.cls[st.f] !in st.swapped
    requires st.rf < |l.refl| && l.refl[st.rf] in st.back
    ensures Account(l, SettleBack(l, st))
  {
    SettleBackSound(l, st);
    if Consistent(l) {
      SettleBackExact(l, st);
    }
  }

  lemma SettleForwardAccount(l: Lists, st: State)
    requires Prepared(l) && Account(l, st)
    requires st.f < |l.cls| && l.cls[st.f] !in st.swapped && l.cls[st.f] in st.fwd
    requires st.rf < |l.refl| ==> l.refl[st.rf] !in st.swapped
    ensures Account(l, SettleForward(l, st))
  {
    SettleForwardSound(l, st);
    if Consistent(l) {
      SettleForwardExact(l, st);
    }
  }

  lemma MatchBothAccount(l: Lists, st: State)
    requires Prepared(l) && Account(l, st)
    requires st.f < |l.cls| && st.rf < |l.refl| && l.cls[st.f] == l.refl[st.rf]
    requires l.cls[st.f] !in st.swapped && l.cls[st.f] !in st.ignored && l.cls[st.f] !in st.done
    requires Consistent(l) ==> IsCore(l, l.cls[st.f])
    ensures Account(l, MatchBoth(st))
  {
    MatchBothSound(l, st);
    if Consistent(l) {
      MatchBothExact(l, st);
    }
  }

  // The loop over the class fields. It stops at the first failing assertion, or with the
  // class fields exhausted.
  method WalkClassFields(l: Lists) returns (v: Verdict, st: State, ghost steps: nat)
    requires Prepared(l)
    ensures v == Passed ==> Sound(l, st) && st.f == |l.cls|
    ensures v == Passed && Consistent(l) ==> Exact(l, st)
    ensures Consistent(l) ==> v == Passed || (v == RedundantSwap && HasInOrderSwap(l))
    ensures steps <= st.f + st.rf && InBounds(l, st)
  {
    st := State(0, 0, l.swapped, l.ignored, [], [], []);
    steps := 0;
    v := Passed;
    StartAccount(l);
    while st.f < |l.cls|
      invariant v == Passed && Account(l, st)
      invariant steps <= st.f + st.rf
      decreases |l.cls| - st.f + |l.refl| - st.rf
    {
      v, st := WalkField(l, st);
      if v != Passed {
        return;
      }
      steps := steps + 1;
    }
  }

  // One round of the loop.
  method WalkField(l: Lists, st: State) returns (v: Verdict, next: State)
    requires Prepared(l) && Account(l, st) && st.f < |l.cls|
    ensures v == Passed ==> Account(l, next) && next.f + next.rf > st.f + st.rf
    ensures v != Passed ==> next == st
    ensures Consistent(l) ==> v == Passed || (v == RedundantSwap && HasInOrderSwap(l))
  {
    var field := l.cls[st.f];
    var more := st.rf < |l.refl|;
    v, next := Passed, st;
    if field in st.swapped {
      if field !in l.refl {
        return SwapNotReflected, st;
      }
      if more && l.refl[st.rf] == field {
        if Consistent(l) {
          RedundantSwapIsInOrder(l, st);
        }
        return RedundantSwap, st;
      }
      SwapBackAccount(l, st);
      next := SwapBack(l, st);
    } else if more && l.refl[st.rf] in st.swapped {
      SwapForwardAccount(l, st);
      next := SwapForward(l, st);
    } else if more && l.refl[st.rf] in st.done {
      return IgnoredButReflected, st;
    } else if field in st.ignored {
      if more && l.refl[st.rf] == field {
        return RedundantIgnore, st;
      }
      IgnoreAccount(l, st);
      next := Ignore(l, st);
    } else if more && l.refl[st.rf] in st.back {
      SettleBackAccount(l, st);
      next := SettleBack(l, st);
    } else if field in st.fwd {
      SettleForwardAccount(l, st);
      next := SettleForward(l, st);
    } else {
      if Consistent(l) {
        NoMismatch(l, st);
      }
      if !more || l.refl[st.rf] != field {
        return Mismatch, st;
      }
      MatchBothAccount(l, st);
      next := MatchBoth(st);
    }
  }

  // The loop over the reflected fields that are left: names swapped back are settled, any
  // other is left over.
  method WalkReflectedRest(l: Lists, start: State) returns (unused: seq<Name>, st: State, ghost steps: nat)
    requires Prepared(l) && Sound(l, start) && start.f == |l.cls|
    requires Consistent(l) ==> Exact(l, start)
    ensures st.f == |l.cls| && st.rf == |l.refl| && st.ignored == start.ignored
    ensures unused == [] ==> Sound(l, st)
    ensures Consistent(l) ==> unused == [] && Exact(l, st)
    ensures steps == |l.refl| - start.rf
  {
    st := start;
    unused := [];
    steps := 0;
    while st.rf < |l.refl|
      invariant InBounds(l, st) && st.f == |l.cls| && st.ignored == start.ignored
      invariant unused == [] ==> Sound(l, st)
      invariant Consistent(l) ==> unused == [] && Exact(l, st)
      invariant steps == st.rf - start.rf
    {
      if Consistent(l) {
        TailIsBackSwapped(l, st);
        TailExact(l, st);
      }
      if l.refl[st.rf] in st.back {
        if unused == [] {
          SettleBackSound(l, st);
        }
        st := SettleBack(l, st);
      } else {
        unused := unused + [l.refl[st.rf]];
        st := st.(rf := st.rf + 1);
      }
      steps := steps + 1;
    }
  }

  // The whole check. It passes exactly on consistent lists without a swap that is in order;
  // on consistent lists the redundant swap is the only assertion that can fail; and both
  // loops together take at most one step per class field and reflected field.
  method MatchFields(l: Lists) returns (v: Verdict, ghost steps: nat)
    requires Prepared(l)
    ensures v == Passed <==> Consistent(l) && !HasInOrderSwap(l)
    ensures Consistent(l) ==> v == Passed || v == RedundantSwap
    ensures steps <= |l.cls| + |l.refl|
  {
    var st;
    v, st, steps := WalkClassFields(l);
    if v != Passed {
      return;
    }
    if Consistent(l) {
      NoIgnoresLeft(l, st);
    }
    if st.ignored != [] {
      return ErroneousIgnores, steps;
    }
    var unused;
    ghost var rest;
    unused, st, rest := WalkReflectedRest(l, st);
    steps := steps + rest;
    if Consistent(l) {
      NothingInFlight(l, st);
    }
    if unused != [] {
      v := UnusedReflectFields;
    } else if st.swapped != [] {
      v := ErroneousSwaps;
    } else if st.back != [] {
      v := SwapsNeverProvided;
    } else if st.fwd != [] {
      v := SwapsNotInClass;
    } else {
      FinishSound(l, st);
    }
  }

  // ----- reading the macro -----

  // The names collected for one FC_REFLECT macro and the comments before it.
  class Reflection {
    var fields: seq<Name>
    var ignored: seq<Name>
    var swapped: seq<Name>

    // No list repeats a name and no name is under both markers.
    ghost predicate Valid()
      reads this
    {
      && Distinct(fields) && Distinct(ignored) && Distinct(swapped)
      && forall x :: x in ignored ==> x !in swapped
    }

    constructor ()
      ensures Valid() && fields == [] && ignored == [] && swapped == []
    {
      fields, ignored, swapped := [], [], [];
    }

    // add_field: a repeated field is refused.
    method AddField(x: Name) returns (ok: bool)
      requires Valid()
      modifies this`fields
      ensures Valid()
      ensures ok <==> x !in old(fields)
      ensures fields == if ok then old(fields) + [x] else old(fields)
    {
      ok := x !in fields;
      if ok {
        fields := fields + [x];
      }
    }

    // One name of add_ignore_swaps: refused if it is under either marker already.
    method AddMarker(x: Name, ignore: bool) returns (ok: bool)
      requires Valid()
      modifies this`ignored, this`swapped
      ensures Valid()
      ensures ok <==> x !in old(ignored) && x !in old(swapped)
      ensures ignored == if ok && ignore then old(ignored) + [x] else old(ignored)
      ensures swapped == if ok && !ignore then old(swapped) + [x] else old(swapped)
    {
      ok := x !in ignored && x !in swapped;
      if ok && ignore {
        ignored := ignored + [x];
      } else if ok {
        swapped := swapped + [x];
      }
    }

    // The field check of one class. A chainbase object's id is ignored unless the macro
    // mentions it; that may put it under both markers, but then it is not reflected.
    method Validate(cls: seq<Name>, ignoreId: bool) returns (v: Verdict)
      requires Valid()
      modifies this`ignored
      ensures ignored == old(ignored) + if ignoreId && "id" !in old(ignored) && "id" !in fields then ["id"] else []
      ensures var l := Lists(cls, fields, swapped, ignored);
              v == Passed <==> Consistent(l) && !HasInOrderSwap(l)
    {
      if ignoreId && "id" !in ignored && "id" !in fields {
        ignored := ignored + ["id"];
      }
      ghost var steps;
      v, steps := MatchFields(Lists(cls, fields, swapped, ignored));
    }
  }
}
