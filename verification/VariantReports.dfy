/**
 Which reports the difference of two documents has: exactly one for every place where they
 part, found by following its path into both. So exchanging the documents exchanges the two
 sides of the reports, whatever order the objects have their keys in.
 */
module VariantReports {
  import opened Collections
  import opened VariantDiff

  // What a document has under a key or an index.
  function Child(v: Variant, step: Step): Option<Variant> {
    match step
    case Key(k) =>
      if v.Obj? && Find(v.entries, k) < |v.entries| then Some(v.entries[Find(v.entries, k)].value) else None
    case Index(i) => if v.Arr? && i < |v.items| then Some(v.items[i]) else None
  }

  function Inner(x: Report): Report
    requires x.path != []
  {
    x.(path := x.path[1..])
  }

  // Following its path the report tells what stands there on both sides, and there the
  // documents part: the types differ, simple values differ, or only one has anything.
  predicate Parting(l: Variant, r: Variant, eq: Equal, x: Report)
    decreases |x.path|
  {
    if x.path == [] then x.left == l && x.right == r && (!SameType(l, r) || (l.Leaf? && !eq(l, r)))
    else SameType(l, r) && match (Child(l, x.path[0]), Child(r, x.path[0]))
      case (Some(a), Some(b)) => Parting(a, b, eq, Inner(x))
      case (Some(a), None) => x == Report([x.path[0]], a, NULL)
      case (None, Some(b)) => x == Report([x.path[0]], NULL, b)
      case (None, None) => false
  }

  // How often a report occurs.
  function Count(reports: seq<Report>, x: Report): nat {
    multiset(reports)[x]
  }

  lemma CountLast(reports: seq<Report>, y: Report, x: Report)
    ensures Count(reports + [y], x) == Count(reports, x) + if y == x then 1 else 0
  {
  }

  lemma CountBoth(a: seq<Report>, b: seq<Report>, x: Report)
    ensures Count(a + b, x) == Count(a, x) + Count(b, x)
  {
    assert multiset(a + b) == multiset(a) + multiset(b);
  }

  lemma {:induction false} CountBelow(step: Step, reports: seq<Report>, x: Report)
    ensures Count(Below(step, reports), x) == if x.path != [] && x.path[0] == step then Count(reports, Inner(x)) else 0
    decreases |reports|
  {
    if reports != [] {
      var n := |reports| - 1;
      BelowLast(step, reports, reports[..n], reports[n], x);
      CountBelow(step, reports[..n], x);
    }
  }

  lemma {:induction false} BelowLast(step: Step, reports: seq<Report>, before: seq<Report>, last: Report, x: Report)
    requires reports != [] && before == reports[..|reports| - 1] && last == reports[|reports| - 1]
    ensures Count(Below(step, reports), x) ==
            Count(Below(step, before), x) + if x.path != [] && x.path[0] == step && last == Inner(x) then 1 else 0
    ensures x.path != [] ==> Count(reports, Inner(x)) == Count(before, Inner(x)) + if last == Inner(x) then 1 else 0
  {
    var below, y := Below(step, before), last.(path := [step] + last.path);
    assert Below(step, reports) == below + [y];
    assert reports == before + [last];
    StepInFront(step, last, x);
    CountLast(below, y, x);
    if x.path != [] {
      CountLast(before, last, Inner(x));
    }
  }

  lemma StepInFront(step: Step, y: Report, x: Report)
    ensures y.(path := [step] + y.path) == x <==> x.path != [] && x.path[0] == step && y == Inner(x)
  {
    assert ([step] + y.path)[1..] == y.path;
    if x.path != [] {
      assert [x.path[0]] + x.path[1..] == x.path;
    }
  }

  // A report that can only be in the piece at i occurs as often as it does there.
  lemma {:induction false} FlatCount(pieces: seq<seq<Report>>, i: int, x: Report)
    requires forall k :: 0 <= k < |pieces| && k != i ==> Count(pieces[k], x) == 0
    ensures Count(Flat(pieces), x) == if 0 <= i < |pieces| then Count(pieces[i], x) else 0
    decreases |pieces|
  {
    if pieces != [] {
      FlatCount(pieces[..|pieces| - 1], i, x);
    }
  }

  // ----- arrays -----

  function IndexOf(x: Report): int {
    if x.path != [] && x.path[0].Index? then x.path[0].index else -1
  }

  lemma ItemCount(i: nat, l: Variant, r: Variant, eq: Equal, x: Report)
    ensures Count(CommonItem(i, l, r, eq), x) == if IndexOf(x) == i then Count(Diff(l, r, eq), Inner(x)) else 0
  {
    CountBelow(Index(i), Diff(l, r, eq), x);
  }

  lemma CommonCount(xs: seq<Variant>, ys: seq<Variant>, eq: Equal, x: Report, pieces: seq<seq<Report>>)
    requires pieces == CommonItems(xs, ys, eq)
    ensures var i := IndexOf(x);
            Count(Flat(pieces), x) == if 0 <= i < Shared(xs, ys) then Count(Diff(xs[i], ys[i], eq), Inner(x)) else 0
  {
    forall k | 0 <= k < |pieces|
      ensures Count(pieces[k], x) == if IndexOf(x) == k then Count(Diff(xs[k], ys[k], eq), Inner(x)) else 0
    {
      ItemCount(k, xs[k], ys[k], eq, x);
    }
    FlatCount(pieces, IndexOf(x), x);
  }

  lemma LeftItemsCount(xs: seq<Variant>, ys: seq<Variant>, x: Report, pieces: seq<seq<Report>>)
    requires pieces == LeftItems(xs, ys)
    ensures var i := IndexOf(x);
            Count(Flat(pieces), x) ==
            if Shared(xs, ys) <= i < |xs| && x == Report([Index(i)], xs[i], NULL) then 1 else 0
  {
    FlatCount(pieces, IndexOf(x) - Shared(xs, ys), x);
  }

  lemma RightItemsCount(xs: seq<Variant>, ys: seq<Variant>, x: Report, pieces: seq<seq<Report>>)
    requires pieces == RightItems(xs, ys)
    ensures var i := IndexOf(x);
            Count(Flat(pieces), x) ==
            if Shared(xs, ys) <= i < |ys| && x == Report([Index(i)], NULL, ys[i]) then 1 else 0
  {
    FlatCount(pieces, IndexOf(x) - Shared(xs, ys), x);
  }

  lemma {:induction false} ArrayDiff(xs: seq<Variant>, ys: seq<Variant>, eq: Equal)
    ensures Diff(Arr(xs), Arr(ys), eq) ==
            Flat(CommonItems(xs, ys, eq)) + Flat(LeftItems(xs, ys)) + Flat(RightItems(xs, ys))
  {
  }

  lemma CountThree(all: seq<Report>, a: seq<Report>, b: seq<Report>, c: seq<Report>, x: Report)
    requires all == a + b + c
    ensures Count(all, x) == Count(a, x) + Count(b, x) + Count(c, x)
  {
    CountBoth(a + b, c, x);
    CountBoth(a, b, x);
  }

  lemma PartingIndex(xs: seq<Variant>, ys: seq<Variant>, eq: Equal, x: Report)
    ensures var i := IndexOf(x);
            Parting(Arr(xs), Arr(ys), eq, x) ==
            if i < 0 then false
            else if i < Shared(xs, ys) then Parting(xs[i], ys[i], eq, Inner(x))
            else if i < |xs| then x == Report([Index(i)], xs[i], NULL)
            else i < |ys| && x == Report([Index(i)], NULL, ys[i])
  {
  }

  lemma {:induction false} ArrayReports(xs: seq<Variant>, ys: seq<Variant>, eq: Equal, x: Report)
    requires WellKeyed(Arr(xs)) && WellKeyed(Arr(ys))
    ensures Count(Diff(Arr(xs), Arr(ys), eq), x) == if Parting(Arr(xs), Arr(ys), eq, x) then 1 else 0
    decreases |x.path|, 0
  {
    var i := IndexOf(x);
    ArrayDiff(xs, ys, eq);
    CountThree(Diff(Arr(xs), Arr(ys), eq), Flat(CommonItems(xs, ys, eq)), Flat(LeftItems(xs, ys)),
               Flat(RightItems(xs, ys)), x);
    CommonCount(xs, ys, eq, x, CommonItems(xs, ys, eq));
    LeftItemsCount(xs, ys, x, LeftItems(xs, ys));
    RightItemsCount(xs, ys, x, RightItems(xs, ys));
    PartingIndex(xs, ys, eq, x);
    if 0 <= i < Shared(xs, ys) {
      EveryReportOnce(xs[i], ys[i], eq, Inner(x));
    }
  }

  // ----- objects -----

  // The position of the key a report begins with, or the length.
  function Place(es: seq<Entry>, x: Report): nat {
    if x.path != [] && x.path[0].Key? then Find(es, x.path[0].key) else |es|
  }

  lemma PlaceUnique(es: seq<Entry>, i: nat, x: Report)
    requires UniqueKeys(es) && i < |es|
    ensures Place(es, x) == i <==> x.path != [] && x.path[0] == Key(es[i].key)
  {
  }

  // What the entry of a key contributes: the reports below it, or that it is on one side only.
  lemma LeftEntryCount(e: Entry, re: seq<Entry>, eq: Equal, x: Report)
    ensures var j := Find(re, e.key);
            Count(LeftEntry(e, re, eq), x) ==
            if x.path == [] || x.path[0] != Key(e.key) then 0
            else if j < |re| then Count(Diff(e.value, re[j].value, eq), Inner(x))
            else if x == Report([Key(e.key)], e.value, NULL) then 1 else 0
  {
    var j := Find(re, e.key);
    if j < |re| {
      CountBelow(Key(e.key), Diff(e.value, re[j].value, eq), x);
    }
  }

  lemma LeftCount(le: seq<Entry>, re: seq<Entry>, eq: Equal, x: Report, pieces: seq<seq<Report>>)
    requires UniqueKeys(le) && pieces == LeftEntries(le, re, eq)
    ensures var i := Place(le, x);
            Count(Flat(pieces), x) == if i < |le| then Count(LeftEntry(le[i], re, eq), x) else 0
  {
    forall k | 0 <= k < |pieces| && k != Place(le, x)
      ensures Count(pieces[k], x) == 0
    {
      PlaceUnique(le, k, x);
      LeftEntryCount(le[k], re, eq, x);
    }
    FlatCount(pieces, Place(le, x), x);
  }

  lemma RightCount(le: seq<Entry>, re: seq<Entry>, x: Report, pieces: seq<seq<Report>>)
    requires UniqueKeys(re) && pieces == RightEntries(le, re)
    ensures var j := Place(re, x);
            Count(Flat(pieces), x) == if j < |re| then Count(RightEntry(le, re[j]), x) else 0
  {
    forall k | 0 <= k < |pieces| && k != Place(re, x)
      ensures Count(pieces[k], x) == 0
    {
      PlaceUnique(re, k, x);
    }
    FlatCount(pieces, Place(re, x), x);
  }

  lemma {:induction false} ObjectDiff(le: seq<Entry>, re: seq<Entry>, eq: Equal)
    ensures Diff(Obj(le), Obj(re), eq) == Flat(LeftEntries(le, re, eq)) + Flat(RightEntries(le, re))
  {
  }

  lemma PartingKey(le: seq<Entry>, re: seq<Entry>, eq: Equal, x: Report)
    ensures var i, j := Place(le, x), Place(re, x);
            Parting(Obj(le), Obj(re), eq, x) ==
            if i < |le| && j < |re| then Parting(le[i].value, re[j].value, eq, Inner(x))
            else if i < |le| then x == Report([Key(le[i].key)], le[i].value, NULL)
            else j < |re| && x == Report([Key(re[j].key)], NULL, re[j].value)
  {
  }

  lemma {:induction false} ObjectReports(le: seq<Entry>, re: seq<Entry>, eq: Equal, x: Report)
    requires WellKeyed(Obj(le)) && WellKeyed(Obj(re))
    ensures Count(Diff(Obj(le), Obj(re), eq), x) == if Parting(Obj(le), Obj(re), eq, x) then 1 else 0
    decreases |x.path|, 0
  {
    var i, j := Place(le, x), Place(re, x);
    ObjectDiff(le, re, eq);
    CountBoth(Flat(LeftEntries(le, re, eq)), Flat(RightEntries(le, re)), x);
    LeftCount(le, re, eq, x, LeftEntries(le, re, eq));
    RightCount(le, re, x, RightEntries(le, re));
    PartingKey(le, re, eq, x);
    if i < |le| {
      LeftEntryCount(le[i], re, eq, x);
      if j < |re| {
        EveryReportOnce(le[i].value, re[j].value, eq, Inner(x));
      }
    }
  }

  // ----- every report once -----

  lemma {:induction false} EveryReportOnce(l: Variant, r: Variant, eq: Equal, x: Report)
    requires WellKeyed(l) && WellKeyed(r)
    ensures multiset(Diff(l, r, eq))[x] == if Parting(l, r, eq, x) then 1 else 0
    decreases |x.path|, 1
  {
    if l.Obj? && r.Obj? {
      ObjectReports(l.entries, r.entries, eq, x);
    } else if l.Arr? && r.Arr? {
      ArrayReports(l.items, r.items, eq, x);
    } else {
      PlainReports(l, r, eq, x);
    }
  }

  lemma PlainReports(l: Variant, r: Variant, eq: Equal, x: Report)
    requires !(l.Obj? && r.Obj?) && !(l.Arr? && r.Arr?)
    ensures Count(Diff(l, r, eq), x) == if Parting(l, r, eq, x) then 1 else 0
  {
    assert multiset([Report([], l, r)]) == multiset{Report([], l, r)};
  }

  // ----- exchanging the documents -----

  function Flip(x: Report): Report {
    Report(x.path, x.right, x.left)
  }

  ghost predicate Symmetric(eq: Equal) {
    forall a, b :: eq(a, b) == eq(b, a)
  }

  lemma {:induction false} PartingFlips(l: Variant, r: Variant, eq: Equal, x: Report)
    requires Symmetric(eq)
    ensures Parting(l, r, eq, x) == Parting(r, l, eq, Flip(x))
    decreases |x.path|
  {
    if x.path != [] {
      match (Child(l, x.path[0]), Child(r, x.path[0]))
      case (Some(a), Some(b)) => PartingFlips(a, b, eq, Inner(x));
      case _ =>
    }
  }

  // All reports with their sides exchanged.
  function Flipped(reports: seq<Report>): (r: seq<Report>)
    ensures |r| == |reports|
  {
    if reports == [] then [] else Flipped(reports[..|reports| - 1]) + [Flip(reports[|reports| - 1])]
  }

  lemma {:induction false} CountFlipped(reports: seq<Report>, x: Report)
    ensures Count(Flipped(reports), x) == Count(reports, Flip(x))
    decreases |reports|
  {
    if reports != [] {
      var n := |reports| - 1;
      CountFlipped(reports[..n], x);
      assert reports == reports[..n] + [reports[n]];
      CountLast(Flipped(reports[..n]), Flip(reports[n]), x);
      CountLast(reports[..n], reports[n], Flip(x));
      assert Flip(reports[n]) == x <==> reports[n] == Flip(x);
    }
  }

  lemma DiffSwaps(l: Variant, r: Variant, eq: Equal)
    requires WellKeyed(l) && WellKeyed(r) && Symmetric(eq)
    ensures multiset(Diff(r, l, eq)) == multiset(Flipped(Diff(l, r, eq)))
  {
    forall x
      ensures multiset(Diff(r, l, eq))[x] == multiset(Flipped(Diff(l, r, eq)))[x]
    {
      EveryReportOnce(r, l, eq, x);
      EveryReportOnce(l, r, eq, Flip(x));
      PartingFlips(l, r, eq, Flip(x));
      CountFlipped(Diff(l, r, eq), x);
    }
  }
}
