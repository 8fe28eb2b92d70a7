/**
 The difference of two documents (unittests/snapshot_tests.cpp): one report for every place
 where they differ, with what stands there on each side.
 */
module VariantDiff {

  // A document: an object, an array, or a value of some simple type.
  datatype Variant = Leaf(tag: nat, value: nat) | Arr(items: seq<Variant>) | Obj(entries: seq<Entry>)
  datatype Entry = Entry(key: string, value: Variant)

  const NULL := Leaf(0, 0)

  // A key of an object or an index of an array.
  datatype Step = Key(key: string) | Index(index: nat)

  // Where the documents differ, and what stands there; NULL for nothing.
  datatype Report = Report(path: seq<Step>, left: Variant, right: Variant)

  // Equality of simple values of the same type. Not all are equal to themselves.
  type Equal = (Variant, Variant) -> bool

  predicate SameType(l: Variant, r: Variant) {
    (l.Leaf? && r.Leaf? && l.tag == r.tag) || (l.Arr? && r.Arr?) || (l.Obj? && r.Obj?)
  }

  // The position of a key, or the length.
  function Find(entries: seq<Entry>, key: string): (j: nat)
    ensures j <= |entries| && (j < |entries| ==> entries[j].key == key)
    ensures forall k :: 0 <= k < j ==> entries[k].key != key
  {
    FindFrom(entries, key, 0)
  }

  function FindFrom(entries: seq<Entry>, key: string, i: nat): (j: nat)
    requires i <= |entries|
    ensures i <= j <= |entries| && (j < |entries| ==> entries[j].key == key)
    ensures forall k :: i <= k < j ==> entries[k].key != key
    decreases |entries| - i
  {
    if i == |entries| || entries[i].key == key then i else FindFrom(entries, key, i + 1)
  }

  // The reports with a step in front of their paths.
  function Below(step: Step, reports: seq<Report>): (r: seq<Report>)
    ensures |r| == |reports|
  {
    if reports == [] then []
    else
      var n := |reports| - 1;
      Below(step, reports[..n]) + [reports[n].(path := [step] + reports[n].path)]
  }

  // Lists of reports one after the other.
  function Flat(pieces: seq<seq<Report>>): seq<Report> {
    if pieces == [] then [] else Flat(pieces[..|pieces| - 1]) + pieces[|pieces| - 1]
  }

  // ----- the reports -----

  function Diff(l: Variant, r: Variant, eq: Equal): seq<Report>
    decreases l, 2
  {
    if !SameType(l, r) then [Report([], l, r)]
    else match l
      case Obj(es) => Flat(LeftEntries(es, r.entries, eq)) + Flat(RightEntries(es, r.entries))
      case Arr(xs) => Flat(CommonItems(xs, r.items, eq)) + Flat(LeftItems(xs, r.items)) + Flat(RightItems(xs, r.items))
      case Leaf(_, _) => if eq(l, r) then [] else [Report([], l, r)]
  }

  // What the left object has under a key, against the right one.
  function LeftEntry(e: Entry, re: seq<Entry>, eq: Equal): seq<Report>
    decreases e, 3
  {
    var j := Find(re, e.key);
    if j == |re| then [Report([Key(e.key)], e.value, NULL)] else Below(Key(e.key), Diff(e.value, re[j].value, eq))
  }

  function LeftEntries(le: seq<Entry>, re: seq<Entry>, eq: Equal): (p: seq<seq<Report>>)
    ensures |p| == |le| && forall i :: 0 <= i < |le| ==> p[i] == LeftEntry(le[i], re, eq)
    decreases le, 0
  {
    seq(|le|, i requires 0 <= i < |le| => LeftEntry(le[i], re, eq))
  }

  // What only the right object has.
  function RightEntry(le: seq<Entry>, e: Entry): seq<Report> {
    if Find(le, e.key) < |le| then [] else [Report([Key(e.key)], NULL, e.value)]
  }

  function RightEntries(le: seq<Entry>, re: seq<Entry>): (p: seq<seq<Report>>)
    ensures |p| == |re| && forall j :: 0 <= j < |re| ==> p[j] == RightEntry(le, re[j])
  {
    seq(|re|, j requires 0 <= j < |re| => RightEntry(le, re[j]))
  }

  function Shared(xs: seq<Variant>, ys: seq<Variant>): nat {
    if |xs| <= |ys| then |xs| else |ys|
  }

  function CommonItem(i: nat, l: Variant, r: Variant, eq: Equal): seq<Report>
    decreases l, 3
  {
    Below(Index(i), Diff(l, r, eq))
  }

  function CommonItems(xs: seq<Variant>, ys: seq<Variant>, eq: Equal): (p: seq<seq<Report>>)
    ensures |p| == Shared(xs, ys) && forall i :: 0 <= i < |p| ==> p[i] == CommonItem(i, xs[i], ys[i], eq)
    decreases xs, 0
  {
    seq(Shared(xs, ys), i requires 0 <= i < Shared(xs, ys) => CommonItem(i, xs[i], ys[i], eq))
  }

  function LeftItem(xs: seq<Variant>, i: nat): seq<Report>
    requires i < |xs|
  {
    [Report([Index(i)], xs[i], NULL)]
  }

  function LeftItems(xs: seq<Variant>, ys: seq<Variant>): (p: seq<seq<Report>>)
    ensures |p| == |xs| - Shared(xs, ys) && forall k :: 0 <= k < |p| ==> p[k] == LeftItem(xs, Shared(xs, ys) + k)
  {
    var n := Shared(xs, ys);
    seq(|xs| - n, k requires 0 <= k < |xs| - n => LeftItem(xs, n + k))
  }

  function RightItem(ys: seq<Variant>, i: nat): seq<Report>
    requires i < |ys|
  {
    [Report([Index(i)], NULL, ys[i])]
  }

  function RightItems(xs: seq<Variant>, ys: seq<Variant>): (p: seq<seq<Report>>)
    ensures |p| == |ys| - Shared(xs, ys) && forall k :: 0 <= k < |p| ==> p[k] == RightItem(ys, Shared(xs, ys) + k)
  {
    var n := Shared(xs, ys);
    seq(|ys| - n, k requires 0 <= k < |ys| - n => RightItem(ys, n + k))
  }

  // ----- nothing to report exactly for equal documents -----

  ghost predicate UniqueKeys(es: seq<Entry>) {
    forall i, j :: 0 <= i < j < |es| ==> es[i].key != es[j].key
  }

  // No object has a key twice.
  ghost predicate WellKeyed(v: Variant) {
    match v
    case Leaf(_, _) => true
    case Arr(xs) => forall i :: 0 <= i < |xs| ==> WellKeyed(xs[i])
    case Obj(es) => UniqueKeys(es) && forall i :: 0 <= i < |es| ==> WellKeyed(es[i].value)
  }

  ghost predicate Has(es: seq<Entry>, key: string) {
    exists i :: 0 <= i < |es| && es[i].key == key
  }

  // The documents are the same: objects as maps, arrays in order, simple values by eq.
  ghost predicate Same(l: Variant, r: Variant, eq: Equal)
    decreases l, 0
  {
    SameType(l, r) && match l
      case Leaf(_, _) => eq(l, r)
      case Arr(xs) => |xs| == |r.items| && forall i :: 0 <= i < |xs| ==> Same(xs[i], r.items[i], eq)
      case Obj(es) => SameEntries(es, r.entries, eq) && OnlyKeys(es, r.entries)
  }

  ghost predicate SameEntries(le: seq<Entry>, re: seq<Entry>, eq: Equal)
    decreases le, 0
  {
    forall i :: 0 <= i < |le| ==> SameEntry(le[i], re, eq)
  }

  ghost predicate OnlyKeys(le: seq<Entry>, re: seq<Entry>) {
    forall j :: 0 <= j < |re| ==> Has(le, re[j].key)
  }

  // The key is there, with the same value.
  ghost predicate SameEntry(e: Entry, re: seq<Entry>, eq: Equal)
    decreases e, 0
  {
    Has(re, e.key) && forall j :: 0 <= j < |re| && re[j].key == e.key ==> Same(e.value, re[j].value, eq)
  }

  lemma {:induction false} FlatEmpty(pieces: seq<seq<Report>>)
    ensures Flat(pieces) == [] <==> forall i :: 0 <= i < |pieces| ==> pieces[i] == []
    decreases |pieces|
  {
    if pieces != [] {
      FlatEmpty(pieces[..|pieces| - 1]);
    }
  }

  lemma {:induction false} DiffIsExact(l: Variant, r: Variant, eq: Equal)
    requires WellKeyed(l) && WellKeyed(r)
    ensures Diff(l, r, eq) == [] <==> Same(l, r, eq)
    decreases l, 1
  {
    if l.Arr? && r.Arr? {
      ArraysExact(l.items, r.items, eq);
    } else if l.Obj? && r.Obj? {
      ObjectsExact(l.entries, r.entries, eq);
    }
  }

  lemma {:induction false} ArraysExact(xs: seq<Variant>, ys: seq<Variant>, eq: Equal)
    requires WellKeyed(Arr(xs)) && WellKeyed(Arr(ys))
    ensures Diff(Arr(xs), Arr(ys), eq) == [] <==> Same(Arr(xs), Arr(ys), eq)
    decreases xs, 0
  {
    var common := CommonItems(xs, ys, eq);
    FlatEmpty(common);
    FlatEmpty(LeftItems(xs, ys));
    FlatEmpty(RightItems(xs, ys));
    assert |xs| > |ys| ==> LeftItems(xs, ys)[0] != [];
    assert |xs| < |ys| ==> RightItems(xs, ys)[0] != [];
    forall i | 0 <= i < |common|
      ensures common[i] == [] <==> Same(xs[i], ys[i], eq)
    {
      DiffIsExact(xs[i], ys[i], eq);
    }
  }

  lemma {:induction false} EntryExact(e: Entry, re: seq<Entry>, eq: Equal)
    requires WellKeyed(e.value) && WellKeyed(Obj(re))
    ensures LeftEntry(e, re, eq) == [] <==> SameEntry(e, re, eq)
    decreases e, 4
  {
    var j := Find(re, e.key);
    if j < |re| {
      assert re[j].key == e.key;
      DiffIsExact(e.value, re[j].value, eq);
    }
  }

  lemma {:induction false} LeftExact(le: seq<Entry>, re: seq<Entry>, eq: Equal, pieces: seq<seq<Report>>)
    requires WellKeyed(Obj(le)) && WellKeyed(Obj(re)) && pieces == LeftEntries(le, re, eq)
    ensures Flat(pieces) == [] <==> SameEntries(le, re, eq)
    decreases le, 0
  {
    FlatEmpty(pieces);
    forall i | 0 <= i < |le|
      ensures pieces[i] == [] <==> SameEntry(le[i], re, eq)
    {
      EntryExact(le[i], re, eq);
    }
  }

  lemma RightExact(le: seq<Entry>, re: seq<Entry>, pieces: seq<seq<Report>>)
    requires pieces == RightEntries(le, re)
    ensures Flat(pieces) == [] <==> OnlyKeys(le, re)
  {
    FlatEmpty(pieces);
    forall j | 0 <= j < |re|
      ensures pieces[j] == [] <==> Has(le, re[j].key)
    {
      HasFound(le, re[j].key);
    }
  }

  lemma HasFound(es: seq<Entry>, key: string)
    ensures Has(es, key) <==> Find(es, key) < |es|
  {
    var j := Find(es, key);
    if j < |es| {
      assert es[j].key == key;
    }
  }

  lemma {:induction false} ObjectsExact(le: seq<Entry>, re: seq<Entry>, eq: Equal)
    requires WellKeyed(Obj(le)) && WellKeyed(Obj(re))
    ensures Diff(Obj(le), Obj(re), eq) == [] <==> Same(Obj(le), Obj(re), eq)
    decreases le, 1
  {
    LeftExact(le, re, eq, LeftEntries(le, re, eq));
    RightExact(le, re, RightEntries(le, re));
  }

  // ----- the computation -----

  lemma FlatNext(pieces: seq<seq<Report>>, i: nat)
    requires i < |pieces|
    ensures Flat(pieces[..i + 1]) == Flat(pieces[..i]) + pieces[i]
  {
    assert pieces[..i + 1][..i] == pieces[..i];
  }

  // variant_diff_helper(); out collects what the callback is given.
  method DiffHelper(l: Variant, r: Variant, eq: Equal) returns (out: seq<Report>)
    ensures out == Diff(l, r, eq)
    decreases l, 1
  {
    if !SameType(l, r) {
      out := [Report([], l, r)];
    } else if l.Obj? {
      out := DiffObjects(l.entries, r.entries, eq);
    } else if l.Arr? {
      out := DiffArrays(l.items, r.items, eq);
    } else if !eq(l, r) {
      out := [Report([], l, r)];
    } else {
      out := [];
    }
  }

  method DiffObjects(le: seq<Entry>, re: seq<Entry>, eq: Equal) returns (out: seq<Report>)
    ensures out == Flat(LeftEntries(le, re, eq)) + Flat(RightEntries(le, re))
    decreases le, 1
  {
    var left, keys := DiffLeftKeys(le, re, eq);
    var right := DiffRightKeys(le, re, keys);
    out := left + right;
  }

  // The loop over the left object, with the keys it has seen.
  method DiffLeftKeys(le: seq<Entry>, re: seq<Entry>, eq: Equal) returns (out: seq<Report>, keys: set<string>)
    ensures out == Flat(LeftEntries(le, re, eq)) && keys == set t | 0 <= t < |le| :: le[t].key
    decreases le, 0
  {
    ghost var pieces := LeftEntries(le, re, eq);
    out, keys := [], {};
    for i := 0 to |le|
      invariant out == Flat(pieces[..i])
      invariant keys == set t | 0 <= t < i :: le[t].key
    {
      FlatNext(pieces, i);
      var e := le[i];
      var j := Find(re, e.key);
      if j == |re| {
        out := out + [Report([Key(e.key)], e.value, NULL)];
      } else {
        var inner := DiffHelper(e.value, re[j].value, eq);
        out := out + Below(Key(e.key), inner);
      }
      keys := keys + {e.key};
    }
    assert pieces[..|le|] == pieces;
  }

  // The loop over the keys of the right object that were not seen.
  method DiffRightKeys(le: seq<Entry>, re: seq<Entry>, keys: set<string>) returns (out: seq<Report>)
    requires keys == set t | 0 <= t < |le| :: le[t].key
    ensures out == Flat(RightEntries(le, re))
  {
    ghost var pieces := RightEntries(le, re);
    out := [];
    for j := 0 to |re|
      invariant out == Flat(pieces[..j])
    {
      FlatNext(pieces, j);
      KeysFound(le, keys, re[j].key);
      if re[j].key !in keys {
        out := out + [Report([Key(re[j].key)], NULL, re[j].value)];
      }
    }
    assert pieces[..|re|] == pieces;
  }

  lemma KeysFound(le: seq<Entry>, keys: set<string>, key: string)
    requires keys == set t | 0 <= t < |le| :: le[t].key
    ensures key in keys <==> Find(le, key) < |le|
  {
    var j := Find(le, key);
    if j < |le| {
      assert le[j].key in keys;
    }
  }

  method DiffArrays(xs: seq<Variant>, ys: seq<Variant>, eq: Equal) returns (out: seq<Report>)
    ensures out == Diff(Arr(xs), Arr(ys), eq)
    decreases xs, 0
  {
    var common := Shared(xs, ys);
    ghost var pieces := CommonItems(xs, ys, eq);
    out := [];
    for i := 0 to common
      invariant out == Flat(pieces[..i])
    {
      FlatNext(pieces, i);
      var inner := DiffHelper(xs[i], ys[i], eq);
      out := out + Below(Index(i), inner);
    }
    assert pieces[..common] == pieces;
    var left := LeftAdditions(xs, ys);
    var right := RightAdditions(xs, ys);
    out := out + left + right;
  }

  method LeftAdditions(xs: seq<Variant>, ys: seq<Variant>) returns (out: seq<Report>)
    ensures out == Flat(LeftItems(xs, ys))
  {
    var common := Shared(xs, ys);
    ghost var pieces := LeftItems(xs, ys);
    out := [];
    for i := common to |xs|
      invariant out == Flat(pieces[..i - common])
    {
      FlatNext(pieces, i - common);
      out := out + [Report([Index(i)], xs[i], NULL)];
    }
    assert pieces[..|xs| - common] == pieces;
  }

  method RightAdditions(xs: seq<Variant>, ys: seq<Variant>) returns (out: seq<Report>)
    ensures out == Flat(RightItems(xs, ys))
  {
    var common := Shared(xs, ys);
    ghost var pieces := RightItems(xs, ys);
    out := [];
    for i := common to |ys|
      invariant out == Flat(pieces[..i - common])
    {
      FlatNext(pieces, i - common);
      out := out + [Report([Index(i)], NULL, ys[i])];
    }
    assert pieces[..|ys| - common] == pieces;
  }
}
