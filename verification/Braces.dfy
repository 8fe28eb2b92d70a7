/**
 Brace matching, by counting depth, and the tree of scopes it gives a text. This is what the
 reflection checker's scope reader (tools/validate_reflection.py) has to find.
 */
module Braces {
  import opened Collections

  // What the reader takes a scope for: a class, an enum or a namespace, or anything else.
  datatype Kind = Plain | Class | Enum | Namespace

  datatype Scope = Scope(kind: Kind, start: nat, end: nat, inner: seq<Scope>)

  predicate IsBrace(ch: char) {
    ch == '{' || ch == '}'
  }

  // The first brace at i or after it.
  function FirstBrace(c: string, i: nat): (q: nat)
    requires i <= |c|
    ensures i <= q <= |c| && (q < |c| ==> IsBrace(c[q]))
    decreases |c| - i
  {
    if i == |c| || IsBrace(c[i]) then i else FirstBrace(c, i + 1)
  }

  lemma {:induction false} NoneBefore(c: string, i: nat)
    requires i <= |c|
    ensures forall j :: i <= j < FirstBrace(c, i) ==> !IsBrace(c[j])
    decreases |c| - i
  {
    if i < |c| && !IsBrace(c[i]) {
      NoneBefore(c, i + 1);
    }
  }

  // The brace that closes the last of depth + 1 open ones.
  function Close(c: string, i: nat, depth: nat): (e: Option<nat>)
    requires i <= |c|
    ensures e.Some? ==> i <= e.value < |c| && c[e.value] == '}'
    decreases |c| - i
  {
    if i == |c| then None
    else if c[i] == '{' then Close(c, i + 1, depth + 1)
    else if c[i] == '}' then (if depth == 0 then Some(i) else Close(c, i + 1, depth - 1))
    else Close(c, i + 1, depth)
  }

  // How the text at a position labels a scope in a scope of a given kind; and whether it is
  // a namespace that inherits, which the reader does not accept.
  datatype Label = Label(kind: Kind, inherits: bool)

  type Labels = (nat, Kind) -> Label

  function LabelOf(labels: Labels, within: Kind, start: nat): Label {
    if within.Plain? then Label(Plain, false) else labels(start, within)
  }

  // The scopes from i on that end before the surrounding one does.
  function Kids(c: string, i: nat, within: Kind, labels: Labels): seq<Scope>
    requires i <= |c|
    decreases |c| - i
  {
    var q := FirstBrace(c, i);
    if q < |c| && c[q] == '{' && Close(c, q + 1, 0).Some? then
      var e := Close(c, q + 1, 0).value;
      var kind := LabelOf(labels, within, q).kind;
      [Scope(kind, q, e, Kids(c, q + 1, kind, labels))] + Kids(c, e + 1, within, labels)
    else []
  }

  // ----- depth counting -----

  lemma {:induction false} CloseNoBraces(c: string, i: nat, j: nat, depth: nat)
    requires i <= j <= |c| && forall k :: i <= k < j ==> !IsBrace(c[k])
    ensures Close(c, i, depth) == Close(c, j, depth)
    decreases j - i
  {
    if i < j {
      CloseNoBraces(c, i + 1, j, depth);
    }
  }

  // Closing one scope more is closing the inner one, then the outer one.
  lemma {:induction false} CloseOuter(c: string, i: nat, extra: nat, depth: nat)
    requires i <= |c|
    ensures match Close(c, i, extra)
            case Some(e) => Close(c, i, extra + depth + 1) == Close(c, e + 1, depth)
            case None => Close(c, i, extra + depth + 1) == None
    decreases |c| - i
  {
    if i < |c| {
      if c[i] == '{' {
        CloseOuter(c, i + 1, extra + 1, depth);
      } else if c[i] == '}' {
        if extra > 0 {
          CloseOuter(c, i + 1, extra - 1, depth);
        }
      } else {
        CloseOuter(c, i + 1, extra, depth);
      }
    }
  }

  // Past a scope that closes, nothing changes for the surrounding one.
  lemma CloseSkips(c: string, i: nat)
    requires i <= |c| && FirstBrace(c, i) < |c| && c[FirstBrace(c, i)] == '{'
    ensures match Close(c, FirstBrace(c, i) + 1, 0)
            case Some(e) => Close(c, i, 0) == Close(c, e + 1, 0)
            case None => Close(c, i, 0) == None
  {
    var q := FirstBrace(c, i);
    NoneBefore(c, i);
    CloseNoBraces(c, i, q, 0);
    CloseOuter(c, q + 1, 0, 0);
  }

  // Without a scope before it, the surrounding one closes at the next brace.
  lemma CloseHere(c: string, i: nat)
    requires i <= |c|
    ensures var q := FirstBrace(c, i);
            if q == |c| then Close(c, i, 0) == None else c[q] == '}' ==> Close(c, i, 0) == Some(q)
  {
    NoneBefore(c, i);
    CloseNoBraces(c, i, FirstBrace(c, i), 0);
  }

  // ----- what the scopes are -----

  // The scopes are matching pairs one after the other from i on, with no brace between them,
  // and the same holds within each of them.
  ghost predicate Tiles(c: string, i: nat, scopes: seq<Scope>, to: nat)
    decreases scopes
  {
    if scopes == [] then i <= to <= |c| && forall k :: i <= k < to ==> !IsBrace(c[k])
    else
      var s := scopes[0];
      && i <= s.start < s.end < to <= |c| && (forall k :: i <= k < s.start ==> !IsBrace(c[k]))
      && c[s.start] == '{' && c[s.end] == '}' && Tiles(c, s.start + 1, s.inner, s.end)
      && Tiles(c, s.end + 1, scopes[1..], to)
  }

  lemma TilesCons(c: string, i: nat, s: Scope, rest: seq<Scope>, kids: seq<Scope>, to: nat)
    requires kids == [s] + rest
    requires i <= s.start < s.end < to <= |c| && forall k :: i <= k < s.start ==> !IsBrace(c[k])
    requires c[s.start] == '{' && c[s.end] == '}' && Tiles(c, s.start + 1, s.inner, s.end)
             && Tiles(c, s.end + 1, rest, to)
    ensures Tiles(c, i, kids, to)
  {
    assert kids[1..] == rest;
  }

  // The first of the scopes, and the others.
  lemma KidsFirst(c: string, i: nat, within: Kind, labels: Labels, q: nat, e: nat, kind: Kind)
    requires i <= |c| && q == FirstBrace(c, i) < |c| && c[q] == '{' && Close(c, q + 1, 0) == Some(e)
    requires kind == LabelOf(labels, within, q).kind
    ensures Kids(c, i, within, labels) ==
            [Scope(kind, q, e, Kids(c, q + 1, kind, labels))] + Kids(c, e + 1, within, labels)
  {
  }

  // If the inside of the first scope and what follows it are tiled, so is the whole.
  lemma {:induction false} FirstTiles(c: string, i: nat, within: Kind, labels: Labels, to: nat, q: nat, e: nat,
                                      kind: Kind, inner: seq<Scope>, rest: seq<Scope>)
    requires i <= |c| && q == FirstBrace(c, i) < |c| && c[q] == '{' && Close(c, q + 1, 0) == Some(e)
    requires kind == LabelOf(labels, within, q).kind
    requires inner == Kids(c, q + 1, kind, labels) && rest == Kids(c, e + 1, within, labels)
    requires e < to <= |c| && Tiles(c, q + 1, inner, e) && Tiles(c, e + 1, rest, to)
    ensures Tiles(c, i, Kids(c, i, within, labels), to)
  {
    var kids := Kids(c, i, within, labels);
    assert kids == [Scope(kind, q, e, inner)] + rest by {
      KidsFirst(c, i, within, labels, q, e, kind);
    }
    NoneBefore(c, i);
    TilesCons(c, i, Scope(kind, q, e, inner), rest, kids, to);
  }

  // Where the surrounding scope closes its scopes tile it.
  lemma {:induction false} KidsTile(c: string, i: nat, within: Kind, labels: Labels, to: nat)
    requires i <= |c| && Close(c, i, 0) == Some(to)
    ensures Tiles(c, i, Kids(c, i, within, labels), to)
    decreases |c| - i
  {
    var q := FirstBrace(c, i);
    CloseHere(c, i);
    if c[q] == '{' {
      CloseSkips(c, i);
      KidsTileFirst(c, i, within, labels, to, q, Close(c, q + 1, 0).value, LabelOf(labels, within, q).kind);
    } else {
      NoneBefore(c, i);
    }
  }

  lemma {:induction false} KidsTileFirst(c: string, i: nat, within: Kind, labels: Labels, to: nat, q: nat, e: nat,
                                         kind: Kind)
    requires i <= |c| && q == FirstBrace(c, i) < |c| && c[q] == '{' && Close(c, q + 1, 0) == Some(e)
    requires kind == LabelOf(labels, within, q).kind && Close(c, e + 1, 0) == Some(to)
    ensures Tiles(c, i, Kids(c, i, within, labels), to)
    decreases |c| - i, 0
  {
    KidsTile(c, q + 1, kind, labels, e);
    KidsTile(c, e + 1, within, labels, to);
    FirstTiles(c, i, within, labels, to, q, e, kind, Kids(c, q + 1, kind, labels), Kids(c, e + 1, within, labels));
  }

  // Tiling scopes are disjoint, in order, and within the surrounding one.
  lemma {:induction false} TilesInOrder(c: string, i: nat, scopes: seq<Scope>, to: nat, j: nat)
    requires Tiles(c, i, scopes, to) && j < |scopes|
    ensures i <= scopes[j].start < scopes[j].end < to
    ensures forall k :: j < k < |scopes| ==> scopes[j].end < scopes[k].start
    decreases |scopes|, j
  {
    if j > 0 {
      TilesInOrder(c, scopes[0].end + 1, scopes[1..], to, j - 1);
    } else {
      forall k | 0 < k < |scopes|
        ensures scopes[0].end < scopes[k].start
      {
        TilesInOrder(c, scopes[0].end + 1, scopes[1..], to, k - 1);
      }
    }
  }

  // Past tiling scopes, nothing changes for the surrounding one.
  lemma {:induction false} TilesSkip(c: string, i: nat, scopes: seq<Scope>, to: nat)
    requires Tiles(c, i, scopes, to)
    ensures Close(c, i, 0) == Close(c, to, 0)
    decreases scopes
  {
    if scopes == [] {
      CloseNoBraces(c, i, to, 0);
    } else {
      var s := scopes[0];
      TilesSkip(c, s.start + 1, s.inner, s.end);
      TilesSkip(c, s.end + 1, scopes[1..], to);
      CloseNoBraces(c, i, s.start, 0);
      CloseOuter(c, s.start + 1, 0, 0);
    }
  }

  // Each of them closes where depth counting says.
  lemma {:induction false} TilesClose(c: string, i: nat, scopes: seq<Scope>, to: nat, j: nat)
    requires Tiles(c, i, scopes, to) && j < |scopes|
    ensures scopes[j].start < |c| && Close(c, scopes[j].start + 1, 0) == Some(scopes[j].end)
    decreases j
  {
    var s := scopes[0];
    if j > 0 {
      TilesClose(c, s.end + 1, scopes[1..], to, j - 1);
    } else {
      TilesSkip(c, s.start + 1, s.inner, s.end);
    }
  }

  // ----- labels -----

  function Bare(scopes: seq<Scope>): seq<Scope>
    decreases scopes
  {
    if scopes == [] then []
    else [Scope(Plain, scopes[0].start, scopes[0].end, Bare(scopes[0].inner))] + Bare(scopes[1..])
  }

  lemma BareCons(s: Scope, rest: seq<Scope>, s': Scope, rest': seq<Scope>)
    requires s.start == s'.start && s.end == s'.end && Bare(s.inner) == Bare(s'.inner) && Bare(rest) == Bare(rest')
    ensures Bare([s] + rest) == Bare([s'] + rest')
  {
    assert ([s] + rest)[1..] == rest && ([s'] + rest')[1..] == rest';
  }

  // Labels decide what the scopes are taken for, not where they are.
  lemma {:induction false} LabelsDoNotMatter(c: string, i: nat, within: Kind, labels: Labels, within': Kind,
                                             labels': Labels)
    requires i <= |c|
    ensures Bare(Kids(c, i, within, labels)) == Bare(Kids(c, i, within', labels'))
    decreases |c| - i
  {
    var q := FirstBrace(c, i);
    if q < |c| && c[q] == '{' && Close(c, q + 1, 0).Some? {
      LabelsFirst(c, i, within, labels, within', labels', q, Close(c, q + 1, 0).value,
                  LabelOf(labels, within, q).kind, LabelOf(labels', within', q).kind,
                  Kids(c, i, within, labels), Kids(c, i, within', labels'));
    }
  }

  lemma {:induction false} LabelsFirst(c: string, i: nat, within: Kind, labels: Labels, within': Kind, labels': Labels,
                                       q: nat, e: nat, kind: Kind, kind': Kind, kids: seq<Scope>, kids': seq<Scope>)
    requires i <= |c| && q == FirstBrace(c, i) < |c| && c[q] == '{' && Close(c, q + 1, 0) == Some(e)
    requires kind == LabelOf(labels, within, q).kind && kind' == LabelOf(labels', within', q).kind
    requires kids == Kids(c, i, within, labels) && kids' == Kids(c, i, within', labels')
    ensures Bare(kids) == Bare(kids')
    decreases |c| - i, 0
  {
    KidsFirst(c, i, within, labels, q, e, kind);
    KidsFirst(c, i, within', labels', q, e, kind');
    LabelsDoNotMatter(c, q + 1, kind, labels, kind', labels');
    LabelsDoNotMatter(c, e + 1, within, labels, within', labels');
    BareCons(Scope(kind, q, e, Kids(c, q + 1, kind, labels)), Kids(c, e + 1, within, labels),
             Scope(kind', q, e, Kids(c, q + 1, kind', labels')), Kids(c, e + 1, within', labels'));
  }
}
