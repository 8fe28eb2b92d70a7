/**
 The reader of scopes (tools/validate_reflection.py). It looks for the next opening brace
 before the next closing one, past an initialiser where there is one, and reads the scope
 that begins there before it goes on.
 */
module ScopeReader {
  import opened Collections
  import opened Braces

  // ----- searching text -----

  // str.find for one character, -1 if it is not there.
  method FindChar(c: string, ch: char, from: nat, to: nat) returns (r: int)
    requires to <= |c|
    ensures r == -1 || (from <= r < to && c[r] == ch)
    ensures forall j :: from <= j < (if r == -1 then to else r) ==> c[j] != ch
  {
    var i := from;
    while i < to
      invariant from <= i && forall j :: from <= j < i && j < to ==> c[j] != ch
    {
      if c[i] == ch {
        return i;
      }
      i := i + 1;
    }
    r := -1;
  }

  predicate IsSpace(ch: char) {
    ch == ' ' || ch == '\t' || ch == '\n' || ch == '\r' || ch == '\U{0B}' || ch == '\U{0C}'
  }

  // An initialiser from i up to e: an opening brace, then neither closing brace nor semicolon
  // up to the closing brace at j, then only space up to a semicolon.
  ghost predicate Initialiser(c: string, i: nat, j: nat, e: nat) {
    && i < j < e <= |c| && c[i] == '{' && c[j] == '}' && c[e - 1] == ';'
    && (forall k :: i < k < j ==> c[k] != ';' && c[k] != '}') && (forall k :: j < k < e - 1 ==> IsSpace(c[k]))
  }

  method InitialiserAt(c: string, i: nat) returns (r: Option<nat>)
    requires i < |c|
    ensures r.Some? ==> exists j :: Initialiser(c, i, j, r.value)
    ensures r.None? ==> forall j, e :: !Initialiser(c, i, j, e)
  {
    if c[i] != '{' {
      return None;
    }
    var j := i + 1;
    while j < |c| && c[j] != ';' && c[j] != '}'
      invariant i < j <= |c| && forall k :: i < k < j ==> c[k] != ';' && c[k] != '}'
    {
      j := j + 1;
    }
    if j == |c| || c[j] != '}' {
      return None;
    }
    var s := j + 1;
    while s < |c| && IsSpace(c[s])
      invariant j < s <= |c| && forall k :: j < k < s ==> IsSpace(c[k])
    {
      s := s + 1;
    }
    if s == |c| || c[s] != ';' {
      return None;
    }
    assert Initialiser(c, i, j, s + 1);
    r := Some(s + 1);
  }

  // The text of the first initialiser from a position on.
  method SearchInitialiser(c: string, from: nat) returns (r: Option<string>, ghost at: nat)
    requires from <= |c|
    ensures r.Some? ==> |r.value| > 0 && r.value[0] == '{'
    ensures r.Some? ==> from <= at && at + |r.value| <= |c| && c[at..at + |r.value|] == r.value
    ensures r.Some? ==> exists j, e :: e == at + |r.value| && Initialiser(c, at, j, e)
    ensures forall i, j, e :: from <= i < (if r.Some? then at else |c|) ==> !Initialiser(c, i, j, e)
  {
    at := 0;
    var i := from;
    while i < |c|
      invariant from <= i <= |c| && forall k, j, e :: from <= k < i ==> !Initialiser(c, k, j, e)
    {
      var end := InitialiserAt(c, i);
      if end.Some? {
        at := i;
        return Some(c[i..end.value]), at;
      }
      i := i + 1;
    }
    r := None;
  }

  // str.find for a text that does occur.
  method FindText(c: string, t: string, from: nat, ghost at: nat) returns (p: nat)
    requires from <= at && at + |t| <= |c| && c[at..at + |t|] == t
    ensures from <= p && p + |t| <= |c| && c[p..p + |t|] == t
  {
    p := from;
    while c[p..p + |t|] != t
      invariant from <= p <= at
      decreases at - p
    {
      p := p + 1;
    }
  }

  // A slice that ends at -1 ends before the last character.
  function Limit(c: string, end: int): nat
    requires |c| > 0 && -1 <= end
  {
    if end == -1 then |c| - 1 else end
  }

  // The scope that begins before the surrounding one can end.
  predicate Opens(c: string, i: nat)
    requires i <= |c|
  {
    FirstBrace(c, i) < |c| - 1 && c[FirstBrace(c, i)] == '{'
  }

  // find_possible_end: the skip over an initialiser may move the end, but no opening brace
  // comes to be or ceases to be the next one by it.
  method FindPossibleEnd(c: string, current: nat) returns (possible: int)
    requires 0 < |c| && current <= |c|
    ensures -1 <= possible < |c|
    ensures if Opens(c, current) then FirstBrace(c, current) < Limit(c, possible)
            else forall j :: current <= j < Limit(c, possible) ==> c[j] != '{'
  {
    NoneBefore(c, current);
    possible := FindChar(c, '}', current, |c|);
    var init, at := SearchInitialiser(c, current);
    if init.Some? {
      var allStart := FindText(c, init.value, current, at);
      var allEnd := allStart + |init.value|;
      assert c[allStart] == init.value[0];
      if allStart < possible < allEnd {
        possible := FindChar(c, '}', allEnd + 1, |c|);
      }
    }
  }

  // The start of the next scope.
  method FindStart(c: string, current: nat) returns (r: int)
    requires 0 < |c| && current <= |c|
    ensures r == if Opens(c, current) then FirstBrace(c, current) else -1
  {
    NoneBefore(c, current);
    var end := FindPossibleEnd(c, current);
    r := FindChar(c, '{', current, Limit(c, end));
  }

  // ----- reading -----

  // A namespace that inherits is not accepted.
  predicate Refused(mark: Label) {
    mark.kind.Namespace? && mark.inherits
  }

  // None of these scopes, nor any scope within them, is refused.
  ghost predicate Allowed(scopes: seq<Scope>, within: Kind, labels: Labels)
    decreases scopes
  {
    forall j :: 0 <= j < |scopes| ==>
      !Refused(LabelOf(labels, within, scopes[j].start)) && Allowed(scopes[j].inner, scopes[j].kind, labels)
  }

  // The next scope cannot be read: it does not close, it is refused, or one within it is.
  ghost predicate Blocked(c: string, i: nat, within: Kind, labels: Labels)
    requires i <= |c|
  {
    var q := FirstBrace(c, i);
    var mark := LabelOf(labels, within, q);
    && Opens(c, i)
    && (Close(c, q + 1, 0).None? || Refused(mark) || !Allowed(Kids(c, q + 1, mark.kind, labels), mark.kind, labels))
  }

  // From i on there is a scope that does not close. The last character is not looked at.
  predicate Stuck(c: string, i: nat)
    requires i <= |c|
    decreases |c| - i
  {
    var q := FirstBrace(c, i);
    q < |c| && c[q] == '{' && if Close(c, q + 1, 0).Some? then Stuck(c, Close(c, q + 1, 0).value + 1) else q < |c| - 1
  }

  class Reader {
    const content: string
    const kind: Kind
    const start: nat
    var current: nat
    var end: Option<nat>
    var scopes: seq<Scope>

    // Only the global scope starts at 0, and it ends where the text does.
    constructor (content: string, kind: Kind, start: nat)
      requires start < |content|
      ensures this.content == content && this.kind == kind && this.start == start && Ready()
    {
      this.content := content;
      this.kind := kind;
      this.start := start;
      current := start + 1;
      end := if start == 0 then Some(|content| - 1) else None;
      scopes := [];
    }

    ghost predicate Ready()
      reads this
    {
      && start < |content| && current == start + 1 && scopes == []
      && end == if start == 0 then Some(|content| - 1) else None
    }

    // All scopes in this one, and where it ends.
    method Read(labels: Labels) returns (ok: bool)
      requires Ready()
      modifies this
      ensures ok ==> scopes == Kids(content, start + 1, kind, labels)
      ensures ok ==> end == if start == 0 then Some(|content| - 1) else Close(content, start + 1, 0)
      ensures ok && start > 0 ==> end.Some?
      ensures ok <==> (if start == 0 then !Stuck(content, 1) else Close(content, start + 1, 0).Some?)
                      && Allowed(Kids(content, start + 1, kind, labels), kind, labels)
      decreases |content| - start, 2
    {
      ok := ReadScopes(labels);
      if !ok {
        return;
      }
      AtTheEnd(content, start + 1, current, kind, labels, scopes);
      if end == None {
        var e := FindChar(content, '}', current, |content|);
        if e == -1 {
          return false;
        }
        end := Some(e);
      }
      ok := true;
    }

    // The loop of read().
    method ReadScopes(labels: Labels) returns (ok: bool)
      requires Ready()
      modifies this
      ensures end == old(end) && (ok ==> start < current <= |content|)
      ensures ok ==> Progress(content, start + 1, current, kind, labels, scopes)
      ensures ok ==> !Opens(content, current) || current >= |content| - 1
      ensures ok ==> Allowed(scopes, kind, labels)
      ensures !ok ==> (Close(content, start + 1, 0).None? && Stuck(content, start + 1))
                      || !Allowed(Kids(content, start + 1, kind, labels), kind, labels)
      decreases |content| - start, 1
    {
      while current < |content| - 1
        invariant start < current <= |content| && end == old(end)
        invariant Progress(content, start + 1, current, kind, labels, scopes) && Allowed(scopes, kind, labels)
        decreases |content| - current
      {
        ghost var before := current;
        var fine, next := NextScope(labels);
        if !fine {
          BlockedFails(content, start + 1, before, kind, labels, scopes);
          return false;
        }
        if next == None {
          break;
        }
        StepOver(content, start + 1, before, kind, labels, scopes, next.value);
        scopes := scopes + [next.value];
      }
      ok := true;
    }

    // The next scope, read to its end; or that there is none.
    method NextScope(labels: Labels) returns (ok: bool, r: Option<Scope>)
      requires start < current <= |content|
      modifies this
      ensures scopes == old(scopes) && end == old(end)
      ensures ok && r.None? ==> current == old(current) && !Opens(content, current)
      ensures ok && r.Some? ==> Opens(content, old(current)) && IsNext(content, old(current), kind, labels, r.value)
                                && current == r.value.end + 1 && Allowed([r.value], kind, labels)
      ensures !ok ==> Blocked(content, old(current), kind, labels)
      decreases |content| - start, 0
    {
      var q := FindStart(content, current);
      if q == -1 {
        return true, None;
      }
      var mark := LabelOf(labels, kind, q);
      if Refused(mark) {
        return false, None;
      }
      var scope := new Reader(content, mark.kind, q);
      var fine := scope.Read(labels);
      if !fine {
        return false, None;
      }
      var e := scope.end.value;
      current := e + 1;
      return true, Some(Scope(mark.kind, q, e, scope.scopes));
    }
  }

  // s is the first scope from i on.
  ghost predicate IsNext(c: string, i: nat, within: Kind, labels: Labels, s: Scope)
    requires i <= |c|
  {
    var q := FirstBrace(c, i);
    && q < |c| && c[q] == '{' && Close(c, q + 1, 0) == Some(s.end) && s.start == q
    && s.kind == LabelOf(labels, within, q).kind && s.inner == Kids(c, q + 1, s.kind, labels)
  }

  // What reading on from i comes to, after the scopes read already.
  datatype Outcome = Outcome(scopes: seq<Scope>, close: Option<nat>, stuck: bool)

  function Rest(c: string, i: nat, within: Kind, labels: Labels, scopes: seq<Scope>): Outcome
    requires i <= |c|
  {
    Outcome(scopes + Kids(c, i, within, labels), Close(c, i, 0), Stuck(c, i))
  }

  ghost predicate Progress(c: string, from: nat, i: nat, within: Kind, labels: Labels, scopes: seq<Scope>)
    requires from <= i <= |c|
  {
    Rest(c, from, within, labels, []) == Rest(c, i, within, labels, scopes)
  }

  lemma StepOver(c: string, from: nat, i: nat, within: Kind, labels: Labels, scopes: seq<Scope>, s: Scope)
    requires from <= i <= |c| && Progress(c, from, i, within, labels, scopes) && IsNext(c, i, within, labels, s)
    ensures i <= s.end < |c| && Progress(c, from, s.end + 1, within, labels, scopes + [s])
  {
    KidsFirst(c, i, within, labels, s.start, s.end, s.kind);
    CloseSkips(c, i);
    assert scopes + ([s] + Kids(c, s.end + 1, within, labels)) == (scopes + [s]) + Kids(c, s.end + 1, within, labels);
  }

  // If the next scope cannot be read, this one does not close or has a scope that is refused.
  lemma BlockedFails(c: string, from: nat, i: nat, within: Kind, labels: Labels, scopes: seq<Scope>)
    requires from <= i <= |c| && Progress(c, from, i, within, labels, scopes) && Blocked(c, i, within, labels)
    ensures (Close(c, from, 0).None? && Stuck(c, from)) || !Allowed(Kids(c, from, within, labels), within, labels)
  {
    var q := FirstBrace(c, i);
    CloseSkips(c, i);
    if Close(c, q + 1, 0).Some? {
      var kind := LabelOf(labels, within, q).kind;
      KidsFirst(c, i, within, labels, q, Close(c, q + 1, 0).value, kind);
      var all := Kids(c, from, within, labels);
      assert [] + all == all == scopes + Kids(c, i, within, labels);
      assert all[|scopes|] == Kids(c, i, within, labels)[0];
    }
  }

  // Without a next scope, the next closing brace closes this one.
  lemma AtTheEnd(c: string, from: nat, i: nat, within: Kind, labels: Labels, scopes: seq<Scope>)
    requires from <= i <= |c| && Progress(c, from, i, within, labels, scopes) && (!Opens(c, i) || i >= |c| - 1)
    ensures Kids(c, from, within, labels) == scopes && !Stuck(c, from)
    ensures Close(c, from, 0).None? <==> forall j :: i <= j < |c| ==> c[j] != '}'
    ensures Close(c, from, 0).Some? ==>
            i <= Close(c, from, 0).value && forall j :: i <= j < Close(c, from, 0).value ==> c[j] != '}'
  {
    assert [] + Kids(c, from, within, labels) == Kids(c, from, within, labels);
    NoneBefore(c, i);
    CloseHere(c, i);
    var q := FirstBrace(c, i);
    if q < |c| && c[q] == '{' {
      CloseSkips(c, i);
    }
  }

  // ----- when reading fails -----

  predicate Unclosed(c: string, s: nat)
    requires s < |c|
  {
    c[s] == '{' && Close(c, s + 1, 0).None?
  }

  // Within a scope that closes every scope does.
  lemma {:induction false} InsideCloses(c: string, i: nat, depth: nat, s: nat)
    requires i <= s < |c| && Close(c, i, depth).Some? && s < Close(c, i, depth).value
    ensures !Unclosed(c, s)
    decreases |c| - i
  {
    if c[s] == '{' {
      if i == s {
        CloseOuter(c, s + 1, 0, depth);
      } else if c[i] == '{' {
        InsideCloses(c, i + 1, depth + 1, s);
      } else if c[i] == '}' {
        InsideCloses(c, i + 1, depth - 1, s);
      } else {
        InsideCloses(c, i + 1, depth, s);
      }
    }
  }

  // A text in which every scope closes, and which cannot be read for a namespace that
  // inherits.
  lemma InheritingNamespace(labels: Labels)
    requires labels(24, Namespace) == Label(Namespace, true)
    ensures var c := "\nnamespace a : public b { }";
            !Stuck(c, 1) && !Allowed(Kids(c, 1, Namespace, labels), Namespace, labels)
  {
    var c := "\nnamespace a : public b { }";
    FirstBraceAt(c, 1, 24);
    assert Close(c, 25, 0) == Some(26);
    KidsFirst(c, 1, Namespace, labels, 24, 26, Namespace);
    assert Refused(LabelOf(labels, Namespace, Kids(c, 1, Namespace, labels)[0].start));
  }

  lemma {:induction false} FirstBraceAt(c: string, i: nat, q: nat)
    requires i <= q < |c| && IsBrace(c[q]) && forall j :: i <= j < q ==> !IsBrace(c[j])
    ensures FirstBrace(c, i) == q
    decreases q - i
  {
    if i < q {
      FirstBraceAt(c, i + 1, q);
    }
  }

  // Reading gets stuck exactly when some opening brace, not the last character, is never
  // closed and no closing brace before it ended the reading.
  lemma {:induction false} StuckMeans(c: string, i: nat)
    requires i <= |c|
    ensures Stuck(c, i) <==> Close(c, i, 0).None? && exists s :: i <= s < |c| - 1 && Unclosed(c, s)
    decreases |c| - i
  {
    var q := FirstBrace(c, i);
    NoneBefore(c, i);
    CloseHere(c, i);
    if q < |c| && c[q] == '{' {
      CloseSkips(c, i);
      if Close(c, q + 1, 0).Some? {
        StuckBeyond(c, i, q, Close(c, q + 1, 0).value);
      } else if q < |c| - 1 {
        assert Unclosed(c, q);
      }
    }
  }

  lemma {:induction false} StuckBeyond(c: string, i: nat, q: nat, e: nat)
    requires i <= |c| && q == FirstBrace(c, i) < |c| && c[q] == '{' && Close(c, q + 1, 0) == Some(e)
    ensures Stuck(c, e + 1) <==> Close(c, e + 1, 0).None? && exists s :: i <= s < |c| - 1 && Unclosed(c, s)
    decreases |c| - i, 0
  {
    StuckMeans(c, e + 1);
    NoneBefore(c, i);
    forall s | i <= s <= e
      ensures !Unclosed(c, s)
    {
      if q < s < e {
        InsideCloses(c, q + 1, 0, s);
      }
    }
  }

  // ----- balanced text -----

  predicate Balanced(c: string, i: nat, depth: nat)
    requires i <= |c|
    decreases |c| - i
  {
    if i == |c| then depth == 0
    else if c[i] == '{' then Balanced(c, i + 1, depth + 1)
    else if c[i] == '}' then depth > 0 && Balanced(c, i + 1, depth - 1)
    else Balanced(c, i + 1, depth)
  }

  lemma {:induction false} BalancedCloses(c: string, i: nat, extra: nat, depth: nat)
    requires i <= |c| && Balanced(c, i, extra + depth + 1)
    ensures Close(c, i, extra).Some? && Balanced(c, Close(c, i, extra).value + 1, depth)
    decreases |c| - i
  {
    if c[i] == '{' {
      BalancedCloses(c, i + 1, extra + 1, depth);
    } else if c[i] == '}' {
      if extra > 0 {
        BalancedCloses(c, i + 1, extra - 1, depth);
      }
    } else {
      BalancedCloses(c, i + 1, extra, depth);
    }
  }

  lemma {:induction false} BalancedSkips(c: string, i: nat, j: nat, depth: nat)
    requires i <= j <= |c| && forall k :: i <= k < j ==> !IsBrace(c[k])
    ensures Balanced(c, i, depth) == Balanced(c, j, depth)
    decreases j - i
  {
    if i < j {
      BalancedSkips(c, i + 1, j, depth);
    }
  }

  lemma {:induction false} BalancedNotStuck(c: string, i: nat)
    requires i <= |c| && Balanced(c, i, 0)
    ensures !Stuck(c, i)
    decreases |c| - i
  {
    var q := FirstBrace(c, i);
    NoneBefore(c, i);
    BalancedSkips(c, i, q, 0);
    if q < |c| {
      BalancedCloses(c, q + 1, 0, 0);
      BalancedNotStuck(c, Close(c, q + 1, 0).value + 1);
    }
  }

  lemma {:induction false} BalancedTiles(c: string, i: nat, within: Kind, labels: Labels)
    requires i <= |c| && Balanced(c, i, 0)
    ensures Tiles(c, i, Kids(c, i, within, labels), |c|)
    decreases |c| - i
  {
    var q := FirstBrace(c, i);
    NoneBefore(c, i);
    BalancedSkips(c, i, q, 0);
    if q < |c| {
      BalancedCloses(c, q + 1, 0, 0);
      BalancedFirst(c, i, within, labels, q, Close(c, q + 1, 0).value, LabelOf(labels, within, q).kind);
    }
  }

  lemma {:induction false} BalancedFirst(c: string, i: nat, within: Kind, labels: Labels, q: nat, e: nat, kind: Kind)
    requires i <= |c| && q == FirstBrace(c, i) < |c| && c[q] == '{' && Close(c, q + 1, 0) == Some(e)
    requires kind == LabelOf(labels, within, q).kind && Balanced(c, e + 1, 0)
    ensures Tiles(c, i, Kids(c, i, within, labels), |c|)
    decreases |c| - i, 0
  {
    assert e < |c|;
    KidsTile(c, q + 1, kind, labels, e);
    BalancedTiles(c, e + 1, within, labels);
    FirstTiles(c, i, within, labels, |c|, q, e, kind, Kids(c, q + 1, kind, labels), Kids(c, e + 1, within, labels));
  }

  // A balanced text is read to its end: its scopes tile it.
  lemma BalancedReads(c: string, i: nat, within: Kind, labels: Labels)
    requires i <= |c| && Balanced(c, i, 0)
    ensures !Stuck(c, i) && Tiles(c, i, Kids(c, i, within, labels), |c|)
  {
    BalancedNotStuck(c, i);
    BalancedTiles(c, i, within, labels);
  }
}
