/** The code of an identifier entry as a value: what each operation on the
    table of identifiers does to the codes of all names, and what a code says
    about the events since the last flush. */
module IdentifierCodes {
  import opened Syntax

  const NO_REFS := -4   // unreferenced permanent equate
  const REFS := -3      // referenced permanent equate
  const LASTING := -2   // local file equate
  const HIDDEN := -1    // obscured by local definition
  const LOCAL := 0      // local definition; a positive code is a line number

  datatype State = State(code: map<Name, int>, kind: map<Name, IdnKind>)

  datatype LookupResult = IsLocal | Found(kind: IdnKind)

  datatype Event = Lookup(name: Name, line: int) | Local(name: Name) | Add(name: Name, kind: IdnKind)

  ghost predicate Legal(s: State) {
    s.code.Keys == s.kind.Keys && forall n :: n in s.code ==> NO_REFS <= s.code[n]
  }

  function LineCode(line: int): int {
    if line > 0 then line else 1
  }

  ghost function AfterLookup(s: State, n: Name, line: int): State
    requires Legal(s)
  {
    if n !in s.code then State(s.code[n := LineCode(line)], s.kind[n := Unknown])
    else if s.code[n] == NO_REFS then s.(code := s.code[n := REFS])
    else s
  }

  ghost function LookupAnswer(s: State, n: Name): LookupResult
    requires Legal(s)
  {
    if n !in s.code then Found(Unknown)
    else if s.code[n] == HIDDEN || s.code[n] == LOCAL then IsLocal
    else Found(s.kind[n])
  }

  ghost function AfterLocal(s: State, n: Name): State
    requires Legal(s)
  {
    if n !in s.code then State(s.code[n := LOCAL], s.kind[n := Unknown])
    else if s.code[n] < HIDDEN then s.(code := s.code[n := HIDDEN])
    else s
  }

  ghost function LocalAnswer(s: State, n: Name): int
    requires Legal(s)
  {
    if n in s.code && s.code[n] > LOCAL then s.code[n] else 0
  }

  ghost function AfterAdd(s: State, n: Name, k: IdnKind): State
    requires Legal(s)
  {
    if n in s.code then s else State(s.code[n := NO_REFS], s.kind[n := k])
  }

  /** Which procedure a flush applies to the entries: flush_id, or pflush_id
      with its argument. */
  datatype Flusher = Plain | Keeping(lasting: bool)

  /** The code such a procedure gives an entry that it does not drop. */
  function FlushedCode(f: Flusher, code: int): int {
    match f
    case Plain => NO_REFS
    case Keeping(lasting) =>
      if code == REFS && lasting then LASTING
      else if code != LASTING then NO_REFS
      else code
  }

  ghost function AfterFlush(s: State, f: Flusher): State
    requires Legal(s)
  {
    State(map n | n in s.code && s.code[n] < LOCAL :: FlushedCode(f, s.code[n]),
          map n | n in s.code && s.code[n] < LOCAL :: s.kind[n])
  }

  ghost function After(s: State, e: Event): (s': State)
    requires Legal(s)
    ensures Legal(s')
  {
    match e
    case Lookup(n, line) => AfterLookup(s, n, line)
    case Local(n) => AfterLocal(s, n)
    case Add(n, k) => AfterAdd(s, n, k)
  }

  ghost function Run(s: State, h: seq<Event>): (s': State)
    requires Legal(s)
    ensures Legal(s')
  {
    if h == [] then s else After(Run(s, h[..|h| - 1]), h[|h| - 1])
  }

  /** What a flush of either kind leaves: permanent equates, none in use. */
  ghost predicate Flushed(s: State) {
    Legal(s) && forall n :: n in s.code ==> s.code[n] == NO_REFS || s.code[n] == LASTING
  }

  /** A flush drops exactly the names of no permanent equate. */
  lemma FlushesFlush(s: State, f: Flusher)
    requires Legal(s)
    ensures Flushed(AfterFlush(s, f))
    ensures forall n :: n in AfterFlush(s, f).code <==> n in s.code && s.code[n] < LOCAL
    ensures forall n :: n in AfterFlush(s, f).code ==> AfterFlush(s, f).kind[n] == s.kind[n]
    ensures f.Plain? ==> forall n :: n in AfterFlush(s, f).code ==> AfterFlush(s, f).code[n] == NO_REFS
  {
  }

  // ----- reading a history -----

  ghost function First(h: seq<Event>, n: Name): Option<Event> {
    if h == [] then None
    else if h[0].name == n then Some(h[0])
    else First(h[1..], n)
  }

  /** An external entry was there at the flush, or was added before any use. */
  ghost predicate External(s: State, h: seq<Event>, n: Name) {
    n in s.code || (First(h, n).Some? && First(h, n).value.Add?)
  }

  ghost predicate Declared(h: seq<Event>, n: Name) {
    Local(n) in h
  }

  ghost predicate LookedUp(h: seq<Event>, n: Name) {
    exists i :: 0 <= i < |h| && h[i].Lookup? && h[i].name == n
  }

  /** Some declaration of n in the history got the answer 0. */
  ghost predicate DeclaredFree(s: State, h: seq<Event>, n: Name)
    requires Legal(s)
  {
    exists i :: 0 <= i < |h| && h[i] == Local(n) && LocalAnswer(Run(s, h[..i]), n) == 0
  }

  /** The code a history gives a name. */
  ghost function CodeOf(s: State, h: seq<Event>, n: Name): Option<int> {
    if External(s, h, n) then
      if Declared(h, n) then Some(HIDDEN)
      else if n in s.code && s.code[n] == LASTING then Some(LASTING)
      else if LookedUp(h, n) then Some(REFS)
      else Some(NO_REFS)
    else
      match First(h, n)
      case None => None
      case Some(Lookup(_, line)) => Some(LineCode(line))
      case Some(_) => Some(LOCAL)
  }

  lemma {:induction false} FirstSnoc(h: seq<Event>, e: Event, n: Name)
    ensures First(h + [e], n) == if First(h, n).Some? then First(h, n)
                                 else if e.name == n then Some(e) else None
  {
    if h != [] {
      assert (h + [e])[1..] == h[1..] + [e];
      FirstSnoc(h[1..], e, n);
    }
  }

  lemma {:induction false} FirstNone(h: seq<Event>, n: Name)
    ensures First(h, n).None? <==> forall i :: 0 <= i < |h| ==> h[i].name != n
    ensures First(h, n).Some? ==> First(h, n).value.name == n
  {
    if h != [] {
      FirstNone(h[1..], n);
      assert forall i :: 1 <= i < |h| ==> h[i] == h[1..][i - 1];
    }
  }

  /** Five codes tell all: the code of every name after any events is what the
      history says. */
  lemma {:induction false} CodeIsHistory(s: State, h: seq<Event>, n: Name)
    requires Flushed(s)
    ensures var code := Run(s, h).code;
            CodeOf(s, h, n) == if n in code then Some(code[n]) else None
    decreases |h|
  {
    hide Declared, LookedUp, First, Run;
    RunSnoc(s, h);
    if h != [] {
      var p, e := h[..|h| - 1], h[|h| - 1];
      CodeIsHistory(s, p, n);
      FirstSnoc(p, e, n);
      Unused(p, n);
      HistorySnoc(p, e, n);
    } else {
      Unused(h, n);
    }
  }

  lemma {:induction false} RunSnoc(s: State, h: seq<Event>)
    requires Legal(s)
    ensures if h == [] then Run(s, h) == s
            else h == h[..|h| - 1] + [h[|h| - 1]] && Run(s, h) == After(Run(s, h[..|h| - 1]), h[|h| - 1])
  {
    hide After, Legal;
  }

  lemma Unused(h: seq<Event>, n: Name)
    ensures First(h, n).None? ==> !Declared(h, n) && !LookedUp(h, n)
    ensures First(h, n).Some? ==> First(h, n).value.name == n
    ensures h == [] ==> First(h, n).None?
  {
    FirstNone(h, n);
  }

  lemma HistorySnoc(p: seq<Event>, e: Event, n: Name)
    ensures Declared(p + [e], n) <==> Declared(p, n) || e == Local(n)
    ensures LookedUp(p + [e], n) <==> LookedUp(p, n) || (e.Lookup? && e.name == n)
  {
    var h := p + [e];
    assert h[|p|] == e && forall i :: 0 <= i < |p| ==> h[i] == p[i];
  }

  /** local(n) answers a line number exactly when n is not external and was
      looked up first, and then the line of that lookup (1 if it had none). */
  lemma LocalAnswersFirstLine(s: State, h: seq<Event>, n: Name)
    requires Flushed(s)
    ensures var k := LocalAnswer(Run(s, h), n);
            var f := First(h, n);
            && (k > 0 <==> !External(s, h, n) && f.Some? && f.value.Lookup?)
            && (k > 0 ==> k == if f.value.line > 0 then f.value.line else 1)
            && k >= 0
  {
    CodeIsHistory(s, h, n);
  }

  /** The first event of a name, by its place in the history. */
  lemma {:induction false} FirstIs(h: seq<Event>, n: Name)
    ensures if First(h, n).Some?
            then exists i :: 0 <= i < |h| && h[i].name == n && First(h, n) == Some(h[i]) &&
                             forall j :: 0 <= j < i ==> h[j].name != n
            else forall i :: 0 <= i < |h| ==> h[i].name != n
  {
    if h != [] && h[0].name != n {
      FirstIs(h[1..], n);
      assert forall i :: 0 < i < |h| ==> h[i] == h[1..][i - 1];
      if First(h[1..], n).Some? {
        var i :| 0 <= i < |h| - 1 && h[1..][i].name == n && First(h[1..], n) == Some(h[1..][i]) &&
                 forall j :: 0 <= j < i ==> h[1..][j].name != n;
        assert h[i + 1] == h[1..][i];
      }
    }
  }

  /** A name is known exactly when it was there at the flush or has had an
      event, and its kind is the one it had, or else the one it was added with,
      if that came first; any other name is unknown. */
  lemma {:induction false} KindIsHistory(s: State, h: seq<Event>, n: Name)
    requires Flushed(s)
    ensures var s', f := Run(s, h), First(h, n);
            && (n in s'.code <==> n in s.code || f.Some?)
            && (n in s'.code ==>
                  s'.kind[n] == if n in s.code then s.kind[n] else if f.value.Add? then f.value.kind else Unknown)
    decreases |h|
  {
    hide First, Run;
    RunSnoc(s, h);
    if h != [] {
      var p, e := h[..|h| - 1], h[|h| - 1];
      KindIsHistory(s, p, n);
      FirstSnoc(p, e, n);
    }
    Unused(h, n);
  }

  /** lookup(n) signals local exactly when n was declared, and was there at the
      flush or was not looked up first; else it answers the kind that n had at
      the flush, or was added with, or unknown. */
  lemma LookupIsHistory(s: State, h: seq<Event>, n: Name)
    requires Flushed(s)
    ensures var f := First(h, n);
            LookupAnswer(Run(s, h), n) ==
            if Local(n) in h && (n in s.code || (f.Some? && !f.value.Lookup?)) then IsLocal
            else if n in s.code then Found(s.kind[n])
            else if f.Some? && f.value.Add? then Found(f.value.kind)
            else Found(Unknown)
  {
    hide First, Run;
    CodeIsHistory(s, h, n);
    KindIsHistory(s, h, n);
    Unused(h, n);
    FirstIsMember(h, n);
  }

  /** A flush keeps the names that were there at the last one or were added
      before any use, with their kinds. Lasting from then on is what was lasting,
      or looked up with that flag, and was not declared. */
  lemma FlushIsHistory(s: State, h: seq<Event>, f: Flusher, n: Name)
    requires Flushed(s)
    ensures var s', e := AfterFlush(Run(s, h), f), First(h, n);
            && (n in s'.code <==> n in s.code || (e.Some? && e.value.Add?))
            && (n in s'.code ==> s'.kind[n] == if n in s.code then s.kind[n] else e.value.kind)
            && (n in s'.code ==>
                  s'.code[n] ==
                  if f.Keeping? && Local(n) !in h &&
                     ((n in s.code && s.code[n] == LASTING) ||
                      (f.lasting && exists i :: 0 <= i < |h| && h[i].Lookup? && h[i].name == n))
                  then LASTING else NO_REFS)
  {
    hide First, Run;
    CodeIsHistory(s, h, n);
    KindIsHistory(s, h, n);
    Unused(h, n);
  }

  /** lookup(n) signals local exactly when an earlier local(n) answered 0. */
  lemma LookupSignalsIffDeclaredFree(s: State, h: seq<Event>, n: Name)
    requires Flushed(s)
    ensures LookupAnswer(Run(s, h), n) == IsLocal <==> DeclaredFree(s, h, n)
  {
    CodeIsHistory(s, h, n);
    FirstNone(h, n);
    var f := First(h, n);
    if DeclaredFree(s, h, n) {
      var i :| 0 <= i < |h| && h[i] == Local(n) && LocalAnswer(Run(s, h[..i]), n) == 0;
      LocalAnswersFirstLine(s, h[..i], n);
      FirstPrefix(h, i, n);
    } else if LookupAnswer(Run(s, h), n) == IsLocal {
      assert Declared(h, n) || (f.Some? && f.value.Local?);
      FirstIsMember(h, n);
      var i :| 0 <= i < |h| && h[i] == Local(n);
      LocalAnswersFirstLine(s, h[..i], n);
      FirstPrefix(h, i, n);
      assert false;
    }
  }

  lemma {:induction false} FirstIsMember(h: seq<Event>, n: Name)
    ensures First(h, n).Some? ==> First(h, n).value in h
  {
    if h != [] { FirstIsMember(h[1..], n); }
  }

  /** What comes first in a prefix comes first. */
  lemma {:induction false} FirstPrefix(h: seq<Event>, i: nat, n: Name)
    requires i <= |h|
    ensures First(h[..i], n).Some? ==> First(h, n) == First(h[..i], n)
    ensures First(h[..i], n).None? && i < |h| && h[i].name == n ==> First(h, n) == Some(h[i])
  {
    if i > 0 && h[0].name != n {
      assert h[..i][1..] == h[1..][..i - 1];
      FirstPrefix(h[1..], i - 1, n);
    } else if i == 0 {
    }
  }

  /** Names that are only declared, never looked up or added, stay local:
      looking one up signals local, declaring it again answers 0. */
  lemma PurelyLocal(s: State, h: seq<Event>, n: Name)
    requires Flushed(s) && n !in s.code && Local(n) in h
    requires forall i :: 0 <= i < |h| && h[i].name == n ==> h[i].Local?
    ensures n in Run(s, h).code && Run(s, h).code[n] == LOCAL
  {
    CodeIsHistory(s, h, n);
    FirstIsMember(h, n);
    FirstNone(h, n);
  }
}
