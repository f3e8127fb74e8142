/** The scopes of the checker: what identifiers stood for before they were
    declared is kept on a stack, and the end of a scope gives it back. */
module Scopes {
  import opened Syntax

  /** An identifier and the kind it had. */
  datatype Saved = Saved(idn: Idn, kind: IdnKind)

  /** The kind that i, now of kind k, has once these entries are taken back, the
      last first: that of its earliest entry. */
  function Undone(saved: seq<Saved>, i: Idn, k: IdnKind): IdnKind {
    if saved == [] then k
    else if saved[0].idn == i then saved[0].kind
    else Undone(saved[1..], i, k)
  }

  ghost function IdnsIn(saved: seq<Saved>): set<Idn> {
    set e | e in saved :: e.idn
  }

  lemma {:induction false} UndoneJoin(a: seq<Saved>, b: seq<Saved>, i: Idn, k: IdnKind)
    ensures Undone(a + b, i, k) == Undone(a, i, Undone(b, i, k))
  {
    if a == [] {
      assert a + b == b;
    } else {
      assert (a + b)[1..] == a[1..] + b;
      UndoneJoin(a[1..], b, i, k);
    }
  }

  /** One more entry, taken back first. */
  lemma UndoneSnoc(a: seq<Saved>, e: Saved, i: Idn, k: IdnKind)
    ensures Undone(a + [e], i, k) == Undone(a, i, if e.idn == i then e.kind else k)
  {
    UndoneJoin(a, [e], i, k);
    assert [e][1..] == [];
  }

  /** An identifier that is on the stack gets its kind from there. */
  lemma {:induction false} UndoneSaved(saved: seq<Saved>, i: Idn, k: IdnKind, k': IdnKind)
    ensures i in IdnsIn(saved) ==> Undone(saved, i, k) == Undone(saved, i, k')
    ensures i !in IdnsIn(saved) ==> Undone(saved, i, k) == k
  {
    if saved != [] {
      UndoneSaved(saved[1..], i, k, k');
      assert forall e :: e in saved <==> e == saved[0] || e in saved[1..];
    }
  }

  /** What an identifier gets back is the kind of its earliest entry, and it
      keeps the one it has if there is none. */
  lemma {:induction false} UndoneIs(saved: seq<Saved>, i: Idn, k: IdnKind)
    ensures || (Undone(saved, i, k) == k && forall m :: 0 <= m < |saved| ==> saved[m].idn != i)
            || exists m :: 0 <= m < |saved| && saved[m] == Saved(i, Undone(saved, i, k)) &&
                           forall l :: 0 <= l < m ==> saved[l].idn != i
  {
    if saved != [] && saved[0].idn != i {
      UndoneIs(saved[1..], i, k);
      assert forall m :: 0 < m < |saved| ==> saved[m] == saved[1..][m - 1];
      var r := Undone(saved[1..], i, k);
      if m :| 0 <= m < |saved| - 1 && saved[1..][m] == Saved(i, r) &&
              forall l :: 0 <= l < m ==> saved[1..][l].idn != i {
        assert saved[m + 1] == Saved(i, r);
      }
    }
  }

  ghost function KindsOf(idns: set<Idn>): Kinds
    reads idns`kind
  {
    map i | i in idns :: i.kind
  }

  // ----- what happens between the beginning and the end of a scope -----

  /** What the checker does to scopes; NewIdn is scopify. */
  datatype Act = Begin | End | Declare(idn: Idn, kind: IdnKind) | NewIdn(idn: Idn)

  datatype State = State(kind: Kinds, saved: seq<Saved>, marks: seq<nat>)

  ghost predicate Ok(s: State) {
    && IdnsIn(s.saved) <= s.kind.Keys
    && (forall k :: 0 <= k < |s.marks| ==> s.marks[k] <= |s.saved|)
    && (forall j, k :: 0 <= j < k < |s.marks| ==> s.marks[j] <= s.marks[k])
  }

  ghost predicate Can(s: State, a: Act) {
    Ok(s) && (a.End? ==> s.marks != []) && (a.Declare? || a.NewIdn? ==> a.idn in s.kind)
  }

  ghost function After(s: State, a: Act): State
    requires Can(s, a)
  {
    match a
    case Begin => s.(marks := s.marks + [|s.saved|])
    case End =>
      var low := s.marks[|s.marks| - 1];
      State(map i | i in s.kind :: Undone(s.saved[low..], i, s.kind[i]), s.saved[..low], s.marks[..|s.marks| - 1])
    case Declare(i, k) => State(s.kind[i := k], s.saved + [Saved(i, s.kind[i])], s.marks)
    case NewIdn(i) => s.(saved := s.saved + [Saved(i, Unknown)])
  }

  ghost predicate Possible(s: State, acts: seq<Act>)
    decreases |acts|
  {
    acts == [] || (Can(s, acts[0]) && Possible(After(s, acts[0]), acts[1..]))
  }

  ghost function Run(s: State, acts: seq<Act>): State
    requires Possible(s, acts)
    decreases |acts|
  {
    if acts == [] then s else Run(After(s, acts[0]), acts[1..])
  }

  /** Scopes nest, and with d of them open these acts end them all. */
  ghost predicate Nested(acts: seq<Act>, d: nat) {
    if acts == [] then d == 0
    else if acts[0].Begin? then Nested(acts[1..], d + 1)
    else if acts[0].End? then d > 0 && Nested(acts[1..], d - 1)
    else Nested(acts[1..], d)
  }

  ghost function Named(acts: seq<Act>): set<Idn> {
    set a | a in acts && (a.Declare? || a.NewIdn?) :: a.idn
  }

  ghost function New(acts: seq<Act>): set<Idn> {
    set a | a in acts && a.NewIdn? :: a.idn
  }

  lemma NewIs(acts: seq<Act>)
    ensures forall i :: i in New(acts) <==> NewIdn(i) in acts
  {
  }

  /** The end of the scope begun at s0 gives back every kind, but for new
      identifiers, which may become unknown. */
  ghost predicate GivesBack(s0: State, saved: seq<Saved>, kind: Kinds, new_: set<Idn>) {
    && kind.Keys == s0.kind.Keys
    && forall i :: i in kind ==>
         var k := Undone(saved, i, kind[i]); k == s0.kind[i] || (i in new_ && k == Unknown)
  }

  /** In the scope begun at s0, with d more begun in it. */
  ghost predicate Inside(s0: State, s: State, d: nat, new_: set<Idn>) {
    var m, n := |s0.marks|, |s0.saved|;
    && Ok(s) && |s.marks| == m + 1 + d && s.marks[..m] == s0.marks && s.marks[m] == n
    && n <= |s.saved| && s.saved[..n] == s0.saved
    && GivesBack(s0, s.saved[n..], s.kind, new_)
  }

  lemma BeginInside(s: State)
    requires Ok(s)
    ensures Inside(s, After(s, Begin), 0, {})
  {
    var s1 := After(s, Begin);
    assert s1.saved[|s.saved|..] == [];
  }

  /** Declaring saves the kind that is overwritten. */
  lemma DeclareGivesBack(s0: State, saved: seq<Saved>, kind: Kinds, new_: set<Idn>, i: Idn, k: IdnKind)
    requires GivesBack(s0, saved, kind, new_) && i in kind
    ensures GivesBack(s0, saved + [Saved(i, kind[i])], kind[i := k], new_)
  {
    forall j | j in kind ensures Undone(saved + [Saved(i, kind[i])], j, kind[i := k][j]) == Undone(saved, j, kind[j]) {
      UndoneSnoc(saved, Saved(i, kind[i]), j, kind[i := k][j]);
    }
  }

  lemma NewGivesBack(s0: State, saved: seq<Saved>, kind: Kinds, new_: set<Idn>, i: Idn)
    requires GivesBack(s0, saved, kind, new_) && i in kind
    ensures GivesBack(s0, saved + [Saved(i, Unknown)], kind, new_ + {i})
  {
    forall j | j in kind
      ensures var k := Undone(saved + [Saved(i, Unknown)], j, kind[j]);
              k == Undone(saved, j, kind[j]) || (j == i && k == Unknown)
    {
      UndoneSnoc(saved, Saved(i, Unknown), j, kind[j]);
      UndoneSaved(saved, j, Unknown, kind[j]);
    }
  }

  /** Ending a scope inside takes part of the stack back; the rest still does. */
  lemma EndGivesBack(s0: State, a: seq<Saved>, b: seq<Saved>, kind: Kinds, new_: set<Idn>)
    requires GivesBack(s0, a + b, kind, new_)
    ensures GivesBack(s0, a, map i | i in kind :: Undone(b, i, kind[i]), new_)
  {
    forall i | i in kind ensures Undone(a, i, Undone(b, i, kind[i])) == Undone(a + b, i, kind[i]) {
      UndoneJoin(a, b, i, kind[i]);
    }
  }

  lemma PartIn(saved: seq<Saved>, low: nat)
    requires low <= |saved|
    ensures IdnsIn(saved[..low]) <= IdnsIn(saved) && IdnsIn(saved[low..]) <= IdnsIn(saved)
  {
    assert forall e :: e in saved[..low] || e in saved[low..] ==> e in saved;
  }

  lemma EndInside(s0: State, s: State, d: nat, new_: set<Idn>)
    requires Inside(s0, s, d, new_) && d > 0
    ensures Can(s, End) && Inside(s0, After(s, End), d - 1, new_)
  {
    hide GivesBack, Undone;
    var n, low := |s0.saved|, s.marks[|s.marks| - 1];
    assert n <= low by { assert s.marks[|s0.marks|] <= low; }
    assert s.saved[n..] == s.saved[n..low] + s.saved[low..];
    EndGivesBack(s0, s.saved[n..low], s.saved[low..], s.kind, new_);
    PartIn(s.saved, low);
    var s' := After(s, End);
    assert s'.saved[n..] == s.saved[n..low] && s'.saved[..n] == s.saved[..n];
    assert s'.marks[..|s0.marks|] == s.marks[..|s0.marks|];
  }

  lemma BeginMore(s0: State, s: State, d: nat, new_: set<Idn>)
    requires Inside(s0, s, d, new_)
    ensures Can(s, Begin) && Inside(s0, After(s, Begin), d + 1, new_)
  {
    hide GivesBack, Undone;
  }

  lemma DeclareInside(s0: State, s: State, d: nat, new_: set<Idn>, i: Idn, k: IdnKind)
    requires Inside(s0, s, d, new_) && i in s.kind
    ensures Can(s, Declare(i, k)) && Inside(s0, After(s, Declare(i, k)), d, new_)
  {
    hide GivesBack, Undone;
    var n := |s0.saved|;
    DeclareGivesBack(s0, s.saved[n..], s.kind, new_, i, k);
    assert (s.saved + [Saved(i, s.kind[i])])[n..] == s.saved[n..] + [Saved(i, s.kind[i])];
  }

  lemma NewInside(s0: State, s: State, d: nat, new_: set<Idn>, i: Idn)
    requires Inside(s0, s, d, new_) && i in s.kind
    ensures Can(s, NewIdn(i)) && Inside(s0, After(s, NewIdn(i)), d, new_ + {i})
  {
    hide GivesBack, Undone;
    var n := |s0.saved|;
    NewGivesBack(s0, s.saved[n..], s.kind, new_, i);
    assert (s.saved + [Saved(i, Unknown)])[n..] == s.saved[n..] + [Saved(i, Unknown)];
  }

  lemma StepInside(s0: State, s: State, d: nat, new_: set<Idn>, a: Act)
    requires Inside(s0, s, d, new_) && (a.End? ==> d > 0) && (a.Declare? || a.NewIdn? ==> a.idn in s.kind)
    ensures Can(s, a)
    ensures Inside(s0, After(s, a), if a.Begin? then d + 1 else if a.End? then d - 1 else d,
                   if a.NewIdn? then new_ + {a.idn} else new_)
  {
    hide *;
    match a
    case Begin => BeginMore(s0, s, d, new_);
    case End => EndInside(s0, s, d, new_);
    case Declare(i, k) => DeclareInside(s0, s, d, new_, i, k);
    case NewIdn(i) => NewInside(s0, s, d, new_, i);
  }

  lemma {:induction false} RunInside(s0: State, s: State, d: nat, new_: set<Idn>, acts: seq<Act>)
    requires Inside(s0, s, d, new_) && Nested(acts, d) && Named(acts) <= s.kind.Keys == s0.kind.Keys
    ensures Possible(s, acts) && Inside(s0, Run(s, acts), 0, new_ + New(acts))
    decreases |acts|
  {
    hide GivesBack, Ok;
    if acts == [] {
      assert new_ + New(acts) == new_;
    } else {
      var a := acts[0];
      assert acts == [a] + acts[1..];
      StepInside(s0, s, d, new_, a);
      var d1 := if a.Begin? then d + 1 else if a.End? then d - 1 else d;
      var new1 := if a.NewIdn? then new_ + {a.idn} else new_;
      RunInside(s0, After(s, a), d1, new1, acts[1..]);
      assert new1 + New(acts[1..]) == new_ + New(acts);
    }
  }

  /** Whatever is declared in a scope and the scopes in it, at its end every
      identifier stands for what it stood for, or is one that was new in it and
      unknown, and the stack is what it was. */
  lemma ScopeRestores(s: State, acts: seq<Act>)
    requires Ok(s) && Nested(acts, 0) && Named(acts) <= s.kind.Keys
    ensures Possible(After(s, Begin), acts) && Can(Run(After(s, Begin), acts), End)
    ensures var s' := After(Run(After(s, Begin), acts), End);
            && s'.saved == s.saved && s'.marks == s.marks && s'.kind.Keys == s.kind.Keys
            && forall i :: i in s.kind ==> s'.kind[i] == s.kind[i] || (NewIdn(i) in acts && s'.kind[i] == Unknown)
  {
    BeginInside(s);
    RunInside(s, After(s, Begin), 0, {}, acts);
    assert {} + New(acts) == New(acts);
  }

  class ScopeStack {
    var idns: seq<Saved>
    var scopes: seq<nat>      // the size of idns when each open scope began

    ghost predicate Valid()
      reads this
    {
      && (forall k :: 0 <= k < |scopes| ==> scopes[k] <= |idns|)
      && (forall j, k :: 0 <= j < k < |scopes| ==> scopes[j] <= scopes[k])
    }

    constructor ()
      ensures Valid() && idns == [] && scopes == []
    {
      idns, scopes := [], [];
    }

    method BeginScope()
      requires Valid()
      modifies this`scopes
      ensures Valid() && scopes == old(scopes) + [|idns|]
    {
      scopes := scopes + [|idns|];
    }

    /** Every identifier saved in the scope gets back the kind it had before the
        first of its entries there. */
    method EndScope()
      requires Valid() && scopes != []
      modifies this, IdnsIn(idns[scopes[|scopes| - 1]..])`kind
      ensures Valid() && scopes == old(scopes[..|scopes| - 1]) && idns == old(idns[..scopes[|scopes| - 1]])
      ensures forall i :: i in old(IdnsIn(idns[scopes[|scopes| - 1]..])) ==>
                i.kind == Undone(old(idns[scopes[|scopes| - 1]..]), i, old(i.kind))
    {
      var low := scopes[|scopes| - 1];
      TakeBack(idns[low..]);
      scopes := scopes[..|scopes| - 1];
      idns := idns[..low];
    }

    /** The loop of end_scope, from the last entry to the first. */
    static method TakeBack(top: seq<Saved>)
      modifies IdnsIn(top)`kind
      ensures forall i :: i in IdnsIn(top) ==> i.kind == Undone(top, i, old(i.kind))
    {
      var j := |top|;
      while j > 0
        invariant 0 <= j <= |top|
        invariant forall i :: i in IdnsIn(top) ==> i.kind == Undone(top[j..], i, old(i.kind))
      {
        j := j - 1;
        assert top[j..][0] == top[j] && top[j..][1..] == top[j + 1..] && top[j] in top;
        top[j].idn.kind := top[j].kind;
      }
      assert top[0..] == top;
    }

    /** The end of the scope that began when the stack was of size low will give
        these identifiers these kinds, or make new ones unknown. */
    ghost predicate Restores(low: nat, kind: Kinds, new_: set<Idn> := {})
      reads this`idns, kind.Keys`kind
    {
      && low <= |idns| && IdnsIn(idns[low..]) <= kind.Keys
      && forall i :: i in kind ==>
           var k := Undone(idns[low..], i, i.kind); k == kind[i] || (i in new_ && k == Unknown)
    }

    lemma RestoresNow(kind: Kinds)
      requires forall i :: i in kind ==> i.kind == kind[i]
      ensures Restores(|idns|, kind)
    {
      assert idns[|idns|..] == [];
    }

    lemma RestoresFrom(low: nat, kind: Kinds, new_: set<Idn> := {})
      requires Restores(low, kind, new_)
      ensures low <= |idns|
    {
    }

    /** The present kind goes on the stack, to be given back. */
    method Save(i: Idn, ghost low: nat, ghost kind: Kinds, ghost new_: set<Idn> := {})
      requires Valid() && Restores(low, kind, new_)
      modifies this`idns
      ensures Valid() && idns == old(idns) + [Saved(i, i.kind)]
      ensures i in kind ==> Restores(low, kind, new_)
    {
      ghost var top, e := idns[low..], Saved(i, i.kind);
      idns := idns + [Saved(i, i.kind)];
      assert idns[low..] == top + [e];
      forall j | j in kind ensures Undone(top + [e], j, j.kind) == Undone(top, j, j.kind) {
        UndoneSnoc(top, e, j, j.kind);
      }
    }

    /** A new identifier is to be unknown when the scope ends. */
    method Scopify(i: Idn, ghost low: nat, ghost kind: Kinds, ghost new_: set<Idn> := {})
      requires Valid() && Restores(low, kind, new_)
      modifies this`idns
      ensures Valid() && idns == old(idns) + [Saved(i, Unknown)]
      ensures i in kind ==> Restores(low, kind, new_ + {i})
    {
      ghost var top, e := idns[low..], Saved(i, Unknown);
      idns := idns + [Saved(i, Unknown)];
      assert idns[low..] == top + [e];
      forall j | j in kind
        ensures var k := Undone(top + [e], j, j.kind); k == Undone(top, j, j.kind) || (j == i && k == Unknown)
      {
        UndoneSnoc(top, e, j, j.kind);
        UndoneSaved(top, j, Unknown, j.kind);
      }
    }

    /** Give i a kind; an identifier that stands for something is reported. */
    method Declare(i: Idn, nk: IdnKind, ghost low: nat, ghost kind: Kinds) returns (bad: bool)
      requires Valid() && Restores(low, kind)
      modifies this`idns, i`kind
      ensures Valid() && idns == old(idns) + [Saved(i, old(i.kind))] && i.kind == nk
      ensures bad <==> !old(i.kind).Unknown?
      ensures i in kind ==> Restores(low, kind)
    {
      bad := !i.kind.Unknown?;
      Save(i, low, kind);
      ghost var top, k := idns[low..], i.kind;
      i.kind := nk;
      assert top[|top| - 1].idn == i;
      UndoneSaved(top, i, k, nk);
    }

    /** Give a kind to an identifier that is on the stack already. */
    method SetKind(i: Idn, nk: IdnKind, ghost low: nat, ghost kind: Kinds, ghost new_: set<Idn> := {})
      requires Restores(low, kind, new_) && i in IdnsIn(idns[low..])
      modifies i`kind
      ensures i.kind == nk && Restores(low, kind, new_)
    {
      UndoneSaved(idns[low..], i, i.kind, nk);
      i.kind := nk;
    }

    /** The end of a scope that restores these kinds. */
    method EndRestoring(ghost low: nat, ghost kind: Kinds, ghost new_: set<Idn> := {})
      requires Valid() && scopes != [] && low == scopes[|scopes| - 1] && Restores(low, kind, new_)
      modifies this, kind.Keys`kind
      ensures Valid() && scopes == old(scopes[..|scopes| - 1]) && idns == old(idns[..low])
      ensures forall i :: i in kind ==> i.kind == kind[i] || (i in new_ && i.kind == Unknown)
    {
      ghost var top := idns[low..];
      EndScope();
      forall i | i in kind ensures i.kind == Undone(top, i, old(i.kind)) {
        UndoneSaved(top, i, old(i.kind), Unknown);
      }
    }

    /** The stacks, and the kinds of the identifiers that matter. */
    ghost function View(known: set<Idn>): State
      reads this, known`kind
    {
      State(KindsOf(known), idns, scopes)
    }

    method DoEnd(ghost known: set<Idn>)
      requires Can(View(known), End)
      modifies this, known`kind
      ensures View(known) == After(old(View(known)), End)
    {
      hide Undone;
      ghost var low := scopes[|scopes| - 1];
      ghost var kind := map i | i in known :: Undone(idns[low..], i, i.kind);
      PartIn(idns, low);
      assert View(known).kind.Keys == known == kind.Keys;
      EndRestoring(low, kind);
      assert KindsOf(known) == kind;
    }

    method Do(a: Act, ghost known: set<Idn>)
      requires Can(View(known), a)
      modifies this, known`kind
      ensures View(known) == After(old(View(known)), a)
    {
      hide Undone;
      match a {
        case Begin => BeginScope();
        case End => DoEnd(known);
        case Declare(i, k) =>
          RestoresNow(map[i := i.kind]);
          var _ := Declare(i, k, |idns|, map[i := i.kind]);
        case NewIdn(i) =>
          RestoresNow(map[i := i.kind]);
          Scopify(i, |idns|, map[i := i.kind]);
      }
    }

    /** Any sequence of these. */
    method Perform(acts: seq<Act>, ghost known: set<Idn>)
      requires Possible(View(known), acts)
      modifies this, known`kind
      ensures View(known) == Run(old(View(known)), acts)
    {
      for k := 0 to |acts|
        invariant Possible(View(known), acts[k..]) && Run(View(known), acts[k..]) == Run(old(View(known)), acts)
      {
        assert acts[k..][0] == acts[k] && acts[k..][1..] == acts[k + 1..];
        Do(acts[k], known);
      }
    }
  }
}
