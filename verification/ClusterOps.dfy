/** Which operations a cluster publishes, and what is reported of them.
    Operations that are not exported are renamed with a leading percent sign,
    specified operations are split by that sign into two lists, the joined list
    is rebuilt, and in the end cut back to the length of the first. */
module ClusterOps {
  import opened Syntax
  import opened Scopes

  const HIDDEN := '%'

  /** An operation definition in a cluster. */
  class OpDefn {
    var idn: Idn

    constructor (i: Idn)
      ensures idn == i
    {
      idn := i;
    }
  }

  /** A specified operation; what is specified beside the name is a parameter. */
  datatype OpInfo<P> = OpInfo(name: Name, info: P)

  function Select<T>(s: seq<T>, keep: seq<bool>): seq<T>
    requires |s| == |keep|
  {
    if s == [] then [] else Select(s[..|s| - 1], keep[..|s| - 1]) + (if keep[|s| - 1] then [s[|s| - 1]] else [])
  }

  predicate IsHidden(n: Name) {
    n.text != "" && n.text[0] == HIDDEN
  }

  function Hide(n: Name): Name {
    Name([HIDDEN] + n.text)
  }

  // ----- c_setup_opers -----

  /** How often an identifier is defined. */
  function Defs(i: Idn, idns: seq<Idn>): nat {
    if idns == [] then 0 else Defs(i, idns[..|idns| - 1]) + (if idns[|idns| - 1] == i then 1 else 0)
  }

  ghost function IdnsOf(body: seq<OpDefn>): (r: seq<Idn>)
    reads body
    ensures |r| == |body| && forall j :: 0 <= j < |body| ==> r[j] == body[j].idn
  {
    seq(|body|, j requires 0 <= j < |body| reads body => body[j].idn)
  }

  lemma DefsNext(i: Idn, idns: seq<Idn>, j: nat)
    requires j < |idns|
    ensures Defs(i, idns[..j + 1]) == Defs(i, idns[..j]) + (if idns[j] == i then 1 else 0)
  {
    assert idns[..j + 1][..j] == idns[..j];
  }

  lemma {:induction false} DefsSome(i: Idn, idns: seq<Idn>)
    ensures i in idns <==> Defs(i, idns) > 0
  {
    if idns != [] {
      DefsSome(i, idns[..|idns| - 1]);
      assert idns == idns[..|idns| - 1] + [idns[|idns| - 1]];
    }
  }

  /** Exported identifiers are declared, each to be defined. */
  method DeclareExports(st: ScopeStack, ext: seq<Idn>, ghost low: nat, ghost all: Kinds) returns (bad: bool)
    requires st.Valid() && st.Restores(low, all) && forall i :: i in ext ==> i in all
    modifies st`idns, (set i | i in ext)`kind
    ensures st.Valid() && st.Restores(low, all) && old(st.idns) <= st.idns
    ensures forall i :: i in ext ==> i.kind == Unknown && i in IdnsIn(st.idns[low..])
    ensures bad <==> exists i :: i in ext && !old(i.kind).Unknown?
  {
    hide Undone, IdnsIn, ScopeStack.Valid, ScopeStack.Restores;
    st.RestoresFrom(low, all);
    bad := false;
    for k := 0 to |ext|
      invariant st.Valid() && st.Restores(low, all) && low <= |old(st.idns)| && old(st.idns) <= st.idns
      invariant forall i :: i in ext ==> i.kind == if i in ext[..k] then Unknown else old(i.kind)
      invariant forall m :: 0 <= m < k ==> ext[m] in IdnsIn(st.idns[low..])
      invariant bad <==> exists m :: 0 <= m < k && !old(ext[m].kind).Unknown?
    {
      ghost var top := st.idns[low..];
      var b := st.Declare(ext[k], Unknown, low, all);
      SavedToo(top, st.idns[low..], ext[k]);
      bad := bad || b;
    }
  }

  lemma SavedToo(a: seq<Saved>, b: seq<Saved>, i: Idn)
    requires |b| == |a| + 1 && b[..|a|] == a && b[|a|].idn == i
    ensures IdnsIn(a) <= IdnsIn(b) && i in IdnsIn(b)
  {
    assert b == a + [b[|a|]];
  }

  /** With these definitions there is something to report: an exported
      identifier that stood for something or is defined again, or one that is
      not exported. */
  ghost predicate Reported(ext: seq<Idn>, idns: seq<Idn>, kind0: Kinds) {
    || (exists i :: i in ext && i in kind0 && (!kind0[i].Unknown? || Defs(i, idns) > 1))
    || (exists i :: i in idns && i !in ext && i in kind0 && (!kind0[i].Unknown? || Defs(i, idns) > 1))
  }

  /** One more definition. */
  lemma ReportedNext(ext: seq<Idn>, was: seq<Idn>, kind0: Kinds, j: nat)
    requires j < |was| && was[j] in kind0
    ensures var i := was[j];
            Reported(ext, was[..j + 1], kind0) <==>
            Reported(ext, was[..j], kind0) || Defs(i, was[..j]) > 0 || (i !in ext && !kind0[i].Unknown?)
  {
    hide Defs;
    var i, idns, next := was[j], was[..j], was[..j + 1];
    forall e: Idn ensures Defs(e, next) == Defs(e, idns) + (if i == e then 1 else 0) { DefsNext(e, was, j); }
    assert forall e :: e in next <==> e in idns || e == i;
    forall e: Idn ensures e in idns <==> Defs(e, idns) > 0 { DefsSome(e, idns); }
  }

  /** The kind of an identifier after these definitions. */
  ghost function KindAfter(i: Idn, exported: bool, defs: nat, kind0: IdnKind): IdnKind {
    if exported then (if defs == 0 then Unknown else OpGen(i.str))
    else if defs == 0 then kind0 else OpGen(Hide(i.str))
  }

  lemma KindNext(i: Idn, exported: bool, defs: nat, kind0: IdnKind)
    ensures KindAfter(i, exported, defs + 1, kind0) == OpGen(if exported then i.str else Hide(i.str))
    ensures KindAfter(i, exported, defs, kind0).Unknown? <==> defs == 0 && (exported || kind0.Unknown?)
  {
  }

  /** After the first j definitions, now the identifiers of the definitions and
      kind the kinds: what was defined so far is known. */
  ghost predicate NamedTo(ext: seq<Idn>, was: seq<Idn>, now: seq<Idn>, kind0: Kinds, kind: Kinds, j: int)
    requires 0 <= j <= |was|
  {
    && |now| == |was| && (forall k :: j <= k < |was| ==> now[k] == was[k])
    && (forall k :: 0 <= k < j ==> if was[k] in ext then now[k] == was[k] else now[k].str == Hide(was[k].str))
    && (forall i :: i in ext ==> i in kind)
    && (forall i :: i in was ==> i in kind)
    && (forall i :: i in kind ==> i in kind0 && kind[i] == KindAfter(i, i in ext, Defs(i, was[..j]), kind0[i]))
  }

  ghost predicate Named(ext: seq<Idn>, body: seq<OpDefn>, was: seq<Idn>, kind0: Kinds, j: int)
    requires 0 <= j <= |body| == |was|
    reads ext, body, was
  {
    NamedTo(ext, was, IdnsOf(body), kind0, KindsOf((set i | i in ext) + set i | i in was), j)
  }

  /** One more definition, of an exported identifier or not. */
  lemma NamedNext(ext: seq<Idn>, was: seq<Idn>, now: seq<Idn>, kind0: Kinds, kind: Kinds, j: nat, n: Idn)
    requires j < |was| && NamedTo(ext, was, now, kind0, kind, j)
    requires if was[j] in ext then n == was[j] else n.str == Hide(was[j].str)
    ensures NamedTo(ext, was, now[j := n], kind0, kind[was[j] := OpGen(n.str)], j + 1)
  {
    hide Defs, Hide, KindAfter;
    var i := was[j];
    KindNext(i, i in ext, Defs(i, was[..j]), kind0[i]);
    forall e: Idn ensures Defs(e, was[..j + 1]) == Defs(e, was[..j]) + (if i == e then 1 else 0) {
      DefsNext(e, was, j);
    }
  }

  /** The kind that the next definition finds. */
  lemma NamedFinds(ext: seq<Idn>, body: seq<OpDefn>, was: seq<Idn>, kind0: Kinds, j: nat)
    requires j < |body| == |was| && Named(ext, body, was, kind0, j)
    ensures var i := was[j];
            && body[j].idn == i && i in kind0
            && (i.kind.Unknown? <==> Defs(i, was[..j]) == 0 && (i in ext || kind0[i].Unknown?))
            && (i in ext && !i.kind.Unknown? ==> i.kind == OpGen(i.str))
  {
    hide Defs, Hide;
    assert was[j] in was;
    KindNext(was[j], was[j] in ext, Defs(was[j], was[..j]), kind0[was[j]]);
  }

  method NameExported(st: ScopeStack, ext: seq<Idn>, body: seq<OpDefn>, ghost was: seq<Idn>, ghost kind0: Kinds,
                      j: nat, ghost low: nat, ghost all: Kinds)
    returns (bad: bool)
    requires j < |body| == |was| && body[j].idn in ext && Named(ext, body, was, kind0, j)
    requires st.Restores(low, all) && body[j].idn in IdnsIn(st.idns[low..])
    modifies {body[j].idn}`kind
    ensures Named(ext, body, was, kind0, j + 1) && st.Restores(low, all)
    ensures bad <==> Defs(was[j], was[..j]) > 0
  {
    hide Defs, Hide, NamedTo, IdnsIn, ScopeStack.Restores;
    NamedFinds(ext, body, was, kind0, j);
    ghost var kind := KindsOf((set i | i in ext) + set i | i in was);
    var i := body[j].idn;
    NamedNext(ext, was, IdnsOf(body), kind0, kind, j, i);
    bad := false;
    if i.kind == Unknown {
      st.SetKind(i, OpGen(i.str), low, all);
    } else {
      bad := true;
    }
    assert IdnsOf(body)[j := i] == IdnsOf(body);
    assert KindsOf((set i | i in ext) + set i | i in was) == kind[i := OpGen(i.str)];
  }

  method NameLocal(st: ScopeStack, ext: seq<Idn>, body: seq<OpDefn>, ghost was: seq<Idn>, ghost kind0: Kinds,
                   j: nat, ghost low: nat, ghost all: Kinds)
    returns (bad: bool)
    requires j < |body| == |was| && body[j].idn !in ext && Named(ext, body, was, kind0, j)
    requires forall j, k :: 0 <= j < k < |body| ==> body[j] != body[k]
    requires st.Valid() && st.Restores(low, all) && body[j].idn in all
    modifies st`idns, {body[j].idn}`kind, {body[j]}`idn
    ensures Named(ext, body, was, kind0, j + 1) && st.Valid() && st.Restores(low, all)
    ensures IdnsIn(old(st.idns)[low..]) <= IdnsIn(st.idns[low..]) && old(st.idns) <= st.idns
    ensures was[j] in kind0 && (bad <==> Defs(was[j], was[..j]) > 0 || !kind0[was[j]].Unknown?)
  {
    hide Defs, Hide, NamedTo, IdnsIn, ScopeStack.Valid, ScopeStack.Restores;
    st.RestoresFrom(low, all);
    NamedFinds(ext, body, was, kind0, j);
    var i := body[j].idn;
    var n := new Idn(Hide(i.str), Unknown);
    ghost var kind, now, top := KindsOf((set i | i in ext) + set i | i in was), IdnsOf(body), st.idns[low..];
    NamedNext(ext, was, now, kind0, kind, j, n);
    bad := st.Declare(i, OpGen(Hide(i.str)), low, all);
    SavedToo(top, st.idns[low..], i);
    body[j].idn := n;
    assert IdnsOf(body) == now[j := n];
    assert i in was;
    assert KindsOf((set i | i in ext) + set i | i in was) == kind[i := OpGen(n.str)];
  }

  method NameDefs(st: ScopeStack, ext: seq<Idn>, body: seq<OpDefn>, ghost was: seq<Idn>, ghost kind0: Kinds,
                  bad0: bool, ghost low: nat, ghost all: Kinds)
    returns (bad: bool)
    requires forall j, k :: 0 <= j < k < |body| ==> body[j] != body[k]
    requires |was| == |body| && Named(ext, body, was, kind0, 0) && (bad0 <==> Reported(ext, [], kind0))
    requires st.Valid() && st.Restores(low, all) && forall i :: i in was ==> i in all
    requires forall i :: i in ext ==> i in IdnsIn(st.idns[low..])
    modifies st`idns, (set i | i in ext)`kind, (set i | i in was)`kind, (set d | d in body)`idn
    ensures Named(ext, body, was, kind0, |body|) && (bad <==> Reported(ext, was, kind0))
    ensures st.Valid() && st.Restores(low, all) && forall i :: i in ext ==> i in IdnsIn(st.idns[low..])
    ensures old(st.idns) <= st.idns
  {
    hide Reported, Undone, IdnsIn;
    bad := bad0;
    assert was[..0] == [];
    for j := 0 to |body|
      invariant Named(ext, body, was, kind0, j) && (bad <==> Reported(ext, was[..j], kind0))
      invariant st.Valid() && st.Restores(low, all) && forall i :: i in ext ==> i in IdnsIn(st.idns[low..])
      invariant old(st.idns) <= st.idns
    {
      ReportedNext(ext, was, kind0, j);
      var b;
      if body[j].idn in ext {
        b := NameExported(st, ext, body, was, kind0, j, low, all);
      } else {
        b := NameLocal(st, ext, body, was, kind0, j, low, all);
      }
      bad := bad || b;
    }
    assert was[..|was|] == was;
  }

  method ReportUndefined(st: ScopeStack, ext: seq<Idn>, bad0: bool, ghost was: seq<Idn>, ghost low: nat,
                         ghost all: Kinds)
    returns (bad: bool)
    requires forall i :: i in ext ==> i.kind == (if Defs(i, was) == 0 then Unknown else OpGen(i.str))
    requires st.Restores(low, all) && forall i :: i in ext ==> i in IdnsIn(st.idns[low..])
    modifies (set i | i in ext)`kind
    ensures forall i :: i in ext ==> i.kind == OpGen(i.str)
    ensures bad <==> bad0 || exists i :: i in ext && Defs(i, was) == 0
    ensures st.Restores(low, all)
  {
    hide Undone, IdnsIn;
    bad := bad0;
    for k := 0 to |ext|
      invariant forall i :: i in ext ==>
                  i.kind == if Defs(i, was) == 0 && i !in ext[..k] then Unknown else OpGen(i.str)
      invariant bad <==> bad0 || exists m :: 0 <= m < k && Defs(ext[m], was) == 0
      invariant st.Restores(low, all)
    {
      if ext[k].kind == Unknown {
        bad := true;
        st.SetKind(ext[k], OpGen(ext[k].str), low, all);
      }
    }
  }

  /** Something is reported: an exported name stood for something or is not
      defined once, or another one stood for something or is defined again. */
  ghost predicate Faulty(ext: seq<Idn>, idns: seq<Idn>, kind0: Kinds) {
    || (exists i :: i in ext && i in kind0 && (!kind0[i].Unknown? || Defs(i, idns) != 1))
    || (exists i :: i in idns && i !in ext && i in kind0 && (!kind0[i].Unknown? || Defs(i, idns) > 1))
  }

  lemma FaultyIs(ext: seq<Idn>, idns: seq<Idn>, kind0: Kinds)
    requires forall i :: i in ext ==> i in kind0
    ensures Faulty(ext, idns, kind0) <==> Reported(ext, idns, kind0) || exists i :: i in ext && Defs(i, idns) == 0
  {
    hide Defs;
  }

  lemma NamedAll(ext: seq<Idn>, body: seq<OpDefn>, was: seq<Idn>, kind0: Kinds)
    requires |body| == |was| && Named(ext, body, was, kind0, |body|)
    ensures forall i :: i in ext ==> i.kind == (if Defs(i, was) == 0 then Unknown else OpGen(i.str))
    ensures forall j :: 0 <= j < |body| ==>
              if was[j] in ext then body[j].idn == was[j]
              else body[j].idn.str == Hide(was[j].str) && was[j].kind == OpGen(body[j].idn.str)
  {
    hide Hide, Defs;
    assert was[..|was|] == was;
    forall j | 0 <= j < |body| ensures Defs(was[j], was) > 0 { DefsSome(was[j], was); }
  }

  /** The three passes. */
  method Passes(st: ScopeStack, ext: seq<Idn>, body: seq<OpDefn>, ghost was: seq<Idn>, ghost kind0: Kinds,
                ghost low: nat, ghost all: Kinds)
    returns (bad: bool)
    requires forall j, k :: 0 <= j < k < |body| ==> body[j] != body[k]
    requires st.Valid() && st.Restores(low, all) && was == IdnsOf(body)
    requires forall i :: i in ext ==> i in all && i in kind0 && kind0[i] == i.kind
    requires forall i :: i in was ==> i in all && i in kind0 && kind0[i] == i.kind
    modifies st`idns, (set i | i in ext)`kind, (set i | i in was)`kind, (set d | d in body)`idn
    ensures st.Valid() && st.Restores(low, all) && old(st.idns) <= st.idns
    ensures forall i :: i in ext ==> i.kind == OpGen(i.str)
    ensures forall j :: 0 <= j < |body| ==>
              if was[j] in ext then body[j].idn == was[j]
              else body[j].idn.str == Hide(was[j].str) && was[j].kind == OpGen(body[j].idn.str)
    ensures bad <==> Faulty(ext, was, kind0)
  {
    hide Defs, IdnsIn, Reported, Faulty, Hide, Named, ScopeStack.Valid, ScopeStack.Restores;
    bad := DeclareExports(st, ext, low, all);
    NoneNamed(ext, body, was, kind0);
    bad := NameDefs(st, ext, body, was, kind0, bad, low, all);
    NamedAll(ext, body, was, kind0);
    bad := ReportUndefined(st, ext, bad, was, low, all);
    FaultyIs(ext, was, kind0);
  }

  lemma NoneNamed(ext: seq<Idn>, body: seq<OpDefn>, was: seq<Idn>, kind0: Kinds)
    requires was == IdnsOf(body) && forall i :: i in ext ==> i in kind0 && i.kind == Unknown
    requires forall i :: i in was && i !in ext ==> i in kind0 && i.kind == kind0[i]
    requires forall i :: i in was ==> i in kind0
    ensures Named(ext, body, was, kind0, 0)
    ensures Reported(ext, [], kind0) <==> exists i :: i in ext && !kind0[i].Unknown?
  {
  }

  /** The exported identifiers and those that are defined. */
  ghost function Mentioned(ext: seq<Idn>, body: seq<OpDefn>): set<Idn>
    reads body
  {
    (set i | i in ext) + set d | d in body :: d.idn
  }

  lemma MentionedAre(ext: seq<Idn>, body: seq<OpDefn>)
    ensures Mentioned(ext, body) == (set i | i in ext) + set i | i in IdnsOf(body)
  {
    assert forall i :: i in IdnsOf(body) ==> exists d :: d in body && d.idn == i;
    forall d | d in body ensures d.idn in IdnsOf(body) {
      var j :| 0 <= j < |body| && body[j] == d;
      assert IdnsOf(body)[j] == d.idn;
    }
  }

  /** Exported identifiers stand for the operation of their name; a definition
      that is not exported gets a new identifier for its hidden name. What is
      reported is told exactly, and the end of the scope will give every
      identifier its kind back. */
  method SetupOpers(st: ScopeStack, ext: seq<Idn>, body: seq<OpDefn>, ghost low: nat, ghost all: Kinds)
    returns (bad: bool)
    requires forall j, k :: 0 <= j < k < |body| ==> body[j] != body[k]
    requires st.Valid() && st.Restores(low, all) && Mentioned(ext, body) <= all.Keys
    modifies st`idns, Mentioned(ext, body)`kind, (set d | d in body)`idn
    ensures st.Valid() && st.Restores(low, all) && old(st.idns) <= st.idns
    ensures forall i :: i in ext ==> i.kind == OpGen(i.str)
    ensures forall j :: 0 <= j < |body| ==>
              if old(body[j].idn) in ext then body[j].idn == old(body[j].idn)
              else body[j].idn.str == Hide(old(body[j].idn.str)) && old(body[j].idn).kind == OpGen(body[j].idn.str)
    ensures forall j :: 0 <= j < |body| && old(body[j].idn) !in ext ==>
              body[j].idn.str.text == ['%'] + old(body[j].idn.str.text)
    ensures (forall i :: i in ext ==> i.str.text == "" || i.str.text[0] != '%') ==>
              forall j, k :: 0 <= j < |body| && 0 <= k < |body| && old(body[j].idn.str) != old(body[k].idn.str) ==>
                body[j].idn.str != body[k].idn.str
    ensures bad <==> Faulty(ext, old(IdnsOf(body)), old(KindsOf(Mentioned(ext, body))))
  {
    hide Faulty, Hide, ScopeStack.Valid, ScopeStack.Restores;
    MentionedAre(ext, body);
    ghost var was := IdnsOf(body);
    bad := Passes(st, ext, body, was, KindsOf(Mentioned(ext, body)), low, all);
    NamesApart(ext, was, IdnsOf(body));
  }

  /** Hidden names begin with the sign and go on as they were; so names that were
      different stay different unless an exported one begins with the sign. */
  lemma NamesApart(ext: seq<Idn>, was: seq<Idn>, now: seq<Idn>)
    requires |was| == |now|
    requires forall j :: 0 <= j < |was| ==>
               if was[j] in ext then now[j] == was[j] else now[j].str == Hide(was[j].str)
    ensures forall j :: 0 <= j < |was| && was[j] !in ext ==> now[j].str.text == ['%'] + was[j].str.text
    ensures (forall i :: i in ext ==> i.str.text == "" || i.str.text[0] != '%') ==>
              forall j, k :: 0 <= j < |was| && 0 <= k < |was| && was[j].str != was[k].str ==>
                now[j].str != now[k].str
  {
    forall j, k | 0 <= j < |was| && 0 <= k < |was| && now[j].str == now[k].str
      ensures (forall i :: i in ext ==> i.str.text == "" || i.str.text[0] != '%') ==> was[j].str == was[k].str
    {
      var a, b := was[j].str.text, was[k].str.text;
      assert (['%'] + a)[1..] == a && (['%'] + b)[1..] == b;
    }
  }

  /** Reported is: an exported identifier that stood for something or is not
      defined, another one that is defined and stood for something, or any that
      is defined twice. */
  lemma FaultyIff(ext: seq<Idn>, idns: seq<Idn>, kind0: Kinds)
    requires (forall i :: i in ext ==> i in kind0) && (forall i :: i in idns ==> i in kind0)
    ensures Faulty(ext, idns, kind0) <==>
            || (exists i :: i in ext && !kind0[i].Unknown?)
            || (exists i :: i in ext && i !in idns)
            || (exists i :: i in idns && i !in ext && !kind0[i].Unknown?)
            || (exists j, k :: 0 <= j < k < |idns| && idns[j] == idns[k])
  {
    hide Defs;
    forall i: Idn ensures i in idns <==> Defs(i, idns) > 0 { DefsSome(i, idns); }
    forall j, k | 0 <= j < k < |idns| && idns[j] == idns[k] ensures Defs(idns[j], idns) > 1 {
      DefsTwice(idns[j], idns);
    }
    forall i: Idn | Defs(i, idns) > 1 ensures exists j, k :: 0 <= j < k < |idns| && idns[j] == idns[k] {
      DefsTwice(i, idns);
    }
  }

  lemma {:induction false} DefsTwice(i: Idn, idns: seq<Idn>)
    ensures Defs(i, idns) > 1 <==> exists j, k :: 0 <= j < k < |idns| && idns[j] == i && idns[k] == i
  {
    if idns != [] {
      var n := |idns| - 1;
      DefsTwice(i, idns[..n]);
      DefsSome(i, idns[..n]);
      if Defs(i, idns) > 1 && Defs(i, idns[..n]) <= 1 {
        var j :| 0 <= j < n && idns[..n][j] == i;
        assert idns[j] == i && idns[n] == i;
      }
      forall j, k | 0 <= j < k < |idns| && idns[j] == i && idns[k] == i ensures Defs(i, idns) > 1 {
        assert idns[..n][j] == i;
      }
    }
  }

  // ----- choosing some of a list, in order -----

  lemma SelectNext<T>(s: seq<T>, keep: seq<bool>, j: nat)
    requires |s| == |keep| && j < |s|
    ensures Select(s[..j + 1], keep[..j + 1]) == Select(s[..j], keep[..j]) + (if keep[j] then [s[j]] else [])
  {
    assert s[..j + 1][..j] == s[..j] && keep[..j + 1][..j] == keep[..j];
  }

  lemma {:induction false} SelectAgree<T>(s: seq<T>, t: seq<T>, keep: seq<bool>)
    requires |s| == |t| == |keep| && forall j :: 0 <= j < |s| && keep[j] ==> s[j] == t[j]
    ensures Select(s, keep) == Select(t, keep)
  {
    if s != [] { SelectAgree(s[..|s| - 1], t[..|s| - 1], keep[..|s| - 1]); }
  }

  /** Choosing less gives a shorter list. */
  lemma {:induction false} SelectLess<T>(s: seq<T>, some: seq<bool>, more: seq<bool>)
    requires |s| == |some| == |more| && forall j :: 0 <= j < |s| && some[j] ==> more[j]
    ensures |Select(s, some)| <= |Select(s, more)|
    ensures |Select(s, some)| == |Select(s, more)| ==> some == more
  {
    if s != [] {
      SelectLess(s[..|s| - 1], some[..|s| - 1], more[..|s| - 1]);
      assert some == some[..|s| - 1] + [some[|s| - 1]] && more == more[..|s| - 1] + [more[|s| - 1]];
    }
  }

  lemma ChosenNext(keep: seq<bool>, n: nat)
    requires |keep| == n + 1
    ensures |set j | 0 <= j < |keep| && keep[j]| ==
            |set j | 0 <= j < |keep[..n]| && keep[..n][j]| + (if keep[n] then 1 else 0)
  {
    var before := set j | 0 <= j < |keep[..n]| && keep[..n][j];
    assert (set j | 0 <= j < |keep| && keep[j]) == if keep[n] then before + {n} else before;
  }

  /** What is kept, and nothing else, is there in its order: each element behind
      what is kept of those before it. */
  lemma {:induction false} SelectIs<T>(s: seq<T>, keep: seq<bool>)
    requires |s| == |keep|
    ensures |Select(s, keep)| == |set j | 0 <= j < |keep| && keep[j]|
    ensures forall j :: 0 <= j < |s| && keep[j] ==>
              var at := |Select(s[..j], keep[..j])|; at < |Select(s, keep)| && Select(s, keep)[at] == s[j]
  {
    if s != [] {
      var n := |s| - 1;
      SelectIs(s[..n], keep[..n]);
      ChosenNext(keep, n);
      forall j | 0 <= j < |s| && keep[j]
        ensures var at := |Select(s[..j], keep[..j])|; at < |Select(s, keep)| && Select(s, keep)[at] == s[j]
      {
        if j < n { assert s[..n][..j] == s[..j] && keep[..n][..j] == keep[..j]; }
      }
    }
  }

  function Rebuilt<P, Q>(infos: seq<OpInfo<P>>, build: P -> Q): (r: seq<OpInfo<Q>>)
    ensures |r| == |infos| && forall j :: 0 <= j < |r| ==> r[j] == OpInfo(infos[j].name, build(infos[j].info))
  {
    seq(|infos|, j requires 0 <= j < |infos| => OpInfo(infos[j].name, build(infos[j].info)))
  }

  lemma {:induction false} SelectRebuilt<P, Q>(infos: seq<OpInfo<P>>, keep: seq<bool>, build: P -> Q)
    requires |infos| == |keep|
    ensures Rebuilt(Select(infos, keep), build) == Select(Rebuilt(infos, build), keep)
  {
    if infos != [] {
      var n := |infos| - 1;
      SelectRebuilt(infos[..n], keep[..n], build);
      assert Rebuilt(infos, build)[..n] == Rebuilt(infos[..n], build);
    }
  }

  // ----- c_type_specs, b_typeinfo, c_typedefn -----

  ghost function Names(idns: seq<Idn>): (r: seq<Name>)
    ensures |r| == |idns| && forall j :: 0 <= j < |r| ==> r[j] == idns[j].str
  {
    seq(|idns|, j requires 0 <= j < |idns| => idns[j].str)
  }

  ghost function Infos<P>(body: seq<OpDefn>, names: seq<Name>, specs: OpDefn -> P): (r: seq<OpInfo<P>>)
    requires |names| == |body|
    ensures |r| == |body| && forall j :: 0 <= j < |r| ==> r[j] == OpInfo(names[j], specs(body[j]))
  {
    seq(|body|, j requires 0 <= j < |body| => OpInfo(names[j], specs(body[j])))
  }

  ghost function Shown(names: seq<Name>): (r: seq<bool>)
    ensures |r| == |names| && forall j :: 0 <= j < |r| ==> r[j] == !IsHidden(names[j])
  {
    seq(|names|, j requires 0 <= j < |names| => !IsHidden(names[j]))
  }

  ghost function Not(k: seq<bool>): (r: seq<bool>)
    ensures |r| == |k| && forall j :: 0 <= j < |r| ==> r[j] == !k[j]
  {
    seq(|k|, j requires 0 <= j < |k| => !k[j])
  }

  /** The specified operations, those without the sign first, and how many
      those are. specs stands for the checking of one operation. */
  method TypeSpecs<P>(body: seq<OpDefn>, specs: OpDefn -> P) returns (opers: seq<OpInfo<P>>, extsize: nat)
    requires forall d :: d in body ==> d.idn.str.text != ""
    ensures var infos, shown := Infos(body, Names(IdnsOf(body)), specs), Shown(Names(IdnsOf(body)));
            opers == Select(infos, shown) + Select(infos, Not(shown)) && extsize == |Select(infos, shown)|
  {
    ghost var infos, shown := Infos(body, Names(IdnsOf(body)), specs), Shown(Names(IdnsOf(body)));
    var extinfo, intinfo := [], [];
    for j := 0 to |body|
      invariant extinfo == Select(infos[..j], shown[..j])
      invariant intinfo == Select(infos[..j], Not(shown)[..j])
    {
      SelectNext(infos, shown, j);
      SelectNext(infos, Not(shown), j);
      var inf := OpInfo(body[j].idn.str, specs(body[j]));
      if inf.name.text[0] == HIDDEN {
        intinfo := intinfo + [inf];
      } else {
        extinfo := extinfo + [inf];
      }
    }
    assert infos[..|body|] == infos && shown[..|body|] == shown && Not(shown)[..|body|] == Not(shown);
    return extinfo + intinfo, |extinfo|;
  }

  /** b_typeinfo: one rebuilt operation for each, in order. */
  method TypeInfo<P, Q>(infos: seq<OpInfo<P>>, build: P -> Q) returns (nopers: seq<OpInfo<Q>>)
    ensures nopers == Rebuilt(infos, build)
  {
    nopers := [];
    for j := 0 to |infos|
      invariant nopers == Rebuilt(infos[..j], build)
    {
      nopers := nopers + [OpInfo(infos[j].name, build(infos[j].info))];
    }
    assert infos[..|infos|] == infos;
  }

  ghost function Exported(idns: seq<Idn>, ext: seq<Idn>): (r: seq<bool>)
    ensures |r| == |idns| && forall j :: 0 <= j < |r| ==> r[j] == (idns[j] in ext)
  {
    seq(|idns|, j requires 0 <= j < |idns| => idns[j] in ext)
  }

  /** The definitions of exported identifiers, in order, under their own names. */
  ghost function Wanted<P, Q>(body: seq<OpDefn>, idns: seq<Idn>, ext: seq<Idn>, specs: OpDefn -> P, build: P -> Q)
    : seq<OpInfo<Q>>
    requires |idns| == |body|
  {
    Select(Rebuilt(Infos(body, Names(idns), specs), build), Exported(idns, ext))
  }

  /** Cutting the rebuilt list to the number of unhidden operations gives the
      exported definitions exactly when no exported name begins with the sign. */
  lemma PublishedIffUnsigned<P, Q>(body: seq<OpDefn>, idns: seq<Idn>, names: seq<Name>, ext: seq<Idn>,
                                   specs: OpDefn -> P, build: P -> Q)
    requires |idns| == |body| == |names|
    requires forall j :: 0 <= j < |idns| ==> names[j] == if idns[j] in ext then idns[j].str else Hide(idns[j].str)
    ensures var infos, shown := Infos(body, names, specs), Shown(names);
            var all := Rebuilt(Select(infos, shown) + Select(infos, Not(shown)), build);
            all[..|Select(infos, shown)|] == Wanted(body, idns, ext, specs, build)
            <==> forall i :: i in idns && i in ext ==> !IsHidden(i.str)
  {
    var infos, shown := Infos(body, names, specs), Shown(names);
    var all := Rebuilt(Select(infos, shown) + Select(infos, Not(shown)), build);
    assert all[..|Select(infos, shown)|] == Rebuilt(Select(infos, shown), build);
    SelectRebuilt(infos, shown, build);
    var mine, wanted := Rebuilt(infos, build), Rebuilt(Infos(body, Names(idns), specs), build);
    SelectAgree(mine, wanted, Exported(idns, ext));
    SelectLess(mine, shown, Exported(idns, ext));
    assert (forall i :: i in idns && i in ext ==> !IsHidden(i.str)) <==> shown == Exported(idns, ext) by {
      forall j | 0 <= j < |idns| ensures idns[j] in idns { }
    }
  }

  /** What lies between the two: the specified operations, rebuilt. */
  method SpecsAndInfo<P, Q>(body: seq<OpDefn>, ghost was: seq<Idn>, ghost ext: seq<Idn>, specs: OpDefn -> P,
                            build: P -> Q)
    returns (nopers: seq<OpInfo<Q>>, extsize: nat)
    requires |was| == |body| && forall d :: d in body ==> d.idn.str.text != ""
    requires forall j :: 0 <= j < |body| ==>
               body[j].idn.str == if was[j] in ext then was[j].str else Hide(was[j].str)
    ensures extsize <= |nopers|
    ensures nopers[..extsize] == Wanted(body, was, ext, specs, build)
            <==> forall i :: i in was && i in ext ==> !IsHidden(i.str)
  {
    hide Select, Wanted;
    var opers;
    opers, extsize := TypeSpecs(body, specs);
    nopers := TypeInfo(opers, build);
    PublishedIffUnsigned(body, was, Names(IdnsOf(body)), ext, specs, build);
  }

  /** c_typedefn, as far as the list of operations goes. All is done in a scope
      of its own, so in the end identifiers stand for what they stood for. */
  method TypeDefn<P, Q>(st: ScopeStack, ext: seq<Idn>, body: seq<OpDefn>, specs: OpDefn -> P, build: P -> Q)
    returns (bad: bool, published: seq<OpInfo<Q>>)
    requires forall j, k :: 0 <= j < k < |body| ==> body[j] != body[k]
    requires forall d :: d in body ==> d.idn.str.text != ""
    requires st.Valid()
    modifies st, Mentioned(ext, body)`kind, (set d | d in body)`idn
    ensures st.Valid() && st.idns == old(st.idns) && st.scopes == old(st.scopes)
    ensures forall i :: i in old(Mentioned(ext, body)) ==> i.kind == old(i.kind)
    ensures bad <==> Faulty(ext, old(IdnsOf(body)), old(KindsOf(Mentioned(ext, body))))
    ensures published == Wanted(body, old(IdnsOf(body)), ext, specs, build)
            <==> forall i :: i in old(IdnsOf(body)) && i in ext ==> i.str.text == "" || i.str.text[0] != '%'
  {
    hide Select, Wanted, Faulty, Hide, Mentioned, ScopeStack.Valid, ScopeStack.Restores;
    ghost var was, low, all := IdnsOf(body), |st.idns|, KindsOf(Mentioned(ext, body));
    st.BeginScope();
    st.RestoresNow(all);
    bad := SetupOpers(st, ext, body, low, all);
    Nonempty(ext, body, was);
    var nopers, extsize := SpecsAndInfo(body, was, ext, specs, build);
    st.EndRestoring(low, all);
    published := nopers[..extsize];
  }

  lemma Nonempty(ext: seq<Idn>, body: seq<OpDefn>, was: seq<Idn>)
    requires |was| == |body| && forall i :: i in was ==> i.str.text != ""
    requires forall j :: 0 <= j < |body| ==>
               body[j].idn.str == if was[j] in ext then was[j].str else Hide(was[j].str)
    ensures forall d :: d in body ==> d.idn.str.text != ""
  {
    forall d | d in body ensures d.idn.str.text != "" {
      var j :| 0 <= j < |body| && body[j] == d;
      assert was[j] in was;
    }
  }
}
