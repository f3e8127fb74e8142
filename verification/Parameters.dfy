/** Parameter declarations: flattened into one list of identifiers, and the
    list, its identifiers replaced by new ones, dealt out to them again. */
module Parameters {
  import opened Syntax
  import opened Shapes
  import opened Hashing
  import opened Placement
  import opened TypeEnv
  import opened CompilerEnv
  import opened Scopes

  /** A declaration of identifiers of one type. */
  class Decl {
    var idns: seq<Idn>
    const typ: Typespec

    constructor (i: seq<Idn>, t: Typespec)
      ensures idns == i && typ == t
    {
      idns, typ := i, t;
    }
  }

  function Flat<T>(lists: seq<seq<T>>): seq<T> {
    if lists == [] then [] else Flat(lists[..|lists| - 1]) + lists[|lists| - 1]
  }

  function Lists(decls: seq<Decl>): (r: seq<seq<Idn>>)
    reads decls
    ensures |r| == |decls| && forall j :: 0 <= j < |decls| ==> r[j] == decls[j].idns
  {
    seq(|decls|, j requires 0 <= j < |decls| reads decls => decls[j].idns)
  }

  lemma FlatSplit<T>(lists: seq<seq<T>>, j: nat)
    requires j < |lists|
    ensures Flat(lists[..j + 1]) == Flat(lists[..j]) + lists[j]
    ensures |Flat(lists[..j + 1])| <= |Flat(lists)|
    decreases |lists|
  {
    assert lists[..j + 1][..j] == lists[..j];
    if j + 1 < |lists| {
      FlatSplit(lists[..|lists| - 1], j);
      assert lists[..|lists| - 1][..j + 1] == lists[..j + 1];
    } else {
      assert lists[..j + 1] == lists;
    }
  }

  // ----- what an identifier stands for -----

  function EquatedType(i: Idn): set<Typespec>
    reads i
  {
    match i.kind
    case Equated(TypeX(t)) => {t}
    case _ => {}
  }

  /** The identifier an identifier is equated to, else itself. */
  function GetIdn(i: Idn): Idn
    reads i, EquatedType(i)
  {
    match i.kind
    case Equated(IdnX(j)) => j
    case Equated(TypeX(t)) => (match t.abs case IdnT(j) => j case _ => i)
    case _ => i
  }

  // ----- c_parameters -----

  method CParameters(decls: seq<Decl>) returns (nparms: seq<Idn>)
    ensures var flat := Flat(Lists(decls));
            |nparms| == |flat| && forall k :: 0 <= k < |flat| ==> nparms[k] == GetIdn(flat[k])
    ensures forall k :: 0 <= k < |nparms| ==>
              var i := Flat(Lists(decls))[k];
              nparms[k] ==
              if i.kind.Equated? && i.kind.x.IdnX? then i.kind.x.idn
              else if i.kind.Equated? && i.kind.x.TypeX? && i.kind.x.typ.abs.IdnT? then i.kind.x.typ.abs.idn
              else i
  {
    ghost var lists := Lists(decls);
    nparms := [];
    for j := 0 to |decls|
      invariant var flat := Flat(lists[..j]);
                |nparms| == |flat| && forall k :: 0 <= k < |flat| ==> nparms[k] == GetIdn(flat[k])
    {
      var d := decls[j];
      FlatSplit(lists, j);
      ghost var flat := Flat(lists[..j]);
      for m := 0 to |d.idns|
        invariant |nparms| == |flat| + m
        invariant forall k :: 0 <= k < |flat| + m ==> nparms[k] == GetIdn((flat + d.idns)[k])
      {
        nparms := nparms + [GetIdn(d.idns[m])];
      }
    }
    assert lists[..|lists|] == lists;
  }

  // ----- c_push_parms -----

  /** The canonical type of a type parameter. */
  method IdnType(env: CompilerEnv, i: Idn) returns (t: Typespec)
    requires env.Valid()
    modifies env`seed, env`nodes, env.types, env.dus`Contents, env.dus.buckets, env.lib
    ensures env.Valid() && t.abs == IdnT(i) && Live(env.View().id, t)
  {
    hide *;
    ghost var s := env.View();
    NoComps(s.id, i);
    env.SoundInv();
    InvCounts(s);
    var old_;
    t, old_ := env.GetType(IdnT(i));
    env.ViewIs();
    if old_ {
      FoundIdn(s, i, t);
    } else {
      NewIdn(s, i, t, t.abs);
    }
  }

  lemma NoComps(id: TypeIds, i: Idn)
    ensures LiveComps(id, IdnT(i))
  {
  }

  lemma FoundIdn(s: Env, i: Idn, t: Typespec)
    requires Inv(s) && |s.tab| == SIZE && TabKnown(s.id, s.tab) && Closed(s.abs, s.id)
    requires Comps<Du, Typespec>(IdnT(i)) <= s.id.Keys && Find(s, IdnT(i)) == Some(t)
    ensures Live(s.id, t) && t in s.abs && s.abs[t] == IdnT(i)
  {
    hide Inv, Bucket;
    FindSpec(s, IdnT(i));
  }

  lemma NewIdn(s: Env, i: Idn, t: Typespec, a: Typeabs)
    requires Resolves(s.dus, IdnT(i), a) && s.keep < s.next && 0 <= s.keep
    requires |s.tab| == SIZE && Comps<Du, Typespec>(IdnT(i)) <= s.id.Keys
    ensures a == IdnT(i) && Live(TypeEnv.Fixup(s, t, IdnT(i), a).id, t)
  {
  }

  /** The old identifier comes to stand for the new one, until the scope ends. */
  method PushParm(env: CompilerEnv, st: ScopeStack, parm: Idn, nparm: Idn, ghost low: nat, ghost kind: Kinds,
                  ghost new_: set<Idn>)
    requires env.Valid() && st.Valid() && st.Restores(low, kind, new_) && parm in kind
    modifies parm`kind, st`idns
    modifies env`seed, env`nodes, env.types, env.dus`Contents, env.dus.buckets, env.lib
    ensures env.Valid() && parm.kind.Equated?
    ensures old(nparm.kind).TParm? || old(nparm.kind).VParm? ==> GetIdn(parm) == nparm
    ensures if old(nparm.kind).TParm?
            then parm.kind.x.TypeX? && parm.kind.x.typ.abs == IdnT(nparm) && Live(env.View().id, parm.kind.x.typ)
            else parm.kind.x == if old(nparm.kind).VParm? then IdnX(nparm) else BadX
    ensures st.Valid() && st.Restores(low, kind, new_) && st.idns == old(st.idns) + [Saved(parm, old(parm.kind))]
  {
    hide *;
    st.RestoresFrom(low, kind, new_);
    st.Save(parm, low, kind, new_);
    LastSaved(st.idns, low, parm);
    match nparm.kind {
      case TParm(_) =>
        var t := IdnType(env, nparm);
        st.SetKind(parm, Equated(TypeX(t)), low, kind, new_);
        StandsForIdn(parm, nparm);
      case VParm(_) =>
        st.SetKind(parm, Equated(IdnX(nparm)), low, kind, new_);
        StandsForIdn(parm, nparm);
      case _ => st.SetKind(parm, Equated(BadX), low, kind, new_);
    }
  }

  lemma LastSaved(saved: seq<Saved>, low: nat, i: Idn)
    requires low < |saved| && saved[|saved| - 1].idn == i
    ensures i in IdnsIn(saved[low..])
  {
    assert saved[low..][|saved| - low - 1] == saved[|saved| - 1];
  }

  lemma StandsForIdn(i: Idn, j: Idn)
    requires i.kind == Equated(IdnX(j)) || (i.kind.Equated? && i.kind.x.TypeX? && i.kind.x.typ.abs == IdnT(j))
    ensures GetIdn(i) == j
  {
  }

  ghost function AllIdns(decls: seq<Decl>): set<Idn>
    reads decls
  {
    set d, i | d in decls && i in d.idns :: i
  }

  /** Identifiers declared once each, to be replaced by others that are type or
      constant parameters. */
  ghost predicate Proper(idns: seq<Idn>, nparms: seq<Idn>)
    reads nparms
  {
    && (forall j, k :: 0 <= j < k < |idns| ==> idns[j] != idns[k])
    && (forall i :: i in nparms ==> i !in idns && (i.kind.TParm? || i.kind.VParm?))
  }

  /** The end of the scope will give the old identifiers the kinds they had
      before, and make the new ones unknown. */
  ghost predicate Stacked(st: ScopeStack, low: nat, kind: Kinds, nparms: seq<Idn>)
    reads st, kind.Keys`kind
  {
    st.Valid() && st.Restores(low, kind, Elems(nparms)) && Elems(nparms) <= kind.Keys
  }

  /** Deal nparms out to the declarations again: every declaration keeps its
      number of identifiers, and flattening them now gives nparms back. */
  method PushParms(env: CompilerEnv, st: ScopeStack, decls: seq<Decl>, nparms: seq<Idn>, ghost low: nat,
                   ghost kind: Kinds)
    requires env.Valid() && |nparms| == |Flat(Lists(decls))|
    requires forall j, k :: 0 <= j < k < |decls| ==> decls[j] != decls[k]
    requires Stacked(st, low, kind, nparms) && AllIdns(decls) <= kind.Keys
    modifies Elems(decls)`idns, AllIdns(decls)`kind, st`idns
    modifies env`seed, env`nodes, env.types, env.dus`Contents, env.dus.buckets, env.lib
    ensures env.Valid() && Flat(Lists(decls)) == nparms
    ensures forall j :: 0 <= j < |decls| ==> |decls[j].idns| == |old(decls[j].idns)|
    ensures var flat := old(Flat(Lists(decls)));
            && (forall j, k :: 0 <= j < k < |flat| ==> flat[j] != flat[k])
            && (forall i :: i in nparms ==> i !in flat && (old(i.kind).TParm? || old(i.kind).VParm?)) ==>
              forall m :: 0 <= m < |nparms| ==> GetIdn(flat[m]) == nparms[m]
    ensures Stacked(st, low, kind, nparms) && old(st.idns) <= st.idns
  {
    hide *;
    ghost var was := Lists(decls);
    ghost var flat, proper := Flat(was), Proper(Flat(was), nparms);
    ProperIs(flat, nparms);
    NoneStand(flat, nparms);
    NoneDealt(was, nparms);
    forall k | 0 <= k < |decls| ensures Elems(decls[k].idns) <= AllIdns(decls) && decls[k] in Elems(decls) {
      IdnsOf(decls, k);
    }
    var n := 0;
    for j := 0 to |decls|
      invariant env.Valid() && DealtTo(was, Lists(decls), j, nparms, n) && 0 <= n <= |nparms|
      invariant proper ==> Proper(flat, nparms) && StandFor(flat, nparms, n)
      invariant Stacked(st, low, kind, nparms) && old(st.idns) <= st.idns
      invariant forall k :: j <= k < |decls| ==> decls[k].idns == old(decls[k].idns)
    {
      ghost var now := Lists(decls);
      Dealing(was, now, j, nparms, n);
      ListsAre(decls);
      PartOfFlat(was, now, j, nparms, n);
      var d := decls[j];
      DealTo(env, st, d, nparms, n, flat, low, kind);
      ListsNow(decls, now, j);
      n := n + |d.idns|;
    }
    Dealt(was, Lists(decls), nparms, n);
    if proper { AllStand(flat, nparms, n); }
  }

  lemma ProperIs(flat: seq<Idn>, nparms: seq<Idn>)
    ensures Proper(flat, nparms) <==>
            && (forall j, k :: 0 <= j < k < |flat| ==> flat[j] != flat[k])
            && (forall i :: i in nparms ==> i !in flat && (i.kind.TParm? || i.kind.VParm?))
  {
  }

  lemma AllStand(flat: seq<Idn>, nparms: seq<Idn>, n: int)
    requires StandFor(flat, nparms, n) && n == |nparms|
    ensures forall m :: 0 <= m < |nparms| ==> GetIdn(flat[m]) == nparms[m]
  {
  }

  /** The first j lists have got the first n identifiers, in order. */
  ghost predicate DealtTo(was: seq<seq<Idn>>, now: seq<seq<Idn>>, j: int, nparms: seq<Idn>, n: int) {
    && 0 <= j <= |was| == |now| && n == |Flat(was[..j])| <= |nparms| == |Flat(was)|
    && Flat(now[..j]) == nparms[..n]
    && (forall k :: 0 <= k < |was| ==> |now[k]| == |was[k]|)
  }

  lemma {:induction false} FlatPrefix(lists: seq<seq<Idn>>, j: nat)
    requires j <= |lists|
    ensures Flat(lists[..j]) <= Flat(lists)
    decreases |lists| - j
  {
    if j < |lists| {
      FlatSplit(lists, j);
      FlatPrefix(lists, j + 1);
    } else {
      assert lists[..j] == lists;
    }
  }

  /** In the flattened list the elements of each list stand together, behind
      those of the lists before it. */
  lemma {:induction false} FlatAt(lists: seq<seq<Idn>>, j: nat)
    requires j < |lists|
    ensures var at := |Flat(lists[..j])|;
            && at + |lists[j]| == |Flat(lists[..j + 1])| <= |Flat(lists)|
            && Flat(lists)[at..at + |lists[j]|] == lists[j]
  {
    FlatSplit(lists, j);
    FlatPrefix(lists, j + 1);
  }

  /** Where the identifiers of a declaration stand in the flattened list. */
  lemma {:induction false} PartOfFlat(was: seq<seq<Idn>>, now: seq<seq<Idn>>, j: int, nparms: seq<Idn>, n: int)
    requires DealtTo(was, now, j, nparms, n) && j < |was|
    ensures 0 <= n && n + |was[j]| <= |Flat(was)| && was[j] == Flat(was)[n..n + |was[j]|]
  {
    FlatSplit(was, j);
    FlatPrefix(was, j + 1);
  }

  lemma {:induction false} Dealing(was: seq<seq<Idn>>, now: seq<seq<Idn>>, j: int, nparms: seq<Idn>, n: int)
    requires DealtTo(was, now, j, nparms, n) && j < |was|
    ensures 0 <= n && n + |now[j]| <= |nparms| && |now[j]| == |was[j]|
    ensures DealtTo(was, now[j := nparms[n..n + |now[j]|]], j + 1, nparms, n + |now[j]|)
  {
    FlatSplit(was, j);
    var next := now[j := nparms[n..n + |now[j]|]];
    FlatSplit(next, j);
    assert next[..j] == now[..j];
  }

  lemma {:induction false} Dealt(was: seq<seq<Idn>>, now: seq<seq<Idn>>, nparms: seq<Idn>, n: int)
    requires DealtTo(was, now, |was|, nparms, n)
    ensures n == |nparms| && Flat(now) == nparms && forall k :: 0 <= k < |was| ==> |now[k]| == |was[k]|
  {
    assert was[..|was|] == was && now[..|was|] == now;
  }

  lemma {:induction false} IdnsOf(decls: seq<Decl>, j: nat)
    requires j < |decls|
    ensures Elems(decls[j].idns) <= AllIdns(decls) && decls[j] in Elems(decls)
  {
  }

  lemma {:induction false} ListsAre(decls: seq<Decl>)
    ensures |Lists(decls)| == |decls| && forall k :: 0 <= k < |decls| ==> Lists(decls)[k] == decls[k].idns
  {
  }

  lemma {:induction false} ListsNow(decls: seq<Decl>, was: seq<seq<Idn>>, j: nat)
    requires j < |decls| == |was| && forall k :: 0 <= k < |decls| && k != j ==> decls[k].idns == was[k]
    ensures Lists(decls) == was[j := decls[j].idns]
  {
  }

  lemma {:induction false} NoneDealt(was: seq<seq<Idn>>, nparms: seq<Idn>)
    requires |nparms| == |Flat(was)|
    ensures DealtTo(was, was, 0, nparms, 0)
  {
  }

  /** One identifier: push_parm, and scopify of the new one. */
  method DealOne(env: CompilerEnv, st: ScopeStack, i: Idn, nparm: Idn, ghost low: nat, ghost kind: Kinds,
                 ghost nparms: seq<Idn>)
    requires env.Valid() && Stacked(st, low, kind, nparms) && i in kind && nparm in nparms
    modifies i`kind, st`idns
    modifies env`seed, env`nodes, env.types, env.dus`Contents, env.dus.buckets, env.lib
    ensures env.Valid() && i.kind.Equated?
    ensures old(nparm.kind).TParm? || old(nparm.kind).VParm? ==> GetIdn(i) == nparm
    ensures Stacked(st, low, kind, nparms)
    ensures st.idns == old(st.idns) + [Saved(i, old(i.kind)), Saved(nparm, Unknown)]
  {
    hide CompilerEnv.Valid, ScopeStack.Restores, ScopeStack.Valid;
    PushParm(env, st, i, nparm, low, kind, Elems(nparms));
    assert Elems(nparms) + {nparm} == Elems(nparms);
    st.Scopify(nparm, low, kind, Elems(nparms));
  }

  /** The inner loop: identifiers n, n + 1, ... of nparms for one declaration. */
  method Deal(env: CompilerEnv, st: ScopeStack, idns: seq<Idn>, nparms: seq<Idn>, n: nat, ghost low: nat,
              ghost kind: Kinds)
    returns (nidns: seq<Idn>)
    requires env.Valid() && n + |idns| <= |nparms|
    requires Stacked(st, low, kind, nparms) && Elems(idns) <= kind.Keys
    modifies Elems(idns)`kind, st`idns
    modifies env`seed, env`nodes, env.types, env.dus`Contents, env.dus.buckets, env.lib
    ensures env.Valid() && nidns == nparms[n..n + |idns|]
    ensures forall i :: i in idns ==> i.kind.Equated?
    ensures old(Proper(idns, nparms)) ==> forall m :: 0 <= m < |idns| ==> GetIdn(idns[m]) == nparms[n + m]
    ensures Stacked(st, low, kind, nparms) && old(st.idns) <= st.idns
  {
    hide CompilerEnv.Valid, Stacked;
    ghost var proper := Proper(idns, nparms);
    nidns := [];
    for m := 0 to |idns|
      invariant env.Valid() && nidns == nparms[n..n + m]
      invariant forall k :: 0 <= k < m ==> idns[k].kind.Equated?
      invariant proper ==> Proper(idns, nparms) && forall k :: 0 <= k < m ==> GetIdn(idns[k]) == nparms[n + k]
      invariant Stacked(st, low, kind, nparms) && old(st.idns) <= st.idns
    {
      DealOne(env, st, idns[m], nparms[n + m], low, kind, nparms);
      nidns := nidns + [nparms[n + m]];
    }
  }

  /** The first n old identifiers stand for the new ones. */
  ghost predicate StandFor(flat: seq<Idn>, nparms: seq<Idn>, n: int)
    reads flat, set i, t | i in flat && t in EquatedType(i) :: t
  {
    0 <= n <= |flat| == |nparms| && forall m :: 0 <= m < n ==> GetIdn(flat[m]) == nparms[m]
  }

  lemma NoneStand(flat: seq<Idn>, nparms: seq<Idn>)
    requires |flat| == |nparms|
    ensures StandFor(flat, nparms, 0)
  {
  }

  /** The inner loop, seen from the whole flattened list. */
  method DealOf(env: CompilerEnv, st: ScopeStack, idns: seq<Idn>, nparms: seq<Idn>, n: nat, ghost flat: seq<Idn>,
                ghost low: nat, ghost kind: Kinds)
    returns (nidns: seq<Idn>)
    requires Stacked(st, low, kind, nparms) && Elems(idns) <= kind.Keys
    requires env.Valid() && n + |idns| <= |nparms| == |flat| && idns == flat[n..n + |idns|]
    modifies Elems(idns)`kind, st`idns
    ensures Stacked(st, low, kind, nparms) && old(st.idns) <= st.idns
    modifies env`seed, env`nodes, env.types, env.dus`Contents, env.dus.buckets, env.lib
    ensures env.Valid() && nidns == nparms[n..n + |idns|]
    ensures old(Proper(flat, nparms)) ==> Proper(flat, nparms)
    ensures old(Proper(flat, nparms)) && old(StandFor(flat, nparms, n)) ==> StandFor(flat, nparms, n + |idns|)
  {
    hide CompilerEnv.Valid, Stacked;
    nidns := Deal(env, st, idns, nparms, n, low, kind);
    assert forall m :: n <= m < n + |idns| ==> flat[m] == idns[m - n];
  }

  /** The outer loop's turn for one declaration. */
  method DealTo(env: CompilerEnv, st: ScopeStack, d: Decl, nparms: seq<Idn>, n: nat, ghost flat: seq<Idn>,
                ghost low: nat, ghost kind: Kinds)
    requires Stacked(st, low, kind, nparms) && Elems(d.idns) <= kind.Keys
    requires env.Valid() && n + |d.idns| <= |nparms| == |flat| && d.idns == flat[n..n + |d.idns|]
    modifies d`idns, Elems(d.idns)`kind, st`idns
    ensures Stacked(st, low, kind, nparms) && old(st.idns) <= st.idns
    modifies env`seed, env`nodes, env.types, env.dus`Contents, env.dus.buckets, env.lib
    ensures env.Valid() && d.idns == nparms[n..n + |old(d.idns)|]
    ensures old(Proper(flat, nparms)) ==> Proper(flat, nparms)
    ensures old(Proper(flat, nparms)) && old(StandFor(flat, nparms, n)) ==> StandFor(flat, nparms, n + |d.idns|)
  {
    hide CompilerEnv.Valid;
    var nidns := DealOf(env, st, d.idns, nparms, n, flat, low, kind);
    d.idns := nidns;
  }
}
