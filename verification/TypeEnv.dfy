/** The types half of the compiler environment as a value: every type object
    with its description and id, the chains of the types table, and the table
    of definition units. Each operation is a function on such values, and one
    invariant is kept by all of them. */
module TypeEnv {
  import opened Syntax
  import opened Shapes
  import opened Hashing
  import opened Placement

  type TypeIds = Ids<Typespec>
  type AbsMap = map<Typespec, Typeabs>
  type DuTab = map<Name, DuEntry>
  type TypeTab = seq<seq<Typespec>>

  datatype DuEntry = DuEntry(du: Du, flush: bool)

  datatype Env = Env(
    hash: StringHash,
    abs: AbsMap,
    id: TypeIds,
    tab: TypeTab,
    dus: DuTab,
    next: int,
    keep: int)

  /** Every component of a known type object is known. */
  ghost predicate Closed(abs: AbsMap, id: TypeIds) {
    && abs.Keys == id.Keys
    && forall t :: t in abs ==> Comps(abs[t]) <= id.Keys
  }

  /** A description whose component types are all live. */
  ghost predicate LiveComps(id: TypeIds, a: Typeabs) {
    forall u :: u in Comps(a) ==> Live(id, u)
  }

  /** What similarity sees of a description while the ids are these. */
  ghost function DescOf(id: TypeIds, a: Typeabs): Desc
    requires Comps(a) <= id.Keys
  {
    MapAbs(a, id)
  }

  ghost function Bucket(h: StringHash, id: TypeIds, a: Typeabs): (b: int)
    requires Comps(a) <= id.Keys
    ensures 0 <= b < SIZE
  {
    HashDescRange(h, DescOf(id, a), SIZE);
    HashDesc(h, DescOf(id, a), SIZE)
  }

  ghost function Uses(abs: AbsMap): map<Typespec, set<Typespec>> {
    map t | t in abs :: Comps(abs[t])
  }

  ghost function Descs(abs: AbsMap, id: TypeIds): map<Typespec, Desc>
    requires Closed(abs, id)
  {
    map t | t in abs :: DescOf(id, abs[t])
  }

  ghost function Places(h: StringHash, abs: AbsMap, id: TypeIds): map<Typespec, int>
    requires Closed(abs, id)
  {
    map t | t in abs :: Bucket(h, id, abs[t])
  }

  // ----- the invariant -----

  /** A unit is the table's own for its name, and what is to be kept uses only
      units that are to be kept. */
  ghost predicate GenOk(g: Du, id: int, dus: DuTab, keep: int) {
    g.unique in dus && dus[g.unique].du == g && (id <= keep ==> !dus[g.unique].flush)
  }

  ghost predicate SharedGens(abs: AbsMap, id: TypeIds, dus: DuTab, keep: int)
    requires abs.Keys == id.Keys
  {
    && (forall n :: n in dus ==> dus[n].du.unique == n)
    && (forall t :: Live(id, t) && abs[t].HasGen() ==> GenOk(abs[t].Gen(), id[t], dus, keep))
  }

  /** Live types have distinct ids below next, components have smaller nonzero
      ids than the types built from them, every live type is once in the chain
      its current hash names and nothing else is in any chain, no two live
      types are similar, and generators are shared through the unit table. */
  ghost predicate Inv(s: Env) {
    && Closed(s.abs, s.id)
    && |s.tab| == SIZE
    && Good(s.id, Uses(s.abs), Descs(s.abs, s.id), Places(s.hash, s.abs, s.id), s.tab, s.next, s.keep)
    && SharedGens(s.abs, s.id, s.dus, s.keep)
  }

  // ----- looking up -----

  /** The first type of a chain whose description is similar to a. */
  ghost function FindIn(abs: AbsMap, id: TypeIds, chain: seq<Typespec>, a: Typeabs): Option<Typespec>
    requires Closed(abs, id) && (forall t :: t in chain ==> t in id) && Comps(a) <= id.Keys
  {
    if chain == [] then None
    else if DescOf(id, abs[chain[0]]) == DescOf(id, a) then Some(chain[0])
    else FindIn(abs, id, chain[1..], a)
  }

  ghost function Find(s: Env, a: Typeabs): Option<Typespec>
    requires Closed(s.abs, s.id) && TabKnown(s.id, s.tab) && |s.tab| == SIZE && Comps(a) <= s.id.Keys
  {
    FindIn(s.abs, s.id, s.tab[Bucket(s.hash, s.id, a)], a)
  }

  lemma {:induction false} FindInSpec(abs: AbsMap, id: TypeIds, chain: seq<Typespec>, a: Typeabs)
    requires Closed(abs, id) && (forall t :: t in chain ==> t in id) && Comps(a) <= id.Keys
    ensures var r := FindIn(abs, id, chain, a);
            if r.Some? then r.value in chain && DescOf(id, abs[r.value]) == DescOf(id, a)
            else forall t :: t in chain ==> DescOf(id, abs[t]) != DescOf(id, a)
  {
    hide DescOf;
    if chain != [] {
      FindInSpec(abs, id, chain[1..], a);
      assert forall t :: t in chain ==> t == chain[0] || t in chain[1..];
    }
  }

  lemma TabIsKnown(s: Env)
    requires Inv(s)
    ensures TabKnown(s.id, s.tab)
  {
  }

  /** Probing one bucket decides the whole table. */
  lemma FindSpec(s: Env, a: Typeabs)
    requires Inv(s) && Comps(a) <= s.id.Keys
    ensures TabKnown(s.id, s.tab)
    ensures var r := Find(s, a);
            if r.Some? then Live(s.id, r.value) && DescOf(s.id, s.abs[r.value]) == DescOf(s.id, a)
            else forall t :: Live(s.id, t) ==> DescOf(s.id, s.abs[t]) != DescOf(s.id, a)
  {
    hide HashDesc, MapAbs, Comps;
    TabIsKnown(s);
    var b := Bucket(s.hash, s.id, a);
    var p := Places(s.hash, s.abs, s.id);
    assert ChainOk(s.id, p, s.tab[b], b);
    FindInSpec(s.abs, s.id, s.tab[b], a);
    forall t | Live(s.id, t) && DescOf(s.id, s.abs[t]) == DescOf(s.id, a) ensures t in s.tab[b] {
      assert p[t] == b;
    }
  }

  /** A type has a nonzero id exactly when the table maps its description to it. */
  lemma LiveIffFound(s: Env, t: Typespec)
    requires Inv(s) && t in s.abs
    ensures TabKnown(s.id, s.tab)
    ensures Live(s.id, t) <==> Find(s, s.abs[t]) == Some(t)
  {
    hide DescOf, Bucket, Comps;
    FindSpec(s, s.abs[t]);
    var d := Descs(s.abs, s.id);
    if Live(s.id, t) {
      var r := Find(s, s.abs[t]);
      assert r.Some? && d[r.value] == d[t];
    }
  }

  // ----- the operations -----

  ghost function Empty(h: StringHash): Env {
    Env(h, map[], map[], seq(SIZE, _ => []), map[], 1, 0)
  }

  /** add_du: d stands for the unit the table or the library gives for its name. */
  ghost function AddDu(s: Env, d: Du): Env {
    if d.unique in s.dus then s else s.(dus := s.dus[d.unique := DuEntry(d, true)])
  }

  ghost predicate DuFor(dus: DuTab, mod: Du, d: Du) {
    d.unique == mod.unique && (mod.unique in dus ==> d == dus[mod.unique].du)
  }

  /** a' is a with its generator replaced by the table's or the library's own. */
  ghost predicate Resolves(dus: DuTab, a: Typeabs, a': Typeabs) {
    if a.HasGen() then a'.HasGen() && a' == a.WithGen(a'.Gen()) && DuFor(dus, a.Gen(), a'.Gen())
    else a' == a
  }

  /** fixup: number t, bind it at the head of the bucket of its description a,
      and replace its generator, which makes the description a'. */
  ghost function Fixup(s: Env, t: Typespec, a: Typeabs, a': Typeabs): Env
    requires Comps(a) <= s.id.Keys && |s.tab| == SIZE
  {
    var b := Bucket(s.hash, s.id, a);
    Env(s.hash, s.abs[t := a'], s.id[t := s.next], s.tab[b := [t] + s.tab[b]],
        if a'.HasGen() then AddDu(s, a'.Gen()).dus else s.dus, s.next + 1, s.keep)
  }

  /** get_type: t is the new type object, used when nothing similar is found. */
  ghost function GetType(s: Env, t: Typespec, a: Typeabs, a': Typeabs): Env
    requires Inv(s) && Comps(a) <= s.id.Keys
  {
    TabIsKnown(s);
    if Find(s, a).Some? then s else Fixup(s, t, a, a')
  }

  /** A type object made outside, with id 0. */
  ghost function Adopt(s: Env, t: Typespec, a: Typeabs): Env {
    s.(abs := s.abs[t := a], id := s.id[t := 0])
  }

  ghost function Keep(s: Env): Env {
    s.(dus := map n | n in s.dus :: s.dus[n].(flush := false), keep := s.next - 1)
  }

  ghost function Reset1(s: Env): Env
    requires TabKnown(s.id, s.tab)
  {
    s.(id := FlushIds(s.id, s.keep), tab := FlushTab(s.id, s.tab, s.keep), next := s.keep + 1)
  }

  ghost function Reset(s: Env): Env
    requires TabKnown(s.id, s.tab)
  {
    Reset1(s).(dus := map n | n in s.dus && !s.dus[n].flush :: s.dus[n])
  }

  ghost predicate Sized(s: Env) {
    Closed(s.abs, s.id) && |s.tab| == SIZE && TabKnown(s.id, s.tab)
  }

  /** One turn of reset_types: zero the id first, then delete by probing. */
  ghost function ResetOne(s: Env, t: Typespec): Env
    requires Sized(s) && t in s.id
  {
    if s.id[t] <= s.keep then s
    else
      var id' := s.id[t := 0];
      assert id'.Keys == s.id.Keys;
      var desc, b := Descs(s.abs, id'), Places(s.hash, s.abs, id')[t];
      s.(id := id', tab := s.tab[b := Without<Typespec, Desc>(s.tab[b], desc, desc[t])])
  }

  lemma ResetOneSized(s: Env, t: Typespec)
    requires Sized(s) && t in s.id
    ensures Sized(ResetOne(s, t)) && ResetOne(s, t).id.Keys == s.id.Keys
  {
    hide DescOf, Bucket, Comps;
    if s.id[t] > s.keep {
      var id' := s.id[t := 0];
      assert id'.Keys == s.id.Keys;
      var desc, b := Descs(s.abs, id'), Places(s.hash, s.abs, id')[t];
      WithoutKnown<Typespec, Desc>(id', s.tab, desc, b, desc[t]);
    }
  }

  ghost function ResetTypes(s: Env, list: seq<Typespec>): (r: Env)
    requires Sized(s) && forall t :: t in list ==> t in s.id
    ensures Sized(r) && r.id.Keys == s.id.Keys
    decreases |list|
  {
    if list == [] then s
    else
      ResetOneSized(s, list[0]);
      ResetTypes(ResetOne(s, list[0]), list[1..])
  }

  // ----- facts the proofs share -----

  lemma SameDesc(h: StringHash, id: TypeIds, id': TypeIds, a: Typeabs)
    requires Comps(a) <= id.Keys && Comps(a) <= id'.Keys
    requires forall u :: u in Comps(a) ==> id[u] == id'[u]
    ensures DescOf(id, a) == DescOf(id', a) && Bucket(h, id, a) == Bucket(h, id', a)
  {
    MapAgree(a, id, id');
  }

  /** While ids are distinct, descriptions of live components are similar just
      when they are the same description, component objects included, but for
      the unit object of their generator: comparing ids is comparing references. */
  lemma SimilarIffSameRefs(id: TypeIds, next: int, keep: int, a: Typeabs, b: Typeabs)
    requires DistinctIds(id, next, keep) && LiveComps(id, a) && LiveComps(id, b)
    ensures Comps(a) + Comps(b) <= id.Keys
    ensures DescOf(id, a) == DescOf(id, b) <==>
            if a.HasGen() then b.HasGen() && a.Gen().unique == b.Gen().unique && a.WithGen(b.Gen()) == b
            else a == b
  {
    hide MapAbs, Comps, Abs.HasGen, Abs.Gen, Abs.WithGen;
    ImageTellsApart(a, b);
    var c := Comps(a) + Comps(b);
    assert forall u :: u in c ==> Live(id, u);
    var i := Itself(c);
    MapAgree(a, Itself(Comps(a)), i);
    MapAgree(b, Itself(Comps(b)), i);
    if DescOf(id, a) == DescOf(id, b) { MapFactor(a, b, id, i); }
    if MapAbs(a, i) == MapAbs(b, i) { MapFactor(a, b, i, id); }
  }

  /** Asked with a description of live components, the table answers the live
      type that has this very description, with its own unit for the generator. */
  lemma FindExact(s: Env, a: Typeabs, t: Typespec)
    requires Inv(s) && LiveComps(s.id, a)
    ensures Comps(a) <= s.id.Keys && TabKnown(s.id, s.tab) && s.abs.Keys == s.id.Keys
    ensures Find(s, a) == Some(t) <==>
            && Live(s.id, t)
            && if a.HasGen()
               then a.Gen().unique in s.dus && s.abs[t] == a.WithGen(s.dus[a.Gen().unique].du)
               else s.abs[t] == a
  {
    hide DescOf, Bucket, Comps, Find, Placed, Grounded, DistinctIds, SharedGens, LiveComps, Abs.HasGen, Abs.Gen,
      Abs.WithGen;
    InvCounts(s);
    LiveCompsKnown(s.id, a);
    FindSpec(s, a);
    if Live(s.id, t) {
      LikeExact(s, a, t);
      var d, r := Descs(s.abs, s.id), Find(s, a);
      if r.Some? { assert d[r.value] == DescOf(s.id, a); }
    }
  }

  lemma LiveCompsKnown(id: TypeIds, a: Typeabs)
    requires LiveComps(id, a)
    ensures Comps(a) <= id.Keys
  {
  }

  /** A live type reads like a just when it has the description a. */
  lemma LikeExact(s: Env, a: Typeabs, t: Typespec)
    requires Inv(s) && LiveComps(s.id, a) && Live(s.id, t)
    ensures Comps(a) <= s.id.Keys && t in s.abs && Comps(s.abs[t]) <= s.id.Keys
    ensures DescOf(s.id, a) == DescOf(s.id, s.abs[t]) <==>
            if a.HasGen() then a.Gen().unique in s.dus && s.abs[t] == a.WithGen(s.dus[a.Gen().unique].du)
            else s.abs[t] == a
  {
    hide DescOf, Bucket, Comps, Placed, Grounded, Canonical;
    LiveHasLiveComps(s, t);
    SimilarIffSameRefs(s.id, s.next, s.keep, a, s.abs[t]);
    assert s.abs[t].HasGen() ==> GenOk(s.abs[t].Gen(), s.id[t], s.dus, s.keep);
  }

  lemma LiveHasLiveComps(s: Env, t: Typespec)
    requires Inv(s) && Live(s.id, t)
    ensures t in s.abs && LiveComps(s.id, s.abs[t])
  {
    hide DescOf, Bucket, Comps, Placed, Canonical, SharedGens;
    forall u | u in Comps(s.abs[t]) ensures Live(s.id, u) { assert u in Uses(s.abs)[t]; }
  }

  lemma InvCounts(s: Env)
    requires Inv(s)
    ensures s.abs.Keys == s.id.Keys && 0 <= s.keep < s.next
  {
  }

  // ----- every operation keeps the invariant -----

  lemma EmptyInv(h: StringHash)
    ensures Inv(Empty(h))
  {
  }

  lemma AddDuGens(abs: AbsMap, id: TypeIds, dus: DuTab, keep: int, d: Du)
    requires abs.Keys == id.Keys && SharedGens(abs, id, dus, keep) && d.unique !in dus
    ensures SharedGens(abs, id, dus[d.unique := DuEntry(d, true)], keep)
  {
  }

  lemma AddDuInv(s: Env, d: Du)
    requires Inv(s)
    ensures Inv(AddDu(s, d)) && AddDu(s, d) == s.(dus := AddDu(s, d).dus)
    ensures AddDu(s, d).dus.Keys == s.dus.Keys + {d.unique}
    ensures forall n :: n in s.dus ==> AddDu(s, d).dus[n] == s.dus[n]
    ensures d.unique !in s.dus ==> AddDu(s, d).dus[d.unique] == DuEntry(d, true)
  {
    hide Closed, Good, SharedGens;
    if d.unique !in s.dus {
      assert s.abs.Keys == s.id.Keys by { ClosedKeys(s.abs, s.id); }
      AddDuGens(s.abs, s.id, s.dus, s.keep, d);
    }
  }

  lemma ClosedKeys(abs: AbsMap, id: TypeIds)
    requires Closed(abs, id)
    ensures abs.Keys == id.Keys
  {
  }

  lemma FixupGens(s: Env, t: Typespec, a: Typeabs, a': Typeabs)
    requires Closed(s.abs, s.id) && SharedGens(s.abs, s.id, s.dus, s.keep)
    requires Comps(a) <= s.id.Keys && |s.tab| == SIZE && t !in s.id && s.keep < s.next
    requires Resolves(s.dus, a, a')
    ensures var s' := Fixup(s, t, a, a');
            s'.abs.Keys == s'.id.Keys && SharedGens(s'.abs, s'.id, s'.dus, s'.keep)
  {
    hide Bucket, Comps;
    var s' := Fixup(s, t, a, a');
    forall u | Live(s'.id, u) && s'.abs[u].HasGen() ensures GenOk(s'.abs[u].Gen(), s'.id[u], s'.dus, s'.keep) {
      if u != t {
        assert Live(s.id, u);
        assert GenOk(s.abs[u].Gen(), s.id[u], s.dus, s.keep);
      }
    }
  }

  /** What survives a flush, or keeps its id, keeps its unit. */
  lemma FlushGens(abs: AbsMap, id: TypeIds, dus: DuTab, keep: int, id': TypeIds, dus': DuTab)
    requires abs.Keys == id.Keys == id'.Keys && SharedGens(abs, id, dus, keep)
    requires forall t :: Live(id', t) ==> id[t] == id'[t]
    requires forall n :: n in dus' ==> n in dus && dus'[n] == dus[n]
    requires dus' == dus || forall t :: Live(id', t) ==> id'[t] <= keep
    requires forall n :: n in dus && !dus[n].flush ==> n in dus'
    ensures SharedGens(abs, id', dus', keep)
  {
  }

  /** Numbering a new object changes no description of the old ones. */
  lemma NewIdKeepsDescs(h: StringHash, abs: AbsMap, id: TypeIds, t: Typespec, n: int)
    requires Closed(abs, id) && t !in id
    ensures forall u :: u in id ==>
              DescOf(id[t := n], abs[u]) == DescOf(id, abs[u]) &&
              Bucket(h, id[t := n], abs[u]) == Bucket(h, id, abs[u])
  {
    hide DescOf, Bucket, Comps;
    forall u | u in id
      ensures DescOf(id[t := n], abs[u]) == DescOf(id, abs[u])
      ensures Bucket(h, id[t := n], abs[u]) == Bucket(h, id, abs[u])
    {
      SameDesc(h, id, id[t := n], abs[u]);
    }
  }

  lemma ResolvedSame(h: StringHash, id: TypeIds, dus: DuTab, a: Typeabs, a': Typeabs)
    requires Resolves(dus, a, a') && Comps(a) <= id.Keys
    ensures Comps(a') == Comps(a) && DescOf(id, a') == DescOf(id, a) && Bucket(h, id, a') == Bucket(h, id, a)
  {
  }

  lemma FixupMaps(s: Env, t: Typespec, a: Typeabs, a': Typeabs)
    requires Closed(s.abs, s.id) && |s.tab| == SIZE && Comps(a) <= s.id.Keys && t !in s.id
    requires Resolves(s.dus, a, a')
    ensures var s' := Fixup(s, t, a, a');
            && Closed(s'.abs, s'.id)
            && Comps(s'.abs[t]) == Comps(a)
            && DescOf(s'.id, a) == DescOf(s.id, a)
            && Uses(s'.abs) == Uses(s.abs)[t := Comps(a)]
            && Descs(s'.abs, s'.id) == Descs(s.abs, s.id)[t := DescOf(s.id, a)]
            && Places(s'.hash, s'.abs, s'.id) == Places(s.hash, s.abs, s.id)[t := Bucket(s.hash, s.id, a)]
  {
    hide DescOf, Bucket, Comps, AddDu, Resolves;
    var s' := Fixup(s, t, a, a');
    ResolvedSame(s.hash, s'.id, s.dus, a, a');
    SameDesc(s.hash, s.id, s'.id, a);
    NewIdKeepsDescs(s.hash, s.abs, s.id, t, s.next);
    assert Closed(s'.abs, s'.id);
    assert Uses(s'.abs) == Uses(s.abs)[t := Comps(a)];
    assert Descs(s'.abs, s'.id) == Descs(s.abs, s.id)[t := DescOf(s.id, a)];
    assert Places(s'.hash, s'.abs, s'.id) == Places(s.hash, s.abs, s.id)[t := Bucket(s.hash, s.id, a)];
  }

  /** A new type object whose description has live components and is not yet
      in the table. */
  ghost predicate Fits(s: Env, t: Typespec, a: Typeabs) {
    && Inv(s) && t !in s.id && LiveComps(s.id, a)
    && Comps(a) <= s.id.Keys
    && forall u :: Live(s.id, u) ==> DescOf(s.id, s.abs[u]) != DescOf(s.id, a)
  }

  /** Binding a type under a hash that reads ids of other types, and rewriting
      its generator after it is bound, keeps every entry findable. */
  lemma FixupInv(s: Env, t: Typespec, a: Typeabs, a': Typeabs)
    requires Fits(s, t, a) && Resolves(s.dus, a, a')
    ensures Inv(Fixup(s, t, a, a')) && Live(Fixup(s, t, a, a').id, t)
  {
    hide DescOf, Bucket, Comps, Grounded, Placed, Canonical, SharedGens, AddDu, Resolves;
    var s' := Fixup(s, t, a, a');
    assert Comps(a) <= s.id.Keys && s.keep < s.next && s.next > 0;
    forall u | u in s.id && Live(s.id, u)
      ensures Descs(s.abs, s.id)[u] != DescOf(s.id, a)
    {
    }
    FixupMaps(s, t, a, a');
    hide Closed, Uses, Descs, Places, LiveComps;
    AddGood(s.id, Uses(s.abs), Descs(s.abs, s.id), Places(s.hash, s.abs, s.id), s.tab, s.next, s.keep,
            t, Comps(a), DescOf(s.id, a), Bucket(s.hash, s.id, a));
    FixupGens(s, t, a, a');
  }

  /** get_type answers with the one live type of that description, old or new,
      and asking again finds it. */
  lemma GetTypeInv(s: Env, t: Typespec, a: Typeabs, a': Typeabs)
    requires Inv(s) && LiveComps(s.id, a) && t !in s.id
    requires Resolves(s.dus, a, a')
    ensures Comps(a) <= s.id.Keys && TabKnown(s.id, s.tab)
    ensures var s' := GetType(s, t, a, a');
            && Inv(s') && Comps(a) <= s'.id.Keys && TabKnown(s'.id, s'.tab)
            && Find(s', a) == Some(if Find(s, a).Some? then Find(s, a).value else t)
  {
    hide DescOf, Bucket, Comps, Grounded, Placed;
    assert Comps(a) <= s.id.Keys;
    FindSpec(s, a);
    if Find(s, a).None? {
      FixupInv(s, t, a, a');
      FixupMaps(s, t, a, a');
      var s' := Fixup(s, t, a, a');
      FindSpec(s', a);
      assert Descs(s'.abs, s'.id)[t] == DescOf(s'.id, a);
    }
  }

  /** An old type is answered as it is; a new one has the next id, and no other
      type is touched. */
  lemma GetTypeLeaves(s: Env, t: Typespec, a: Typeabs, a': Typeabs)
    requires Inv(s) && LiveComps(s.id, a) && t !in s.id
    ensures Sized(s) && Comps(a) <= s.id.Keys
    ensures var s' := GetType(s, t, a, a');
            if Find(s, a).Some? then s' == s
            else
              && s'.id == s.id[t := s.next] && s'.next == s.next + 1 && s'.keep == s.keep && s'.hash == s.hash
              && s'.abs.Keys == s.abs.Keys + {t} && forall u :: u in s.abs ==> s'.abs[u] == s.abs[u]
  {
    hide DescOf, Bucket, Comps, Inv, LiveComps, Find, Sized, Closed, TabKnown;
    LiveCompsKnown(s.id, a);
    InvSized(s);
    InvCounts(s);
  }

  /** The answer has the very description that was asked for, with the table's
      own unit for its generator. */
  lemma GetTypeAnswers(s: Env, t: Typespec, a: Typeabs, a': Typeabs)
    requires Inv(s) && LiveComps(s.id, a) && t !in s.id
    requires Resolves(s.dus, a, a')
    ensures Sized(s) && Comps(a) <= s.id.Keys
    ensures var s' := GetType(s, t, a, a');
            var r := if Find(s, a).Some? then Find(s, a).value else t;
            && Live(s'.id, r) && r in s'.abs
            && (if a.HasGen()
                then a.Gen().unique in s'.dus && s'.abs[r] == a.WithGen(s'.dus[a.Gen().unique].du)
                else s'.abs[r] == a)
  {
    hide DescOf, Bucket, Comps, Inv, LiveComps, Find, Resolves, Abs.HasGen, Abs.Gen, Abs.WithGen;
    GetTypeInv(s, t, a, a');
    StillLive(s, t, a, a');
    FindExact(GetType(s, t, a, a'), a, if Find(s, a).Some? then Find(s, a).value else t);
  }

  lemma StillLive(s: Env, t: Typespec, a: Typeabs, a': Typeabs)
    requires Inv(s) && LiveComps(s.id, a) && t !in s.id && TabKnown(s.id, s.tab) && Comps(a) <= s.id.Keys
    ensures LiveComps(GetType(s, t, a, a').id, a) && Sized(s)
  {
    hide Bucket, Find;
  }

  /** Everything known is at or below the watermark from then on, every unit
      stays, none of them to be flushed, and nothing else changes. */
  lemma KeepInv(s: Env)
    requires Inv(s)
    ensures Inv(Keep(s))
    ensures forall t :: t in s.id ==> s.id[t] <= Keep(s).keep < s.next
    ensures Keep(s).dus.Keys == s.dus.Keys
    ensures forall n :: n in s.dus ==> Keep(s).dus[n].du == s.dus[n].du && !Keep(s).dus[n].flush
    ensures Keep(s) == s.(keep := s.next - 1, dus := Keep(s).dus)
  {
    hide DescOf, Bucket, Comps, Good;
    KeptCounts(s);
    IdsBelow(s);
    var s' := Keep(s);
    forall t | Live(s'.id, t) && s'.abs[t].HasGen() ensures GenOk(s'.abs[t].Gen(), s'.id[t], s'.dus, s'.keep) {
      assert GenOk(s.abs[t].Gen(), s.id[t], s.dus, s.keep);
    }
  }

  lemma IdsBelow(s: Env)
    requires Inv(s)
    ensures forall t :: t in s.id ==> 0 <= s.id[t] < s.next
  {
  }

  lemma KeptCounts(s: Env)
    requires Inv(s)
    ensures Good(s.id, Uses(s.abs), Descs(s.abs, s.id), Places(s.hash, s.abs, s.id), s.tab, s.next, s.next - 1)
  {
    hide DescOf, Bucket, Comps, Closed, Grounded, Placed, Canonical, SharedGens, Uses, Descs, Places;
  }

  lemma SurvivorsKeepPlace(s: Env)
    requires Inv(s)
    ensures Closed(s.abs, FlushIds(s.id, s.keep))
    ensures var id' := FlushIds(s.id, s.keep);
            forall t :: Live(s.id, t) && s.id[t] <= s.keep ==>
              Descs(s.abs, id')[t] == Descs(s.abs, s.id)[t] &&
              Places(s.hash, s.abs, id')[t] == Places(s.hash, s.abs, s.id)[t]
  {
    hide DescOf, Bucket, Comps, Placed, Canonical;
    var id', uses := FlushIds(s.id, s.keep), Uses(s.abs);
    assert id'.Keys == s.id.Keys;
    forall t | Live(s.id, t) && s.id[t] <= s.keep
      ensures Descs(s.abs, id')[t] == Descs(s.abs, s.id)[t] &&
              Places(s.hash, s.abs, id')[t] == Places(s.hash, s.abs, s.id)[t]
    {
      assert uses[t] == Comps(s.abs[t]) && forall u :: u in uses[t] ==> 0 < s.id[u] < s.id[t];
      SameDesc(s.hash, s.id, id', s.abs[t]);
    }
  }

  /** Although the ids above the watermark are zeroed and will be handed out
      again, every surviving type still sits where its current hash says. */
  lemma Reset1Inv(s: Env)
    requires Inv(s)
    ensures TabKnown(s.id, s.tab) && Inv(Reset1(s))
    ensures forall t :: t in s.id ==> (Live(Reset1(s).id, t) <==> Live(s.id, t) && s.id[t] <= s.keep)
    ensures forall t :: Live(Reset1(s).id, t) ==> t in s.id && Reset1(s).id[t] == s.id[t]
    ensures Reset1(s) == s.(id := Reset1(s).id, tab := Reset1(s).tab, next := s.keep + 1)
  {
    hide DescOf, Bucket, Comps, Grounded, Placed, Canonical, SharedGens;
    SurvivorsKeepPlace(s);
    TabIsKnown(s);
    var s' := Reset1(s);
    FlushGood(s.id, Uses(s.abs), Descs(s.abs, s.id), Places(s.hash, s.abs, s.id), s.tab, s.next, s.keep,
              Descs(s.abs, s'.id), Places(s.hash, s.abs, s'.id));
    FlushGens(s.abs, s.id, s.dus, s.keep, s'.id, s'.dus);
  }

  lemma ResetInv(s: Env)
    requires Inv(s)
    ensures TabKnown(s.id, s.tab) && Inv(Reset(s))
    ensures forall t :: t in s.id ==> (Live(Reset(s).id, t) <==> Live(s.id, t) && s.id[t] <= s.keep)
    ensures forall n :: n in Reset(s).dus <==> n in s.dus && !s.dus[n].flush
    ensures forall n :: n in Reset(s).dus ==> Reset(s).dus[n] == s.dus[n]
    ensures Reset(s) == Reset1(s).(dus := Reset(s).dus)
  {
    hide DescOf, Bucket, Comps, Good, SharedGens;
    Reset1Inv(s);
    var s', r := Reset(s), Reset1(s);
    FlushGens(s.abs, s.id, s.dus, s.keep, s'.id, s'.dus);
  }

  lemma AdoptMaps(s: Env, t: Typespec, a: Typeabs)
    requires Closed(s.abs, s.id) && t !in s.id && Comps(a) <= s.id.Keys
    ensures var s' := Adopt(s, t, a);
            && Closed(s'.abs, s'.id) && Comps(a) <= s'.id.Keys
            && Uses(s'.abs) == Uses(s.abs)[t := Comps(a)]
            && Descs(s'.abs, s'.id) == Descs(s.abs, s.id)[t := DescOf(s'.id, a)]
            && Places(s.hash, s'.abs, s'.id) == Places(s.hash, s.abs, s.id)[t := Bucket(s.hash, s'.id, a)]
  {
    hide DescOf, Bucket, Comps;
    var s' := Adopt(s, t, a);
    NewIdKeepsDescs(s.hash, s.abs, s.id, t, 0);
    assert Closed(s'.abs, s'.id);
    assert Uses(s'.abs) == Uses(s.abs)[t := Comps(a)];
    AdoptDescs(s, t, a);
  }

  lemma AdoptDescs(s: Env, t: Typespec, a: Typeabs)
    requires Closed(s.abs, s.id) && t !in s.id && Comps(a) <= s.id.Keys && Closed(s.abs[t := a], s.id[t := 0])
    ensures var s' := Adopt(s, t, a);
            && Descs(s'.abs, s'.id) == Descs(s.abs, s.id)[t := DescOf(s'.id, a)]
            && Places(s.hash, s'.abs, s'.id) == Places(s.hash, s.abs, s.id)[t := Bucket(s.hash, s'.id, a)]
  {
    hide DescOf, Bucket, Comps;
    NewIdKeepsDescs(s.hash, s.abs, s.id, t, 0);
  }

  lemma AdoptGens(abs: AbsMap, id: TypeIds, dus: DuTab, keep: int, t: Typespec, a: Typeabs)
    requires abs.Keys == id.Keys && SharedGens(abs, id, dus, keep) && t !in id
    ensures SharedGens(abs[t := a], id[t := 0], dus, keep)
  {
  }

  lemma AdoptInv(s: Env, t: Typespec, a: Typeabs)
    requires Inv(s) && t !in s.id && Comps(a) <= s.id.Keys
    ensures Inv(Adopt(s, t, a)) && !Live(Adopt(s, t, a).id, t) && Adopt(s, t, a).abs == s.abs[t := a]
    ensures Adopt(s, t, a) == s.(abs := Adopt(s, t, a).abs, id := Adopt(s, t, a).id)
    ensures Adopt(s, t, a).id.Keys == s.id.Keys + {t} && forall u :: u in s.id ==> Adopt(s, t, a).id[u] == s.id[u]
  {
    hide DescOf, Bucket, Comps, Good, SharedGens, Closed, Uses, Descs, Places;
    InvCounts(s);
    AdoptMaps(s, t, a);
    var s' := Adopt(s, t, a);
    AdoptGood(s.id, Uses(s.abs), Descs(s.abs, s.id), Places(s.hash, s.abs, s.id), s.tab, s.next, s.keep,
              t, Comps(a), DescOf(s'.id, a), Bucket(s.hash, s'.id, a));
    AdoptGens(s.abs, s.id, s.dus, s.keep, t, a);
  }

  /** A type object that is not live may be given another description. */
  lemma DeadEditInv(s: Env, t: Typespec, a: Typeabs)
    requires Inv(s) && t in s.id && !Live(s.id, t) && Comps(a) <= s.id.Keys
    ensures Inv(s.(abs := s.abs[t := a]))
  {
    hide DescOf, Bucket, Comps, Good, GenOk;
    var abs' := s.abs[t := a];
    assert Closed(abs', s.id);
    DeadGood(s.id, Uses(s.abs), Descs(s.abs, s.id), Places(s.hash, s.abs, s.id), s.tab, s.next, s.keep,
             Uses(abs'), Descs(abs', s.id), Places(s.hash, abs', s.id));
  }

  // ----- reset_types -----

  lemma ZeroingKeepsPlace(s: Env, t: Typespec)
    requires Closed(s.abs, s.id) && t in s.id
    requires forall u :: Live(s.id, u) ==> t !in Comps(s.abs[u])
    ensures Closed(s.abs, s.id[t := 0])
    ensures var id' := s.id[t := 0];
            forall u :: Live(s.id, u) ==>
              Descs(s.abs, id')[u] == Descs(s.abs, s.id)[u] &&
              Places(s.hash, s.abs, id')[u] == Places(s.hash, s.abs, s.id)[u]
  {
    hide DescOf, Bucket, Comps;
    var id' := s.id[t := 0];
    assert id'.Keys == s.id.Keys;
    forall u | Live(s.id, u)
      ensures Descs(s.abs, id')[u] == Descs(s.abs, s.id)[u]
      ensures Places(s.hash, s.abs, id')[u] == Places(s.hash, s.abs, s.id)[u]
    {
      SameDesc(s.hash, s.id, id', s.abs[u]);
    }
  }

  lemma ResetOneInv(s: Env, t: Typespec)
    requires Inv(s) && t in s.id && s.id[t] > s.keep
    requires forall u :: Live(s.id, u) ==> t !in Comps(s.abs[u])
    ensures Sized(s) && Inv(ResetOne(s, t))
    ensures forall u :: u in s.id ==> (Live(ResetOne(s, t).id, u) <==> Live(s.id, u) && u != t)
  {
    hide DescOf, Bucket, Comps, DistinctIds, Grounded, Placed, Canonical, SharedGens;
    InvSized(s);
    ZeroingKeepsPlace(s, t);
    var s' := ResetOne(s, t);
    assert forall u :: Live(s.id, u) ==> Uses(s.abs)[u] == Comps(s.abs[u]);
    assert s.abs.Keys == s.id.Keys;
    hide Closed, Uses, Descs, Places;
    RemoveGood(s.id, Uses(s.abs), Descs(s.abs, s.id), Places(s.hash, s.abs, s.id), s.tab, s.next, s.keep, t,
               Descs(s.abs, s'.id), Places(s.hash, s.abs, s'.id));
    FlushGens(s.abs, s.id, s.dus, s.keep, s'.id, s'.dus);
  }

  /** Every live type built from a listed type that is to go stands earlier in
      the list than that type. */
  ghost predicate UsersFirst(abs: AbsMap, id: TypeIds, keep: int, list: seq<Typespec>)
    requires Closed(abs, id)
  {
    forall i, u | 0 <= i < |list| && list[i] in id && id[list[i]] > keep && Live(id, u)::
      list[i] in Comps(abs[u]) ==> u in list[..i]
  }

  lemma UsersFirstTail(abs: AbsMap, id: TypeIds, keep: int, list: seq<Typespec>, id': TypeIds)
    requires Closed(abs, id) && UsersFirst(abs, id, keep, list) && list != [] && list[0] in id && 0 <= keep
    requires Grounded(id, Uses(abs))
    requires id' == if id[list[0]] > keep then id[list[0] := 0] else id
    ensures Closed(abs, id') && UsersFirst(abs, id', keep, list[1..])
  {
    hide Comps;
    assert id'.Keys == id.Keys;
    var r := list[1..];
    forall i, u | 0 <= i < |r| && r[i] in id' && id'[r[i]] > keep && Live(id', u) && r[i] in Comps(abs[u])
      ensures u in r[..i]
    {
      assert list[i + 1] == r[i] && Live(id, u);
      assert u in list[..i + 1] && list[..i + 1] == [list[0]] + r[..i];
      assert r[i] in Uses(abs)[u];
    }
  }

  lemma InvClosed(s: Env)
    requires Inv(s)
    ensures Closed(s.abs, s.id)
  {
  }

  lemma InvSized(s: Env)
    requires Inv(s)
    ensures Sized(s) && 0 <= s.keep
  {
  }

  lemma ResetOneStep(s: Env, list: seq<Typespec>)
    requires Inv(s) && list != [] && list[0] in s.id && UsersFirst(s.abs, s.id, s.keep, list)
    ensures Sized(s)
    ensures var t, s' := list[0], ResetOne(s, list[0]);
            && Inv(s') && s' == s.(id := s'.id, tab := s'.tab)
            && s'.id == (if s.id[t] > s.keep then s.id[t := 0] else s.id)
            && UsersFirst(s'.abs, s'.id, s'.keep, list[1..])
  {
    hide DescOf, Bucket, Comps, Placed, Canonical, SharedGens, Descs, Places;
    TabIsKnown(s);
    var t, s' := list[0], ResetOne(s, list[0]);
    if s.id[t] > s.keep {
      forall u | Live(s.id, u) ensures t !in Comps(s.abs[u]) { assert list[..0] == []; }
      ResetOneInv(s, t);
    }
    UsersFirstTail(s.abs, s.id, s.keep, list, s'.id);
  }

  /** reset_types removes exactly the listed types above the watermark and
      leaves every other entry findable: ids are zeroed while deletes probe by
      them, but never the id of a component of a type still to be deleted. */
  lemma {:induction false} ResetTypesInv(s: Env, list: seq<Typespec>)
    requires Inv(s) && (forall t :: t in list ==> t in s.id) && UsersFirst(s.abs, s.id, s.keep, list)
    ensures Sized(s)
    ensures var s' := ResetTypes(s, list);
            && Inv(s') && s' == s.(id := s'.id, tab := s'.tab)
            && s'.id.Keys == s.id.Keys
            && forall u :: u in s.id ==> s'.id[u] == if u in list && s.id[u] > s.keep then 0 else s.id[u]
    decreases |list|
  {
    hide DescOf, Inv, Sized, Closed, UsersFirst, ResetOne;
    InvSized(s);
    if list != [] {
      var s1 := ResetOne(s, list[0]);
      ResetOneStep(s, list);
      assert forall u :: u in list <==> u == list[0] || u in list[1..];
      ResetTypesInv(s1, list[1..]);
    }
  }

  lemma ResetOneIds(s: Env, t: Typespec)
    requires Sized(s) && t in s.id
    ensures var s' := ResetOne(s, t);
            s' == s.(id := s'.id, tab := s'.tab) && s'.id == (if s.id[t] > s.keep then s.id[t := 0] else s.id)
  {
    hide Descs, Places;
  }

  /** One turn, then the rest of the list. */
  lemma ResetTypesStep(s: Env, list: seq<Typespec>)
    requires Sized(s) && list != [] && forall t :: t in list ==> t in s.id
    ensures Sized(ResetOne(s, list[0])) && ResetOne(s, list[0]).id.Keys == s.id.Keys
    ensures ResetTypes(s, list) == ResetTypes(ResetOne(s, list[0]), list[1..])
  {
    hide ResetOne, Sized;
    ResetOneSized(s, list[0]);
  }

  /** Whatever the list and its order, exactly the listed types above the
      watermark lose their ids. */
  lemma {:induction false} ResetTypesIds(s: Env, list: seq<Typespec>)
    requires Sized(s) && 0 <= s.keep && forall t :: t in list ==> t in s.id
    ensures var s' := ResetTypes(s, list);
            && s' == s.(id := s'.id, tab := s'.tab) && s'.id.Keys == s.id.Keys
            && forall u :: u in s.id ==> s'.id[u] == if u in list && s.id[u] > s.keep then 0 else s.id[u]
    decreases |list|
  {
    hide ResetTypes, ResetOne, Sized;
    if list == [] {
      ResetNone(s);
    } else {
      ResetOneIds(s, list[0]);
      ResetTypesStep(s, list);
      assert forall u :: u in list <==> u == list[0] || u in list[1..];
      ResetTypesIds(ResetOne(s, list[0]), list[1..]);
    }
  }

  lemma ResetNone(s: Env)
    requires Sized(s)
    ensures ResetTypes(s, []) == s
  {
  }

  /** Leaving out a live type built from a listed one breaks the table, whatever
      else is listed: every user has to be listed. */
  lemma ResetTypesNeedsUsers(s: Env, list: seq<Typespec>, t: Typespec, u: Typespec)
    requires Inv(s) && (forall v :: v in list ==> v in s.id) && t in list && s.id[t] > s.keep
    requires Live(s.id, u) && t in Comps(s.abs[u]) && u !in list
    ensures Sized(s) && !Inv(ResetTypes(s, list))
  {
    hide DescOf, Bucket, Placed, Canonical, SharedGens, Descs, Places, Comps, Sized, ResetTypes;
    InvSized(s);
    ResetTypesIds(s, list);
    var s' := ResetTypes(s, list);
    assert t in Uses(s.abs)[u];
    assert s'.id[t] == 0 && Live(s'.id, u);
  }
}
