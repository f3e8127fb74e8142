/** Whole runs of the compiler environment: any sequence of get_type, add_du,
    keep, reset1, reset and reset_types from the empty tables on, and of what
    the parser and c_type do to type objects outside the table. */
module TypeRuns {
  import opened Syntax
  import opened Shapes
  import opened Hashing
  import opened Placement
  import opened TypeEnv
  import opened ResetLists

  /** MakeNode is what the parser does, a type object outside the table, and
      EditNode what c_type does to it. For AskType, fresh and resolved are what
      get_type would bind: the new type object, and the description with its
      generator replaced. */
  datatype Command =
    | AskType(fresh_: Typespec, a: Typeabs, resolved: Typeabs)
    | MakeNode(node: Typespec, parsed: Typeabs)
    | EditNode(node: Typespec, edited: Typeabs)
    | AskDu(du: Du)
    | KeepAll
    | DropTypes
    | DropAll
    | DropListed(list: seq<Typespec>)

  /** c_type replaces components by canonical types. */
  ghost predicate EditFrom(id: TypeIds, a: Typeabs, a': Typeabs) {
    Comps(a') <= id.Keys && forall c :: c in Comps(a') ==> c in Comps(a) || Live(id, c)
  }

  /** What the environment asks of its callers. */
  ghost predicate Enabled(s: Env, c: Command)
    requires Inv(s)
  {
    match c
    case AskType(t, a, a') => LiveComps(s.id, a) && t !in s.id && Resolves(s.dus, a, a')
    case MakeNode(t, a) => t !in s.id && Comps(a) <= s.id.Keys
    case EditNode(t, a) => t in s.id && !Live(s.id, t) && EditFrom(s.id, s.abs[t], a)
    case DropListed(list) => (forall t :: t in list ==> t in s.id) && UsersFirst(s.abs, s.id, s.keep, list)
    case _ => true
  }

  ghost function Edit(s: Env, t: Typespec, a: Typeabs): Env {
    s.(abs := s.abs[t := a])
  }

  ghost function Step(s: Env, c: Command): (s': Env)
    requires Inv(s) && Enabled(s, c)
    ensures Inv(s')
  {
    StepInv(s, c);
    DropsInv(s);
    match c
    case AskType(t, a, a') => GetType(s, t, a, a')
    case MakeNode(t, a) => Adopt(s, t, a)
    case EditNode(t, a) => Edit(s, t, a)
    case AskDu(d) => AddDu(s, d)
    case KeepAll => Keep(s)
    case DropTypes => Reset1(s)
    case DropAll => Reset(s)
    case DropListed(list) => ResetTypes(s, list)
  }

  lemma StepInv(s: Env, c: Command)
    requires Inv(s) && Enabled(s, c)
    ensures TabKnown(s.id, s.tab) && Sized(s)
    ensures c.AskType? ==> Comps(c.a) <= s.id.Keys && Inv(GetType(s, c.fresh_, c.a, c.resolved))
    ensures c.MakeNode? ==> Inv(Adopt(s, c.node, c.parsed))
    ensures c.EditNode? ==> Inv(Edit(s, c.node, c.edited))
    ensures c.AskDu? ==> Inv(AddDu(s, c.du))
    ensures c.DropListed? ==> Inv(ResetTypes(s, c.list))
  {
    hide Inv, Sized, UsersFirst, Resolves, GetType, Adopt, AddDu, ResetTypes;
    InvSized(s);
    TabIsKnown(s);
    match c
    case AskType(t, a, a') => GetTypeInv(s, t, a, a');
    case MakeNode(t, a) => AdoptInv(s, t, a);
    case EditNode(t, a) => DeadEditInv(s, t, a);
    case AskDu(d) => AddDuInv(s, d);
    case DropListed(list) => ResetTypesInv(s, list);
    case _ =>
  }

  lemma DropsInv(s: Env)
    requires Inv(s)
    ensures TabKnown(s.id, s.tab) && Inv(Keep(s)) && Inv(Reset1(s)) && Inv(Reset(s))
  {
    hide Inv, Keep, Reset1, Reset;
    KeepInv(s);
    Reset1Inv(s);
    ResetInv(s);
  }

  ghost predicate Allowed(s: Env, run: seq<Command>)
    requires Inv(s)
    decreases |run|
  {
    run == [] || (Enabled(s, run[0]) && Allowed(Step(s, run[0]), run[1..]))
  }

  ghost function After(s: Env, run: seq<Command>): (s': Env)
    requires Inv(s) && Allowed(s, run)
    ensures Inv(s')
    decreases |run|
  {
    if run == [] then s else After(Step(s, run[0]), run[1..])
  }

  /** In every run: live types have distinct ids in 1..next-1, the table maps a
      description to a type exactly when the type is live, components have
      smaller nonzero ids, every live type stands in the one chain its current
      hash names, and its generator is the unit the table holds for that name,
      kept if the type is kept. */
  lemma EveryRun(h: StringHash, run: seq<Command>)
    requires Inv(Empty(h)) && Allowed(Empty(h), run)
    ensures var s := After(Empty(h), run);
            && s.abs.Keys == s.id.Keys && Sized(s)
            && (forall t :: Live(s.id, t) ==> 1 <= s.id[t] < s.next)
            && (forall t, u :: Live(s.id, t) && Live(s.id, u) && s.id[t] == s.id[u] ==> t == u)
            && (forall t :: t in s.abs ==> (Live(s.id, t) <==> Find(s, s.abs[t]) == Some(t)))
            && (forall t, u :: Live(s.id, t) && u in Uses(s.abs)[t] ==> 0 < s.id[u] < s.id[t])
            && (forall t, i :: Live(s.id, t) && 0 <= i < SIZE ==>
                  (t in s.tab[i] <==> Places(s.hash, s.abs, s.id)[t] == i))
            && (forall t :: Live(s.id, t) && s.abs[t].HasGen() ==> GenOk(s.abs[t].Gen(), s.id[t], s.dus, s.keep))
  {
    hide DescOf, Bucket, Comps, Find, Canonical;
    var s := After(Empty(h), run);
    InvSized(s);
    forall t | t in s.abs ensures Live(s.id, t) <==> Find(s, s.abs[t]) == Some(t) {
      LiveIffFound(s, t);
    }
    forall t, i | Live(s.id, t) && 0 <= i < SIZE
      ensures t in s.tab[i] <==> Places(s.hash, s.abs, s.id)[t] == i
    {
      assert ChainOk(s.id, Places(s.hash, s.abs, s.id), s.tab[i], i);
    }
  }

  /** One step changes neither the description of any known type, unless c_type
      edits an object without an id, nor the id of a kept one, and never lowers
      the watermark. */
  lemma StepKeeps(s: Env, c: Command)
    requires Inv(s) && Enabled(s, c)
    ensures var s' := Step(s, c);
            && s.keep <= s'.keep
            && (forall t :: t in s.abs ==>
                  t in s'.abs && (s'.abs[t] == s.abs[t] || (c.EditNode? && c.node == t && !Live(s.id, t))))
            && (forall t :: Live(s.id, t) && s.id[t] <= s.keep ==> t in s'.id && s'.id[t] == s.id[t])
  {
    hide DescOf, Bucket, Comps, Find, Inv, SharedGens, UsersFirst, ResetTypes, FlushTab, Resolves, LiveComps, TabKnown;
    StepInv(s, c);
    InvCounts(s);
    if c.DropListed? { ResetTypesInv(s, c.list); }
  }

  /** What was kept is for ever: after any further run the table still answers
      its description with the very same type, under the same id. */
  lemma {:induction false} KeptForever(s: Env, run: seq<Command>, t: Typespec)
    requires Inv(s) && Allowed(s, run) && Live(s.id, t) && s.id[t] <= s.keep
    ensures var s' := After(s, run);
            && Sized(s') && t in s.abs && t in s'.abs && s'.abs[t] == s.abs[t]
            && t in s'.id && s'.id[t] == s.id[t] <= s'.keep
            && Find(s', s.abs[t]) == Some(t)
    decreases |run|
  {
    hide Find, Step, Enabled, Uses, Descs, Places, Good, SharedGens, Comps, Bucket;
    LiveKnown(s, t);
    if run == [] {
      InvSized(s);
      LiveIffFound(s, t);
    } else {
      StepKeeps(s, run[0]);
      KeptForever(Step(s, run[0]), run[1..], t);
    }
  }

  lemma LiveKnown(s: Env, t: Typespec)
    requires Inv(s) && Live(s.id, t)
    ensures t in s.abs
  {
  }

  lemma AfterFirst(s: Env, run: seq<Command>)
    requires Inv(s) && run != [] && Allowed(s, run)
    ensures Enabled(s, run[0]) && Allowed(Step(s, run[0]), run[1..])
    ensures After(s, run) == After(Step(s, run[0]), run[1..])
  {
    hide Step, Enabled, Inv;
  }

  lemma KeepIsStep(s: Env)
    requires Inv(s)
    ensures Enabled(s, KeepAll) && Step(s, KeepAll) == Keep(s)
  {
    hide Inv, Keep;
  }

  lemma DropIsStep(s: Env)
    requires Inv(s)
    ensures TabKnown(s.id, s.tab) && Enabled(s, DropAll) && Step(s, DropAll) == Reset(s)
    ensures Enabled(s, DropTypes) && Step(s, DropTypes) == Reset1(s)
  {
    hide Inv, Reset, Reset1, TabKnown;
    TabIsKnown(s);
  }

  /** Whatever is live at a keep is for ever. */
  lemma LiveAtKeep(s: Env, run: seq<Command>, t: Typespec)
    requires Inv(s) && Live(s.id, t) && run != [] && run[0] == KeepAll && Allowed(s, run)
    ensures var s' := After(s, run);
            && Sized(s') && t in s.abs && t in s'.abs && s'.abs[t] == s.abs[t]
            && t in s'.id && s'.id[t] == s.id[t] <= s'.keep
            && Find(s', s.abs[t]) == Some(t)
  {
    hide Inv, Sized, Allowed, Find, Step, Enabled, Keep;
    KeepIsStep(s);
    KeepInv(s);
    AfterFirst(s, run);
    KeptForever(Keep(s), run[1..], t);
  }

  ghost predicate SameKeptIds(id: TypeIds, id': TypeIds, keep: int) {
    && (forall t :: t in id && 0 < id[t] <= keep ==> t in id' && id'[t] == id[t])
    && (forall t :: t in id' && 0 < id'[t] <= keep ==> t in id && id[t] == id'[t])
  }

  ghost predicate SameKeptDus(dus: DuTab, dus': DuTab) {
    && (forall n :: n in dus && !dus[n].flush ==> n in dus' && dus'[n] == dus[n])
    && (forall n :: n in dus' && !dus'[n].flush ==> n in dus && dus[n] == dus'[n])
  }

  /** Kept types and units are the same in both. */
  ghost predicate SameKept(s: Env, s': Env) {
    s'.keep == s.keep && SameKeptIds(s.id, s'.id, s.keep) && SameKeptDus(s.dus, s'.dus)
  }

  lemma DuSameKept(s: Env, d: Du)
    ensures SameKept(s, AddDu(s, d))
  {
  }

  lemma FixupSameKept(s: Env, t: Typespec, a: Typeabs, a': Typeabs)
    requires Inv(s) && t !in s.id && Comps(a) <= s.id.Keys
    ensures |s.tab| == SIZE && SameKept(s, Fixup(s, t, a, a'))
  {
    hide Bucket, Comps, SharedGens, Inv, SameKeptDus, AddDu;
    InvSized(s);
    InvCounts(s);
    if a'.HasGen() { DuSameKept(s, a'.Gen()); } else { SelfSameKept(s.dus); }
  }

  lemma SelfSameKept(dus: DuTab)
    ensures SameKeptDus(dus, dus)
  {
  }

  lemma ResetSameKept(s: Env)
    requires Inv(s)
    ensures TabKnown(s.id, s.tab) && SameKept(s, Reset1(s)) && SameKept(s, Reset(s))
  {
    hide Inv, FlushTab, TabKnown;
    TabIsKnown(s);
    InvCounts(s);
  }

  lemma IdsSameKept(s: Env, s': Env)
    requires s' == s.(abs := s'.abs, id := s'.id, tab := s'.tab) && 0 <= s.keep
    requires forall t :: t in s.id ==> t in s'.id && s'.id[t] == if s.id[t] > s.keep then s'.id[t] else s.id[t]
    requires forall t :: t in s'.id && s'.id[t] != 0 ==> t in s.id && s'.id[t] == s.id[t]
    ensures SameKept(s, s')
  {
  }

  /** Only keep changes what is kept. */
  lemma StepSameKept(s: Env, c: Command)
    requires Inv(s) && Enabled(s, c) && !c.KeepAll?
    ensures SameKept(s, Step(s, c))
  {
    hide DescOf, Bucket, Comps, Find, Inv, UsersFirst, LiveComps, TabKnown, Resolves, AddDu, Fixup, ResetTypes,
      Reset1, Reset, SameKept, EditFrom;
    StepInv(s, c);
    InvCounts(s);
    match c
    case AskType(t, a, a') =>
      FixupSameKept(s, t, a, a');
      IdsSameKept(s, s);
    case MakeNode(t, a) => IdsSameKept(s, Adopt(s, t, a));
    case EditNode(t, a) => IdsSameKept(s, Edit(s, t, a));
    case AskDu(d) => DuSameKept(s, d);
    case DropListed(list) =>
      ResetTypesInv(s, list);
      IdsSameKept(s, ResetTypes(s, list));
    case _ => ResetSameKept(s);
  }

  lemma {:induction false} RunSameKept(s: Env, run: seq<Command>)
    requires Inv(s) && Allowed(s, run) && KeepAll !in run
    ensures SameKept(s, After(s, run))
    decreases |run|
  {
    hide Inv, Step, Enabled;
    if run != [] {
      AfterFirst(s, run);
      StepSameKept(s, run[0]);
      RunSameKept(Step(s, run[0]), run[1..]);
    }
  }

  /** Whatever was done since the last keep, reset brings back what there was
      then: the same live types with the same ids, the next id, and the same
      units; and no kept type has got another description. */
  lemma ResetRestores(s: Env, run: seq<Command>)
    requires Inv(s) && Inv(Keep(s)) && Allowed(Keep(s), run) && KeepAll !in run
    ensures Enabled(After(Keep(s), run), DropAll)
    ensures var s' := Step(After(Keep(s), run), DropAll);
            && Inv(s') && s'.next == s.next && s'.keep == s.next - 1
            && (forall t :: Live(s'.id, t) <==> Live(s.id, t))
            && (forall t :: Live(s.id, t) ==> s'.id[t] == s.id[t] && t in s.abs && t in s'.abs && s'.abs[t] == s.abs[t])
            && s'.dus.Keys == s.dus.Keys && (forall n :: n in s.dus ==> s'.dus[n] == s.dus[n].(flush := false))
  {
    hide Inv, Keep, Reset, Reset1, FlushIds, FlushTab, TabKnown, After, Allowed, Find, Sized, Step, Enabled;
    KeepInv(s);
    var k := Keep(s);
    var r := After(k, run);
    DropIsStep(r);
    ResetInv(r);
    Reset1Inv(r);
    RunSameKept(k, run);
    IdsBelow(s);
    IdsBelow(r);
    InvCounts(s);
    forall t | Live(s.id, t) ensures t in s.abs && t in r.abs && r.abs[t] == s.abs[t] { KeptForever(k, run, t); }
  }

  // ----- a list in the wrong order -----

  /** Two requests: for "any", and for the type returning it. */
  ghost function TwoAsked(t: Typespec, u: Typespec): seq<Command> {
    [AskType(t, AnyT, AnyT), AskType(u, OtherReturn(t), OtherReturn(t))]
  }

  lemma AskNew(s: Env, t: Typespec, a: Typeabs)
    requires Inv(s) && Enabled(s, AskType(t, a, a)) && Comps(a) <= s.id.Keys && !a.HasGen()
    requires forall u :: Live(s.id, u) ==> DescOf(s.id, s.abs[u]) != DescOf(s.id, a)
    ensures var s' := Step(s, AskType(t, a, a));
            s'.abs == s.abs[t := a] && s'.id == s.id[t := s.next] && s'.next == s.next + 1 && s'.keep == s.keep
  {
    hide Inv, DescOf, Bucket, Comps;
    FindSpec(s, a);
  }

  lemma FirstAsked(h: StringHash, t: Typespec)
    ensures Inv(Empty(h)) && Enabled(Empty(h), AskType(t, AnyT, AnyT))
    ensures var s := Step(Empty(h), AskType(t, AnyT, AnyT));
            Inv(s) && s.abs == map[t := AnyT] && s.id == map[t := 1] && s.next == 2 && s.keep == 0
  {
    hide Inv;
    EmptyInv(h);
    NoComponents();
    AskNew(Empty(h), t, AnyT);
  }

  lemma NoComponents()
    ensures Comps<Du, Typespec>(AnyT) == {} && forall t: Typespec :: Comps<Du, Typespec>(OtherReturn(t)) == {t}
  {
  }

  lemma SecondAsked(s: Env, t: Typespec, u: Typespec)
    requires Inv(s) && s.abs == map[t := AnyT] && s.id == map[t := 1] && s.next == 2 && s.keep == 0 && t != u
    ensures Enabled(s, AskType(u, OtherReturn(t), OtherReturn(t)))
    ensures var s' := Step(s, AskType(u, OtherReturn(t), OtherReturn(t)));
            && Inv(s') && s'.abs == map[t := AnyT, u := OtherReturn(t)] && s'.id == map[t := 1, u := 2]
            && s'.keep == 0
  {
    hide Inv;
    NoComponents();
    AskNew(s, u, OtherReturn(t));
  }

  lemma RunTwo(s: Env, c: Command, d: Command)
    requires Inv(s) && Enabled(s, c) && Enabled(Step(s, c), d)
    ensures Allowed(s, [c, d]) && After(s, [c, d]) == Step(Step(s, c), d)
  {
    hide Inv, Enabled, Step;
    assert [c, d][1..] == [d] && [d][1..] == [];
    RunOne(Step(s, c), d);
  }

  lemma RunOne(s: Env, c: Command)
    requires Inv(s) && Enabled(s, c)
    ensures Allowed(s, [c]) && After(s, [c]) == Step(s, c)
  {
    hide Inv, Enabled, Step;
    assert [c][1..] == [];
  }

  /** u is built from t, and the list in the wrong order, or without u, breaks
      the table. */
  ghost predicate OrderMatters(s: Env, t: Typespec, u: Typespec) {
    && Sized(s) && t in s.id && u in s.id && Pair(s, t, u)
    && !Inv(ResetTypes(s, [t, u])) && !Inv(ResetTypes(s, [t])) && Inv(ResetTypes(s, [u, t]))
  }

  lemma PairOrder(s: Env, t: Typespec, u: Typespec)
    requires Inv(s) && s.abs == map[t := AnyT, u := OtherReturn(t)] && s.id == map[t := 1, u := 2]
    requires s.keep == 0 && t != u
    ensures OrderMatters(s, t, u)
  {
    hide Inv, Sized, ResetTypes, DescOf, Bucket;
    InvSized(s);
    NoComponents();
    ReturnedFirst(s, t, u);
    ResetTypesNeedsUsers(s, [t], t, u);
    InvClosed(s);
    assert [u, t][..1] == [u];
    ResetTypesInv(s, [u, t]);
  }

  /** That comes about from the empty tables on. */
  lemma OrderCanMatter(h: StringHash, t: Typespec, u: Typespec)
    requires t != u
    ensures Inv(Empty(h)) && Allowed(Empty(h), TwoAsked(t, u)) && OrderMatters(After(Empty(h), TwoAsked(t, u)), t, u)
  {
    hide *;
    FirstAsked(h, t);
    var c, d := AskType(t, AnyT, AnyT), AskType(u, OtherReturn(t), OtherReturn(t));
    SecondAsked(Step(Empty(h), c), t, u);
    RunTwo(Empty(h), c, d);
    TwoAre(t, u);
    PairOrder(Step(Step(Empty(h), c), d), t, u);
  }

  lemma TwoAre(t: Typespec, u: Typespec)
    ensures TwoAsked(t, u) == [AskType(t, AnyT, AnyT), AskType(u, OtherReturn(t), OtherReturn(t))]
  {
  }
}
