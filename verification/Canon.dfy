/** Canonicalisation of type trees, bottom-up into the types table. */
module Canon {
  import opened Syntax
  import opened Shapes
  import opened Hashing
  import opened Placement
  import opened NameTable
  import opened TypeEnv
  import opened TypeRuns
  import opened Meaning
  import opened CompilerEnv

  /** Objects keep their ids, canonical ones their descriptions, and the
      watermark stays. */
  ghost predicate Grown(s: Env, s': Env) {
    && s.keep == s'.keep && s.abs.Keys == s.id.Keys && s'.abs.Keys == s'.id.Keys
    && s.id.Keys <= s'.id.Keys
    && (forall t :: t in s.id ==> s'.id[t] == s.id[t] && (Live(s.id, t) ==> s'.abs[t] == s.abs[t]))
  }

  ghost predicate Same(abs: AbsMap, abs': AbsMap) {
    forall t :: t in abs ==> t in abs' && abs'[t] == abs[t]
  }

  /** The environment is sound and mean tells the tree of each of its types
      while identifiers have these kinds. */
  ghost predicate Ready(env: CompilerEnv, kind: Kinds, mean: Trees)
    reads env, env.lib, env.types, env.dus, env.dus.buckets, env.nodes
  {
    env.Valid() && Denotes(env.View().abs, env.View().id, kind, mean)
  }

  ghost predicate KindsAre(kind: Kinds)
    reads kind.Keys
  {
    forall i :: i in kind ==> i.kind == kind[i]
  }

  /** c_env's get_type: the canonical type of a description of live components. */
  method MakeType(env: CompilerEnv, a: Typeabs, ghost kind: Kinds, ghost mean: Trees)
    returns (r: Typespec, ghost mean': Trees)
    requires Ready(env, kind, mean) && LiveComps(env.View().id, a)
    modifies env`seed, env`nodes, env.types, env.dus`Contents, env.dus.buckets, env.lib
    ensures Ready(env, kind, mean') && Extends(mean, mean') && Grown(old(env.View()), env.View())
    ensures Same(old(env.View()).abs, env.View().abs)
    ensures Comps(a) <= mean.Keys && Live(env.View().id, r) && r in mean' && mean'[r] == Node(MapAbs(a, mean))
  {
    hide CompilerEnv.Valid, Find, Comps, MapAbs, Bucket, Resolves, Denotes, Inv, AbsOf, IdsOf, LiveComps, Sized, Closed,
      TabKnown, TypeEnv.Fixup, Grown, Extends, Live, Same;
    ghost var s := env.View();
    MakeEnsures(s, kind, mean, a);
    env.SoundInv();
    var old_;
    r, old_ := env.GetType(a);
    if old_ {
      mean' := mean;
      OldAnswer(s, kind, mean, r, a);
    } else {
      mean' := mean[r := Node(MapAbs(a, mean))];
      NewAnswer(s, kind, mean, r, a, r.abs);
    }
  }

  lemma OldAnswer(s: Env, kind: Kinds, mean: Trees, r: Typespec, a: Typeabs)
    requires Inv(s) && Denotes(s.abs, s.id, kind, mean) && LiveComps(s.id, a) && Comps(a) <= s.id.Keys
    requires |s.tab| == SIZE && TabKnown(s.id, s.tab) && Find(s, a) == Some(r)
    ensures Live(s.id, r) && r in mean && Comps(a) <= mean.Keys && mean[r] == Node(MapAbs(a, mean))
    ensures Grown(s, s) && Extends(mean, mean) && Same(s.abs, s.abs)
  {
    hide Inv, Comps, MapAbs, Bucket;
    FindSpec(s, a);
    FoundMeans(s, kind, mean, r, a);
  }

  lemma NewAnswer(s: Env, kind: Kinds, mean: Trees, t: Typespec, a: Typeabs, a': Typeabs)
    requires Inv(s) && Denotes(s.abs, s.id, kind, mean) && LiveComps(s.id, a) && Comps(a) <= s.id.Keys
    requires |s.tab| == SIZE && t !in s.id && Resolves(s.dus, a, a')
    ensures Comps(a) <= mean.Keys
    ensures var s', mean' := TypeEnv.Fixup(s, t, a, a'), mean[t := Node(MapAbs(a, mean))];
            Denotes(s'.abs, s'.id, kind, mean') && Extends(mean, mean') && Grown(s, s') && Live(s'.id, t)
            && Same(s.abs, s'.abs)
  {
    hide Inv, Comps, MapAbs, Bucket, Resolves;
    InvCounts(s);
    FixupMeans(s, kind, mean, t, a, a');
  }

  lemma Domains(s: Env, kind: Kinds, mean: Trees)
    requires Denotes(s.abs, s.id, kind, mean)
    ensures s.abs.Keys == s.id.Keys == mean.Keys
  {
  }

  lemma MakeEnsures(s: Env, kind: Kinds, mean: Trees, a: Typeabs)
    requires Denotes(s.abs, s.id, kind, mean) && LiveComps(s.id, a)
    ensures s.abs.Keys == s.id.Keys == mean.Keys && Comps(a) <= mean.Keys
  {
  }

  // ----- checking a type tree -----

  /** A description c_type can make canonical once it has done the components
      that are still to be checked; constants are canonical already. */
  ghost predicate Checkable1(a: Typeabs, id: TypeIds, kind: Kinds, work: set<Typespec>) {
    match a
    case SelectT(_, _) => forall c :: c in Comps(a) ==> c in work || Live(id, c)
    case ApplyT(_, _, _, _) => forall c :: c in Comps(a) ==> c in work || Live(id, c)
    case IdnT(i) => i in kind && (match kind[i] case Equated(TypeX(t)) => Live(id, t) case _ => true)
    case _ => LiveComps(id, a)
  }

  /** work holds the objects of the trees to be checked. */
  ghost predicate Checkable(abs: AbsMap, id: TypeIds, kind: Kinds, work: set<Typespec>) {
    forall u :: u in work ==> u in abs && (Live(id, u) || Checkable1(abs[u], id, kind, work))
  }

  /** Only objects of work that are not canonical and mean something smaller
      than top are rewritten. */
  ghost predicate Touches(s: Env, s': Env, work: set<Typespec>, mean: Trees, top: Tree) {
    forall u :: u in s.abs ==>
      u in s'.abs && (s'.abs[u] == s.abs[u] || (u in work && u in mean && !Live(s.id, u) && mean[u] < top))
  }

  ghost predicate Walked(s: Env, s': Env, work: set<Typespec>, kind: Kinds, mean: Trees, mean': Trees, top: Tree) {
    && Checkable(s'.abs, s'.id, kind, work)
    && Extends(mean, mean') && Grown(s, s') && Touches(s, s', work, mean, top)
  }

  lemma WalkedOn(s: Env, s1: Env, s2: Env, work: set<Typespec>, kind: Kinds,
                 mean: Trees, mean1: Trees, mean2: Trees, top: Tree, top2: Tree)
    requires Walked(s, s1, work, kind, mean, mean1, top) && Walked(s1, s2, work, kind, mean1, mean2, top2)
    requires (top2 == top || top2 < top) && mean.Keys == s.id.Keys
    ensures Walked(s, s2, work, kind, mean, mean2, top)
  {
  }

  /** Canonical types stay what they are when the table grows. */
  lemma StillCheckable(s: Env, s': Env, work: set<Typespec>, kind: Kinds)
    requires Checkable(s.abs, s.id, kind, work) && Grown(s, s') && Same(s.abs, s'.abs)
    ensures Checkable(s'.abs, s'.id, kind, work)
  {
  }

  /** Overwrite the description of an object that is not canonical by one of
      the same meaning: a step that a run of the environment may take. */
  method Rewrite(env: CompilerEnv, t: Typespec, a: Typeabs, ghost kind: Kinds, ghost mean: Trees)
    requires Ready(env, kind, mean) && t in env.nodes && t.id == 0 && !t.abs.IdnT? && !a.IdnT?
    requires t in mean && Comps(a) <= mean.Keys && mean[t] == Node(MapAbs(a, mean))
    requires EditFrom(env.View().id, t.abs, a)
    modifies t`abs
    ensures t.abs == a && Ready(env, kind, mean)
    ensures Stepped(old(env.View()), EditNode(t, a), env.View())
  {
    hide CompilerEnv.Valid, EditFrom, Inv, Comps, MapAbs, AbsOf, IdsOf, Bucket, Denotes, Table.Valid, Library.Valid;
    ghost var s := env.View();
    env.AddDuEnsures();
    env.ViewIs();
    Domains(s, kind, mean);
    t.abs := a;
    EditView(env, s, t);
    DeadEditInv(s, t, a);
    DeadEditMeans(s.abs, s.id, kind, mean, t, a);
    env.Revalidate();
  }

  /** s' comes from s by that step, which s allows. */
  ghost predicate Stepped(s: Env, c: Command, s': Env) {
    Inv(s) && Enabled(s, c) && s' == Step(s, c)
  }

  lemma EditStepped(s: Env, t: Typespec, a: Typeabs, s': Env)
    requires Stepped(s, EditNode(t, a), s')
    ensures s' == s.(abs := s.abs[t := a])
  {
    hide Inv, EditFrom;
  }

  lemma EditView(env: CompilerEnv, s: Env, t: Typespec)
    requires s.abs.Keys == env.nodes && t in env.nodes && forall u :: u in env.nodes && u != t ==> u.abs == s.abs[u]
    ensures env.View().abs == s.abs[t := t.abs]
  {
  }

  lemma DeadEditMeans(abs: AbsMap, id: TypeIds, kind: Kinds, mean: Trees, t: Typespec, a: Typeabs)
    requires Denotes(abs, id, kind, mean) && t in id && id[t] == 0 && !a.IdnT?
    requires Comps(a) <= mean.Keys && mean[t] == Node(MapAbs(a, mean))
    ensures Denotes(abs[t := a], id, kind, mean)
  {
  }

  // ----- c_type -----

  /** What an identifier used as a type is described by; errors give unknown. */
  method CIdnType(i: Idn) returns (a: Typeabs)
    ensures a == match i.kind
                 case TParm(_) => IdnT(i)
                 case TConst(_) => IdnT(i)
                 case Equated(TypeX(t)) => t.abs
                 case _ => UnknownT
  {
    match i.kind {
      case TParm(_) => a := IdnT(i);
      case TConst(_) => a := IdnT(i);
      case Equated(x) =>
        match x {
          case TypeX(t) => a := t.abs;
          case _ => a := UnknownT;
        }
      case _ => a := UnknownT;
    }
  }

  /** The description a checked object ends up with: live components, and the
      meaning the object has. */
  ghost predicate Checked(s: Env, mean: Trees, t: Typespec, a: Typeabs) {
    LiveComps(s.id, a) && Comps(a) <= mean.Keys && t in mean && mean[t] == Node(MapAbs(a, mean))
  }

  /** What CType needs of the object it is given. */
  ghost predicate ToCheck(s: Env, t: Typespec, work: set<Typespec>, kind: Kinds, mean: Trees, top: Tree) {
    && Checkable(s.abs, s.id, kind, work)
    && (t in work || Live(s.id, t)) && t in mean && mean[t] < top
  }

  lemma IsPart(s: Env, work: set<Typespec>, kind: Kinds, mean: Trees, t: Typespec, c: Typespec)
    requires Denotes(s.abs, s.id, kind, mean) && Checkable(s.abs, s.id, kind, work)
    requires t in work && t in s.abs && !Live(s.id, t) && (s.abs[t].SelectT? || s.abs[t].ApplyT?)
    requires c in Comps(s.abs[t])
    ensures t in mean && c in mean && ToCheck(s, c, work, kind, mean, mean[t])
  {
    hide MapAbs, Comps;
    PartSmaller(s.abs[t], mean, c);
  }

  /** Checking a part, then rewriting the whole with what the part became. */
  lemma RewriteWalked(s: Env, s1: Env, work: set<Typespec>, kind: Kinds, mean: Trees, mean1: Trees, top: Tree,
                      t: Typespec, a: Typeabs)
    requires t in mean && Walked(s, s1, work, kind, mean, mean1, mean[t]) && mean[t] < top
    requires t in work && t in s.abs && !Live(s.id, t) && mean.Keys == s.id.Keys
    requires (a.SelectT? || a.ApplyT?) && Checkable1(a, s1.id, kind, work)
    ensures t in s1.abs && Walked(s, s1.(abs := s1.abs[t := a]), work, kind, mean, mean1, top)
  {
    hide Comps;
  }

  lemma Unmoved(s: Env, s1: Env, work: set<Typespec>, kind: Kinds, mean: Trees, mean1: Trees, t: Typespec)
    requires t in mean && Walked(s, s1, work, kind, mean, mean1, mean[t]) && t in s.id
    ensures t in s1.abs && t in s.abs && s1.abs[t] == s.abs[t] && t in s1.id && s1.id[t] == s.id[t]
    ensures t in mean1 && mean1[t] == mean[t]
  {
  }

  method CField(env: CompilerEnv, t: Typespec, k: nat,
                ghost work: set<Typespec>, ghost kind: Kinds, ghost mean: Trees, ghost top: Tree)
    returns (ft: Typespec, ghost mean': Trees)
    requires Ready(env, kind, mean) && KindsAre(kind) && ToCheck(env.View(), t, work, kind, mean, top) && t in work
    requires t.id == 0
    requires t.abs.SelectT? && k < |t.abs.fields|
    modifies env`seed, env`nodes, env.types, env.dus`Contents, env.dus.buckets, env.lib, work`abs
    ensures Ready(env, kind, mean') && Walked(old(env.View()), env.View(), work, kind, mean, mean', top)
    ensures t.abs == SelectT(old(t.abs.gen), old(t.abs.fields)[k := Field(old(t.abs.fields)[k].sel, ft)])
    ensures Live(env.View().id, ft)
    decreases top, 0
  {
    hide *;
    ghost var s := env.View();
    CheckEnsures(env, s, kind, mean, t, work, top);
    var g, fs := t.abs.gen, t.abs.fields;
    IsField(t.abs, k);
    IsPart(s, work, kind, mean, t, fs[k].typ);
    ft, mean' := CType(env, fs[k].typ, work, kind, mean, mean[t]);
    ghost var s1 := env.View();
    ReadyIs(env, kind, mean');
    Unmoved(s, s1, work, kind, mean, mean', t);
    var a := SelectT(g, fs[k := Field(fs[k].sel, ft)]);
    ReplaceField(s, s1, work, kind, mean, mean', t, k, ft);
    Rewrite(env, t, a, kind, mean');
    EditStepped(s1, t, a, env.View());
    RewriteWalked(s, s1, work, kind, mean, mean', top, t, a);
  }

  lemma IsField(a: Typeabs, k: nat)
    requires a.SelectT? && k < |a.fields|
    ensures a.fields[k].typ in Comps(a)
  {
  }

  lemma ReplaceField(s: Env, s1: Env, work: set<Typespec>, kind: Kinds, mean: Trees, mean1: Trees,
                     t: Typespec, k: nat, ft: Typespec)
    requires Denotes(s.abs, s.id, kind, mean) && Denotes(s1.abs, s1.id, kind, mean1)
    requires t in mean && Walked(s, s1, work, kind, mean, mean1, mean[t])
    requires t in work && t in s.abs && !Live(s.id, t) && s.abs[t].SelectT? && k < |s.abs[t].fields|
    requires s.abs[t].fields[k].typ in mean && ft in mean1 && Live(s1.id, ft)
    requires mean1[ft] == mean[s.abs[t].fields[k].typ]
    ensures var fs := s.abs[t].fields;
            var a := SelectT(s.abs[t].gen, fs[k := Field(fs[k].sel, ft)]);
            Comps(a) <= mean1.Keys && mean1[t] == Node(MapAbs(a, mean1)) && Checkable1(a, s1.id, kind, work) &&
              EditFrom(s1.id, s.abs[t], a)
  {
    hide *;
    NotRewritten(s, s1, work, kind, mean, mean1, t);
    var b := s1.abs[t];
    MeansItself(s1, kind, mean1, t);
    IsField(b, k);
    WalkedMeans(s, s1, work, kind, mean, mean1, mean[t], b.fields[k].typ);
    FieldMeans(b, k, ft, mean1);
    FieldCheckable(b, k, ft, s1.id, kind, work);
  }

  /** The object whose parts are being checked is not rewritten meanwhile. */
  lemma NotRewritten(s: Env, s1: Env, work: set<Typespec>, kind: Kinds, mean: Trees, mean1: Trees, t: Typespec)
    requires t in mean && Walked(s, s1, work, kind, mean, mean1, mean[t])
    requires t in work && t in s.abs && !Live(s.id, t) && (s.abs[t].SelectT? || s.abs[t].ApplyT?)
    ensures t in s1.abs && s1.abs[t] == s.abs[t] && t in mean1 && mean1[t] == mean[t]
    ensures t in s1.id && !Live(s1.id, t) && Checkable1(s1.abs[t], s1.id, kind, work)
  {
    hide Comps;
  }

  lemma WalkedMeans(s: Env, s1: Env, work: set<Typespec>, kind: Kinds, mean: Trees, mean1: Trees, top: Tree,
                    u: Typespec)
    requires Walked(s, s1, work, kind, mean, mean1, top) && u in mean
    ensures u in mean1 && mean1[u] == mean[u]
  {
  }

  lemma MeansItself(s: Env, kind: Kinds, mean: Trees, t: Typespec)
    requires Denotes(s.abs, s.id, kind, mean) && t in s.abs && !s.abs[t].IdnT?
    ensures t in mean && Comps(s.abs[t]) <= mean.Keys && mean[t] == Node(MapAbs(s.abs[t], mean))
    ensures mean.Keys == s.id.Keys
  {
    hide Comps, MapAbs;
  }

  lemma FieldMeans(a: Typeabs, k: nat, ft: Typespec, mean: Trees)
    requires a.SelectT? && k < |a.fields| && Comps(a) <= mean.Keys && a.fields[k].typ in mean
    requires ft in mean && mean[ft] == mean[a.fields[k].typ]
    ensures var a' := SelectT(a.gen, a.fields[k := Field(a.fields[k].sel, ft)]);
            Comps(a') <= mean.Keys && MapAbs(a', mean) == MapAbs(a, mean)
  {
    var fs := a.fields;
    var gs := fs[k := Field(fs[k].sel, ft)];
    assert forall i :: 0 <= i < |gs| ==> gs[i].typ == (if i == k then ft else fs[i].typ);
    assert forall i :: 0 <= i < |fs| ==> fs[i].typ in Comps(a);
    assert MapFields(gs, mean) == MapFields(fs, mean);
  }

  lemma FieldCheckable(a: Typeabs, k: nat, ft: Typespec, id: TypeIds, kind: Kinds, work: set<Typespec>)
    requires a.SelectT? && k < |a.fields| && Checkable1(a, id, kind, work) && Live(id, ft) && Comps(a) <= id.Keys
    ensures var a' := SelectT(a.gen, a.fields[k := Field(a.fields[k].sel, ft)]);
            Checkable1(a', id, kind, work) && EditFrom(id, a, a')
  {
    var gs := a.fields[k := Field(a.fields[k].sel, ft)];
    assert forall i :: 0 <= i < |gs| ==> gs[i].typ == ft || gs[i].typ in Comps(a);
  }

  lemma StillToCheck(s: Env, s1: Env, work: set<Typespec>, kind: Kinds, mean: Trees, mean1: Trees, top: Tree,
                     t: Typespec, top2: Tree)
    requires ToCheck(s, t, work, kind, mean, top2) && Walked(s, s1, work, kind, mean, mean1, top)
    ensures ToCheck(s1, t, work, kind, mean1, top2) && mean1[t] == mean[t]
    ensures (t in s.id && s.id[t] == 0 ==> t in s1.id && s1.id[t] == 0)
  {
  }

  lemma StillLive(s: Env, s1: Env, work: set<Typespec>, kind: Kinds, mean: Trees, mean1: Trees, top: Tree)
    requires Walked(s, s1, work, kind, mean, mean1, top)
    ensures Extends(mean, mean1) && forall u :: Live(s.id, u) ==> Live(s1.id, u)
  {
  }

  lemma NotWalked(s: Env, work: set<Typespec>, kind: Kinds, mean: Trees, top: Tree)
    requires Checkable(s.abs, s.id, kind, work) && s.abs.Keys == s.id.Keys
    ensures Walked(s, s, work, kind, mean, mean, top)
  {
  }

  method CFields(env: CompilerEnv, t: Typespec,
                 ghost work: set<Typespec>, ghost kind: Kinds, ghost mean: Trees, ghost top: Tree)
    returns (ghost mean': Trees)
    requires Ready(env, kind, mean) && KindsAre(kind) && ToCheck(env.View(), t, work, kind, mean, top) && t in work
    requires t.id == 0
    requires t.abs.SelectT?
    modifies env`seed, env`nodes, env.types, env.dus`Contents, env.dus.buckets, env.lib, work`abs
    ensures Ready(env, kind, mean') && Walked(old(env.View()), env.View(), work, kind, mean, mean', top)
    ensures Checked(env.View(), mean', t, t.abs) && t.abs.SelectT?
    decreases top, 1
  {
    hide *;
    ghost var s := env.View();
    CheckEnsures(env, s, kind, mean, t, work, top);
    mean' := mean;
    for k := 0 to |t.abs.fields|
      invariant Ready(env, kind, mean') && KindsAre(kind) && Walked(s, env.View(), work, kind, mean, mean', top)
      invariant t.id == 0 && t.abs.SelectT? && |t.abs.fields| == |old(t.abs.fields)|
      invariant ToCheck(env.View(), t, work, kind, mean', top)
      invariant forall j :: 0 <= j < k ==> Live(env.View().id, t.abs.fields[j].typ)
    {
      ghost var s1, mean1 := env.View(), mean';
      var ft;
      ft, mean' := CField(env, t, k, work, kind, mean', top);
      StillToCheck(s1, env.View(), work, kind, mean1, mean', top, t, top);
      StillLive(s1, env.View(), work, kind, mean1, mean', top);
      WalkedOn(s, s1, env.View(), work, kind, mean, mean1, mean', top, top);
    }
    CheckEnsures(env, env.View(), kind, mean', t, work, top);
    FieldsChecked(env.View(), kind, mean', t);
  }

  method CType(env: CompilerEnv, t: Typespec,
               ghost work: set<Typespec>, ghost kind: Kinds, ghost mean: Trees, ghost top: Tree)
    returns (r: Typespec, ghost mean': Trees)
    requires Ready(env, kind, mean) && KindsAre(kind) && ToCheck(env.View(), t, work, kind, mean, top)
    modifies env`seed, env`nodes, env.types, env.dus`Contents, env.dus.buckets, env.lib, work`abs
    ensures Ready(env, kind, mean') && Walked(old(env.View()), env.View(), work, kind, mean, mean', top)
    ensures t in mean && r in mean' && Live(env.View().id, r) && mean'[r] == mean[t]
    ensures old(t.id) != 0 ==> r == t && env.View() == old(env.View())
    ensures old(t.id) == 0 && (old(t.abs).SelectT? || old(t.abs).ApplyT?) ==>
              LiveComps(env.View().id, t.abs) && (t.abs.SelectT? || t.abs.ApplyT?)
    decreases top, 2
  {
    hide *;
    ghost var s := env.View();
    env.ViewIs();
    CheckEnsures(env, s, kind, mean, t, work, top);
    mean' := mean;
    if t.id != 0 {
      return t, mean;
    }
    var abs := t.abs;
    match abs {
      case SelectT(_, _) =>
        mean' := CFields(env, t, work, kind, mean, top);
        abs := t.abs;
      case ApplyT(_, _, _, _) =>
        mean' := CRoutine(env, t, work, kind, mean, top);
        abs := t.abs;
      case IdnT(i) =>
        abs := CIdnType(i);
        IdnChecked(env, s, work, kind, mean, top, t, i, abs);
      case _ =>
        OtherChecked(s, work, kind, mean, top, t);
    }
    ghost var a := t.abs;
    r, mean' := Finish(env, t, abs, work, kind, mean, mean', top, s);
    assert t.abs == a;
  }

  // ----- the three lists of a routine type -----

  /** List p of a routine type: arguments, results, or signal p - 2. */
  function Part(a: Typeabs, p: nat): seq<Typespec>
    requires a.ApplyT? && p < 2 + |a.sigs|
  {
    if p == 0 then a.args else if p == 1 then a.vals else a.sigs[p - 2].types
  }

  function WithPart(a: Typeabs, p: nat, ts: seq<Typespec>): Typeabs
    requires a.ApplyT? && p < 2 + |a.sigs|
  {
    if p == 0 then a.(args := ts)
    else if p == 1 then a.(vals := ts)
    else a.(sigs := a.sigs[p - 2 := a.sigs[p - 2].(types := ts)])
  }

  lemma IsInPart(a: Typeabs, p: nat)
    requires a.ApplyT? && p < 2 + |a.sigs|
    ensures forall c :: c in Part(a, p) ==> c in Comps(a)
  {
  }

  lemma PartsAreAll(a: Typeabs, c: Typespec)
    requires a.ApplyT? && c in Comps(a)
    ensures exists p: nat :: p < 2 + |a.sigs| && c in Part(a, p)
  {
    if c in Elems(a.args) {
      assert c in Part(a, 0);
    } else if c in Elems(a.vals) {
      assert c in Part(a, 1);
    } else {
      var i :| 0 <= i < |a.sigs| && c in a.sigs[i].types;
      assert c in Part(a, i + 2);
    }
  }

  lemma WithPartKeeps(a: Typeabs, p: nat, ts: seq<Typespec>, q: nat)
    requires a.ApplyT? && p < 2 + |a.sigs| && q < 2 + |a.sigs|
    ensures WithPart(a, p, ts).ApplyT? && |WithPart(a, p, ts).sigs| == |a.sigs|
    ensures Part(WithPart(a, p, ts), q) == if q == p then ts else Part(a, q)
  {
  }

  lemma WithPartComps(a: Typeabs, p: nat, ts: seq<Typespec>)
    requires a.ApplyT? && p < 2 + |a.sigs|
    ensures Comps(WithPart(a, p, ts)) <= Comps(a) + Elems(ts)
  {
  }

  /** Replacing a list by one of the same meaning keeps the whole meaning. */
  lemma WithPartMeans(a: Typeabs, p: nat, ts: seq<Typespec>, mean: Trees)
    requires a.ApplyT? && p < 2 + |a.sigs| && Comps(a) + Elems(ts) <= mean.Keys
    requires |ts| == |Part(a, p)|
    requires forall i :: 0 <= i < |ts| ==> Part(a, p)[i] in mean && ts[i] in mean && mean[ts[i]] == mean[Part(a, p)[i]]
    ensures Comps(WithPart(a, p, ts)) <= mean.Keys
    ensures MapAbs(WithPart(a, p, ts), mean) == MapAbs(a, mean)
  {
    WithPartComps(a, p, ts);
    IsInPart(a, p);
    assert MapSeq(ts, mean) == MapSeq(Part(a, p), mean);
    if p >= 2 {
      var b := WithPart(a, p, ts);
      assert MapSigs(b.sigs, mean) == MapSigs(a.sigs, mean);
    }
  }

  // ----- c_typelist -----

  method CTypeList(env: CompilerEnv, types: seq<Typespec>,
                   ghost work: set<Typespec>, ghost kind: Kinds, ghost mean: Trees, ghost top: Tree)
    returns (ntypes: seq<Typespec>, ghost mean': Trees)
    requires Ready(env, kind, mean) && KindsAre(kind) && Checkable(env.View().abs, env.View().id, kind, work)
    requires forall c :: c in types ==> ToCheck(env.View(), c, work, kind, mean, top)
    modifies env`seed, env`nodes, env.types, env.dus`Contents, env.dus.buckets, env.lib, work`abs
    ensures Ready(env, kind, mean') && Walked(old(env.View()), env.View(), work, kind, mean, mean', top)
    ensures |ntypes| == |types|
    ensures forall i :: 0 <= i < |types| ==>
              Live(env.View().id, ntypes[i]) && types[i] in mean && ntypes[i] in mean' &&
                mean'[ntypes[i]] == mean[types[i]]
    decreases top, 3
  {
    hide *;
    ghost var s := env.View();
    ListEnsures(env, kind, mean, work, top, types);
    mean' := mean;
    ntypes := [];
    for k := 0 to |types|
      invariant Ready(env, kind, mean') && KindsAre(kind) && Walked(s, env.View(), work, kind, mean, mean', top)
      invariant |ntypes| == k && forall c :: c in types ==> ToCheck(env.View(), c, work, kind, mean', top)
      invariant forall i :: 0 <= i < k ==>
                  Live(env.View().id, ntypes[i]) && types[i] in mean && ntypes[i] in mean' &&
                    mean'[ntypes[i]] == mean[types[i]]
    {
      ghost var s1, mean1 := env.View(), mean';
      var nt;
      nt, mean' := CType(env, types[k], work, kind, mean', top);
      ntypes := ntypes + [nt];
      NextInList(env, s, s1, types, ntypes, work, kind, mean, mean1, mean', top);
    }
  }

  // ----- c_type of a routine type -----

  method CPart(env: CompilerEnv, t: Typespec, p: nat,
               ghost work: set<Typespec>, ghost kind: Kinds, ghost mean: Trees, ghost top: Tree)
    returns (ntypes: seq<Typespec>, ghost mean': Trees)
    requires Ready(env, kind, mean) && KindsAre(kind) && ToCheck(env.View(), t, work, kind, mean, top) && t in work
    requires t.id == 0
    requires t.abs.ApplyT? && p < 2 + |t.abs.sigs|
    modifies env`seed, env`nodes, env.types, env.dus`Contents, env.dus.buckets, env.lib, work`abs
    ensures Ready(env, kind, mean') && Walked(old(env.View()), env.View(), work, kind, mean, mean', top)
    ensures t.abs == WithPart(old(t.abs), p, ntypes)
    ensures forall c :: c in ntypes ==> Live(env.View().id, c)
    decreases top, 0
  {
    hide *;
    ghost var s := env.View();
    CheckEnsures(env, s, kind, mean, t, work, top);
    var a := t.abs;
    PartToCheck(s, work, kind, mean, t, p);
    ntypes, mean' := CTypeList(env, Part(a, p), work, kind, mean, mean[t]);
    ghost var s1 := env.View();
    ReadyIs(env, kind, mean');
    Unmoved(s, s1, work, kind, mean, mean', t);
    ReplacePart(s, s1, work, kind, mean, mean', t, p, ntypes);
    Rewrite(env, t, WithPart(a, p, ntypes), kind, mean');
    EditStepped(s1, t, WithPart(a, p, ntypes), env.View());
    RewriteWalked(s, s1, work, kind, mean, mean', top, t, WithPart(a, p, ntypes));
  }

  method CRoutine(env: CompilerEnv, t: Typespec,
                  ghost work: set<Typespec>, ghost kind: Kinds, ghost mean: Trees, ghost top: Tree)
    returns (ghost mean': Trees)
    requires Ready(env, kind, mean) && KindsAre(kind) && ToCheck(env.View(), t, work, kind, mean, top) && t in work
    requires t.id == 0
    requires t.abs.ApplyT?
    modifies env`seed, env`nodes, env.types, env.dus`Contents, env.dus.buckets, env.lib, work`abs
    ensures Ready(env, kind, mean') && Walked(old(env.View()), env.View(), work, kind, mean, mean', top)
    ensures Checked(env.View(), mean', t, t.abs) && t.abs.ApplyT?
    decreases top, 1
  {
    hide *;
    ghost var s := env.View();
    CheckEnsures(env, s, kind, mean, t, work, top);
    NonePartsLive(s.id, t.abs);
    mean' := mean;
    for p := 0 to 2 + |t.abs.sigs|
      invariant Ready(env, kind, mean') && KindsAre(kind) && Walked(s, env.View(), work, kind, mean, mean', top)
      invariant t.id == 0 && t.abs.ApplyT? && |t.abs.sigs| == |old(t.abs.sigs)|
      invariant ToCheck(env.View(), t, work, kind, mean', top)
      invariant PartsLive(env.View().id, t.abs, p)
    {
      ghost var s1, mean1, a := env.View(), mean', t.abs;
      var nts;
      nts, mean' := CPart(env, t, p, work, kind, mean', top);
      StillToCheck(s1, env.View(), work, kind, mean1, mean', top, t, top);
      PartDone(s1, env.View(), work, kind, mean1, mean', top, a, p, nts);
      WalkedOn(s, s1, env.View(), work, kind, mean, mean1, mean', top, top);
    }
    CheckEnsures(env, env.View(), kind, mean', t, work, top);
    PartsChecked(env.View(), kind, mean', t);
  }

  /** The lists below p of a routine type are canonical. */
  ghost predicate PartsLive(id: TypeIds, a: Typeabs, p: int)
    requires a.ApplyT? && p <= 2 + |a.sigs|
  {
    forall q: nat, c :: q < p && c in Part(a, q) ==> Live(id, c)
  }

  lemma NonePartsLive(id: TypeIds, a: Typeabs)
    requires a.ApplyT?
    ensures PartsLive(id, a, 0)
  {
  }

  lemma CheckedIs(s: Env, mean: Trees, t: Typespec, a: Typeabs)
    requires Checked(s, mean, t, a)
    ensures LiveComps(s.id, a) && Comps(a) <= mean.Keys && t in mean && mean[t] == Node(MapAbs(a, mean))
  {
  }

  method Finish(env: CompilerEnv, t: Typespec, a: Typeabs,
                ghost work: set<Typespec>, ghost kind: Kinds, ghost mean: Trees, ghost mean1: Trees,
                ghost top: Tree, ghost s: Env)
    returns (r: Typespec, ghost mean': Trees)
    requires Ready(env, kind, mean1) && Walked(s, env.View(), work, kind, mean, mean1, top) && mean.Keys == s.id.Keys
    requires Checked(env.View(), mean1, t, a) && t in mean
    modifies env`seed, env`nodes, env.types, env.dus`Contents, env.dus.buckets, env.lib
    ensures Ready(env, kind, mean') && Walked(s, env.View(), work, kind, mean, mean', top)
    ensures r in mean' && Live(env.View().id, r) && mean'[r] == mean[t] && LiveComps(env.View().id, a)
  {
    hide *;
    ghost var s1 := env.View();
    CheckedIs(s1, mean1, t, a);
    r, mean' := MakeType(env, a, kind, mean1);
    MadeWalked(s, s1, env.View(), work, kind, mean, mean1, mean', top, t);
  }

  lemma MadeWalked(s: Env, s1: Env, s2: Env, work: set<Typespec>, kind: Kinds,
                   mean: Trees, mean1: Trees, mean2: Trees, top: Tree, t: Typespec)
    requires Walked(s, s1, work, kind, mean, mean1, top) && mean.Keys == s.id.Keys && t in mean
    requires Extends(mean1, mean2) && Grown(s1, s2) && Same(s1.abs, s2.abs)
    ensures Walked(s, s2, work, kind, mean, mean2, top) && t in mean1 && mean1[t] == mean[t] == mean2[t]
    ensures forall a :: LiveComps(s1.id, a) ==> LiveComps(s2.id, a)
  {
    hide Checkable;
    StillCheckable(s1, s2, work, kind);
  }

  lemma CheckEnsures(env: CompilerEnv, s: Env, kind: Kinds, mean: Trees, t: Typespec, work: set<Typespec>, top: Tree)
    requires s == env.View() && Ready(env, kind, mean) && ToCheck(s, t, work, kind, mean, top)
    ensures Denotes(s.abs, s.id, kind, mean) && Walked(s, s, work, kind, mean, mean, top)
    ensures t.id != 0 <==> Live(s.id, t)
    ensures t.id == 0 ==> t in work
    ensures mean[t] < top
    ensures mean.Keys == s.id.Keys == s.abs.Keys == env.nodes && t in env.nodes
    ensures s.abs[t] == t.abs && s.id[t] == t.id
  {
    env.ViewIs();
    NotWalked(s, work, kind, mean, top);
  }

  lemma IdnChecked(env: CompilerEnv, s: Env, work: set<Typespec>, kind: Kinds, mean: Trees, top: Tree,
                   t: Typespec, i: Idn, a: Typeabs)
    requires s == env.View() && Ready(env, kind, mean) && ToCheck(s, t, work, kind, mean, top) && KindsAre(kind)
    requires t in work && t in s.abs && t in s.id && s.id[t] == 0 && s.abs[t] == IdnT(i)
    requires a == match i.kind
                  case TParm(_) => IdnT(i)
                  case TConst(_) => IdnT(i)
                  case Equated(TypeX(u)) => u.abs
                  case _ => UnknownT
    ensures Checked(s, mean, t, a)
  {
    hide Inv, MapAbs, Bucket;
    ReadyIs(env, kind, mean);
    match i.kind
    case Equated(TypeX(u)) => LiveHasLiveComps(s, u);
    case _ => NoParts(mean, i);
  }

  lemma NoParts(mean: Trees, i: Idn)
    ensures Comps<Du, Typespec>(IdnT(i)) == {} && MapAbs<Typespec, Tree>(IdnT(i), mean) == IdnT(i)
    ensures Comps<Du, Typespec>(UnknownT) == {} && MapAbs<Typespec, Tree>(UnknownT, mean) == UnknownT
  {
  }

  lemma OtherChecked(s: Env, work: set<Typespec>, kind: Kinds, mean: Trees, top: Tree, t: Typespec)
    requires Denotes(s.abs, s.id, kind, mean) && ToCheck(s, t, work, kind, mean, top)
    requires t in work && t in s.abs && t in s.id && s.id[t] == 0
    requires !s.abs[t].IdnT? && !s.abs[t].SelectT? && !s.abs[t].ApplyT?
    ensures Checked(s, mean, t, s.abs[t])
  {
  }

  lemma FieldsChecked(s: Env, kind: Kinds, mean: Trees, t: Typespec)
    requires Denotes(s.abs, s.id, kind, mean) && t in s.abs && s.id[t] == 0 && s.abs[t].SelectT?
    requires forall j :: 0 <= j < |s.abs[t].fields| ==> Live(s.id, s.abs[t].fields[j].typ)
    ensures Checked(s, mean, t, s.abs[t])
  {
  }

  lemma ReadyIs(env: CompilerEnv, kind: Kinds, mean: Trees)
    requires Ready(env, kind, mean)
    ensures Denotes(env.View().abs, env.View().id, kind, mean) && Inv(env.View())
    ensures env.View().id.Keys == env.nodes && forall u :: u in env.nodes ==> env.View().id[u] == u.id
    ensures env.View().abs.Keys == env.nodes && forall u :: u in env.nodes ==> env.View().abs[u] == u.abs
  {
    hide Inv, Denotes, AbsOf, IdsOf, Table.Valid, Library.Valid;
    env.ViewIs();
  }

  lemma ListEnsures(env: CompilerEnv, kind: Kinds, mean: Trees, work: set<Typespec>, top: Tree, types: seq<Typespec>)
    requires Ready(env, kind, mean) && Checkable(env.View().abs, env.View().id, kind, work)
    requires forall c :: c in types ==> ToCheck(env.View(), c, work, kind, mean, top)
    ensures forall c :: c in types ==> c in mean
    ensures Walked(env.View(), env.View(), work, kind, mean, mean, top) && mean.Keys == env.View().id.Keys
  {
  }

  lemma NextInList(env: CompilerEnv, s: Env, s1: Env, types: seq<Typespec>, ntypes: seq<Typespec>,
                   work: set<Typespec>, kind: Kinds, mean: Trees, mean1: Trees, mean2: Trees, top: Tree)
    requires Walked(s, s1, work, kind, mean, mean1, top) && Walked(s1, env.View(), work, kind, mean1, mean2, top)
    requires mean.Keys == s.id.Keys && 0 < |ntypes| <= |types|
    requires forall c :: c in types ==> ToCheck(s1, c, work, kind, mean1, top)
    requires forall i :: 0 <= i < |ntypes| - 1 ==>
               Live(s1.id, ntypes[i]) && types[i] in mean && ntypes[i] in mean1 && mean1[ntypes[i]] == mean[types[i]]
    requires var i := |ntypes| - 1;
             Live(env.View().id, ntypes[i]) && types[i] in mean1 && ntypes[i] in mean2 &&
               mean2[ntypes[i]] == mean1[types[i]]
    requires forall c :: c in types ==> c in mean
    ensures Walked(s, env.View(), work, kind, mean, mean2, top)
    ensures forall c :: c in types ==> ToCheck(env.View(), c, work, kind, mean2, top)
    ensures forall i :: 0 <= i < |ntypes| ==>
              Live(env.View().id, ntypes[i]) && types[i] in mean && ntypes[i] in mean2 &&
                mean2[ntypes[i]] == mean[types[i]]
  {
    hide Checkable, CompilerEnv.View;
    WalkedOn(s, s1, env.View(), work, kind, mean, mean1, mean2, top, top);
  }

  lemma PartToCheck(s: Env, work: set<Typespec>, kind: Kinds, mean: Trees, t: Typespec, p: nat)
    requires Denotes(s.abs, s.id, kind, mean) && Checkable(s.abs, s.id, kind, work)
    requires t in work && t in s.abs && !Live(s.id, t) && s.abs[t].ApplyT? && p < 2 + |s.abs[t].sigs|
    ensures t in mean && forall c :: c in Part(s.abs[t], p) ==> ToCheck(s, c, work, kind, mean, mean[t])
  {
  }

  lemma ReplacePart(s: Env, s1: Env, work: set<Typespec>, kind: Kinds, mean: Trees, mean1: Trees,
                    t: Typespec, p: nat, ts: seq<Typespec>)
    requires Denotes(s.abs, s.id, kind, mean) && Denotes(s1.abs, s1.id, kind, mean1)
    requires t in mean && Walked(s, s1, work, kind, mean, mean1, mean[t])
    requires t in work && t in s.abs && !Live(s.id, t) && s.abs[t].ApplyT? && p < 2 + |s.abs[t].sigs|
    requires |ts| == |Part(s.abs[t], p)|
    requires forall i :: 0 <= i < |ts| ==>
               Live(s1.id, ts[i]) && Part(s.abs[t], p)[i] in mean && ts[i] in mean1 &&
                 mean1[ts[i]] == mean[Part(s.abs[t], p)[i]]
    ensures var a := WithPart(s.abs[t], p, ts);
            a.ApplyT? && Comps(a) <= mean1.Keys && mean1[t] == Node(MapAbs(a, mean1)) &&
              Checkable1(a, s1.id, kind, work) && EditFrom(s1.id, s.abs[t], a)
  {
    hide *;
    NotRewritten(s, s1, work, kind, mean, mean1, t);
    MeansItself(s1, kind, mean1, t);
    var b := s1.abs[t];
    PartsIn(b, p, ts, mean1);
    forall i | 0 <= i < |ts| ensures mean1[ts[i]] == mean1[Part(b, p)[i]] {
      WalkedMeans(s, s1, work, kind, mean, mean1, mean[t], Part(b, p)[i]);
    }
    WithPartMeans(b, p, ts, mean1);
    PartCheckable(b, p, ts, s1.id, kind, work);
  }

  lemma PartsIn(a: Typeabs, p: nat, ts: seq<Typespec>, mean: Trees)
    requires a.ApplyT? && p < 2 + |a.sigs| && Comps(a) <= mean.Keys
    requires forall i :: 0 <= i < |ts| ==> ts[i] in mean
    ensures forall i :: 0 <= i < |Part(a, p)| ==> Part(a, p)[i] in mean
    ensures Comps(a) + Elems(ts) <= mean.Keys
  {
    hide Comps, Part;
    IsInPart(a, p);
  }

  lemma PartCheckable(a: Typeabs, p: nat, ts: seq<Typespec>, id: TypeIds, kind: Kinds, work: set<Typespec>)
    requires a.ApplyT? && p < 2 + |a.sigs| && |ts| == |Part(a, p)| && Checkable1(a, id, kind, work)
    requires Comps(a) <= id.Keys && forall i :: 0 <= i < |ts| ==> Live(id, ts[i])
    ensures WithPart(a, p, ts).ApplyT? && Checkable1(WithPart(a, p, ts), id, kind, work)
    ensures EditFrom(id, a, WithPart(a, p, ts))
  {
    hide Comps, Part, WithPart;
    assert forall c :: c in Elems(ts) ==> Live(id, c);
    WithPartComps(a, p, ts);
    WithPartKeeps(a, p, ts, p);
  }

  lemma PartDone(s1: Env, s2: Env, work: set<Typespec>, kind: Kinds, mean1: Trees, mean2: Trees, top: Tree,
                 a: Typeabs, p: nat, ts: seq<Typespec>)
    requires Walked(s1, s2, work, kind, mean1, mean2, top)
    requires a.ApplyT? && p < 2 + |a.sigs| && PartsLive(s1.id, a, p) && forall c :: c in ts ==> Live(s2.id, c)
    ensures var b := WithPart(a, p, ts); b.ApplyT? && |b.sigs| == |a.sigs| && PartsLive(s2.id, b, p + 1)
  {
    hide Part, WithPart;
    var b := WithPart(a, p, ts);
    StillLive(s1, s2, work, kind, mean1, mean2, top);
    WithPartKeeps(a, p, ts, p);
    forall q: nat, c | q < p + 1 && c in Part(b, q) ensures Live(s2.id, c) {
      WithPartKeeps(a, p, ts, q);
    }
  }

  lemma PartsChecked(s: Env, kind: Kinds, mean: Trees, t: Typespec)
    requires Denotes(s.abs, s.id, kind, mean) && t in s.abs && s.id[t] == 0 && s.abs[t].ApplyT?
    requires PartsLive(s.id, s.abs[t], 2 + |s.abs[t].sigs|)
    ensures Checked(s, mean, t, s.abs[t])
  {
    hide MapAbs, Comps, Part;
    forall c | c in Comps(s.abs[t]) ensures Live(s.id, c) {
      PartsAreAll(s.abs[t], c);
    }
  }

  // ----- canonicalisation is exact -----

  lemma Bigger(x: Tree)
    ensures x < Node(OtherReturn(x))
  {
  }

  /** c_type as its callers use it: the answer is canonical and means what the
      tree means; asked for a canonical type it answers that type. */
  method CheckType(env: CompilerEnv, t: Typespec, ghost work: set<Typespec>, ghost kind: Kinds, ghost mean: Trees)
    returns (r: Typespec, ghost mean': Trees)
    requires Ready(env, kind, mean) && KindsAre(kind) && Checkable(env.View().abs, env.View().id, kind, work)
    requires (t in work || Live(env.View().id, t)) && t in mean
    modifies env`seed, env`nodes, env.types, env.dus`Contents, env.dus.buckets, env.lib, work`abs
    ensures Ready(env, kind, mean') && Checkable(env.View().abs, env.View().id, kind, work)
    ensures Extends(mean, mean') && Grown(old(env.View()), env.View())
    ensures r.id != 0 && Live(env.View().id, r) && r in mean' && mean'[r] == mean[t]
    ensures old(t.id) != 0 ==> r == t && env.View() == old(env.View())
    ensures old(t.id) == 0 && old(t.abs).IdnT? ==>
              var k := old(t.abs).idn.kind;
              && (k.TParm? || k.TConst? ==> r.abs == old(t.abs))
              && (k.Equated? && k.x.TypeX? ==> r == k.x.typ)
              && (!k.TParm? && !k.TConst? && !(k.Equated? && k.x.TypeX?) ==> r.abs == UnknownT)
    ensures old(t.id) == 0 && (old(t.abs).SelectT? || old(t.abs).ApplyT?) ==>
              && LiveComps(env.View().id, t.abs) && t.abs.HasGen() && r.abs.HasGen()
              && t.abs.Gen().unique == r.abs.Gen().unique && t.abs.WithGen(r.abs.Gen()) == r.abs
  {
    hide *;
    ghost var s, a := env.View(), t.abs;
    ghost var top := Node(OtherReturn(mean[t]));
    Bigger(mean[t]);
    CheckStarts(s, t, work, kind, mean, top);
    CheckEnsures(env, s, kind, mean, t, work, top);
    r, mean' := CType(env, t, work, kind, mean, top);
    CheckEnds(env, s, r, work, kind, mean, mean', top);
    if s.id[t] == 0 {
      if a.IdnT? { IdnAnswer(env, s, work, kind, mean, mean', t, r); }
      if a.SelectT? || a.ApplyT? { PartsAnswer(env, s, work, kind, mean, mean', t, r, top); }
    }
  }

  /** What c_type answers for an identifier. */
  lemma IdnAnswer(env: CompilerEnv, s: Env, work: set<Typespec>, kind: Kinds, mean: Trees, mean': Trees, t: Typespec,
                  r: Typespec)
    requires Denotes(s.abs, s.id, kind, mean) && Checkable(s.abs, s.id, kind, work) && KindsAre(kind)
    requires t in work && t in s.abs && t in s.id && t in mean && s.id[t] == 0 && s.abs[t].IdnT?
    requires Ready(env, kind, mean') && Grown(s, env.View()) && Extends(mean, mean')
    requires Live(env.View().id, r) && r in mean' && mean'[r] == mean[t]
    ensures var k := s.abs[t].idn.kind;
            && (k.TParm? || k.TConst? ==> r.abs == s.abs[t])
            && (k.Equated? && k.x.TypeX? ==> r == k.x.typ)
            && (!k.TParm? && !k.TConst? && !(k.Equated? && k.x.TypeX?) ==> r.abs == UnknownT)
  {
    hide Inv, MapAbs, Comps, CompilerEnv.Valid, Live, LiveComps, Denotes, Checkable, Grown, Extends, Ready, KindsAre;
    var s' := env.View();
    ReadyIs(env, kind, mean');
    LiveKnown(s', r);
    IdnMeans(s, work, kind, mean, t);
    var i, k := s.abs[t].idn, s.abs[t].idn.kind;
    if k.Equated? && k.x.TypeX? {
      StaysLive(s, s', k.x.typ);
      InMeaning(mean, mean', k.x.typ);
      SameTypeIffSameTree(s', kind, mean', r, k.x.typ);
    } else {
      var a := if k.TParm? || k.TConst? then s.abs[t] else UnknownT;
      NoParts(mean', i);
      NoLiveParts(s'.id);
      TreeTellsDesc(s', kind, mean', r, a);
    }
  }

  /** What an identifier that is still to be checked means. */
  lemma IdnMeans(s: Env, work: set<Typespec>, kind: Kinds, mean: Trees, t: Typespec)
    requires Denotes(s.abs, s.id, kind, mean) && Checkable(s.abs, s.id, kind, work) && KindsAre(kind)
    requires t in work && t in s.abs && t in s.id && t in mean && s.id[t] == 0 && s.abs[t].IdnT?
    ensures s.abs[t] == IdnT(s.abs[t].idn) && mean.Keys == s.id.Keys
    ensures var k := s.abs[t].idn.kind;
            if k.Equated? && k.x.TypeX? then Live(s.id, k.x.typ) && k.x.typ in mean && mean[t] == mean[k.x.typ]
            else mean[t] == Node(if k.TParm? || k.TConst? then IdnT(s.abs[t].idn) else UnknownT)
  {
    hide MapAbs;
    assert Checkable1(s.abs[t], s.id, kind, work);
  }

  lemma NoLiveParts(id: TypeIds)
    ensures LiveComps(id, UnknownT) && forall i: Idn :: LiveComps(id, IdnT(i))
  {
  }

  /** And for a type whose parts it has made canonical. */
  lemma PartsAnswer(env: CompilerEnv, s: Env, work: set<Typespec>, kind: Kinds, mean: Trees, mean': Trees, t: Typespec,
                    r: Typespec, top: Tree)
    requires Denotes(s.abs, s.id, kind, mean) && Ready(env, kind, mean') && Extends(mean, mean')
    requires t in mean && Live(env.View().id, r) && r in mean' && mean'[r] == mean[t]
    requires t.id == 0 && (t.abs.SelectT? || t.abs.ApplyT?) && LiveComps(env.View().id, t.abs)
    ensures t.abs.HasGen() && r.abs.HasGen()
    ensures t.abs.Gen().unique == r.abs.Gen().unique && t.abs.WithGen(r.abs.Gen()) == r.abs
  {
    hide Inv, MapAbs, Comps, CompilerEnv.Valid, Live, LiveComps;
    ReadyIs(env, kind, mean');
    InMeaning(mean, mean', t);
    LiveKnown(env.View(), r);
    MeansItself(env.View(), kind, mean', t);
    TreeTellsDesc(env.View(), kind, mean', r, t.abs);
  }

  lemma CheckStarts(s: Env, t: Typespec, work: set<Typespec>, kind: Kinds, mean: Trees, top: Tree)
    requires Checkable(s.abs, s.id, kind, work) && (t in work || Live(s.id, t)) && t in mean && mean[t] < top
    ensures ToCheck(s, t, work, kind, mean, top)
  {
  }

  lemma CheckEnds(env: CompilerEnv, s: Env, r: Typespec, work: set<Typespec>, kind: Kinds, mean: Trees, mean': Trees,
                  top: Tree)
    requires Walked(s, env.View(), work, kind, mean, mean', top) && Live(env.View().id, r) && Ready(env, kind, mean')
    ensures Checkable(env.View().abs, env.View().id, kind, work) && Extends(mean, mean') && Grown(s, env.View())
    ensures r.id != 0
  {
    hide Inv, Denotes, Checkable, MapAbs, Comps;
    ReadyIs(env, kind, mean');
  }

  /** Two trees get the same canonical type exactly when they mean the same. */
  method CheckTwo(env: CompilerEnv, t: Typespec, u: Typespec, ghost work: set<Typespec>, ghost kind: Kinds,
                  ghost mean: Trees)
    returns (r: Typespec, q: Typespec)
    requires Ready(env, kind, mean) && KindsAre(kind) && Checkable(env.View().abs, env.View().id, kind, work)
    requires t in work && u in work && t in mean && u in mean
    modifies env`seed, env`nodes, env.types, env.dus`Contents, env.dus.buckets, env.lib, work`abs
    ensures r == q <==> mean[t] == mean[u]
  {
    hide *;
    ghost var mean1, mean2;
    r, mean1 := CheckType(env, t, work, kind, mean);
    ghost var s1 := env.View();
    InMeaning(mean, mean1, u);
    q, mean2 := CheckType(env, u, work, kind, mean1);
    ReadyIs(env, kind, mean2);
    StaysLive(s1, env.View(), r);
    InMeaning(mean1, mean2, r);
    SameTypeIffSameTree(env.View(), kind, mean2, r, q);
  }

  lemma InMeaning(mean: Trees, mean': Trees, t: Typespec)
    requires Extends(mean, mean') && t in mean
    ensures t in mean' && mean'[t] == mean[t]
  {
  }

  lemma StaysLive(s: Env, s': Env, r: Typespec)
    requires Grown(s, s') && Live(s.id, r)
    ensures Live(s'.id, r)
  {
  }

  /** When declarations have changed what identifiers stand for, every object
      has a meaning again, and canonical ones the meaning they had. */
  lemma ReadyAgain(env: CompilerEnv, kind: Kinds, mean: Trees, kind': Kinds) returns (mean': Trees)
    requires Ready(env, kind, mean) && EquatesLive(env.View().id, kind')
    ensures Ready(env, kind', mean') && LiveAgree(env.View().id, mean, mean')
  {
    hide *;
    ReadyIs(env, kind, mean);
    mean' := LookedDenotes(env.View(), kind, mean, kind');
    ReadyFor(env, kind, mean, kind', mean');
  }

  lemma ReadyFor(env: CompilerEnv, kind: Kinds, mean: Trees, kind': Kinds, mean': Trees)
    requires Ready(env, kind, mean) && Denotes(env.View().abs, env.View().id, kind', mean')
    ensures Ready(env, kind', mean')
  {
    hide Inv, CompilerEnv.Valid, MapAbs, Comps;
  }

  /** A newly created environment has trees to start from. */
  lemma CreatedMeans(env: CompilerEnv) returns (tree: Trees)
    requires env.Valid() && env.Created()
    ensures PlainTrees(env.View().abs, env.View().id, tree)
  {
    hide Inv, MapAbs, Comps;
    env.ViewIs();
    env.SoundInv();
    var s := env.View();
    InvSized(s);
    assert forall t :: t in s.abs ==> exists k :: 0 <= k < 10 && env.basics[k] == t;
    tree := map t | t in s.abs && Comps(s.abs[t]) == {} :: Node(MapAbs<Typespec, Tree>(s.abs[t], map[]));
    forall t | t in s.abs ensures tree[t] == Node(MapAbs(s.abs[t], tree)) {
      MapAgree(s.abs[t], map[], tree);
    }
  }
}
