/** What a type object means: the type tree it stands for. Objects, ids and
    hash buckets are only representation; a tree is the type itself. */
module Meaning {
  import opened Syntax
  import opened Shapes
  import opened Placement
  import opened TypeEnv
  import opened TypeRuns

  type Trees = map<Typespec, Tree>

  /** What an identifier used as a type stands for: a type parameter for
      itself, an equated one for its type, anything else is an error. */
  ghost function StandsFor(i: Idn, k: IdnKind, mean: Trees): Tree {
    match k
    case TParm(_) => Node(IdnT(i))
    case TConst(_) => Node(IdnT(i))
    case Equated(TypeX(t)) => if t in mean then mean[t] else Node(UnknownT)
    case _ => Node(UnknownT)
  }

  /** The tree of an object with description a and id n, given the trees of its
      components. Only an object not yet canonical (id 0) may mention an
      identifier that has to be looked through. */
  ghost function Denoted(a: Typeabs, n: int, kind: Kinds, mean: Trees): Tree
    requires Comps(a) <= mean.Keys
  {
    if n == 0 && a.IdnT? && a.idn in kind then StandsFor(a.idn, kind[a.idn], mean)
    else Node(MapAbs(a, mean))
  }

  /** mean tells the tree of every known object; that there is such a map says
      that no object is a part of itself. */
  ghost predicate Denotes(abs: AbsMap, id: TypeIds, kind: Kinds, mean: Trees) {
    && Closed(abs, id) && mean.Keys == id.Keys
    && (forall i :: i in kind ==> match kind[i] case Equated(TypeX(t)) => t in mean case _ => true)
    && (forall t :: t in abs ==> mean[t] == Denoted(abs[t], id[t], kind, mean))
  }

  ghost predicate Extends(mean: Trees, mean': Trees) {
    mean.Keys <= mean'.Keys && forall t :: t in mean ==> mean'[t] == mean[t]
  }

  // ----- parts are smaller than the whole -----

  lemma PartSmaller(a: Typeabs, mean: Trees, c: Typespec)
    requires Comps(a) <= mean.Keys && c in Comps(a)
    ensures mean[c] < Node(MapAbs(a, mean))
  {
  }

  // ----- canonical objects and trees -----

  /** Two live objects are one object exactly when they mean the same tree. */
  lemma {:induction false} SameTypeIffSameTree(s: Env, kind: Kinds, mean: Trees, t: Typespec, u: Typespec)
    requires Inv(s) && Denotes(s.abs, s.id, kind, mean) && Live(s.id, t) && Live(s.id, u)
    ensures t == u <==> mean[t] == mean[u]
    decreases s.id[t]
  {
    hide MapAbs, Comps, Bucket, Placed;
    if mean[t] == mean[u] {
      var a, b := s.abs[t], s.abs[u];
      assert MapAbs(a, mean) == MapAbs(b, mean);
      forall x, y | x in Comps(a) && y in Comps(b) && mean[x] == mean[y] ensures s.id[x] == s.id[y] {
        assert x in Uses(s.abs)[t] && y in Uses(s.abs)[u];
        SameTypeIffSameTree(s, kind, mean, x, y);
      }
      MapFactor(a, b, mean, s.id);
      assert Descs(s.abs, s.id)[t] == Descs(s.abs, s.id)[u];
    }
  }

  /** A live type that stands for what a description of live components does has
      that very description, but for the unit object of its generator. */
  lemma TreeTellsDesc(s: Env, kind: Kinds, mean: Trees, r: Typespec, a: Typeabs)
    requires Inv(s) && Denotes(s.abs, s.id, kind, mean) && Live(s.id, r) && LiveComps(s.id, a)
    requires Comps(a) <= mean.Keys && mean[r] == Node(MapAbs(a, mean))
    ensures r in s.abs
    ensures if a.HasGen()
            then s.abs[r].HasGen() && a.Gen().unique == s.abs[r].Gen().unique && a.WithGen(s.abs[r].Gen()) == s.abs[r]
            else s.abs[r] == a
  {
    hide MapAbs, Comps, Bucket, Placed, Canonical, Abs.HasGen, Abs.Gen, Abs.WithGen;
    LiveHasLiveComps(s, r);
    var b := s.abs[r];
    forall x, y | x in Comps(a) && y in Comps(b) && mean[x] == mean[y] ensures s.id[x] == s.id[y] {
      SameTypeIffSameTree(s, kind, mean, x, y);
    }
    MapFactor(a, b, mean, s.id);
    SimilarIffSameRefs(s.id, s.next, s.keep, a, b);
  }

  /** A live object similar to a description means what the description does. */
  lemma FoundMeans(s: Env, kind: Kinds, mean: Trees, r: Typespec, a: Typeabs)
    requires Inv(s) && Denotes(s.abs, s.id, kind, mean) && LiveComps(s.id, a) && Live(s.id, r)
    requires Comps(a) <= s.id.Keys && DescOf(s.id, s.abs[r]) == DescOf(s.id, a)
    ensures mean[r] == Node(MapAbs(a, mean))
  {
    hide MapAbs, Comps, Bucket, Placed, Canonical;
    var b := s.abs[r];
    forall x, y | x in Comps(b) && y in Comps(a) && s.id[x] == s.id[y] ensures mean[x] == mean[y] {
      assert x in Uses(s.abs)[r];
    }
    MapFactor(b, a, s.id, mean);
  }

  /** A type newly bound to a description means what the description does, and
      nothing else changes its meaning. */
  lemma FixupMeans(s: Env, kind: Kinds, mean: Trees, t: Typespec, a: Typeabs, a': Typeabs)
    requires Inv(s) && Denotes(s.abs, s.id, kind, mean) && LiveComps(s.id, a) && t !in s.id
    requires Resolves(s.dus, a, a') && Comps(a) <= s.id.Keys
    ensures var s', mean' := Fixup(s, t, a, a'), mean[t := Node(MapAbs(a, mean))];
            Denotes(s'.abs, s'.id, kind, mean') && Extends(mean, mean')
  {
    hide MapAbs, Comps, Bucket, Inv, Resolves, Denoted, Fixup;
    FixupIs(s, kind, mean, t, a, a');
    var s', mean' := Fixup(s, t, a, a'), mean[t := Node(MapAbs(a, mean))];
    ResolvedMeans(s.dus, a, a', mean);
    forall u | u in s'.abs
      ensures Comps(s'.abs[u]) <= s'.id.Keys && mean'[u] == Denoted(s'.abs[u], s'.id[u], kind, mean')
    {
      if u == t {
        NewMeans(a', s'.id[u], kind, mean, mean');
      } else {
        StillMeans(s.abs[u], s.id[u], kind, mean, mean');
      }
    }
  }

  lemma FixupIs(s: Env, kind: Kinds, mean: Trees, t: Typespec, a: Typeabs, a': Typeabs)
    requires Inv(s) && Denotes(s.abs, s.id, kind, mean) && t !in s.id && Comps(a) <= s.id.Keys
    ensures Sized(s) && 0 < s.next && s.abs.Keys == s.id.Keys == mean.Keys
    ensures var s' := Fixup(s, t, a, a'); s'.abs == s.abs[t := a'] && s'.id == s.id[t := s.next]
  {
    hide MapAbs, Comps, Bucket, Inv, Denoted;
    InvCounts(s);
    InvSized(s);
  }

  lemma NewMeans(a: Typeabs, n: int, kind: Kinds, mean: Trees, mean': Trees)
    requires n != 0 && Comps(a) <= mean.Keys && Extends(mean, mean')
    ensures Denoted(a, n, kind, mean') == Node(MapAbs(a, mean))
  {
    hide MapAbs, Comps;
    MapAgree(a, mean, mean');
  }

  lemma StillMeans(a: Typeabs, n: int, kind: Kinds, mean: Trees, mean': Trees)
    requires Comps(a) <= mean.Keys && Extends(mean, mean')
    requires forall i :: i in kind ==> match kind[i] case Equated(TypeX(t)) => t in mean case _ => true
    ensures Denoted(a, n, kind, mean') == Denoted(a, n, kind, mean)
  {
    hide MapAbs, Comps, StandsFor;
    MapAgree(a, mean, mean');
    if a.IdnT? && a.idn in kind { StandsSame(a, kind, mean, mean'); }
  }

  lemma ResolvedMeans(dus: DuTab, a: Typeabs, a': Typeabs, mean: Trees)
    requires Resolves(dus, a, a') && Comps(a) <= mean.Keys
    ensures Comps(a') == Comps(a) && MapAbs(a', mean) == MapAbs(a, mean)
  {
  }

  lemma StandsSame(a: Typeabs, kind: Kinds, mean: Trees, mean': Trees)
    requires Extends(mean, mean') && a.IdnT? && a.idn in kind
    requires match kind[a.idn] case Equated(TypeX(t)) => t in mean case _ => true
    ensures StandsFor(a.idn, kind[a.idn], mean) == StandsFor(a.idn, kind[a.idn], mean')
  {
  }

  // ----- every object means something -----

  /** Following components ends: at an object whose tree is given, or because
      the rank gets smaller. */
  ghost predicate Descends(abs: AbsMap, given: Trees, rank: Trees) {
    && abs.Keys == rank.Keys && given.Keys <= abs.Keys
    && forall t, c :: t in abs && t !in given && c in Comps(abs[t]) ==> c in abs && (c in given || rank[c] < rank[t])
  }

  ghost function Unfold(abs: AbsMap, given: Trees, rank: Trees, t: Typespec): Tree
    requires Descends(abs, given, rank) && t in abs
    decreases rank[t], 1
  {
    if t in given then given[t] else Node(MapAbs(abs[t], UnfoldParts(abs, given, rank, t)))
  }

  ghost function UnfoldParts(abs: AbsMap, given: Trees, rank: Trees, t: Typespec): (parts: Trees)
    requires Descends(abs, given, rank) && t in abs && t !in given
    ensures parts.Keys == Comps(abs[t])
    decreases rank[t], 0
  {
    map c | c in Comps(abs[t]) :: if c in given then given[c] else Unfold(abs, given, rank, c)
  }

  /** The trees of all objects, given those of some. */
  ghost function Unfolded(abs: AbsMap, given: Trees, rank: Trees): (tree: Trees)
    requires Descends(abs, given, rank)
    ensures tree.Keys == abs.Keys
  {
    map t | t in abs :: Unfold(abs, given, rank, t)
  }

  lemma UnfoldedIs(abs: AbsMap, given: Trees, rank: Trees, t: Typespec)
    requires Descends(abs, given, rank) && t in abs
    ensures var tree := Unfolded(abs, given, rank);
            if t in given then tree[t] == given[t]
            else Comps(abs[t]) <= tree.Keys && tree[t] == Node(MapAbs(abs[t], tree))
  {
    hide Comps, MapAbs;
    if t !in given { MapAgree(abs[t], UnfoldParts(abs, given, rank, t), Unfolded(abs, given, rank)); }
  }

  /** The tree of every object, spelled out with identifiers left as they are. */
  ghost predicate PlainTrees(abs: AbsMap, id: TypeIds, tree: Trees) {
    Denotes(abs, id, map[], tree)
  }

  /** Live objects agree on their trees. */
  ghost predicate LiveAgree(id: TypeIds, tree: Trees, tree': Trees) {
    forall t :: Live(id, t) ==> t in tree && t in tree' && tree'[t] == tree[t]
  }

  ghost predicate Replaced(kind: Kinds, older i: Idn) {
    i in kind && kind[i].Equated?
  }

  /** What an equated identifier is equated to is canonical. */
  ghost predicate EquatesLive(id: TypeIds, kind: Kinds) {
    forall i :: Replaced(kind, i) && kind[i].x.TypeX? ==> Live(id, kind[i].x.typ)
  }

  lemma DenotesDescends(abs: AbsMap, id: TypeIds, kind: Kinds, mean: Trees, given: Trees)
    requires Denotes(abs, id, kind, mean) && given.Keys <= abs.Keys
    ensures Descends(abs, given, mean)
  {
    hide MapAbs;
    forall t, c | t in abs && t !in given && c in Comps(abs[t]) ensures c in abs && (c in given || mean[c] < mean[t]) {
      PartSmaller(abs[t], mean, c);
    }
  }

  /** Whatever identifiers stand for, objects that have meanings have trees. */
  lemma PlainFromDenotes(abs: AbsMap, id: TypeIds, kind: Kinds, mean: Trees) returns (tree: Trees)
    requires Denotes(abs, id, kind, mean)
    ensures PlainTrees(abs, id, tree)
  {
    hide Comps, MapAbs;
    DenotesDescends(abs, id, kind, mean, map[]);
    tree := Unfolded(abs, map[], mean);
    forall t | t in abs ensures tree[t] == Denoted(abs[t], id[t], map[], tree) {
      UnfoldedIs(abs, map[], mean, t);
    }
  }

  /** What is known of meanings before parts are looked at, when identifiers
      come to have these kinds: those of live objects, and what identifiers
      stand for. */
  ghost function Looks(s: Env, kind: Kinds, mean: Trees): (given: Trees)
    requires Closed(s.abs, s.id) && mean.Keys == s.id.Keys
    ensures given.Keys <= s.abs.Keys
  {
    map t | t in s.abs && (s.id[t] != 0 || (s.abs[t].IdnT? && s.abs[t].idn in kind)) ::
      if s.id[t] != 0 then mean[t] else StandsFor(s.abs[t].idn, kind[s.abs[t].idn], mean)
  }

  /** Identifiers may change their kinds: as long as what they are equated to is
      canonical there is again a meaning for every object, and live objects
      keep theirs. */
  lemma LookedDenotes(s: Env, kind: Kinds, mean: Trees, kind': Kinds) returns (mean': Trees)
    requires Inv(s) && Denotes(s.abs, s.id, kind, mean) && EquatesLive(s.id, kind')
    ensures Denotes(s.abs, s.id, kind', mean')
    ensures LiveAgree(s.id, mean, mean')
  {
    hide Inv, MapAbs, Comps, StandsFor;
    var given := Looks(s, kind', mean);
    DenotesDescends(s.abs, s.id, kind, mean, given);
    mean' := Unfolded(s.abs, given, mean);
    forall t | t in s.abs && s.id[t] != 0 ensures mean'[t] == mean[t] {
      UnfoldedIs(s.abs, given, mean, t);
    }
    forall t | t in s.abs ensures mean'[t] == Denoted(s.abs[t], s.id[t], kind', mean') {
      UnfoldedIs(s.abs, given, mean, t);
      if s.id[t] != 0 {
        LiveHasLiveComps(s, t);
        MapAgree(s.abs[t], mean, mean');
      } else if s.abs[t].IdnT? && s.abs[t].idn in kind' {
        StandsLive(s.id, s.abs[t].idn, kind', mean, mean');
      }
    }
  }

  lemma StandsLive(id: TypeIds, i: Idn, kind: Kinds, mean: Trees, mean': Trees)
    requires EquatesLive(id, kind) && i in kind && mean.Keys == mean'.Keys == id.Keys
    requires forall t :: t in id && id[t] != 0 ==> mean'[t] == mean[t]
    ensures StandsFor(i, kind[i], mean) == StandsFor(i, kind[i], mean')
  {
  }

  // ----- runs -----

  lemma AdoptMeans(s: Env, tree: Trees, t: Typespec, a: Typeabs)
    requires PlainTrees(s.abs, s.id, tree) && t !in s.id && Comps(a) <= s.id.Keys
    ensures Comps(a) <= tree.Keys
    ensures var s', tree' := Adopt(s, t, a), tree[t := Node(MapAbs(a, tree))];
            PlainTrees(s'.abs, s'.id, tree') && Extends(tree, tree')
  {
    hide MapAbs, Comps;
    var s', tree' := Adopt(s, t, a), tree[t := Node(MapAbs(a, tree))];
    forall u | u in s'.abs
      ensures Comps(s'.abs[u]) <= s'.id.Keys && tree'[u] == Node(MapAbs(s'.abs[u], tree'))
    {
      MapAgree(s'.abs[u], tree, tree');
    }
  }

  lemma PlainStays(abs: AbsMap, id: TypeIds, id': TypeIds, tree: Trees)
    requires PlainTrees(abs, id, tree) && id'.Keys == id.Keys
    ensures PlainTrees(abs, id', tree)
  {
  }

  /** The trees of live objects. */
  ghost function OfLive(id: TypeIds, tree: Trees): Trees {
    map t | t in id && id[t] != 0 && t in tree :: tree[t]
  }

  /** c_type's rewriting builds no object into itself, and canonical objects
      keep their trees. */
  lemma EditMeans(s: Env, tree: Trees, t: Typespec, a: Typeabs) returns (tree': Trees)
    requires Inv(s) && PlainTrees(s.abs, s.id, tree)
    requires t in s.abs && t in s.id && !Live(s.id, t) && EditFrom(s.id, s.abs[t], a)
    ensures PlainTrees(Edit(s, t, a).abs, s.id, tree') && LiveAgree(s.id, tree, tree')
  {
    hide Inv, MapAbs, Comps, Descends, PlainTrees;
    var abs', given := s.abs[t := a], OfLive(s.id, tree);
    EditDescends(s, tree, t, a);
    tree' := Unfolded(abs', given, tree);
    forall u | u in abs' ensures Comps(abs'[u]) <= tree'.Keys && tree'[u] == Node(MapAbs(abs'[u], tree')) {
      UnfoldedIs(abs', given, tree, u);
      if u in given { GivenMeans(s, tree, abs', u); }
    }
    PlainIs(s.abs, s.id, tree);
    forall u | Live(s.id, u) ensures tree'[u] == tree[u] { UnfoldedIs(abs', given, tree, u); }
    ArePlain(abs', s.id, tree');
  }

  lemma ArePlain(abs: AbsMap, id: TypeIds, tree: Trees)
    requires abs.Keys == id.Keys == tree.Keys
    requires forall t :: t in abs ==> Comps(abs[t]) <= tree.Keys && tree[t] == Node(MapAbs(abs[t], tree))
    ensures PlainTrees(abs, id, tree)
  {
    hide MapAbs, Comps;
  }

  /** Live objects have live components, so their trees still fit. */
  lemma GivenMeans(s: Env, tree: Trees, abs': AbsMap, u: Typespec)
    requires Inv(s) && PlainTrees(s.abs, s.id, tree) && Descends(abs', OfLive(s.id, tree), tree)
    requires u in abs' && Live(s.id, u) && u in s.abs && abs'[u] == s.abs[u]
    ensures var tree' := Unfolded(abs', OfLive(s.id, tree), tree);
            Comps(abs'[u]) <= tree'.Keys && tree[u] == Node(MapAbs(abs'[u], tree'))
  {
    hide Inv, MapAbs, Comps, Descends;
    LiveHasLiveComps(s, u);
    var given := OfLive(s.id, tree);
    forall c | c in Comps(s.abs[u]) ensures c in abs' && Unfolded(abs', given, tree)[c] == tree[c] {
      DescendsKeys(abs', given, tree);
      UnfoldedIs(abs', given, tree, c);
    }
    MapAgree(s.abs[u], tree, Unfolded(abs', given, tree));
  }

  lemma DescendsKeys(abs: AbsMap, given: Trees, rank: Trees)
    requires Descends(abs, given, rank)
    ensures abs.Keys == rank.Keys
  {
  }

  lemma EditDescends(s: Env, tree: Trees, t: Typespec, a: Typeabs)
    requires PlainTrees(s.abs, s.id, tree)
    requires t in s.abs && t in s.id && !Live(s.id, t) && EditFrom(s.id, s.abs[t], a)
    ensures Descends(s.abs[t := a], OfLive(s.id, tree), tree)
  {
    hide MapAbs, Comps;
    DenotesDescends(s.abs, s.id, map[], tree, OfLive(s.id, tree));
  }

  ghost predicate NoEdit(run: seq<Command>) {
    forall c :: c in run ==> !c.EditNode?
  }

  /** In every run every type object, live or dead, has its tree: ids are zeroed
      and handed out again, and descriptions of dead objects rewritten, but
      nothing becomes a part of itself. What is kept has its tree for ever, and
      unless descriptions are rewritten so has everything else. */
  lemma {:induction false} RunsKeepTrees(s: Env, run: seq<Command>, tree: Trees) returns (tree': Trees)
    requires Inv(s) && Allowed(s, run) && PlainTrees(s.abs, s.id, tree)
    ensures PlainTrees(After(s, run).abs, After(s, run).id, tree')
    ensures NoEdit(run) ==> Extends(tree, tree')
    ensures KeptAgree(s, tree, tree')
    decreases |run|
  {
    hide *;
    AfterIs(s, run);
    tree' := tree;
    if run == [] {
      NothingKept(s, tree);
    } else {
      var s1 := Step(s, run[0]);
      var tree1 := StepKeepsTrees(s, run[0], tree);
      tree' := RunsKeepTrees(s1, run[1..], tree1);
      StepKeeps(s, run[0]);
      KeptOn(s, s1, tree, tree1, tree');
      NoEditTail(run);
      if NoEdit(run) { ExtendsOn(tree, tree1, tree'); }
    }
  }

  /** So in every run, whatever kinds identifiers have by then, there is a
      meaning for every object. */
  lemma AlwaysMeans(s: Env, run: seq<Command>, tree: Trees, kind: Kinds) returns (mean: Trees)
    requires Inv(s) && Allowed(s, run) && PlainTrees(s.abs, s.id, tree)
    requires EquatesLive(After(s, run).id, kind)
    ensures Denotes(After(s, run).abs, After(s, run).id, kind, mean)
  {
    hide *;
    var tree' := RunsKeepTrees(s, run, tree);
    PlainIs(After(s, run).abs, After(s, run).id, tree');
    mean := LookedDenotes(After(s, run), map[], tree', kind);
  }

  lemma PlainIs(abs: AbsMap, id: TypeIds, tree: Trees)
    requires PlainTrees(abs, id, tree)
    ensures Denotes(abs, id, map[], tree) && tree.Keys == id.Keys
  {
  }

  /** Kept objects agree on their trees. */
  ghost predicate KeptAgree(s: Env, tree: Trees, tree': Trees) {
    forall t :: Live(s.id, t) && s.id[t] <= s.keep ==> t in tree && t in tree' && tree'[t] == tree[t]
  }

  lemma AfterIs(s: Env, run: seq<Command>)
    requires Inv(s) && Allowed(s, run)
    ensures if run == [] then After(s, run) == s
            else Enabled(s, run[0]) && Allowed(Step(s, run[0]), run[1..]) &&
                 After(s, run) == After(Step(s, run[0]), run[1..])
  {
  }

  lemma NothingKept(s: Env, tree: Trees)
    requires PlainTrees(s.abs, s.id, tree)
    ensures KeptAgree(s, tree, tree) && Extends(tree, tree)
  {
  }

  lemma KeptOn(s: Env, s1: Env, tree: Trees, tree1: Trees, tree2: Trees)
    requires KeptAgree(s, tree, tree1) && KeptAgree(s1, tree1, tree2) && s.keep <= s1.keep
    requires forall t :: Live(s.id, t) && s.id[t] <= s.keep ==> t in s1.id && s1.id[t] == s.id[t]
    ensures KeptAgree(s, tree, tree2)
  {
  }

  lemma ExtendsOn(tree: Trees, tree1: Trees, tree2: Trees)
    requires Extends(tree, tree1) && Extends(tree1, tree2)
    ensures Extends(tree, tree2)
  {
  }

  lemma NoEditTail(run: seq<Command>)
    requires run != []
    ensures NoEdit(run) ==> !run[0].EditNode? && NoEdit(run[1..])
  {
  }

  lemma AskMeans(s: Env, c: Command, tree: Trees) returns (tree': Trees)
    requires Inv(s) && Enabled(s, c) && c.AskType? && PlainTrees(s.abs, s.id, tree)
    ensures PlainTrees(Step(s, c).abs, Step(s, c).id, tree') && Extends(tree, tree')
  {
    hide Inv, Comps, MapAbs, Bucket, Find, Resolves, Fixup, Denotes;
    InvCounts(s);
    StepInv(s, c);
    tree' := tree;
    if Find(s, c.a).None? {
      PlainIs(s.abs, s.id, tree);
      tree' := tree[c.fresh_ := Node(MapAbs(c.a, tree))];
      FixupMeans(s, map[], tree, c.fresh_, c.a, c.resolved);
    }
  }

  lemma ExtendsAgree(s: Env, tree: Trees, tree': Trees)
    requires PlainTrees(s.abs, s.id, tree) && (Extends(tree, tree') || LiveAgree(s.id, tree, tree'))
    ensures KeptAgree(s, tree, tree')
  {
  }

  lemma StepKeepsTrees(s: Env, c: Command, tree: Trees) returns (tree': Trees)
    requires Inv(s) && Enabled(s, c) && PlainTrees(s.abs, s.id, tree)
    ensures PlainTrees(Step(s, c).abs, Step(s, c).id, tree')
    ensures !c.EditNode? ==> Extends(tree, tree')
    ensures KeptAgree(s, tree, tree')
  {
    hide Inv, Comps, MapAbs, Bucket, Find, GetType, ResetTypes, FlushTab, Resolves, Denotes, LiveAgree, KeptAgree,
      PlainTrees, EditFrom, UsersFirst, LiveComps, Sized;
    InvCounts(s);
    StepInv(s, c);
    PlainIs(s.abs, s.id, tree);
    tree' := tree;
    match c {
      case AskType(_, _, _) => tree' := AskMeans(s, c, tree);
      case MakeNode(t, a) =>
        tree' := tree[t := Node(MapAbs(a, tree))];
        AdoptMeans(s, tree, t, a);
      case EditNode(t, a) => tree' := EditMeans(s, tree, t, a);
      case AskDu(_) =>
      case KeepAll =>
      case DropTypes => PlainStays(s.abs, s.id, FlushIds(s.id, s.keep), tree);
      case DropAll => PlainStays(s.abs, s.id, FlushIds(s.id, s.keep), tree);
      case DropListed(list) =>
        ResetTypesInv(s, list);
        PlainStays(s.abs, s.id, ResetTypes(s, list).id, tree);
    }
    ExtendsAgree(s, tree, tree');
  }
}
