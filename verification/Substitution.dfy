/** Substitution of equated identifiers in canonical types. */
module Substitution {
  import opened Syntax
  import opened Shapes
  import opened Placement
  import opened TypeEnv
  import opened Meaning
  import opened CompilerEnv
  import opened Canon

  // ----- what substitution means -----

  ghost predicate EquatesKnown(kind: Kinds, mean: Trees) {
    forall i :: Replaced(kind, i) && kind[i].x.TypeX? ==> kind[i].x.typ in mean
  }

  /** A constant whose identifiers are replaced and whose types become their images. */
  ghost function SubstExpr(x: Expr<Typespec>, kind: Kinds, mean: Trees, img: Trees): Expr<Tree>
    requires EquatesKnown(kind, mean) && (x.TypeX? ==> x.typ in img)
  {
    if x.IdnX? && Replaced(kind, x.idn) then MapExpr(kind[x.idn].x, mean) else MapExpr(x, img)
  }

  ghost function SubstExprs(xs: seq<Expr<Typespec>>, kind: Kinds, mean: Trees, img: Trees): (r: seq<Expr<Tree>>)
    requires EquatesKnown(kind, mean) && ExprTypes(xs) <= img.Keys
    ensures |r| == |xs|
    ensures forall i :: 0 <= i < |xs| && xs[i].TypeX? ==> xs[i].typ in img
    ensures forall i :: 0 <= i < |xs| ==> r[i] == SubstExpr(xs[i], kind, mean, img)
  {
    assert forall i :: 0 <= i < |xs| && xs[i].TypeX? ==> xs[i].typ in ExprTypes(xs);
    seq(|xs|, i requires 0 <= i < |xs| => SubstExpr(xs[i], kind, mean, img))
  }

  /** One level of substitution: a type that is an identifier is replaced if
      the identifier is equated, a composite is rebuilt from the images of its
      parts, and the rest, type types included, stays the same. */
  ghost function Subst(a: Typeabs, same: Tree, kind: Kinds, mean: Trees, img: Trees): Tree
    requires EquatesKnown(kind, mean) && Comps(a) <= img.Keys
  {
    match a
    case AnyT => same
    case CvtT => same
    case UnknownT => same
    case TypeT(_, _) => same
    case IdnT(i) =>
      if !Replaced(kind, i) then same
      else if kind[i].x.TypeX? then mean[kind[i].x.typ]
      else Node(UnknownT)
    case ClusterT(g, parms) => Node(ClusterT(g.unique, SubstExprs(parms, kind, mean, img)))
    case OtherDu(g, parms) => Node(OtherDu(g.unique, SubstExprs(parms, kind, mean, img)))
    case OtherOp(t, name, parms) => Node(OtherOp(img[t], name, SubstExprs(parms, kind, mean, img)))
    case _ => Node(MapAbs(a, img))
  }

  /** img tells the tree that each live type becomes. */
  ghost predicate Substitutes(s: Env, kind: Kinds, mean: Trees, img: Trees) {
    && EquatesKnown(kind, mean) && img.Keys <= mean.Keys
    && (forall t :: Live(s.id, t) ==> t in img && t in s.abs && Comps(s.abs[t]) <= img.Keys)
    && (forall t :: Live(s.id, t) ==> img[t] == Subst(s.abs[t], mean[t], kind, mean, img))
  }

  /** Parts of live types are live and have smaller ids. */
  ghost predicate Layered(s: Env) {
    && s.abs.Keys == s.id.Keys
    && forall t :: Live(s.id, t) ==>
         0 < s.id[t] && forall u :: u in Comps(s.abs[t]) ==> Live(s.id, u) && 0 < s.id[u] < s.id[t]
  }

  lemma InvLayered(s: Env)
    requires Inv(s)
    ensures Layered(s)
  {
  }

  /** Substitution by recursion over the parts, which ends because parts have
      smaller ids. */
  ghost function SubstTree(s: Env, kind: Kinds, mean: Trees, t: Typespec): Tree
    requires Layered(s) && mean.Keys == s.id.Keys && EquatesKnown(kind, mean) && Live(s.id, t)
    decreases s.id[t], 1
  {
    Subst(s.abs[t], mean[t], kind, mean, SubstParts(s, kind, mean, t))
  }

  ghost function SubstParts(s: Env, kind: Kinds, mean: Trees, t: Typespec): (parts: Trees)
    requires Layered(s) && mean.Keys == s.id.Keys && EquatesKnown(kind, mean) && Live(s.id, t)
    ensures parts.Keys == Comps(s.abs[t])
    decreases s.id[t], 0
  {
    map u | u in Comps(s.abs[t]) :: SubstTree(s, kind, mean, u)
  }

  ghost function Image(s: Env, kind: Kinds, mean: Trees): (img: Trees)
    requires Layered(s) && mean.Keys == s.id.Keys && EquatesKnown(kind, mean)
  {
    map t | t in s.id && Live(s.id, t) :: SubstTree(s, kind, mean, t)
  }

  lemma SubstExprsAgree(xs: seq<Expr<Typespec>>, kind: Kinds, mean: Trees, m: Trees, n: Trees)
    requires EquatesKnown(kind, mean) && ExprTypes(xs) <= m.Keys && ExprTypes(xs) <= n.Keys
    requires forall t :: t in ExprTypes(xs) ==> m[t] == n[t]
    ensures SubstExprs(xs, kind, mean, m) == SubstExprs(xs, kind, mean, n)
  {
  }

  lemma SubstAgree(a: Typeabs, same: Tree, kind: Kinds, mean: Trees, m: Trees, n: Trees)
    requires EquatesKnown(kind, mean) && Comps(a) <= m.Keys && Comps(a) <= n.Keys
    requires forall t :: t in Comps(a) ==> m[t] == n[t]
    ensures Subst(a, same, kind, mean, m) == Subst(a, same, kind, mean, n)
  {
    hide MapAbs, SubstExprs;
    MapAgree(a, m, n);
    match a
    case ClusterT(_, parms) => SubstExprsAgree(parms, kind, mean, m, n);
    case OtherDu(_, parms) => SubstExprsAgree(parms, kind, mean, m, n);
    case OtherOp(t, _, parms) => SubstExprsAgree(parms, kind, mean, m, n);
    case _ =>
  }

  /** There is exactly one way to substitute: the recursive one. */
  lemma ImageSubstitutes(s: Env, kind: Kinds, mean: Trees)
    requires Layered(s) && mean.Keys == s.id.Keys && EquatesKnown(kind, mean)
    ensures Substitutes(s, kind, mean, Image(s, kind, mean))
  {
    hide Subst, Comps, MapAbs;
    var img := Image(s, kind, mean);
    forall t | Live(s.id, t)
      ensures Comps(s.abs[t]) <= img.Keys && img[t] == Subst(s.abs[t], mean[t], kind, mean, img)
    {
      SubstAgree(s.abs[t], mean[t], kind, mean, SubstParts(s, kind, mean, t), img);
    }
  }

  lemma {:induction false} SubstUnique(s: Env, kind: Kinds, mean: Trees, img: Trees, t: Typespec)
    requires Layered(s) && mean.Keys == s.id.Keys && Substitutes(s, kind, mean, img) && Live(s.id, t)
    ensures img[t] == SubstTree(s, kind, mean, t)
    decreases s.id[t]
  {
    hide Subst, Comps, MapAbs;
    var parts := SubstParts(s, kind, mean, t);
    forall u | u in Comps(s.abs[t]) ensures parts[u] == img[u] { SubstUnique(s, kind, mean, img, u); }
    SubstAgree(s.abs[t], mean[t], kind, mean, parts, img);
  }

  // ----- what each type becomes -----

  /** An equated identifier becomes what it is equated to, or unknown if that is
      no type. Other identifiers stay, and so do types without parts to replace,
      type types included. */
  lemma ImageOfIdn(s: Env, kind: Kinds, mean: Trees, t: Typespec)
    requires Layered(s) && mean.Keys == s.id.Keys && EquatesKnown(kind, mean) && Live(s.id, t)
    ensures var a, r := s.abs[t], Image(s, kind, mean)[t];
            && (a.IdnT? && a.idn in kind && kind[a.idn].Equated? ==>
                  r == if kind[a.idn].x.TypeX? then mean[kind[a.idn].x.typ] else Node(UnknownT))
            && (a.IdnT? && !(a.idn in kind && kind[a.idn].Equated?) ==> r == mean[t])
            && (a.AnyT? || a.CvtT? || a.UnknownT? || a.TypeT? ==> r == mean[t])
  {
    hide Image, SubstTree, MapAbs, Layered, SubstExprs;
    ImageSubstitutes(s, kind, mean);
  }

  /** A selector, routine or returning type has every part replaced. */
  lemma ImageOfLists(s: Env, kind: Kinds, mean: Trees, t: Typespec)
    requires Layered(s) && mean.Keys == s.id.Keys && EquatesKnown(kind, mean) && Live(s.id, t)
    ensures var a, img := s.abs[t], Image(s, kind, mean);
            a.SelectT? ==>
              var b := img[t].abs;
              && b.SelectT? && b.gen == a.gen.unique && |b.fields| == |a.fields|
              && forall k :: 0 <= k < |a.fields| ==>
                   a.fields[k].typ in img && b.fields[k] == Field(a.fields[k].sel, img[a.fields[k].typ])
    ensures var a, img := s.abs[t], Image(s, kind, mean);
            a.ApplyT? ==>
              var b := img[t].abs;
              && b.ApplyT? && b.gen == a.gen.unique
              && |b.args| == |a.args| && |b.vals| == |a.vals| && |b.sigs| == |a.sigs|
              && (forall k :: 0 <= k < |a.args| ==> a.args[k] in img && b.args[k] == img[a.args[k]])
              && (forall k :: 0 <= k < |a.vals| ==> a.vals[k] in img && b.vals[k] == img[a.vals[k]])
              && forall k :: 0 <= k < |a.sigs| ==>
                   && b.sigs[k].name == a.sigs[k].name && |b.sigs[k].types| == |a.sigs[k].types|
                   && forall l :: 0 <= l < |a.sigs[k].types| ==>
                        a.sigs[k].types[l] in img && b.sigs[k].types[l] == img[a.sigs[k].types[l]]
    ensures var a, img := s.abs[t], Image(s, kind, mean);
            a.OtherReturn? ==> a.typ in img && img[t] == Node(OtherReturn(img[a.typ]))
  {
    hide Image, SubstTree, Layered, SubstExprs, MapExprs;
    ImageSubstitutes(s, kind, mean);
    var a, img := s.abs[t], Image(s, kind, mean);
    assert Comps(a) <= img.Keys;
  }

  /** The constants of the others are replaced where they are types or equated
      identifiers. */
  lemma ImageOfParms(s: Env, kind: Kinds, mean: Trees, t: Typespec)
    requires Layered(s) && mean.Keys == s.id.Keys && EquatesKnown(kind, mean) && Live(s.id, t)
    requires s.abs[t].ClusterT? || s.abs[t].OtherDu? || s.abs[t].OtherOp?
    ensures var a, img := s.abs[t], Image(s, kind, mean);
            var b := img[t].abs;
            && (a.ClusterT? ==> b.ClusterT? && b.gen == a.gen.unique)
            && (a.OtherDu? ==> b.OtherDu? && b.gen == a.gen.unique)
            && (a.OtherOp? ==> b.OtherOp? && b.name == a.name && a.typ in img && b.typ == img[a.typ])
            && |b.parms| == |a.parms|
            && forall k :: 0 <= k < |a.parms| ==>
                 var x, y := a.parms[k], b.parms[k];
                 && (x.TypeX? ==> x.typ in img && y == TypeX(img[x.typ]))
                 && (x.IdnX? && x.idn in kind && kind[x.idn].Equated? ==>
                       y == MapExpr(kind[x.idn].x, mean))
                 && (x.IdnX? && !(x.idn in kind && kind[x.idn].Equated?) ==> y == IdnX(x.idn))
                 && (!x.TypeX? && !x.IdnX? ==> y == MapExpr(x, img))
  {
    hide Image, SubstTree, Layered, MapExprs, MapAbs;
    ImageSubstitutes(s, kind, mean);
    var a, img := s.abs[t], Image(s, kind, mean);
    assert Comps(a) <= img.Keys;
  }

  // ----- types that mention no equated identifier -----

  /** An identifier as a constant that becomes something else. */
  ghost predicate OtherConst(kind: Kinds, older i: Idn) {
    Replaced(kind, i) && kind[i].x != IdnX(i)
  }

  /** An identifier as a type that becomes another type. */
  ghost predicate OtherType(abs: AbsMap, kind: Kinds, older i: Idn) {
    Replaced(kind, i) && !(kind[i].x.TypeX? && kind[i].x.typ in abs && abs[kind[i].x.typ] == IdnT(i))
  }

  ghost predicate ExprsMention(xs: seq<Expr<Typespec>>, kind: Kinds) {
    exists x :: x in xs && x.IdnX? && OtherConst(kind, x.idn)
  }

  ghost predicate Mentions1(abs: AbsMap, a: Typeabs, kind: Kinds) {
    match a
    case IdnT(i) => OtherType(abs, kind, i)
    case ClusterT(_, parms) => ExprsMention(parms, kind)
    case OtherDu(_, parms) => ExprsMention(parms, kind)
    case OtherOp(_, _, parms) => ExprsMention(parms, kind)
    case _ => false
  }

  /** Somewhere in the type, outside type types, stands an identifier that is
      equated to something else than itself. */
  ghost predicate Mentions(s: Env, kind: Kinds, t: Typespec)
    requires Layered(s) && Live(s.id, t)
    decreases s.id[t]
  {
    Mentions1(s.abs, s.abs[t], kind) || (!s.abs[t].TypeT? && exists u :: u in Comps(s.abs[t]) && Mentions(s, kind, u))
  }

  lemma SubstExprsSame(xs: seq<Expr<Typespec>>, kind: Kinds, mean: Trees)
    requires EquatesKnown(kind, mean) && ExprTypes(xs) <= mean.Keys && !ExprsMention(xs, kind)
    ensures SubstExprs(xs, kind, mean, mean) == MapExprs(xs, mean)
  {
  }

  /** An identifier that is equated to itself. */
  lemma IdnSame(s: Env, kind: Kinds, mean: Trees, t: Typespec)
    requires Denotes(s.abs, s.id, kind, mean) && EquatesLive(s.id, kind) && Live(s.id, t) && s.abs[t].IdnT?
    ensures EquatesKnown(kind, mean) && Comps(s.abs[t]) == {}
    ensures Subst(s.abs[t], mean[t], kind, mean, map[]) == mean[t] <==> !OtherType(s.abs, kind, s.abs[t].idn)
  {
    hide MapExprs, MapSeq, MapFields, MapSigs;
  }

  /** A type that mentions no equated identifier becomes itself. */
  lemma {:induction false} UnmentionedSame(s: Env, kind: Kinds, mean: Trees, img: Trees, t: Typespec)
    requires Layered(s) && Denotes(s.abs, s.id, kind, mean) && Substitutes(s, kind, mean, img)
    requires EquatesLive(s.id, kind) && Live(s.id, t) && !Mentions(s, kind, t)
    ensures img[t] == mean[t]
    decreases s.id[t]
  {
    hide Comps, MapAbs, SubstExprs;
    var a := s.abs[t];
    if !a.TypeT? {
      forall u | u in Comps(a) ensures img[u] == mean[u] { UnmentionedSame(s, kind, mean, img, u); }
      SubstAgree(a, mean[t], kind, mean, img, mean);
      match a
      case ClusterT(_, parms) => SubstClusterSame(a, parms, kind, mean);
      case OtherDu(_, parms) => SubstClusterSame(a, parms, kind, mean);
      case OtherOp(_, _, parms) => SubstClusterSame(a, parms, kind, mean);
      case IdnT(_) =>
        IdnSame(s, kind, mean, t);
        SubstAgree(a, mean[t], kind, mean, img, map[]);
      case _ =>
    }
  }

  lemma SubstClusterSame(a: Typeabs, parms: seq<Expr<Typespec>>, kind: Kinds, mean: Trees)
    requires EquatesKnown(kind, mean) && Comps(a) <= mean.Keys && !ExprsMention(parms, kind)
    requires (a.ClusterT? && parms == a.parms) || (a.OtherDu? && parms == a.parms) || (a.OtherOp? && parms == a.parms)
    ensures Subst(a, Node(MapAbs(a, mean)), kind, mean, mean) == Node(MapAbs(a, mean))
  {
    SubstExprsSame(parms, kind, mean);
  }

  /** Constants among which something is replaced by something else. */
  lemma SubstExprsOther(xs: seq<Expr<Typespec>>, kind: Kinds, mean: Trees, img: Trees)
    requires EquatesKnown(kind, mean) && ExprTypes(xs) <= mean.Keys && ExprTypes(xs) <= img.Keys
    requires ExprsMention(xs, kind) || exists u :: u in ExprTypes(xs) && img[u] != mean[u]
    ensures SubstExprs(xs, kind, mean, img) != MapExprs(xs, mean)
  {
    if ExprsMention(xs, kind) {
      var x :| x in xs && x.IdnX? && OtherConst(kind, x.idn);
      var i :| 0 <= i < |xs| && xs[i] == x;
      assert SubstExprs(xs, kind, mean, img)[i] == SubstExpr(x, kind, mean, img);
      assert MapExprs(xs, mean)[i] == IdnX(x.idn);
    } else {
      var u :| u in ExprTypes(xs) && img[u] != mean[u];
      var i :| 0 <= i < |xs| && xs[i].TypeX? && xs[i].typ == u;
      assert SubstExprs(xs, kind, mean, img)[i] == TypeX(img[u]) && MapExprs(xs, mean)[i] == TypeX(mean[u]);
    }
  }

  /** A description with such a constant, or with a part that changes. */
  lemma SubstOther(a: Typeabs, same: Tree, abs: AbsMap, kind: Kinds, mean: Trees, img: Trees)
    requires EquatesKnown(kind, mean) && Comps(a) <= mean.Keys && Comps(a) <= img.Keys && !a.IdnT? && !a.TypeT?
    requires Mentions1(abs, a, kind) || exists u :: u in Comps(a) && img[u] != mean[u]
    ensures Subst(a, same, kind, mean, img) != Node(MapAbs(a, mean))
  {
    hide SubstExprs, MapExprs, MapSeq, MapFields, MapSigs, Elems, ExprTypes, FieldTypes, SigTypes, ExprsMention;
    forall u | u in Comps(a) && img[u] != mean[u] ensures MapAbs(a, img) != MapAbs(a, mean) {
      MapDiffers(a, img, mean, u);
    }
    match a
    case ClusterT(_, parms) => SubstExprsOther(parms, kind, mean, img);
    case OtherDu(_, parms) => SubstExprsOther(parms, kind, mean, img);
    case OtherOp(t, _, parms) =>
      if img[t] == mean[t] { SubstExprsOther(parms, kind, mean, img); }
    case _ =>
  }

  /** And one that does mention one becomes another type. */
  lemma {:induction false} MentionedOther(s: Env, kind: Kinds, mean: Trees, img: Trees, t: Typespec)
    requires Layered(s) && Denotes(s.abs, s.id, kind, mean) && Substitutes(s, kind, mean, img)
    requires EquatesLive(s.id, kind) && Live(s.id, t) && Mentions(s, kind, t)
    ensures img[t] != mean[t]
    decreases s.id[t]
  {
    hide Comps, MapAbs, SubstExprs, Subst, OtherType, ExprsMention;
    var a := s.abs[t];
    if a.IdnT? {
      IdnSame(s, kind, mean, t);
      SubstAgree(a, mean[t], kind, mean, img, map[]);
    } else {
      if !Mentions1(s.abs, a, kind) {
        var u :| u in Comps(a) && Mentions(s, kind, u);
        MentionedOther(s, kind, mean, img, u);
      }
      SubstOther(a, mean[t], s.abs, kind, mean, img);
    }
  }

  // ----- the algorithm -----

  /** A substitution under way: the state it started from, the kinds of
      identifiers, what types meant then and what they are to become. */
  datatype Job = Job(start: Env, kind: Kinds, mean: Trees, img: Trees)

  /** Every identifier a description mentions has its kind recorded. */
  ghost predicate IdnsKnown(a: Typeabs, kind: Kinds) {
    match a
    case IdnT(i) => i in kind
    case ClusterT(_, xs) => ExprIdnsKnown(xs, kind)
    case OtherDu(_, xs) => ExprIdnsKnown(xs, kind)
    case OtherOp(_, _, xs) => ExprIdnsKnown(xs, kind)
    case _ => true
  }

  ghost predicate ExprIdnsKnown(xs: seq<Expr<Typespec>>, kind: Kinds) {
    forall x :: x in xs && x.IdnX? ==> x.idn in kind
  }

  lemma IdnKnown(a: Typeabs, kind: Kinds, i: Idn)
    requires IdnsKnown(a, kind) && a == IdnT(i)
    ensures i in kind
  {
  }

  ghost predicate Base(env: CompilerEnv, job: Job) {
    var s := job.start;
    && Layered(s) && Denotes(s.abs, s.id, job.kind, job.mean)
    && (forall t :: Live(s.id, t) ==> IdnsKnown(s.abs[t], job.kind))
    && EquatesLive(s.id, job.kind) && Substitutes(s, job.kind, job.mean, job.img)
    && 0 < |env.basics| && Live(s.id, env.basics[0]) && s.abs[env.basics[0]] == UnknownT
  }

  /** New types may have come, nothing else has changed. */
  ghost predicate Onward(s: Env, s': Env, mean: Trees, mean': Trees) {
    Grown(s, s') && Same(s.abs, s'.abs) && Extends(mean, mean')
  }

  ghost predicate Going(env: CompilerEnv, job: Job, mean: Trees)
    reads env, env.lib, env.types, env.dus, env.dus.buckets, env.nodes
  {
    Ready(env, job.kind, mean) && Base(env, job) && Onward(job.start, env.View(), job.mean, mean)
  }

  ghost predicate TypeDone(id: TypeIds, mean: Trees, r: Typespec, want: Tree) {
    Live(id, r) && r in mean && mean[r] == want
  }

  ghost predicate ExprDone(id: TypeIds, mean: Trees, x: Expr<Typespec>, want: Expr<Tree>) {
    (x.TypeX? ==> Live(id, x.typ) && x.typ in mean) && MapExpr(x, mean) == want
  }

  ghost predicate TypesDone(id: TypeIds, mean: Trees, rs: seq<Typespec>, ts: seq<Typespec>, img: Trees) {
    |rs| == |ts| && forall i :: 0 <= i < |ts| ==> ts[i] in img && TypeDone(id, mean, rs[i], img[ts[i]])
  }

  lemma OnwardTwice(s: Env, s1: Env, s2: Env, mean: Trees, mean1: Trees, mean2: Trees)
    requires Onward(s, s1, mean, mean1) && Onward(s1, s2, mean1, mean2)
    ensures Onward(s, s2, mean, mean2)
  {
  }

  lemma GoingIs(env: CompilerEnv, job: Job, mean: Trees, t: Typespec)
    requires Going(env, job, mean) && Live(job.start.id, t)
    ensures Ready(env, job.kind, mean) && Onward(env.View(), env.View(), mean, mean)
    ensures t in job.start.id && t in job.start.abs && t.abs == job.start.abs[t] && Comps(t.abs) <= job.img.Keys
    ensures 0 < job.start.id[t]
    ensures forall u :: u in Comps(t.abs) ==> Live(job.start.id, u) && job.start.id[u] < job.start.id[t]
    ensures EquatesKnown(job.kind, job.mean) && t in job.mean && t in job.img && IdnsKnown(t.abs, job.kind)
    ensures job.img[t] == Subst(t.abs, job.mean[t], job.kind, job.mean, job.img)
    ensures TypeDone(env.View().id, mean, t, job.mean[t])
  {
    hide *;
    GoingHas(env, job, mean);
    ReadyIs(env, job.kind, mean);
    BaseIs(env, job, t);
    OnwardIs(job.start, env.View(), job.mean, mean, t);
  }

  lemma GoingHas(env: CompilerEnv, job: Job, mean: Trees)
    requires Going(env, job, mean)
    ensures Ready(env, job.kind, mean) && Base(env, job) && Onward(job.start, env.View(), job.mean, mean)
  {
  }

  lemma BaseIs(env: CompilerEnv, job: Job, t: Typespec)
    requires Base(env, job) && Live(job.start.id, t)
    ensures t in job.start.id && t in job.start.abs && Comps(job.start.abs[t]) <= job.img.Keys
    ensures 0 < job.start.id[t]
    ensures forall u :: u in Comps(job.start.abs[t]) ==> Live(job.start.id, u) && job.start.id[u] < job.start.id[t]
    ensures EquatesKnown(job.kind, job.mean) && t in job.mean && t in job.img && IdnsKnown(job.start.abs[t], job.kind)
    ensures job.img[t] == Subst(job.start.abs[t], job.mean[t], job.kind, job.mean, job.img)
  {
  }

  lemma OnwardIs(s: Env, s': Env, mean: Trees, mean': Trees, t: Typespec)
    requires Onward(s, s', mean, mean') && Live(s.id, t) && t in mean && t in s.abs
    ensures TypeDone(s'.id, mean', t, mean[t]) && t in s'.abs && s'.abs[t] == s.abs[t]
    ensures Onward(s', s', mean', mean')
  {
  }

  lemma StillGoing(env: CompilerEnv, job: Job, s: Env, mean: Trees, mean': Trees)
    requires Base(env, job) && Onward(job.start, s, job.mean, mean) && Onward(s, env.View(), mean, mean')
    requires Ready(env, job.kind, mean')
    ensures Going(env, job, mean')
  {
    hide Base, Ready, Onward;
    OnwardTwice(job.start, s, env.View(), job.mean, mean, mean');
  }

  ghost predicate ExprsDone(id: TypeIds, mean: Trees, ys: seq<Expr<Typespec>>, xs: seq<Expr<Typespec>>, job: Job) {
    && EquatesKnown(job.kind, job.mean) && |ys| == |xs|
    && forall i :: 0 <= i < |xs| ==>
         (xs[i].TypeX? ==> xs[i].typ in job.img) &&
         ExprDone(id, mean, ys[i], SubstExpr(xs[i], job.kind, job.mean, job.img))
  }

  ghost predicate FieldsDone(id: TypeIds, mean: Trees, gs: seq<Field<Typespec>>, fs: seq<Field<Typespec>>, img: Trees) {
    && |gs| == |fs|
    && forall i :: 0 <= i < |fs| ==>
         gs[i].sel == fs[i].sel && fs[i].typ in img && TypeDone(id, mean, gs[i].typ, img[fs[i].typ])
  }

  ghost predicate SigsDone(id: TypeIds, mean: Trees, us: seq<Exception<Typespec>>, ss: seq<Exception<Typespec>>,
                           img: Trees) {
    && |us| == |ss|
    && forall i :: 0 <= i < |ss| ==> us[i].name == ss[i].name && TypesDone(id, mean, us[i].types, ss[i].types, img)
  }

  /** b is a with every part replaced by what the part becomes. */
  ghost predicate Built(id: TypeIds, mean: Trees, a: Typeabs, b: Typeabs, job: Job) {
    match (a, b)
    case (ClusterT(g, xs), ClusterT(g', ys)) => g == g' && ExprsDone(id, mean, ys, xs, job)
    case (OtherDu(g, xs), OtherDu(g', ys)) => g == g' && ExprsDone(id, mean, ys, xs, job)
    case (OtherOp(t, n, xs), OtherOp(t', n', ys)) =>
      t in job.img && TypeDone(id, mean, t', job.img[t]) && n == n' && ExprsDone(id, mean, ys, xs, job)
    case (OtherReturn(t), OtherReturn(t')) => t in job.img && TypeDone(id, mean, t', job.img[t])
    case (SelectT(g, fs), SelectT(g', gs)) => g == g' && FieldsDone(id, mean, gs, fs, job.img)
    case (ApplyT(g, args, vals, ss), ApplyT(g', args', vals', us)) =>
      && g == g' && TypesDone(id, mean, args', args, job.img) && TypesDone(id, mean, vals', vals, job.img)
      && SigsDone(id, mean, us, ss, job.img)
    case _ => false
  }

  lemma ExprsBuilt(id: TypeIds, mean: Trees, ys: seq<Expr<Typespec>>, xs: seq<Expr<Typespec>>, job: Job)
    requires ExprsDone(id, mean, ys, xs, job) && ExprTypes(xs) <= job.img.Keys
    ensures ExprTypes(ys) <= mean.Keys && (forall u :: u in ExprTypes(ys) ==> Live(id, u))
    ensures MapExprs(ys, mean) == SubstExprs(xs, job.kind, job.mean, job.img)
  {
  }

  lemma TypesBuilt(id: TypeIds, mean: Trees, rs: seq<Typespec>, ts: seq<Typespec>, img: Trees)
    requires TypesDone(id, mean, rs, ts, img) && Elems(ts) <= img.Keys
    ensures Elems(rs) <= mean.Keys && (forall u :: u in Elems(rs) ==> Live(id, u))
    ensures MapSeq(rs, mean) == MapSeq(ts, img)
  {
  }

  lemma FieldsBuilt(id: TypeIds, mean: Trees, gs: seq<Field<Typespec>>, fs: seq<Field<Typespec>>, img: Trees)
    requires FieldsDone(id, mean, gs, fs, img) && FieldTypes(fs) <= img.Keys
    ensures FieldTypes(gs) <= mean.Keys && (forall u :: u in FieldTypes(gs) ==> Live(id, u))
    ensures MapFields(gs, mean) == MapFields(fs, img)
  {
  }

  lemma SigsBuilt(id: TypeIds, mean: Trees, us: seq<Exception<Typespec>>, ss: seq<Exception<Typespec>>, img: Trees)
    requires SigsDone(id, mean, us, ss, img) && SigTypes(ss) <= img.Keys
    ensures SigTypes(us) <= mean.Keys && (forall u :: u in SigTypes(us) ==> Live(id, u))
    ensures MapSigs(us, mean) == MapSigs(ss, img)
  {
    hide MapSeq, TypesDone;
    forall i | 0 <= i < |ss|
      ensures Elems(ss[i].types) <= img.Keys && Elems(us[i].types) <= mean.Keys
      ensures (forall u :: u in us[i].types ==> Live(id, u)) && MapSeq(us[i].types, mean) == MapSeq(ss[i].types, img)
    {
      assert forall t :: t in ss[i].types ==> t in SigTypes(ss);
      TypesBuilt(id, mean, us[i].types, ss[i].types, img);
      assert forall u :: u in us[i].types ==> u in Elems(us[i].types);
    }
    var ms, ns := MapSigs(us, mean), MapSigs(ss, img);
    forall i | 0 <= i < |ss| ensures ms[i] == ns[i] {
      assert ms[i] == Exception(us[i].name, MapSeq(us[i].types, mean));
    }
  }

  lemma BuiltMeans(id: TypeIds, mean: Trees, a: Typeabs, b: Typeabs, same: Tree, job: Job)
    requires Built(id, mean, a, b, job) && EquatesKnown(job.kind, job.mean) && Comps(a) <= job.img.Keys
    ensures LiveComps(id, b) && Comps(b) <= mean.Keys
    ensures Node(MapAbs(b, mean)) == Subst(a, same, job.kind, job.mean, job.img)
  {
    hide ExprsDone, TypesDone, FieldsDone, SigsDone, MapExprs, MapSeq, MapSigs, MapFields, SubstExprs;
    match a
    case ClusterT(_, xs) => ExprsBuilt(id, mean, b.parms, xs, job);
    case OtherDu(_, xs) => ExprsBuilt(id, mean, b.parms, xs, job);
    case OtherOp(_, _, xs) => ExprsBuilt(id, mean, b.parms, xs, job);
    case SelectT(_, fs) => FieldsBuilt(id, mean, b.fields, fs, job.img);
    case ApplyT(_, args, vals, ss) =>
      TypesBuilt(id, mean, b.args, args, job.img);
      TypesBuilt(id, mean, b.vals, vals, job.img);
      SigsBuilt(id, mean, b.sigs, ss, job.img);
    case _ =>
  }

  // ----- what the algorithm's steps rely on -----

  ghost predicate RoutineSmaller(a: Typeabs, job: Job, n: int)
    requires a.ApplyT?
  {
    && (forall t :: t in a.args ==> Live(job.start.id, t) && job.start.id[t] < n)
    && (forall t :: t in a.vals ==> Live(job.start.id, t) && job.start.id[t] < n)
    && (forall s, t :: s in a.sigs && t in s.types ==> Live(job.start.id, t) && job.start.id[t] < n)
  }

  /** The lists a description is made of hold only its components. */
  lemma ListsSmaller(a: Typeabs, job: Job, n: int)
    requires IdnsKnown(a, job.kind)
    requires forall u :: u in Comps(a) ==> Live(job.start.id, u) && job.start.id[u] < n
    ensures a.ApplyT? ==> RoutineSmaller(a, job, n)
    ensures a.SelectT? ==> forall f :: f in a.fields ==> Live(job.start.id, f.typ) && job.start.id[f.typ] < n
    ensures a.OtherReturn? || a.OtherOp? ==> Live(job.start.id, a.typ) && job.start.id[a.typ] < n
    ensures a.ClusterT? || a.OtherDu? || a.OtherOp? ==>
              ExprIdnsKnown(a.parms, job.kind) &&
              forall u :: u in ExprTypes(a.parms) ==> Live(job.start.id, u) && job.start.id[u] < n
  {
  }

  lemma RoutineIs(a: Typeabs, job: Job, n: int)
    requires a.ApplyT? && RoutineSmaller(a, job, n)
    ensures (forall t :: t in a.args ==> Live(job.start.id, t) && job.start.id[t] < n)
    ensures (forall t :: t in a.vals ==> Live(job.start.id, t) && job.start.id[t] < n)
    ensures (forall s, t :: s in a.sigs && t in s.types ==> Live(job.start.id, t) && job.start.id[t] < n)
  {
  }

  lemma GoingStarts(env: CompilerEnv, job: Job, mean: Trees)
    requires Going(env, job, mean)
    ensures Onward(env.View(), env.View(), mean, mean) && EquatesKnown(job.kind, job.mean)
    ensures forall t :: Live(job.start.id, t) ==> t in job.img
    ensures TypesDone(env.View().id, mean, [], [], job.img) && ExprsDone(env.View().id, mean, [], [], job)
    ensures FieldsDone(env.View().id, mean, [], [], job.img) && SigsDone(env.View().id, mean, [], [], job.img)
  {
    hide *;
    GoingHas(env, job, mean);
    OnwardSame(job.start, env.View(), job.mean, mean);
    BaseKnown(env, job);
    NothingDone(env.View().id, mean, job);
  }

  lemma BaseKnown(env: CompilerEnv, job: Job)
    requires Base(env, job)
    ensures EquatesKnown(job.kind, job.mean) && forall t :: Live(job.start.id, t) ==> t in job.img
  {
  }

  lemma OnwardSame(s: Env, s': Env, mean: Trees, mean': Trees)
    requires Onward(s, s', mean, mean')
    ensures Onward(s', s', mean', mean')
  {
  }

  lemma NothingDone(id: TypeIds, mean: Trees, job: Job)
    requires EquatesKnown(job.kind, job.mean)
    ensures TypesDone(id, mean, [], [], job.img) && ExprsDone(id, mean, [], [], job)
    ensures FieldsDone(id, mean, [], [], job.img) && SigsDone(id, mean, [], [], job.img)
  {
  }

  lemma NextType(s: Env, s': Env, mean: Trees, mean': Trees, rs: seq<Typespec>, ts: seq<Typespec>, k: nat,
                 r: Typespec, img: Trees)
    requires Onward(s, s', mean, mean') && k < |ts| && TypesDone(s.id, mean, rs, ts[..k], img)
    requires ts[k] in img && TypeDone(s'.id, mean', r, img[ts[k]])
    ensures TypesDone(s'.id, mean', rs + [r], ts[..k + 1], img)
  {
  }

  lemma NextField(s: Env, s': Env, mean: Trees, mean': Trees, gs: seq<Field<Typespec>>, fs: seq<Field<Typespec>>,
                  k: nat,
                  r: Typespec, img: Trees)
    requires Onward(s, s', mean, mean') && k < |fs| && FieldsDone(s.id, mean, gs, fs[..k], img)
    requires fs[k].typ in img && TypeDone(s'.id, mean', r, img[fs[k].typ])
    ensures FieldsDone(s'.id, mean', gs + [Field(fs[k].sel, r)], fs[..k + 1], img)
  {
  }

  lemma NextSig(s: Env, s': Env, mean: Trees, mean': Trees, us: seq<Exception<Typespec>>,
                ss: seq<Exception<Typespec>>, k: nat,
                rs: seq<Typespec>, img: Trees)
    requires Onward(s, s', mean, mean') && k < |ss| && SigsDone(s.id, mean, us, ss[..k], img)
    requires TypesDone(s'.id, mean', rs, ss[k].types, img)
    ensures SigsDone(s'.id, mean', us + [Exception(ss[k].name, rs)], ss[..k + 1], img)
  {
  }

  lemma AnExpr(xs: seq<Expr<Typespec>>, kind: Kinds, k: nat)
    requires ExprIdnsKnown(xs, kind) && k < |xs|
    ensures xs[k].TypeX? ==> xs[k].typ in ExprTypes(xs)
    ensures xs[k].IdnX? ==> xs[k].idn in kind
  {
  }

  lemma NextExpr(s: Env, s': Env, mean: Trees, mean': Trees, ys: seq<Expr<Typespec>>, xs: seq<Expr<Typespec>>, k: nat,
                 y: Expr<Typespec>, job: Job)
    requires Onward(s, s', mean, mean') && k < |xs| && ExprsDone(s.id, mean, ys, xs[..k], job)
    requires EquatesKnown(job.kind, job.mean) && (xs[k].TypeX? ==> xs[k].typ in job.img)
    requires ExprDone(s'.id, mean', y, SubstExpr(xs[k], job.kind, job.mean, job.img))
    ensures ExprsDone(s'.id, mean', ys + [y], xs[..k + 1], job)
  {
  }

  lemma TypeExprDone(id: TypeIds, mean: Trees, r: Typespec, t: Typespec, job: Job)
    requires EquatesKnown(job.kind, job.mean) && t in job.img && TypeDone(id, mean, r, job.img[t])
    ensures ExprDone(id, mean, TypeX(r), SubstExpr(TypeX(t), job.kind, job.mean, job.img))
  {
  }

  lemma IdnExprDone(env: CompilerEnv, job: Job, mean: Trees, i: Idn, y: Expr<Typespec>)
    requires Going(env, job, mean) && KindsAre(job.kind) && i in job.kind
    requires y == match i.kind case Equated(k) => k case _ => IdnX(i)
    ensures EquatesKnown(job.kind, job.mean)
    ensures ExprDone(env.View().id, mean, y, SubstExpr(IdnX(i), job.kind, job.mean, job.img))
  {
    hide Inv, MapAbs, Comps, Subst, CompilerEnv.Valid, Denotes;
  }

  lemma OtherExprDone(id: TypeIds, mean: Trees, x: Expr<Typespec>, job: Job)
    requires EquatesKnown(job.kind, job.mean) && !x.TypeX? && !x.IdnX?
    ensures ExprDone(id, mean, x, SubstExpr(x, job.kind, job.mean, job.img))
  {
  }

  lemma BuiltExprs(id: TypeIds, mean: Trees, g: Du, xs: seq<Expr<Typespec>>, ys: seq<Expr<Typespec>>, job: Job)
    requires ExprsDone(id, mean, ys, xs, job)
    ensures Built(id, mean, ClusterT(g, xs), ClusterT(g, ys), job)
    ensures Built(id, mean, OtherDu(g, xs), OtherDu(g, ys), job)
  {
  }

  lemma BuiltSelect(id: TypeIds, mean: Trees, g: Du, fs: seq<Field<Typespec>>, gs: seq<Field<Typespec>>, job: Job)
    requires FieldsDone(id, mean, gs, fs, job.img)
    ensures Built(id, mean, SelectT(g, fs), SelectT(g, gs), job)
  {
  }

  lemma BuiltReturn(id: TypeIds, mean: Trees, u: Typespec, v: Typespec, job: Job)
    requires u in job.img && TypeDone(id, mean, v, job.img[u])
    ensures Built(id, mean, OtherReturn(u), OtherReturn(v), job)
  {
  }

  lemma BuiltOp(s: Env, s': Env, mean: Trees, mean': Trees, u: Typespec, v: Typespec, name: Name,
                xs: seq<Expr<Typespec>>, ys: seq<Expr<Typespec>>, job: Job)
    requires Onward(s, s', mean, mean') && u in job.img && TypeDone(s.id, mean, v, job.img[u])
    requires ExprsDone(s'.id, mean', ys, xs, job)
    ensures Built(s'.id, mean', OtherOp(u, name, xs), OtherOp(v, name, ys), job)
  {
  }

  lemma BuiltRoutine(s1: Env, s2: Env, s3: Env, mean1: Trees, mean2: Trees, mean3: Trees, a: Typeabs,
                     us: seq<Exception<Typespec>>, args: seq<Typespec>, vals: seq<Typespec>, job: Job)
    requires Onward(s1, s2, mean1, mean2) && Onward(s2, s3, mean2, mean3) && a.ApplyT?
    requires SigsDone(s1.id, mean1, us, a.sigs, job.img) && TypesDone(s2.id, mean2, args, a.args, job.img)
    requires TypesDone(s3.id, mean3, vals, a.vals, job.img)
    ensures Built(s3.id, mean3, a, ApplyT(a.gen, args, vals, us), job)
  {
  }

  lemma UnchangedDone(env: CompilerEnv, t: Typespec, job: Job, mean: Trees)
    requires Going(env, job, mean) && Live(job.start.id, t)
    requires t.abs.AnyT? || t.abs.CvtT? || t.abs.UnknownT? || t.abs.TypeT?
    ensures t in job.img && TypeDone(env.View().id, mean, t, job.img[t])
  {
    hide *;
    GoingIs(env, job, mean, t);
    SameSubst(t.abs, job.mean[t], job);
  }

  lemma SameSubst(a: Typeabs, same: Tree, job: Job)
    requires a.AnyT? || a.CvtT? || a.UnknownT? || a.TypeT?
    requires EquatesKnown(job.kind, job.mean) && Comps(a) <= job.img.Keys
    ensures Subst(a, same, job.kind, job.mean, job.img) == same
  {
  }

  // ----- the algorithm -----

  method BIdn(env: CompilerEnv, t: Typespec, i: Idn, ghost job: Job, ghost mean: Trees)
    returns (r: Typespec)
    requires Going(env, job, mean) && KindsAre(job.kind) && Live(job.start.id, t) && t.abs == IdnT(i) && i in job.kind
    ensures t in job.img && TypeDone(env.View().id, mean, r, job.img[t])
  {
    hide *;
    GoingIs(env, job, mean, t);
    IdnDone(env, t, i, job, mean);
    match i.kind {
      case Equated(x) =>
        match x {
          case TypeX(tt) => r := tt;
          case _ => r := env.basics[0];
        }
      case _ => r := t;
    }
  }

  lemma IdnDone(env: CompilerEnv, t: Typespec, i: Idn, job: Job, mean: Trees)
    requires Going(env, job, mean) && KindsAre(job.kind) && Live(job.start.id, t) && t.abs == IdnT(i) && i in job.kind
    ensures 0 < |env.basics| && t in job.img
    ensures TypeDone(env.View().id, mean, match i.kind
                                          case Equated(TypeX(tt)) => tt
                                          case Equated(_) => env.basics[0]
                                          case _ => t, job.img[t])
  {
    hide Inv, MapAbs, Comps, CompilerEnv.Valid;
    GoingIs(env, job, mean, t);
    UnknownMeans(job, env.basics[0]);
  }

  lemma UnknownMeans(job: Job, u: Typespec)
    requires Denotes(job.start.abs, job.start.id, job.kind, job.mean) && Live(job.start.id, u) && u in job.start.abs
    requires job.start.abs[u] == UnknownT
    ensures u in job.mean && job.mean[u] == Node(UnknownT)
  {
  }

  method Build(env: CompilerEnv, t: Typespec, a: Typeabs, ghost job: Job, ghost s: Env, ghost mean: Trees,
               ghost mean1: Trees)
    returns (r: Typespec, ghost mean': Trees)
    requires Going(env, job, mean1) && Onward(s, env.View(), mean, mean1) && Live(job.start.id, t)
    requires Built(env.View().id, mean1, t.abs, a, job)
    modifies env`seed, env`nodes, env.types, env.dus`Contents, env.dus.buckets, env.lib
    ensures Going(env, job, mean') && Onward(s, env.View(), mean, mean')
    ensures t in job.img && TypeDone(env.View().id, mean', r, job.img[t])
  {
    hide *;
    ghost var s1 := env.View();
    GoingIs(env, job, mean1, t);
    BuiltMeans(s1.id, mean1, t.abs, a, job.mean[t], job);
    GoingHas(env, job, mean1);
    r, mean' := MakeType(env, a, job.kind, mean1);
    MadeOnward(s, s1, env.View(), mean, mean1, mean', r);
    StillGoing(env, job, s1, mean1, mean');
  }

  lemma MadeOnward(s: Env, s1: Env, s2: Env, mean: Trees, mean1: Trees, mean2: Trees, r: Typespec)
    requires Onward(s, s1, mean, mean1) && Grown(s1, s2) && Same(s1.abs, s2.abs) && Extends(mean1, mean2)
    requires Live(s2.id, r) && r in mean2
    ensures Onward(s1, s2, mean1, mean2) && Onward(s, s2, mean, mean2) && TypeDone(s2.id, mean2, r, mean2[r])
  {
  }

  /** The canonical type a type becomes. */
  method BType(env: CompilerEnv, t: Typespec, ghost job: Job, ghost mean: Trees)
    returns (r: Typespec, ghost mean': Trees)
    requires Going(env, job, mean) && KindsAre(job.kind)
    requires Live(job.start.id, t)
    modifies env`seed, env`nodes, env.types, env.dus`Contents, env.dus.buckets, env.lib
    ensures Going(env, job, mean') && Onward(old(env.View()), env.View(), mean, mean')
    ensures t in job.img && TypeDone(env.View().id, mean', r, job.img[t])
    decreases job.start.id[t], 5
  {
    hide *;
    GoingIs(env, job, mean, t);
    var a: Typeabs;
    ghost var n, s := job.start.id[t], env.View();
    match t.abs {
      case IdnT(i) =>
        IdnKnown(t.abs, job.kind, i);
        r := BIdn(env, t, i, job, mean);
        return r, mean;
      case ClusterT(_, _) => a, mean' := BComposite(env, t.abs, job, mean, n);
      case SelectT(_, _) => a, mean' := BComposite(env, t.abs, job, mean, n);
      case ApplyT(_, _, _, _) => a, mean' := BComposite(env, t.abs, job, mean, n);
      case OtherDu(_, _) => a, mean' := BOther(env, t.abs, job, mean, n);
      case OtherOp(_, _, _) => a, mean' := BOther(env, t.abs, job, mean, n);
      case OtherReturn(_) => a, mean' := BOther(env, t.abs, job, mean, n);
      case _ =>
        UnchangedDone(env, t, job, mean);
        return t, mean;
    }
    r, mean' := Build(env, t, a, job, s, mean, mean');
  }

  /** The new description of a cluster, selector or routine type. */
  method BComposite(env: CompilerEnv, a: Typeabs, ghost job: Job, ghost mean: Trees, ghost n: nat)
    returns (b: Typeabs, ghost mean': Trees)
    requires Going(env, job, mean) && KindsAre(job.kind) && (a.ClusterT? || a.SelectT? || a.ApplyT?)
    requires IdnsKnown(a, job.kind) && forall u :: u in Comps(a) ==> Live(job.start.id, u) && job.start.id[u] < n
    modifies env`seed, env`nodes, env.types, env.dus`Contents, env.dus.buckets, env.lib
    ensures Going(env, job, mean') && Onward(old(env.View()), env.View(), mean, mean')
    ensures Built(env.View().id, mean', a, b, job)
    decreases n, 4
  {
    hide *;
    ListsSmaller(a, job, n);
    match a {
      case ClusterT(g, xs) =>
        var ys;
        ys, mean' := BExprList(env, xs, job, mean, n);
        b := ClusterT(g, ys);
        BuiltExprs(env.View().id, mean', g, xs, ys, job);
      case SelectT(g, fs) =>
        var gs;
        gs, mean' := BFields(env, fs, job, mean, n);
        b := SelectT(g, gs);
        BuiltSelect(env.View().id, mean', g, fs, gs, job);
      case ApplyT(_, _, _, _) =>
        b, mean' := BRoutine(env, a, job, mean, n);
    }
  }

  /** The new description of a type standing for a unit, an operation or a result. */
  method BOther(env: CompilerEnv, a: Typeabs, ghost job: Job, ghost mean: Trees, ghost n: nat)
    returns (b: Typeabs, ghost mean': Trees)
    requires Going(env, job, mean) && KindsAre(job.kind) && (a.OtherDu? || a.OtherOp? || a.OtherReturn?)
    requires IdnsKnown(a, job.kind) && forall u :: u in Comps(a) ==> Live(job.start.id, u) && job.start.id[u] < n
    modifies env`seed, env`nodes, env.types, env.dus`Contents, env.dus.buckets, env.lib
    ensures Going(env, job, mean') && Onward(old(env.View()), env.View(), mean, mean')
    ensures Built(env.View().id, mean', a, b, job)
    decreases n, 4
  {
    hide *;
    ListsSmaller(a, job, n);
    ghost var s := env.View();
    match a {
      case OtherDu(g, xs) =>
        var ys;
        ys, mean' := BExprList(env, xs, job, mean, n);
        b := OtherDu(g, ys);
        BuiltExprs(env.View().id, mean', g, xs, ys, job);
      case OtherOp(u, name, xs) =>
        var v, ys;
        v, mean' := BType(env, u, job, mean);
        ghost var s1, mean1 := env.View(), mean';
        ys, mean' := BExprList(env, xs, job, mean', n);
        b := OtherOp(v, name, ys);
        OnwardTwice(s, s1, env.View(), mean, mean1, mean');
        BuiltOp(s1, env.View(), mean1, mean', u, v, name, xs, ys, job);
      case OtherReturn(u) =>
        var v;
        v, mean' := BType(env, u, job, mean);
        b := OtherReturn(v);
        BuiltReturn(env.View().id, mean', u, v, job);
    }
  }

  method BTypeList(env: CompilerEnv, ts: seq<Typespec>, ghost job: Job, ghost mean: Trees, ghost n: nat)
    returns (rs: seq<Typespec>, ghost mean': Trees)
    requires Going(env, job, mean) && KindsAre(job.kind)
    requires forall t :: t in ts ==> Live(job.start.id, t) && job.start.id[t] < n
    modifies env`seed, env`nodes, env.types, env.dus`Contents, env.dus.buckets, env.lib
    ensures Going(env, job, mean') && Onward(old(env.View()), env.View(), mean, mean')
    ensures TypesDone(env.View().id, mean', rs, ts, job.img)
    decreases n, 1
  {
    hide *;
    rs, mean' := [], mean;
    ghost var s := env.View();
    GoingStarts(env, job, mean);
    for k := 0 to |ts|
      invariant Going(env, job, mean') && KindsAre(job.kind) && Onward(s, env.View(), mean, mean')
      invariant TypesDone(env.View().id, mean', rs, ts[..k], job.img)
    {
      ghost var s1, mean1 := env.View(), mean';
      var r;
      r, mean' := BType(env, ts[k], job, mean');
      OnwardTwice(s, s1, env.View(), mean, mean1, mean');
      NextType(s1, env.View(), mean1, mean', rs, ts, k, r, job.img);
      rs := rs + [r];
    }
    assert ts[..|ts|] == ts;
  }

  method BExpr(env: CompilerEnv, x: Expr<Typespec>, ghost job: Job, ghost mean: Trees, ghost n: nat)
    returns (y: Expr<Typespec>, ghost mean': Trees)
    requires Going(env, job, mean) && KindsAre(job.kind)
    requires x.TypeX? ==> Live(job.start.id, x.typ) && job.start.id[x.typ] < n
    requires x.IdnX? ==> x.idn in job.kind
    modifies env`seed, env`nodes, env.types, env.dus`Contents, env.dus.buckets, env.lib
    ensures Going(env, job, mean') && Onward(old(env.View()), env.View(), mean, mean')
    ensures EquatesKnown(job.kind, job.mean) && (x.TypeX? ==> x.typ in job.img)
    ensures ExprDone(env.View().id, mean', y, SubstExpr(x, job.kind, job.mean, job.img))
    decreases n, 0
  {
    hide *;
    mean' := mean;
    GoingStarts(env, job, mean);
    match x {
      case TypeX(t) =>
        var r;
        r, mean' := BType(env, t, job, mean);
        y := TypeX(r);
        TypeExprDone(env.View().id, mean', r, t, job);
      case IdnX(i) =>
        match i.kind {
          case Equated(k) => y := k;
          case _ => y := x;
        }
        IdnExprDone(env, job, mean, i, y);
      case _ =>
        y := x;
        OtherExprDone(env.View().id, mean, x, job);
    }
  }

  method BExprList(env: CompilerEnv, xs: seq<Expr<Typespec>>, ghost job: Job, ghost mean: Trees, ghost n: nat)
    returns (ys: seq<Expr<Typespec>>, ghost mean': Trees)
    requires Going(env, job, mean) && KindsAre(job.kind)
    requires ExprIdnsKnown(xs, job.kind)
    requires forall u :: u in ExprTypes(xs) ==> Live(job.start.id, u) && job.start.id[u] < n
    modifies env`seed, env`nodes, env.types, env.dus`Contents, env.dus.buckets, env.lib
    ensures Going(env, job, mean') && Onward(old(env.View()), env.View(), mean, mean')
    ensures ExprsDone(env.View().id, mean', ys, xs, job)
    decreases n, 1
  {
    hide *;
    ys, mean' := [], mean;
    ghost var s := env.View();
    GoingStarts(env, job, mean);
    for k := 0 to |xs|
      invariant Going(env, job, mean') && KindsAre(job.kind) && Onward(s, env.View(), mean, mean')
      invariant ExprsDone(env.View().id, mean', ys, xs[..k], job)
    {
      ghost var s1, mean1 := env.View(), mean';
      var y;
      AnExpr(xs, job.kind, k);
      y, mean' := BExpr(env, xs[k], job, mean', n);
      OnwardTwice(s, s1, env.View(), mean, mean1, mean');
      NextExpr(s1, env.View(), mean1, mean', ys, xs, k, y, job);
      ys := ys + [y];
    }
    assert xs[..|xs|] == xs;
  }

  method BFields(env: CompilerEnv, fs: seq<Field<Typespec>>, ghost job: Job, ghost mean: Trees, ghost n: nat)
    returns (gs: seq<Field<Typespec>>, ghost mean': Trees)
    requires Going(env, job, mean) && KindsAre(job.kind)
    requires forall f :: f in fs ==> Live(job.start.id, f.typ) && job.start.id[f.typ] < n
    modifies env`seed, env`nodes, env.types, env.dus`Contents, env.dus.buckets, env.lib
    ensures Going(env, job, mean') && Onward(old(env.View()), env.View(), mean, mean')
    ensures FieldsDone(env.View().id, mean', gs, fs, job.img)
    decreases n, 1
  {
    hide *;
    gs, mean' := [], mean;
    ghost var s := env.View();
    GoingStarts(env, job, mean);
    for k := 0 to |fs|
      invariant Going(env, job, mean') && KindsAre(job.kind) && Onward(s, env.View(), mean, mean')
      invariant FieldsDone(env.View().id, mean', gs, fs[..k], job.img)
    {
      ghost var s1, mean1 := env.View(), mean';
      var r;
      assert fs[k] in fs;
      r, mean' := BType(env, fs[k].typ, job, mean');
      OnwardTwice(s, s1, env.View(), mean, mean1, mean');
      NextField(s1, env.View(), mean1, mean', gs, fs, k, r, job.img);
      gs := gs + [Field(fs[k].sel, r)];
    }
    assert fs[..|fs|] == fs;
  }

  method BSigs(env: CompilerEnv, ss: seq<Exception<Typespec>>, ghost job: Job, ghost mean: Trees, ghost n: nat)
    returns (us: seq<Exception<Typespec>>, ghost mean': Trees)
    requires Going(env, job, mean) && KindsAre(job.kind)
    requires forall s, t :: s in ss && t in s.types ==> Live(job.start.id, t) && job.start.id[t] < n
    modifies env`seed, env`nodes, env.types, env.dus`Contents, env.dus.buckets, env.lib
    ensures Going(env, job, mean') && Onward(old(env.View()), env.View(), mean, mean')
    ensures SigsDone(env.View().id, mean', us, ss, job.img)
    decreases n, 2
  {
    hide *;
    us, mean' := [], mean;
    ghost var s := env.View();
    GoingStarts(env, job, mean);
    for k := 0 to |ss|
      invariant Going(env, job, mean') && KindsAre(job.kind) && Onward(s, env.View(), mean, mean')
      invariant SigsDone(env.View().id, mean', us, ss[..k], job.img)
    {
      ghost var s1, mean1 := env.View(), mean';
      var rs;
      assert ss[k] in ss;
      rs, mean' := BTypeList(env, ss[k].types, job, mean', n);
      OnwardTwice(s, s1, env.View(), mean, mean1, mean');
      NextSig(s1, env.View(), mean1, mean', us, ss, k, rs, job.img);
      us := us + [Exception(ss[k].name, rs)];
    }
    assert ss[..|ss|] == ss;
  }

  /** A routine type: signals first, then arguments, then results. */
  method BRoutine(env: CompilerEnv, a: Typeabs, ghost job: Job, ghost mean: Trees, ghost n: nat)
    returns (b: Typeabs, ghost mean': Trees)
    requires Going(env, job, mean) && KindsAre(job.kind)
    requires a.ApplyT? && RoutineSmaller(a, job, n)
    modifies env`seed, env`nodes, env.types, env.dus`Contents, env.dus.buckets, env.lib
    ensures Going(env, job, mean') && Onward(old(env.View()), env.View(), mean, mean')
    ensures Built(env.View().id, mean', a, b, job)
    decreases n, 3
  {
    hide *;
    ghost var s := env.View();
    RoutineIs(a, job, n);
    var us, args, vals;
    us, mean' := BSigs(env, a.sigs, job, mean, n);
    ghost var s1, mean1 := env.View(), mean';
    args, mean' := BTypeList(env, a.args, job, mean', n);
    ghost var s2, mean2 := env.View(), mean';
    vals, mean' := BTypeList(env, a.vals, job, mean', n);
    b := ApplyT(a.gen, args, vals, us);
    OnwardTwice(s1, s2, env.View(), mean1, mean2, mean');
    OnwardTwice(s, s1, env.View(), mean, mean1, mean');
    BuiltRoutine(s1, s2, env.View(), mean1, mean2, mean', a, us, args, vals, job);
  }

  // ----- b_type from outside -----

  /** Every identifier of a live type has its kind recorded, equated ones are
      equated to live types, and there is an unknown type. */
  ghost predicate Substitutable(env: CompilerEnv, s: Env, kind: Kinds) {
    && (forall t :: Live(s.id, t) ==> t in s.abs && IdnsKnown(s.abs[t], kind)) && EquatesLive(s.id, kind)
    && 0 < |env.basics| && Live(s.id, env.basics[0]) && env.basics[0] in s.abs && s.abs[env.basics[0]] == UnknownT
  }

  /** b_type answers the one canonical type of the tree with every equated
      identifier replaced: the very same type if and only if there is none that
      is equated to something else than itself, and what it is equated to for an
      equated identifier alone. */
  method SubstituteType(env: CompilerEnv, t: Typespec, ghost kind: Kinds, ghost mean: Trees)
    returns (r: Typespec, ghost mean': Trees)
    requires Ready(env, kind, mean) && KindsAre(kind) && Substitutable(env, env.View(), kind) && Live(env.View().id, t)
    modifies env`seed, env`nodes, env.types, env.dus`Contents, env.dus.buckets, env.lib
    ensures Ready(env, kind, mean') && Onward(old(env.View()), env.View(), mean, mean') && Live(env.View().id, r)
    ensures Layered(old(env.View())) && mean.Keys == old(env.View()).id.Keys && EquatesKnown(kind, mean)
    ensures r in mean' && mean'[r] == SubstTree(old(env.View()), kind, mean, t)
    ensures r == t <==> !Mentions(old(env.View()), kind, t)
    ensures t.abs.IdnT? && t.abs.idn.kind.Equated? ==>
              r == if t.abs.idn.kind.x.TypeX? then t.abs.idn.kind.x.typ else env.basics[0]
  {
    hide *;
    ghost var s := env.View();
    ReadyIs(env, kind, mean);
    InvLayered(s);
    Domains(s, kind, mean);
    Equates(env, s, kind, mean);
    ImageSubstitutes(s, kind, mean);
    ghost var job := Job(s, kind, mean, Image(s, kind, mean));
    JobStarts(env, job);
    r, mean' := BType(env, t, job, mean);
    Answered(env, job, mean', t, r);
  }

  lemma Answered(env: CompilerEnv, job: Job, mean': Trees, t: Typespec, r: Typespec)
    requires Going(env, job, mean') && KindsAre(job.kind) && Substitutable(env, job.start, job.kind)
    requires Layered(job.start) && job.mean.Keys == job.start.id.Keys && EquatesKnown(job.kind, job.mean)
    requires Live(job.start.id, t) && t in job.img && TypeDone(env.View().id, mean', r, job.img[t])
    ensures Ready(env, job.kind, mean') && Onward(job.start, env.View(), job.mean, mean') && Live(env.View().id, r)
    ensures r in mean' && mean'[r] == SubstTree(job.start, job.kind, job.mean, t)
    ensures r == t <==> !Mentions(job.start, job.kind, t)
    ensures 0 < |env.basics|
    ensures t.abs.IdnT? && t.abs.idn.kind.Equated? ==>
              r == if t.abs.idn.kind.x.TypeX? then t.abs.idn.kind.x.typ else env.basics[0]
  {
    hide *;
    GoingHas(env, job, mean');
    BaseHas(env, job);
    SubstUnique(job.start, job.kind, job.mean, job.img, t);
    ReadyIs(env, job.kind, mean');
    TypeDoneIs(env.View().id, mean', r, job.img[t]);
    SameIfUnmentioned(job.start, env.View(), job, mean', t, r);
    GoingIs(env, job, mean', t);
    if t.abs.IdnT? && t.abs.idn.kind.Equated? {
      var u := EquatedIs(env, job.start, job.kind, job.mean, t);
      OnwardIs(job.start, env.View(), job.mean, mean', u);
      TypeDoneIs(env.View().id, mean', u, job.mean[u]);
      SameTypeIffSameTree(env.View(), job.kind, mean', r, u);
    }
  }

  lemma BaseHas(env: CompilerEnv, job: Job)
    requires Base(env, job)
    ensures Denotes(job.start.abs, job.start.id, job.kind, job.mean) && EquatesLive(job.start.id, job.kind)
    ensures Substitutes(job.start, job.kind, job.mean, job.img) && 0 < |env.basics|
  {
  }

  lemma TypeDoneIs(id: TypeIds, mean: Trees, r: Typespec, want: Tree)
    requires TypeDone(id, mean, r, want)
    ensures Live(id, r) && r in mean && mean[r] == want
  {
  }

  /** The type that an equated identifier becomes. */
  lemma EquatedIs(env: CompilerEnv, s: Env, kind: Kinds, mean: Trees, t: Typespec) returns (u: Typespec)
    requires Layered(s) && Denotes(s.abs, s.id, kind, mean) && EquatesKnown(kind, mean) && Live(s.id, t)
    requires mean.Keys == s.id.Keys && KindsAre(kind) && Substitutable(env, s, kind)
    requires t in s.abs && s.abs[t] == t.abs && t.abs.IdnT? && t.abs.idn.kind.Equated?
    ensures 0 < |env.basics|
    ensures u == if t.abs.idn.kind.x.TypeX? then t.abs.idn.kind.x.typ else env.basics[0]
    ensures Live(s.id, u) && u in mean && u in s.abs && mean[u] == SubstTree(s, kind, mean, t)
  {
    hide Layered, SubstTree, Comps, MapAbs;
    ImageOfIdn(s, kind, mean, t);
    u := if t.abs.idn.kind.x.TypeX? then t.abs.idn.kind.x.typ else env.basics[0];
    UnknownMeans(Job(s, kind, mean, map[]), env.basics[0]);
    assert t.abs.idn in kind;
  }

  lemma Equates(env: CompilerEnv, s: Env, kind: Kinds, mean: Trees)
    requires Substitutable(env, s, kind) && mean.Keys == s.id.Keys
    ensures EquatesKnown(kind, mean)
  {
  }

  lemma JobStarts(env: CompilerEnv, job: Job)
    requires Ready(env, job.kind, job.mean) && job.start == env.View() && Substitutable(env, job.start, job.kind)
    requires Layered(job.start) && Substitutes(job.start, job.kind, job.mean, job.img)
    ensures Going(env, job, job.mean)
  {
    hide Layered, Denotes, Substitutes, EquatesLive, IdnsKnown, CompilerEnv.Valid, Inv;
    ReadyIs(env, job.kind, job.mean);
  }

  lemma SameIfUnmentioned(s: Env, s': Env, job: Job, mean': Trees, t: Typespec, r: Typespec)
    requires s == job.start && Layered(s) && Denotes(s.abs, s.id, job.kind, job.mean)
    requires Substitutes(s, job.kind, job.mean, job.img) && EquatesLive(s.id, job.kind) && Live(s.id, t)
    requires Inv(s') && Denotes(s'.abs, s'.id, job.kind, mean') && Onward(s, s', job.mean, mean')
    requires t in job.img && TypeDone(s'.id, mean', r, job.img[t])
    ensures Live(s'.id, r) && r in mean' && mean'[r] == job.img[t]
    ensures r == t <==> !Mentions(s, job.kind, t)
  {
    hide Inv, MapAbs, Comps, Mentions;
    if Mentions(s, job.kind, t) {
      MentionedOther(s, job.kind, job.mean, job.img, t);
    } else {
      UnmentionedSame(s, job.kind, job.mean, job.img, t);
    }
    SameTypeIffSameTree(s', job.kind, mean', t, r);
  }
}
