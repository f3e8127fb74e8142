/** Component types of a description, and replacing them through a map. Both
    what the hash table compares (ids) and what a type means (trees) are images
    of a description under such a map, which is what lets facts move from one
    to the other. */
module Shapes {
  import opened Syntax

  ghost function Elems<T>(s: seq<T>): set<T> {
    set t | t in s
  }

  ghost function ExprTypes<T>(xs: seq<Expr<T>>): set<T> {
    set x | x in xs && x.TypeX? :: x.typ
  }

  ghost function FieldTypes<T>(fs: seq<Field<T>>): set<T> {
    set f | f in fs :: f.typ
  }

  ghost function SigTypes<T>(sigs: seq<Exception<T>>): set<T> {
    set s, t | s in sigs && t in s.types :: t
  }

  /** The component types of a description. */
  ghost function Comps<G, T>(a: Abs<G, T>): set<T> {
    match a
    case ApplyT(_, args, vals, sigs) => Elems(args) + Elems(vals) + SigTypes(sigs)
    case ClusterT(_, parms) => ExprTypes(parms)
    case TypeT(_, parms) => ExprTypes(parms)
    case SelectT(_, fields) => FieldTypes(fields)
    case OtherDu(_, parms) => ExprTypes(parms)
    case OtherOp(t, _, parms) => {t} + ExprTypes(parms)
    case OtherReturn(t) => {t}
    case _ => {}
  }

  ghost function MapSeq<T, U>(s: seq<T>, m: map<T, U>): (r: seq<U>)
    requires Elems(s) <= m.Keys
    ensures |r| == |s| && forall i :: 0 <= i < |s| ==> r[i] == m[s[i]]
  {
    seq(|s|, i requires 0 <= i < |s| => m[s[i]])
  }

  ghost function MapExpr<T, U>(x: Expr<T>, m: map<T, U>): Expr<U>
    requires x.TypeX? ==> x.typ in m
  {
    match x
    case NullX => NullX
    case BoolX(b) => BoolX(b)
    case IntX(n) => IntX(n)
    case RealX(r) => RealX(r)
    case CharX(c) => CharX(c)
    case StrX(s) => StrX(s)
    case TypeX(t) => TypeX(m[t])
    case IdnX(i) => IdnX(i)
    case BadX => BadX
  }

  ghost function MapExprs<T, U>(xs: seq<Expr<T>>, m: map<T, U>): (r: seq<Expr<U>>)
    requires ExprTypes(xs) <= m.Keys
    ensures |r| == |xs|
    ensures forall i :: 0 <= i < |xs| ==> (xs[i].TypeX? ==> xs[i].typ in m) && r[i] == MapExpr(xs[i], m)
  {
    assert forall i :: 0 <= i < |xs| && xs[i].TypeX? ==> xs[i].typ in ExprTypes(xs);
    seq(|xs|, i requires 0 <= i < |xs| => MapExpr(xs[i], m))
  }

  ghost function MapFields<T, U>(fs: seq<Field<T>>, m: map<T, U>): (r: seq<Field<U>>)
    requires FieldTypes(fs) <= m.Keys
    ensures |r| == |fs|
    ensures forall i :: 0 <= i < |fs| ==> fs[i].typ in m && r[i] == Field(fs[i].sel, m[fs[i].typ])
  {
    assert forall i :: 0 <= i < |fs| ==> fs[i].typ in FieldTypes(fs);
    seq(|fs|, i requires 0 <= i < |fs| => Field(fs[i].sel, m[fs[i].typ]))
  }

  ghost function MapSigs<T, U>(sigs: seq<Exception<T>>, m: map<T, U>): (r: seq<Exception<U>>)
    requires SigTypes(sigs) <= m.Keys
    ensures |r| == |sigs|
    ensures forall i :: 0 <= i < |sigs| ==>
              Elems(sigs[i].types) <= m.Keys && r[i] == Exception(sigs[i].name, MapSeq(sigs[i].types, m))
  {
    assert forall i, t :: 0 <= i < |sigs| && t in sigs[i].types ==> t in SigTypes(sigs);
    seq(|sigs|, i requires 0 <= i < |sigs| => Exception(sigs[i].name, MapSeq(sigs[i].types, m)))
  }

  /** The description with generators named and components replaced by m. */
  ghost function MapAbs<T, U>(a: Abs<Du, T>, m: map<T, U>): Abs<Name, U>
    requires Comps(a) <= m.Keys
  {
    match a
    case AnyT => AnyT
    case CvtT => CvtT
    case UnknownT => UnknownT
    case ApplyT(g, args, vals, sigs) =>
      ApplyT(g.unique, MapSeq(args, m), MapSeq(vals, m), MapSigs(sigs, m))
    case ClusterT(g, parms) => ClusterT(g.unique, MapExprs(parms, m))
    case TypeT(g, parms) => TypeT(g.unique, MapExprs(parms, m))
    case SelectT(g, fields) => SelectT(g.unique, MapFields(fields, m))
    case IdnT(i) => IdnT(i)
    case OtherDu(g, parms) => OtherDu(g.unique, MapExprs(parms, m))
    case OtherOp(t, name, parms) => OtherOp(m[t], name, MapExprs(parms, m))
    case OtherReturn(t) => OtherReturn(m[t])
  }

  lemma MapSeqFactor<T, U, V>(a: seq<T>, b: seq<T>, m: map<T, U>, n: map<T, V>)
    requires Elems(a) + Elems(b) <= m.Keys && Elems(a) + Elems(b) <= n.Keys
    requires forall t, u :: t in Elems(a) && u in Elems(b) && m[t] == m[u] ==> n[t] == n[u]
    requires MapSeq(a, m) == MapSeq(b, m)
    ensures MapSeq(a, n) == MapSeq(b, n)
  {
  }

  lemma MapExprFactor<T, U, V>(x: Expr<T>, y: Expr<T>, m: map<T, U>, n: map<T, V>)
    requires x.TypeX? ==> x.typ in m && x.typ in n
    requires y.TypeX? ==> y.typ in m && y.typ in n
    requires x.TypeX? && y.TypeX? && m[x.typ] == m[y.typ] ==> n[x.typ] == n[y.typ]
    requires MapExpr(x, m) == MapExpr(y, m)
    ensures MapExpr(x, n) == MapExpr(y, n)
  {
  }

  lemma MapExprsFactor<T, U, V>(a: seq<Expr<T>>, b: seq<Expr<T>>, m: map<T, U>, n: map<T, V>)
    requires ExprTypes(a) + ExprTypes(b) <= m.Keys && ExprTypes(a) + ExprTypes(b) <= n.Keys
    requires forall t, u :: t in ExprTypes(a) && u in ExprTypes(b) && m[t] == m[u] ==> n[t] == n[u]
    requires MapExprs(a, m) == MapExprs(b, m)
    ensures MapExprs(a, n) == MapExprs(b, n)
  {
    hide MapExpr;
    var ma, mb, na, nb := MapExprs(a, m), MapExprs(b, m), MapExprs(a, n), MapExprs(b, n);
    assert |a| == |ma| == |mb| == |b|;
    forall i | 0 <= i < |a| ensures na[i] == nb[i] {
      assert ma[i] == MapExpr(a[i], m) && mb[i] == MapExpr(b[i], m);
      assert a[i].TypeX? ==> a[i].typ in ExprTypes(a);
      assert b[i].TypeX? ==> b[i].typ in ExprTypes(b);
      MapExprFactor(a[i], b[i], m, n);
    }
  }

  lemma MapFieldsFactor<T, U, V>(a: seq<Field<T>>, b: seq<Field<T>>, m: map<T, U>, n: map<T, V>)
    requires FieldTypes(a) + FieldTypes(b) <= m.Keys && FieldTypes(a) + FieldTypes(b) <= n.Keys
    requires forall t, u :: t in FieldTypes(a) && u in FieldTypes(b) && m[t] == m[u] ==> n[t] == n[u]
    requires MapFields(a, m) == MapFields(b, m)
    ensures MapFields(a, n) == MapFields(b, n)
  {
  }

  lemma MapSigsFactor<T, U, V>(a: seq<Exception<T>>, b: seq<Exception<T>>, m: map<T, U>, n: map<T, V>)
    requires SigTypes(a) + SigTypes(b) <= m.Keys && SigTypes(a) + SigTypes(b) <= n.Keys
    requires forall t, u :: t in SigTypes(a) && u in SigTypes(b) && m[t] == m[u] ==> n[t] == n[u]
    requires MapSigs(a, m) == MapSigs(b, m)
    ensures MapSigs(a, n) == MapSigs(b, n)
  {
    var ma, mb, na, nb := MapSigs(a, m), MapSigs(b, m), MapSigs(a, n), MapSigs(b, n);
    assert |a| == |ma| == |mb| == |b|;
    forall i | 0 <= i < |a| ensures na[i] == nb[i] {
      assert ma[i] == Exception(a[i].name, MapSeq(a[i].types, m));
      assert mb[i] == Exception(b[i].name, MapSeq(b[i].types, m));
      assert Elems(a[i].types) <= SigTypes(a) && Elems(b[i].types) <= SigTypes(b);
      MapSeqFactor(a[i].types, b[i].types, m, n);
    }
  }

  /** Equality of images under m passes to n when m distinguishes at least
      what n distinguishes among the components. */
  lemma MapFactor<T, U, V>(a: Abs<Du, T>, b: Abs<Du, T>, m: map<T, U>, n: map<T, V>)
    requires Comps(a) + Comps(b) <= m.Keys && Comps(a) + Comps(b) <= n.Keys
    requires forall t, u :: t in Comps(a) && u in Comps(b) && m[t] == m[u] ==> n[t] == n[u]
    requires MapAbs(a, m) == MapAbs(b, m)
    ensures MapAbs(a, n) == MapAbs(b, n)
  {
    match a
    case ApplyT(_, args, vals, sigs) =>
      MapSeqFactor(args, b.args, m, n);
      MapSeqFactor(vals, b.vals, m, n);
      MapSigsFactor(sigs, b.sigs, m, n);
    case ClusterT(_, parms) => MapExprsFactor(parms, b.parms, m, n);
    case TypeT(_, parms) => MapExprsFactor(parms, b.parms, m, n);
    case SelectT(_, fields) => MapFieldsFactor(fields, b.fields, m, n);
    case OtherDu(_, parms) => MapExprsFactor(parms, b.parms, m, n);
    case OtherOp(_, _, parms) => MapExprsFactor(parms, b.parms, m, n);
    case _ =>
  }

  lemma MapSigsAgree<T, U>(sigs: seq<Exception<T>>, m: map<T, U>, n: map<T, U>)
    requires SigTypes(sigs) <= m.Keys && SigTypes(sigs) <= n.Keys
    requires forall t :: t in SigTypes(sigs) ==> m[t] == n[t]
    ensures MapSigs(sigs, m) == MapSigs(sigs, n)
  {
    var ms, ns := MapSigs(sigs, m), MapSigs(sigs, n);
    forall i | 0 <= i < |sigs| ensures ms[i] == ns[i] {
      assert Elems(sigs[i].types) <= SigTypes(sigs);
      assert MapSeq(sigs[i].types, m) == MapSeq(sigs[i].types, n);
    }
  }

  lemma MapExprsAgree<T, U>(xs: seq<Expr<T>>, m: map<T, U>, n: map<T, U>)
    requires ExprTypes(xs) <= m.Keys && ExprTypes(xs) <= n.Keys
    requires forall t :: t in ExprTypes(xs) ==> m[t] == n[t]
    ensures MapExprs(xs, m) == MapExprs(xs, n)
  {
  }

  /** The image depends only on what the map says of the components. */
  lemma MapAgree<T, U>(a: Abs<Du, T>, m: map<T, U>, n: map<T, U>)
    requires Comps(a) <= m.Keys && Comps(a) <= n.Keys
    requires forall t :: t in Comps(a) ==> m[t] == n[t]
    ensures MapAbs(a, m) == MapAbs(a, n)
  {
    match a
    case ApplyT(_, args, vals, sigs) =>
      assert Elems(args) <= Comps(a) && Elems(vals) <= Comps(a);
      assert MapSeq(args, m) == MapSeq(args, n);
      assert MapSeq(vals, m) == MapSeq(vals, n);
      MapSigsAgree(sigs, m, n);
    case ClusterT(_, parms) => MapExprsAgree(parms, m, n);
    case TypeT(_, parms) => MapExprsAgree(parms, m, n);
    case SelectT(_, fields) =>
      assert forall i :: 0 <= i < |fields| ==> fields[i].typ in FieldTypes(fields);
      assert MapFields(fields, m) == MapFields(fields, n);
    case OtherDu(_, parms) => MapExprsAgree(parms, m, n);
    case OtherOp(_, _, parms) => MapExprsAgree(parms, m, n);
    case _ =>
  }

  // ----- what an image tells apart -----

  lemma MapExprsDiffer<T, U>(xs: seq<Expr<T>>, m: map<T, U>, n: map<T, U>, t: T)
    requires ExprTypes(xs) <= m.Keys && ExprTypes(xs) <= n.Keys && t in ExprTypes(xs) && m[t] != n[t]
    ensures MapExprs(xs, m) != MapExprs(xs, n)
  {
    var i :| 0 <= i < |xs| && xs[i].TypeX? && xs[i].typ == t;
    assert MapExprs(xs, m)[i] == TypeX(m[t]) && MapExprs(xs, n)[i] == TypeX(n[t]);
  }

  lemma MapSeqDiffers<T, U>(s: seq<T>, m: map<T, U>, n: map<T, U>, t: T)
    requires Elems(s) <= m.Keys && Elems(s) <= n.Keys && t in Elems(s) && m[t] != n[t]
    ensures MapSeq(s, m) != MapSeq(s, n)
  {
    var i :| 0 <= i < |s| && s[i] == t;
    assert MapSeq(s, m)[i] != MapSeq(s, n)[i];
  }

  lemma MapFieldsDiffer<T, U>(fs: seq<Field<T>>, m: map<T, U>, n: map<T, U>, t: T)
    requires FieldTypes(fs) <= m.Keys && FieldTypes(fs) <= n.Keys && t in FieldTypes(fs) && m[t] != n[t]
    ensures MapFields(fs, m) != MapFields(fs, n)
  {
    var i :| 0 <= i < |fs| && fs[i].typ == t;
    assert MapFields(fs, m)[i] != MapFields(fs, n)[i];
  }

  lemma MapSigsDiffer<T, U>(sigs: seq<Exception<T>>, m: map<T, U>, n: map<T, U>, t: T)
    requires SigTypes(sigs) <= m.Keys && SigTypes(sigs) <= n.Keys && t in SigTypes(sigs) && m[t] != n[t]
    ensures MapSigs(sigs, m) != MapSigs(sigs, n)
  {
    hide MapSeq;
    var i :| 0 <= i < |sigs| && t in sigs[i].types;
    assert Elems(sigs[i].types) <= SigTypes(sigs);
    MapSeqDiffers(sigs[i].types, m, n, t);
    assert MapSigs(sigs, m)[i] != MapSigs(sigs, n)[i];
  }

  /** Every component shows in the image. */
  lemma MapDiffers<T, U>(a: Abs<Du, T>, m: map<T, U>, n: map<T, U>, t: T)
    requires Comps(a) <= m.Keys && Comps(a) <= n.Keys && t in Comps(a) && m[t] != n[t]
    ensures MapAbs(a, m) != MapAbs(a, n)
  {
    hide MapSeq, MapExprs, MapFields, MapSigs, Elems, ExprTypes, FieldTypes, SigTypes;
    match a
    case ApplyT(_, args, vals, sigs) =>
      if t in Elems(args) {
        MapSeqDiffers(args, m, n, t);
      } else if t in Elems(vals) {
        MapSeqDiffers(vals, m, n, t);
      } else {
        MapSigsDiffer(sigs, m, n, t);
      }
    case ClusterT(_, parms) => MapExprsDiffer(parms, m, n, t);
    case TypeT(_, parms) => MapExprsDiffer(parms, m, n, t);
    case SelectT(_, fields) => MapFieldsDiffer(fields, m, n, t);
    case OtherDu(_, parms) => MapExprsDiffer(parms, m, n, t);
    case OtherOp(u, _, parms) => if t != u { MapExprsDiffer(parms, m, n, t); }
    case _ =>
  }

  ghost function Itself<T>(c: set<T>): map<T, T> {
    map t | t in c :: t
  }

  lemma SeqItself<T>(s: seq<T>, m: map<T, T>)
    requires Elems(s) <= m.Keys && forall t :: t in m ==> m[t] == t
    ensures MapSeq(s, m) == s
  {
  }

  lemma ExprsItself<T>(xs: seq<Expr<T>>, m: map<T, T>)
    requires ExprTypes(xs) <= m.Keys && forall t :: t in m ==> m[t] == t
    ensures MapExprs(xs, m) == xs
  {
  }

  lemma FieldsItself<T>(fs: seq<Field<T>>, m: map<T, T>)
    requires FieldTypes(fs) <= m.Keys && forall t :: t in m ==> m[t] == t
    ensures MapFields(fs, m) == fs
  {
  }

  lemma SigsItself<T>(sigs: seq<Exception<T>>, m: map<T, T>)
    requires SigTypes(sigs) <= m.Keys && forall t :: t in m ==> m[t] == t
    ensures MapSigs(sigs, m) == sigs
  {
    var r := MapSigs(sigs, m);
    forall i | 0 <= i < |sigs| ensures r[i] == sigs[i] {
      assert Elems(sigs[i].types) <= SigTypes(sigs);
      SeqItself(sigs[i].types, m);
    }
  }

  /** With every component standing for itself nothing of a description is lost
      but which of the units of its name is its generator. */
  lemma ImageTellsApart<T>(a: Abs<Du, T>, b: Abs<Du, T>)
    ensures MapAbs(a, Itself(Comps(a))) == MapAbs(b, Itself(Comps(b))) <==>
            if a.HasGen() then b.HasGen() && a.Gen().unique == b.Gen().unique && a.WithGen(b.Gen()) == b
            else a == b
  {
    hide MapSeq, MapExprs, MapFields, MapSigs, Elems, ExprTypes, FieldTypes, SigTypes;
    PartsItself(a);
    PartsItself(b);
  }

  lemma PartsItself<T>(a: Abs<Du, T>)
    ensures var m := Itself(Comps(a));
            && (a.ApplyT? ==>
                  MapSeq(a.args, m) == a.args && MapSeq(a.vals, m) == a.vals && MapSigs(a.sigs, m) == a.sigs)
            && (a.ClusterT? || a.TypeT? || a.OtherDu? || a.OtherOp? ==> MapExprs(a.parms, m) == a.parms)
            && (a.SelectT? ==> MapFields(a.fields, m) == a.fields)
  {
    hide MapSeq, MapExprs, MapFields, MapSigs, Elems, ExprTypes, FieldTypes, SigTypes;
    var m := Itself(Comps(a));
    match a
    case ApplyT(_, args, vals, sigs) =>
      SeqItself(args, m);
      SeqItself(vals, m);
      SigsItself(sigs, m);
    case ClusterT(_, parms) => ExprsItself(parms, m);
    case TypeT(_, parms) => ExprsItself(parms, m);
    case SelectT(_, fields) => FieldsItself(fields, m);
    case OtherDu(_, parms) => ExprsItself(parms, m);
    case OtherOp(_, _, parms) => ExprsItself(parms, m);
    case _ =>
  }

  // ----- the components of an image -----

  lemma ElemsOfMap<T, U>(s: seq<T>, m: map<T, U>)
    requires Elems(s) <= m.Keys
    ensures Elems(MapSeq(s, m)) == set t | t in Elems(s) :: m[t]
  {
    var r := MapSeq(s, m);
    forall t | t in Elems(s) ensures m[t] in Elems(r) {
      var i :| 0 <= i < |s| && s[i] == t;
      assert r[i] == m[t];
    }
  }

  lemma ExprTypesOfMap<T, U>(xs: seq<Expr<T>>, m: map<T, U>)
    requires ExprTypes(xs) <= m.Keys
    ensures ExprTypes(MapExprs(xs, m)) == set t | t in ExprTypes(xs) :: m[t]
  {
    var r := MapExprs(xs, m);
    forall t | t in ExprTypes(xs) ensures m[t] in ExprTypes(r) {
      var i :| 0 <= i < |xs| && xs[i].TypeX? && xs[i].typ == t;
      assert r[i] == TypeX(m[t]);
    }
    forall u | u in ExprTypes(r) ensures exists t :: t in ExprTypes(xs) && m[t] == u {
      var i :| 0 <= i < |r| && r[i].TypeX? && r[i].typ == u;
      assert r[i] == MapExpr(xs[i], m) && xs[i].typ in ExprTypes(xs);
    }
  }

  lemma FieldTypesOfMap<T, U>(fs: seq<Field<T>>, m: map<T, U>)
    requires FieldTypes(fs) <= m.Keys
    ensures FieldTypes(MapFields(fs, m)) == set t | t in FieldTypes(fs) :: m[t]
  {
    var r := MapFields(fs, m);
    forall t | t in FieldTypes(fs) ensures m[t] in FieldTypes(r) {
      var i :| 0 <= i < |fs| && fs[i].typ == t;
      assert r[i].typ == m[t];
    }
    forall u | u in FieldTypes(r) ensures exists t :: t in FieldTypes(fs) && m[t] == u {
      var i :| 0 <= i < |r| && r[i].typ == u;
      assert fs[i].typ in FieldTypes(fs);
    }
  }

  lemma SigTypesOfMap<T, U>(sigs: seq<Exception<T>>, m: map<T, U>)
    requires SigTypes(sigs) <= m.Keys
    ensures SigTypes(MapSigs(sigs, m)) == set t | t in SigTypes(sigs) :: m[t]
  {
    var r := MapSigs(sigs, m);
    forall t | t in SigTypes(sigs) ensures m[t] in SigTypes(r) {
      var i :| 0 <= i < |sigs| && t in sigs[i].types;
      ElemsOfMap(sigs[i].types, m);
      assert m[t] in Elems(r[i].types);
    }
    forall u | u in SigTypes(r) ensures exists t :: t in SigTypes(sigs) && m[t] == u {
      var i :| 0 <= i < |r| && u in r[i].types;
      ElemsOfMap(sigs[i].types, m);
      assert u in Elems(r[i].types) && Elems(sigs[i].types) <= SigTypes(sigs);
    }
  }

  /** The components of an image are the images of the components. */
  lemma CompsOfMap<T, U>(a: Abs<Du, T>, m: map<T, U>)
    requires Comps(a) <= m.Keys
    ensures Comps(MapAbs(a, m)) == set t | t in Comps(a) :: m[t]
  {
    hide Elems, ExprTypes, FieldTypes, SigTypes, MapSeq, MapExprs, MapFields, MapSigs;
    match a
    case ApplyT(_, args, vals, sigs) =>
      ElemsOfMap(args, m);
      ElemsOfMap(vals, m);
      SigTypesOfMap(sigs, m);
    case ClusterT(_, parms) => ExprTypesOfMap(parms, m);
    case TypeT(_, parms) => ExprTypesOfMap(parms, m);
    case SelectT(_, fields) => FieldTypesOfMap(fields, m);
    case OtherDu(_, parms) => ExprTypesOfMap(parms, m);
    case OtherOp(_, _, parms) => ExprTypesOfMap(parms, m);
    case _ =>
  }
}
