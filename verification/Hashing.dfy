/** The three hash functions of the compiler environment and the similarity
    test of its types table. Both see component types only through their ids,
    which change while types sit in the table. */
module Hashing {
  import opened Syntax
  import opened Shapes

  /** The size of each of the compiler environment's tables. */
  const SIZE := 300

  /** The library's string hash: any function into [0, z). */
  type StringHash = h: (Name, int) -> int | forall s, z :: 0 < z ==> 0 <= h(s, z) < z
    witness (s: Name, z: int) => 0

  function HashExpr(h: StringHash, x: Expr<int>, index: int, z: int): int
    requires z > 0
  {
    match x
    case TypeX(id) => (index + id) % z
    case IntX(n) => (index + n) % z
    case StrX(s) => (index + h(Name(s), z)) % z
    case _ => index
  }

  function HashExprs(h: StringHash, xs: seq<Expr<int>>, z: int): int
    requires z > 0
  {
    if xs == [] then 0 else HashExpr(h, xs[|xs| - 1], HashExprs(h, xs[..|xs| - 1], z), z)
  }

  function HashFields(index: int, fs: seq<Field<int>>, z: int): int
    requires z > 0
  {
    if fs == [] then index
    else AddWeighed(HashFields(index, fs[..|fs| - 1], z), |fs[|fs| - 1].sel.text|, fs[|fs| - 1].typ, z)
  }

  /** Component i, counted from 1, weighs i + offset. */
  function HashTypes(index: int, ids: seq<int>, offset: int, z: int): int
    requires z > 0
  {
    if ids == [] then index
    else AddWeighed(HashTypes(index, ids[..|ids| - 1], offset, z), |ids| + offset, ids[|ids| - 1], z)
  }

  function AddWeighed(index: int, weight: int, id: int, z: int): int
    requires z > 0
  {
    (index + weight * id) % z
  }

  function HashDesc(h: StringHash, d: Desc, z: int): int
    requires z > 0
  {
    match d
    case ClusterT(gen, parms) => (HashExprs(h, parms, z) + h(gen, z)) % z
    case SelectT(gen, fields) => HashFields(h(gen, z), fields, z)
    case ApplyT(gen, args, vals, _) => HashTypes(HashTypes(h(gen, z), args, 1, z), vals, 4, z)
    case IdnT(i) => h(i.str, z)
    case OtherDu(gen, parms) => (1 + h(gen, z) + HashExprs(h, parms, z)) % z
    case OtherOp(id, name, _) => (id + h(name, z)) % z
    case OtherReturn(id) => (1 + id) % z
    case UnknownT => 0
    case TypeT(_, _) => 1
    case CvtT => 2
    case AnyT => 3
  }

  // ----- what the hash adds up -----

  ghost function Sum(s: seq<int>): int {
    if s == [] then 0 else Sum(s[..|s| - 1]) + s[|s| - 1]
  }

  lemma ModPlusTimes(x: int, z: int, q: nat)
    requires z > 0
    ensures (x + z * q) % z == x % z
  {
    if q > 0 {
      ModPlusTimes(x, z, q - 1);
      var y := x + z * (q - 1);
      assert x + z * q == y + z;
      ModPlusOnce(y, z);
    }
  }

  lemma ModPlusOnce(y: int, z: int)
    requires z > 0
    ensures (y + z) % z == y % z
  {
    var k := y / z + 1 - (y + z) / z;
    assert z * k == (y + z) % z - y % z;
    Multiple(z, k);
  }

  lemma Multiple(z: int, k: int)
    requires z > 0
    ensures (k >= 1 ==> z * k >= z) && (k <= -1 ==> z * k <= -z)
  {
  }

  /** A remainder taken half way does not matter. */
  lemma ModThrough(x: int, y: int, z: int)
    requires z > 0
    ensures (x % z + y) % z == (x + y) % z
  {
    var q := x / z;
    assert x == z * q + x % z;
    if q >= 0 {
      ModPlusTimes(x % z + y, z, q);
    } else {
      ModPlusTimes(x + y, z, -q);
      assert x + y + z * -q == x % z + y;
    }
  }

  lemma SumSnoc(s: seq<int>, x: int)
    ensures Sum(s + [x]) == Sum(s) + x
  {
    assert (s + [x])[..|s|] == s;
  }

  ghost function Weighed(ids: seq<int>, first: int): (r: seq<int>)
    ensures |r| == |ids| && forall i :: 0 <= i < |ids| ==> r[i] == (first + i) * ids[i]
  {
    seq(|ids|, i requires 0 <= i < |ids| => (first + i) * ids[i])
  }

  ghost function Lengths(fs: seq<Field<int>>): (r: seq<int>)
    ensures |r| == |fs| && forall i :: 0 <= i < |fs| ==> r[i] == |fs[i].sel.text| * fs[i].typ
  {
    seq(|fs|, i requires 0 <= i < |fs| => |fs[i].sel.text| * fs[i].typ)
  }

  /** What the constants add: the ids of types, integers and hashed strings. */
  ghost function Adds(h: StringHash, xs: seq<Expr<int>>, z: int): (r: seq<int>)
    requires z > 0
    ensures |r| == |xs|
    ensures forall i :: 0 <= i < |xs| ==>
              && (xs[i].TypeX? ==> r[i] == xs[i].typ)
              && (xs[i].IntX? ==> r[i] == xs[i].n)
              && (xs[i].StrX? ==> r[i] == h(Name(xs[i].s), z))
              && (!xs[i].TypeX? && !xs[i].IntX? && !xs[i].StrX? ==> r[i] == 0)
  {
    seq(|xs|, i requires 0 <= i < |xs| =>
      match xs[i]
      case TypeX(id) => id
      case IntX(n) => n
      case StrX(s) => h(Name(s), z)
      case _ => 0)
  }

  lemma WeighedSnoc(ids: seq<int>, first: int)
    requires ids != []
    ensures var n := |ids| - 1; Weighed(ids, first) == Weighed(ids[..n], first) + [(first + n) * ids[n]]
  {
  }

  lemma LengthsSnoc(fs: seq<Field<int>>)
    requires fs != []
    ensures var n := |fs| - 1; Lengths(fs) == Lengths(fs[..n]) + [|fs[n].sel.text| * fs[n].typ]
  {
  }

  lemma {:induction false} TypesAddUp(index: int, ids: seq<int>, offset: int, z: int)
    requires z > 0 && 0 <= index < z
    ensures HashTypes(index, ids, offset, z) == (index + Sum(Weighed(ids, 1 + offset))) % z
  {
    hide Weighed, AddWeighed;
    if ids == [] {
      assert Weighed(ids, 1 + offset) == [];
      SmallMod(index, z);
    } else {
      var front, last := ids[..|ids| - 1], ids[|ids| - 1];
      TypesAddUp(index, front, offset, z);
      WeighedSnoc(ids, 1 + offset);
      SumSnoc(Weighed(front, 1 + offset), (|ids| + offset) * last);
      StepThrough(index + Sum(Weighed(front, 1 + offset)), |ids| + offset, last, z);
    }
  }

  lemma StepThrough(total: int, weight: int, id: int, z: int)
    requires z > 0
    ensures AddWeighed(total % z, weight, id, z) == (total + weight * id) % z
  {
    ModThrough(total, weight * id, z);
  }

  lemma SmallMod(x: int, z: int)
    requires 0 <= x < z
    ensures x % z == x
  {
  }

  lemma {:induction false} FieldsAddUp(index: int, fs: seq<Field<int>>, z: int)
    requires z > 0 && 0 <= index < z
    ensures HashFields(index, fs, z) == (index + Sum(Lengths(fs))) % z
  {
    hide Lengths, AddWeighed;
    if fs == [] {
      assert Lengths(fs) == [];
      SmallMod(index, z);
    } else {
      var front, last := fs[..|fs| - 1], fs[|fs| - 1];
      FieldsAddUp(index, front, z);
      LengthsSnoc(fs);
      SumSnoc(Lengths(front), |last.sel.text| * last.typ);
      StepThrough(index + Sum(Lengths(front)), |last.sel.text|, last.typ, z);
    }
  }

  lemma {:induction false} ExprsAddUp(h: StringHash, xs: seq<Expr<int>>, z: int)
    requires z > 0
    ensures HashExprs(h, xs, z) == Sum(Adds(h, xs, z)) % z
  {
    hide Adds;
    if xs == [] {
      assert Adds(h, xs, z) == [];
      SmallMod(0, z);
    } else {
      var front, x := xs[..|xs| - 1], Adds(h, xs, z)[|xs| - 1];
      ExprsAddUp(h, front, z);
      assert Adds(h, xs, z) == Adds(h, front, z) + [x];
      SumSnoc(Adds(h, front, z), x);
      ModThrough(Sum(Adds(h, front, z)), x, z);
      ModThrough(Sum(Adds(h, front, z)) + x, 0, z);
    }
  }

  /** Every description hashes to a sum of what its parts contribute, taken
      modulo the size of the table: ids of arguments weigh from 2 on and those of
      results from 5, selectors by the lengths of their names. */
  lemma HashAddsUp(h: StringHash, d: Desc, z: int)
    requires z > 0
    ensures d.ClusterT? ==> HashDesc(h, d, z) == (h(d.gen, z) + Sum(Adds(h, d.parms, z))) % z
    ensures d.SelectT? ==> HashDesc(h, d, z) == (h(d.gen, z) + Sum(Lengths(d.fields))) % z
    ensures d.ApplyT? ==> HashDesc(h, d, z) == (h(d.gen, z) + Sum(Weighed(d.args, 2)) + Sum(Weighed(d.vals, 5))) % z
    ensures d.OtherDu? ==> HashDesc(h, d, z) == (1 + h(d.gen, z) + Sum(Adds(h, d.parms, z))) % z
    ensures d.OtherOp? ==> HashDesc(h, d, z) == (d.typ + h(d.name, z)) % z
    ensures d.OtherReturn? ==> HashDesc(h, d, z) == (d.typ + 1) % z
    ensures d.IdnT? ==> HashDesc(h, d, z) == h(d.idn.str, z)
    ensures HashDesc(h, UnknownT, z) == 0 && HashDesc(h, CvtT, z) == 2 && HashDesc(h, AnyT, z) == 3
    ensures d.TypeT? ==> HashDesc(h, d, z) == 1
  {
    hide HashExprs, HashFields, HashTypes, Sum, Adds, Lengths, Weighed;
    match d
    case ClusterT(gen, parms) =>
      ExprsAddUp(h, parms, z);
      ModThrough(Sum(Adds(h, parms, z)), h(gen, z), z);
    case SelectT(gen, fields) => FieldsAddUp(h(gen, z), fields, z);
    case ApplyT(gen, args, vals, _) =>
      TypesAddUp(h(gen, z), args, 1, z);
      var mid := h(gen, z) + Sum(Weighed(args, 2));
      TypesAddUp(mid % z, vals, 4, z);
      ModThrough(mid, Sum(Weighed(vals, 5)), z);
    case OtherDu(gen, parms) =>
      ExprsAddUp(h, parms, z);
      ModThrough(Sum(Adds(h, parms, z)), 1 + h(gen, z), z);
    case _ =>
  }

  /** Four buckets are enough for every description to have one. */
  lemma HashDescRange(h: StringHash, d: Desc, z: int)
    requires z >= 4
    ensures 0 <= HashDesc(h, d, z) < z
  {
  }

  /** With fewer than four buckets the type "any" has none. */
  lemma HashDescRangeIsTight(h: StringHash, z: int)
    requires z > 0
    ensures (forall d: Desc :: 0 <= HashDesc(h, d, z) < z) <==> z >= 4
  {
    if z >= 4 {
      forall d: Desc ensures 0 <= HashDesc(h, d, z) < z { HashDescRange(h, d, z); }
    } else {
      assert HashDesc(h, AnyT, z) == 3;
    }
  }

  // ----- reading the ids of component types -----

  /** The ids at this moment of a set of type objects. */
  ghost function IdsOf(ts: set<Typespec>): map<Typespec, int>
    reads ts`id
  {
    map t | t in ts :: t.id
  }

  predicate SameIds(a: seq<Typespec>, b: seq<Typespec>)
    reads Elems(a), Elems(b)
  {
    |a| == |b| && forall i | 0 <= i < |a| ::
      assert a[i] in Elems(a) && b[i] in Elems(b); a[i].id == b[i].id
  }

  predicate SimilarExpr(x: Expr<Typespec>, y: Expr<Typespec>)
    reads if x.TypeX? then {x.typ} else {}, if y.TypeX? then {y.typ} else {}
  {
    match (x, y)
    case (NullX, NullX) => true
    case (BoolX(b), BoolX(c)) => b == c
    case (IntX(m), IntX(n)) => m == n
    case (RealX(r), RealX(s)) => r == s
    case (CharX(c), CharX(d)) => c == d
    case (StrX(s), StrX(u)) => s == u
    case (TypeX(t), TypeX(u)) => t.id == u.id
    case (IdnX(i), IdnX(j)) => i == j
    case (BadX, BadX) => true
    case _ => false
  }

  predicate SimilarExprs(xs: seq<Expr<Typespec>>, ys: seq<Expr<Typespec>>)
    reads ExprTypes(xs), ExprTypes(ys)
  {
    |xs| == |ys| && forall i | 0 <= i < |xs| ::
      assert (xs[i].TypeX? ==> xs[i].typ in ExprTypes(xs)) && (ys[i].TypeX? ==> ys[i].typ in ExprTypes(ys));
      SimilarExpr(xs[i], ys[i])
  }

  predicate SimilarFields(fs: seq<Field<Typespec>>, gs: seq<Field<Typespec>>)
    reads FieldTypes(fs), FieldTypes(gs)
  {
    |fs| == |gs| && forall i | 0 <= i < |fs| ::
      assert fs[i].typ in FieldTypes(fs) && gs[i].typ in FieldTypes(gs);
      fs[i].sel == gs[i].sel && fs[i].typ.id == gs[i].typ.id
  }

  predicate SimilarSigs(ss: seq<Exception<Typespec>>, us: seq<Exception<Typespec>>)
    reads SigTypes(ss), SigTypes(us)
  {
    |ss| == |us| && forall i | 0 <= i < |ss| ::
      assert Elems(ss[i].types) <= SigTypes(ss) && Elems(us[i].types) <= SigTypes(us);
      ss[i].name == us[i].name && SameIds(ss[i].types, us[i].types)
  }

  /** Same tag and similar parts; generators by unique name, component types
      by id, identifiers by identity. */
  predicate Similar(a: Typeabs, b: Typeabs)
    reads Comps(a), Comps(b)
  {
    match (a, b)
    case (AnyT, AnyT) => true
    case (CvtT, CvtT) => true
    case (UnknownT, UnknownT) => true
    case (ApplyT(g, args, vals, sigs), ApplyT(g', args', vals', sigs')) =>
      g.unique == g'.unique && SameIds(args, args') && SameIds(vals, vals') && SimilarSigs(sigs, sigs')
    case (ClusterT(g, p), ClusterT(g', p')) => g.unique == g'.unique && SimilarExprs(p, p')
    case (TypeT(g, p), TypeT(g', p')) => g.unique == g'.unique && SimilarExprs(p, p')
    case (SelectT(g, f), SelectT(g', f')) => g.unique == g'.unique && SimilarFields(f, f')
    case (IdnT(i), IdnT(j)) => i == j
    case (OtherDu(g, p), OtherDu(g', p')) => g.unique == g'.unique && SimilarExprs(p, p')
    case (OtherOp(t, n, p), OtherOp(t', n', p')) => t.id == t'.id && n == n' && SimilarExprs(p, p')
    case (OtherReturn(t), OtherReturn(t')) => t.id == t'.id
    case _ => false
  }

  lemma SameIdsIffMapSeq(a: seq<Typespec>, b: seq<Typespec>, id: map<Typespec, int>)
    requires Elems(a) + Elems(b) <= id.Keys && forall t :: t in id ==> id[t] == t.id
    ensures SameIds(a, b) <==> MapSeq(a, id) == MapSeq(b, id)
  {
  }

  lemma SimilarExprsIffMapExprs(a: seq<Expr<Typespec>>, b: seq<Expr<Typespec>>, id: map<Typespec, int>)
    requires ExprTypes(a) + ExprTypes(b) <= id.Keys && forall t :: t in id ==> id[t] == t.id
    ensures SimilarExprs(a, b) <==> MapExprs(a, id) == MapExprs(b, id)
  {
  }

  lemma SimilarSigsIffMapSigs(a: seq<Exception<Typespec>>, b: seq<Exception<Typespec>>, id: map<Typespec, int>)
    requires SigTypes(a) + SigTypes(b) <= id.Keys && forall t :: t in id ==> id[t] == t.id
    ensures SimilarSigs(a, b) <==> MapSigs(a, id) == MapSigs(b, id)
  {
    var ma, mb := MapSigs(a, id), MapSigs(b, id);
    if |a| == |b| {
      forall i | 0 <= i < |a|
        ensures a[i].name == b[i].name && SameIds(a[i].types, b[i].types) <==> ma[i] == mb[i]
      {
        assert Elems(a[i].types) <= SigTypes(a) && Elems(b[i].types) <= SigTypes(b);
        SameIdsIffMapSeq(a[i].types, b[i].types, id);
      }
    }
  }

  lemma SimilarFieldsIffMapFields(a: seq<Field<Typespec>>, b: seq<Field<Typespec>>, id: map<Typespec, int>)
    requires FieldTypes(a) + FieldTypes(b) <= id.Keys && forall t :: t in id ==> id[t] == t.id
    ensures SimilarFields(a, b) <==> MapFields(a, id) == MapFields(b, id)
  {
  }

  /** Similarity is equality of what the ids make of two descriptions. */
  lemma SimilarIffSameDesc(a: Typeabs, b: Typeabs, id: map<Typespec, int>)
    requires Comps(a) + Comps(b) <= id.Keys && forall t :: t in id ==> id[t] == t.id
    ensures Similar(a, b) <==> MapAbs(a, id) == MapAbs(b, id)
  {
    hide SameIds, SimilarExprs, SimilarFields, SimilarSigs, MapSeq, MapExprs, MapFields, MapSigs,
      Elems, ExprTypes, FieldTypes, SigTypes;
    match a
    case ApplyT(_, args, vals, sigs) =>
      if b.ApplyT? {
        SameIdsIffMapSeq(args, b.args, id);
        SameIdsIffMapSeq(vals, b.vals, id);
        SimilarSigsIffMapSigs(sigs, b.sigs, id);
      }
    case ClusterT(_, parms) => if b.ClusterT? { SimilarExprsIffMapExprs(parms, b.parms, id); }
    case TypeT(_, parms) => if b.TypeT? { SimilarExprsIffMapExprs(parms, b.parms, id); }
    case SelectT(_, fields) => if b.SelectT? { SimilarFieldsIffMapFields(fields, b.fields, id); }
    case OtherDu(_, parms) => if b.OtherDu? { SimilarExprsIffMapExprs(parms, b.parms, id); }
    case OtherOp(_, _, parms) => if b.OtherOp? { SimilarExprsIffMapExprs(parms, b.parms, id); }
    case _ =>
  }

  /** What the table cluster asks of its hasher: similar keys hash alike, and
      into the table. */
  lemma SimilarHashAlike(h: StringHash, a: Typeabs, b: Typeabs, z: int)
    requires z >= 4 && Similar(a, b)
    ensures var id := IdsOf(Comps(a) + Comps(b));
            0 <= HashDesc(h, MapAbs(a, id), z) == HashDesc(h, MapAbs(b, id), z) < z
  {
    var id := IdsOf(Comps(a) + Comps(b));
    SimilarIffSameDesc(a, b, id);
    HashDescRange(h, MapAbs(a, id), z);
  }

  /** Canonicalising the generator of a bound key leaves its bucket alone. */
  lemma FixupKeepsBucket(h: StringHash, a: Typeabs, g: Du, z: int)
    requires z > 0 && a.HasGen() && g.unique == a.Gen().unique
    ensures var id := IdsOf(Comps(a));
            Comps(a.WithGen(g)) == Comps(a) &&
            HashDesc(h, MapAbs(a.WithGen(g), id), z) == HashDesc(h, MapAbs(a, id), z) &&
            Similar(a, a.WithGen(g))
  {
  }

  // ----- the loops of the source -----

  method HashExprList(h: StringHash, xs: seq<Expr<Typespec>>, z: int) returns (index: int)
    requires z > 0
    ensures index == HashExprs(h, MapExprs(xs, IdsOf(ExprTypes(xs))), z)
  {
    hide MapExprs, HashExprs;
    ghost var d := MapExprs(xs, IdsOf(ExprTypes(xs)));
    NoExprs(h, d, z);
    index := 0;
    for k := 0 to |xs|
      invariant index == HashExprs(h, d[..k], z)
    {
      NextExpr(h, xs, k, z);
      var add: int;
      match xs[k] {
        case TypeX(t) => add := t.id;
        case IntX(n) => add := n;
        case StrX(s) => add := h(Name(s), z);
        case _ => continue;
      }
      index := (index + add) % z;
    }
    assert d[..|xs|] == d;
  }

  lemma NoExprs(h: StringHash, d: seq<Expr<int>>, z: int)
    requires z > 0
    ensures HashExprs(h, d[..0], z) == 0
  {
  }

  lemma NextExpr(h: StringHash, xs: seq<Expr<Typespec>>, k: nat, z: int)
    requires z > 0 && k < |xs|
    ensures var d, x := MapExprs(xs, IdsOf(ExprTypes(xs))), xs[k];
            && HashExprs(h, d[..k + 1], z) == HashExpr(h, d[k], HashExprs(h, d[..k], z), z)
            && (x.TypeX? ==> d[k] == TypeX(x.typ.id))
            && (x.IntX? ==> d[k] == IntX(x.n))
            && (x.StrX? ==> d[k] == StrX(x.s))
            && (d[k].TypeX? || d[k].IntX? || d[k].StrX? ==> x.TypeX? || x.IntX? || x.StrX?)
  {
    var d := MapExprs(xs, IdsOf(ExprTypes(xs)));
    assert d[..k + 1][..k] == d[..k] && d[k] == MapExpr(xs[k], IdsOf(ExprTypes(xs)));
  }

  lemma NoFields(start: int, d: seq<Field<int>>, z: int)
    requires z > 0
    ensures HashFields(start, d[..0], z) == start
  {
  }

  lemma NextField(start: int, fs: seq<Field<Typespec>>, k: nat, z: int)
    requires z > 0 && k < |fs|
    ensures var d := MapFields(fs, IdsOf(FieldTypes(fs)));
            HashFields(start, d[..k + 1], z) ==
            (HashFields(start, d[..k], z) + |fs[k].sel.text| * fs[k].typ.id) % z
  {
    var d := MapFields(fs, IdsOf(FieldTypes(fs)));
    assert d[..k + 1][..k] == d[..k] && d[..k + 1][k] == d[k];
  }

  method HashFieldList(start: int, fs: seq<Field<Typespec>>, z: int) returns (index: int)
    requires z > 0
    ensures index == HashFields(start, MapFields(fs, IdsOf(FieldTypes(fs))), z)
  {
    hide HashFields, MapFields;
    ghost var d := MapFields(fs, IdsOf(FieldTypes(fs)));
    NoFields(start, d, z);
    index := start;
    for k := 0 to |fs|
      invariant index == HashFields(start, d[..k], z)
    {
      NextField(start, fs, k, z);
      index := (index + |fs[k].sel.text| * fs[k].typ.id) % z;
    }
    assert d[..|fs|] == d;
  }

  method HashTypeList(start: int, ts: seq<Typespec>, offset: int, z: int) returns (index: int)
    requires z > 0
    ensures index == HashTypes(start, MapSeq(ts, IdsOf(Elems(ts))), offset, z)
  {
    ghost var d := MapSeq(ts, IdsOf(Elems(ts)));
    index := start;
    for i := 1 to |ts| + 1
      invariant index == HashTypes(start, d[..i - 1], offset, z)
    {
      assert d[..i][..i - 1] == d[..i - 1] && d[..i][i - 1] == d[i - 1] == ts[i - 1].id;
      index := AddWeighed(index, i + offset, ts[i - 1].id, z);
    }
    assert d[..|ts|] == d;
  }

  method HashTypeabs(h: StringHash, ta: Typeabs, z: int) returns (r: int)
    requires z > 0
    ensures r == HashDesc(h, MapAbs(ta, IdsOf(Comps(ta))), z)
  {
    hide HashExprs, HashFields, HashTypes, MapExprs, MapFields, MapSeq, MapSigs;
    ghost var id := IdsOf(Comps(ta));
    match ta {
      case ClusterT(gen, parms) =>
        var i := HashExprList(h, parms, z);
        r := (i + h(gen.unique, z)) % z;
      case SelectT(gen, fields) =>
        r := HashFieldList(h(gen.unique, z), fields, z);
      case ApplyT(gen, args, vals, _) =>
        assert MapSeq(args, IdsOf(Elems(args))) == MapSeq(args, id);
        assert MapSeq(vals, IdsOf(Elems(vals))) == MapSeq(vals, id);
        r := HashTypeList(h(gen.unique, z), args, 1, z);
        r := HashTypeList(r, vals, 4, z);
      case IdnT(i) =>
        r := h(i.str, z);
      case OtherDu(gen, parms) =>
        var i := HashExprList(h, parms, z);
        r := (1 + h(gen.unique, z) + i) % z;
      case OtherOp(t, name, parms) =>
        r := (t.id + h(name, z)) % z;
      case OtherReturn(t) =>
        r := (1 + t.id) % z;
      case UnknownT => r := 0;
      case TypeT(_, _) => r := 1;
      case CvtT => r := 2;
      case AnyT => r := 3;
    }
  }
}
