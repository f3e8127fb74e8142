/** The compiler environment: the mutable types table with its two counters,
    the table of definition units, and the table of identifiers. */
module CompilerEnv {
  import opened Syntax
  import opened Shapes
  import opened Hashing
  import opened Placement
  import opened NameTable
  import opened TypeEnv
  import opened ResetLists
  import opened Identifiers
  import opened IdentifierCodes

  /** The library of definition units, one for each name ever asked for. */
  class Library {
    var units: map<Name, Du>

    ghost predicate Valid()
      reads this
    {
      forall n :: n in units ==> units[n].unique == n
    }

    constructor ()
      ensures Valid()
    {
      units := map[];
    }

    method GetDu(n: Name) returns (d: Du)
      requires Valid()
      modifies this
      ensures Valid() && d.unique == n && n in units && units[n] == d
      ensures old(units).Keys <= units.Keys && forall m :: m in old(units) ==> units[m] == old(units)[m]
    {
      if n in units {
        d := units[n];
      } else {
        d := new Du(n);
        units := units[n := d];
      }
    }
  }

  ghost function AbsOf(ts: set<Typespec>): map<Typespec, Typeabs>
    reads ts`abs
  {
    map t | t in ts :: t.abs
  }

  /** What similarity sees of the basic types, in the order of their ids. */
  ghost function BasicDesc(k: int): Desc {
    match k
    case 0 => UnknownT
    case 1 => Cluster0("null")
    case 2 => Cluster0("bool")
    case 3 => Cluster0("int")
    case 4 => Cluster0("real")
    case 5 => Cluster0("char")
    case 6 => Cluster0("string")
    case 7 => TypeT(Name("type"), [])
    case 8 => CvtT
    case _ => AnyT
  }

  ghost function Cluster0(n: string): Desc {
    ClusterT(Name(n), [])
  }

  ghost function Names(texts: seq<string>): set<Name> {
    set x | x in texts :: Name(x)
  }

  ghost function GenNames(ts: seq<Typespec>): set<Name>
    reads ts`abs
  {
    set t | t in ts && t.abs.HasGen() :: t.abs.Gen().unique
  }

  /** The first of the basic types, new and in order. */
  ghost predicate Basic(ts: seq<Typespec>)
    reads ts`abs
  {
    && |ts| <= 10
    && (forall i, j :: 0 <= i < j < |ts| ==> ts[i] != ts[j])
    && (forall k :: 0 <= k < |ts| ==>
          Comps(ts[k].abs) == {} && MapAbs<Typespec, int>(ts[k].abs, map[]) == BasicDesc(k))
  }

  /** The first n basic types, not yet numbered. */
  ghost predicate Made(ts: seq<Typespec>, n: nat)
    reads ts
  {
    Basic(ts) && |ts| == n && forall t :: t in ts ==> t.id == 0
  }

  method NextBasic(ts: seq<Typespec>, ghost n: nat, a: Typeabs) returns (r: seq<Typespec>)
    requires Made(ts, n) && n < 10 && Comps(a) == {} && MapAbs<Typespec, int>(a, map[]) == BasicDesc(n)
    ensures Made(r, n + 1) && fresh(Elems(r) - Elems(ts))
  {
    var t := new Typespec(a, 0);
    r := ts + [t];
  }

  method NextCluster(l: Library, ts: seq<Typespec>, ghost n: nat, text: string) returns (r: seq<Typespec>)
    requires l.Valid() && Made(ts, n) && n < 10 && BasicDesc(n) == Cluster0(text)
    modifies l
    ensures l.Valid() && Made(r, n + 1) && fresh(Elems(r) - Elems(ts))
  {
    var d := l.GetDu(Name(text));
    r := NextBasic(ts, n, ClusterT(d, []));
  }

  method FirstBasic() returns (r: seq<Typespec>)
    ensures Made(r, 1) && fresh(Elems(r))
  {
    r := NextBasic([], 0, UnknownT);
  }

  lemma BasicNames()
    ensures BasicDesc(1) == Cluster0("null") && BasicDesc(2) == Cluster0("bool") && BasicDesc(3) == Cluster0("int")
    ensures BasicDesc(4) == Cluster0("real") && BasicDesc(5) == Cluster0("char") && BasicDesc(6) == Cluster0("string")
  {
  }

  method MakeClusters(l: Library) returns (ts: seq<Typespec>)
    requires l.Valid()
    modifies l
    ensures l.Valid() && fresh(Elems(ts)) && Made(ts, 7)
  {
    hide Library.Valid, Made, Basic, Comps, MapAbs, BasicDesc, Cluster0;
    BasicNames();
    ts := FirstBasic();
    ts := NextCluster(l, ts, 1, "null");
    ts := NextCluster(l, ts, 2, "bool");
    ts := NextCluster(l, ts, 3, "int");
    ts := NextCluster(l, ts, 4, "real");
    ts := NextCluster(l, ts, 5, "char");
    ts := NextCluster(l, ts, 6, "string");
  }

  method MakeBasics(l: Library) returns (ts: seq<Typespec>)
    requires l.Valid()
    modifies l
    ensures l.Valid() && fresh(Elems(ts)) && Made(ts, 10)
  {
    hide Library.Valid, Made, Basic;
    ts := MakeClusters(l);
    var d := l.GetDu(Name("type"));
    ts := NextBasic(ts, 7, TypeT(d, []));
    ts := NextBasic(ts, 8, CvtT);
    ts := NextBasic(ts, 9, AnyT);
  }

  class CompilerEnv {
    const hash: StringHash
    const lib: Library
    const ids: IdTable
    const dus: Table<DuEntry>
    const types: array<seq<Typespec>>
    const basics: seq<Typespec>    // unknown, null, bool, int, real, char, string, type, cvt, any
    var seed: int
    var kept: int
    ghost var nodes: set<Typespec>

    /** The types half as a value. */
    ghost function View(): Env
      reads this, types, dus, nodes
    {
      Env(hash, AbsOf(nodes), IdsOf(nodes), types[..], dus.Contents, seed, kept)
    }

    ghost predicate Valid()
      reads this, lib, types, dus, dus.buckets, nodes
    {
      Inv(View()) && dus.Valid() && lib.Valid()
    }

    /** create: the ten basic types get the ids 1 to 10, the units of the
        selector and routine generators are known, and all of it is kept. */
    constructor (h: StringHash, l: Library)
      requires l.Valid()
      modifies l
      ensures Sound() && lib == l && hash == h && Created() && types.Length == 300
      ensures fresh(ids.Repr()) && fresh(dus) && fresh(dus.buckets) && fresh(types) && fresh(nodes)
    {
      hide Inv, Table.Valid, Table.Over, IdTable.Valid, Library.Valid, AbsOf, IdsOf, Made, Basic, Numbered, Valid,
        Created, GenNames;
      var b := MakeBasics(l);
      basics := b;
      hash, lib, seed, kept, nodes := h, l, 1, 0, {};
      ids := new IdTable(h);
      dus := new Table<DuEntry>(SIZE, h);
      types := new seq<Typespec>[SIZE](_ => []);
      new;
      Create();
    }

    lemma CreatedTypes()
      requires Created()
      ensures |basics| == 10 && nodes == Elems(basics) && kept == 10 && seed == 11
      ensures forall k :: 0 <= k < 10 ==> basics[k].id == k + 1
      ensures basics[0].abs == UnknownT && basics[8].abs == CvtT && basics[9].abs == AnyT
      ensures forall k :: 1 <= k <= 6 ==>
                && basics[k].abs.ClusterT? && basics[k].abs.parms == []
                && basics[k].abs.gen.unique == Name(["null", "bool", "int", "real", "char", "string"][k - 1])
      ensures basics[7].abs.TypeT? && basics[7].abs.parms == [] && basics[7].abs.gen.unique == Name("type")
    {
      hide Basic, BasicDesc;
      BasicIs(0);
      BasicIs(7);
      BasicIs(8);
      BasicIs(9);
      forall k | 1 <= k <= 6
        ensures basics[k].abs.ClusterT? && basics[k].abs.parms == []
        ensures basics[k].abs.gen.unique == Name(["null", "bool", "int", "real", "char", "string"][k - 1])
      {
        BasicIs(k);
        NameOf(k);
      }
      LastBasics();
    }

    /** The units of the basic types and of the selectors, none to be flushed. */
    lemma CreatedUnits()
      requires Created() && |basics| == 10
      ensures forall x :: x in ["array", "record", "oneof", "sequence", "struct", "variant", "proctype", "itertype"] ==>
                Name(x) in dus.Contents
      ensures forall n :: n in dus.Contents ==>
                || n.text in ["array", "record", "oneof", "sequence", "struct", "variant", "proctype", "itertype"]
                || exists k :: 1 <= k <= 7 && basics[k].abs.HasGen() && basics[k].abs.Gen().unique == n
      ensures forall k :: 1 <= k <= 7 ==> basics[k].abs.HasGen() && basics[k].abs.Gen().unique in dus.Contents
      ensures forall n :: n in dus.Contents ==> !dus.Contents[n].flush
    {
      hide Basic, Names, GenNames;
      CreatedTypes();
      UnitsAre(["array", "record", "oneof", "sequence", "struct", "variant", "proctype", "itertype"]);
    }

    lemma UnitsAre(selectors: seq<string>)
      requires |basics| == 10 && dus.Contents.Keys == GenNames(basics) + Names(selectors)
      requires forall k :: 0 <= k < 10 ==> basics[k].abs.HasGen() == (1 <= k <= 7)
      ensures forall x :: x in selectors ==> Name(x) in dus.Contents
      ensures forall n :: n in dus.Contents ==>
                || n.text in selectors
                || exists k :: 1 <= k <= 7 && basics[k].abs.HasGen() && basics[k].abs.Gen().unique == n
      ensures forall k :: 1 <= k <= 7 ==> basics[k].abs.HasGen() && basics[k].abs.Gen().unique in dus.Contents
    {
      forall k | 1 <= k <= 7 ensures basics[k].abs.Gen().unique in GenNames(basics) { assert basics[k] in basics; }
      forall n | n in GenNames(basics)
        ensures exists k :: 1 <= k <= 7 && basics[k].abs.HasGen() && basics[k].abs.Gen().unique == n
      {
        var k :| 0 <= k < 10 && basics[k].abs.HasGen() && basics[k].abs.Gen().unique == n;
      }
    }

    lemma NameOf(k: int)
      requires 1 <= k <= 6
      ensures BasicDesc(k) == ClusterT(Name(["null", "bool", "int", "real", "char", "string"][k - 1]), [])
    {
    }

    lemma LastBasics()
      ensures BasicDesc(0) == UnknownT && BasicDesc(7) == TypeT(Name("type"), [])
      ensures BasicDesc(8) == CvtT && BasicDesc(9) == AnyT
    {
    }

    /** A basic type has no parameters. */
    lemma BasicIs(k: nat)
      requires Basic(basics) && k < |basics|
      ensures var a, d := basics[k].abs, BasicDesc(k);
              && a.UnknownT? == d.UnknownT? && a.CvtT? == d.CvtT? && a.AnyT? == d.AnyT?
              && a.ClusterT? == d.ClusterT? && a.TypeT? == d.TypeT?
              && (a.ClusterT? || a.TypeT? ==> |a.parms| == |d.parms| && a.gen.unique == d.gen)
    {
      hide BasicDesc;
      assert MapAbs<Typespec, int>(basics[k].abs, map[]) == BasicDesc(k);
    }

    /** The basic types are all there is; they are numbered from 1 and kept. */
    ghost predicate Created()
      reads this, basics, dus`Contents
    {
      && |basics| == 10 && Basic(basics) && nodes == Elems(basics) && kept == 10 && seed == 11
      && (forall k :: 0 <= k < 10 ==> basics[k].id == k + 1)
      && dus.Contents.Keys == GenNames(basics) +
         Names(["array", "record", "oneof", "sequence", "struct", "variant", "proctype", "itertype"])
      && (forall n :: n in dus.Contents ==> !dus.Contents[n].flush)
    }

    method Create()
      requires Made(basics, 10) && nodes == {} && seed == 1 && kept == 0 && lib.Valid() && dus.Valid()
      requires dus.Contents == map[]
      requires types.Length == SIZE && forall i :: 0 <= i < SIZE ==> types[i] == []
      modifies this`seed, this`kept, this`nodes, Elems(basics), types, dus`Contents, dus.buckets, lib
      ensures Valid() && Created() && nodes == Elems(basics)
    {
      hide Made, Valid, Basic, GenNames;
      Unnumbered();
      NumberBasics();
      AddUnits(["array", "record", "oneof", "sequence", "struct", "variant", "proctype", "itertype"]);
      Keep();
    }

    lemma Unnumbered()
      requires Made(basics, 10) && nodes == {} && seed == 1 && kept == 0 && lib.Valid() && dus.Valid()
      requires dus.Contents == map[]
      requires types.Length == SIZE && forall i :: 0 <= i < SIZE ==> types[i] == []
      ensures Valid() && Numbered(0)
    {
    }

    /** The first k basic types are all there is. */
    ghost predicate Numbered(k: int)
      reads this, basics
    {
      && 0 <= k <= 10 == |basics| && Basic(basics) && nodes == Elems(basics[..k]) && kept == 0 && seed == k + 1
      && (forall j :: 0 <= j < k ==> basics[j].id == j + 1)
      && (forall j :: k <= j < 10 ==> basics[j] !in nodes)
    }

    lemma ResolvedBasic(dus: DuTab, a: Typeabs, a': Typeabs)
      requires Resolves(dus, a, a') && Comps(a) == {}
      ensures Comps(a') == {} && MapAbs<Typespec, int>(a', map[]) == MapAbs<Typespec, int>(a, map[])
    {
    }

    lemma NextGen(k: nat)
      requires k < |basics|
      ensures GenNames(basics[..k + 1]) == GenNames(basics[..k]) +
              if basics[k].abs.HasGen() then {basics[k].abs.Gen().unique} else {}
    {
      assert basics[..k + 1] == basics[..k] + [basics[k]];
    }

    method NumberNext(k: int)
      requires Valid() && Numbered(k) && k < 10 && dus.Contents.Keys == GenNames(basics[..k])
      modifies this`seed, this`nodes, Elems(basics), types, dus`Contents, dus.buckets, lib
      ensures Valid() && Numbered(k + 1) && dus.Contents.Keys == GenNames(basics[..k + 1])
    {
      hide GenNames, Valid, AbsOf, IdsOf, Fits, Comps, MapAbs, BasicDesc;
      BasicFits(k);
      ghost var dus0, a, g := View().dus, basics[k].abs, GenNames(basics[..k]);
      assert basics[k] !in basics[..k];
      Fixup(basics[k]);
      assert basics[..k + 1] == basics[..k] + [basics[k]];
      assert GenNames(basics[..k]) == g;
      NextGen(k);
      ResolvedBasic(dus0, a, basics[k].abs);
    }

    method NumberBasics()
      requires Valid() && Numbered(0) && dus.Contents == map[]
      modifies this`seed, this`nodes, Elems(basics), types, dus`Contents, dus.buckets, lib
      ensures Valid() && Numbered(10) && dus.Contents.Keys == GenNames(basics)
    {
      hide Valid, Numbered;
      TenBasics(0);
      for k := 0 to 10
        invariant Valid() && Numbered(k) && dus.Contents.Keys == GenNames(basics[..k])
      {
        NumberNext(k);
      }
      TenBasics(10);
    }

    lemma TenBasics(k: nat)
      requires Numbered(k)
      ensures |basics| == 10 && GenNames([]) == {} && basics[..0] == [] && basics[..10] == basics
    {
    }

    lemma BasicFits(k: nat)
      requires Valid() && Numbered(k) && k < 10
      ensures Fits(View(), basics[k], basics[k].abs)
    {
      hide Inv;
      var s := View();
      forall u | Live(s.id, u) ensures DescOf(s.id, s.abs[u]) != DescOf(s.id, basics[k].abs) {
        var j :| 0 <= j < k && u == basics[j];
        MapAgree(basics[j].abs, s.id, map[]);
        MapAgree(basics[k].abs, s.id, map[]);
        BasicsDiffer(j, k);
      }
    }

    lemma BasicsDiffer(j: nat, k: nat)
      requires j < k < 10
      ensures BasicDesc(j) != BasicDesc(k)
    {
    }

    method AddUnits(names: seq<string>)
      requires Valid()
      modifies dus`Contents, dus.buckets, lib
      ensures Valid() && View() == old(View()).(dus := dus.Contents)
      ensures dus.Contents.Keys == old(dus.Contents).Keys + Names(names)
    {
      hide Valid, AbsOf, IdsOf;
      ghost var was := dus.Contents.Keys;
      for j := 0 to |names|
        invariant Valid() && View() == old(View()).(dus := dus.Contents)
        invariant dus.Contents.Keys == was + Names(names[..j])
      {
        AddUnit(names[j]);
        assert names[..j + 1] == names[..j] + [names[j]];
      }
      assert names[..|names|] == names;
    }

    method AddUnit(n: string)
      requires Valid()
      modifies dus`Contents, dus.buckets, lib
      ensures Valid() && View() == old(View()).(dus := dus.Contents)
      ensures dus.Contents.Keys == old(dus.Contents).Keys + {Name(n)}
    {
      hide Inv, Table.Valid, AbsOf, IdsOf;
      var d := lib.GetDu(Name(n));
      d := AddDu(d);
    }

    // ----- get_type -----

    lemma BucketOfNow(ta: Typeabs)
      requires Comps(ta) <= nodes
      ensures HashDesc(hash, MapAbs(ta, IdsOf(Comps(ta))), SIZE) == Bucket(hash, View().id, ta)
    {
      MapAgree(ta, IdsOf(Comps(ta)), View().id);
    }

    /** Walk a chain of the types table, comparing similar descriptions. */
    method Probe(chain: seq<Typespec>, ta: Typeabs) returns (r: Option<Typespec>)
      requires Closed(View().abs, View().id) && (forall t :: t in chain ==> t in nodes) && Comps(ta) <= nodes
      ensures r == FindIn(View().abs, View().id, chain, ta)
    {
      hide MapAbs, Comps, Similar;
      ghost var s := View();
      for j := 0 to |chain|
        invariant FindIn(s.abs, s.id, chain, ta) == FindIn(s.abs, s.id, chain[j..], ta)
      {
        var t := chain[j];
        assert chain[j..][0] == t && chain[j..][1..] == chain[j + 1..] && t in s.abs;
        SimilarIffSameDesc(t.abs, ta, s.id);
        if Similar(t.abs, ta) {
          return Some(t);
        }
      }
      r := None;
    }

    /** The table's own unit for the name of mod, new to the table if need be. */
    method AddDu(mod: Du) returns (d: Du)
      requires Valid()
      modifies dus`Contents, dus.buckets, lib
      ensures Valid() && DuFor(old(View()).dus, mod, d) && View() == TypeEnv.AddDu(old(View()), d)
      ensures mod.unique !in old(View()).dus ==> mod.unique in lib.units && d == lib.units[mod.unique]
      ensures dus.Contents.Keys == old(dus.Contents).Keys + {mod.unique} && dus.Contents[mod.unique].du == d
      ensures forall n :: n in old(dus.Contents) ==> dus.Contents[n] == old(dus.Contents)[n]
      ensures mod.unique !in old(dus.Contents) ==> dus.Contents[mod.unique].flush
    {
      hide Inv, Table.Valid, Library.Valid, AbsOf, IdsOf;
      AddDuEnsures();
      d := FindDu(mod);
      AddDuInv(old(View()), d);
      assert View() == TypeEnv.AddDu(old(View()), d);
    }

    method FindDu(mod: Du) returns (d: Du)
      requires dus.Valid() && lib.Valid() && forall n :: n in dus.Contents ==> dus.Contents[n].du.unique == n
      modifies dus`Contents, dus.buckets, lib
      ensures dus.Valid() && lib.Valid() && d.unique == mod.unique
      ensures if mod.unique in old(dus.Contents) then d == old(dus.Contents)[mod.unique].du
              else mod.unique in lib.units && d == lib.units[mod.unique]
      ensures dus.Contents == if mod.unique in old(dus.Contents) then old(dus.Contents)
                              else old(dus.Contents)[mod.unique := DuEntry(d, true)]
    {
      hide Table.Valid;
      var p := dus.GetPair(mod.unique);
      if p.Some? { return p.value.du; }
      d := lib.GetDu(mod.unique);
      var e := dus.Bind(mod.unique, DuEntry(d, true));
    }

    lemma AddDuEnsures()
      requires Valid()
      ensures dus.Valid() && lib.Valid() && Inv(View())
      ensures forall n :: n in dus.Contents ==> dus.Contents[n].du.unique == n
    {
    }

    /** Bind t under its description, in the bucket the present ids name. */
    method BindType(t: Typespec) returns (exists_: bool)
      requires Valid() && t !in nodes && Comps(t.abs) <= nodes
      modifies types
      ensures var s, b := old(View()), Bucket(hash, old(View()).id, t.abs);
              && TabKnown(s.id, s.tab) && exists_ == Find(s, t.abs).Some?
              && types[..] == if exists_ then s.tab else s.tab[b := [t] + s.tab[b]]
    {
      TabIsKnown(View());
      var h := HashTypeabs(hash, t.abs, SIZE);
      BucketOfNow(t.abs);
      hide Inv, Table.Valid;
      var p := Probe(types[h], t.abs);
      exists_ := p.Some?;
      if !exists_ { types[h] := [t] + types[h]; }
    }

    /** The first half of fixup: number the type and bind it. */
    method Number(t: Typespec)
      requires Valid() && Fits(View(), t, t.abs)
      modifies this`seed, t`id, types
      ensures t.id == old(seed) && seed == old(seed) + 1
      ensures Comps(t.abs) <= old(View()).id.Keys
      ensures var s, b := old(View()), Bucket(hash, old(View()).id, t.abs);
              |s.tab| == SIZE && types[..] == s.tab[b := [t] + s.tab[b]]
    {
      hide Inv, Valid, Fits, Find, AbsOf, IdsOf, Comps, Bucket, DescOf, LiveComps, TabKnown;
      FitsEnsures(t);
      ghost var s := View();
      t.id := seed;
      assert View() == s && Valid();
      var exists_ := BindType(t);
      assert !exists_;
      seed := seed + 1;
    }

    /** The second half: the generator becomes the table's own. */
    method ShareGen(t: Typespec)
      requires dus.Valid() && lib.Valid() && forall n :: n in dus.Contents ==> dus.Contents[n].du.unique == n
      modifies t`abs, dus`Contents, dus.buckets, lib
      ensures dus.Valid() && lib.Valid() && Resolves(old(dus.Contents), old(t.abs), t.abs)
      ensures dus.Contents == if t.abs.HasGen() && t.abs.Gen().unique !in old(dus.Contents)
                              then old(dus.Contents)[t.abs.Gen().unique := DuEntry(t.abs.Gen(), true)]
                              else old(dus.Contents)
    {
      hide Table.Valid, Library.Valid;
      if t.abs.HasGen() {
        var d := FindDu(t.abs.Gen());
        t.abs := t.abs.WithGen(d);
      }
    }

    method Fixup(t: Typespec)
      requires Valid() && Fits(View(), t, t.abs)
      modifies this`seed, this`nodes, t, types, dus`Contents, dus.buckets, lib
      ensures Valid() && nodes == old(nodes) + {t} && t.id == old(seed) && Resolves(old(View()).dus, old(t.abs), t.abs)
      ensures Comps(old(t.abs)) <= old(View()).id.Keys && |old(View()).tab| == SIZE
      ensures View() == TypeEnv.Fixup(old(View()), t, old(t.abs), t.abs)
      ensures dus.Contents.Keys == old(dus.Contents).Keys + if t.abs.HasGen() then {t.abs.Gen().unique} else {}
    {
      hide Inv, Fits, Valid, Table.Valid, Library.Valid, AbsOf, IdsOf, Comps, Bucket, DescOf, Resolves, TabKnown, Find;
      FitsEnsures(t);
      ghost var s, a := View(), t.abs;
      Number(t);
      ShareGen(t);
      nodes := nodes + {t};
      NewNode(s.abs, s.id, nodes - {t}, t);
      assert nodes == (nodes - {t}) + {t};
      assert View() == TypeEnv.Fixup(s, t, a, t.abs);
      FixupInv(s, t, a, t.abs);
      Revalidate();
    }

    lemma Revalidate()
      requires Inv(View()) && dus.Valid() && lib.Valid()
      ensures Valid()
    {
    }

    lemma NewNode(abs: AbsMap, id: TypeIds, old_: set<Typespec>, t: Typespec)
      requires t !in old_ && abs == AbsOf(old_) && id == IdsOf(old_)
      ensures AbsOf(old_ + {t}) == abs[t := t.abs] && IdsOf(old_ + {t}) == id[t := t.id]
    {
    }

    lemma FitsEnsures(t: Typespec)
      requires Valid() && Fits(View(), t, t.abs)
      ensures dus.Valid() && lib.Valid() && Inv(View())
      ensures forall n :: n in dus.Contents ==> dus.Contents[n].du.unique == n
      ensures t !in nodes && Comps(t.abs) <= nodes && TabKnown(View().id, View().tab) && |View().tab| == SIZE
      ensures View().id.Keys == nodes && Find(View(), t.abs).None?
    {
      TabIsKnown(View());
      FindSpec(View(), t.abs);
    }

    method GetType(ta: Typeabs) returns (t: Typespec, old_: bool)
      requires Valid() && LiveComps(View().id, ta)
      modifies this`seed, this`nodes, types, dus`Contents, dus.buckets, lib
      ensures Valid() && TabKnown(old(View()).id, old(View()).tab) && Comps(ta) <= old(View()).id.Keys
      ensures |old(View()).tab| == SIZE && Closed(old(View()).abs, old(View()).id)
      ensures var f := Find(old(View()), ta);
              old_ == f.Some? && (old_ ==> t == f.value && View() == old(View()))
      ensures !old_ ==> fresh(t) && Resolves(old(View()).dus, ta, t.abs)
                        && View() == TypeEnv.Fixup(old(View()), t, ta, t.abs)
      ensures t in nodes && t.id != 0
      ensures if ta.HasGen()
              then ta.Gen().unique in dus.Contents && t.abs == ta.WithGen(dus.Contents[ta.Gen().unique].du)
              else t.abs == ta
      ensures !old_ ==> t.id == old(seed) && seed == old(seed) + 1 && nodes == old(nodes) + {t} && kept == old(kept)
    {
      hide Valid, Inv, FindIn, Comps, Table.Valid, Library.Valid, Closed, TabKnown, Bucket, DescOf, LiveComps,
        AbsOf, IdsOf, Resolves, Fits, Abs.HasGen, Abs.Gen, Abs.WithGen;
      LookupEnsures(ta);
      ghost var s := View();
      var h := HashTypeabs(hash, ta, SIZE);
      BucketOfNow(ta);
      var p := Probe(types[h], ta);
      if p.Some? {
        OldAnswer(ta, p.value);
        return p.value, true;
      }
      t := new Typespec(ta, 0);
      assert View() == s;
      FitsIfNone(ta, t);
      Fixup(t);
      old_ := false;
      SoundFits(s, t, ta);
      NewAnswer(s, ta, t);
    }

    lemma OldAnswer(ta: Typeabs, t: Typespec)
      requires Valid() && LiveComps(View().id, ta) && Comps(ta) <= View().id.Keys
      requires |View().tab| == SIZE && TabKnown(View().id, View().tab) && Closed(View().abs, View().id)
      requires Find(View(), ta) == Some(t)
      ensures t in nodes && t.id != 0
      ensures if ta.HasGen()
              then ta.Gen().unique in dus.Contents && t.abs == ta.WithGen(dus.Contents[ta.Gen().unique].du)
              else t.abs == ta
    {
      hide Inv, Comps, Bucket, DescOf, LiveComps, Find, Closed, TabKnown, Abs.HasGen, Abs.Gen, Abs.WithGen;
      FindExact(View(), ta, t);
    }

    lemma SoundFits(s: Env, t: Typespec, ta: Typeabs)
      requires Fits(s, t, ta)
      ensures Inv(s) && t !in s.id && LiveComps(s.id, ta) && Sized(s)
      ensures Comps(ta) <= s.id.Keys && Find(s, ta).None?
    {
      InvSized(s);
      FindSpec(s, ta);
    }

    lemma NewAnswer(s: Env, ta: Typeabs, t: Typespec)
      requires Inv(s) && t !in s.id && LiveComps(s.id, ta) && Sized(s)
      requires Comps(ta) <= s.id.Keys && Find(s, ta).None? && Resolves(s.dus, ta, t.abs)
      requires View() == TypeEnv.Fixup(s, t, ta, t.abs)
      ensures t in nodes && t.id != 0
      ensures if ta.HasGen()
              then ta.Gen().unique in dus.Contents && t.abs == ta.WithGen(dus.Contents[ta.Gen().unique].du)
              else t.abs == ta
    {
      hide Inv, Comps, Bucket, DescOf, LiveComps, Find, Sized, Resolves, Abs.HasGen, Abs.Gen, Abs.WithGen,
        TypeEnv.Fixup;
      GetTypeAnswers(s, t, ta, t.abs);
    }

    lemma LookupEnsures(ta: Typeabs)
      requires Valid() && LiveComps(View().id, ta)
      ensures Comps(ta) <= nodes && View().id.Keys == nodes && Closed(View().abs, View().id)
      ensures TabKnown(View().id, View().tab) && |View().tab| == SIZE
      ensures forall t :: t in View().tab[Bucket(hash, View().id, ta)] ==> t in nodes
    {
      hide Comps, Good, SharedGens;
      TabIsKnown(View());
    }

    lemma FitsIfNone(ta: Typeabs, t: Typespec)
      requires Valid() && LiveComps(View().id, ta) && t !in nodes && Comps(ta) <= View().id.Keys
      requires |View().tab| == SIZE && TabKnown(View().id, View().tab) && Find(View(), ta).None?
      ensures Fits(View(), t, ta)
    {
      hide Comps, Good, SharedGens, Find;
      FindSpec(View(), ta);
    }

    /** A type object made by the parser becomes known. */
    ghost method Adopt(t: Typespec)
      requires Valid() && t !in nodes && t.id == 0 && Comps(t.abs) <= nodes
      modifies this`nodes
      ensures Valid() && nodes == old(nodes) + {t} && View() == TypeEnv.Adopt(old(View()), t, t.abs)
    {
      hide Inv, Comps, Table.Valid, Library.Valid, AbsOf, IdsOf;
      AddDuEnsures();
      ghost var s := View();
      ViewIs();
      NewNode(s.abs, s.id, nodes, t);
      nodes := nodes + {t};
      AdoptInv(s, t, t.abs);
      assert View() == TypeEnv.Adopt(s, t, t.abs);
      Revalidate();
    }

    // ----- keep and the resets -----

    /** What was asked for so far will outlive every later reset. */
    method Keep()
      requires Valid()
      modifies this`kept, dus`Contents, dus.buckets
      ensures Valid() && View() == TypeEnv.Keep(old(View()))
      ensures kept == seed - 1 && forall t :: t in nodes ==> t.id <= kept
      ensures dus.Contents.Keys == old(dus.Contents).Keys
      ensures forall n :: n in dus.Contents ==>
                dus.Contents[n].du == old(dus.Contents)[n].du && !dus.Contents[n].flush
    {
      hide Inv, Table.Valid, Library.Valid, AbsOf, IdsOf;
      AddDuEnsures();
      ghost var s := View();
      KeepDus();
      kept := seed - 1;
      assert View() == TypeEnv.Keep(s);
      KeepInv(s);
      ViewIs();
      Revalidate();
    }

    method KeepDus()
      requires dus.Valid()
      modifies dus`Contents, dus.buckets
      ensures dus.Valid()
      ensures dus.Contents == map n | n in old(dus.Contents) :: old(dus.Contents)[n].(flush := false)
    {
      hide Table.Valid;
      ghost var was := dus.Contents;
      var all := dus.Elements();
      for j := 0 to |all|
        invariant dus.Valid() && dus.Contents.Keys == was.Keys
        invariant forall n :: n in was ==> dus.Contents[n] == was[n] || dus.Contents[n] == was[n].(flush := false)
        invariant forall k :: 0 <= k < j ==> !dus.Contents[all[k].name].flush
      {
        var b := all[j];
        assert b in all;
        if b.val.flush { dus.Alter(b.name, b.val.(flush := false)); }
      }
      forall n | n in was ensures !dus.Contents[n].flush {
        assert Binding(n, was[n]).name == n && Binding(n, was[n]) in all;
      }
    }

    /** pcond_flush with pflush_type on one chain: ids above the watermark go
        to 0 and their types leave the chain. */
    method FlushChain(chain: seq<Typespec>, ghost was: TypeIds) returns (left: seq<Typespec>)
      requires NoRepeats(chain) && kept >= 0
      requires forall t :: t in chain ==> t in was && t.id == was[t]
      modifies (set t | t in chain)`id
      ensures left == Survivors(chain, was, kept)
      ensures forall t :: t in chain ==> t.id == if was[t] > kept then 0 else was[t]
    {
      hide Survivors;
      NoneFlushed(chain, was);
      left := [];
      for j := 0 to |chain|
        invariant left + Survivors(chain[j..], was, kept) == Survivors(chain, was, kept)
        invariant forall k :: 0 <= k < j ==> chain[k].id == if was[chain[k]] > kept then 0 else was[chain[k]]
        invariant forall k :: j <= k < |chain| ==> chain[k].id == was[chain[k]]
      {
        var t := chain[j];
        SurvivorsFrom(chain, j, was, kept, left);
        if t.id > kept {
          t.id := 0;
        } else {
          left := left + [t];
        }
      }
      NoneLeft(chain, was, left);
    }

    lemma NoneFlushed(chain: seq<Typespec>, was: TypeIds)
      requires forall t :: t in chain ==> t in was
      ensures [] + Survivors(chain[0..], was, kept) == Survivors(chain, was, kept)
    {
      assert chain[0..] == chain;
    }

    lemma NoneLeft(chain: seq<Typespec>, was: TypeIds, left: seq<Typespec>)
      requires forall t :: t in chain ==> t in was
      ensures left + Survivors(chain[|chain|..], was, kept) == left
    {
    }

    /** The ids once the chains below bucket i have been flushed. */
    ghost function HalfFlushed(id: TypeIds, place: map<Typespec, int>, i: int): (r: TypeIds)
      reads `kept
      ensures r.Keys == id.Keys
    {
      map t | t in id :: if id[t] > kept && t in place && place[t] < i then 0 else id[t]
    }

    lemma NextChain(id: TypeIds, place: map<Typespec, int>, tab: TypeTab, i: int)
      requires Placed(id, place, tab) && 0 <= i < |tab| && kept >= 0
      ensures TabKnown(id, tab) && NoRepeats(tab[i])
      ensures forall t :: t in tab[i] ==> t in id && HalfFlushed(id, place, i)[t] == id[t]
      ensures forall t :: t in id ==> HalfFlushed(id, place, i + 1)[t] ==
                                      if t in tab[i] && id[t] > kept then 0 else HalfFlushed(id, place, i)[t]
    {
    }

    lemma WholeFlush(id: TypeIds, place: map<Typespec, int>, tab: TypeTab, next: int)
      requires Placed(id, place, tab) && DistinctIds(id, next, kept)
      ensures HalfFlushed(id, place, 0) == id && HalfFlushed(id, place, |tab|) == FlushIds(id, kept)
    {
      hide ChainOk;
      forall t | t in id && id[t] > kept ensures 0 <= place[t] < |tab| { assert Live(id, t); }
    }

    /** The chains below bucket i have been flushed, the others are as in s. */
    ghost predicate FlushedTo(s: Env, place: map<Typespec, int>, i: int)
      reads `kept, `nodes, nodes`id, types
    {
      && Placed(s.id, place, s.tab) && TabKnown(s.id, s.tab) && s.id.Keys == nodes && kept >= 0
      && 0 <= i <= |s.tab| == types.Length && IdsOf(nodes) == HalfFlushed(s.id, place, i)
      && (forall k :: 0 <= k < i ==> types[k] == Survivors(s.tab[k], s.id, kept))
      && (forall k :: i <= k < types.Length ==> types[k] == s.tab[k])
    }

    /** One bucket of the flush. */
    method FlushBucket(i: int, ghost s: Env, ghost place: map<Typespec, int>)
      requires FlushedTo(s, place, i) && i < types.Length
      modifies nodes`id, types
      ensures FlushedTo(s, place, i + 1)
    {
      hide Survivors, HalfFlushed, NoRepeats, Placed, TabKnown;
      NextChain(s.id, place, s.tab, i);
      ghost var half := IdsOf(nodes);
      assert forall t :: t in types[i] ==> half[t] == t.id;
      var left := FlushChain(types[i], s.id);
      types[i] := left;
    }

    lemma FlushStarts()
      requires Inv(View())
      ensures var s := View();
              && Closed(s.abs, s.id) && FlushedTo(s, Places(s.hash, s.abs, s.id), 0)
              && TabKnown(s.id, s.tab) && DistinctIds(s.id, s.next, kept)
              && types.Length == SIZE && s.abs == AbsOf(nodes)
    {
      hide Bucket, Comps, DescOf, Grounded, Canonical, SharedGens, NoRepeats, HalfFlushed, FlushIds, Places;
      var s := View();
      TabIsKnown(s);
      WholeFlush(s.id, Places(s.hash, s.abs, s.id), s.tab, s.next);
    }

    lemma FlushEnds(s: Env, place: map<Typespec, int>)
      requires FlushedTo(s, place, types.Length) && DistinctIds(s.id, s.next, kept) && AbsOf(nodes) == s.abs
      ensures View().abs == s.abs && View().id == FlushIds(s.id, kept) && View().tab == FlushTab(s.id, s.tab, kept)
    {
      hide Placed, Survivors, DistinctIds;
      WholeFlush(s.id, place, s.tab, s.next);
      assert types[..] == FlushTab(s.id, s.tab, kept);
    }

    method FlushTypes()
      requires Inv(View())
      modifies nodes`id, types
      ensures TabKnown(old(View()).id, old(View()).tab)
      ensures var s := old(View());
              View() == s.(id := FlushIds(s.id, kept), tab := FlushTab(s.id, s.tab, kept))
    {
      hide Inv, AbsOf, IdsOf, Places, FlushedTo, Closed, TabKnown, FlushIds, DistinctIds;
      ghost var s := View();
      FlushStarts();
      ghost var place := Places(s.hash, s.abs, s.id);
      var i := 0;
      while i < types.Length
        invariant 0 <= i <= types.Length && FlushedTo(s, place, i)
      {
        FlushBucket(i, s, place);
        i := i + 1;
      }
      FlushEnds(s, place);
    }

    ghost function Units(): set<Du>
      reads dus`Contents
    {
      set n | n in dus.Contents :: dus.Contents[n].du
    }

    /** Every unit of the table forgets its specs. */
    method ForgetSpecs()
      requires dus.Valid()
      modifies Units()`mspecs
      ensures forall d :: d in Units() ==> d.mspecs == None
    {
      hide Table.Valid;
      var all := dus.Elements();
      for j := 0 to |all|
        invariant forall k :: 0 <= k < j ==> all[k].val.du.mspecs == None
      {
        assert all[j] in all;
        all[j].val.du.mspecs := None;
      }
      forall d | d in Units() ensures d.mspecs == None {
        var n :| n in dus.Contents && dus.Contents[n].du == d;
        assert Binding(n, dus.Contents[n]) in all;
      }
    }

    /** Both halves of the environment. */
    ghost predicate Sound()
      reads this, lib, types, dus, dus.buckets, nodes
      reads ids, ids.tab, ids.tab.buckets, ids.entries, ids.lent, ids.xent
    {
      Valid() && ids.Valid()
    }

    /** What reset and reset1 share, after the identifiers. */
    method ResetHalf()
      requires Valid()
      modifies this`seed, nodes`id, types, Units()`mspecs
      ensures Valid() && TabKnown(old(View()).id, old(View()).tab) && View() == TypeEnv.Reset1(old(View()))
      ensures forall d :: d in Units() ==> d.mspecs == None
    {
      hide Inv, Table.Valid, Library.Valid, AbsOf, IdsOf, FlushIds, TabKnown;
      AddDuEnsures();
      ghost var s := View();
      FlushTypes();
      ForgetSpecs();
      seed := kept + 1;
      Reset1Inv(s);
      assert View() == TypeEnv.Reset1(s);
      Revalidate();
    }

    method Reset1()
      requires Sound()
      modifies this`seed, nodes`id, types, Units()`mspecs, ids.Repr()
      ensures Sound() && TabKnown(old(View()).id, old(View()).tab) && View() == TypeEnv.Reset1(old(View()))
      ensures forall d :: d in Units() ==> d.mspecs == None
      ensures Legal(old(ids.Names)) && ids.Names == AfterFlush(old(ids.Names), Plain)
    {
      hide Valid, IdTable.Valid, View, Units, TabKnown;
      ids.Flush(Plain);
      ResetHalf();
    }

    method DropDus(ghost s: Env)
      requires Valid() && Inv(s) && TabKnown(s.id, s.tab) && View() == TypeEnv.Reset1(s)
      modifies dus`Contents, dus.buckets
      ensures Valid() && View() == TypeEnv.Reset(s)
    {
      hide Inv, Table.Valid, Library.Valid, AbsOf, IdsOf, FlushIds, TabKnown;
      AddDuEnsures();
      dus.CondFlush((e: DuEntry) => e.flush);
      assert dus.Contents == TypeEnv.Reset(s).dus;
      assert View() == TypeEnv.Reset(s);
      ResetInv(s);
      Revalidate();
    }

    method ResetAll()
      requires Valid()
      modifies this`seed, nodes`id, types, dus`Contents, dus.buckets, Units()`mspecs
      ensures Valid() && TabKnown(old(View()).id, old(View()).tab) && View() == TypeEnv.Reset(old(View()))
      ensures forall d :: d in old(Units()) ==> d.mspecs == None
    {
      hide Valid, View, TabKnown, TypeEnv.Reset, TypeEnv.Reset1, Inv;
      SoundInv();
      ghost var s, u := View(), Units();
      ResetHalf();
      assert Units() == u;
      DropDus(s);
    }

    method Reset()
      requires Sound()
      modifies this`seed, nodes`id, types, dus`Contents, dus.buckets, Units()`mspecs, ids.Repr()
      ensures Sound() && TabKnown(old(View()).id, old(View()).tab) && View() == TypeEnv.Reset(old(View()))
      ensures forall d :: d in old(Units()) ==> d.mspecs == None
      ensures Legal(old(ids.Names)) && ids.Names == AfterFlush(old(ids.Names), Plain)
    {
      hide Valid, IdTable.Valid, View, Units, TabKnown, TypeEnv.Reset;
      ids.Flush(Plain);
      ResetAll();
    }

    lemma SoundInv()
      requires Valid()
      ensures Inv(View())
    {
    }

    /** At the end of a module; lasting keeps equates that were used. */
    method ResetEntries(lasting: bool)
      requires Sound()
      modifies ids.Repr()
      ensures Sound() && View() == old(View())
      ensures Legal(old(ids.Names)) && ids.Names == AfterFlush(old(ids.Names), Keeping(lasting))
    {
      hide Valid, IdTable.Valid;
      ids.Flush(Keeping(lasting));
    }

    // ----- reset_types -----

    /** A chain without its first binding similar to the description of t. */
    method WithoutSimilar(chain: seq<Typespec>, t: Typespec) returns (left: seq<Typespec>)
      requires Closed(View().abs, View().id) && t in nodes && forall u :: u in chain ==> u in nodes
      ensures forall u :: u in chain ==> u in Descs(View().abs, View().id)
      ensures t in Descs(View().abs, View().id)
      ensures left == Without<Typespec, Desc>(chain, Descs(View().abs, View().id), Descs(View().abs, View().id)[t])
    {
      hide *;
      ghost var s := View();
      ghost var desc := Descs(s.abs, s.id);
      DescsKnow(t, chain);
      assert chain[..0] + chain[0..] == chain && chain[0..] == chain;
      for j := 0 to |chain|
        invariant Without<Typespec, Desc>(chain, desc, desc[t]) ==
            chain[..j] + Without<Typespec, Desc>(chain[j..], desc, desc[t])
      {
        var u := chain[j];
        SimilarNow(u, t);
        WithoutFrom<Typespec, Desc>(chain, j, desc, desc[t]);
        if Similar(u.abs, t.abs) {
          return chain[..j] + chain[j + 1..];
        }
      }
      left := chain;
      assert chain[..|chain|] == chain;
      WithoutNone<Typespec, Desc>(desc, desc[t]);
    }

    lemma DescsKnow(t: Typespec, chain: seq<Typespec>)
      requires Closed(View().abs, View().id) && t in nodes && forall u :: u in chain ==> u in nodes
      ensures var desc := Descs(View().abs, View().id); t in desc && forall u :: u in chain ==> u in desc
    {
    }

    lemma SimilarNow(u: Typespec, t: Typespec)
      requires Closed(View().abs, View().id) && t in nodes && u in nodes
      ensures var desc := Descs(View().abs, View().id);
              u in desc && t in desc && (Similar(u.abs, t.abs) <==> desc[u] == desc[t])
    {
      hide MapAbs, Comps, Similar;
      ViewIs();
      SimilarIffSameDesc(u.abs, t.abs, View().id);
    }

    lemma DeleteEnsures(t: Typespec)
      requires Closed(View().abs, View().id) && |View().tab| == SIZE && TabKnown(View().id, View().tab) && t in nodes
      ensures Comps(t.abs) <= nodes && View().id.Keys == nodes && t in View().abs && View().abs[t] == t.abs
      ensures forall u :: u in View().tab[Bucket(hash, View().id, t.abs)] ==> u in nodes
    {
    }

    /** delete: the first similar binding leaves the bucket the present ids name. */
    method Delete(t: Typespec)
      requires Closed(View().abs, View().id) && |View().tab| == SIZE && TabKnown(View().id, View().tab) && t in nodes
      modifies types
      ensures View().id == old(View().id) && Closed(View().abs, View().id)
      ensures var s := old(View());
              var desc, b := Descs(s.abs, s.id), Bucket(s.hash, s.id, s.abs[t]);
              types[..] == s.tab[b := Without<Typespec, Desc>(s.tab[b], desc, desc[t])]
    {
      hide Comps, Without, MapAbs, Similar, HashDesc, AbsOf, IdsOf;
      DeleteEnsures(t);
      var h := HashTypeabs(hash, t.abs, SIZE);
      BucketOfNow(t.abs);
      var left := WithoutSimilar(types[h], t);
      types[h] := left;
    }

    /** One turn of reset_types: the id goes first, so the delete probes with it at 0. */
    method ResetOne(t: Typespec)
      requires Sized(View()) && t in nodes
      modifies types, t`id
      ensures View().id.Keys == old(View()).id.Keys && View() == TypeEnv.ResetOne(old(View()), t)
    {
      hide Comps, Without, DescOf, Bucket, AbsOf, IdsOf;
      ghost var s := View();
      ViewIs();
      if t.id > kept {
        t.id := 0;
        ZeroedView(s, t);
        Delete(t);
      }
    }

    lemma ViewIs()
      ensures View().id.Keys == nodes && forall u :: u in nodes ==> View().id[u] == u.id
      ensures View().abs.Keys == nodes && forall u :: u in nodes ==> View().abs[u] == u.abs
    {
    }

    lemma ZeroedView(s: Env, t: Typespec)
      requires Sized(s) && t in nodes && s.id.Keys == nodes && t.id == 0
      requires forall u :: u in nodes && u != t ==> u.id == s.id[u]
      requires AbsOf(nodes) == s.abs
      ensures IdsOf(nodes) == s.id[t := 0] && IdsOf(nodes).Keys == nodes
    {
    }

    lemma ListEnsures()
      requires Valid()
      ensures Inv(View()) && Sized(View()) && View().id.Keys == nodes && dus.Valid() && lib.Valid()
      ensures Closed(View().abs, View().id) && 0 <= kept && View().keep == kept
    {
    }

    /** reset_types of any list: it leaves a valid environment exactly when the
        list covers the users of what goes and every turn finds something to
        delete, as it does when users come first. */
    method ResetTypes(list: seq<Typespec>)
      requires Valid() && (forall t :: t in list ==> t in nodes)
      modifies types, (set t | t in list)`id
      ensures Sized(old(View())) && old(View()).id.Keys == nodes && Closed(old(View()).abs, old(View()).id)
      ensures View() == TypeEnv.ResetTypes(old(View()), list)
      ensures Valid() <==> Covers(old(View()), Going(old(View()), list)) && AllHit(old(View()), list)
      ensures UsersFirst(old(View()).abs, old(View()).id, kept, list) ==> Valid()
      ensures forall u :: u in nodes ==> u.id == if u in list && old(u.id) > kept then 0 else old(u.id)
    {
      hide *;
      ListEnsures();
      ViewIs();
      ghost var s := View();
      for j := 0 to |list|
        invariant Sized(View()) && View().id.Keys == nodes && dus.Valid() && lib.Valid()
        invariant TypeEnv.ResetTypes(View(), list[j..]) == TypeEnv.ResetTypes(s, list)
      {
        assert list[j..][0] == list[j] && list[j..][1..] == list[j + 1..];
        ResetTypesStep(View(), list[j..]);
        ResetOne(list[j]);
      }
      assert list[|list|..] == [];
      ResetNone(View());
      ResetTypesExact(s, list);
      ResetTypesIds(s, list);
      ViewIs();
      if Inv(View()) { Revalidate(); }
      if Valid() { ListEnsures(); }
      if UsersFirst(s.abs, s.id, kept, list) { ResetTypesInv(s, list); }
    }
  }
}
