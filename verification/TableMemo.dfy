/** The one-entry memo of the types table: the last key, its bucket and what it
    is bound to. Keys are compared as records, while the ids that hash and
    similarity read change and c_type rewrites records; in every run the memo
    says what a fresh probe would say. */
module TableMemo {
  import opened Syntax
  import opened Shapes
  import opened Hashing
  import opened Placement
  import opened TypeEnv
  import opened ResetLists
  import opened TypeRuns

  /** The object that holds a description. */
  datatype Record = Record(address: nat)

  /** lkey, lhash and lval. */
  datatype Memo = NoMemo | Last(key: Record, hash: int, val: Option<Typespec>)

  /** The environment, what each record holds, the record of each type, and the
      memo of its types table. */
  datatype Table = Table(env: Env, abs: map<Record, Typeabs>, rec: map<Typespec, Record>, memo: Memo)

  ghost predicate Known(abs: map<Record, Typeabs>, id: TypeIds) {
    forall r :: r in abs ==> Comps(abs[r]) <= id.Keys
  }

  /** Each live type's description is what its record holds. */
  ghost predicate Held(m: Table) {
    && Known(m.abs, m.env.id)
    && forall t :: Live(m.env.id, t) ==>
         t in m.rec && t in m.env.abs && m.rec[t] in m.abs && m.abs[m.rec[t]] == m.env.abs[t]
  }

  /** The memo says of its key what a fresh probe would. */
  ghost predicate Fresh(m: Table)
    requires Sized(m.env) && Known(m.abs, m.env.id)
  {
    m.memo.Last? ==>
      && m.memo.key in m.abs && LiveComps(m.env.id, m.abs[m.memo.key])
      && m.memo.hash == Bucket(m.env.hash, m.env.id, m.abs[m.memo.key])
      && m.memo.val == Find(m.env, m.abs[m.memo.key])
  }

  ghost predicate Good(m: Table) {
    Inv(m.env) && Sized(m.env) && Held(m) && Fresh(m)
  }

  // ----- the operations of the table that read the memo -----

  /** get_pair; a hit does not look at the table. */
  ghost function GetPair(m: Table, k: Record): (r: (Table, Option<Typespec>))
    requires Good(m) && k in m.abs
  {
    if m.memo.Last? && m.memo.key == k then (m, m.memo.val)
    else
      FindSpec(m.env, m.abs[k]);
      var h := Bucket(m.env.hash, m.env.id, m.abs[k]);
      var v := FindIn(m.env.abs, m.env.id, m.env.tab[h], m.abs[k]);
      (m.(memo := Last(if v.Some? then m.rec[v.value] else k, h, v)), v)
  }

  /** fixup; bind takes the bucket from the memo if it has it. */
  ghost function Fixup(m: Table, k: Record, t: Typespec, a': Typeabs): Table
    requires Good(m) && k in m.abs
  {
    var s := TypeEnv.Fixup(m.env, t, m.abs[k], a');
    assert Comps(m.abs[k]) <= m.env.id[t := m.env.next].Keys;
    var h := if m.memo.Last? && m.memo.key == k then m.memo.hash
             else Bucket(m.env.hash, m.env.id[t := m.env.next], m.abs[k]);
    Table(if 0 <= h < SIZE then s.(tab := m.env.tab[h := [t] + m.env.tab[h]]) else s,
          m.abs[k := a'], m.rec[t := k], Last(k, h, Some(t)))
  }

  /** delete forgets the memo only when it finds something to delete. */
  ghost function MemoAfter(s: Env, memo: Memo, list: seq<Typespec>): Memo
    requires Sized(s) && forall t :: t in list ==> t in s.id
    decreases |list|
  {
    if list == [] then memo
    else
      ResetOneSized(s, list[0]);
      MemoAfter(ResetOne(s, list[0]), if s.id[list[0]] > s.keep && Hit(s, list[0]) then NoMemo else memo, list[1..])
  }

  // ----- runs -----

  /** Parse makes a record and Rewrite is what c_type does to one: components
      that are canonical stay. Ask is get_type of the description in a record;
      t and a' as in TypeRuns. The other operations are those of TypeRuns. */
  datatype Act =
    | Parse(r: Record, a: Typeabs)
    | Rewrite(r: Record, a: Typeabs)
    | Ask(k: Record, t: Typespec, a': Typeabs)
    | Other(c: Command)

  ghost predicate Allowed1(m: Table, x: Act)
    requires Good(m)
  {
    match x
    case Parse(r, a) => r !in m.abs && Comps(a) <= m.env.id.Keys
    case Rewrite(r, a) =>
      && r in m.abs && EditFrom(m.env.id, m.abs[r], a)
      && (LiveComps(m.env.id, m.abs[r]) ==> a == m.abs[r])
    case Ask(k, t, a') =>
      k in m.abs && LiveComps(m.env.id, m.abs[k]) && t !in m.env.id && Resolves(m.env.dus, m.abs[k], a')
    case Other(c) => !c.AskType? && Enabled(m.env, c)
  }

  ghost function Do(m: Table, x: Act): Table
    requires Good(m) && Allowed1(m, x)
  {
    match x
    case Parse(r, a) => m.(abs := m.abs[r := a])
    case Rewrite(r, a) => m.(abs := m.abs[r := a])
    case Ask(k, t, a') =>
      GetPairFinds(m, k);
      var (m1, v) := GetPair(m, k);
      if v.Some? then m1 else Fixup(m1, k, t, a')
    case Other(c) =>
      m.(env := Step(m.env, c),
         memo := if c.DropTypes? || c.DropAll? then NoMemo
                 else if c.DropListed? then MemoAfter(m.env, m.memo, c.list) else m.memo)
  }

  /** The same on an environment without a memo. */
  ghost function Plainly(m: Table, x: Act): Env
    requires Good(m) && Allowed1(m, x)
  {
    match x
    case Parse(_, _) => m.env
    case Rewrite(_, _) => m.env
    case Ask(k, t, a') => GetType(m.env, t, m.abs[k], a')
    case Other(c) => Step(m.env, c)
  }

  // ----- every step keeps the memo right -----

  lemma LikeBucket(h: StringHash, id: TypeIds, a: Typeabs, b: Typeabs)
    requires Comps(a) <= id.Keys && Comps(b) <= id.Keys && DescOf(id, a) == DescOf(id, b)
    ensures Bucket(h, id, a) == Bucket(h, id, b)
  {
  }

  /** What a probe finds is told by the live types alone. */
  lemma FindIs(s: Env, a: Typeabs, v: Option<Typespec>)
    requires Inv(s) && Sized(s) && Comps(a) <= s.id.Keys
    requires if v.Some? then Live(s.id, v.value) && DescOf(s.id, s.abs[v.value]) == DescOf(s.id, a)
             else forall t :: Live(s.id, t) ==> DescOf(s.id, s.abs[t]) != DescOf(s.id, a)
    ensures Find(s, a) == v
  {
    hide DescOf, Bucket, Comps, Find, Placed, DistinctIds, Grounded, SharedGens;
    FindSpec(s, a);
    var r := Find(s, a);
    if v.Some? && r.Some? { assert Descs(s.abs, s.id)[r.value] == Descs(s.abs, s.id)[v.value]; }
  }

  /** A new live type that reads as before, or none: found as before. */
  lemma FindSame(s: Env, s': Env, a: Typeabs)
    requires Inv(s) && Inv(s') && Sized(s) && Sized(s') && LiveComps(s.id, a) && Comps(a) <= s.id.Keys
    requires s.id.Keys <= s'.id.Keys && forall t :: t in s.id ==> s'.id[t] == s.id[t]
    requires forall t :: Live(s'.id, t) ==> Live(s.id, t) && s'.abs[t] == s.abs[t]
    requires s'.hash == s.hash
    ensures LiveComps(s'.id, a) && Comps(a) <= s'.id.Keys
    ensures Find(s', a) == Find(s, a) && Bucket(s'.hash, s'.id, a) == Bucket(s.hash, s.id, a)
  {
    hide DescOf, Bucket, Comps, Find, Inv, TabKnown;
    SameDesc(s.hash, s.id, s'.id, a);
    FindSpec(s, a);
    forall t | Live(s'.id, t) ensures DescOf(s'.id, s'.abs[t]) == DescOf(s.id, s.abs[t]) {
      LiveHasLiveComps(s, t);
      SameDesc(s.hash, s.id, s'.id, s.abs[t]);
    }
    FindIs(s', a, Find(s, a));
  }

  lemma GoodIs(m: Table)
    requires Good(m)
    ensures Inv(m.env) && Sized(m.env) && Held(m) && Known(m.abs, m.env.id) && Fresh(m)
  {
  }

  /** What get_pair answers is what is in the table, memo or not. */
  lemma GetPairFinds(m: Table, k: Record)
    requires Good(m) && k in m.abs && LiveComps(m.env.id, m.abs[k])
    ensures GetPair(m, k).1 == Find(m.env, m.abs[k])
    ensures var m1 := GetPair(m, k).0;
            && Good(m1) && m1 == m.(memo := m1.memo)
            && (GetPair(m, k).1.None? ==> m1.memo.Last? && m1.memo.key == k)
  {
    hide DescOf, Bucket, Comps, Inv, Sized, FindIn;
    GoodIs(m);
    FindSpec(m.env, m.abs[k]);
    var v := Find(m.env, m.abs[k]);
    if v.Some? {
      LiveHasLiveComps(m.env, v.value);
      LikeBucket(m.env.hash, m.env.id, m.env.abs[v.value], m.abs[k]);
      FindIs(m.env, m.env.abs[v.value], v);
    }
  }

  /** The bucket that bind takes from the memo is the one it would compute. */
  lemma FixupIs(m: Table, k: Record, t: Typespec, a': Typeabs)
    requires Good(m) && k in m.abs && LiveComps(m.env.id, m.abs[k]) && t !in m.env.id
    ensures Fixup(m, k, t, a').env == TypeEnv.Fixup(m.env, t, m.abs[k], a')
    ensures Fixup(m, k, t, a').abs == m.abs[k := a'] && Fixup(m, k, t, a').rec == m.rec[t := k]
    ensures Fixup(m, k, t, a').memo == Last(k, Bucket(m.env.hash, m.env.id, m.abs[k]), Some(t))
  {
    hide DescOf, Bucket, Comps, Inv;
    var id' := m.env.id[t := m.env.next];
    SameDesc(m.env.hash, m.env.id, id', m.abs[k]);
  }

  /** get_type with the memo does what it does without. */
  lemma AskGood(m: Table, k: Record, t: Typespec, a': Typeabs)
    requires Good(m) && Allowed1(m, Ask(k, t, a'))
    ensures Do(m, Ask(k, t, a')).env == GetType(m.env, t, m.abs[k], a') && Good(Do(m, Ask(k, t, a')))
  {
    hide DescOf, Bucket, Comps, Inv, Sized, Find, FindIn, GetPair, Fixup, Resolves, TypeEnv.Fixup, Held, Fresh, Good;
    GoodIs(m);
    GetPairFinds(m, k);
    var m1 := GetPair(m, k).0;
    if Find(m.env, m.abs[k]).None? {
      FixupGood(m1, k, t, a');
    }
  }

  lemma FixupGood(m: Table, k: Record, t: Typespec, a': Typeabs)
    requires Good(m) && k in m.abs && LiveComps(m.env.id, m.abs[k]) && t !in m.env.id
    requires Resolves(m.env.dus, m.abs[k], a') && Find(m.env, m.abs[k]).None?
    ensures Fixup(m, k, t, a').env == TypeEnv.Fixup(m.env, t, m.abs[k], a') && Good(Fixup(m, k, t, a'))
  {
    hide DescOf, Bucket, Comps, Inv, Sized, Find, FindIn, Resolves, Fixup, TypeEnv.Fixup, Held, Fresh;
    GoodIs(m);
    FixupIs(m, k, t, a');
    GetTypeInv(m.env, t, m.abs[k], a');
    var m' := Fixup(m, k, t, a');
    assert Inv(m'.env);
    InvSized(m'.env);
    FixupHeld(m, k, t, a');
    FixupFresh(m, k, t, a');
  }

  lemma FixupHeld(m: Table, k: Record, t: Typespec, a': Typeabs)
    requires Good(m) && k in m.abs && LiveComps(m.env.id, m.abs[k]) && t !in m.env.id
    requires Resolves(m.env.dus, m.abs[k], a') && Find(m.env, m.abs[k]).None?
    ensures Held(Fixup(m, k, t, a'))
  {
    hide DescOf, Bucket, Comps, Inv, Find, FindIn, Resolves, Fresh, TabKnown, Fixup, AddDu;
    FixupIs(m, k, t, a');
    FindSpec(m.env, m.abs[k]);
    ResolvedSame(m.env.hash, m.env.id, m.env.dus, m.abs[k], a');
    forall u | Live(m.env.id, u) ensures m.rec[u] != k {
      LiveHasLiveComps(m.env, u);
    }
  }

  lemma FixupFresh(m: Table, k: Record, t: Typespec, a': Typeabs)
    requires Good(m) && k in m.abs && LiveComps(m.env.id, m.abs[k]) && t !in m.env.id
    requires Resolves(m.env.dus, m.abs[k], a') && Find(m.env, m.abs[k]).None?
    requires Sized(Fixup(m, k, t, a').env) && Inv(Fixup(m, k, t, a').env) && Held(Fixup(m, k, t, a'))
    ensures Fresh(Fixup(m, k, t, a'))
  {
    hide DescOf, Bucket, Comps, Inv, Find, FindIn, Resolves, TabKnown, Fixup, AddDu;
    FixupIs(m, k, t, a');
    InvCounts(m.env);
    var m' := Fixup(m, k, t, a');
    SameDesc(m.env.hash, m.env.id, m'.env.id, m.abs[k]);
    ResolvedSame(m.env.hash, m'.env.id, m.env.dus, m.abs[k], a');
    FindIs(m'.env, a', Some(t));
  }

  /** Records made or rewritten do not bear on the memo. */
  lemma RecordGood(m: Table, r: Record, a: Typeabs)
    requires Good(m) && Comps(a) <= m.env.id.Keys
    requires r in m.abs && LiveComps(m.env.id, m.abs[r]) ==> a == m.abs[r]
    ensures Good(m.(abs := m.abs[r := a]))
  {
    hide DescOf, Bucket, Comps, Inv, Sized, Find;
    forall t | Live(m.env.id, t) ensures m.rec[t] != r || a == m.env.abs[t] {
      LiveHasLiveComps(m.env, t);
    }
  }

  /** Steps that leave ids and live types alone. */
  ghost predicate Quiet(s: Env, s': Env) {
    && s'.hash == s.hash && s.id.Keys <= s'.id.Keys && (forall t :: t in s.id ==> s'.id[t] == s.id[t])
    && (forall t :: Live(s'.id, t) ==> Live(s.id, t) && t in s.abs && t in s'.abs && s'.abs[t] == s.abs[t])
  }

  lemma QuietGood(m: Table, s': Env)
    requires Good(m) && Inv(s') && Sized(s') && Quiet(m.env, s')
    ensures Good(m.(env := s'))
  {
    hide DescOf, Bucket, Comps, Inv, Sized, Find;
    if m.memo.Last? { FindSame(m.env, s', m.abs[m.memo.key]); }
  }

  /** Steps that take ids away, when the memo is forgotten. */
  lemma ForgottenGood(m: Table, s': Env)
    requires Good(m) && Inv(s') && Sized(s') && s'.abs == m.env.abs && s'.id.Keys == m.env.id.Keys
    requires forall t :: Live(s'.id, t) ==> Live(m.env.id, t)
    ensures Good(m.(env := s', memo := NoMemo))
  {
    hide Comps, Inv, Sized;
  }

  lemma OtherQuiet(s: Env, c: Command)
    requires Inv(s) && Enabled(s, c) && (c.MakeNode? || c.EditNode? || c.AskDu? || c.KeepAll?)
    ensures Quiet(s, Step(s, c))
  {
    hide Inv, Comps, EditFrom;
    InvCounts(s);
  }

  // ----- reset_types -----

  /** A delete that its users precede finds its type. */
  lemma UsersFirstHits(s: Env, list: seq<Typespec>)
    requires Inv(s) && Sized(s) && list != [] && list[0] in s.id && s.id[list[0]] > s.keep
    requires UsersFirst(s.abs, s.id, s.keep, list)
    ensures |s.tab| == SIZE && Hit(s, list[0])
  {
    hide DescOf, Bucket, Comps, Inv, PlaceAt, TabKnown;
    var t := list[0];
    InvSized(s);
    InvStanding(s);
    LiveHasLiveComps(s, t);
    assert list[..0] == [];
    SameAt(s, s.id, Zero(s.id, t), t);
    assert Alike(s, Zero(s.id, t), t, t);
  }

  /** Either nothing changed, or the memo is forgotten. */
  lemma {:induction false} ListMemo(s: Env, memo: Memo, list: seq<Typespec>)
    requires Inv(s) && Sized(s) && (forall t :: t in list ==> t in s.id) && UsersFirst(s.abs, s.id, s.keep, list)
    ensures MemoAfter(s, memo, list) == NoMemo || (MemoAfter(s, memo, list) == memo && ResetTypes(s, list) == s)
    decreases |list|
  {
    hide DescOf, Inv, Sized, Closed, UsersFirst, ResetOne, Hit;
    if list != [] {
      ResetOneStep(s, list);
      InvSized(ResetOne(s, list[0]));
      if s.id[list[0]] > s.keep {
        UsersFirstHits(s, list);
      } else {
        NotReset(s, list[0]);
      }
      ListMemo(ResetOne(s, list[0]), if s.id[list[0]] > s.keep then NoMemo else memo, list[1..]);
    }
  }

  lemma ListGood(m: Table, list: seq<Typespec>)
    requires Good(m) && (forall t :: t in list ==> t in m.env.id)
    requires UsersFirst(m.env.abs, m.env.id, m.env.keep, list)
    ensures Good(m.(env := ResetTypes(m.env, list), memo := MemoAfter(m.env, m.memo, list)))
  {
    hide Inv, Comps, ResetTypes, MemoAfter, UsersFirst, Sized, Closed;
    GoodIs(m);
    InvClosed(m.env);
    ResetTypesInv(m.env, list);
    ListMemo(m.env, m.memo, list);
    if MemoAfter(m.env, m.memo, list) == NoMemo {
      ForgottenGood(m, ResetTypes(m.env, list));
    }
  }

  // ----- runs -----

  /** One step with the memo: the environment goes where it goes without one,
      and the memo stays right. */
  lemma DoGood(m: Table, x: Act)
    requires Good(m) && Allowed1(m, x)
    ensures Do(m, x).env == Plainly(m, x) && Good(Do(m, x))
  {
    hide Inv, Comps, Sized, GetPair, Fixup, Find, Held, Fresh, Good, Step, Enabled, GetType, EditFrom, Resolves;
    GoodIs(m);
    match x
    case Parse(r, a) => RecordGood(m, r, a);
    case Rewrite(r, a) =>
      EditFromKnown(m.env.id, m.abs[r], a);
      RecordGood(m, r, a);
    case Ask(k, t, a') => AskGood(m, k, t, a');
    case Other(c) => OtherGood(m, c);
  }

  lemma EditFromKnown(id: TypeIds, a: Typeabs, a': Typeabs)
    requires EditFrom(id, a, a')
    ensures Comps(a') <= id.Keys
  {
  }

  lemma OtherGood(m: Table, c: Command)
    requires Good(m) && !c.AskType? && Enabled(m.env, c)
    ensures Good(Do(m, Other(c)))
  {
    hide Inv, Comps, Sized, Find, Held, Fresh, Good, EditFrom, UsersFirst, ResetTypes, FlushTab, MemoAfter;
    GoodIs(m);
    var s' := Step(m.env, c);
    InvSized(s');
    if c.DropListed? {
      ListGood(m, c.list);
    } else if c.DropTypes? || c.DropAll? {
      ForgottenGood(m, s');
    } else {
      OtherQuiet(m.env, c);
      QuietGood(m, s');
    }
  }

  ghost predicate AllowedAll(m: Table, run: seq<Act>)
    requires Good(m)
    decreases |run|
  {
    run == [] || (Allowed1(m, run[0]) && (DoGood(m, run[0]); AllowedAll(Do(m, run[0]), run[1..])))
  }

  /** The state after a run. */
  ghost function DoAll(m: Table, run: seq<Act>): (m': Table)
    requires Good(m) && AllowedAll(m, run)
    ensures Good(m')
    decreases |run|
  {
    if run == [] then m else DoGood(m, run[0]); DoAll(Do(m, run[0]), run[1..])
  }

  lemma NewTable(h: StringHash)
    ensures Good(Table(Empty(h), map[], map[], NoMemo))
  {
    hide Inv;
    EmptyInv(h);
    InvSized(Empty(h));
  }

  /** After any run from the empty table, what get_pair answers for a record of
      live components is what a probe of the table finds, whether or not the
      memo has that record. */
  lemma MemoSaysWhatProbeFinds(h: StringHash, run: seq<Act>, k: Record)
    requires Good(Table(Empty(h), map[], map[], NoMemo))
    requires AllowedAll(Table(Empty(h), map[], map[], NoMemo), run)
    requires var m := DoAll(Table(Empty(h), map[], map[], NoMemo), run); k in m.abs && LiveComps(m.env.id, m.abs[k])
    ensures var m := DoAll(Table(Empty(h), map[], map[], NoMemo), run);
            && Inv(m.env) && Sized(m.env) && Comps(m.abs[k]) <= m.env.id.Keys
            && GetPair(m, k).1 == Find(m.env, m.abs[k])
  {
    hide *;
    var m := DoAll(Table(Empty(h), map[], map[], NoMemo), run);
    GoodIs(m);
    KnownIs(m.abs, m.env.id, k);
    GetPairFinds(m, k);
  }

  lemma KnownIs(abs: map<Record, Typeabs>, id: TypeIds, k: Record)
    requires Known(abs, id) && k in abs
    ensures Comps(abs[k]) <= id.Keys
  {
  }
}
