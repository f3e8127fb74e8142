/** What reset_types does with lists in any order: it zeroes an id and then
    deletes by probing with the ids of that moment, so a type listed before one
    built from it can leave that one where no delete looks. */
module ResetLists {
  import opened Syntax
  import opened Shapes
  import opened Hashing
  import opened Placement
  import opened TypeEnv

  ghost function Zero(id: TypeIds, t: Typespec): (r: TypeIds)
    ensures t in id ==> r.Keys == id.Keys
  {
    id[t := 0]
  }

  /** The chain that the description of t names while the ids are these. */
  ghost function PlaceAt(s: Env, id: TypeIds, t: Typespec): (b: int)
    ensures 0 <= b < SIZE
  {
    if t in s.abs && Comps(s.abs[t]) <= id.Keys then Bucket(s.hash, id, s.abs[t]) else 0
  }

  /** Two types look the same while the ids are these. */
  ghost predicate Alike(s: Env, id: TypeIds, t: Typespec, u: Typespec) {
    && t in s.abs && u in s.abs && Comps(s.abs[t]) <= id.Keys && Comps(s.abs[u]) <= id.Keys
    && DescOf(id, s.abs[t]) == DescOf(id, s.abs[u])
  }

  /** A turn for t finds something to delete. */
  ghost predicate Hit(s: Env, t: Typespec)
    requires |s.tab| == SIZE
  {
    exists u :: u in s.tab[PlaceAt(s, Zero(s.id, t), t)] && Alike(s, Zero(s.id, t), u, t)
  }

  /** Every turn that zeroes an id does. */
  ghost predicate AllHit(s: Env, list: seq<Typespec>)
    requires Sized(s) && forall t :: t in list ==> t in s.id
    decreases |list|
  {
    list == [] ||
    (ResetOneSized(s, list[0]);
     (s.id[list[0]] > s.keep ==> Hit(s, list[0])) && AllHit(ResetOne(s, list[0]), list[1..]))
  }

  /** The listed types that are to go. */
  ghost function Going(s: Env, list: seq<Typespec>): set<Typespec> {
    set t | t in list && t in s.id && s.id[t] > s.keep
  }

  /** Every live type built from one that is to go is to go. */
  ghost predicate Covers(s: Env, gone: set<Typespec>)
    requires Closed(s.abs, s.id)
  {
    && (forall t :: t in gone ==> t in s.id && s.id[t] > s.keep)
    && (forall t, u :: t in gone && Live(s.id, u) && t in Comps(s.abs[u]) ==> u in gone)
  }

  // ----- reading descriptions while ids are zeroed -----

  /** A description with a dead component is like none whose components live. */
  lemma ZeroShows(id: TypeIds, a: Typeabs, b: Typeabs, t: Typespec)
    requires Comps(a) <= id.Keys && Comps(b) <= id.Keys
    requires LiveComps(id, a) && t in Comps(b) && id[t] == 0
    ensures DescOf(id, a) != DescOf(id, b)
  {
    hide Comps, MapAbs;
    CompsOfMap(a, id);
    CompsOfMap(b, id);
    assert id[t] in Comps(DescOf(id, b));
  }

  lemma SameAt(s: Env, id: TypeIds, id': TypeIds, t: Typespec)
    requires t in s.abs && Comps(s.abs[t]) <= id.Keys && Comps(s.abs[t]) <= id'.Keys
    requires forall c :: c in Comps(s.abs[t]) ==> id[c] == id'[c]
    ensures PlaceAt(s, id', t) == PlaceAt(s, id, t) && DescOf(id', s.abs[t]) == DescOf(id, s.abs[t])
  {
    hide Bucket, Comps, DescOf;
    SameDesc(s.hash, id, id', s.abs[t]);
  }

  lemma LiveUnlike(s: Env, t: Typespec, u: Typespec)
    requires Inv(s) && Live(s.id, t) && Live(s.id, u) && Alike(s, s.id, t, u)
    ensures t == u
  {
    hide Bucket, Comps, DescOf, Placed, DistinctIds, Grounded, SharedGens;
    assert Descs(s.abs, s.id)[t] == Descs(s.abs, s.id)[u];
  }

  /** Some of the types that are to go have lost their ids. */
  ghost predicate Partly(s: Env, gone: set<Typespec>, id: TypeIds) {
    id.Keys == s.id.Keys && forall t :: t in id ==> id[t] == s.id[t] || (t in gone && id[t] == 0)
  }

  /** What stays reads as it did. */
  lemma StayerReads(s: Env, gone: set<Typespec>, id: TypeIds, v: Typespec)
    requires Inv(s) && Closed(s.abs, s.id) && Covers(s, gone) && Partly(s, gone, id) && Live(s.id, v) && v !in gone
    ensures v in s.abs && LiveComps(id, s.abs[v]) && Comps(s.abs[v]) <= id.Keys
    ensures PlaceAt(s, id, v) == PlaceAt(s, s.id, v) && DescOf(id, s.abs[v]) == DescOf(s.id, s.abs[v])
  {
    hide Bucket, Comps, DescOf, Inv;
    LiveHasLiveComps(s, v);
    SameAt(s, s.id, id, v);
  }

  /** A delete for a type that is to go takes no type that stays: it looks for a
      description, and either that has a dead component by now or it is still
      the type's own. */
  lemma TakesGoing(s: Env, gone: set<Typespec>, id: TypeIds, t: Typespec, v: Typespec)
    requires Inv(s) && Closed(s.abs, s.id) && Covers(s, gone) && Partly(s, gone, id)
    requires t in gone && Live(s.id, t) && Live(s.id, v) && Alike(s, id, v, t)
    ensures v in gone
  {
    hide Bucket, Comps, DescOf, Inv;
    if v !in gone {
      StayerReads(s, gone, id, v);
      LiveHasLiveComps(s, t);
      if c :| c in Comps(s.abs[t]) && id[c] == 0 {
        ZeroShows(id, s.abs[v], s.abs[t], c);
      } else {
        SameAt(s, s.id, id, t);
        LiveUnlike(s, v, t);
      }
    }
  }

  // ----- the table while deletes go on -----

  ghost predicate Chains(tab: TypeTab) {
    && |tab| == SIZE && (forall i :: 0 <= i < |tab| ==> NoRepeats(tab[i]))
    && (forall i, j, t :: 0 <= i < |tab| && 0 <= j < |tab| && t in tab[i] && t in tab[j] ==> i == j)
  }

  ghost function Entries(tab: TypeTab): set<Typespec> {
    set i, t | 0 <= i < |tab| && t in tab[i] :: t
  }

  /** Every entry stands where it did, and what stays is there. */
  ghost predicate Standing(s: Env, gone: set<Typespec>, tab: TypeTab) {
    && Chains(tab)
    && (forall i :: 0 <= i < |tab| ==> forall t :: t in tab[i] ==> Live(s.id, t) && PlaceAt(s, s.id, t) == i)
    && (forall t :: Live(s.id, t) && t !in gone ==> t in tab[PlaceAt(s, s.id, t)])
  }

  /** Between two turns. */
  ghost predicate Mid(s0: Env, gone: set<Typespec>, s: Env) {
    s == s0.(id := s.id, tab := s.tab) && Sized(s) && Partly(s0, gone, s.id) && Standing(s0, gone, s.tab)
  }

  lemma InvStanding(s: Env)
    requires Inv(s)
    ensures Standing(s, {}, s.tab)
  {
    hide Bucket, Comps, DescOf, DistinctIds, Grounded, Canonical, SharedGens;
    var p := Places(s.hash, s.abs, s.id);
    assert forall t :: t in s.id ==> p[t] == PlaceAt(s, s.id, t);
    forall i | 0 <= i < SIZE
      ensures NoRepeats(s.tab[i]) && forall t :: t in s.tab[i] ==> Live(s.id, t) && PlaceAt(s, s.id, t) == i
    {
      assert ChainOk(s.id, p, s.tab[i], i);
    }
  }

  lemma EntriesLess(tab: TypeTab, b: int, r: seq<Typespec>, v: Typespec)
    requires Chains(tab) && 0 <= b < |tab| && v in tab[b] && NoRepeats(r)
    requires forall u :: u in r <==> u in tab[b] && u != v
    ensures Chains(tab[b := r]) && Entries(tab[b := r]) == Entries(tab) - {v} && v in Entries(tab)
    ensures forall i, u :: 0 <= i < |tab| && u in tab[b := r][i] ==> u in tab[i]
    ensures forall i, u :: 0 <= i < |tab| && u in tab[i] && u != v ==> u in tab[b := r][i]
  {
    var tab' := tab[b := r];
    forall i, u | 0 <= i < |tab| && u in tab'[i] ensures u in tab[i] && u != v { }
    forall u | u in Entries(tab) && u != v ensures u in Entries(tab') {
      var i :| 0 <= i < |tab| && u in tab[i];
      assert u in tab'[i];
    }
    forall u | u in Entries(tab') ensures u in Entries(tab) && u != v {
      var i :| 0 <= i < |tab| && u in tab'[i];
    }
  }

  lemma DeleteIs(s: Env, t: Typespec)
    requires Sized(s) && t in s.id && s.id[t] > s.keep
    ensures ResetOne(s, t) == s.(id := Zero(s.id, t), tab := ResetOne(s, t).tab) && Closed(s.abs, Zero(s.id, t))
    ensures ResetOne(s, t).tab ==
            var b, desc := PlaceAt(s, Zero(s.id, t), t), Descs(s.abs, Zero(s.id, t));
            s.tab[b := Without<Typespec, Desc>(s.tab[b], desc, desc[t])]
  {
    hide Bucket, Comps, DescOf;
  }

  lemma ZeroPartly(s0: Env, gone: set<Typespec>, id: TypeIds, t: Typespec)
    requires Partly(s0, gone, id) && t in gone && t in id
    ensures Partly(s0, gone, Zero(id, t)) && (id[t] != 0 ==> Live(s0.id, t))
  {
  }

  /** The entry that a turn takes, if it hits. */
  lemma Taken(s0: Env, gone: set<Typespec>, s: Env, t: Typespec) returns (v: Typespec, r: seq<Typespec>)
    requires Inv(s0) && Closed(s0.abs, s0.id) && Covers(s0, gone) && Mid(s0, gone, s)
    requires t in gone && t in s.id && s.id[t] > s.keep && Hit(s, t) && 0 <= s0.keep
    ensures var b := PlaceAt(s, Zero(s.id, t), t);
            && v in gone && Alike(s, Zero(s.id, t), v, t)
            && v in s.tab[b] && NoRepeats(r) && (forall u :: u in r <==> u in s.tab[b] && u != v)
            && ResetOne(s, t) == s.(id := Zero(s.id, t), tab := s.tab[b := r])
  {
    hide Bucket, Comps, DescOf, Inv, Covers, PlaceAt, ResetOne, Zero, Partly;
    var id' := Zero(s.id, t);
    var b := PlaceAt(s, id', t);
    DeleteIs(s, t);
    ZeroPartly(s0, gone, s.id, t);
    var desc := Descs(s.abs, id');
    r := Without<Typespec, Desc>(s.tab[b], desc, desc[t]);
    v := WithoutFirst<Typespec, Desc>(s.tab[b], desc, desc[t]);
    assert Alike(s0, id', v, t);
    TakesGoing(s0, gone, id', t, v);
  }

  /** A turn that hits takes one entry, of a type that is to go. */
  lemma TurnHits(s0: Env, gone: set<Typespec>, s: Env, t: Typespec)
    requires Inv(s0) && Closed(s0.abs, s0.id) && Covers(s0, gone) && Mid(s0, gone, s)
    requires t in gone && t in s.id && s.id[t] > s.keep && Hit(s, t) && 0 <= s0.keep
    ensures Mid(s0, gone, ResetOne(s, t))
    ensures |Entries(ResetOne(s, t).tab)| == |Entries(s.tab)| - 1
  {
    hide Bucket, Comps, DescOf, Inv, Covers, PlaceAt, ResetOne, Zero, Partly, Sized, Chains, Entries, Hit, Closed;
    ResetOneSized(s, t);
    ZeroPartly(s0, gone, s.id, t);
    var v, r := Taken(s0, gone, s, t);
    SizedTab(s);
    EntriesLess(s.tab, PlaceAt(s, Zero(s.id, t), t), r, v);
  }

  lemma SizedTab(s: Env)
    requires Sized(s)
    ensures |s.tab| == SIZE
  {
  }

  lemma TurnMisses(s0: Env, gone: set<Typespec>, s: Env, t: Typespec)
    requires Mid(s0, gone, s) && t in gone && t in s.id && s.id[t] > s.keep && !Hit(s, t)
    ensures Mid(s0, gone, ResetOne(s, t)) && ResetOne(s, t).tab == s.tab
  {
    hide Bucket, Comps, DescOf, PlaceAt, ResetOne, Zero, Partly, Chains, Entries, Standing;
    ResetOneSized(s, t);
    ZeroPartly(s0, gone, s.id, t);
    DeleteIs(s, t);
    var id' := Zero(s.id, t);
    var b, desc := PlaceAt(s, id', t), Descs(s.abs, id');
    forall u | u in s.tab[b] ensures desc[u] != desc[t] { assert !Alike(s, id', u, t); }
    WithoutMiss<Typespec, Desc>(s.tab[b], desc, desc[t]);
    assert ResetOne(s, t).tab == s.tab;
  }

  // ----- whole lists -----

  lemma GoingNext(s: Env, list: seq<Typespec>)
    requires Sized(s) && list != [] && 0 <= s.keep && forall t :: t in list ==> t in s.id
    ensures var t, s' := list[0], ResetOne(s, list[0]);
            Going(s', list[1..]) == Going(s, list) - (if s.id[t] > s.keep then {t} else {}) && s'.keep == s.keep
    ensures s.id[list[0]] > s.keep ==> list[0] in Going(s, list)
  {
    hide ResetOne, Sized;
    ResetOneIds(s, list[0]);
    assert forall t :: t in list <==> t == list[0] || t in list[1..];
  }

  /** Each turn takes at most one entry, and all of them as many as there are
      turns exactly when all of them hit. */
  lemma {:induction false} ListTurns(s0: Env, gone: set<Typespec>, s: Env, list: seq<Typespec>)
    requires Inv(s0) && Closed(s0.abs, s0.id) && Covers(s0, gone) && Mid(s0, gone, s) && 0 <= s0.keep
    requires (forall t :: t in list ==> t in s.id) && Going(s, list) <= gone
    ensures Mid(s0, gone, ResetTypes(s, list))
    ensures var n, m, k := |Entries(s.tab)|, |Entries(ResetTypes(s, list).tab)|, |Going(s, list)|;
            m + k >= n && (AllHit(s, list) <==> m + k == n)
    decreases |list|
  {
    hide Inv, Covers, Closed, Hit, ResetOne, ResetTypes, Partly, Standing, Entries, Going;
    if list == [] {
      ResetNone(s);
      NoneGoing(s);
    } else {
      var t, s1 := list[0], ResetOne(s, list[0]);
      ResetTypesStep(s, list);
      GoingNext(s, list);
      if s.id[t] <= s.keep {
        NotReset(s, t);
      } else if Hit(s, t) {
        TurnHits(s0, gone, s, t);
      } else {
        TurnMisses(s0, gone, s, t);
      }
      ListTurns(s0, gone, s1, list[1..]);
    }
  }

  lemma NoneGoing(s: Env)
    ensures Going(s, []) == {}
  {
  }

  lemma NotReset(s: Env, t: Typespec)
    requires Sized(s) && t in s.id && s.id[t] <= s.keep
    ensures ResetOne(s, t) == s
  {
  }

  // ----- exactly when the table stays right -----

  ghost function LiveSet(id: TypeIds): set<Typespec> {
    set t | t in id && id[t] != 0
  }

  lemma SameSize<T>(a: set<T>, b: set<T>)
    requires a <= b && |a| == |b|
    ensures a == b
  {
    assert |b - a| == 0;
  }

  lemma StandingEntries(s: Env)
    requires Inv(s)
    ensures Entries(s.tab) == LiveSet(s.id) && Sized(s) && 0 <= s.keep && Closed(s.abs, s.id)
  {
    hide Bucket, Comps, DescOf, Inv, PlaceAt;
    InvSized(s);
    InvStanding(s);
    forall t | t in LiveSet(s.id) ensures t in Entries(s.tab) { assert Live(s.id, t); }
  }

  lemma StartMid(s: Env, gone: set<Typespec>)
    requires Inv(s)
    ensures Mid(s, gone, s)
  {
    hide Bucket, Comps, DescOf, Inv, PlaceAt, Chains;
    InvSized(s);
    InvStanding(s);
  }

  /** Which entries there are in the end, by what has lost its id. */
  ghost predicate Ends(s: Env, gone: set<Typespec>, e: Env) {
    && Mid(s, gone, e) && e.id.Keys == s.id.Keys
    && forall t :: t in s.id ==> e.id[t] == if t in gone then 0 else s.id[t]
  }

  lemma StayersThere(s: Env, gone: set<Typespec>, e: Env)
    requires Ends(s, gone, e)
    ensures LiveSet(s.id) - gone <= Entries(e.tab)
  {
    hide Bucket, Comps, DescOf, PlaceAt, Sized;
    forall t | t in LiveSet(s.id) - gone ensures t in Entries(e.tab) { assert Live(s.id, t); }
  }

  lemma EndReads(s: Env, gone: set<Typespec>, e: Env)
    requires Inv(s) && Closed(s.abs, s.id) && Covers(s, gone) && Ends(s, gone, e)
    ensures Closed(s.abs, e.id)
    ensures forall t :: Live(e.id, t) ==>
              && Live(s.id, t) && t !in gone && PlaceAt(s, s.id, t) == PlaceAt(s, e.id, t)
              && Descs(s.abs, e.id)[t] == Descs(s.abs, s.id)[t]
              && Places(s.hash, s.abs, e.id)[t] == Places(s.hash, s.abs, s.id)[t]
  {
    hide Bucket, Comps, DescOf, Inv, Chains, Standing, Sized, Covers;
    forall t | Live(e.id, t)
      ensures PlaceAt(s, s.id, t) == PlaceAt(s, e.id, t)
      ensures Descs(s.abs, e.id)[t] == Descs(s.abs, s.id)[t]
      ensures Places(s.hash, s.abs, e.id)[t] == Places(s.hash, s.abs, s.id)[t]
    {
      StayerReads(s, gone, e.id, t);
    }
  }

  lemma EndGrounded(s: Env, gone: set<Typespec>, e: Env)
    requires Inv(s) && Closed(s.abs, s.id) && Covers(s, gone) && Ends(s, gone, e)
    ensures Zeroed(s.id, e.id) && Grounded(e.id, Uses(s.abs)) && DistinctIds(e.id, s.next, s.keep)
  {
    hide Bucket, Comps, DescOf, Placed, Canonical, SharedGens, Mid, Descs, Places;
    var uses := Uses(s.abs);
    forall t, u | Live(e.id, t) && u in uses[t] ensures Live(e.id, u) {
      assert Live(s.id, t) && t !in gone;
    }
    ThinGrounded(s.id, e.id, uses);
    ThinDistinct(s.id, e.id, s.next, s.keep);
  }

  lemma EndPlaced(s: Env, gone: set<Typespec>, e: Env)
    requires Inv(s) && Closed(s.abs, s.id) && Covers(s, gone) && Ends(s, gone, e)
    requires Entries(e.tab) == LiveSet(s.id) - gone
    ensures Closed(s.abs, e.id) && Placed(e.id, Places(s.hash, s.abs, e.id), e.tab)
  {
    hide Bucket, Comps, DescOf, Covers, DistinctIds, Grounded, Canonical, SharedGens, PlaceAt, Places, Descs, Closed;
    EndReads(s, gone, e);
    InvStanding(s);
    PlacesKeys(s, s.id);
    PlacesKeys(s, e.id);
    forall i | 0 <= i < |s.tab|
      ensures NoRepeats(e.tab[i]) && forall t :: t in e.tab[i] <==> t in s.tab[i] && Live(e.id, t)
    {
      forall t | t in e.tab[i] ensures t in s.tab[i] && Live(e.id, t) {
        assert t in Entries(e.tab);
      }
    }
    ThinPlaced(s.id, Places(s.hash, s.abs, s.id), s.tab, e.id, Places(s.hash, s.abs, e.id), e.tab);
  }

  lemma PlacesKeys(s: Env, id: TypeIds)
    requires Closed(s.abs, id)
    ensures Places(s.hash, s.abs, id).Keys == Descs(s.abs, id).Keys == s.abs.Keys == id.Keys
  {
  }

  lemma EndInv(s: Env, gone: set<Typespec>, e: Env)
    requires Inv(s) && Closed(s.abs, s.id) && Covers(s, gone) && Ends(s, gone, e)
    requires Entries(e.tab) == LiveSet(s.id) - gone
    ensures Inv(e)
  {
    hide Bucket, Comps, DescOf, Covers, DistinctIds, Grounded, SharedGens, PlaceAt, Places, Descs, Uses, Placed,
      Standing, Canonical;
    EndGrounded(s, gone, e);
    EndPlaced(s, gone, e);
    EndReads(s, gone, e);
    PlacesKeys(s, s.id);
    PlacesKeys(s, e.id);
    ShrinkCanonical(s.id, Descs(s.abs, s.id), e.id, Descs(s.abs, e.id));
    FlushGens(s.abs, s.id, s.dus, s.keep, e.id, e.dus);
  }

  /** For every list, in any order: the table is right afterwards exactly when
      every live type built from one that goes goes too, and every turn that
      zeroes an id finds something to delete. What it finds need not be its own
      type, but in the end all that went are gone. */
  lemma ResetTypesExact(s: Env, list: seq<Typespec>)
    requires Inv(s) && forall t :: t in list ==> t in s.id
    ensures Sized(s) && Closed(s.abs, s.id)
    ensures Inv(ResetTypes(s, list)) <==> Covers(s, Going(s, list)) && AllHit(s, list)
  {
    hide *;
    InvSized(s);
    StandingEntries(s);
    var gone := Going(s, list);
    if Covers(s, gone) {
      CoveredExact(s, list);
    } else {
      Uncovered(s, list);
    }
  }

  lemma Uncovered(s: Env, list: seq<Typespec>)
    requires Inv(s) && (forall t :: t in list ==> t in s.id) && Closed(s.abs, s.id) && !Covers(s, Going(s, list))
    ensures Sized(s) && !Inv(ResetTypes(s, list))
  {
    hide Inv, Sized, Comps, ResetTypes;
    InvSized(s);
    var t, u :| t in Going(s, list) && Live(s.id, u) && t in Comps(s.abs[u]) && u !in Going(s, list);
    Older(s, t, u);
    ResetTypesNeedsUsers(s, list, t, u);
  }

  lemma Older(s: Env, t: Typespec, u: Typespec)
    requires Inv(s) && Live(s.id, u) && u in s.abs && t in Comps(s.abs[u])
    ensures t in s.id && s.id[t] < s.id[u]
  {
    hide Bucket, Comps, DescOf, Placed, Canonical, SharedGens;
    assert t in Uses(s.abs)[u];
  }

  lemma GoingLive(s: Env, list: seq<Typespec>)
    requires 0 <= s.keep
    ensures Going(s, list) <= LiveSet(s.id)
  {
  }

  lemma CoveredExact(s: Env, list: seq<Typespec>)
    requires Inv(s) && (forall t :: t in list ==> t in s.id) && Closed(s.abs, s.id) && Covers(s, Going(s, list))
    ensures Sized(s)
    ensures Inv(ResetTypes(s, list)) <==> AllHit(s, list)
  {
    hide *;
    InvSized(s);
    StandingEntries(s);
    var gone, e, live := Going(s, list), ResetTypes(s, list), LiveSet(s.id);
    StartMid(s, gone);
    ListTurns(s, gone, s, list);
    ListEnds(s, list);
    GoingLive(s, list);
    assert |live - gone| == |live| - |gone|;
    StayersThere(s, gone, e);
    if AllHit(s, list) {
      SameSize(live - gone, Entries(e.tab));
      EndInv(s, gone, e);
    }
    if Inv(e) {
      StandingEntries(e);
      EndLive(s, gone, e);
    }
  }

  lemma EndLive(s: Env, gone: set<Typespec>, e: Env)
    requires Ends(s, gone, e)
    ensures LiveSet(e.id) == LiveSet(s.id) - gone
  {
    hide Mid;
  }

  lemma ListEnds(s: Env, list: seq<Typespec>)
    requires Sized(s) && 0 <= s.keep && (forall t :: t in list ==> t in s.id)
    requires Mid(s, Going(s, list), ResetTypes(s, list))
    ensures Ends(s, Going(s, list), ResetTypes(s, list))
  {
    hide Sized, ResetTypes, Mid;
    ResetTypesIds(s, list);
  }

  // ----- two types -----

  /** Both types are above the watermark, u is the one live type built from t,
      and none is built from u. */
  ghost predicate Pair(s: Env, t: Typespec, u: Typespec) {
    && Inv(s) && t in s.id && u in s.id && s.id[t] > s.keep && s.id[u] > s.keep
    && t in Comps(s.abs[u])
    && forall v :: Live(s.id, v) ==> u !in Comps(s.abs[v]) && (t in Comps(s.abs[v]) ==> v == u)
  }

  lemma PairIs(s: Env, t: Typespec, u: Typespec)
    requires Pair(s, t, u)
    ensures Inv(s) && Sized(s) && t in s.id && u in s.id && s.id[t] > s.keep && s.id[u] > s.keep && t != u
    ensures 0 <= s.keep && |s.tab| == SIZE && u in s.abs && Comps(s.abs[u]) <= s.id.Keys && t in Comps(s.abs[u])
    ensures Closed(s.abs, s.id) && Covers(s, {t, u}) && Going(s, [t, u]) == {t, u}
    ensures Live(s.id, t) && Live(s.id, u) && LiveComps(Zero(Zero(s.id, t), u), s.abs[t])
  {
    hide Bucket, Comps, DescOf, Good, SharedGens;
    InvSized(s);
    assert Live(s.id, u) && Live(s.id, t);
    LiveHasLiveComps(s, t);
  }

  lemma PairSteps(s: Env, t: Typespec, u: Typespec)
    requires Pair(s, t, u)
    ensures Sized(s) && t in s.id
    ensures ResetOne(s, t) == s.(id := Zero(s.id, t), tab := ResetOne(s, t).tab)
    ensures Sized(ResetOne(s, t)) && u in ResetOne(s, t).id && ResetOne(s, t).id[u] > ResetOne(s, t).keep
  {
    hide *;
    PairIs(s, t, u);
    ResetOneSized(s, t);
    DeleteIs(s, t);
    ZeroAt(s.id, t, u);
  }

  lemma AllHitStep(s: Env, list: seq<Typespec>)
    requires Sized(s) && list != [] && forall t :: t in list ==> t in s.id
    ensures Sized(ResetOne(s, list[0])) && ResetOne(s, list[0]).id.Keys == s.id.Keys && |s.tab| == SIZE
    ensures AllHit(s, list) <==>
            (s.id[list[0]] > s.keep ==> Hit(s, list[0])) && AllHit(ResetOne(s, list[0]), list[1..])
  {
    hide ResetOne, Hit;
    ResetOneSized(s, list[0]);
  }

  lemma AllHitTwo(s: Env, t: Typespec, u: Typespec)
    requires Sized(s) && t in s.id && u in s.id && s.id[t] > s.keep && |s.tab| == SIZE
    requires Sized(ResetOne(s, t)) && u in ResetOne(s, t).id && ResetOne(s, t).id[u] > ResetOne(s, t).keep
    requires |ResetOne(s, t).tab| == SIZE
    ensures AllHit(s, [t, u]) <==> Hit(s, t) && Hit(ResetOne(s, t), u)
  {
    hide *;
    AllHitStep(s, [t, u]);
    assert [t, u][1..] == [u] && [u][1..] == [];
    AllHitStep(ResetOne(s, t), [u]);
    AllHitNone(ResetOne(ResetOne(s, t), u));
  }

  lemma AllHitNone(s: Env)
    requires Sized(s)
    ensures AllHit(s, [])
  {
  }

  lemma ZeroAt(id: TypeIds, t: Typespec, u: Typespec)
    ensures t in Zero(id, t) && Zero(id, t)[t] == 0
    ensures u != t && u in id ==> u in Zero(id, t) && Zero(id, t)[u] == id[u]
  {
  }

  /** The first turn takes t, although u looks different by then. */
  lemma FirstHits(s: Env, t: Typespec, u: Typespec)
    requires Pair(s, t, u)
    ensures |s.tab| == SIZE && Hit(s, t)
  {
    hide Bucket, Comps, DescOf, Inv, Pair, Covers, PlaceAt;
    PairIs(s, t, u);
    InvStanding(s);
    LiveHasLiveComps(s, t);
    SameAt(s, s.id, Zero(s.id, t), t);
    assert Alike(s, Zero(s.id, t), t, t);
  }

  /** Between the turns u stands where it did. */
  lemma UserStays(s: Env, t: Typespec, u: Typespec)
    requires Pair(s, t, u)
    ensures Sized(s) && t in s.id && Mid(s, {t, u}, ResetOne(s, t)) && u in ResetOne(s, t).tab[PlaceAt(s, s.id, u)]
  {
    hide Bucket, Comps, DescOf, Inv, Pair, Covers, PlaceAt, ResetOne, Alike, Hit, Zero, Partly, Sized, Chains, Going;
    PairIs(s, t, u);
    FirstHits(s, t, u);
    StartMid(s, {t, u});
    InvStanding(s);
    TurnHits(s, {t, u}, s, t);
    var v, r := Taken(s, {t, u}, s, t);
    ZeroAt(s.id, t, u);
    if v == u { PairUnlike(s, t, u, Zero(s.id, t)); }
  }

  lemma PairUnlike(s: Env, t: Typespec, u: Typespec, id: TypeIds)
    requires Pair(s, t, u) && (id == Zero(s.id, t) || id == Zero(Zero(s.id, t), u))
    ensures !Alike(s, id, u, t) && !Alike(s, id, t, u)
  {
    hide Bucket, Comps, DescOf, Inv, Pair, Covers;
    PairIs(s, t, u);
    if Comps(s.abs[t]) <= id.Keys && Comps(s.abs[u]) <= id.Keys { ZeroShows(id, s.abs[t], s.abs[u], t); }
  }

  lemma SecondHits(s: Env, t: Typespec, u: Typespec)
    requires Pair(s, t, u)
    ensures Sized(s) && t in s.id && |ResetOne(s, t).tab| == SIZE
    ensures Hit(ResetOne(s, t), u) <==> PlaceAt(s, Zero(s.id, t), u) == PlaceAt(s, s.id, u)
  {
    hide Bucket, Comps, DescOf, Inv, Pair, Covers, PlaceAt, ResetOne, Sized, Going;
    PairIs(s, t, u);
    PairSteps(s, t, u);
    UserStays(s, t, u);
    var s1, id' := ResetOne(s, t), Zero(Zero(s.id, t), u);
    SizedTab(s1);
    NotOwnComp(s, t, u);
    SameAt(s, Zero(s.id, t), id', u);
    SamePlace(s, s1, id', u);
    assert Alike(s1, id', u, u);
    forall v | v in s1.tab[PlaceAt(s, id', u)] && Alike(s1, id', v, u) ensures v == u {
      ZeroPartlyTwo(s, t, u);
      TakesGoing(s, {t, u}, id', u, v);
      PairUnlike(s, t, u, id');
    }
  }

  lemma NotOwnComp(s: Env, t: Typespec, u: Typespec)
    requires Pair(s, t, u)
    ensures u in s.abs && u !in Comps(s.abs[u])
  {
    hide Bucket, Comps, DescOf, Good, SharedGens;
    PairIs(s, t, u);
  }

  lemma SamePlace(s: Env, s1: Env, id: TypeIds, u: Typespec)
    requires s1.abs == s.abs && s1.hash == s.hash
    ensures PlaceAt(s1, id, u) == PlaceAt(s, id, u)
  {
  }

  lemma ZeroPartlyTwo(s: Env, t: Typespec, u: Typespec)
    requires t in s.id && u in s.id
    ensures Partly(s, {t, u}, Zero(Zero(s.id, t), u))
  {
  }

  /** The order of the list given to reset_types matters: when a type stands
      before the one type built from it, the second delete looks where the
      first type's id is already 0. The table stays right exactly when that is
      the chain it stands in anyway; otherwise a dead type stays in the table. */
  lemma ResetTypesNeedsOrder(s: Env, t: Typespec, u: Typespec)
    requires Pair(s, t, u)
    ensures Sized(s) && u in s.abs && Comps(s.abs[u]) <= s.id.Keys
    ensures Inv(ResetTypes(s, [t, u])) <==>
            Bucket(s.hash, Zero(s.id, t), s.abs[u]) == Bucket(s.hash, s.id, s.abs[u])
  {
    hide *;
    PairIs(s, t, u);
    ResetTypesExact(s, [t, u]);
    PairSteps(s, t, u);
    FirstHits(s, t, u);
    SecondHits(s, t, u);
    AllHitTwo(s, t, u);
    PlaceAtIs(s, s.id, u);
    PlaceAtIs(s, Zero(s.id, t), u);
  }

  lemma PlaceAtIs(s: Env, id: TypeIds, t: Typespec)
    requires t in s.abs && Comps(s.abs[t]) <= id.Keys
    ensures PlaceAt(s, id, t) == Bucket(s.hash, id, s.abs[t])
  {
  }

  /** The same for a type and the type returning it: listed in that order they
      go exactly when the type's id names the same chain as 0. */
  lemma ReturnedFirst(s: Env, t: Typespec, u: Typespec)
    requires Pair(s, t, u) && u in s.abs && s.abs[u] == OtherReturn(t)
    ensures Sized(s) && t in s.id && u in s.id
    ensures Inv(ResetTypes(s, [t, u])) <==> s.id[t] % SIZE == 0
  {
    hide *;
    PairIs(s, t, u);
    ResetTypesNeedsOrder(s, t, u);
    ReturnBucket(s.hash, s.id, t);
    ZeroAt(s.id, t, t);
    ReturnBucket(s.hash, Zero(s.id, t), t);
    SameChainAsZero(s.id[t]);
  }

  lemma SameChainAsZero(n: int)
    ensures (1 + 0) % SIZE == (1 + n) % SIZE <==> n % SIZE == 0
  {
  }

  lemma ReturnBucket(h: StringHash, id: TypeIds, t: Typespec)
    requires t in id && 0 <= id[t]
    ensures Comps<Du, Typespec>(OtherReturn(t)) == {t} && Bucket(h, id, OtherReturn(t)) == (1 + id[t]) % SIZE
  {
  }
}
