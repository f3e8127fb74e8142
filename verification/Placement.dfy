/** Numbered objects in a chained hash table whose hash reads the numbers of
    other objects: what has to hold of them, and why adding one, flushing the
    high numbers and deleting one keep it. Descriptions, buckets and uses are
    plain maps here; TypeEnv says what they are for types. */
module Placement {

  type Ids<T> = map<T, int>

  ghost predicate Live<T>(id: Ids<T>, older t: T) {
    t in id && id[t] != 0
  }

  ghost predicate NoRepeats<T>(c: seq<T>) {
    forall j, k :: 0 <= j < k < |c| ==> c[j] != c[k]
  }

  ghost predicate DistinctIds<T>(id: Ids<T>, next: int, keep: int) {
    && 0 <= keep < next
    && (forall t :: t in id ==> 0 <= id[t] < next)
    && (forall t, u :: Live(id, t) && Live(id, u) && id[t] == id[u] ==> t == u)
  }

  /** What a live object uses has a smaller nonzero number. */
  ghost predicate Grounded<T>(id: Ids<T>, uses: map<T, set<T>>) {
    && uses.Keys == id.Keys
    && (forall t :: t in uses ==> uses[t] <= id.Keys)
    && (forall t, u :: Live(id, t) && u in uses[t] ==> 0 < id[u] < id[t])
  }

  ghost predicate ChainOk<T>(id: Ids<T>, place: map<T, int>, c: seq<T>, i: int) {
    NoRepeats(c) && forall t :: t in c ==> Live(id, t) && t in place && place[t] == i
  }

  /** Each live object is once in the chain its hash names; nothing else is. */
  ghost predicate Placed<T>(id: Ids<T>, place: map<T, int>, tab: seq<seq<T>>) {
    && place.Keys == id.Keys
    && (forall i :: 0 <= i < |tab| ==> ChainOk(id, place, tab[i], i))
    && (forall t :: Live(id, t) ==> 0 <= place[t] < |tab| && t in tab[place[t]])
  }

  /** Live objects with the same description are the same object. */
  ghost predicate Canonical<T, D>(id: Ids<T>, desc: map<T, D>) {
    && desc.Keys == id.Keys
    && (forall t, u :: Live(id, t) && Live(id, u) && desc[t] == desc[u] ==> t == u)
  }

  ghost predicate Good<T, D>(id: Ids<T>, uses: map<T, set<T>>, desc: map<T, D>, place: map<T, int>,
                             tab: seq<seq<T>>, next: int, keep: int)
  {
    DistinctIds(id, next, keep) && Grounded(id, uses) && Placed(id, place, tab) && Canonical(id, desc)
  }

  ghost function Survivors<T>(c: seq<T>, id: Ids<T>, max: int): seq<T>
    requires forall t :: t in c ==> t in id
  {
    if c == [] then []
    else (if id[c[0]] > max then [] else [c[0]]) + Survivors(c[1..], id, max)
  }

  lemma {:induction false} SurvivorsSpec<T>(c: seq<T>, id: Ids<T>, max: int)
    requires forall t :: t in c ==> t in id
    ensures forall t :: t in Survivors(c, id, max) <==> t in c && id[t] <= max
    ensures NoRepeats(c) ==> NoRepeats(Survivors(c, id, max))
  {
    if c != [] {
      SurvivorsSpec(c[1..], id, max);
      assert forall t :: t in c <==> t == c[0] || t in c[1..];
      if NoRepeats(c) { assert NoRepeats(c[1..]) && c[0] !in c[1..]; }
    }
  }

  lemma SurvivorsFrom<T>(c: seq<T>, j: nat, id: Ids<T>, max: int, left: seq<T>)
    requires j < |c| && forall t :: t in c ==> t in id
    ensures left + Survivors(c[j..], id, max) ==
            (if id[c[j]] > max then left else left + [c[j]]) + Survivors(c[j + 1..], id, max)
  {
    assert c[j..][0] == c[j] && c[j..][1..] == c[j + 1..];
  }

  /** The chain without its first element described by d. */
  ghost function Without<T, D>(c: seq<T>, desc: map<T, D>, d: D): seq<T>
    requires forall t :: t in c ==> t in desc
  {
    if c == [] then []
    else if desc[c[0]] == d then c[1..]
    else [c[0]] + Without(c[1..], desc, d)
  }

  lemma WithoutNone<T, D>(desc: map<T, D>, d: D)
    ensures Without<T, D>([], desc, d) == []
  {
  }

  lemma WithoutFrom<T, D>(c: seq<T>, j: nat, desc: map<T, D>, d: D)
    requires j < |c| && forall t :: t in c ==> t in desc
    ensures c[..j] + Without(c[j..], desc, d) ==
            if desc[c[j]] == d then c[..j] + c[j + 1..] else c[..j + 1] + Without(c[j + 1..], desc, d)
  {
    assert c[j..][0] == c[j] && c[j..][1..] == c[j + 1..];
    assert c[..j] + [c[j]] == c[..j + 1];
  }

  lemma {:induction false} WithoutSpec<T, D>(c: seq<T>, desc: map<T, D>, t: T)
    requires forall u :: u in c ==> u in desc
    requires t in c && NoRepeats(c) && forall u :: u in c && desc[u] == desc[t] ==> u == t
    ensures forall u :: u in Without(c, desc, desc[t]) <==> u in c && u != t
    ensures NoRepeats(Without(c, desc, desc[t]))
  {
    assert forall u :: u in c <==> u == c[0] || u in c[1..];
    assert NoRepeats(c[1..]) && c[0] !in c[1..];
    if c[0] != t { WithoutSpec(c[1..], desc, t); }
  }

  /** If something is like d, one such element goes. */
  lemma {:induction false} WithoutFirst<T, D>(c: seq<T>, desc: map<T, D>, d: D) returns (t: T)
    requires (forall u :: u in c ==> u in desc) && NoRepeats(c) && exists u :: u in c && desc[u] == d
    ensures t in c && desc[t] == d && NoRepeats(Without(c, desc, d))
    ensures forall u :: u in Without(c, desc, d) <==> u in c && u != t
  {
    assert forall u :: u in c <==> u == c[0] || u in c[1..];
    assert NoRepeats(c[1..]) && c[0] !in c[1..];
    if desc[c[0]] == d { t := c[0]; } else { t := WithoutFirst(c[1..], desc, d); }
  }

  lemma {:induction false} WithoutMiss<T, D>(c: seq<T>, desc: map<T, D>, d: D)
    requires forall u :: u in c ==> u in desc && desc[u] != d
    ensures Without(c, desc, d) == c
  {
    if c != [] { WithoutMiss(c[1..], desc, d); }
  }

  lemma {:induction false} WithoutSubset<T, D>(c: seq<T>, desc: map<T, D>, d: D)
    requires forall u :: u in c ==> u in desc
    ensures forall u :: u in Without(c, desc, d) ==> u in c
  {
    if c != [] { WithoutSubset(c[1..], desc, d); }
  }

  ghost function FlushIds<T>(id: Ids<T>, max: int): Ids<T> {
    map t | t in id :: if id[t] > max then 0 else id[t]
  }

  ghost predicate TabKnown<T>(id: Ids<T>, tab: seq<seq<T>>) {
    forall i, t :: 0 <= i < |tab| && t in tab[i] ==> t in id
  }

  lemma WithoutKnown<T, D>(id: Ids<T>, tab: seq<seq<T>>, desc: map<T, D>, b: int, d: D)
    requires TabKnown(id, tab) && desc.Keys == id.Keys && 0 <= b < |tab|
    ensures forall t :: t in tab[b] ==> t in desc
    ensures TabKnown(id, tab[b := Without(tab[b], desc, d)])
  {
    WithoutSubset(tab[b], desc, d);
  }

  ghost function FlushTab<T>(id: Ids<T>, tab: seq<seq<T>>, max: int): (r: seq<seq<T>>)
    requires TabKnown(id, tab)
    ensures |r| == |tab| && forall i :: 0 <= i < |tab| ==> r[i] == Survivors(tab[i], id, max)
  {
    seq(|tab|, i requires 0 <= i < |tab| => Survivors(tab[i], id, max))
  }

  lemma AddPlaced<T>(id: Ids<T>, place: map<T, int>, tab: seq<seq<T>>, t: T, n: int, b: int)
    requires Placed(id, place, tab) && t !in id && n != 0 && 0 <= b < |tab|
    ensures Placed(id[t := n], place[t := b], tab[b := [t] + tab[b]])
  {
  }

  lemma AddIds<T>(id: Ids<T>, next: int, keep: int, t: T)
    requires DistinctIds(id, next, keep) && t !in id
    ensures DistinctIds(id[t := next], next + 1, keep)
  {
  }

  lemma AddGrounded<T>(id: Ids<T>, uses: map<T, set<T>>, t: T, c: set<T>, next: int, keep: int)
    requires DistinctIds(id, next, keep) && Grounded(id, uses) && t !in id
    requires forall u :: u in c ==> Live(id, u)
    ensures Grounded(id[t := next], uses[t := c])
  {
  }

  lemma AddCanonical<T, D>(id: Ids<T>, desc: map<T, D>, t: T, n: int, d: D)
    requires Canonical(id, desc) && t !in id && n != 0
    requires forall u :: Live(id, u) ==> desc[u] != d
    ensures Canonical(id[t := n], desc[t := d])
  {
  }

  lemma AddGood<T, D>(id: Ids<T>, uses: map<T, set<T>>, desc: map<T, D>, place: map<T, int>,
                      tab: seq<seq<T>>, next: int, keep: int,
                      t: T, c: set<T>, d: D, b: int)
    requires Good(id, uses, desc, place, tab, next, keep)
    requires t !in id && 0 <= b < |tab|
    requires forall u :: u in c ==> Live(id, u)
    requires forall u :: Live(id, u) ==> desc[u] != d
    ensures Good(id[t := next], uses[t := c], desc[t := d], place[t := b], tab[b := [t] + tab[b]], next + 1, keep)
  {
    AddPlaced(id, place, tab, t, next, b);
    AddIds(id, next, keep, t);
    AddGrounded(id, uses, t, c, next, keep);
    AddCanonical(id, desc, t, next, d);
  }

  /** What stays live stays where it was, and only what is live stays. */
  lemma ThinPlaced<T>(id: Ids<T>, place: map<T, int>, tab: seq<seq<T>>,
                      id': Ids<T>, place': map<T, int>, tab': seq<seq<T>>)
    requires Placed(id, place, tab) && id'.Keys == place'.Keys == id.Keys && |tab'| == |tab|
    requires forall t :: Live(id', t) ==> Live(id, t) && place'[t] == place[t]
    requires forall i :: 0 <= i < |tab| ==>
               NoRepeats(tab'[i]) && forall t :: t in tab'[i] <==> t in tab[i] && Live(id', t)
    ensures Placed(id', place', tab')
  {
    forall i | 0 <= i < |tab'| ensures ChainOk(id', place', tab'[i], i) {
      assert ChainOk(id, place, tab[i], i);
    }
    forall t | Live(id', t) ensures 0 <= place'[t] < |tab'| && t in tab'[place'[t]] {
      assert Live(id, t);
    }
  }

  ghost predicate Zeroed<T>(id: Ids<T>, id': Ids<T>) {
    id'.Keys == id.Keys && forall t :: t in id ==> id'[t] == id[t] || id'[t] == 0
  }

  lemma ThinDistinct<T>(id: Ids<T>, id': Ids<T>, next: int, keep: int)
    requires DistinctIds(id, next, keep) && Zeroed(id, id')
    ensures DistinctIds(id', next, keep)
  {
    forall v, u | Live(id', v) && Live(id', u) && id'[v] == id'[u] ensures v == u {
      assert Live(id, v) && Live(id, u);
    }
  }

  lemma ThinGrounded<T>(id: Ids<T>, id': Ids<T>, uses: map<T, set<T>>)
    requires Grounded(id, uses) && Zeroed(id, id')
    requires forall t, u :: Live(id', t) && u in uses[t] ==> Live(id', u)
    ensures Grounded(id', uses)
  {
    forall t, u | Live(id', t) && u in uses[t] ensures 0 < id'[u] < id'[t] {
      assert Live(id, t) && Live(id', u);
    }
  }

  lemma FlushPlaced<T>(id: Ids<T>, place: map<T, int>, tab: seq<seq<T>>, keep: int, place': map<T, int>)
    requires Placed(id, place, tab) && 0 <= keep && forall t :: t in id ==> 0 <= id[t]
    requires place'.Keys == id.Keys
    requires forall t :: Live(id, t) && id[t] <= keep ==> place'[t] == place[t]
    ensures TabKnown(id, tab)
    ensures Placed(FlushIds(id, keep), place', FlushTab(id, tab, keep))
  {
    forall i, t | 0 <= i < |tab| && t in tab[i] ensures Live(id, t) { assert ChainOk(id, place, tab[i], i); }
    var id', tab' := FlushIds(id, keep), FlushTab(id, tab, keep);
    forall i | 0 <= i < |tab|
      ensures NoRepeats(tab'[i]) && forall t :: t in tab'[i] <==> t in tab[i] && Live(id', t)
    {
      assert ChainOk(id, place, tab[i], i);
      SurvivorsSpec(tab[i], id, keep);
    }
    ThinPlaced(id, place, tab, id', place', tab');
  }

  lemma FlushDistinct<T>(id: Ids<T>, next: int, keep: int)
    requires DistinctIds(id, next, keep)
    ensures DistinctIds(FlushIds(id, keep), keep + 1, keep)
  {
    var id' := FlushIds(id, keep);
    forall t, u | Live(id', t) && Live(id', u) && id'[t] == id'[u] ensures t == u {
      assert Live(id, t) && Live(id, u);
    }
  }

  lemma FlushGrounded<T>(id: Ids<T>, uses: map<T, set<T>>, keep: int)
    requires Grounded(id, uses)
    ensures Grounded(FlushIds(id, keep), uses)
  {
    var id' := FlushIds(id, keep);
    forall t, u | Live(id', t) && u in uses[t] ensures 0 < id'[u] < id'[t] {
      assert Live(id, t);
      assert 0 < id[u] < id[t];
    }
  }

  lemma ShrinkCanonical<T, D>(id: Ids<T>, desc: map<T, D>, id': Ids<T>, desc': map<T, D>)
    requires Canonical(id, desc) && id'.Keys == id.Keys == desc'.Keys
    requires forall t :: Live(id', t) ==> Live(id, t) && desc'[t] == desc[t]
    ensures Canonical(id', desc')
  {
  }

  lemma FlushGood<T, D>(id: Ids<T>, uses: map<T, set<T>>, desc: map<T, D>, place: map<T, int>,
                        tab: seq<seq<T>>, next: int, keep: int,
                        desc': map<T, D>, place': map<T, int>)
    requires Good(id, uses, desc, place, tab, next, keep)
    requires desc'.Keys == place'.Keys == id.Keys
    requires forall t :: Live(id, t) && id[t] <= keep ==> desc'[t] == desc[t] && place'[t] == place[t]
    ensures TabKnown(id, tab)
    ensures Good(FlushIds(id, keep), uses, desc', place', FlushTab(id, tab, keep), keep + 1, keep)
    ensures forall t :: t in id ==> (Live(FlushIds(id, keep), t) <==> Live(id, t) && id[t] <= keep)
  {
    FlushPlaced(id, place, tab, keep, place');
    FlushDistinct(id, next, keep);
    FlushGrounded(id, uses, keep);
    ShrinkCanonical(id, desc, FlushIds(id, keep), desc');
  }

  lemma RemovePlaced<T, D>(id: Ids<T>, desc: map<T, D>, place: map<T, int>, tab: seq<seq<T>>, t: T,
                           desc': map<T, D>, place': map<T, int>)
    requires Placed(id, place, tab) && Canonical(id, desc) && Live(id, t)
    requires desc'.Keys == place'.Keys == id.Keys
    requires forall u :: Live(id, u) ==> desc'[u] == desc[u] && place'[u] == place[u]
    ensures var b := place'[t];
            0 <= b < |tab| && (forall u :: u in tab[b] ==> u in desc') &&
            Placed(id[t := 0], place', tab[b := Without(tab[b], desc', desc'[t])])
  {
    var b := place[t];
    assert ChainOk(id, place, tab[b], b);
    WithoutSpec(tab[b], desc', t);
    var id', tab' := id[t := 0], tab[b := Without(tab[b], desc', desc'[t])];
    assert id'.Keys == id.Keys;
    forall i | 0 <= i < |tab|
      ensures NoRepeats(tab'[i]) && forall u :: u in tab'[i] <==> u in tab[i] && Live(id', u)
    {
      assert ChainOk(id, place, tab[i], i);
    }
    ThinPlaced(id, place, tab, id', place', tab');
  }

  lemma ZeroDistinct<T>(id: Ids<T>, next: int, keep: int, t: T)
    requires DistinctIds(id, next, keep)
    ensures DistinctIds(id[t := 0], next, keep)
  {
    var id' := id[t := 0];
    forall v, u | Live(id', v) && Live(id', u) && id'[v] == id'[u] ensures v == u {
      assert Live(id, v) && Live(id, u);
    }
  }

  lemma RemoveGrounded<T>(id: Ids<T>, uses: map<T, set<T>>, t: T)
    requires Grounded(id, uses) && t in id
    requires forall u :: Live(id, u) ==> t !in uses[u]
    ensures Grounded(id[t := 0], uses)
  {
    var id' := id[t := 0];
    assert id'.Keys == id.Keys;
    forall v, u | Live(id', v) && u in uses[v] ensures 0 < id'[u] < id'[v] {
      assert Live(id, v);
    }
  }

  lemma RemoveGood<T, D>(id: Ids<T>, uses: map<T, set<T>>, desc: map<T, D>, place: map<T, int>,
                         tab: seq<seq<T>>, next: int, keep: int, t: T,
                         desc': map<T, D>, place': map<T, int>)
    requires Good(id, uses, desc, place, tab, next, keep)
    requires Live(id, t) && forall u :: Live(id, u) ==> t !in uses[u]
    requires desc'.Keys == place'.Keys == id.Keys
    requires forall u :: Live(id, u) ==> desc'[u] == desc[u] && place'[u] == place[u]
    ensures var b := place'[t];
            0 <= b < |tab| && (forall u :: u in tab[b] ==> u in desc') &&
            Good(id[t := 0], uses, desc', place', tab[b := Without(tab[b], desc', desc'[t])], next, keep)
    ensures forall u :: u in id ==> (Live(id[t := 0], u) <==> Live(id, u) && u != t)
  {
    RemovePlaced(id, desc, place, tab, t, desc', place');
    ZeroDistinct(id, next, keep, t);
    RemoveGrounded(id, uses, t);
    ShrinkCanonical(id, desc, id[t := 0], desc');
  }

  /** What dead objects are described by does not matter. */
  lemma DeadGood<T, D>(id: Ids<T>, uses: map<T, set<T>>, desc: map<T, D>, place: map<T, int>,
                       tab: seq<seq<T>>, next: int, keep: int,
                       uses': map<T, set<T>>, desc': map<T, D>, place': map<T, int>)
    requires Good(id, uses, desc, place, tab, next, keep)
    requires uses'.Keys == desc'.Keys == place'.Keys == id.Keys && forall t :: t in uses' ==> uses'[t] <= id.Keys
    requires forall t :: Live(id, t) ==> uses'[t] == uses[t] && desc'[t] == desc[t] && place'[t] == place[t]
    ensures Good(id, uses', desc', place', tab, next, keep)
  {
  }

  lemma AdoptPlaced<T>(id: Ids<T>, place: map<T, int>, tab: seq<seq<T>>, t: T, b: int)
    requires Placed(id, place, tab) && t !in id
    ensures Placed(id[t := 0], place[t := b], tab)
  {
  }

  lemma AdoptGrounded<T>(id: Ids<T>, uses: map<T, set<T>>, t: T, c: set<T>)
    requires Grounded(id, uses) && t !in id && c <= id.Keys
    ensures Grounded(id[t := 0], uses[t := c])
  {
  }

  /** One more dead object. */
  lemma AdoptGood<T, D>(id: Ids<T>, uses: map<T, set<T>>, desc: map<T, D>, place: map<T, int>,
                        tab: seq<seq<T>>, next: int, keep: int, t: T, c: set<T>, d: D, b: int)
    requires Good(id, uses, desc, place, tab, next, keep) && t !in id && c <= id.Keys
    ensures Good(id[t := 0], uses[t := c], desc[t := d], place[t := b], tab, next, keep)
  {
    AdoptPlaced(id, place, tab, t, b);
    ZeroDistinct(id, next, keep, t);
    AdoptGrounded(id, uses, t, c);
    var id', desc' := id[t := 0], desc[t := d];
    forall u, v | Live(id', u) && Live(id', v) && desc'[u] == desc'[v] ensures u == v {
      assert Live(id, u) && Live(id, v);
    }
  }
}
