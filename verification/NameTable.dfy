/** The library's chained hash table, for keys that are hashed and compared by
    a fixed name: strings, and definition units by unique name (there the value
    carries the unit that is the key). */
module NameTable {
  import opened Syntax
  import opened Hashing

  datatype Binding<V> = Binding(name: Name, val: V)

  ghost predicate DistinctNames<V>(c: seq<Binding<V>>) {
    forall j, k :: 0 <= j < k < |c| ==> c[j].name != c[k].name
  }

  /** The bindings of a chain whose value is not to be flushed, in order. */
  function Kept<V>(c: seq<Binding<V>>, pred: V -> bool): seq<Binding<V>> {
    if c == [] then []
    else (if pred(c[0].val) then [] else [c[0]]) + Kept(c[1..], pred)
  }

  lemma {:induction false} KeptMembers<V>(c: seq<Binding<V>>, pred: V -> bool)
    ensures forall b :: b in Kept(c, pred) ==> b in c && !pred(b.val)
    ensures forall b :: b in c && !pred(b.val) ==> b in Kept(c, pred)
  {
    if c != [] {
      KeptMembers(c[1..], pred);
      assert forall b :: b in c <==> b == c[0] || b in c[1..];
    }
  }

  lemma {:induction false} KeptDistinct<V>(c: seq<Binding<V>>, pred: V -> bool)
    requires DistinctNames(c)
    ensures DistinctNames(Kept(c, pred))
  {
    if c != [] {
      var r := Kept(c[1..], pred);
      KeptDistinct(c[1..], pred);
      KeptMembers(c[1..], pred);
      forall k | 0 <= k < |r| ensures r[k].name != c[0].name {
        assert r[k] in r && r[k] in c[1..];
      }
    }
  }

  lemma KeptSplit<V>(c: seq<Binding<V>>, j: nat, pred: V -> bool)
    requires j < |c|
    ensures Kept(c[j..], pred) == (if pred(c[j].val) then [] else [c[j]]) + Kept(c[j + 1..], pred)
  {
  }

  lemma JoinDistinct<V>(a: seq<Binding<V>>, b: seq<Binding<V>>)
    requires DistinctNames(a) && DistinctNames(b)
    requires forall x, y :: x in a && y in b ==> x.name != y.name
    ensures DistinctNames(a + b)
  {
    var c := a + b;
    forall j, k | 0 <= j < k < |c| ensures c[j].name != c[k].name {
      if j < |a| <= k { assert c[j] in a && c[k] in b; }
    }
  }

  /** c' is c with n bound to v, whether or not c binds n. */
  ghost predicate Rebinds<V>(c: seq<Binding<V>>, c': seq<Binding<V>>, n: Name, v: V) {
    && DistinctNames(c')
    && Binding(n, v) in c'
    && (forall b :: b in c' ==> b == Binding(n, v) || (b in c && b.name != n))
    && (forall b :: b in c && b.name != n ==> b in c')
  }

  lemma HeadRebinds<V>(c: seq<Binding<V>>, n: Name, v: V)
    requires DistinctNames(c) && forall b :: b in c ==> b.name != n
    ensures Rebinds(c, [Binding(n, v)] + c, n, v)
  {
    var b := Binding(n, v);
    JoinDistinct([b], c);
    assert forall e :: e in [b] + c <==> e == b || e in c;
  }

  lemma ReplaceRebinds<V>(c: seq<Binding<V>>, j: nat, n: Name, v: V)
    requires DistinctNames(c) && j < |c| && c[j].name == n
    ensures Rebinds(c, c[j := Binding(n, v)], n, v)
  {
    var c' := c[j := Binding(n, v)];
    assert c'[j] == Binding(n, v);
    assert forall k :: 0 <= k < |c| && k != j ==> c'[k] == c[k] && c[k].name != n;
  }

  class Table<V> {
    const hash: StringHash
    const buckets: array<seq<Binding<V>>>
    ghost var Contents: map<Name, V>

    ghost predicate ChainOk(i: int, c: seq<Binding<V>>)
      reads this
    {
      && DistinctNames(c)
      && forall b :: b in c ==>
           b.name in Contents && Contents[b.name] == b.val && hash(b.name, buckets.Length) == i
    }

    /** Each name's binding is in the chain its hash names, and only there. */
    ghost predicate Over(chains: seq<seq<Binding<V>>>)
      reads this
    {
      && |chains| == buckets.Length > 0
      && (forall i :: 0 <= i < |chains| ==> ChainOk(i, chains[i]))
      && (forall n :: n in Contents ==> Binding(n, Contents[n]) in chains[hash(n, |chains|)])
    }

    ghost predicate Valid()
      reads this, buckets
    {
      Over(buckets[..])
    }

    constructor (size: nat, h: StringHash)
      requires size > 0
      ensures Valid() && Contents == map[] && fresh(buckets)
      ensures hash == h && buckets.Length == size
    {
      hash := h;
      buckets := new seq<Binding<V>>[size](_ => []);
      Contents := map[];
    }

    /** Walk one chain; the answer is an index into it, or -1. */
    method Probe(n: Name) returns (j: int)
      requires Valid()
      ensures -1 <= j < |buckets[hash(n, buckets.Length)]|
      ensures j >= 0 <==> n in Contents
      ensures j >= 0 ==> buckets[hash(n, buckets.Length)][j] == Binding(n, Contents[n])
    {
      var c := buckets[hash(n, buckets.Length)];
      assert ChainOk(hash(n, buckets.Length), c);
      j := 0;
      while j < |c|
        invariant 0 <= j <= |c|
        invariant forall k :: 0 <= k < j ==> c[k].name != n
      {
        if c[j].name == n {
          assert c[j] in c;
          return;
        }
        j := j + 1;
      }
      j := -1;
    }

    method GetPair(n: Name) returns (r: Option<V>)
      requires Valid()
      ensures r == if n in Contents then Some(Contents[n]) else None
    {
      var j := Probe(n);
      r := if j >= 0 then Some(buckets[hash(n, buckets.Length)][j].val) else None;
    }

    /** After n was bound to v in its chain. */
    ghost method Rebound(was: seq<seq<Binding<V>>>, n: Name, v: V)
      requires Over(was)
      requires var h := hash(n, buckets.Length);
               Rebinds(was[h], buckets[h], n, v) && buckets[..] == was[h := buckets[h]]
      modifies this`Contents
      ensures Valid() && Contents == old(Contents)[n := v]
    {
      var h := hash(n, buckets.Length);
      Contents := Contents[n := v];
      forall i | 0 <= i < buckets.Length ensures ChainOk(i, buckets[..][i]) {
        assert old(ChainOk(i, was[i]));
        assert i != h ==> forall b :: b in was[i] ==> b.name != n;
      }
      forall m | m in Contents ensures Binding(m, Contents[m]) in buckets[..][hash(m, buckets.Length)] {
        if m != n { assert Binding(m, Contents[m]) in was[hash(m, buckets.Length)]; }
      }
    }

    /** The new binding goes to the head of its chain. */
    method Add(n: Name, v: V)
      requires Valid() && n !in Contents
      modifies this`Contents, buckets
      ensures Valid() && Contents == old(Contents)[n := v]
    {
      var h := hash(n, buckets.Length);
      ghost var was := buckets[..];
      assert ChainOk(h, was[h]);
      HeadRebinds(was[h], n, v);
      buckets[h] := [Binding(n, v)] + buckets[h];
      Rebound(was, n, v);
    }

    /** Signal exists, or bind. */
    method Bind(n: Name, v: V) returns (exists_: bool)
      requires Valid()
      modifies this`Contents, buckets
      ensures Valid() && exists_ == (n in old(Contents))
      ensures Contents == if exists_ then old(Contents) else old(Contents)[n := v]
    {
      var j := Probe(n);
      exists_ := j >= 0;
      if !exists_ { Add(n, v); }
    }

    /** The value bound to the name, after binding v if there was none. */
    method MBind(n: Name, v: V) returns (r: V)
      requires Valid()
      modifies this`Contents, buckets
      ensures Valid()
      ensures Contents == if n in old(Contents) then old(Contents) else old(Contents)[n := v]
      ensures r == Contents[n]
    {
      var j := Probe(n);
      if j >= 0 {
        r := buckets[hash(n, buckets.Length)][j].val;
      } else {
        Add(n, v);
        r := v;
      }
    }

    /** Change the value of an existing binding, or bind. */
    method Alter(n: Name, v: V)
      requires Valid()
      modifies this`Contents, buckets
      ensures Valid() && Contents == old(Contents)[n := v]
    {
      var j := Probe(n);
      if j >= 0 {
        Replace(n, v, j);
      } else {
        Add(n, v);
      }
    }

    method Replace(n: Name, v: V, j: nat)
      requires Valid() && j < |buckets[hash(n, buckets.Length)]| && buckets[hash(n, buckets.Length)][j].name == n
      modifies this`Contents, buckets
      ensures Valid() && Contents == old(Contents)[n := v]
    {
      var h := hash(n, buckets.Length);
      ghost var was := buckets[..];
      assert ChainOk(h, was[h]);
      ReplaceRebinds(was[h], j, n, v);
      buckets[h] := buckets[h][j := Binding(n, v)];
      Rebound(was, n, v);
    }

    /** After every chain was filtered by pred. */
    ghost method Filtered(was: seq<seq<Binding<V>>>, pred: V -> bool)
      requires Over(was)
      requires forall k :: 0 <= k < buckets.Length ==> buckets[k] == Kept(was[k], pred)
      modifies this`Contents
      ensures Valid()
      ensures Contents == map n | n in old(Contents) && !pred(old(Contents)[n]) :: old(Contents)[n]
    {
      Contents := map n | n in Contents && !pred(Contents[n]) :: Contents[n];
      forall k | 0 <= k < buckets.Length ensures ChainOk(k, buckets[..][k]) {
        assert old(ChainOk(k, was[k]));
        KeptDistinct(was[k], pred);
        KeptMembers(was[k], pred);
      }
      forall n | n in Contents ensures Binding(n, Contents[n]) in buckets[..][hash(n, buckets.Length)] {
        KeptMembers(was[hash(n, buckets.Length)], pred);
        assert Binding(n, Contents[n]) in was[hash(n, buckets.Length)];
      }
    }

    /** Unbind every name whose value satisfies pred. */
    method CondFlush(pred: V -> bool)
      requires Valid()
      modifies this`Contents, buckets
      ensures Valid()
      ensures Contents == map n | n in old(Contents) && !pred(old(Contents)[n]) :: old(Contents)[n]
    {
      ghost var was := buckets[..];
      var i := 0;
      while i < buckets.Length
        invariant 0 <= i <= buckets.Length
        invariant Contents == old(Contents)
        invariant forall k :: 0 <= k < i ==> buckets[k] == Kept(was[k], pred)
        invariant forall k :: i <= k < buckets.Length ==> buckets[k] == was[k]
      {
        buckets[i] := Kept(buckets[i], pred);
        i := i + 1;
      }
      Filtered(was, pred);
    }

    /** Every binding of the table once, chain by chain. */
    method Elements() returns (all: seq<Binding<V>>)
      requires Valid()
      ensures forall b :: b in all <==> b.name in Contents && Contents[b.name] == b.val
      ensures DistinctNames(all)
    {
      all := [];
      for i := 0 to buckets.Length
        invariant DistinctNames(all)
        invariant forall b :: b in all <==>
                    b.name in Contents && Contents[b.name] == b.val && hash(b.name, buckets.Length) < i
      {
        assert ChainOk(i, buckets[i]);
        forall x, y | x in all && y in buckets[i] ensures x.name != y.name {
          assert hash(x.name, buckets.Length) < i == hash(y.name, buckets.Length);
        }
        JoinDistinct(all, buckets[i]);
        all := all + buckets[i];
      }
    }
  }
}
