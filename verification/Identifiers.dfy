/** The identifier half of the compiler environment: a table of mutable entry
    records, one of which is shared by all purely local names. */
module Identifiers {
  import opened Syntax
  import opened Hashing
  import opened NameTable
  import opened IdentifierCodes

  class Entry {
    const kind: IdnKind
    var code: int
    ghost var owner: Option<Name>   // the one name bound to it, unless it is shared

    constructor (k: IdnKind, c: int, ghost n: Option<Name>)
      ensures kind == k && code == c && owner == n
    {
      kind := k;
      code := c;
      owner := n;
    }
  }

  class IdTable {
    const tab: Table<Entry>
    const lent: Entry    // bound to every purely local name
    var xent: Entry      // will be bound to the next undefined name
    ghost var Names: State
    ghost var entries: set<Entry>

    ghost function Repr(): set<object>
      reads this
    {
      {this, tab, tab.buckets} + entries
    }

    /** Entry e, bound to n, is not the spare record and carries the code and
        kind that n has. Only the shared record, which goes with code 0, can be
        bound to a second name. */
    ghost predicate Entered(n: Name, e: Entry)
      reads this, entries
    {
      && e in entries && e != xent
      && n in Names.code && n in Names.kind
      && Names.code[n] == e.code && Names.kind[n] == e.kind
      && NO_REFS <= e.code && (e == lent <==> e.code == LOCAL)
      && (e != lent ==> e.owner == Some(n))
    }

    /** The shared local record and the spare undefined record keep codes 0 and 1. */
    ghost predicate Spares()
      reads this, lent, xent
    {
      && lent in entries && lent.code == LOCAL && lent.kind == Unknown
      && xent in entries && xent.code == 1 && xent.kind == Unknown && xent != lent
      && Names.kind.Keys == Names.code.Keys
    }

    ghost predicate Valid()
      reads this, tab, tab.buckets, entries, lent, xent
    {
      && tab.Valid() && Spares()
      && Names.code.Keys == tab.Contents.Keys
      && (forall m :: m in tab.Contents ==> Entered(m, tab.Contents[m]))
    }

    /** Valid, but for the name n, which is bound and not yet recorded. */
    ghost predicate ValidBut(n: Name)
      reads this, tab, tab.buckets, entries, lent, xent
    {
      && tab.Valid() && Spares()
      && n in tab.Contents && Names.code.Keys == tab.Contents.Keys - {n}
      && (forall m :: m in tab.Contents && m != n ==> Entered(m, tab.Contents[m]))
    }

    constructor (h: StringHash)
      ensures Valid() && fresh(Repr()) && Names == State(map[], map[])
    {
      var l := new Entry(Unknown, LOCAL, None);
      var x := new Entry(Unknown, 1, None);
      var t := new Table<Entry>(SIZE, h);
      lent, xent, tab := l, x, t;
      entries := {l, x};
      Names := State(map[], map[]);
    }

    ghost method Record(n: Name, e: Entry)
      requires ValidBut(n) && tab.Contents[n] == e && e != xent
      requires NO_REFS <= e.code && (e == lent <==> e.code == LOCAL) && (e != lent ==> e.owner == Some(n))
      modifies this`Names, this`entries
      ensures Valid() && entries == old(entries) + {e}
      ensures Names == State(old(Names.code)[n := e.code], old(Names.kind)[n := e.kind])
    {
      hide Table.Valid;
      Names := State(Names.code[n := e.code], Names.kind[n := e.kind]);
      entries := entries + {e};
      forall m | m in tab.Contents ensures Entered(m, tab.Contents[m]) {
        if m != n { assert old(Entered(m, tab.Contents[m])); }
      }
    }

    /** The spare record is taken for n; its code is the line, if there is one. */
    method TakeSpare(ghost n: Name, line: int)
      requires ValidBut(n) && tab.Contents[n] == xent
      modifies this, xent
      ensures Valid() && fresh(entries - old(entries))
      ensures Names == State(old(Names.code)[n := LineCode(line)], old(Names.kind)[n := Unknown])
    {
      hide Table.Valid;
      var x := xent;
      x.owner := Some(n);
      xent := new Entry(x.kind, x.code, None);
      entries := entries + {xent};
      if line > 0 { x.code := line; }
      forall m | m in tab.Contents && m != n ensures Entered(m, tab.Contents[m]) {
        assert old(Entered(m, tab.Contents[m]));
      }
      Record(n, x);
    }

    method SetCode(ghost n: Name, e: Entry, c: int)
      requires Valid() && n in tab.Contents && tab.Contents[n] == e && e != lent
      requires NO_REFS <= c && c != LOCAL
      modifies this`Names, e`code
      ensures Valid() && Names == State(old(Names.code)[n := c], old(Names.kind))
    {
      hide Table.Valid;
      assert Entered(n, e);
      e.code := c;
      Names := State(Names.code[n := c], Names.kind);
      forall m | m in tab.Contents ensures Entered(m, tab.Contents[m]) {
        assert old(Entered(m, tab.Contents[m]));
      }
    }

    /** lookup of a name that is bound. */
    method Refer(ghost s: Name, ent: Entry) returns (r: LookupResult)
      requires Valid() && s in tab.Contents && ent == tab.Contents[s]
      modifies this`Names, ent`code
      ensures Valid() && Legal(old(Names)) && Names == AfterLookup(old(Names), s, 0)
      ensures r == LookupAnswer(old(Names), s)
    {
      hide Table.Valid;
      assert Entered(s, ent);
      var code := ent.code;
      if code == HIDDEN || code == LOCAL {
        return IsLocal;
      } else if code == NO_REFS {
        SetCode(s, ent, REFS);
      }
      r := Found(ent.kind);
    }

    method Lookup(s: Name, line: int) returns (r: LookupResult)
      requires Valid()
      modifies Repr()
      ensures Valid() && fresh(entries - old(entries))
      ensures Legal(old(Names)) && Names == AfterLookup(old(Names), s, line)
      ensures r == LookupAnswer(old(Names), s)
    {
      hide Table.Valid;
      var ent := tab.MBind(s, xent);
      if ent == xent {
        assert s !in old(tab.Contents);
        TakeSpare(s, line);
        r := Found(ent.kind);
      } else {
        r := Refer(s, ent);
      }
    }

    /** local of a name that is bound. */
    method Obscure(ghost s: Name, ent: Entry) returns (line: int)
      requires Valid() && s in tab.Contents && ent == tab.Contents[s]
      modifies this`Names, ent`code
      ensures Valid() && Legal(old(Names)) && Names == AfterLocal(old(Names), s)
      ensures line == LocalAnswer(old(Names), s)
    {
      hide Table.Valid;
      assert Entered(s, ent);
      var code := ent.code;
      if code > LOCAL {
        return code;
      } else if code < HIDDEN {
        SetCode(s, ent, HIDDEN);
      }
      line := 0;
    }

    method Local(s: Name) returns (line: int)
      requires Valid()
      modifies Repr()
      ensures Valid() && entries == old(entries)
      ensures Legal(old(Names)) && Names == AfterLocal(old(Names), s)
      ensures line == LocalAnswer(old(Names), s)
    {
      hide Table.Valid;
      var ent := tab.MBind(s, lent);
      if s !in old(tab.Contents) { Record(s, ent); }
      line := Obscure(s, ent);
    }

    method AddEntry(i: Idn) returns (exists_: bool)
      requires Valid()
      modifies Repr()
      ensures Valid() && fresh(entries - old(entries))
      ensures Legal(old(Names)) && Names == AfterAdd(old(Names), i.str, i.kind)
      ensures exists_ == (i.str in old(Names.code))
    {
      hide Table.Valid;
      var e := new Entry(i.kind, NO_REFS, Some(i.str));
      exists_ := tab.Bind(i.str, e);
      if !exists_ { Record(i.str, e); }
    }

    /** What flush_id and pflush_id do to one entry; the answer is to drop it. */
    method FlushId(e: Entry, f: Flusher) returns (drop: bool)
      modifies e`code
      ensures drop == (old(e.code) >= LOCAL)
      ensures e.code == if drop then old(e.code) else FlushedCode(f, old(e.code))
    {
      drop := false;
      match f {
        case Plain =>
          if e.code >= LOCAL { return true; }
          e.code := NO_REFS;
        case Keeping(lasting) =>
          if e.code == REFS && lasting {
            e.code := LASTING;
          } else if e.code >= LOCAL {
            return true;
          } else if e.code != LASTING {
            e.code := NO_REFS;
          }
      }
    }

    /** cond_flush on one chain, with the side effects of the predicate. */
    method SweepChain(c: seq<Binding<Entry>>, f: Flusher, ghost was: map<Entry, int>)
      returns (kept: seq<Binding<Entry>>)
      requires forall k :: 0 <= k < |c| ==> c[k].val in was && c[k].val.code == was[c[k].val]
      requires forall j, k :: 0 <= j < k < |c| && c[j].val == c[k].val ==> was[c[j].val] >= LOCAL
      modifies (set k | 0 <= k < |c| :: c[k].val)`code
      ensures kept == Kept(c, Dropped(was))
      ensures forall k :: 0 <= k < |c| ==> c[k].val.code == NewCode(f, was[c[k].val])
    {
      hide FlushedCode, Kept;
      SweptNone(c, Dropped(was));
      kept := [];
      for j := 0 to |c|
        invariant kept + Kept(c[j..], Dropped(was)) == Kept(c, Dropped(was))
        invariant forall k :: 0 <= k < |c| ==>
                    c[k].val.code == if k < j then NewCode(f, was[c[k].val]) else was[c[k].val]
      {
        KeptSplit(c, j, Dropped(was));
        var drop := FlushId(c[j].val, f);
        assert drop == Dropped(was)(c[j].val);
        if !drop {
          Regroup(kept, c[j], Kept(c[j + 1..], Dropped(was)));
          kept := kept + [c[j]];
        }
      }
    }

    static lemma SweptNone(c: seq<Binding<Entry>>, pred: Entry -> bool)
      ensures [] + Kept(c[0..], pred) == Kept(c, pred) && Kept(c[|c|..], pred) == []
    {
    }

    static lemma Regroup(a: seq<Binding<Entry>>, b: Binding<Entry>, c: seq<Binding<Entry>>)
      ensures a + ([b] + c) == (a + [b]) + c
    {
    }

    static function NewCode(f: Flusher, code: int): int {
      if code >= LOCAL then code else FlushedCode(f, code)
    }

    static function Dropped(was: map<Entry, int>): Entry -> bool {
      e => e in was && was[e] >= LOCAL
    }

    /** Names and records agree, where was tells the codes of the records. */
    ghost predicate Recorded(was: map<Entry, int>)
      reads this, tab, entries`owner
    {
      && was.Keys == entries && lent in was
      && forall n :: n in tab.Contents ==>
           var e := tab.Contents[n];
           && e in entries && e != xent && (e == lent <==> was[e] == LOCAL)
           && n in Names.code && Names.code[n] == was[e] && NO_REFS <= was[e]
           && n in Names.kind && Names.kind[n] == e.kind
           && (e != lent ==> e.owner == Some(n))
    }

    ghost function Codes(): map<Entry, int>
      reads this, entries
    {
      map e | e in entries :: e.code
    }

    /** The entries of the chains below i have been through FlushId. */
    ghost predicate SweptTo(i: int, f: Flusher, was: map<Entry, int>, now: map<Entry, int>)
      requires Recorded(was) && now.Keys == entries
      reads this, tab, entries`owner
    {
      forall n :: n in tab.Contents ==>
        var e := tab.Contents[n];
        now[e] == if tab.hash(n, tab.buckets.Length) < i then NewCode(f, was[e]) else was[e]
    }

    /** Distinct names of a chain have distinct entries, unless both are lent. */
    lemma ChainEntries(i: int, f: Flusher, was: map<Entry, int>, chains: seq<seq<Binding<Entry>>>)
      requires tab.Over(chains) && 0 <= i < |chains| && Recorded(was) && SweptTo(i, f, was, Codes())
      requires was[lent] == LOCAL
      ensures var c := chains[i];
              && (forall k :: 0 <= k < |c| ==>
                    c[k].val in entries && c[k].val in was && c[k].val.code == was[c[k].val] && c[k].val != xent)
              && (forall j, k :: 0 <= j < k < |c| && c[j].val == c[k].val ==> was[c[j].val] >= LOCAL)
    {
    }

    lemma SweptNext(i: int, f: Flusher, was: map<Entry, int>, chains: seq<seq<Binding<Entry>>>,
                    now: map<Entry, int>, next: map<Entry, int>)
      requires tab.Over(chains) && 0 <= i < |chains| && Recorded(was) && was[lent] == LOCAL
      requires now.Keys == next.Keys == entries && SweptTo(i, f, was, now)
      requires forall k :: 0 <= k < |chains[i]| ==>
                 var e := chains[i][k].val; e in was && e in next && next[e] == NewCode(f, was[e])
      requires forall e :: e in entries && (forall k :: 0 <= k < |chains[i]| ==> chains[i][k].val != e) ==>
                 next[e] == now[e]
      ensures SweptTo(i + 1, f, was, next)
    {
    }

    method SweepBucket(i: int, f: Flusher, ghost was: map<Entry, int>, ghost chains: seq<seq<Binding<Entry>>>)
      requires tab.Over(chains) && 0 <= i < |chains| == tab.buckets.Length && tab.buckets[i] == chains[i]
      requires Recorded(was) && SweptTo(i, f, was, Codes()) && lent in entries && xent in entries && lent != xent
      requires lent.code == LOCAL == was[lent] && xent.code == 1
      modifies tab.buckets, entries`code
      ensures Recorded(was) && SweptTo(i + 1, f, was, Codes())
      ensures tab.buckets[..] == old(tab.buckets[..])[i := Kept(chains[i], Dropped(was))]
      ensures lent.code == LOCAL && xent.code == 1
    {
      hide Kept, FlushedCode, SweptTo, Recorded, Table.Over, Table.ChainOk;
      ChainEntries(i, f, was, chains);
      ghost var now := Codes();
      var kept := SweepChain(tab.buckets[i], f, was);
      SweptNext(i, f, was, chains, now, Codes());
      tab.buckets[i] := kept;
    }

    method SweepAll(f: Flusher, ghost was: map<Entry, int>, ghost chains: seq<seq<Binding<Entry>>>)
      requires tab.Over(chains) && chains == tab.buckets[..]
      requires Recorded(was) && SweptTo(0, f, was, Codes()) && lent in entries && xent in entries && lent != xent
      requires lent.code == LOCAL == was[lent] && xent.code == 1
      modifies tab.buckets, entries`code
      ensures Recorded(was) && SweptTo(|chains|, f, was, Codes()) && tab.Over(chains)
      ensures |chains| == tab.buckets.Length > 0
      ensures forall k :: 0 <= k < |chains| ==> tab.buckets[k] == Kept(chains[k], Dropped(was))
      ensures lent.code == LOCAL && xent.code == 1
    {
      assert |chains| == tab.buckets.Length > 0;
      hide Table.Over, Kept, FlushedCode, SweptTo, Recorded;
      var i := 0;
      while i < tab.buckets.Length
        invariant 0 <= i <= tab.buckets.Length
        invariant tab.Over(chains) && Recorded(was) && SweptTo(i, f, was, Codes())
        invariant forall k :: 0 <= k < i ==> tab.buckets[k] == Kept(chains[k], Dropped(was))
        invariant forall k :: i <= k < |chains| ==> tab.buckets[k] == chains[k]
        invariant lent.code == LOCAL && xent.code == 1
      {
        SweepBucket(i, f, was, chains);
        i := i + 1;
      }
    }

    /** The swept chains are the chains of the surviving names. */
    ghost method Shrink(f: Flusher, was: map<Entry, int>, chains: seq<seq<Binding<Entry>>>)
      requires tab.Over(chains) && |chains| == tab.buckets.Length > 0
      requires Recorded(was) && SweptTo(|chains|, f, was, Codes()) && Names.code.Keys == tab.Contents.Keys
      requires forall k :: 0 <= k < |chains| ==> tab.buckets[k] == Kept(chains[k], Dropped(was))
      modifies tab`Contents
      ensures tab.Valid() && Recorded(was)
      ensures forall n :: n in tab.Contents <==> n in Names.code && Names.code[n] < LOCAL
      ensures forall n :: n in tab.Contents ==> tab.Contents[n].code == FlushedCode(f, Names.code[n])
    {
      hide Table.Over, Table.Valid, Table.ChainOk, Kept, FlushedCode, SweptTo;
      SweptCodes(f, was);
      tab.Filtered(chains, Dropped(was));
    }

    /** Every entry has its new code and no name to be dropped is bound: the
        table is valid again under the new state. */
    ghost method Swept(f: Flusher, was: map<Entry, int>)
      requires tab.Valid() && Spares() && Recorded(was) && Legal(Names)
      requires forall n :: n in tab.Contents <==> n in Names.code && Names.code[n] < LOCAL
      requires forall n :: n in tab.Contents ==> tab.Contents[n].code == FlushedCode(f, Names.code[n])
      modifies this`Names
      ensures Valid() && Names == AfterFlush(old(Names), f)
    {
      hide Table.Valid;
      Names := AfterFlush(Names, f);
      forall m | m in tab.Contents ensures Entered(m, tab.Contents[m]) {
        assert m in Names.code;
      }
    }

    /** Flush the table with flush_id or pflush_id. */
    method Flush(f: Flusher)
      requires Valid()
      modifies Repr()
      ensures Valid() && entries == old(entries)
      ensures Legal(old(Names)) && Names == AfterFlush(old(Names), f)
    {
      ghost var was := Codes();
      ghost var chains := tab.buckets[..];
      Record0(f, was);
      assert tab.Over(chains);
      hide Table.Over, Table.Valid, Table.ChainOk, Kept, FlushedCode, SweptTo, Recorded;
      SweepAll(f, was, chains);
      Shrink(f, was, chains);
      Swept(f, was);
    }

    lemma Record0(f: Flusher, was: map<Entry, int>)
      requires Valid() && was == Codes()
      ensures Recorded(was) && SweptTo(0, f, was, Codes()) && Legal(Names) && Names.code.Keys == tab.Contents.Keys
      ensures lent.code == LOCAL == was[lent] && xent.code == 1
    {
    }

    lemma SweptCodes(f: Flusher, was: map<Entry, int>)
      requires tab.buckets.Length > 0 && Recorded(was) && SweptTo(tab.buckets.Length, f, was, Codes())
      ensures forall n :: n in tab.Contents ==>
                tab.Contents[n] in was && tab.Contents[n].code == NewCode(f, was[tab.Contents[n]])
    {
    }
  }
}
