/** Requirements on type parameters, added before an operation's body is
    checked, in scopes of its own, and taken away after it. */
module Requirements {
  import opened Syntax
  import opened Scopes

  /** An identifier and the operations it is required to have. */
  datatype TypeSet = TypeSet(parm: Idn, opers: seq<OpSpec>)

  /** The operations a list of requirements adds to an identifier, in order. */
  function OpersFor(i: Idn, reqs: seq<TypeSet>): seq<OpSpec> {
    if reqs == [] then []
    else OpersFor(i, reqs[..|reqs| - 1]) + (if reqs[|reqs| - 1].parm == i then reqs[|reqs| - 1].opers else [])
  }

  /** How many operations are still to be taken away from an identifier. */
  function Owed(i: Idn, reqs: seq<TypeSet>): nat {
    if reqs == [] then 0
    else (if reqs[0].parm == i then |reqs[0].opers| else 0) + Owed(i, reqs[1..])
  }

  /** Whatever the order they are counted in, as many are owed as were added. */
  lemma {:induction false} OwedIsAdded(i: Idn, reqs: seq<TypeSet>)
    ensures Owed(i, reqs) == |OpersFor(i, reqs)|
  {
    if |reqs| > 0 {
      var front, last := reqs[..|reqs| - 1], reqs[|reqs| - 1];
      OwedIsAdded(i, front);
      OwedAppend(i, front, last);
      assert reqs == front + [last];
    }
  }

  /** The operations of each requirement on an identifier stand together, behind
      those of the requirements before it. */
  lemma {:induction false} OpersForIs(i: Idn, reqs: seq<TypeSet>, j: nat)
    requires j < |reqs|
    ensures var opers, at := if reqs[j].parm == i then reqs[j].opers else [], |OpersFor(i, reqs[..j])|;
            && |OpersFor(i, reqs[..j + 1])| == at + |opers| <= |OpersFor(i, reqs)|
            && OpersFor(i, reqs)[at..at + |opers|] == opers
  {
    var n := |reqs| - 1;
    assert reqs[..j + 1][..j] == reqs[..j];
    if j < n {
      assert reqs[..n][..j] == reqs[..j] && reqs[..n][..j + 1] == reqs[..j + 1];
      OpersForIs(i, reqs[..n], j);
    } else {
      assert reqs[..j + 1] == reqs;
    }
  }

  lemma {:induction false} OwedAppend(i: Idn, front: seq<TypeSet>, last: TypeSet)
    ensures Owed(i, front + [last]) == Owed(i, front) + (if last.parm == i then |last.opers| else 0)
  {
    if front != [] {
      assert (front + [last])[1..] == front[1..] + [last];
      OwedAppend(i, front[1..], last);
    }
  }

  /** The kind of an identifier once these requirements are added to it. */
  function Added(k: IdnKind, i: Idn, reqs: seq<TypeSet>): IdnKind {
    if k.TParm? then TParm(k.opers + OpersFor(i, reqs)) else k
  }

  ghost function Parms(reqs: seq<TypeSet>): set<Idn> {
    set r | r in reqs :: r.parm
  }

  method AddRequires(reqs: seq<TypeSet>)
    modifies Parms(reqs)`kind
    ensures forall i :: i in Parms(reqs) ==> i.kind == Added(old(i.kind), i, reqs)
    ensures forall i :: i in Parms(reqs) ==>
              && (old(i.kind).TParm? ==> i.kind == TParm(old(i.kind).opers + OpersFor(i, reqs)))
              && (!old(i.kind).TParm? ==> i.kind == old(i.kind))
  {
    for j := 0 to |reqs|
      invariant forall i :: i in Parms(reqs) ==> i.kind == Added(old(i.kind), i, reqs[..j])
    {
      var req := reqs[j];
      assert reqs[..j + 1][..j] == reqs[..j] && req.parm in Parms(reqs);
      match req.parm.kind {
        case TParm(k) => req.parm.kind := TParm(k + req.opers);
        case _ =>
      }
    }
    assert reqs[..|reqs|] == reqs;
  }

  /** Now is then with operations appended, as many as are owed. */
  ghost predicate Lent(then_: IdnKind, now: IdnKind, i: Idn, reqs: seq<TypeSet>) {
    if then_.TParm? then now.TParm? && then_.opers <= now.opers && |now.opers| == |then_.opers| + Owed(i, reqs)
    else now == then_
  }

  /** Taking away what is owed, in the order it was added, leaves every kind as
      it was; no list is ever trimmed below what it was. */
  method RemRequires(reqs: seq<TypeSet>, ghost then_: Kinds)
    requires Parms(reqs) <= then_.Keys && forall i :: i in Parms(reqs) ==> Lent(then_[i], i.kind, i, reqs)
    modifies Parms(reqs)`kind
    ensures forall i :: i in Parms(reqs) ==> i.kind == then_[i]
  {
    for j := 0 to |reqs|
      invariant forall i :: i in Parms(reqs) ==> Lent(then_[i], i.kind, i, reqs[j..])
    {
      var req := reqs[j];
      assert reqs[j..][0] == req && reqs[j..][1..] == reqs[j + 1..] && req.parm in Parms(reqs);
      match req.parm.kind {
        case TParm(k) => req.parm.kind := TParm(k[..|k| - |req.opers|]);
        case _ =>
      }
    }
  }

  /** The identifiers that a body may have to do with. */
  ghost function Around(st: ScopeStack, reqs: seq<TypeSet>, body: seq<Act>): set<Idn>
    reads st`idns
  {
    Parms(reqs) + Named(body) + IdnsIn(st.idns)
  }

  /** The scope of a body: whatever it declares, identifiers end as they began,
      but for those that are new in it. */
  method InScope(st: ScopeStack, body: seq<Act>, ghost known: set<Idn>)
    requires st.Valid() && Nested(body, 0) && Named(body) + IdnsIn(st.idns) <= known
    modifies st, known`kind
    ensures st.Valid() && st.idns == old(st.idns) && st.scopes == old(st.scopes)
    ensures forall i :: i in known && NewIdn(i) !in body ==> i.kind == old(i.kind)
  {
    hide Run, Possible, Nested, After, Undone;
    ghost var s := st.View(known);
    ScopeRestores(s, body);
    BeginCan(s);
    st.Do(Begin, known);
    st.Perform(body, known);
    st.Do(End, known);
    assert KindsOf(known) == st.View(known).kind;
  }

  lemma BeginCan(s: State)
    requires Ok(s)
    ensures Can(s, Begin)
  {
  }

  /** The two passes around the checking of a body, as c_oper_main makes them. */
  method AroundBody(st: ScopeStack, reqs: seq<TypeSet>, body: seq<Act>)
    requires st.Valid() && Nested(body, 0) && Parms(reqs) !! New(body)
    modifies st, Around(st, reqs, body)`kind
    ensures st.Valid() && st.idns == old(st.idns) && st.scopes == old(st.scopes)
    ensures forall i :: i in old(Around(st, reqs, body)) && NewIdn(i) !in body ==> i.kind == old(i.kind)
  {
    hide Nested, New;
    ghost var then_, known := KindsOf(Parms(reqs)), Around(st, reqs, body);
    AddRequires(reqs);
    InScope(st, body, known);
    NewIs(body);
    forall i | i in Parms(reqs) ensures Lent(then_[i], i.kind, i, reqs) {
      OwedIsAdded(i, reqs);
    }
    RemRequires(reqs, then_);
    forall i | i in known && NewIdn(i) !in body ensures i.kind == old(i.kind) {
      if i in Parms(reqs) { assert then_[i] == old(i.kind); }
    }
  }
}
