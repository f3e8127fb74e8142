/** The run-time cache of instantiations: a parameterised type, operation or
    procedure is instantiated once for each choice of actual parameters, which
    is what gives its own variables their identity. */
module Instances {
  import opened Syntax

  const MAX_INSTS := 1000
  const MAX_PARMS := 20
  const DEBUG_PRINT := Name("debug_print")

  /** A block of own variables, which also holds the actual parameters. */
  class Owns {
    var parms: seq<Cell>

    constructor ()
      ensures parms == []
    {
      parms := [];
    }
  }

  /** A routine closed over its own variables; proc is its code address. */
  class Fcn {
    var proc: int
    var typeOwns: Owns?
    var opOwns: Owns?

    constructor ()
    {
      proc, typeOwns, opOwns := 0, null, null;
    }
  }

  /** NoOp is an operation that is required but missing. */
  datatype OpEntry = NoOp | OpEntry(name: Name, fcn: Fcn)

  /** An operations table. */
  class Ops {
    const typeOwns: Owns?
    const opOwns: Owns?
    const entries: seq<OpEntry>

    constructor (t: Owns?, o: Owns?, es: seq<OpEntry>)
      ensures typeOwns == t && opOwns == o && entries == es
    {
      typeOwns, opOwns, entries := t, o, es;
    }
  }

  /** An actual parameter: a constant, or a type with the names of the
      operations that are required of it. */
  datatype Parm = ConstP(value: int) | TypeP(ops: Ops, reqs: seq<Name>)

  /** How a block of own variables holds a parameter: a constant, or a table of
      the required operations. */
  datatype Cell = ConstC(value: int) | TableC(table: Ops)

  /** What is asked for: the generator (null for a procedure), the code address
      (0 for the type itself) and the actual parameters. */
  datatype Request = Request(gen: Ops?, proc: int, parms: seq<Parm>)

  /** Parameters match when they are equal constants or types with the same
      own variables. */
  predicate Same(p: Parm, q: Parm) {
    match (p, q)
    case (ConstP(v), ConstP(w)) => v == w
    case (TypeP(a, _), TypeP(b, _)) => a.typeOwns == b.typeOwns
    case _ => false
  }

  ghost predicate SameParms(p: seq<Parm>, q: seq<Parm>) {
    |p| == |q| && forall j :: 0 <= j < |p| ==> Same(p[j], q[j])
  }

  ghost predicate SameRequest(a: Request, b: Request) {
    a.gen == b.gen && a.proc == b.proc && SameParms(a.parms, b.parms)
  }

  /** How many parameters each generator, operation and procedure takes. */
  type Arity = (Ops?, int) -> nat

  ghost predicate IsType(r: Request) { r.gen != null && r.proc == 0 }

  ghost predicate IsOp(r: Request) { r.gen != null && r.proc != 0 }

  /** Entry t is the instance of the type that the operation of entry o belongs to. */
  ghost predicate TypeOf(keys: seq<Request>, results: seq<Ops>, arity: Arity, o: int, t: int)
    requires |keys| == |results|
  {
    && 0 <= o < |keys| && 0 <= t < |keys| && IsType(keys[t]) && keys[t].gen == keys[o].gen
    && arity(keys[o].gen, 0) <= |keys[o].parms|
    && SameParms(keys[o].parms[..arity(keys[o].gen, 0)], keys[t].parms)
    && results[o].typeOwns == results[t].typeOwns
  }

  /** The cache as a list of what was asked for and what was answered: no
      request has two answers, no answer serves two requests, type instances
      have their own variables each, and so have operations and procedures;
      an operation shares the own variables of its type with its type instance,
      and its own own variables are no type's. */
  ghost predicate Memo(keys: seq<Request>, results: seq<Ops>, arity: Arity) {
    && |keys| == |results|
    && (forall i :: 0 <= i < |keys| ==> |keys[i].parms| == arity(keys[i].gen, keys[i].proc) < MAX_PARMS)
    && (forall i, k :: 0 <= i < k < |keys| ==> !SameRequest(keys[i], keys[k]) && results[i] != results[k])
    && (forall i :: 0 <= i < |keys| && IsType(keys[i]) ==> results[i].typeOwns != null)
    && (forall i, k :: 0 <= i < k < |keys| && IsType(keys[i]) && IsType(keys[k]) ==>
          results[i].typeOwns != results[k].typeOwns)
    && (forall i :: 0 <= i < |keys| && IsOp(keys[i]) ==> exists t :: TypeOf(keys, results, arity, i, t))
    && (forall i :: 0 <= i < |keys| && keys[i].proc != 0 ==> results[i].opOwns != null)
    && (forall i, k :: 0 <= i < k < |keys| && keys[i].proc != 0 && keys[k].proc != 0 ==>
          results[i].opOwns != results[k].opOwns)
    && (forall i, k :: 0 <= i < |keys| && 0 <= k < |keys| && keys[i].proc != 0 ==>
          results[i].opOwns != results[k].typeOwns)
  }

  /** Matching is an equivalence. */
  lemma SameParmsClass(p: seq<Parm>, q: seq<Parm>, r: seq<Parm>)
    ensures SameParms(p, p) && (SameParms(p, q) <==> SameParms(q, p))
    ensures SameParms(p, q) ==> (SameParms(p, r) <==> SameParms(q, r))
  {
  }

  lemma SameParmsIs(p: seq<Parm>, q: seq<Parm>)
    ensures SameParms(p, q) <==>
            && |p| == |q|
            && forall j :: 0 <= j < |p| ==>
                 || (p[j].ConstP? && q[j].ConstP? && p[j].value == q[j].value)
                 || (p[j].TypeP? && q[j].TypeP? && p[j].ops.typeOwns == q[j].ops.typeOwns)
  {
  }

  /** Requests match when generator and code address are the same, and parameter
      by parameter both are the same constant or types with one block of own
      variables. */
  lemma MatchIs(a: Request, b: Request)
    ensures SameRequest(a, b) <==>
            && a.gen == b.gen && a.proc == b.proc && |a.parms| == |b.parms|
            && forall j :: 0 <= j < |a.parms| ==>
                 var p, q := a.parms[j], b.parms[j];
                 || (p.ConstP? && q.ConstP? && p.value == q.value)
                 || (p.TypeP? && q.TypeP? && p.ops.typeOwns == q.ops.typeOwns)
  {
    hide SameParms;
    SameParmsIs(a.parms, b.parms);
  }

  lemma SameAsItself(r: Request)
    ensures SameRequest(r, r)
  {
  }

  /** A new answer to a request that no entry matches. */
  lemma AddMemo(keys: seq<Request>, results: seq<Ops>, arity: Arity, req: Request, ops: Ops)
    requires Memo(keys, results, arity) && |req.parms| == arity(req.gen, req.proc) < MAX_PARMS
    requires forall i :: 0 <= i < |keys| ==> !SameRequest(req, keys[i]) && results[i] != ops
    requires IsType(req) ==>
               && ops.typeOwns != null
               && forall i :: 0 <= i < |keys| && IsType(keys[i]) ==> results[i].typeOwns != ops.typeOwns
    requires req.proc != 0 ==>
               && ops.opOwns != null
               && forall i :: 0 <= i < |keys| && keys[i].proc != 0 ==> results[i].opOwns != ops.opOwns
    requires IsOp(req) ==> exists t :: TypeOf(keys + [req], results + [ops], arity, |keys|, t)
    requires forall i :: 0 <= i < |keys| && keys[i].proc != 0 ==> results[i].opOwns != ops.typeOwns
    requires req.proc != 0 ==>
               ops.opOwns != ops.typeOwns && forall i :: 0 <= i < |keys| ==> results[i].typeOwns != ops.opOwns
    ensures Memo(keys + [req], results + [ops], arity)
  {
    hide SameParms;
    var ks, rs := keys + [req], results + [ops];
    forall i | 0 <= i < |keys| ensures !SameRequest(keys[i], req) {
      SameParmsClass(keys[i].parms, req.parms, []);
    }
    forall i | 0 <= i < |ks| && IsOp(ks[i]) ensures exists t :: TypeOf(ks, rs, arity, i, t) {
      if i < |keys| {
        var t :| TypeOf(keys, results, arity, i, t);
        assert TypeOf(ks, rs, arity, i, t);
      }
    }
  }

  // ----- whole runs -----

  /** Every request so far has a matching entry with its answer. */
  ghost predicate Explained(keys: seq<Request>, results: seq<Ops>, asked: seq<Request>, answered: seq<Ops>)
    requires |keys| == |results|
  {
    |asked| == |answered| && forall i :: 0 <= i < |asked| ==> Answers(keys, results, asked[i], answered[i])
  }

  /** An entry matches the request and holds the answer. */
  ghost predicate Answers(keys: seq<Request>, results: seq<Ops>, req: Request, ops: Ops)
    requires |keys| == |results|
  {
    exists i :: 0 <= i < |keys| && SameRequest(req, keys[i]) && results[i] == ops
  }

  /** Over a whole run, two requests got the same table exactly when they match. */
  lemma SameAnswerIffSameRequest(keys: seq<Request>, results: seq<Ops>, arity: Arity, asked: seq<Request>,
                                 answered: seq<Ops>)
    requires Memo(keys, results, arity) && Explained(keys, results, asked, answered)
    ensures forall i, k :: 0 <= i < |asked| && 0 <= k < |asked| ==>
              (answered[i] == answered[k] <==> SameRequest(asked[i], asked[k]))
  {
    hide SameParms;
    forall i, k | 0 <= i < |asked| && 0 <= k < |asked|
      ensures answered[i] == answered[k] <==> SameRequest(asked[i], asked[k])
    {
      var p :| 0 <= p < |keys| && SameRequest(asked[i], keys[p]) && results[p] == answered[i];
      var q :| 0 <= q < |keys| && SameRequest(asked[k], keys[q]) && results[q] == answered[k];
      MatchAlike(asked[i], asked[k], keys[p], keys[q]);
      EntriesApart(keys, results, arity, p, q);
    }
  }

  lemma EntriesApart(keys: seq<Request>, results: seq<Ops>, arity: Arity, p: int, q: int)
    requires Memo(keys, results, arity) && 0 <= p < |keys| && 0 <= q < |keys|
    ensures results[p] == results[q] <==> SameRequest(keys[p], keys[q])
  {
    hide SameParms;
    if p == q { SameAsItself(keys[p]); } else { SameParmsClass(keys[p].parms, keys[q].parms, []); }
  }

  lemma MatchAlike(a: Request, b: Request, x: Request, y: Request)
    requires SameRequest(a, x) && SameRequest(b, y)
    ensures SameRequest(a, b) <==> SameRequest(x, y)
  {
  }

  /** The parameters of the type that a request is about. */
  ghost function TypeParms(r: Request, arity: Arity): seq<Parm> {
    if arity(r.gen, 0) <= |r.parms| then r.parms[..arity(r.gen, 0)] else []
  }

  /** The entry for the type of entry p. */
  lemma TypeEntry(keys: seq<Request>, results: seq<Ops>, arity: Arity, p: int) returns (t: int)
    requires Memo(keys, results, arity) && 0 <= p < |keys| && keys[p].gen != null
    ensures 0 <= t < |keys| && IsType(keys[t]) && keys[t].gen == keys[p].gen
    ensures SameParms(TypeParms(keys[p], arity), keys[t].parms) && results[t].typeOwns == results[p].typeOwns
  {
    hide SameParms;
    if IsType(keys[p]) {
      t := p;
      assert TypeParms(keys[p], arity) == keys[p].parms;
      SameAsItself(keys[p]);
    } else {
      t :| TypeOf(keys, results, arity, p, t);
    }
  }

  lemma TypeParmsAlike(a: Request, x: Request, arity: Arity)
    requires SameRequest(a, x)
    ensures SameParms(TypeParms(a, arity), TypeParms(x, arity))
  {
  }

  lemma TypesApart(keys: seq<Request>, results: seq<Ops>, arity: Arity, t: int, u: int)
    requires Memo(keys, results, arity) && 0 <= t < |keys| && 0 <= u < |keys| && IsType(keys[t]) && IsType(keys[u])
    ensures results[t].typeOwns == results[u].typeOwns <==> SameRequest(keys[t], keys[u])
  {
    hide SameParms;
    if t == u { SameAsItself(keys[t]); } else { SameParmsClass(keys[t].parms, keys[u].parms, []); }
  }

  /** The type that an answered request is about, among the entries. */
  lemma TypeOfAsked(keys: seq<Request>, results: seq<Ops>, arity: Arity, a: Request, ops: Ops) returns (t: int)
    requires Memo(keys, results, arity) && Answers(keys, results, a, ops) && a.gen != null
    ensures 0 <= t < |keys| && IsType(keys[t]) && keys[t].gen == a.gen
    ensures SameParms(TypeParms(a, arity), keys[t].parms) && results[t].typeOwns == ops.typeOwns
  {
    hide SameParms;
    var p :| 0 <= p < |keys| && SameRequest(a, keys[p]) && results[p] == ops;
    t := TypeEntry(keys, results, arity, p);
    TypeParmsAlike(a, keys[p], arity);
    SameParmsClass(TypeParms(a, arity), TypeParms(keys[p], arity), keys[t].parms);
  }

  /** Over a whole run, types and operations of types share the own variables of
      a type exactly when they were asked for on the same generator and matching
      type parameters. */
  lemma SameOwnsIffSameTypeParms(keys: seq<Request>, results: seq<Ops>, arity: Arity, asked: seq<Request>,
                                 answered: seq<Ops>, i: int, k: int)
    requires Memo(keys, results, arity) && Explained(keys, results, asked, answered)
    requires 0 <= i < |asked| && 0 <= k < |asked| && asked[i].gen != null && asked[k].gen != null
    ensures answered[i].typeOwns == answered[k].typeOwns <==>
            asked[i].gen == asked[k].gen && SameParms(TypeParms(asked[i], arity), TypeParms(asked[k], arity))
  {
    hide SameParms, Memo, Answers, TypeParms;
    var t := TypeOfAsked(keys, results, arity, asked[i], answered[i]);
    var u := TypeOfAsked(keys, results, arity, asked[k], answered[k]);
    TypesApart(keys, results, arity, t, u);
    var p, q := TypeParms(asked[i], arity), TypeParms(asked[k], arity);
    SameParmsClass(p, keys[t].parms, q);
    SameParmsClass(q, keys[u].parms, keys[t].parms);
    SameParmsClass(keys[t].parms, q, q);
    SameParmsClass(keys[u].parms, keys[t].parms, q);
  }

  /** Over a whole run, operations and procedures share their own variables
      exactly when they match, and never with a type. */
  lemma OpOwnsApart(keys: seq<Request>, results: seq<Ops>, arity: Arity, asked: seq<Request>, answered: seq<Ops>,
                    i: int, k: int)
    requires Memo(keys, results, arity) && Explained(keys, results, asked, answered)
    requires 0 <= i < |asked| && 0 <= k < |asked| && asked[i].proc != 0
    ensures asked[k].proc != 0 ==> (answered[i].opOwns == answered[k].opOwns <==> SameRequest(asked[i], asked[k]))
    ensures answered[i].opOwns != null && answered[i].opOwns != answered[k].typeOwns
  {
    hide SameParms;
    var p :| 0 <= p < |keys| && SameRequest(asked[i], keys[p]) && results[p] == answered[i];
    var q :| 0 <= q < |keys| && SameRequest(asked[k], keys[q]) && results[q] == answered[k];
    MatchAlike(asked[i], asked[k], keys[p], keys[q]);
    EntriesApart(keys, results, arity, p, q);
  }

  /** The own variables of a type that was answered are no operation's. */
  lemma TypeOwnsApart(keys: seq<Request>, results: seq<Ops>, arity: Arity, req: Request, ops: Ops)
    requires Memo(keys, results, arity) && Answers(keys, results, req, ops)
    ensures forall i :: 0 <= i < |keys| && keys[i].proc != 0 ==> results[i].opOwns != ops.typeOwns
  {
  }

  lemma OpOwnsThere(keys: seq<Request>, results: seq<Ops>, arity: Arity)
    requires Memo(keys, results, arity)
    ensures |keys| == |results| && forall i :: 0 <= i < |keys| && keys[i].proc != 0 ==> results[i].opOwns != null
  {
  }

  /** Entries that are added leave what was answered answered. */
  lemma ExplainedOn(keys: seq<Request>, results: seq<Ops>, req: Request, ops: Ops, asked: seq<Request>,
                    answered: seq<Ops>)
    requires |keys| == |results| && Explained(keys, results, asked, answered)
    ensures Explained(keys + [req], results + [ops], asked + [req], answered + [ops])
    ensures Answers(keys + [req], results + [ops], req, ops)
  {
    hide SameRequest;
    var ks, rs := keys + [req], results + [ops];
    SameAsItself(req);
    assert ks[|keys|] == req && rs[|keys|] == ops;
    forall i | 0 <= i < |asked| ensures Answers(ks, rs, asked[i], answered[i]) {
      var p :| 0 <= p < |keys| && SameRequest(asked[i], keys[p]) && results[p] == answered[i];
      assert ks[p] == keys[p] && rs[p] == results[p];
    }
  }

  lemma ExplainedToo(keys: seq<Request>, results: seq<Ops>, req: Request, ops: Ops, asked: seq<Request>,
                     answered: seq<Ops>)
    requires |keys| == |results| && Explained(keys, results, asked, answered) && Answers(keys, results, req, ops)
    ensures Explained(keys, results, asked + [req], answered + [ops])
  {
    hide Answers;
  }

  // ----- the table of a parameter -----

  /** The first entry of that name. */
  function Named(es: seq<OpEntry>, n: Name): OpEntry {
    if es == [] then NoOp
    else if es[0].OpEntry? && es[0].name == n then es[0]
    else Named(es[1..], n)
  }

  lemma {:induction false} NamedIs(es: seq<OpEntry>, n: Name)
    ensures var e := Named(es, n);
            if e.OpEntry?
            then exists m :: 0 <= m < |es| && es[m] == e && e.name == n &&
                             forall l :: 0 <= l < m && es[l].OpEntry? ==> es[l].name != n
            else forall x :: x in es && x.OpEntry? ==> x.name != n
  {
    if es != [] && !(es[0].OpEntry? && es[0].name == n) {
      var e := Named(es[1..], n);
      NamedIs(es[1..], n);
      assert forall x :: x in es <==> x == es[0] || x in es[1..];
      if e.OpEntry? {
        var m :| 0 <= m < |es| - 1 && es[1..][m] == e && forall l :: 0 <= l < m && es[1..][l].OpEntry? ==>
                   es[1..][l].name != n;
        assert es[m + 1] == e && forall l :: 0 < l < m + 1 ==> es[l] == es[1..][l - 1];
      }
    }
  }

  /** What is required, by name, and the printing operation of the debugger. */
  function Selected(es: seq<OpEntry>, reqs: seq<Name>): seq<OpEntry> {
    seq(|reqs|, i requires 0 <= i < |reqs| => Named(es, reqs[i])) + [Named(es, DEBUG_PRINT)]
  }

  /** Entry by entry the first operation of the required name, or none if the
      type has none of that name; debug_print comes last. */
  lemma SelectedIs(es: seq<OpEntry>, reqs: seq<Name>)
    ensures |Selected(es, reqs)| == |reqs| + 1
    ensures forall i :: 0 <= i <= |reqs| ==>
              var e, n := Selected(es, reqs)[i], if i < |reqs| then reqs[i] else Name("debug_print");
              if e.OpEntry?
              then exists m :: 0 <= m < |es| && es[m] == e && e.name == n &&
                               forall l :: 0 <= l < m && es[l].OpEntry? ==> es[l].name != n
              else forall x :: x in es && x.OpEntry? ==> x.name != n
  {
    hide Named;
    var s := Selected(es, reqs);
    forall i | 0 <= i <= |reqs|
      ensures var e, n := s[i], if i < |reqs| then reqs[i] else Name("debug_print");
              if e.OpEntry?
              then exists m :: 0 <= m < |es| && es[m] == e && e.name == n &&
                               forall l :: 0 <= l < m && es[l].OpEntry? ==> es[l].name != n
              else forall x :: x in es && x.OpEntry? ==> x.name != n
    {
      NamedIs(es, if i < |reqs| then reqs[i] else DEBUG_PRINT);
    }
  }

  method Select(es: seq<OpEntry>, n: Name) returns (e: OpEntry)
    ensures e == Named(es, n)
  {
    var j := 0;
    assert es[0..] == es;
    while j < |es|
      invariant 0 <= j <= |es| && Named(es, n) == Named(es[j..], n)
    {
      assert es[j..][1..] == es[j + 1..];
      if es[j].OpEntry? && es[j].name == n {
        return es[j];
      }
      j := j + 1;
    }
    e := NoOp;
  }

  /** The table has the type's own variables, so it stands for the same
      parameter when it is passed on; an operation the type has not is missing. */
  method BuildParmTable(ops: Ops, reqs: seq<Name>) returns (table: Ops)
    ensures fresh(table) && table.typeOwns == ops.typeOwns && table.opOwns == ops.opOwns
    ensures table.entries == Selected(ops.entries, reqs)
    ensures forall rs, ss :: Same(TypeP(table, rs), TypeP(ops, ss))
  {
    var es: seq<OpEntry> := [];
    for i := 0 to |reqs|
      invariant |es| == i && forall k :: 0 <= k < i ==> es[k] == Named(ops.entries, reqs[k])
    {
      var e := Select(ops.entries, reqs[i]);
      es := es + [e];
    }
    var d := Select(ops.entries, DEBUG_PRINT);
    assert es + [d] == Selected(ops.entries, reqs);
    table := new Ops(ops.typeOwns, ops.opOwns, es + [d]);
  }

  /** The cell holds the parameter. */
  ghost predicate Holds(c: Cell, p: Parm) {
    match (c, p)
    case (ConstC(v), ConstP(w)) => v == w
    case (TableC(t), TypeP(ops, reqs)) =>
      t.typeOwns == ops.typeOwns && t.opOwns == ops.opOwns && t.entries == Selected(ops.entries, reqs)
    case _ => false
  }

  ghost predicate HoldAll(cs: seq<Cell>, ps: seq<Parm>) {
    |cs| == |ps| && forall i :: 0 <= i < |cs| ==> Holds(cs[i], ps[i])
  }

  /** A block holds constants as they are, and for each type a table that has the
      type's own variables and the selected operations. */
  lemma HoldAllIs(cs: seq<Cell>, ps: seq<Parm>)
    ensures HoldAll(cs, ps) <==>
            && |cs| == |ps|
            && forall i :: 0 <= i < |cs| ==>
                 && (ps[i].ConstP? ==> cs[i] == ConstC(ps[i].value))
                 && (ps[i].TypeP? ==>
                       && cs[i].TableC? && cs[i].table.typeOwns == ps[i].ops.typeOwns
                       && cs[i].table.opOwns == ps[i].ops.opOwns
                       && cs[i].table.entries == Selected(ps[i].ops.entries, ps[i].reqs))
  {
    hide Selected;
  }

  method StoreParm(p: Parm) returns (c: Cell)
    ensures Holds(c, p)
  {
    match p {
      case ConstP(v) => c := ConstC(v);
      case TypeP(ops, reqs) =>
        var t := BuildParmTable(ops, reqs);
        c := TableC(t);
    }
  }

  // ----- the operations table of an instance -----

  /** An entry for a type answers no request for an operation. */
  lemma OtherProc(keys0: seq<Request>, keys: seq<Request>, op: Request, typ: Request)
    requires keys == keys0 || keys == keys0 + [typ]
    requires op.proc != typ.proc && forall i :: 0 <= i < |keys0| ==> !SameRequest(op, keys0[i])
    ensures forall i :: 0 <= i < |keys| ==> !SameRequest(op, keys[i])
  {
  }

  /** The table of an instance: the generator's routines by name and code, each
      a routine of its own closed over the variables of the instance. */
  ghost predicate Instantiates(ans: Ops, gen: Ops, owns: Owns)
    reads set e | e in ans.entries && e.OpEntry? :: e.fcn, set e | e in gen.entries && e.OpEntry? :: e.fcn
  {
    && ans.typeOwns == owns && |ans.entries| == |gen.entries|
    && forall i :: 0 <= i < |gen.entries| ==>
         var e, g := ans.entries[i], gen.entries[i];
         && e.OpEntry? && g.OpEntry? && e.name == g.name && e.fcn != g.fcn && e.fcn.proc == g.fcn.proc
         && e.fcn.typeOwns == owns && e.fcn.opOwns == owns
  }

  lemma InstantiatesIs(ans: Ops, gen: Ops, owns: Owns)
    requires Instantiates(ans, gen, owns)
    ensures ans.typeOwns == owns && |ans.entries| == |gen.entries|
    ensures forall i :: 0 <= i < |gen.entries| ==>
              && ans.entries[i].OpEntry? && gen.entries[i].OpEntry? && ans.entries[i].name == gen.entries[i].name
              && ans.entries[i].fcn != gen.entries[i].fcn && ans.entries[i].fcn.proc == gen.entries[i].fcn.proc
              && ans.entries[i].fcn.typeOwns == owns && ans.entries[i].fcn.opOwns == owns
  {
  }

  /** A generator has all its routines. */
  predicate Whole(gen: Ops) {
    forall i :: 0 <= i < |gen.entries| ==> gen.entries[i].OpEntry?
  }

  /** Every routine of the generator, closed over the own variables of the
      instance; the routines are new, so the generator's own table keeps its. */
  method BuildParmOpsTable(gen: Ops, owns: Owns) returns (ans: Ops)
    requires Whole(gen)
    ensures fresh(ans) && Instantiates(ans, gen, owns)
    ensures fresh(set e | e in ans.entries && e.OpEntry? :: e.fcn)
    ensures ans.typeOwns == owns && |ans.entries| == |gen.entries|
    ensures forall i :: 0 <= i < |gen.entries| ==>
              && ans.entries[i].OpEntry? && ans.entries[i].name == gen.entries[i].name
              && ans.entries[i].fcn.proc == gen.entries[i].fcn.proc
              && ans.entries[i].fcn.typeOwns == owns && ans.entries[i].fcn.opOwns == owns
  {
    var es: seq<OpEntry> := [];
    for i := 0 to |gen.entries|
      invariant |es| == i
      invariant forall k :: 0 <= k < i ==>
                  && es[k].OpEntry? && es[k].name == gen.entries[k].name && fresh(es[k].fcn)
                  && es[k].fcn.proc == gen.entries[k].fcn.proc
                  && es[k].fcn.typeOwns == owns && es[k].fcn.opOwns == owns
    {
      var f := new Fcn();
      f.proc := gen.entries[i].fcn.proc;
      f.typeOwns := owns;
      f.opOwns := owns;
      es := es + [OpEntry(gen.entries[i].name, f)];
    }
    ans := new Ops(owns, null, es);
  }

  // ----- the cache -----

  class Cache {
    const opsArr: array<Ops?>
    const procArr: array<int>
    const answers: array<Ops?>
    const parms: array2<Parm>
    const info: array<Parm>       // the parameters of the request being made
    var count: nat
    const arity: Arity
    ghost var keys: seq<Request>
    ghost var results: seq<Ops>
    ghost var asked: seq<Request>      // every request answered so far
    ghost var answered: seq<Ops>

    /** The arrays hold the keys and the answers. */
    ghost predicate Stored()
      reads this, opsArr, procArr, answers, parms
    {
      && opsArr.Length == procArr.Length == answers.Length == parms.Length0 == MAX_INSTS
      && parms.Length1 == MAX_PARMS && count == |keys| == |results| <= MAX_INSTS
      && (forall i :: 0 <= i < count ==>
            && opsArr[i] == keys[i].gen && procArr[i] == keys[i].proc && answers[i] == results[i]
            && |keys[i].parms| <= MAX_PARMS
            && forall j :: 0 <= j < |keys[i].parms| ==> parms[i, j] == keys[i].parms[j])
    }

    ghost predicate Valid()
      reads this, opsArr, procArr, answers, parms
    {
      && Stored() && Memo(keys, results, arity) && count < MAX_INSTS
      && info.Length == MAX_PARMS && opsArr != answers
      && Explained(keys, results, asked, answered)
    }

    /** The request that the info array now describes. */
    ghost function Asked(gen: Ops?, proc: int, n: nat): Request
      requires n <= info.Length
      reads info
    {
      Request(gen, proc, info[..n])
    }

    constructor (a: Arity)
      ensures Valid() && keys == [] && asked == [] && answered == [] && arity == a
      ensures fresh(opsArr) && fresh(procArr) && fresh(answers) && fresh(parms) && fresh(info)
    {
      opsArr := new Ops?[MAX_INSTS](_ => null);
      procArr := new int[MAX_INSTS](_ => 0);
      answers := new Ops?[MAX_INSTS](_ => null);
      parms := new Parm[MAX_INSTS, MAX_PARMS]((_, _) => ConstP(0));
      info := new Parm[MAX_PARMS](_ => ConstP(0));
      count, arity, keys, results, asked, answered := 0, a, [], [], [], [];
    }

    /** add_parm_info: one parameter of the next request. */
    method AddParmInfo(j: nat, p: Parm)
      requires Valid() && j < MAX_PARMS
      modifies info
      ensures Valid() && info[..] == old(info[..])[j := p]
    {
      info[j] := p;
    }

    /** One row of the search. */
    method RowMatches(i: nat, gen: Ops?, proc: int, n: nat) returns (found: bool)
      requires Valid() && i < count && n == arity(gen, proc) < MAX_PARMS
      ensures found <==> SameRequest(Asked(gen, proc, n), keys[i])
    {
      found := false;
      if gen == opsArr[i] && proc == procArr[i] {
        found := true;
        for j := 0 to n
          invariant forall k :: 0 <= k < j ==> Same(info[k], parms[i, k])
        {
          if !Same(info[j], parms[i, j]) {
            return false;
          }
        }
      }
    }

    /** find_ops: the entry that matches the request, -1 if there is none; the
        process dies of too many parameters. */
    method FindOps(gen: Ops?, proc: int, n: nat) returns (died: bool, at: int)
      requires Valid() && n == arity(gen, proc)
      ensures died <==> n >= 20
      ensures !died ==> -1 <= at < count
      ensures !died && at >= 0 ==> SameRequest(Asked(gen, proc, n), keys[at]) && answers[at] == results[at]
      ensures !died && at < 0 ==> forall i :: 0 <= i < count ==> !SameRequest(Asked(gen, proc, n), keys[i])
    {
      hide Memo, SameRequest;
      if n >= MAX_PARMS { return true, -1; }
      died, at := false, 0;
      while at < count
        invariant 0 <= at <= count
        invariant forall i :: 0 <= i < at ==> !SameRequest(Asked(gen, proc, n), keys[i])
      {
        var found := RowMatches(at, gen, proc, n);
        if found { return; }
        at := at + 1;
      }
      at := -1;
    }

    /** The arrays of add_ops; the process dies when they are full. */
    method Enter(gen: Ops?, proc: int, n: nat, ops: Ops) returns (died: bool)
      requires Stored() && count < MAX_INSTS && n < MAX_PARMS <= info.Length && opsArr != answers
      modifies this`count, this`keys, this`results, opsArr, procArr, answers, parms
      ensures died <==> |keys| == MAX_INSTS
      ensures keys == old(keys) + [Asked(gen, proc, n)] && results == old(results) + [ops] && Stored()
    {
      ghost var req := Asked(gen, proc, n);
      opsArr[count] := gen;
      procArr[count] := proc;
      answers[count] := ops;
      for j := 0 to n
        invariant count == old(count) && keys == old(keys) && results == old(results)
        invariant opsArr[..] == old(opsArr[..])[count := gen] && procArr[..] == old(procArr[..])[count := proc]
        invariant answers[..] == old(answers[..])[count := ops]
        invariant forall i, k :: 0 <= i < count && 0 <= k < MAX_PARMS ==> parms[i, k] == old(parms[i, k])
        invariant forall k :: 0 <= k < j ==> parms[count, k] == info[k]
      {
        parms[count, j] := info[j];
      }
      keys, results := keys + [req], results + [ops];
      count := count + 1;
      died := count == MAX_INSTS;
    }

    /** add_ops, and the request is answered. */
    method AddOps(gen: Ops?, proc: int, n: nat, ops: Ops) returns (died: bool)
      requires Valid() && n < MAX_PARMS && Memo(keys + [Asked(gen, proc, n)], results + [ops], arity)
      modifies this`count, this`keys, this`results, this`asked, this`answered, opsArr, procArr, answers, parms
      ensures died <==> |keys| == MAX_INSTS
      ensures keys == old(keys) + [Asked(gen, proc, n)] && results == old(results) + [ops]
      ensures asked == old(asked) + [Asked(gen, proc, n)] && answered == old(answered) + [ops]
      ensures |asked| == |answered| && |keys| == |results| && Answers(keys, results, Asked(gen, proc, n), ops)
      ensures !died ==> Valid()
    {
      hide Memo, Answers;
      ExplainedOn(keys, results, Asked(gen, proc, n), ops, asked, answered);
      died := Enter(gen, proc, n, ops);
      asked, answered := asked + [Asked(gen, proc, n)], answered + [ops];
    }

    /** A request that was there is answered again. */
    method Again(ghost req: Request, at: nat) returns (ops: Ops)
      requires Valid() && at < count && SameRequest(req, keys[at])
      modifies this`asked, this`answered
      ensures Valid() && asked == old(asked) + [req] && answered == old(answered) + [ops]
      ensures |asked| == |answered| && Answers(keys, results, req, ops) && ops == results[at]
    {
      hide Memo, SameRequest, Answers;
      assert Answers(keys, results, req, results[at]) by { Answering(at, req); }
      ops := answers[at];
      ExplainedToo(keys, results, req, ops, asked, answered);
      asked, answered := asked + [req], answered + [ops];
    }

    lemma Answering(at: nat, req: Request)
      requires |keys| == |results| && at < |keys| && SameRequest(req, keys[at])
      ensures Answers(keys, results, req, results[at])
    {
    }

    /** An operation's answer built on the answer for its type. */
    lemma OpBelongs(op: Request, typ: Request, typeOps: Ops, ops: Ops)
      requires |keys| == |results| && Answers(keys, results, typ, typeOps)
      requires IsType(typ) && IsOp(op) && typ.gen == op.gen
      requires |op.parms| >= arity(op.gen, 0) && typ.parms == op.parms[..arity(op.gen, 0)]
      requires ops.typeOwns == typeOps.typeOwns
      ensures exists t :: TypeOf(keys + [op], results + [ops], arity, |keys|, t)
    {
      hide SameParms;
      var t :| 0 <= t < |keys| && SameRequest(typ, keys[t]) && results[t] == typeOps;
      assert TypeOf(keys + [op], results + [ops], arity, |keys|, t);
    }

    /** The parameters of the request, stored with the own variables: constants
        themselves, and for a type the table of what is required of it. */
    method StoreParms(owns: Owns, from: nat, n: nat)
      requires from <= n <= info.Length && owns.parms == []
      modifies owns
      ensures HoldAll(owns.parms, info[from..n])
    {
      hide Holds;
      for i := from to n
        invariant HoldAll(owns.parms, info[from..i])
      {
        var c := StoreParm(info[i]);
        owns.parms := owns.parms + [c];
      }
    }

    /** New own variables, and the generator's routines closed over them. */
    method NewType(gen: Ops, n: nat) returns (ops: Ops)
      requires n <= info.Length && Whole(gen)
      ensures fresh(ops) && ops.typeOwns != null && fresh(ops.typeOwns) && HoldAll(ops.typeOwns.parms, info[..n])
      ensures Instantiates(ops, gen, ops.typeOwns) && fresh(set e | e in ops.entries && e.OpEntry? :: e.fcn)
    {
      hide HoldAll;
      var owns := new Owns();
      ops := BuildParmOpsTable(gen, owns);
      StoreParms(owns, 0, n);
      assert info[0..n] == info[..n];
    }

    /** The last request answered, which answered it was and what with. */
    ghost predicate Answered(req: Request, ops: Ops)
      reads this
    {
      && |asked| == |answered| > 0 && asked[|asked| - 1] == req && answered[|asked| - 1] == ops
      && |keys| == |results| && Answers(keys, results, req, ops)
    }

    method FindTypeInstance(gen: Ops, n: nat) returns (r: Option<Ops>)
      requires Valid() && n == arity(gen, 0) && Whole(gen)
      modifies this`count, this`keys, this`results, this`asked, this`answered, opsArr, procArr, answers, parms
      ensures old(keys) <= keys && old(results) <= results && old(asked) <= asked && old(answered) <= answered
      ensures r.Some? ==> Valid() && n < MAX_PARMS && Answered(Asked(gen, 0, n), r.value)
      ensures r.None? <==> n >= 20 || |keys| == 1000
      ensures keys == old(keys) || (n <= info.Length && keys == old(keys) + [Asked(gen, 0, n)])
      ensures r.Some? && keys != old(keys) ==>
                && fresh(r.value) && r.value.typeOwns != null && fresh(r.value.typeOwns)
                && HoldAll(r.value.typeOwns.parms, info[..n]) && Instantiates(r.value, gen, r.value.typeOwns)
    {
      hide Memo, SameRequest, Explained, Answers, HoldAll, Instantiates;
      var died, at := FindOps(gen, 0, n);
      if died { return None; }
      if at >= 0 {
        var was := Again(Asked(gen, 0, n), at);
        return Some(was);
      }
      var ops := NewType(gen, n);
      AddMemo(keys, results, arity, Asked(gen, 0, n), ops);
      died := AddOps(gen, 0, n, ops);
      r := if died then None else Some(ops);
    }

    /** The instance of an operation of the instance of its type. */
    method FindTypeopInstance(gen: Ops, proc: int, n: nat, nt: nat) returns (r: Option<Ops>)
      requires Valid() && proc != 0 && n == arity(gen, proc) && nt == arity(gen, 0) <= n && Whole(gen)
      modifies this`count, this`keys, this`results, this`asked, this`answered, opsArr, procArr, answers, parms
      ensures old(keys) <= keys && old(results) <= results && old(asked) <= asked && old(answered) <= answered
      ensures r.Some? ==> Valid() && n < MAX_PARMS && Answered(Asked(gen, proc, n), r.value)
      ensures r.None? <==> n >= 20 || |keys| == 1000
      ensures r.Some? && (forall i :: 0 <= i < |old(keys)| ==> !SameRequest(Asked(gen, proc, n), old(keys)[i])) ==>
                && fresh(r.value) && r.value.opOwns != null && fresh(r.value.opOwns)
                && HoldAll(r.value.opOwns.parms, info[nt..n])
    {
      hide Memo, SameRequest, SameParms, Explained, Answers, HoldAll, Instantiates;
      var died, at := FindOps(gen, proc, n);
      if died { return None; }
      if at >= 0 {
        var was := Again(Asked(gen, proc, n), at);
        return Some(was);
      }
      ghost var keys0 := keys;
      var t := FindTypeInstance(gen, nt);
      if t.None? { return None; }
      OtherProc(keys0, keys, Asked(gen, proc, n), Asked(gen, 0, nt));
      r := AddOp(gen, proc, n, nt, t.value);
    }

    /** The new instance of an operation whose type instance is at hand. */
    method AddOp(gen: Ops, proc: int, n: nat, nt: nat, typeOps: Ops) returns (r: Option<Ops>)
      requires Valid() && proc != 0 && n == arity(gen, proc) < MAX_PARMS && nt == arity(gen, 0) <= n
      requires Answers(keys, results, Asked(gen, 0, nt), typeOps)
      requires forall i :: 0 <= i < |keys| ==> !SameRequest(Asked(gen, proc, n), keys[i])
      modifies this`count, this`keys, this`results, this`asked, this`answered, opsArr, procArr, answers, parms
      ensures old(keys) <= keys && old(results) <= results && old(asked) <= asked && old(answered) <= answered
      ensures r.Some? ==> Valid() && Answered(Asked(gen, proc, n), r.value)
      ensures r.Some? ==> fresh(r.value) && r.value.typeOwns == typeOps.typeOwns
                          && r.value.opOwns != null && fresh(r.value.opOwns)
                          && HoldAll(r.value.opOwns.parms, info[nt..n])
      ensures r.None? <==> |keys| == MAX_INSTS
    {
      hide Memo, SameRequest, SameParms, Explained, Answers, HoldAll;
      var ops := NewOp(typeOps.typeOwns, nt, n);
      assert Asked(gen, 0, nt).parms == Asked(gen, proc, n).parms[..nt];
      OpBelongs(Asked(gen, proc, n), Asked(gen, 0, nt), typeOps, ops);
      TypeOwnsApart(keys, results, arity, Asked(gen, 0, nt), typeOps);
      AddMemo(keys, results, arity, Asked(gen, proc, n), ops);
      var died := AddOps(gen, proc, n, ops);
      r := if died then None else Some(ops);
    }

    /** A table without entries, with own variables for an operation. */
    method NewOp(typeOwns: Owns?, from: nat, n: nat) returns (ops: Ops)
      requires from <= n <= info.Length
      ensures fresh(ops) && ops.typeOwns == typeOwns && ops.opOwns != null && fresh(ops.opOwns)
      ensures HoldAll(ops.opOwns.parms, info[from..n])
    {
      hide HoldAll;
      var owns := new Owns();
      StoreParms(owns, from, n);
      ops := new Ops(typeOwns, owns, []);
    }

    method FindProciterInstance(proc: int, n: nat) returns (r: Option<Ops>)
      requires Valid() && proc != 0 && n == arity(null, proc)
      modifies this`count, this`keys, this`results, this`asked, this`answered, opsArr, procArr, answers, parms
      ensures old(keys) <= keys && old(results) <= results && old(asked) <= asked && old(answered) <= answered
      ensures r.Some? ==> Valid() && n < MAX_PARMS && Answered(Asked(null, proc, n), r.value)
      ensures r.None? <==> n >= 20 || |keys| == 1000
      ensures r.Some? && keys != old(keys) ==>
                && fresh(r.value) && r.value.typeOwns == null
                && r.value.opOwns != null && fresh(r.value.opOwns) && HoldAll(r.value.opOwns.parms, info[..n])
    {
      hide Memo, SameRequest, Explained, Answers, HoldAll;
      var died, at := FindOps(null, proc, n);
      if died { return None; }
      if at >= 0 {
        var was := Again(Asked(null, proc, n), at);
        return Some(was);
      }
      var ops := NewOp(null, 0, n);
      assert info[0..n] == info[..n];
      OpOwnsThere(keys, results, arity);
      AddMemo(keys, results, arity, Asked(null, proc, n), ops);
      died := AddOps(null, proc, n, ops);
      r := if died then None else Some(ops);
    }

    /** Whatever was asked for so far, in any order. Two requests got one table
        exactly when generator and code address are the same and parameter by
        parameter both are the same constant or types with one block of own
        variables; operations and procedures share their own variables exactly
        then too, and never with a type. */
    lemma WholeRun(i: int, k: int)
      requires Valid() && 0 <= i < |asked| && 0 <= k < |asked|
      ensures |asked| == |answered|
      ensures answered[i] == answered[k] <==>
              && asked[i].gen == asked[k].gen && asked[i].proc == asked[k].proc
              && |asked[i].parms| == |asked[k].parms|
              && forall j :: 0 <= j < |asked[i].parms| ==>
                   var p, q := asked[i].parms[j], asked[k].parms[j];
                   || (p.ConstP? && q.ConstP? && p.value == q.value)
                   || (p.TypeP? && q.TypeP? && p.ops.typeOwns == q.ops.typeOwns)
      ensures asked[i].proc != 0 && asked[k].proc != 0 ==>
                (answered[i].opOwns == answered[k].opOwns <==> answered[i] == answered[k])
      ensures asked[i].proc != 0 ==> answered[i].opOwns != null && answered[i].opOwns != answered[k].typeOwns
    {
      hide SameRequest, SameParms, Memo, Answers;
      SameAnswerIffSameRequest(keys, results, arity, asked, answered);
      MatchIs(asked[i], asked[k]);
      if asked[i].proc != 0 { OpOwnsApart(keys, results, arity, asked, answered, i, k); }
    }

    /** And types and operations of types have the own variables of a type in
        common exactly when the generators are the same and so are the
        parameters that the type takes. */
    lemma WholeRunOwns(i: int, k: int)
      requires Valid() && 0 <= i < |asked| && 0 <= k < |asked| && asked[i].gen != null && asked[k].gen != null
      ensures |asked| == |answered|
      ensures |asked[i].parms| >= arity(asked[i].gen, 0) && |asked[k].parms| >= arity(asked[k].gen, 0)
      ensures answered[i].typeOwns == answered[k].typeOwns <==>
              && asked[i].gen == asked[k].gen
              && forall j :: 0 <= j < arity(asked[i].gen, 0) ==>
                   var p, q := asked[i].parms[j], asked[k].parms[j];
                   || (p.ConstP? && q.ConstP? && p.value == q.value)
                   || (p.TypeP? && q.TypeP? && p.ops.typeOwns == q.ops.typeOwns)
    {
      hide SameRequest, SameParms, Memo, Answers, TypeParms;
      SameOwnsIffSameTypeParms(keys, results, arity, asked, answered, i, k);
      TypeParmsIs(i);
      TypeParmsIs(k);
      SameParmsIs(TypeParms(asked[i], arity), TypeParms(asked[k], arity));
    }

    lemma TypeParmsIs(i: int)
      requires Valid() && 0 <= i < |asked| && asked[i].gen != null
      ensures |asked[i].parms| >= arity(asked[i].gen, 0)
      ensures TypeParms(asked[i], arity) == asked[i].parms[..arity(asked[i].gen, 0)]
    {
      var p :| 0 <= p < |keys| && SameRequest(asked[i], keys[p]) && results[p] == answered[i];
      if IsOp(keys[p]) {
        var t :| TypeOf(keys, results, arity, p, t);
      }
    }
  }
}
