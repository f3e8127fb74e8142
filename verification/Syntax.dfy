/** The compiler's abstract syntax for types: definition units, identifiers,
    type descriptions ("typeabs") and the mutable type objects ("typespecs")
    that the compiler environment makes canonical.

    A description is generic in what stands for its generator (G) and for a
    component type (T), so that one datatype serves for the description held
    by a type object (Du, Typespec), for what the hash and the similarity test
    see of it (unique name, component id), and for a whole type tree (unique
    name, subtree). */
module Syntax {

  /** A CLU string used as a name; names are equal when their texts are. */
  datatype Name = Name(text: string)

  datatype Option<+T> = None | Some(value: T)

  /** A constant that can stand as an actual parameter of a cluster. */
  datatype Expr<T> =
    | NullX
    | BoolX(b: bool)
    | IntX(n: int)
    | RealX(r: real)
    | CharX(c: char)
    | StrX(s: string)
    | TypeX(typ: T)
    | IdnX(idn: Idn)
    | BadX

  datatype Field<T> = Field(sel: Name, typ: T)

  datatype Exception<T> = Exception(name: Name, types: seq<T>)

  datatype Abs<G, T> =
    | AnyT
    | CvtT
    | UnknownT
    | ApplyT(gen: G, args: seq<T>, vals: seq<T>, sigs: seq<Exception<T>>)
    | ClusterT(gen: G, parms: seq<Expr<T>>)
    | TypeT(gen: G, parms: seq<Expr<T>>)
    | SelectT(gen: G, fields: seq<Field<T>>)
    | IdnT(idn: Idn)
    | OtherDu(gen: G, parms: seq<Expr<T>>)
    | OtherOp(typ: T, name: Name, parms: seq<Expr<T>>)
    | OtherReturn(typ: T)
  {
    predicate HasGen() { ApplyT? || ClusterT? || TypeT? || SelectT? || OtherDu? }

    function Gen(): G
      requires HasGen()
    {
      match this
      case ApplyT(g, _, _, _) => g
      case ClusterT(g, _) => g
      case TypeT(g, _) => g
      case SelectT(g, _) => g
      case OtherDu(g, _) => g
    }

    function WithGen(g: G): Abs<G, T>
      requires HasGen()
    {
      match this
      case ApplyT(_, a, v, s) => ApplyT(g, a, v, s)
      case ClusterT(_, p) => ClusterT(g, p)
      case TypeT(_, p) => TypeT(g, p)
      case SelectT(_, f) => SelectT(g, f)
      case OtherDu(_, p) => OtherDu(g, p)
    }
  }

  type Typeabs = Abs<Du, Typespec>

  /** What the hash function and the similarity test see of a description. */
  type Desc = Abs<Name, int>

  /** A type spelled out in full: no object identity left except identifiers. */
  datatype Tree = Node(abs: Abs<Name, Tree>)

  /** A definition unit; the cached module specs are an opaque token here. */
  class Du {
    const unique: Name
    var mspecs: Option<int>

    constructor (name: Name)
      ensures unique == name && mspecs == None
    {
      unique := name;
      mspecs := None;
    }
  }

  datatype OpSpec = OpSpec(name: Name, parms: seq<Expr<Typespec>>, typ: Typespec)

  datatype IdnKind =
    | Unknown
    | Var(typ: Typespec)
    | TParm(opers: seq<OpSpec>)
    | VParm(typ: Typespec)
    | TConst(opers: seq<OpSpec>)
    | Equated(x: Expr<Typespec>)
    | Gen(du: Du)
    | OpGen(name: Name)

  /** Identifiers are equal and similar only to themselves. */
  class Idn {
    const str: Name
    var kind: IdnKind

    constructor (s: Name, k: IdnKind)
      ensures str == s && kind == k
    {
      str := s;
      kind := k;
    }
  }

  /** What a number of identifiers stand for. */
  type Kinds = map<Idn, IdnKind>

  /** A type object. Its id is 0 until an environment makes it canonical. */
  class Typespec {
    var abs: Typeabs
    var id: int

    constructor (a: Typeabs, i: int)
      ensures abs == a && id == i
    {
      abs := a;
      id := i;
    }
  }
}
