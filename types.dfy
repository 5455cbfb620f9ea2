/** Rust types treated as data: the shapes that the `AsStatic` table in src/lib.rs
    talks about, plus the ones it deliberately has no rule for. */
module Types {

  /** The fixed-width integer types of Rust. */
  datatype IntKind = I8 | I16 | I32 | I64 | I128 | Isize | U8 | U16 | U32 | U64 | U128 | Usize

  /** A lifetime label on a reference: `'static` or a named, shorter lifetime such as `'a`. */
  datatype Lifetime = StaticLt | Named(name: string)

  /** A Rust type shape. The unit type `()` is the empty tuple `Tuple([])`.
      `Adt` stands for any other nominal type (a user struct, say) for which no rule exists. */
  datatype Ty =
    | Int(kind: IntKind)
    | F32
    | F64
    | Char
    | Bool
    | Str
    | String
    | Ref(lt: Lifetime, pointee: Ty)
    | RefMut(lt: Lifetime, pointee: Ty)
    | Slice(elem: Ty)
    | Boxed(inner: Ty)
    | Vec(elem: Ty)
    | Tuple(elems: seq<Ty>)
    | Array(elem: Ty, len: nat)
    | Rc(inner: Ty)
    | Weak(inner: Ty)
    | Adt(name: string)

  const Unit: Ty := Tuple([])

  /** Rust's `Sized`: `str` and slices are dynamically sized; a tuple is sized when its fields are. */
  predicate Sized(t: Ty)
    decreases t
  {
    match t
    case Str => false
    case Slice(_) => false
    case Tuple(es) => forall i | 0 <= i < |es| :: Sized(es[i])
    case _ => true
  }

  /** The same type with every reference lifetime replaced by `'static`.
      Two types are "the same type modulo lifetimes" when their erasures are equal. */
  function EraseLifetimes(t: Ty): Ty
    decreases t
  {
    match t
    case Ref(_, u) => Ref(StaticLt, EraseLifetimes(u))
    case RefMut(_, u) => RefMut(StaticLt, EraseLifetimes(u))
    case Slice(u) => Slice(EraseLifetimes(u))
    case Boxed(u) => Boxed(EraseLifetimes(u))
    case Vec(u) => Vec(EraseLifetimes(u))
    case Tuple(es) => Tuple(seq(|es|, i requires 0 <= i < |es| => EraseLifetimes(es[i])))
    case Array(u, n) => Array(EraseLifetimes(u), n)
    case Rc(u) => Rc(EraseLifetimes(u))
    case Weak(u) => Weak(EraseLifetimes(u))
    case _ => t
  }

  /** A type satisfies the `'static` bound when every lifetime in it is `'static`. */
  predicate OutlivesStatic(t: Ty)
    decreases t
  {
    match t
    case Ref(l, u) => l == StaticLt && OutlivesStatic(u)
    case RefMut(l, u) => l == StaticLt && OutlivesStatic(u)
    case Slice(u) => OutlivesStatic(u)
    case Boxed(u) => OutlivesStatic(u)
    case Vec(u) => OutlivesStatic(u)
    case Tuple(es) => forall i | 0 <= i < |es| :: OutlivesStatic(es[i])
    case Array(u, _) => OutlivesStatic(u)
    case Rc(u) => OutlivesStatic(u)
    case Weak(u) => OutlivesStatic(u)
    case _ => true
  }

  /** The same type with every one-field tuple `(A,)` replaced by `A`, at any depth. */
  function CollapseOneTuples(t: Ty): Ty
    decreases t
  {
    match t
    case Ref(l, u) => Ref(l, CollapseOneTuples(u))
    case RefMut(l, u) => RefMut(l, CollapseOneTuples(u))
    case Slice(u) => Slice(CollapseOneTuples(u))
    case Boxed(u) => Boxed(CollapseOneTuples(u))
    case Vec(u) => Vec(CollapseOneTuples(u))
    case Tuple(es) =>
      if |es| == 1 then CollapseOneTuples(es[0])
      else Tuple(seq(|es|, i requires 0 <= i < |es| => CollapseOneTuples(es[i])))
    case Array(u, n) => Array(CollapseOneTuples(u), n)
    case Rc(u) => Rc(CollapseOneTuples(u))
    case Weak(u) => Weak(CollapseOneTuples(u))
    case _ => t
  }

  /** Erasing lifetimes never changes whether a type is sized. */
  lemma {:induction false} EraseKeepsSized(t: Ty)
    ensures Sized(EraseLifetimes(t)) == Sized(t)
    decreases t
  {
    match t
    case Tuple(es) =>
      forall i | 0 <= i < |es| ensures Sized(EraseLifetimes(t).elems[i]) == Sized(es[i]) {
        EraseKeepsSized(es[i]);
      }
    case _ =>
  }
}
