/** The `AsStatic` trait of src/lib.rs and its closed table of impls: which type shapes have a
    lifetime-erased representative (`Supported`) and what that representative is (`Static`). */
module AsStatic {
  import opened Types

  /** True exactly when `t: AsStatic` holds, i.e. when one of the impls at lib.rs:117-226 applies.
      Every generic parameter of those impls carries Rust's implicit `Sized` bound, hence the
      `Sized(u)` conjuncts. The explicit `where T::Static: Sized` bounds are implied by `Sized(u)`
      in this closed table (lemma StaticPreservesSized), so they are not repeated.
      The only unsized types with an impl are `str` and slices. */
  predicate Supported(t: Ty)
    ensures Supported(t) ==> (Sized(t) <==> !(t.Str? || t.Slice?))
    decreases t
  {
    match t
    // lib.rs:155: the ten integer types of at most 64 bits, not i128 or u128
    case Int(k) => k != I128 && k != U128
    case F32 | F64 | Char | Adt(_) => false
    // lib.rs:156-157: the string slice, the owned string and bool (unit is the empty tuple)
    case Bool | Str | String => true
    case Ref(_, u) => Sized(u) && Supported(u)
    case RefMut(_, u) => Sized(u) && Supported(u)
    case Slice(u) => Sized(u) && Supported(u)
    case Boxed(u) => Sized(u) && Supported(u)
    case Vec(u) => Sized(u) && Supported(u)
    // lib.rs:157 gives the empty tuple; lib.rs:160-203 give arities 1 to 5
    case Tuple(es) => |es| <= 5 && forall i | 0 <= i < |es| :: Sized(es[i]) && Supported(es[i])
    // lib.rs:206-216: every length from 0 to 32
    case Array(u, n) => n <= 32 && Sized(u) && Supported(u)
    case Rc(u) => Sized(u) && Supported(u)
    case Weak(u) => Sized(u) && Supported(u)
  }

  /** `<t as AsStatic>::Static`. The trait declares `type Static: ?Sized + Any + 'static`, so the
      representative carries no lifetime other than `'static`. The one-field tuple rule writes
      `(A::Static)`, a parenthesised type rather than a tuple, so `(A,)` is represented by
      `A`'s representative itself. */
  function Static(t: Ty): (r: Ty)
    requires Supported(t)
    ensures OutlivesStatic(r)
    decreases t
  {
    match t
    case Ref(_, u) => Ref(StaticLt, Static(u))
    case RefMut(_, u) => RefMut(StaticLt, Static(u))
    case Slice(u) => Slice(Static(u))
    case Boxed(u) => Boxed(Static(u))
    case Vec(u) => Vec(Static(u))
    case Tuple(es) =>
      if |es| == 1 then Static(es[0])
      else Tuple(seq(|es|, i requires 0 <= i < |es| => Static(es[i])))
    case Array(u, n) => Array(Static(u), n)
    case Rc(u) => Rc(Static(u))
    case Weak(u) => Weak(Static(u))
    case _ => t
  }

  /** The representative is sized exactly when the type is; this is why the `T::Static: Sized`
      bounds in the table add nothing to the implicit `T: Sized`. */
  lemma {:induction false} StaticPreservesSized(t: Ty)
    requires Supported(t)
    ensures Sized(Static(t)) == Sized(t)
    decreases t
  {
    match t
    case Tuple(es) =>
      if |es| == 1 {
        StaticPreservesSized(es[0]);
      } else {
        forall i | 0 <= i < |es| ensures Sized(Static(t).elems[i]) {
          StaticPreservesSized(es[i]);
        }
      }
    case _ =>
  }

  /** The representative is an independent definition's result: erase every lifetime to
      `'static`, then collapse every one-field tuple into its field. */
  lemma {:induction false} StaticIsCanonical(t: Ty)
    requires Supported(t)
    ensures Static(t) == CollapseOneTuples(EraseLifetimes(t))
    decreases t, 1
  {
    if t.Ref? || t.RefMut? {
      ReferenceIsCanonical(t);
    } else if t.Boxed? || t.Rc? || t.Weak? {
      PointerIsCanonical(t);
    } else if t.Slice? || t.Vec? || t.Array? {
      ContainerIsCanonical(t);
    } else if t.Tuple? {
      var es := t.elems;
      forall i | 0 <= i < |es| ensures Static(es[i]) == CollapseOneTuples(EraseLifetimes(es[i])) {
        StaticIsCanonical(es[i]);
      }
      TupleIsCanonical(es);
    }
  }

  /** The reference cases of StaticIsCanonical. */
  lemma {:induction false} ReferenceIsCanonical(t: Ty)
    requires Supported(t)
    requires t.Ref? || t.RefMut?
    ensures Static(t) == CollapseOneTuples(EraseLifetimes(t))
    decreases t, 0
  {
    StaticIsCanonical(t.pointee);
  }

  /** The `Box`, `Rc` and `Weak` cases of StaticIsCanonical. */
  lemma {:induction false} PointerIsCanonical(t: Ty)
    requires Supported(t)
    requires t.Boxed? || t.Rc? || t.Weak?
    ensures Static(t) == CollapseOneTuples(EraseLifetimes(t))
    decreases t, 0
  {
    StaticIsCanonical(t.inner);
  }

  /** The slice, vector and array cases of StaticIsCanonical. */
  lemma {:induction false} ContainerIsCanonical(t: Ty)
    requires Supported(t)
    requires t.Slice? || t.Vec? || t.Array?
    ensures Static(t) == CollapseOneTuples(EraseLifetimes(t))
    decreases t, 0
  {
    StaticIsCanonical(t.elem);
  }

  /** The tuple step of StaticIsCanonical: if every field is canonical, so is the tuple. */
  lemma TupleIsCanonical(es: seq<Ty>)
    requires Supported(Tuple(es))
    requires forall i | 0 <= i < |es| :: Static(es[i]) == CollapseOneTuples(EraseLifetimes(es[i]))
    ensures Static(Tuple(es)) == CollapseOneTuples(EraseLifetimes(Tuple(es)))
  {
    var e := seq(|es|, i requires 0 <= i < |es| => EraseLifetimes(es[i]));
    assert EraseLifetimes(Tuple(es)) == Tuple(e);
    if |es| != 1 {
      var s := seq(|es|, i requires 0 <= i < |es| => Static(es[i]));
      var c := seq(|e|, i requires 0 <= i < |e| => CollapseOneTuples(e[i]));
      assert s == c;
    }
  }

  /** Whether a type has a representative does not depend on its lifetimes. */
  lemma {:induction false} SupportIgnoresLifetimes(t: Ty)
    ensures Supported(EraseLifetimes(t)) == Supported(t)
    decreases t
  {
    match t
    case Ref(_, u) => SupportIgnoresLifetimes(u); EraseKeepsSized(u);
    case RefMut(_, u) => SupportIgnoresLifetimes(u); EraseKeepsSized(u);
    case Slice(u) => SupportIgnoresLifetimes(u); EraseKeepsSized(u);
    case Boxed(u) => SupportIgnoresLifetimes(u); EraseKeepsSized(u);
    case Vec(u) => SupportIgnoresLifetimes(u); EraseKeepsSized(u);
    case Tuple(es) =>
      var e := EraseLifetimes(t).elems;
      forall i | 0 <= i < |es|
        ensures Sized(e[i]) == Sized(es[i]) && Supported(e[i]) == Supported(es[i])
      {
        SupportIgnoresLifetimes(es[i]);
        EraseKeepsSized(es[i]);
      }
    case Array(u, _) => SupportIgnoresLifetimes(u); EraseKeepsSized(u);
    case Rc(u) => SupportIgnoresLifetimes(u); EraseKeepsSized(u);
    case Weak(u) => SupportIgnoresLifetimes(u); EraseKeepsSized(u);
    case _ =>
  }

  /** Two types that differ only in their reference lifetimes are both supported or both not,
      and have the same representative. */
  lemma StaticIgnoresLifetimes(t1: Ty, t2: Ty)
    requires Supported(t1)
    requires EraseLifetimes(t1) == EraseLifetimes(t2)
    ensures Supported(t2)
    ensures Static(t1) == Static(t2)
  {
    SupportIgnoresLifetimes(t1);
    SupportIgnoresLifetimes(t2);
    StaticIsCanonical(t1);
    StaticIsCanonical(t2);
  }

  /** Exactly which supported types share a representative: those that are equal once lifetimes
      are erased and one-field tuples are collapsed. */
  lemma SameStaticIff(t1: Ty, t2: Ty)
    requires Supported(t1) && Supported(t2)
    ensures Static(t1) == Static(t2)
        <==> CollapseOneTuples(EraseLifetimes(t1)) == CollapseOneTuples(EraseLifetimes(t2))
  {
    StaticIsCanonical(t1);
    StaticIsCanonical(t2);
  }

  /** A representative never contains a one-field tuple, so `(A,)` and `A` cannot be told apart
      by their representatives. */
  lemma {:induction false} StaticHasNoOneTuples(t: Ty)
    requires Supported(t)
    ensures CollapseOneTuples(Static(t)) == Static(t)
    decreases t
  {
    match t
    case Ref(_, u) => StaticHasNoOneTuples(u);
    case RefMut(_, u) => StaticHasNoOneTuples(u);
    case Slice(u) => StaticHasNoOneTuples(u);
    case Boxed(u) => StaticHasNoOneTuples(u);
    case Vec(u) => StaticHasNoOneTuples(u);
    case Tuple(es) =>
      if |es| == 1 {
        StaticHasNoOneTuples(es[0]);
      } else {
        var s := Static(t).elems;
        forall i | 0 <= i < |es| ensures CollapseOneTuples(s[i]) == s[i] {
          StaticHasNoOneTuples(es[i]);
        }
      }
    case Array(u, _) => StaticHasNoOneTuples(u);
    case Rc(u) => StaticHasNoOneTuples(u);
    case Weak(u) => StaticHasNoOneTuples(u);
    case _ =>
  }

  /** The representative of a representative is itself: `T::Static: AsStatic` with
      `<T::Static as AsStatic>::Static == T::Static`. */
  lemma {:induction false} StaticIdempotent(t: Ty)
    requires Supported(t)
    ensures Supported(Static(t))
    ensures Static(Static(t)) == Static(t)
    decreases t
  {
    match t
    case Ref(_, u) => StaticIdempotent(u); StaticPreservesSized(u);
    case RefMut(_, u) => StaticIdempotent(u); StaticPreservesSized(u);
    case Slice(u) => StaticIdempotent(u); StaticPreservesSized(u);
    case Boxed(u) => StaticIdempotent(u); StaticPreservesSized(u);
    case Vec(u) => StaticIdempotent(u); StaticPreservesSized(u);
    case Tuple(es) =>
      if |es| == 1 {
        StaticIdempotent(es[0]);
      } else {
        var s := Static(t).elems;
        forall i | 0 <= i < |es|
          ensures Sized(s[i]) && Supported(s[i]) && Static(s[i]) == s[i]
        {
          StaticIdempotent(es[i]);
          StaticPreservesSized(es[i]);
        }
      }
    case Array(u, _) => StaticIdempotent(u); StaticPreservesSized(u);
    case Rc(u) => StaticIdempotent(u); StaticPreservesSized(u);
    case Weak(u) => StaticIdempotent(u); StaticPreservesSized(u);
    case _ =>
  }

  /** The outermost constructor of a type, with its lifetime erased and its components blanked
      out; array lengths and tuple arities are kept. */
  function Outer(t: Ty): Ty {
    match t
    case Ref(_, _) => Ref(StaticLt, Unit)
    case RefMut(_, _) => RefMut(StaticLt, Unit)
    case Slice(_) => Slice(Unit)
    case Boxed(_) => Boxed(Unit)
    case Vec(_) => Vec(Unit)
    case Tuple(es) => Tuple(seq(|es|, _ => Unit))
    case Array(_, n) => Array(Unit, n)
    case Rc(_) => Rc(Unit)
    case Weak(_) => Weak(Unit)
    case _ => t
  }

  /** Every rule except the one-field tuple rule keeps the outermost constructor: the same kind of
      reference, container or pointer, the same array length and the same tuple arity. */
  lemma StaticKeepsOuterShape(t: Ty)
    requires Supported(t)
    requires !(t.Tuple? && |t.elems| == 1)
    ensures Outer(Static(t)) == Outer(t)
  {
  }

  /** The trivial rules: the ten integer types, `str`, `String`, `bool` and `()` are their own
      representatives. */
  lemma TrivialTypesRepresentThemselves(k: IntKind)
    requires k != I128 && k != U128
    ensures Supported(Int(k)) && Static(Int(k)) == Int(k)
    ensures Static(Str) == Str && Static(String) == String
    ensures Static(Bool) == Bool && Static(Unit) == Unit
  {
  }

  /** Floats, `char`, 128-bit integers and types outside the table have no representative. */
  lemma NoRuleForOtherLeaves(name: string)
    ensures !Supported(F32) && !Supported(F64) && !Supported(Char)
    ensures !Supported(Int(I128)) && !Supported(Int(U128))
    ensures !Supported(Adt(name))
  {
  }

  /** Tuples are covered up to arity 5 and arrays up to length 32. */
  lemma SizeLimits(t: Ty, u: Ty)
    requires Supported(u) && Sized(u)
    ensures t.Tuple? && Supported(t) ==> |t.elems| <= 5
    ensures t.Array? && Supported(t) ==> t.len <= 32
    ensures Supported(Tuple([u, u, u, u, u]))
    ensures !Supported(Tuple([u, u, u, u, u, u]))
    ensures forall n: nat | n <= 32 :: Supported(Array(u, n))
    ensures !Supported(Array(u, 33))
  {
  }

  /** `str` has a representative of its own, but no rule accepts it behind a reference or
      pointer: `&str`, `&mut str`, `Box<str>`, `Rc<str>` and `Weak<str>` are rejected. */
  lemma StrPointeeRejected(l: Lifetime)
    ensures Supported(Str)
    ensures !Supported(Ref(l, Str)) && !Supported(RefMut(l, Str))
    ensures !Supported(Boxed(Str)) && !Supported(Rc(Str)) && !Supported(Weak(Str))
  {
    assert !Sized(Str);
  }

  /** The same holds for slices: `[T]` is supported, `&[T]` and `Box<[T]>` are not. */
  lemma SlicePointeeRejected(l: Lifetime, u: Ty)
    ensures Supported(Slice(Bool))
    ensures !Supported(Ref(l, Slice(u))) && !Supported(Boxed(Slice(u)))
  {
    assert !Sized(Slice(u));
  }

  /** Nor as an element or field: `Vec<[T]>`, `[[T]; 1]` and `(bool, str)` are rejected. */
  lemma UnsizedElementsRejected(u: Ty)
    ensures !Supported(Vec(Slice(u))) && !Supported(Array(Slice(u), 1)) && !Supported(Slice(Str))
    ensures !Supported(Tuple([Bool, Str]))
  {
    assert Tuple([Bool, Str]).elems[1] == Str;
  }

  /** References are rewritten to `'static`: `&'a T` is represented by `&'static T::Static`
      whatever `'a` is. */
  lemma ReferenceLifetimeErased(a: Lifetime, b: Lifetime, u: Ty)
    requires Supported(u) && Sized(u)
    ensures Static(Ref(a, u)) == Static(Ref(b, u)) == Ref(StaticLt, Static(u))
    ensures Static(RefMut(a, u)) == Static(RefMut(b, u)) == RefMut(StaticLt, Static(u))
    ensures Static(Ref(a, u)) != Static(RefMut(b, u))
  {
  }

  /** The quirk of lib.rs:163 on an example: `(i32,)` is represented by `i32`. */
  lemma OneTupleRepresentedByItsField(a: Ty)
    requires Supported(a) && Sized(a)
    ensures Supported(Tuple([a])) && Static(Tuple([a])) == Static(a)
    ensures Static(Tuple([Int(I32)])) == Int(I32)
  {
  }
}
