/** `BoundedAnyRef` and `BoundedAnyMut` (src/lib.rs:20-109): views over a borrowed value that
    record its representative's `TypeId` and downcast back to the original storage.
    The storage is a heap cell (`Place`); a borrow of it at some type is a `Borrow`. That a value of
    `T` may be viewed in place as a `T::Static` is taken as given: a view keeps the same place. */
module BoundedAny {
  import opened Wrappers
  import opened Types
  import opened AsStatic
  import opened TypeIds

  /** The raw contents of a place. */
  type Bytes = seq<bv8>

  /** Caller-owned storage holding a value whose Rust type is `ty`. */
  class Place {
    const ty: Ty
    var value: Bytes

    constructor (ty: Ty, value: Bytes)
      ensures this.ty == ty && this.value == value
    {
      this.ty := ty;
      this.value := value;
    }
  }

  /** A reference `&'a U` or `&'a mut U`: the place it points to and the type it reads it at. */
  datatype Borrow = Borrow(target: Place, ty: Ty)

  /** `*r = v` through a mutable reference: the place changes and nothing else does. */
  method Store(r: Borrow, v: Bytes)
    modifies r.target
    ensures r.target.value == v
  {
    r.target.value := v;
  }

  /** `&'a Any` or `&'a mut Any`: a place together with the `TypeId` its vtable reports. */
  datatype AnyRef = AnyRef(target: Place, typeId: TypeId) {

    /** `Any::is::<R>()`. */
    predicate Is(r: Ty) {
      typeId == TypeId(r)
    }

    /** `Any::downcast_ref::<R>()` and `Any::downcast_mut::<R>()`: the same place read at `R`,
        when `R` is the dynamic type. */
    function Downcast(r: Ty): Option<Borrow> {
      if Is(r) then Some(Borrow(target, r)) else None
    }
  }

  /** The type arguments that `from`, `is` and the downcasts accept: `T: AsStatic`, implicitly
      `T: Sized`, and `where T::Static: Sized`. The explicit bound adds nothing to the implicit
      one, so these are exactly the types `BoundedTypeId::of` accepts. */
  predicate Viewable(t: Ty)
    ensures Viewable(t) <==> Identifiable(t)
  {
    Identifiable(t) && (StaticPreservesSized(t); Sized(Static(t)))
  }

  /** `BoundedAnyRef<'a>`: a shared view. It is `Copy`, so it is a value. */
  datatype BoundedAnyRef = BoundedAnyRef(any: AnyRef, typeId: TypeId) {

    /** `BoundedAnyRef::from(&'a T)`: the place reinterpreted as `T::Static` (so the `Any`
        reports `T::Static`), and `TypeId::of::<T::Static>()` alongside. */
    static function From(p: Place): (v: BoundedAnyRef)
      requires Viewable(p.ty)
      ensures v.any.target == p
      ensures v.typeId == v.any.typeId == Of(p.ty).id
      ensures v.Is(p.ty)
    {
      BoundedAnyRef(AnyRef(p, TypeId(Static(p.ty))), TypeId(Static(p.ty)))
    }

    /** `is::<U>()`: whether the viewed value's dynamic type is `U`'s representative. */
    function Is(u: Ty): (b: bool)
      requires Viewable(u)
      ensures b <==> any.typeId == Of(u).id
    {
      any.Is(Static(u))
    }

    /** `downcast_ref::<U>()`: the original place read at `U`, exactly when `is::<U>()`. */
    function DowncastRef(u: Ty): (r: Option<Borrow>)
      requires Viewable(u)
      ensures r.Some? <==> Is(u)
      ensures r.Some? ==> r.value == Borrow(any.target, u)
    {
      match any.Downcast(Static(u))
      case Some(s) => Some(Borrow(s.target, u))
      case None => None
    }
  }

  /** `BoundedAnyMut<'a>`: an exclusive view. Its fields are never reassigned. */
  class BoundedAnyMut {
    const any: AnyRef
    const typeId: TypeId

    /** `BoundedAnyMut::from(&'a mut T)`. */
    constructor From(p: Place)
      requires Viewable(p.ty)
      ensures any.target == p
      ensures typeId == any.typeId == Of(p.ty).id
      ensures Is(p.ty)
    {
      any := AnyRef(p, TypeId(Static(p.ty)));
      typeId := TypeId(Static(p.ty));
    }

    /** `is::<U>()`, the same test as on the shared view. */
    function Is(u: Ty): (b: bool)
      requires Viewable(u)
      ensures b <==> any.typeId == Of(u).id
    {
      any.Is(Static(u))
    }

    /** `downcast_ref::<U>()`: the original place read at `U`, exactly when `is::<U>()`. */
    function DowncastRef(u: Ty): (r: Option<Borrow>)
      requires Viewable(u)
      ensures r.Some? <==> Is(u)
      ensures r.Some? ==> r.value == Borrow(any.target, u)
    {
      match any.Downcast(Static(u))
      case Some(s) => Some(Borrow(s.target, u))
      case None => None
    }

    /** `downcast_mut::<U>()`: a mutable borrow of the original place at `U`, exactly when
        `is::<U>()`. It changes neither the view nor the place. */
    method DowncastMut(u: Ty) returns (r: Option<Borrow>)
      requires Viewable(u)
      ensures r.Some? <==> Is(u)
      ensures r.Some? ==> r.value == Borrow(any.target, u)
    {
      r := any.Downcast(Static(u));
      if r.Some? {
        r := Some(Borrow(r.value.target, u));
      }
    }
  }

  /** `is::<U>()` on a view made from a `&T` holds exactly when `U` and `T` agree up to lifetimes
      and one-field tuples. */
  lemma FromIsIff(p: Place, u: Ty)
    requires Viewable(p.ty) && Viewable(u)
    ensures BoundedAnyRef.From(p).Is(u)
        <==> CollapseOneTuples(EraseLifetimes(u)) == CollapseOneTuples(EraseLifetimes(p.ty))
  {
    OfEqualIff(u, p.ty);
  }

  /** A view made from `&v` downcasts to `v`'s own type, or to any type with the same identifier,
      giving back `v`'s place; to any other type it gives nothing. */
  lemma DowncastRefFrom(p: Place, u: Ty)
    requires Viewable(p.ty) && Viewable(u)
    ensures BoundedAnyRef.From(p).DowncastRef(u)
         == if Of(u) == Of(p.ty) then Some(Borrow(p, u)) else None
    ensures BoundedAnyRef.From(p).DowncastRef(p.ty) == Some(Borrow(p, p.ty))
  {
  }

  /** A view ignores the lifetimes in the type it is asked about. */
  lemma DowncastIgnoresLifetimes(p: Place, u1: Ty, u2: Ty)
    requires Viewable(p.ty) && Viewable(u1)
    requires EraseLifetimes(u1) == EraseLifetimes(u2)
    ensures Viewable(u2)
    ensures BoundedAnyRef.From(p).Is(u1) == BoundedAnyRef.From(p).Is(u2)
    ensures BoundedAnyRef.From(p).DowncastRef(u2).Some?
        <==> BoundedAnyRef.From(p).DowncastRef(u1).Some?
  {
    OfIgnoresLifetimes(u1, u2);
  }

  /** A view of a 32-bit integer holding 42: it is an `i32` and not a `u32`, and downcasting to
      `i32` gives back the place holding 42. */
  method IntegerView() returns (isI32: bool, isU32: bool, r: Option<Borrow>)
    ensures isI32 && !isU32
    ensures r.Some? && r.value.ty == Int(I32) && r.value.target.value == [42, 0, 0, 0]
  {
    var p := new Place(Int(I32), [42, 0, 0, 0]);
    var v := BoundedAnyRef.From(p);
    isI32 := v.Is(Int(I32));
    isU32 := v.Is(Int(U32));
    r := v.DowncastRef(Int(I32));
  }

  /** A view of `[i32; 5]` treats the array as one unit. */
  lemma ArrayView(p: Place)
    requires p.ty == Array(Int(I32), 5)
    ensures Viewable(p.ty)
    ensures BoundedAnyRef.From(p).DowncastRef(Array(Int(I32), 5)) == Some(Borrow(p, p.ty))
    ensures BoundedAnyRef.From(p).DowncastRef(Array(Int(I32), 4)).None?
    ensures BoundedAnyRef.From(p).DowncastRef(Array(Int(U32), 5)).None?
  {
    assert Static(p.ty) == p.ty;
    assert Static(Array(Int(I32), 4)) == Array(Int(I32), 4);
    assert Static(Array(Int(U32), 5)) == Array(Int(U32), 5);
  }

  /** A view of `[&'a String; 3]` is not a `[String; 3]`, but is a `[&'static String; 3]`. */
  lemma BorrowedStringsView(p: Place, a: Lifetime)
    requires p.ty == Array(Ref(a, String), 3)
    ensures Viewable(p.ty)
    ensures BoundedAnyRef.From(p).DowncastRef(Array(String, 3)).None?
    ensures BoundedAnyRef.From(p).DowncastRef(Array(Ref(StaticLt, String), 3)).Some?
  {
    assert Supported(Ref(a, String)) && Sized(Ref(a, String));
    assert Static(Ref(a, String)) == Ref(StaticLt, String);
    assert Static(p.ty) == Array(Ref(StaticLt, String), 3);
    assert Static(Array(Ref(StaticLt, String), 3)) == Array(Ref(StaticLt, String), 3);
    assert Static(Array(String, 3)) == Array(String, 3);
  }

  /** Writing through `downcast_mut` on a fresh exclusive view of `p`: when the types match the
      write lands in `p`, otherwise nothing changes; no other place is touched. */
  method WriteThroughDowncast(p: Place, u: Ty, v: Bytes) returns (ok: bool)
    requires Viewable(p.ty) && Viewable(u)
    modifies p
    ensures ok <==> Of(u) == Of(p.ty)
    ensures p.value == if ok then v else old(p.value)
  {
    var view := new BoundedAnyMut.From(p);
    var r := view.DowncastMut(u);
    ok := r.Some?;
    if ok {
      Store(r.value, v);
    }
  }
}
