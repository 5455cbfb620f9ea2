/** `BoundedTypeId` (src/lib.rs:6-17): the `TypeId` of a type's representative, carried with a
    phantom lifetime. The phantom part holds no data and is always equal, so it is not modelled. */
module TypeIds {
  import opened Types
  import opened AsStatic

  /** `std::any::TypeId` of a `'static` type: two ids are equal exactly when the types are. */
  datatype TypeId = TypeId(ty: Ty)

  /** `BoundedTypeId<'a>`; its derived equality and hash look only at the `TypeId`. */
  datatype BoundedTypeId = BoundedTypeId(id: TypeId)

  /** The type arguments `BoundedTypeId::of` accepts: `T: AsStatic`, with the implicit `T: Sized`
      of a generic parameter, which turns away exactly `str` and slices among supported types. */
  predicate Identifiable(t: Ty)
    ensures Identifiable(t) <==> Supported(t) && !t.Str? && !t.Slice?
  {
    Sized(t) && Supported(t)
  }

  /** `BoundedTypeId::of::<T>()`. `TypeId::of` demands a `'static` type, which the
      representative always is. */
  function Of(t: Ty): (b: BoundedTypeId)
    requires Identifiable(t)
    ensures OutlivesStatic(b.id.ty)
  {
    BoundedTypeId(TypeId(Static(t)))
  }

  /** Two identifiers are equal exactly when the types agree once lifetimes are erased and
      one-field tuples are collapsed. */
  lemma OfEqualIff(t1: Ty, t2: Ty)
    requires Identifiable(t1) && Identifiable(t2)
    ensures Of(t1) == Of(t2)
        <==> CollapseOneTuples(EraseLifetimes(t1)) == CollapseOneTuples(EraseLifetimes(t2))
  {
    SameStaticIff(t1, t2);
  }

  /** The identifier does not depend on reference lifetimes: `of::<&'a T>() == of::<&'static T>()`. */
  lemma OfIgnoresLifetimes(t1: Ty, t2: Ty)
    requires Identifiable(t1)
    requires EraseLifetimes(t1) == EraseLifetimes(t2)
    ensures Identifiable(t2) && Of(t1) == Of(t2)
  {
    StaticIgnoresLifetimes(t1, t2);
    EraseKeepsSized(t1);
    EraseKeepsSized(t2);
  }

  /** A type and its representative have the same identifier. */
  lemma OfRepresentative(t: Ty)
    requires Identifiable(t)
    ensures Identifiable(Static(t)) && Of(Static(t)) == Of(t)
  {
    StaticIdempotent(t);
    StaticPreservesSized(t);
  }

  /** Distinct integer types have distinct identifiers, and `(i32,)` is identified with `i32`. */
  lemma IntegerIdExamples()
    ensures Of(Int(I32)) != Of(Int(U32)) && Of(Int(I64)) != Of(Int(Isize))
    ensures Of(Tuple([Int(I32)])) == Of(Int(I32))
  {
  }

  /** Tuples are identified field by field, in order. */
  lemma TupleIdExample()
    ensures Of(Tuple([Int(I32), Bool])) != Of(Tuple([Bool, Int(I32)]))
  {
    assert Static(Tuple([Int(I32), Bool])).elems[0] == Int(I32);
    assert Static(Tuple([Bool, Int(I32)])).elems[0] == Bool;
  }

  /** An array is identified as one unit: a different length or element type gives a different
      identifier. */
  lemma ArrayIdExamples()
    ensures Of(Array(Int(I32), 5)) != Of(Array(Int(I32), 4))
    ensures Of(Array(Int(I32), 5)) != Of(Array(Int(U32), 5))
  {
  }

  /** Lifetimes are ignored, but a borrowed string is not an owned one. */
  lemma BorrowIdExamples(a: Lifetime)
    ensures Of(Ref(a, String)) == Of(Ref(StaticLt, String))
    ensures Of(Array(Ref(a, String), 3)) != Of(Array(String, 3))
  {
  }
}
