# bounded-any, modelled in Dafny

`bounded-any` lets a Rust value whose type has a non-`'static` lifetime be type-identified and
downcast through `std::any`. Each supported type `T` gets a lifetime-erased representative
`T::Static` through the `unsafe trait AsStatic`. Identity checks compare the `TypeId` of that
representative. Downcasts hand back the original borrow, with its original lifetime.

The model treats Rust types as data:

- `types.dfy` (module `Types`): type shapes `Ty`. They include a lifetime label on `&` and `&mut`,
  and `()` is the empty tuple. The module also gives `Sized`, lifetime erasure (`EraseLifetimes`),
  the `'static` bound (`OutlivesStatic`) and `CollapseOneTuples`.
- `as_static.dfy` (module `AsStatic`): the closed table of `AsStatic` impls. `Supported(t)` says
  whether `t: AsStatic` holds. It includes the implicit `Sized` bound on every generic parameter.
  `Static(t)` is `<t as AsStatic>::Static`. The lemmas pin down the table's edges: the arity and
  length cut-offs, the `Sized` restrictions and the one-field tuple rule.
- `type_id.dfy` (module `TypeIds`): `TypeId` as equality of `'static` types, and
  `BoundedTypeId::of`.
- `bounded_any.dfy` (module `BoundedAny`): a `Place` is a heap cell owned by the caller. A
  `Borrow` is a reference to a place, read at some type. `BoundedAnyRef` is a value, like the
  `Copy` struct it models. `BoundedAnyMut` is a class whose `downcast_mut` gives back the same
  place, so writes through it land in the original.
- `wrappers.dfy`: `Option`.

The representative follows the code exactly, including its one-field tuple rule. That rule
(src/lib.rs:163) writes `(A::Static)`, which is a parenthesised type, not a tuple. So `(A,)` and
`A` share a representative, and `BoundedTypeId::of::<(i32,)>() == BoundedTypeId::of::<i32>()`.
The doc comments of `is` (src/lib.rs:37, 75) promise a check "disregarding lifetimes". The code
is coarser: two identifiers are equal exactly when the types agree after lifetimes are erased
and one-field tuples are collapsed (`TypeIds.OfEqualIff`). `&str` has no rule, because the
reference impl's `T` is implicitly `Sized`. So the borrowed-string example uses
`[&'a String; 3]` (`BoundedAny.BorrowedStringsView`).

## Model

| member | source | states |
|---|---|---|
| `AsStatic.Supported` | src/lib.rs:112-226 | `t: AsStatic` holds exactly when one impl of the table applies, each generic parameter being implicitly `Sized`; the only unsized supported types are `str` and slices |
| `AsStatic.Static` | src/lib.rs:112-226 | The representative of every supported type satisfies the trait's `'static` bound: no lifetime other than `'static` occurs in it |
| `AsStatic.StaticPreservesSized` | src/lib.rs:127-216 | The representative is sized exactly when the type is, so each `where T::Static: Sized` bound follows from the implicit `T: Sized` |
| `AsStatic.StaticIsCanonical` | src/lib.rs:117-226 | The representative equals an independent definition: erase every lifetime to `'static`, then collapse every one-field tuple |
| `AsStatic.SupportIgnoresLifetimes` | src/lib.rs:117-124 | Whether a type has an impl does not depend on its reference lifetimes |
| `AsStatic.StaticIgnoresLifetimes` | src/lib.rs:117-124 | Two types that differ only in reference lifetimes are both supported and have the same representative |
| `AsStatic.SameStaticIff` | src/lib.rs:117-226 | Two supported types share a representative if and only if they agree once lifetimes are erased and one-field tuples are collapsed |
| `AsStatic.StaticHasNoOneTuples` | src/lib.rs:160-164 | No representative contains a one-field tuple |
| `AsStatic.StaticIdempotent` | src/lib.rs:112-226 | A representative is itself supported and is its own representative |
| `AsStatic.StaticKeepsOuterShape` | src/lib.rs:117-226 | Every rule except the one-field tuple rule keeps the outer constructor: the same reference kind, container or pointer, the same array length and the same tuple arity |
| `AsStatic.TrivialTypesRepresentThemselves` | src/lib.rs:146-157 | The ten integer types, `str`, `String`, `bool` and `()` are their own representatives |
| `AsStatic.NoRuleForOtherLeaves` | src/lib.rs:146-157 | `f32`, `f64`, `char`, `i128`, `u128` and types outside the table have no representative |
| `AsStatic.SizeLimits` | src/lib.rs:160-216 | Supported tuples have at most 5 fields and supported arrays at most 32 elements; for every sized supported `T`, the 5-tuple of `T` and every `[T; n]` with `n <= 32` are in, the 6-tuple of `T` and `[T; 33]` are out |
| `AsStatic.StrPointeeRejected` | src/lib.rs:117-136 | `str` is supported, but `&str`, `&mut str`, `Box<str>`, `Rc<str>` and `Weak<str>` are not |
| `AsStatic.SlicePointeeRejected` | src/lib.rs:117-136 | `[bool]` is supported, but `&[T]` and `Box<[T]>` are not, for any `T` |
| `AsStatic.UnsizedElementsRejected` | src/lib.rs:127-216 | `Vec<[T]>`, `[[T]; 1]`, `[str]` and `(bool, str)` are not supported |
| `AsStatic.ReferenceLifetimeErased` | src/lib.rs:117-124 | `&'a T` maps to `&'static T::Static` and `&'a mut T` to `&'static mut T::Static` whatever `'a` is; shared and mutable references stay distinct |
| `AsStatic.OneTupleRepresentedByItsField` | src/lib.rs:160-164 | `(A,)` is supported when `A` is sized and supported, and its representative is `A`'s, e.g. `(i32,)` maps to `i32` |
| `TypeIds.Identifiable` | src/lib.rs:14 | The bound `T: AsStatic` with the implicit `T: Sized` accepts exactly the supported types other than `str` and slices |
| `TypeIds.Of` | src/lib.rs:12-16 | `BoundedTypeId::of::<T>()` holds the `TypeId` of a `'static` type |
| `TypeIds.OfEqualIff` | src/lib.rs:8-16 | Two identifiers are equal if and only if the types agree once lifetimes are erased and one-field tuples are collapsed |
| `TypeIds.OfIgnoresLifetimes` | src/lib.rs:12-16 | Types that differ only in lifetimes are both accepted by `of` and have equal identifiers |
| `TypeIds.OfRepresentative` | src/lib.rs:12-16 | A type and its representative have the same identifier |
| `TypeIds.IntegerIdExamples` | src/lib.rs:155-164 | `i32` and `u32` have different identifiers; `(i32,)` and `i32` have the same one |
| `TypeIds.TupleIdExample` | src/lib.rs:167-172 | `(i32, bool)` and `(bool, i32)` have different identifiers |
| `TypeIds.ArrayIdExamples` | src/lib.rs:206-216 | Arrays that differ in length or element type have different identifiers |
| `TypeIds.BorrowIdExamples` | src/lib.rs:117-119 | `&'a String` and `&'static String` share an identifier; `[&'a String; 3]` and `[String; 3]` do not |
| `BoundedAny.Viewable` | src/lib.rs:26-28 | The bounds of `from`, `is` and the downcasts (src/lib.rs:26-27, 38-39, 46-47, 64-65, 78-79, 88-89, 100-101): `T: AsStatic`, implicitly `Sized`, with `where T::Static: Sized`; this accepts exactly the types `BoundedTypeId::of` accepts |
| `BoundedAny.BoundedAnyRef.From` | src/lib.rs:26-33 | `from(&v)` views `v`'s own place, records `of::<T>()`'s `TypeId` in both fields, and the view `is::<T>()` |
| `BoundedAny.BoundedAnyRef.Is` | src/lib.rs:36-42 | `is::<U>()` holds exactly when the viewed value's dynamic `TypeId` is that of `of::<U>()` |
| `BoundedAny.BoundedAnyRef.DowncastRef` | src/lib.rs:45-54 | `downcast_ref::<U>()` is `Some` exactly when `is::<U>()` holds, and then borrows the original place at `U` |
| `BoundedAny.BoundedAnyMut.From` | src/lib.rs:64-71 | `from(&mut v)` views `v`'s own place, records `of::<T>()`'s `TypeId`, and the view `is::<T>()` |
| `BoundedAny.BoundedAnyMut.Is` | src/lib.rs:74-82 | `is::<U>()` on the exclusive view is the same test as on the shared view |
| `BoundedAny.BoundedAnyMut.DowncastRef` | src/lib.rs:85-96 | `downcast_ref::<U>()` is `Some` exactly when `is::<U>()` holds, and then borrows the original place at `U` |
| `BoundedAny.BoundedAnyMut.DowncastMut` | src/lib.rs:99-108 | `downcast_mut::<U>()` is `Some` exactly when `is::<U>()` holds and then mutably borrows the original place; it modifies neither the view nor the place |
| `BoundedAny.FromIsIff` | src/lib.rs:36-42 | On a view made from `&v: &T`, `is::<U>()` holds if and only if `U` and `T` agree up to lifetimes and one-field tuples |
| `BoundedAny.DowncastRefFrom` | src/lib.rs:45-54 | On a view made from `&v`, `downcast_ref::<U>()` gives `v`'s place exactly when `of::<U>() == of::<T>()` and otherwise nothing; `downcast_ref::<T>()` always gives `v`'s place |
| `BoundedAny.DowncastIgnoresLifetimes` | src/lib.rs:36-54 | Asking about two types that differ only in lifetimes gives the same `is` answer and the same downcast outcome |
| `BoundedAny.IntegerView` | src/lib.rs:26-54 | A view of an `i32` holding 42 is an `i32` and not a `u32`, and downcasting it to `i32` gives back the place holding 42 |
| `BoundedAny.ArrayView` | src/lib.rs:45-54 | A view of `[i32; 5]` downcasts to `[i32; 5]` only, not to `[i32; 4]` or `[u32; 5]` |
| `BoundedAny.BorrowedStringsView` | src/lib.rs:45-54 | A view of `[&'a String; 3]` does not downcast to `[String; 3]` but does to `[&'static String; 3]` |
| `BoundedAny.WriteThroughDowncast` | src/lib.rs:99-108 | A write through `downcast_mut::<U>()` on a view of `p` reaches `p` exactly when `of::<U>() == of::<T>()`; otherwise `p` is unchanged, and no other place is touched |

## Left out

- The unsafe pointer casts and the argument that a type and its representative share a memory
  layout (src/lib.rs:30, 52, 68, 94, 106). The model takes that argument as given: a view and
  every downcast keep the same place, and values are raw bytes with no per-type meaning.
- Lifetimes as borrow-checker constraints: the `T: 'a` bounds, `PhantomData<&'a ()>`, and how
  long views and borrows may live. Lifetimes appear only as labels inside reference types.
- The aliasing that `BoundedAnyMut` allows. `downcast_mut` can be called twice, and
  `downcast_ref` returns `&'a T` while the view still holds `&'a mut`. The code does not enforce
  exclusivity, so the model does not state it.
- The internals of `std::any::Any` and `TypeId`. A `TypeId` is modelled as the type itself, and
  `Any::is` and `Any::downcast_*` as a comparison with it.
- The derived `Clone`, `Copy`, `Debug` and `Hash` impls. Datatype equality stands for the derived
  `PartialEq`; hashing is a function of the same `TypeId`.
- Reference counting and weak upgrades of `Rc` and `Weak`. They appear only as type constructors.
- Impls of the public `AsStatic` trait written by other crates. The model is the crate's own
  closed table; any other nominal type (`Adt`) has no rule.
- Trait objects such as `dyn Trait`. They are not among the modelled type shapes.
- Tuples whose last field is unsized. `Sized` is modelled as "every field is sized". This agrees
  with Rust for every tuple the table can accept.
