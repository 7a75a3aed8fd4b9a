# SimpleVector in Dafny

A model of `SimpleVector<Type>`, a growable contiguous array. It owns one buffer,
a logical length and an allocated capacity. Its mutations (append, insert,
erase, resize, reserve, clear, pop) relocate elements inside the buffer or into
a freshly allocated one. Its capacity grows by the policy "1 if unallocated,
else double". The model also covers `ReserveProxyObj`, the capacity hint taken
by one constructor, and the free comparison operators.

Layout:

- `std_algorithms.dfy` (module `StdAlgorithms`): the relocation primitives the
  class calls on arrays. These are `std::copy`/`std::move`,
  `std::copy_backward`/`std::move_backward`, `std::fill` and the
  default-assignment loops.
- `vector_spec.dfy` (module `VectorSpec`): what each mutation means on the
  sequence of live elements (`Inserted`, `Erased`, `Resized`), the growth
  policy (`Grow`, `CapacityAfterPush`, `CapacityAfterResize`), and lemmas
  about them.
- `simple_vector.dfy` (module `Vectors`): the capacity hint and the class
  `SimpleVector<T>`. Its fields are `items: array<T>`, `size` and `capacity`.
  `Valid()` states `size <= capacity == items.Length`. `Elements()` is the
  live prefix `items[..size]`. Every method is proved against `Elements()`
  and the functions of `VectorSpec`, and a reallocation is a `fresh` array.
  Three client methods (`ScenarioGrowth`, `ScenarioResize`, `ScenarioCopy`)
  walk through typical call sequences using only the contracts.
- `compare.dfy` (module `VectorCompare`): `==`, `!=`, `<`, `<=`, `>`, `>=`
  on the live sequences of the two operands. The order is lexicographic over
  an element order `lt`.

Iterator positions are `nat` indices. The value-initialised element `Type{}`
is passed in as an argument: `dflt` for `Resize`, and `value` for the
size-only constructor, which is `Filled(n, Type{})`.

An insert into a vector with spare room does not reallocate
(simple-vector/simple_vector.h:240). `ScenarioGrowth` pushes 1, 2, 3, which
leaves capacity 4. It then inserts at position 1, and the capacity stays 4.

## Model

| member | source | states |
|---|---|---|
| StdAlgorithms.CopyForward | simple-vector/simple_vector.h:291 | copies a range front to back into a destination that starts at or left of the source, so overlapping shifts to the left are correct; nothing outside the destination range changes |
| StdAlgorithms.CopyBackward | simple-vector/simple_vector.h:241 | copies a range back to front so that it ends at a given slot, so overlapping shifts to the right are correct; nothing outside the destination range changes |
| StdAlgorithms.Fill | simple-vector/simple_vector.h:149-151 | every slot in the range holds the given value; every other slot is unchanged |
| VectorSpec.Grow | simple-vector/simple_vector.h:208 | the new capacity of a full vector is exactly 1 when it was unallocated and exactly twice the old capacity otherwise, so always at least 1 and at least twice the old capacity |
| VectorSpec.CapacityAfterPush | simple-vector/simple_vector.h:204-214 | the capacity after an append or insert always holds one more element; it is unchanged while there was room and follows the growth policy when the buffer was full |
| VectorSpec.CapacityAfterResize | simple-vector/simple_vector.h:147-160 | the capacity after Resize(n) is at least n and at least the old capacity, and is either the old capacity or exactly n |
| VectorSpec.InsertedAt | simple-vector/simple_vector.h:237-254 | after an insert at p the prefix before p is kept, the value sits at p, and the old suffix is moved one slot to the right |
| VectorSpec.ErasedAt | simple-vector/simple_vector.h:287-293 | after an erase at p the prefix before p is kept and the suffix after p is moved one slot to the left |
| VectorSpec.ResizedAt | simple-vector/simple_vector.h:146-163 | after Resize(n) the length is n, the first min(old size, n) elements are kept, and the new slots hold the default value |
| VectorSpec.EraseUndoesInsert | simple-vector/simple_vector.h:237-294 | erasing at the position just inserted at restores the original sequence |
| VectorSpec.InsertUndoesErase | simple-vector/simple_vector.h:237-294 | re-inserting an erased element at its old position restores the original sequence |
| VectorSpec.ResizeIdempotent | simple-vector/simple_vector.h:146-163 | a second Resize(n) with the same n changes neither the elements nor the capacity |
| VectorSpec.PushBackIsInsertAtEnd | simple-vector/simple_vector.h:203-254 | appending gives the same sequence as inserting at the end |
| VectorSpec.PopBackIsEraseAtEnd | simple-vector/simple_vector.h:281-294 | dropping the last element gives the same sequence as erasing it |
| VectorSpec.CapacityAfterPushesIsLeastPowerOfTwo | simple-vector/simple_vector.h:203-231 | after n >= 1 appends to an empty vector the capacity is a power of two, at least n and below 2n: 1, 2, 4, 4, 8, ... |
| Vectors.Reserve | simple-vector/simple_vector.h:12-30 | the hint built for a capacity gives back exactly that capacity |
| Vectors.SimpleVector.constructor | simple-vector/simple_vector.h:38 | a default-constructed vector is empty with capacity 0 |
| Vectors.SimpleVector.WithReserve | simple-vector/simple_vector.h:40-42 | a vector built from a hint is empty and its capacity is exactly the hinted one |
| Vectors.SimpleVector.Filled | simple-vector/simple_vector.h:45-57 | the vector holds n copies of the value, and its capacity is exactly n |
| Vectors.SimpleVector.FromList | simple-vector/simple_vector.h:60-66 | the vector holds the list's elements in order, and its capacity is the list's length |
| Vectors.SimpleVector.Copy | simple-vector/simple_vector.h:68-74 | the copy has the source's elements in a fresh buffer, and its capacity is the source's size |
| Vectors.SimpleVector.Move | simple-vector/simple_vector.h:76-81 | the new vector takes over the source's buffer, elements and capacity; the source is left empty with capacity 0 |
| Vectors.SimpleVector.CopyAssign | simple-vector/simple_vector.h:83-89 | the target gets the source's elements in a fresh buffer of capacity equal to the source's size; the source is unchanged; self-assignment changes nothing |
| Vectors.SimpleVector.MoveAssign | simple-vector/simple_vector.h:91-96 | target and source exchange buffers, sizes, capacities and elements |
| Vectors.SimpleVector.Swap | simple-vector/simple_vector.h:297-301 | the two vectors exchange buffers, sizes, capacities and elements; no element is moved |
| Vectors.SimpleVector.GetSize | simple-vector/simple_vector.h:99-101 | the result is the number of live elements |
| Vectors.SimpleVector.GetCapacity | simple-vector/simple_vector.h:104-106 | the result is the buffer length, and it is never below the number of live elements |
| Vectors.SimpleVector.IsEmpty | simple-vector/simple_vector.h:109-111 | the result is true exactly when there are no live elements |
| Vectors.SimpleVector.Get | simple-vector/simple_vector.h:114-123 | unchecked access, for callers that guarantee index < size, returns the element at index |
| Vectors.SimpleVector.Set | simple-vector/simple_vector.h:114-117 | a write through the returned reference replaces the element at index and nothing else |
| Vectors.SimpleVector.At | simple-vector/simple_vector.h:127-137 | checked access gives the out-of-range error exactly when index >= size, and otherwise the element at index |
| Vectors.SimpleVector.Clear | simple-vector/simple_vector.h:140-142 | there are no elements afterwards; the buffer and the capacity are kept |
| Vectors.SimpleVector.Resize | simple-vector/simple_vector.h:146-163 | the elements become the old ones truncated to n or padded with the default up to n; the capacity follows CapacityAfterResize; Resize to the current size changes nothing; a reallocation is a fresh buffer |
| Vectors.SimpleVector.PushBack | simple-vector/simple_vector.h:203-231 | the elements become the old ones followed by the value; the capacity follows CapacityAfterPush; the buffer is kept while there was room and is fresh otherwise |
| Vectors.SimpleVector.Insert | simple-vector/simple_vector.h:237-277 | the elements become prefix + [value] + suffix at pos; the returned position is pos and holds the value; the capacity follows CapacityAfterPush |
| Vectors.SimpleVector.PopBack | simple-vector/simple_vector.h:281-284 | on a non-empty vector the last element is dropped, the others are unchanged, and the buffer and capacity are kept |
| Vectors.SimpleVector.Erase | simple-vector/simple_vector.h:287-294 | the element at pos is removed and the rest close up; the buffer and capacity are kept; the returned position is pos |
| Vectors.SimpleVector.Reserve | simple-vector/simple_vector.h:303-310 | nothing changes when the request is not above the capacity; otherwise the capacity becomes exactly the request in a fresh buffer; the elements never change |
| VectorCompare.RangeEqual | simple-vector/simple_vector.h:322 | walking two equal-length ranges element by element answers true exactly when the ranges are equal |
| VectorCompare.Equal | simple-vector/simple_vector.h:319-323 | `==` holds exactly when the two element sequences are equal |
| VectorCompare.NotEqual | simple-vector/simple_vector.h:325-328 | `!=` holds exactly when the two element sequences differ |
| VectorCompare.LexLess | simple-vector/simple_vector.h:330-333 | `<` walks both sequences as `std::lexicographical_compare` does; nothing is less than the empty sequence, and a proper prefix is less than the longer sequence for any element order; its full meaning is LexLessMatchesSpec |
| VectorCompare.LessOrEqual | simple-vector/simple_vector.h:335-338 | `<=` is not (b < a); the empty sequence is `<=` everything and a sequence is not `<=` its proper prefixes; its full meaning is LessOrEqualMeansLessOrEqual |
| VectorCompare.Greater | simple-vector/simple_vector.h:340-343 | `>` is b < a; nothing is `>` the empty sequence and a sequence is `>` its proper prefixes; its full meaning is GreaterIsNotLessOrEqual |
| VectorCompare.GreaterOrEqual | simple-vector/simple_vector.h:345-348 | `>=` is not (a < b); everything is `>=` the empty sequence and a proper prefix is not `>=` the longer sequence; its full meaning is GreaterOrEqualMeansGreaterOrEqual |
| VectorCompare.GreaterIsNotLessOrEqual | simple-vector/simple_vector.h:335-343 | under a strict total element order, `>` holds exactly when neither a < b nor a == b, i.e. it is the complement of `<=` |
| VectorCompare.LexLessMatchesSpec | simple-vector/simple_vector.h:330-333 | under a strict total element order, `<` holds exactly when the left sequence is a proper prefix of the right, or is less at the first position where they differ |
| VectorCompare.LexLessIrreflexive | simple-vector/simple_vector.h:330-333 | no sequence is `<` itself |
| VectorCompare.LexLessTransitive | simple-vector/simple_vector.h:330-333 | `<` is transitive |
| VectorCompare.LexTrichotomy | simple-vector/simple_vector.h:330-333 | exactly one of a < b, a == b, b < a holds |
| VectorCompare.LessOrEqualMeansLessOrEqual | simple-vector/simple_vector.h:335-338 | `<=`, defined as not (b < a), holds exactly when a < b or a == b |
| VectorCompare.GreaterOrEqualMeansGreaterOrEqual | simple-vector/simple_vector.h:340-348 | `>=`, defined as not (a < b), holds exactly when a > b or a == b, with `>` defined as b < a |

## Left out

- `ArrayPtr<Type>` (array_ptr.h) is not part of this model. The buffer is a Dafny `array<T>` that the vector owns. What `ArrayPtr(n)` and `new Type[n]` put in the slots is not specified. The model says nothing about slots past `size`, except for the default fill that `Resize` performs.
- Allocation failure and exceptions are not modelled. Checked access returns `OutOfRange` as a value instead of throwing `std::out_of_range`.
- The `assert`s on index and position arguments (lines 115, 121, 238, 258, 282, 288) are preconditions. Violating them is undefined behaviour, not a modelled error.
- Integer width: `size_t` is unbounded `nat`. The model does not capture an overflow of `capacity_ * 2`.
- The copy and move overloads of `PushBack` and `Insert` are one method each. In a value model copying and moving an element are the same assignment.
- A `const Type&` argument that refers to an element of the same vector is not modelled. Arguments are values, so the effect of shifting the referenced element before it is read (the in-place path of `Insert`) is not captured.
- Iterators, `begin`/`end`/`cbegin`/`cend`, `const_cast` and `std::distance` are not modelled. Positions are indices.
- The mutable `At` reference is not modelled. Writes through a reference are modelled only for unchecked access (`Set`).
- Vectors.SimpleVector.Reserve: the source builds a temporary `SimpleVector(new_capacity)`, fills it with `Type{}`, moves the elements in and swaps. The model allocates the new buffer and relocates directly. The default fill of the slots past `size` is not stated, since nothing reads those slots.
- The comparison operators take the live sequences `Elements()` of the two vectors, not the vector objects.
- VectorCompare.LexLessMatchesSpec, LexLessIrreflexive, LexLessTransitive, LexTrichotomy: these assume the element `<` is a strict total order. `std::lexicographical_compare` needs only a strict weak ordering, and the model's `LexLess` itself works for any `lt`.
- VectorCompare.Equal: element equality is Dafny's `==`. The element type's `operator==`, which `std::equal` calls, is assumed to be identity, so an element that is not equal to itself (a floating-point NaN) is not modelled.
- VectorCompare.RangeEqual: compares elements with Dafny's `==`, not the element type's `operator==`, for the same reason.
- VectorCompare.NotEqual: is the negation of `Equal`, so it has the same assumption about element equality.
