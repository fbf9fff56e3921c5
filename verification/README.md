# SimpleVector in Dafny

A model of `SimpleVector<Type>`, a hand-written growable array: one contiguous
buffer (`items_`) with a logical size (`size_`) and a capacity (`capacity_`).
The class invariant is that the buffer holds exactly `capacity_` slots and that the
first `size_` of them are the live elements. An operation that needs more room allocates a new
buffer, copies the live elements into it and swaps it in. A free-standing
`Reserve(n)` yields a `ReserveProxyObj` capacity hint for a reserving
constructor. Free operators compare two vectors for equality and in
lexicographic order.

The project has five modules:

- `VectorSpec` (vector_spec.dfy) gives the value-level meaning of Insert, Erase and
  Resize over `seq<int>`: `Inserted`, `Erased`, `Resized`, plus the default fill `Zeros`. It also gives the capacity
  rules: `GrowCapacity` is max(1, 2·capacity), and Resize uses max(new_size, 2·capacity).
  Lemmas cover the round trips and the amortized cost of appending.
- `Comparison` (comparison.dfy) holds `==`, `!=`, `<`, `<=`, `>` and `>=` as functions over
  the live elements. Lemmas show that `<` is lexicographic order and a strict total order.
  The meaning of the derived operators is in their own ensures: `<=` holds exactly when
  rhs is not less than lhs, `>` is the converse of `<`, and `>=` the converse of `<=`.
- `Vector` (simple_vector.dfy) holds the class `SimpleVector` with fields
  `items: array<int>`, `size` and `capacity`. Its invariant is `Valid()`: size ≤ capacity
  == buffer length. Its view is the ghost `Contents() == items[..size]`. Every mutator
  is a method that updates the object's fields and arrays, with loops (`Fill` is `std::fill`,
  `CopyInto` is `std::copy`, plus the shift loops of Insert and Erase).
  `Resize`, `Insert` and `Erase` are proved to turn `old(Contents())` into the
  matching `VectorSpec` function, and `PushBack` into `old(Contents()) + [item]`. `Resize`, `PushBack`, `Insert` and `Reserve` set
  capacity by the matching `VectorSpec` capacity rule. `PopBack`, `Clear`, `Swap` and
  the two assignments state their new contents and capacity directly in terms of the
  old state.
- `AsWritten` (as_written.dfy) models three code paths as written, over the fields taken
  as values. For move assignment only the left side's new state with distinct operands is
  modelled. See "## Findings".
- `Scenarios` (scenarios.dfy) holds clients that use only the contracts: insert then
  erase on a live vector, appending after copy or move assignment, and the usage
  sequences the container supports.

Elements are `int` with default value 0. The source fills with the literal `0`
(simple_vector.h:46, :125), so it only makes sense for numeric types. Iterators
are integer offsets from the start of the buffer. `At` returns
`Result<int>`, either `Ok(value)` or `Err(OutOfRange)`, instead of throwing
`std::out_of_range`.

The growth paths of `Resize`, `PushBack`, `Insert` and `Reserve` allocate a new
array and swap it in. Copy assignment also gets a freshly allocated array (copy and
swap), and move assignment takes over the right side's array and gives the right side
a new empty one. `Clear`, `PopBack`, `Erase` and the in-capacity paths work on the
array they have, and `Swap` exchanges the two arrays.

The model follows the code except in three places. First, the in-capacity branch
of `Resize` follows the comment at simple-vector/simple_vector.h:110-111: new
elements get the default value. Second, `Insert` has one growth path, the one of
the `const Type&` overload (simple-vector/simple_vector.h:255-265), which copies
the prefix into the new buffer. An rvalue argument such as `v.Insert(pos, 5)`
selects the `Type&&` overload, whose growth path at
simple-vector/simple_vector.h:277-287 moves the prefix onto itself instead.
Third, move assignment is corrected. At simple-vector/simple_vector.h:198-207 the
code sets `capacity_ = rhs.capacity_` over a buffer of only `rhs.size_` slots.
All three paths as written are kept in `AsWritten` (see "## Findings").

## Model

| member | source | states |
|---|---|---|
| `Vector.SimpleVector.constructor` | simple-vector/simple_vector.h:40 | the default vector has no elements and capacity 0 |
| `Vector.SimpleVector.Sized` | simple-vector/simple_vector.h:42-47 | `SimpleVector(n)` holds n zeros, size = capacity = n, in a fresh buffer |
| `Vector.SimpleVector.Filled` | simple-vector/simple_vector.h:50-53 | `SimpleVector(n, v)` holds n elements, each equal to v, with capacity n |
| `Vector.SimpleVector.FromList` | simple-vector/simple_vector.h:55-59 | the initializer-list constructor holds the list's elements in order, with capacity equal to the list's length |
| `Vector.Reserve` | simple-vector/simple_vector.h:15-32 | `Reserve(n)` yields a capacity hint carrying exactly n, which the reserving constructor consumes |
| `Vector.SimpleVector.Reserved` | simple-vector/simple_vector.h:179-181 | the constructor from `Reserve(n)` is empty and has capacity exactly n |
| `Vector.SimpleVector.Copy` | simple-vector/simple_vector.h:170-177 | the copy has equal contents and the same capacity, in a freshly allocated buffer |
| `Vector.SimpleVector.Moved` | simple-vector/simple_vector.h:191-196 | the move constructor takes over the source's buffer, elements and capacity, and leaves the source empty with capacity 0 |
| `Vector.SimpleVector.GetSize` | simple-vector/simple_vector.h:61-64 | the size is the number of live elements |
| `Vector.SimpleVector.GetCapacity` | simple-vector/simple_vector.h:66-69 | the capacity is never below the number of live elements |
| `Vector.SimpleVector.IsEmpty` | simple-vector/simple_vector.h:71-74 | true exactly when there are no live elements |
| `Vector.SimpleVector.Get` | simple-vector/simple_vector.h:76-84 | unchecked `operator[]` returns live element `index`; callers must keep `index` below the size |
| `Vector.SimpleVector.At` | simple-vector/simple_vector.h:86-103 | returns element `index` when `index < size`, otherwise the out-of-range error; a function, so the vector is unchanged |
| `Vector.SimpleVector.Resize` | simple-vector/simple_vector.h:110-132 | the new contents are `Resized(old, k)`: the prefix is kept and `[old_size, k)` is 0. Capacity is unchanged when k fits, otherwise it is max(k, 2·capacity) in a fresh buffer. Shrinking touches neither buffer nor elements |
| `Vector.SimpleVector.Clear` | simple-vector/simple_vector.h:105-108 | no live elements; same buffer, same capacity, elements in the buffer untouched |
| `Vector.SimpleVector.PushBack` | simple-vector/simple_vector.h:209-242 | contents become `old + [item]`. Capacity is unchanged while there is room (same buffer), otherwise it is max(1, 2·capacity) in a fresh buffer |
| `Vector.SimpleVector.Insert` | simple-vector/simple_vector.h:243-267 | contents become `old[..d] + [v] + old[d..]` and the result is d. Capacity grows to max(1, 2·capacity) only when the vector was full |
| `Vector.SimpleVector.PopBack` | simple-vector/simple_vector.h:291-295 | requires a non-empty vector; drops the last element and keeps buffer and capacity |
| `Vector.SimpleVector.Erase` | simple-vector/simple_vector.h:297-303 | contents become `old[..d] + old[d+1..]` and the result is d. Same buffer and capacity |
| `Vector.SimpleVector.Swap` | simple-vector/simple_vector.h:305-314 | exchanges buffer, contents and capacity of the two vectors |
| `Vector.SimpleVector.Reserve` | simple-vector/simple_vector.h:316-324 | contents are unchanged. Nothing happens if the request is at most the capacity; otherwise capacity becomes exactly the request, in a fresh buffer |
| `Vector.SimpleVector.CopyAssign` | simple-vector/simple_vector.h:183-189 | after copy-and-swap the left side has the right side's contents and capacity in a freshly allocated buffer of its own, and the right side is unchanged (self-assignment included) |
| `Vector.SimpleVector.MoveAssign` | simple-vector/simple_vector.h:198-207 | corrected move assignment: the left side gets the right side's contents and capacity and keeps size ≤ capacity == buffer length; a distinct right side hands over its buffer and is left empty, with capacity 0 and a fresh buffer |
| `VectorSpec.GrowCapacity` | simple-vector/simple_vector.h:218 | the growth rule max(1, 2·capacity) always gives strictly more room |
| `VectorSpec.PushCapacity` | simple-vector/simple_vector.h:213-224 | the capacity after one append never shrinks and always exceeds the old size |
| `VectorSpec.ResizeCapacity` | simple-vector/simple_vector.h:114-129 | the capacity after Resize is at least the old capacity and the new size, and is unchanged when the new size fits |
| `VectorSpec.ReserveCapacity` | simple-vector/simple_vector.h:316-323 | Reserve only raises capacity, and then to exactly the request |
| `VectorSpec.Zeros` | simple-vector/simple_vector.h:46 | the default fill: n elements, each 0 |
| `VectorSpec.InsertedAt` | simple-vector/simple_vector.h:247-267 | element by element, Insert keeps the prefix, puts v at d and moves the tail one slot right |
| `VectorSpec.ErasedAt` | simple-vector/simple_vector.h:298-303 | element by element, Erase keeps the prefix and moves the tail one slot left |
| `VectorSpec.ResizedAt` | simple-vector/simple_vector.h:110-132 | Resize(k) gives size k, keeps `[0, min(k, old_size))` and makes `[old_size, k)` 0 |
| `VectorSpec.EraseAfterInsert` | simple-vector/simple_vector.h:247-303 | erasing at the offset Insert returned restores the original contents |
| `VectorSpec.InsertAfterErase` | simple-vector/simple_vector.h:247-303 | re-inserting the erased element at its offset restores the original contents |
| `VectorSpec.ShrinkThenGrow` | simple-vector/simple_vector.h:112-130 | shrinking to k and growing back gives the kept prefix followed by zeros |
| `VectorSpec.CapacityAfterPushes` | simple-vector/simple_vector.h:209-226 | after k appends the capacity is at least the old capacity and at least the new size |
| `VectorSpec.PushesFromEmpty` | simple-vector/simple_vector.h:209-226 | n appends from empty leave capacity in [n, 2n) and copy fewer than 2n elements in all, so append is amortized constant time |
| `VectorSpec.ReservedPushesKeepCapacity` | simple-vector/simple_vector.h:213-216 | with room reserved for k more elements, k appends keep the capacity and copy nothing |
| `Scenarios.InsertThenErase` | simple-vector/simple_vector.h:247-303 | on a live vector, Insert then Erase at the returned offset leaves the contents as they were |
| `Scenarios.CopyAssignThenPush` | simple-vector/simple_vector.h:183-189 | after copy assignment, appending to the left side leaves the right side's contents unchanged |
| `Scenarios.MoveAssignThenPush` | simple-vector/simple_vector.h:198-207 | after corrected move assignment, appending to the left side leaves the right side empty |
| `Comparison.Equal` | simple-vector/simple_vector.h:333-339 | `==` holds exactly when the two vectors have the same size and the same elements in order |
| `Comparison.NotEqual` | simple-vector/simple_vector.h:341-347 | `!=` is the negation of `==` |
| `Comparison.LessIsLexicographic` | simple-vector/simple_vector.h:349-352 | `<` holds exactly when, after a common prefix, lhs ends first or has the smaller element |
| `Comparison.LessAsymmetric` | simple-vector/simple_vector.h:349-352 | `<` is asymmetric and irreflexive |
| `Comparison.LessTransitive` | simple-vector/simple_vector.h:349-352 | `<` is transitive |
| `Comparison.LessTrichotomy` | simple-vector/simple_vector.h:349-352 | any two vectors are related by `<` in one direction or are equal |
| `Comparison.Less` | simple-vector/simple_vector.h:349-352 | `<` (std::lexicographical_compare) never holds between equal vectors, and always holds when lhs is a proper prefix of rhs |
| `Comparison.LessOrEqual` | simple-vector/simple_vector.h:354-362 | `<=`, written as `==` or `<`, holds exactly when rhs is not less than lhs |
| `Comparison.Greater` | simple-vector/simple_vector.h:364-367 | `>`, written as not `<=`, is exactly the converse of `<` |
| `Comparison.GreaterOrEqual` | simple-vector/simple_vector.h:369-372 | `>=`, written as not `<`, is exactly the converse of `<=` |
| `AsWritten.ResizeInCapacity` | simple-vector/simple_vector.h:117-120 | the in-capacity Resize branch as written keeps the invariant and sets size to new_size |
| `AsWritten.ResizeInCapacityMatchesOnlyOnZeros` | simple-vector/simple_vector.h:117-120 | the written branch matches the documented result exactly when the first new_size slots of the buffer were already 0 |
| `AsWritten.ResizeInCapacityCounterexample` | simple-vector/simple_vector.h:117-120 | `[7]` with a stale 9, resized to 2, gives `[0, 9]` where `[7, 0]` is documented |
| `AsWritten.InsertMovedWhenFull` | simple-vector/simple_vector.h:277-287 | the written `Insert(pos, Type&&)` growth path still gives size + 1 and capacity max(1, 2·capacity) |
| `AsWritten.InsertMovedMatchesOnlyOnEqualPrefix` | simple-vector/simple_vector.h:277-287 | the written `Insert(pos, Type&&)` growth path inserts correctly exactly when the new buffer already holds the old prefix |
| `AsWritten.MoveAssign` | simple-vector/simple_vector.h:198-207 | move assignment as written gives a buffer holding only the right side's live elements (exactly size slots) while taking the right side's capacity |
| `AsWritten.MoveAssignValidOnlyWhenFull` | simple-vector/simple_vector.h:198-207 | the written move assignment carries the elements over, but keeps capacity == buffer length only when the right side had no spare capacity |

## Left out

- Vector.SimpleVector.Insert: takes `value` by value. In the source, the in-capacity branch of `Insert(ConstIterator, const Type&)` (simple-vector/simple_vector.h:250-251) shifts the tail before reading `value`. A reference to an element at k with pos < k < size then reads the shifted element: `Insert(0, v[1])` on `[a, b, c]` gives `[a, a, b, c]`, where the model gives `[b, a, b, c]`. That aliased case is not captured.
- Iterators (`begin`, `end`, `cbegin`, `cend`) and pointer identity are replaced by integer offsets. Iterator invalidation is therefore not modelled.
- Writes through the references returned by `operator[]` and `At` are not modelled: `Get` and `At` only read.
- The `Type&&` overloads of `PushBack` and `Insert` are not separate members. For `int`, moving is copying, so `PushBack(Type&&)` is `PushBack`. The growth path of `Insert(Type&&)` is in `AsWritten` (see "## Findings").
- Elements are `int` only. The generic `Type`, its move-vs-copy distinction and moved-from states are not modelled.
- `array_ptr.h` (`ArrayPtr<Type>`) is not part of this model. It appears as a Dafny `array<int>`; buffer swap is field exchange.
- Sizes and capacities are unbounded `nat`. The `size_t` wrap-around of `capacity_ * 2` is not modelled.
- Allocation failure, exceptions, the strong exception guarantee and `noexcept` are not modelled. The `assert` in `PopBack` becomes a `requires`.
- The self-check and copy-and-swap in copy assignment are modelled for their result only, not for exception safety.
- `Vector.SimpleVector.MoveAssign`: empties the right side as the move constructor at simple-vector/simple_vector.h:191-196 leaves its source (size 0, capacity 0). The code at simple-vector/simple_vector.h:198-207 says nothing about the right side's state and as written leaves its elements in place.

## Findings

| source | as written | input that shows it | evidently intended | confidence | as-written member | corrected member |
|---|---|---|---|---|---|---|
| simple-vector/simple_vector.h:117-120 | `Resize` with size < new_size ≤ capacity fills `[0, size)` with 0 and exposes `[size, new_size)` unchanged | buffer `[7, 9]`, size 1, capacity 2; `Resize(2)` yields `[0, 9]` | keep `[0, size)` and set `[size, new_size)` to 0, giving `[7, 0]` (comment at :110-111) | high, not executed | `AsWritten.ResizeInCapacityMatchesOnlyOnZeros` | `Vector.SimpleVector.Resize` |
| simple-vector/simple_vector.h:277-287 | `Insert(pos, Type&&)` on a full vector moves `[0, pos)` onto itself, so the new buffer never receives the prefix | `[7]` with capacity 1, `Insert(1, 5)` with a zero-initialised new buffer yields `[0, 5]` | copy the prefix into the new buffer, as the `const&` overload at :258 does, giving `[7, 5]` | high, not executed | `AsWritten.InsertMovedMatchesOnlyOnEqualPrefix` | `Vector.SimpleVector.Insert` |
| simple-vector/simple_vector.h:198-207 | move assignment builds a buffer of `rhs.size_` slots but sets `capacity_ = rhs.capacity_` | rhs of size 1 and capacity 2: the result has capacity 2 over a 1-slot buffer, so a following `PushBack` writes `items_[1]` out of bounds | capacity equal to the buffer length (here: take over rhs's buffer) and rhs left empty | high, not executed | `AsWritten.MoveAssignValidOnlyWhenFull` | `Vector.SimpleVector.MoveAssign` |
