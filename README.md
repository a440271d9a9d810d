# Advanced vector, modelled in Dafny

This project models `Vector<T>` from `advanced-vector/vector.h`. `Vector<T>` is a growable
contiguous container. It sits on an owning raw-storage handle, `RawMemory<T>`. The vector keeps
the handle and a count `size_` of live elements. Positions `[0, size_)` of the storage hold the
live elements. Everything after them is raw storage. When an insertion finds the vector full,
the capacity grows to `max(1, 2 * size)`. `Reserve` and `Resize` grow the storage to exactly the
size they are asked for. Insertion and erasure shift elements in place.

Layout:

- `vector_spec.dfy`, module `VectorSpec`: the abstract view. It defines the effect of each
  mutator on the sequence of live elements (`Inserted`, `Erased`, `Resized`) and the capacity
  rules (`ReservedCapacity`, `GrownCapacity`, `CapacityAfterPushes`). The lemmas give their
  round trips and the amortised doubling bound.
- `algorithms.dfy`, module `Algorithms`: the standard-library algorithms the class uses
  (`std::ranges::copy`, `std::ranges::move`, `std::ranges::move_backward`,
  `std::uninitialized_copy_n`/`_move_n`, `std::uninitialized_value_construct_n`). Each is an
  in-place loop over an array and is proved against slices of the old array.
- `vector.dfy`, module `AdvancedVector`: the classes `RawMemory` (a field `buffer: array<T>`
  whose length is the capacity) and `Vector` (fields `data: RawMemory<T>` and `size: nat`). The
  ghost function `Elems()` is `data.buffer[..size]`, and `Valid()` is `size <= capacity`. Each
  mutator states the new `Elems()` and the new capacity in terms of the old ones. A ghost counter
  `migrated` adds up the elements that reallocations move into new storage. Each
  reallocation allocates a fresh `RawMemory`, copies into it in a loop and installs it with
  `RawMemory.Swap`, as the source does.
- `scenarios.dfy`, module `Scenarios`: client methods that build vectors and read them back
  through `operator[]`. A caller proves these facts from the contracts alone: what a sequence of
  pushes gives, independent copies, emptied move sources, and the concrete behaviour of move
  assignment.

Iterators are integer positions in `[0, size]`. Value-initialisation `T()` appears as a
parameter `zero` of `Resize` and of the sized constructor.

## Model

| member | source | states |
|---|---|---|
| `VectorSpec.Inserted` | advanced-vector/vector.h:156-169 | inserting `v` at `k` gives one more element, `v` at `k`, the elements before `k` unchanged and those from `k` on shifted by one |
| `VectorSpec.Erased` | advanced-vector/vector.h:176-183 | erasing at `k` gives one fewer element, the elements before `k` unchanged and those after `k` shifted down by one |
| `VectorSpec.Resized` | advanced-vector/vector.h:222-247 | resizing to `n` gives exactly `n` elements: the old element where one existed, the value-initialised element elsewhere |
| `VectorSpec.ReservedCapacity` | advanced-vector/vector.h:205-208 | the capacity after a reservation is at least both the old capacity and the request, and equals one of them |
| `VectorSpec.GrownCapacity` | advanced-vector/vector.h:294 | the capacity chosen when a full vector grows always exceeds its size and never exceeds twice the size plus one |
| `VectorSpec.PushBackGrowth` | advanced-vector/vector.h:160-165 | after n > 0 pushes from empty, the capacity is a power of two in `[n, 2n)`. All reallocations together migrate capacity - 1 < 2n elements, so a push is amortised constant time |
| `VectorSpec.InsertedFromParts` | advanced-vector/vector.h:293-321 | storage whose first slots hold `s[..k]`, then `v`, then `s[k..]` holds `Inserted(s, k, v)`. Both the reallocating path and the in-place path build exactly this |
| `VectorSpec.EraseAfterInsert` | advanced-vector/vector.h:176-183 | erasing at `k` right after inserting at `k` restores the original sequence |
| `VectorSpec.InsertAfterErase` | advanced-vector/vector.h:156-169 | re-inserting the erased element at `k` restores the original sequence |
| `VectorSpec.InsertedElements` | advanced-vector/vector.h:156-169 | insertion adds exactly one occurrence of the new element to the multiset of elements |
| `VectorSpec.ErasedElements` | advanced-vector/vector.h:176-183 | erasure removes exactly one occurrence of the erased element from the multiset of elements |
| `VectorSpec.InsertedAtEnd` | advanced-vector/vector.h:171-174 | emplacing at `end()` appends |
| `VectorSpec.ResizedToSameSize` | advanced-vector/vector.h:222-230 | resizing to the current size leaves the sequence unchanged |
| `VectorSpec.ResizedGrowThenShrink` | advanced-vector/vector.h:222-247 | growing and then shrinking back to the old size restores the original sequence |
| `VectorSpec.ResizedTwice` | advanced-vector/vector.h:222-247 | resizing to `n` and then to `m <= n` equals resizing to `m` directly |
| `Algorithms.CopyN` | advanced-vector/vector.h:120-126 | copying `n` elements makes the target range equal the old source range. It leaves the rest of the target and the whole source unchanged, self-copy included |
| `Algorithms.Move` | advanced-vector/vector.h:178 | the left shift puts the old range `[first, last)` at `dFirst` and leaves everything outside the written range unchanged |
| `Algorithms.MoveBackward` | advanced-vector/vector.h:319 | the right shift puts the old range `[first, last)` so that it ends at `dLast` and leaves everything outside the written range unchanged |
| `Algorithms.ValueConstructN` | advanced-vector/vector.h:228 | the `n` slots receive the value-initialised element and everything else is unchanged |
| `AdvancedVector.RawMemory.constructor` | advanced-vector/vector.h:35-38 | allocates fresh storage of exactly the requested capacity |
| `AdvancedVector.RawMemory.Move` | advanced-vector/vector.h:20-24 | the new handle owns the old storage of `other`, and `other` is left with capacity 0 |
| `AdvancedVector.RawMemory.Capacity` | advanced-vector/vector.h:75-77 | the capacity is the number of element slots the storage provides |
| `AdvancedVector.RawMemory.Get` | advanced-vector/vector.h:53-60 | reads the slot at `index`, which must lie inside the storage (`index < capacity`) |
| `AdvancedVector.RawMemory.Swap` | advanced-vector/vector.h:62-65 | the two handles exchange their storage |
| `AdvancedVector.RawMemory.MoveAssign` | advanced-vector/vector.h:26-33 | self-assignment changes nothing. Otherwise this handle owns other's storage and `other` is left with capacity 0 |
| `AdvancedVector.Vector.constructor` | advanced-vector/vector.h:98 | a new vector is empty with capacity 0 |
| `AdvancedVector.Vector.Sized` | advanced-vector/vector.h:100-105 | `n` value-initialised elements in capacity exactly `n` |
| `AdvancedVector.Vector.Copy` | advanced-vector/vector.h:107-112 | the copy has the source's elements and capacity exactly equal to the source's size |
| `AdvancedVector.Vector.Move` | advanced-vector/vector.h:135-140 | the new vector has the source's elements, capacity and storage. The source is left valid, empty and with capacity 0 |
| `AdvancedVector.Vector.Capacity` | advanced-vector/vector.h:152-154 | the capacity is that of the owned storage and, on a valid vector, never falls below the size |
| `AdvancedVector.Vector.Size` | advanced-vector/vector.h:249-251 | the size is the number of live elements and never exceeds the capacity |
| `AdvancedVector.Vector.At` | advanced-vector/vector.h:258-265 | reading at a live index yields that element of the sequence |
| `AdvancedVector.Vector.Set` | advanced-vector/vector.h:262-265 | writing through `operator[]` replaces exactly that element |
| `AdvancedVector.Vector.Items` | advanced-vector/vector.h:267-289 | traversal from `begin()` to `end()` yields the live elements in order |
| `AdvancedVector.Vector.CopyAssign` | advanced-vector/vector.h:114-133 | the target's elements become the source's. Its capacity becomes the source's size if it was smaller. Otherwise the storage itself is kept. The source is unchanged, self-assignment included |
| `AdvancedVector.Vector.CopyInPlace` | advanced-vector/vector.h:119-128 | with enough capacity, the first `other.size` slots of the storage become other's elements, and other's storage is unchanged, self-assignment included |
| `AdvancedVector.Vector.MoveAssignAsWritten` | advanced-vector/vector.h:142-146 | a distinct source ends with size 0 and capacity 0. The target takes the source's storage but keeps its own old size. Self-move empties the vector |
| `AdvancedVector.Vector.MoveAssign` | advanced-vector/vector.h:142-146 | the corrected move assignment: the target gets the source's elements and capacity, the source is left valid and empty, and self-move changes nothing |
| `AdvancedVector.Vector.Emplace` | advanced-vector/vector.h:156-169 | the elements become `Inserted(old, pos, v)`. The result is `pos`. A full vector grows to `GrownCapacity(size)` and migrates its `size` elements; otherwise the storage itself is kept |
| `AdvancedVector.Vector.EmplaceBack` | advanced-vector/vector.h:171-174 | appends `v`, returns the index of the new element and follows the same capacity and storage rule |
| `AdvancedVector.Vector.Insert` | advanced-vector/vector.h:185-191 | same effect as `Emplace` with a copy of `v`, with the same capacity and storage rule |
| `AdvancedVector.Vector.PushBack` | advanced-vector/vector.h:197-203 | the elements become `old + [v]`, with the growth and storage rule of `Emplace` |
| `AdvancedVector.Vector.Erase` | advanced-vector/vector.h:176-183 | the elements become `Erased(old, pos)`, the result is `pos`, and the storage and capacity are unchanged |
| `AdvancedVector.Vector.PopBack` | advanced-vector/vector.h:193-195 | on a non-empty vector, drops the last element and keeps the storage |
| `AdvancedVector.Vector.Reserve` | advanced-vector/vector.h:205-220 | the elements are unchanged, and the capacity becomes `ReservedCapacity(old, n)`. When `n` does not exceed the capacity, the storage itself is untouched. Otherwise the `size` elements migrate to the new storage |
| `AdvancedVector.Vector.Resize` | advanced-vector/vector.h:222-247 | the elements become `Resized(old, n, zero)` and the capacity becomes `ReservedCapacity(old, n)`. When `n` fits in the capacity the storage itself is kept. Otherwise the `size` elements migrate to the new storage |
| `AdvancedVector.Vector.ReallocateAndFill` | advanced-vector/vector.h:231-244 | new storage of capacity exactly `newSize` whose first `newSize` slots are the old elements followed by value-initialised ones |
| `AdvancedVector.Vector.Swap` | advanced-vector/vector.h:253-256 | the two vectors exchange their storage, elements and capacities |
| `AdvancedVector.Vector.ReallocateAndEmbed` | advanced-vector/vector.h:292-308 | new storage of capacity `GrownCapacity(size)` whose first `size + 1` slots are the old elements with `v` inserted at `distance` |
| `AdvancedVector.Vector.Embed` | advanced-vector/vector.h:310-322 | inside the existing storage, the first `size + 1` slots become the old elements with `v` inserted at `pos` |
| `Scenarios.FromPushes` | advanced-vector/vector.h:197-203 | pushing a sequence into an empty vector gives exactly that sequence with capacity `CapacityAfterPushes`. The elements the vector's own reallocations migrated number `MigrationsAfterPushes`, one less than the capacity and so fewer than twice the pushes |
| `Scenarios.PushBackThenIndex` | advanced-vector/vector.h:262-265 | after any pushes, index `i` reads the i-th pushed value, and the size is the number of pushes |
| `Scenarios.InsertThenErase` | advanced-vector/vector.h:176-191 | `Insert` at `k` and then `Erase` at the returned position leave a vector's elements as they were |
| `Scenarios.PushThree` | advanced-vector/vector.h:156-174 | pushing 1, 2, 3 into an empty vector gives `[1, 2, 3]`, with capacities 1, 2, 4 after the three pushes |
| `Scenarios.InsertThenEraseFront` | advanced-vector/vector.h:156-183 | in `[1, 2, 3]`, inserting 99 at 1 gives `[1, 99, 2, 3]`, and erasing at 0 then gives `[99, 2, 3]` |
| `Scenarios.SizedConstruction` | advanced-vector/vector.h:100-105 | constructing with size 3 gives three value-initialised elements and capacity 3 |
| `Scenarios.CopyIsIndependent` | advanced-vector/vector.h:107-112 | writing into a copy leaves the original unchanged |
| `Scenarios.MoveConstruction` | advanced-vector/vector.h:135-140 | the moved-to vector holds the elements in order, and the source has size 0 and capacity 0 |
| `Scenarios.ReserveKeepsElements` | advanced-vector/vector.h:205-220 | reserving beyond the capacity keeps the elements and sets the capacity exactly |
| `Scenarios.MoveAssignAsWrittenKeepsStaleSize` | advanced-vector/vector.h:142-146 | as written, moving a 1-element vector into a 3-element one leaves size 3 over capacity 1 |
| `Scenarios.MoveAssignAsWrittenEmptiesOnSelf` | advanced-vector/vector.h:142-146 | as written, self-move of a 2-element vector leaves size 0 |
| `Scenarios.MoveAssignAdoptsSource` | advanced-vector/vector.h:142-146 | with the corrected assignment, the same target gets `[7]` with capacity 1, the source is empty, and self-move keeps `[5, 5]` |
| `Scenarios.CopyAssignIntoSmaller` | advanced-vector/vector.h:114-118 | copy-assigning 3 elements into a vector of capacity 1 gives those 3 elements with capacity 3, and the source is unchanged |
| `Scenarios.ResizeShrinkThenGrow` | advanced-vector/vector.h:222-247 | shrinking keeps the prefix in place. Growing past the capacity appends value-initialised elements with capacity exactly the new size |

## Left out

- Raw allocation and release (`operator new`/`operator delete`), the destructors of `RawMemory` and `Vector`, and the lifetime calls (`construct_at`, `destroy_at`, `destroy_n`, the `uninitialized_*` algorithms as object construction). Storage is a Dafny array, and constructing or destroying an element is an array write or nothing. Leaks and double destruction have no counterpart.
- Exception safety (the strong and basic guarantees) and element operations that fail. Dafny has no exceptions, so every operation runs to completion.
- The compile-time choice between moving and copying elements during reallocation (`is_nothrow_move_constructible_v`). Both branches give the same sequence of elements, and one copy loop stands for both.
- Moved-from elements. `std::ranges::move`, `std::ranges::move_backward` and `std::uninitialized_move_n` leave their source slots in a valid but unspecified state. The model copies, so those slots keep their old values. No live element can observe this: `Erase` destroys the vacated slot and `Embed` overwrites it.
- Iterators as raw addresses (`T*`), `begin`/`end`/`cbegin`/`cend`, the `const` overloads, `GetAddress` and `RawMemory::operator+`. Positions are indices. The bounds the source asserts (`offset <= capacity`, `index < capacity`, `index < size`) are preconditions.
- `std::size_t` width. Sizes and capacities are unbounded naturals, so the overflow of `2 * size` for huge sizes is not modelled.
- Variadic constructor arguments of `Emplace`/`EmplaceBack`. The element is passed as an already-built value `v`. An argument that refers to an element of the same vector therefore needs no special care.
- `EmplaceBack` returns a reference to the new element. The model returns its index.
- Value-initialisation `T()` is the parameter `zero`, and element types must have a default value in Dafny (`T(0)`), which stands for the arbitrary contents of raw storage.
- The default `RawMemory()` constructor is `RawMemory(0)`. The source gives both the same state.
- `PopBack` on an empty vector and `Erase(end())` are preconditions (`size > 0`, `pos < size`). The source leaves them undefined.
- Vectors that share storage with each other cannot arise in the source. `Swap`, `CopyAssign` and both move assignments therefore require two vectors to be the same object or to own disjoint objects.

## Findings

| source | as written | input that shows it | evidently intended | confidence | as-written member | corrected member |
|---|---|---|---|---|---|---|
| advanced-vector/vector.h:142-146 | move assignment sets `other.size_ = 0` and moves other's storage in, but never copies other's size into `size_`. It also never destroys the target's old elements, and it has no self-assignment guard | assigning a 1-element vector to a 3-element one leaves size 3 over storage for 1 element, so `operator[](2)` reads past the storage. `v = std::move(v)` on a 2-element vector leaves it empty | the target adopts the source's storage and size, the source is left empty, and self-move is a no-op | high (not executed) | `AdvancedVector.Vector.MoveAssignAsWritten`, exhibited by `Scenarios.MoveAssignAsWrittenKeepsStaleSize` and `Scenarios.MoveAssignAsWrittenEmptiesOnSelf` | `AdvancedVector.Vector.MoveAssign`, exercised by `Scenarios.MoveAssignAdoptsSource` |
