# dependent-lib memory-layout primitives in Dafny

This project models the allocation-aware building blocks of the C++ library
dependent-lib and proves properties of the model.

**Compact sequence (`dependent::detail::leaky_vector` and `dependent::vector`).**
A write-once sequence that stores its element count inside its one
allocation:
- A small unsigned count field sits in the first element-sized unit.
- When the count reaches that field's maximum, the field holds the maximum as
  a marker. The real count then goes into an aligned `size_t` escape slot.
- The elements follow.

The model works on the buffer's bytes: an `array<byte>` at a base address
aligned to the element alignment. `size_t` has size 8 and alignment 8.

It covers the following (modules `LengthCodec`, `CompactSequence`, `Destruction`, `Memory`, `Lexicographic`):
- the width rule and the sizing rule;
- the write and read-back of the count;
- the iterator constructor, with its rollback when an element's construction fails;
- `size`, `as_span` and the comparison operators;
- `detail::destroy` and `vector::destroy`;
- the destroy dispatch of `allocator_adaptor_impl`.

The allocator is an object that records a log of allocate, construct, destroy
and deallocate events.

**Bump arena (`dependent/dense_allocator.h`, module `DenseArena`).**
`single_dense_allocator` serves requests, counted in cages, from three places:
- the head block of a chain of 4096-byte blocks;
- a new head block, when the request does not fit in the current one;
- the backing allocator, for a request larger than a block. Such a request is
  remembered in `to_delete_` and returned by the destructor.

`dense_allocators` holds one sub-allocator per (size, alignment) shape.
`dense_allocator_handler` is a typed, non-owning view onto the aggregate. A
handler for any type whose shape matches one of the arena's types is served,
as `unknown_type<size, alignment>` intends.
The backing allocator is a `Heap` that hands out fresh regions.

**Inline string (`dependent/limited_string.h`, module `LimitedString`).**
A fixed array of `max_size + 1` characters. The last character stores the
remaining capacity, offset by the character type's minimum. The model handles
the character type's width and signedness explicitly. It covers the wrap-around
of every cast, the constructors, `push_back` and comparison with a view.

**Allocation statistics (`dependent/utils/stats_allocator.h`, module `StatsAllocator`).**
- `area_stats` keeps one byte counter per type, in an intrusive list of nodes.
  A node is prepended on a type's first use.
- `total_allocated_size` sums the list with `size_t` wrap-around.
- `stats_allocator` reports `n * sizeof(T)` bytes on every allocate and deallocate.

**Legacy copies (`dependent.h` and `dense_allocator.h`, modules `LegacySequence` and `LegacyDenseArena`).**
These are older copies in namespace `dependent_lib`. The legacy sequence:
- shares the width and sizing rules;
- stores only a narrowed count, with no escape slot;
- places the elements at unit `space - n`;
- reads them from unit 1.

The legacy arena is the same state machine, keyed by exact type instead of by
shape. Both reuse the definitions they share with the current versions.

`Machine` holds what the rest rests on:
- little-endian stores and loads;
- `std::align`-style rounding;
- byte splicing;
- `Bytes(n, s)`, which is `n * s`, and the flattening of element sequences into bytes.

Where the code and its intent part ways, the model keeps both: an as-written
member with a lemma exhibiting the discrepancy, and a corrected member the
rest of the model uses. They are listed under "## Findings".

One detail follows the code rather than a plain reading of the sizing rule.
With one-byte elements, 254 elements need 255 units. A count of 255 already
takes the escape path: it reaches the marker, so it needs 272 units.
`LengthCodec.SourceSizingExamples` proves these two boundary cases beside
the sizes the unit tests assert (char 9, 99, 128, 256 and 3500; int32 3500,
uint32_max-1 and uint32_max); the tests themselves do not exercise 254 or 255.

## Model

| member | source | states |
|---|---|---|
| LengthCodec.SizeTypeMax | dependent/dependent.h:24-27 | the maximum of each candidate size type is one less than 256 to the power of its width |
| LengthCodec.SelectSizeType | dependent/dependent.h:29-36 | the width rule as written picks one of the four candidates uint8..uint64 |
| LengthCodec.WidthSelection | dependent/dependent.h:29-36 | the chosen width is the narrowest candidate at least as wide as the element, and 64 bits when the element is wider than 8 bytes |
| LengthCodec.WidthExamples | dependent/ut/dependent_ut.cpp:16-24 | int8..int64 get 1, 2, 4 and 8-byte counts and a 16-byte struct gets 8 |
| LengthCodec.SourceRequiredSpaceInTypes | dependent/dependent.h:41-49 | the sizing rule as written always reserves more units than elements |
| LengthCodec.SourceSizingExamples | dependent/ut/dependent_ut.cpp:32-43 | the sizes the unit tests assert: char 9, 99, 128, 256 and 3500 give 10, 100, 129, 273 and 3517; int32 3500 gives 3501; int32 at uint32_max-1 gives uint32_max and at uint32_max gives uint32_max+5; as extra boundary cases beyond the tests, char 254 gives 255 and char 255 gives 272 |
| LengthCodec.HeaderOverrunsUnit | dependent/dependent.h:29-49 | for element sizes 3, 5, 6 and 7 the count field as written is wider than an element, so it overruns a one-unit allocation |
| LengthCodec.FittingSizeType | dependent/dependent.h:29-36 | the corrected width rule also picks one of the four candidates |
| LengthCodec.HeaderFitsInUnit | dependent/dependent.h:29-36 | the corrected count field never exceeds one element and is the widest candidate that does not |
| LengthCodec.EscapeUnitsCover | dependent/dependent.h:41-49 | the escape units hold the 16 bytes of an aligned size_t slot and at least one unit |
| LengthCodec.CorrectedAgreesWithSource | dependent/dependent.h:29-49 | outside sizes 3, 5, 6, 7 the corrected width and sizing equal the rule as written for every count up to PTRDIFF_MAX |
| LengthCodec.BigSizeMarker | dependent/dependent.h:127-128 | the marker is the largest value of the count field: one less than 256 to the power of its width, at least 255 |
| LengthCodec.RequiredSpaceInTypes | dependent/dependent.h:41-49 | the corrected sizing reserves at least one unit beyond the elements, and at least two once the count reaches the marker |
| LengthCodec.UnalignedRead | dependent/dependent.h:99-117 | when both std::align calls succeed, the slot is size_t-aligned, at or after the pointer, and ends at or before the element pointer, which is element-aligned |
| LengthCodec.UnalignedReadShape | dependent/dependent.h:99-117 | for an element-aligned pointer neither assert fires, the slot is 8-aligned and starts within 8 bytes, and the returned element pointer is aligned, after the slot, and at most 16 bytes or one alignment past the pointer |
| LengthCodec.SlotAndElements | dependent/dependent.h:99-117 | the two roundings of unaligned_read put the slot before the elements, and the elements within 16 bytes or one alignment |
| LengthCodec.SmallAlignment | dependent/dependent.h:99-117 | with an alignment dividing 8 the elements follow the slot directly |
| LengthCodec.LargeAlignment | dependent/dependent.h:99-117 | with an alignment above 8 the slot is at the pointer and the elements one alignment later |
| LengthCodec.ElementsAfterSlot | dependent/dependent.h:108-114 | past alignment 8 the first aligned address after the slot is the pointer plus the alignment |
| LengthCodec.EscapeOffsets | dependent/dependent.h:140-150 | on the escape path the slot starts after the first unit, ends before the elements, and the elements are aligned |
| LengthCodec.PlanLayout | dependent/dependent.h:140-150 | unaligned_write_size uses an escape slot exactly when the count reaches big_size_marker |
| LengthCodec.LayoutInBounds | dependent/dependent.h:172-175 | the count field, the escape slot and the element range all lie inside required_allocation_size units, and the elements are aligned |
| LengthCodec.EscapeFits | dependent/dependent.h:41-49 | on the escape path the elements end within 1 + escape units + n units |
| LengthCodec.WriteSize | dependent/dependent.h:140-150 | writing the count keeps the buffer's length |
| LengthCodec.WriteThenRead | dependent/dependent.h:140-160 | begin_end after unaligned_write_size(n) yields count n and the element start the write returned, on both sides of the marker |
| LengthCodec.EscapeWriteShape | dependent/dependent.h:146-149 | on the escape path the count field holds the marker and the slot holds n |
| LengthCodec.ReadSmall | dependent/dependent.h:152-156 | a count field below the marker decodes to that count with elements at unit 1 |
| LengthCodec.ReadEscape | dependent/dependent.h:152-160 | a marker with n in the slot decodes to n with elements after the slot |
| LengthCodec.BeginEnd | dependent/dependent.h:152-165 | whatever it decodes, begin_end never places the elements inside the count field's unit |
| LengthCodec.BranchMatchesSizing | dependent/dependent.h:41-49 | the write's branch (dist < big_size_marker) is taken exactly when the sizing reserves n + 1 units |
| LengthCodec.BeginEndReadsHeaderOnly | dependent/dependent.h:152-160 | begin_end reads nothing at or after the first element, so writing elements leaves the decoded count unchanged |
| LengthCodec.ShortLayoutExamples | dependent/dependent.h:140-175 | five shorts follow a one-unit header in 6 units; a million shorts take the escape path with the count at offset 8 and elements from 16 |
| Memory.Allocator.constructor | dependent/dependent.h:179-181 | a fresh allocator has an empty log |
| Memory.Allocator.Allocate | dependent/dependent.h:179-181 | allocate returns an aligned fresh address and logs the allocation with its size |
| Memory.Allocator.Construct | dependent/dependent.h:186 | construct logs the construction of one object |
| Memory.Allocator.Destroy | dependent/dependent.h:51-56 | destroy logs the destruction of one object |
| Memory.Allocator.Deallocate | dependent/dependent.h:187-190 | deallocate logs the address and size returned |
| Memory.ConstructStep | dependent/dependent.h:186 | one more trip round the construction loop appends the construction of the next element |
| Memory.ConstructTraceOrder | dependent/dependent.h:186 | the construction loop builds the objects at f, f + s, ... in ascending order |
| Destruction.DestroyRangeAsWritten | dependent/dependent.h:51-56 | the loop as written logs the destruction of l, l - s, ..., f + s |
| Destruction.DestroyRange | dependent/dependent.h:51-56 | the intended loop logs the destruction of l - s, ..., f |
| Destruction.BaseTraceOrder | dependent/dependent.h:51-56 | the loop as written visits exactly n positions in strictly descending order, from l down to f + s |
| Destruction.ReverseTraceOrder | dependent/dependent.h:51-56 | the intended loop visits exactly n positions in descending order from l - s down to f |
| Destruction.DestroyUndoesConstruct | dependent/dependent.h:51-56 | the intended loop destroys exactly the constructed objects, the i-th destruction undoing construction n - 1 - i |
| Destruction.AsWrittenMissesFirst | dependent/dependent.h:51-56 | the loop as written destroys the one-past-the-end address, where nothing was built, and never the first object |
| Destruction.MaybeDestroy | dependent/dependent.h:63-71 | maybe_destroy makes at most the one self-destroy call |
| Destruction.AdaptorDestroy | dependent/dependent.h:83-93 | either destroy overload makes at most three calls and ends with the destructor of the whole object |
| Destruction.AdaptorDestroyDispatch | dependent/dependent.h:63-93 | the destructor runs once and last; self-destroy runs exactly for DependentType elements (or pair members); a pair handles first, then second, then itself |
| Lexicographic.Equal | dependent/dependent.h:206-211 | std::equal over two ranges holds iff the lengths are equal and the elements are pairwise equal |
| Lexicographic.EqualIsEquality | dependent/dependent.h:206-211 | over element equality, range equality is sequence equality |
| Lexicographic.LexLess | dependent/dependent.h:218-223 | nothing is less than an empty range, and an empty range is less than every non-empty one |
| Lexicographic.LexLessWitness | dependent/dependent.h:218-223 | lexicographical_compare holds iff after an equivalent common prefix x runs out first or has the smaller element |
| Lexicographic.LexIrreflexive | dependent/dependent.h:218-223 | over a strict weak order no range is less than itself |
| Lexicographic.LexTransitive | dependent/dependent.h:218-223 | over a strict weak order the lexicographic order is transitive |
| Lexicographic.EquivTransitive | dependent/dependent.h:218-223 | equivalence under a strict weak order is transitive |
| Lexicographic.LessThenEquiv | dependent/dependent.h:218-223 | less followed by equivalent is less |
| Lexicographic.EquivThenLess | dependent/dependent.h:218-223 | equivalent followed by less is less |
| Lexicographic.LexAsymmetric | dependent/dependent.h:218-223 | the lexicographic order is asymmetric |
| Lexicographic.LexTrichotomy | dependent/dependent.h:218-237 | over a total order at least one of less, equal, greater holds, less excludes equal and greater, and equal excludes less and greater: exactly one holds |
| CompactSequence.Store | dependent/dependent.h:140-150 | a header store changes exactly the bytes it writes |
| CompactSequence.UnalignedWriteSize | dependent/dependent.h:140-150 | the imperative write leaves the bytes WriteSize describes and returns the element start of the layout |
| CompactSequence.ConstructElements | dependent/dependent.h:185-186 | the construction loop copies the elements before the first failure into place after t_begin and logs one construction each |
| CompactSequence.ConstructOne | dependent/dependent.h:186 | one trip round the loop copies the next element and logs its construction |
| CompactSequence.ConstructedStep | dependent/dependent.h:186 | the loop's state after element k extends to element k + 1 |
| CompactSequence.ExtendWritten | dependent/dependent.h:186 | writing element k right after the first k extends the written bytes by that element |
| CompactSequence.AllocateWithHeader | dependent/dependent.h:179-183 | allocates required_allocation_size(n) units and writes a count that reads back as n |
| CompactSequence.BuildBuffer | dependent/dependent.h:177-186 | allocation, count and the elements up to the failing one, with the matching log |
| CompactSequence.RollBackAsWritten | dependent/dependent.h:187-190 | the catch block as written logs the as-written destroy of the built range, then returns the allocation with its allocated size |
| CompactSequence.RollBack | dependent/dependent.h:187-190 | the intended catch block destroys the built range last first, then returns the allocation with its allocated size |
| CompactSequence.BuildOrRollBackAsWritten | dependent/dependent.h:177-191 | the constructor body with the as-written rollback, over the corrected count width: without failure the elements read back as the source; with failure the log is the as-written rollback |
| CompactSequence.BuildOrRollBack | dependent/dependent.h:177-191 | the same with the intended rollback |
| CompactSequence.ElementsRoundTrip | dependent/dependent.h:201-204 | the bytes of the whole source split back into elements are the source |
| CompactSequence.CompactVector.Begin | dependent/dependent.h:152-165 | the decoded element start is the one the constructor wrote |
| CompactSequence.CompactVector.Size | dependent/dependent.h:167-170 | size() is the count the constructor wrote |
| CompactSequence.CompactVector.View | dependent/dependent.h:201-204 | as_span has size() elements of sizeof(T) bytes each |
| CompactSequence.CompactVector.constructor | dependent/dependent.h:177-191 | the constructor with its swallowed exception as written, over the corrected count width: without failure as_span equals the source and size() its length; with failure the object is left pointing at the freed allocation |
| CompactSequence.CompactVector.Adopt | dependent/dependent.h:177-191 | a sequence over a buffer that encodes n elements is valid with that layout |
| CompactSequence.CompactVector.TryConstruct | dependent/dependent.h:177-191 | the intended constructor reports failure exactly when an element throws, with its index; on success as_span equals the source; on failure the built elements are destroyed last first and the allocation returned |
| CompactSequence.CompactVector.Destroy | dependent/dependent.h:298-305 | vector::destroy with the corrected element destruction: destroys the elements last first, deallocates required_allocation_size(size()) units, exactly what was allocated, and nulls data_ |
| CompactSequence.Equal | dependent/dependent.h:206-211 | == holds iff the lengths are equal and the elements pairwise equal |
| CompactSequence.NotEqual | dependent/dependent.h:213-216 | sequences of different lengths are unequal |
| CompactSequence.Less | dependent/dependent.h:218-223 | nothing is less than an empty sequence |
| CompactSequence.Greater | dependent/dependent.h:225-227 | an empty sequence is greater than nothing |
| CompactSequence.LessEq | dependent/dependent.h:229-232 | an empty sequence is less than or equal to every sequence |
| CompactSequence.GreaterEq | dependent/dependent.h:234-237 | every sequence is greater than or equal to an empty one |
| CompactSequence.LessIsStrictOrder | dependent/dependent.h:218-223 | < is irreflexive, asymmetric and transitive when the element < is a strict weak order |
| CompactSequence.DerivedOperators | dependent/dependent.h:213-237 | >, <= and >= defined from < mean greater, less-or-equal and greater-or-equal, and != is < or > |
| CompactSequence.PublicEqualAsWritten | dependent/dependent.h:262-264 | the public operator== as written holds only when the right-hand side is non-empty, since it is < |
| CompactSequence.PublicEqualNotReflexive | dependent/dependent.h:262-264 | the public == as written is false for every sequence against itself, while the detail == is reflexive |
| LegacySequence.Narrow | dependent.h:185 | the stored count is dist modulo the field's range, equal to dist when it fits |
| LegacySequence.LegacyFits | dependent.h:181-187 | the count field and the elements lie inside the allocation, and the elements end exactly at the end of the used units |
| LegacySequence.LegacySmall | dependent.h:171-177 | small_size() reads a value the narrow count field can hold |
| LegacySequence.LegacySpan | dependent.h:205-207 | as_span starts at unit 1 and spans small_size() elements, below 256 to the power of the field width |
| LegacySequence.LegacyElements | dependent.h:205-207 | when the span lies inside the allocation it yields small_size() elements of sizeof(T) bytes each, and only then |
| LegacySequence.UnitBounds | dependent.h:181-187 | the byte counts of the leading units and the elements add up to the used units |
| LegacySequence.HeaderWithinSquare | dependent.h:183-185 | the count field fits in the space_in_types * sizeof(T) objects allocated |
| LegacySequence.LegacyImage | dependent.h:179-195 | the bytes after construction have the allocation's length |
| LegacySequence.LegacyRoundTrip | dependent.h:166-207 | the count reads back narrowed; as_span covers the written elements exactly when dist is below the field's maximum, and then holds the source |
| LegacySequence.LegacyHeaderIntact | dependent.h:171-185 | writing the elements leaves the narrowed count intact |
| LegacySequence.LegacyBeginPosition | dependent.h:181-187 | the elements start at unit 1 below the maximum and at unit 2 or later from it on |
| LegacySequence.LegacyElementsIntact | dependent.h:205-207 | below the maximum the span from unit 1 holds the source elements |
| LegacySequence.LegacyDeallocMatches | dependent.h:297-304 | vector::destroy returns as many objects as were allocated exactly when dist is below the maximum, and never more |
| LegacySequence.LegacyAllocateWithHeader | dependent.h:181-185 | allocates space_in_types * sizeof(T) objects and stores the narrowed count at their start |
| LegacySequence.LegacyElementOffset | dependent.h:187 | t_begin is unit space_in_types - dist |
| LegacySequence.LegacyBuildBuffer | dependent.h:179-190 | allocation, narrowed count and the elements up to the failing one from t_begin, with the matching log |
| LegacySequence.LegacyVector.constructor | dependent.h:179-195 | the constructor: valid when no element throws; otherwise the as-written rollback and a swallowed failure |
| LegacySequence.LegacyVector.Destroy | dependent.h:297-304 | destroys small_size() objects from unit 1 with detail::destroy as written, returns (small_size() + 1) * sizeof(T) objects, nulls data_ |
| LegacySequence.VectorLessAsWritten | dependent.h:306-310 | vector::operator< as written: true for every pair, whatever the elements |
| LegacySequence.VectorLessReflexive | dependent.h:306-310 | vector::operator< as written holds for a sequence against itself, while the lexicographic order over a strict weak order does not hold between its elements and themselves |
| DenseArena.CageCount | dependent/dense_allocator.h:12-18 | cage_count is the number of whole cages that fit in a 4096-byte block |
| DenseArena.Heap.constructor | dependent/dense_allocator.h:42-44 | the backing allocator starts with nothing handed out |
| DenseArena.Heap.Allocate | dependent/dense_allocator.h:70-71 | the backing allocator hands out a region above everything before it and logs it |
| DenseArena.Heap.Deallocate | dependent/dense_allocator.h:51-57 | returning a region logs it |
| DenseArena.BlockRegions | dependent/dense_allocator.h:28 | one region per block |
| DenseArena.EscapeRegions | dependent/dense_allocator.h:29-32 | one region per to_delete_ entry |
| DenseArena.Returns | dependent/dense_allocator.h:51-57 | one return event per region |
| DenseArena.BlockRegionsInOrder | dependent/dense_allocator.h:28 | the i-th region covers the i-th block's bytes, so the regions follow the chain order |
| DenseArena.EscapeRegionsInOrder | dependent/dense_allocator.h:29-32 | the i-th region covers the i-th to_delete_ entry's cages, in the list's order |
| DenseArena.ReturnsInOrder | dependent/dense_allocator.h:51-57 | the i-th return event returns the i-th region, so the deallocations follow the regions' order |
| DenseArena.ReturnsSnoc | dependent/dense_allocator.h:53-56 | returning one more region appends its event |
| DenseArena.SeparateFit | dependent/dense_allocator.h:35-39 | handing out the front of the free part keeps all handed-out regions disjoint and the rest free |
| DenseArena.SeparateFresh | dependent/dense_allocator.h:65-73 | a region taken from above everything keeps all handed-out regions disjoint |
| DenseArena.ArenaInvGrows | dependent/dense_allocator.h:59-74 | the arena invariant survives the backing allocator handing out more |
| DenseArena.FitKeeps | dependent/dense_allocator.h:61-63 | the fit path keeps the cursor in the head block and the handed-out regions disjoint |
| DenseArena.NewBlockKeeps | dependent/dense_allocator.h:65-68 | the new-block path keeps the invariant |
| DenseArena.EscapeKeeps | dependent/dense_allocator.h:70-73 | the escape path keeps the invariant |
| DenseArena.PtrdiffCast | dependent/dense_allocator.h:62 | the cast to ptrdiff_t is the identity up to PTRDIFF_MAX and negative past it |
| DenseArena.FitsAsWritten | dependent/dense_allocator.h:62 | the fit test as written, `free >= ptrdiff_t(size)`; what it means is stated by FitTestAgrees and HugeRequestPassesFitTest |
| DenseArena.HugeRequestPassesFitTest | dependent/dense_allocator.h:61-63 | as written a request past PTRDIFF_MAX cages passes the fit test however little is free |
| DenseArena.FitTestAgrees | dependent/dense_allocator.h:61-63 | up to PTRDIFF_MAX cages the fit test as written is "the request fits in the free cages" |
| DenseArena.SingleDenseAllocator.constructor | dependent/dense_allocator.h:42-46 | construction leaves one block in the chain, the cursor at its start and an empty escape list |
| DenseArena.SingleDenseAllocator.FitAllocation | dependent/dense_allocator.h:35-39 | fit_allocation returns the cursor and moves it size cages on, leaving chain and escape list alone |
| DenseArena.SingleDenseAllocator.Allocate | dependent/dense_allocator.h:59-74 | the three branches, with the corrected fit test: fit returns the old cursor and advances it; otherwise a size up to cage_count prepends one block and returns its start with the cursor at start + size; otherwise one (p, size) entry is appended to to_delete_; the invariant holds throughout |
| DenseArena.SingleDenseAllocator.FromHead | dependent/dense_allocator.h:61-63 | the fit branch |
| DenseArena.SingleDenseAllocator.FromNewBlock | dependent/dense_allocator.h:65-68 | the new-block branch prepends exactly one fresh block and serves from its start |
| DenseArena.SingleDenseAllocator.FromBacking | dependent/dense_allocator.h:70-73 | the escape branch appends exactly one entry with the requested size |
| DenseArena.SingleDenseAllocator.Teardown | dependent/dense_allocator.h:51-57 | the destructor returns every to_delete_ entry once with its recorded size, in order |
| DenseArena.ReturnEscapes | dependent/dense_allocator.h:53-56 | the destructor's loop returns each entry in order |
| DenseArena.ReturnBlocks | dependent/dense_allocator.h:28 | destroying the chain returns each block, head first |
| DenseArena.DenseAllocators.constructor | dependent/dense_allocator.h:97-99 | a valid, unused sub-allocator for the key of each of Ts, with cages of the key's size, distinct per key, all on one backing allocator |
| DenseArena.BuildSubAllocators | dependent/dense_allocator.h:97-99 | the base-class pack expansion builds an unused sub-allocator for the key of each type, with that key's cage size |
| DenseArena.KeyOf | dependent/dense_allocator.h:82-83 | a type's key names a sub-allocator whose cages are the type's size |
| DenseArena.AddSubAllocator | dependent/dense_allocator.h:97-99 | one step of the constructor adds the sub-allocator for one key and leaves the others alone |
| DenseArena.Rebind | dependent/dense_allocator.h:127-136 | rebinding keeps the arena pointer, so the rebound handler compares equal |
| DenseArena.HandlerEqual | dependent/dense_allocator.h:145-148 | a handler compares equal to itself |
| DenseArena.HandlerNotEqual | dependent/dense_allocator.h:150-153 | handlers that compare unequal are different handlers |
| DenseArena.SubFor | dependent/dense_allocator.h:92-95 | for any element type whose key has a sub-allocator, whether or not it is one of Ts, as_allocator_for_T yields that valid sub-allocator, with cages of sizeof(T), on the shared backing allocator |
| DenseArena.HandlerAllocate | dependent/dense_allocator.h:138-141 | allocate(n) for any served element type, including one matched only by shape, serves n cages from its sub-allocator and keeps every sub-allocator valid |
| DenseArena.HandlerDeallocate | dependent/dense_allocator.h:143 | deallocate changes nothing |
| DenseArena.SameShapeSharesCursor | dependent/dense_allocator.h:79-95 | keyed by shape, any type u with the size and alignment of a served type is served too, from the same sub-allocator and cursor, whether or not u is one of Ts |
| DenseArena.ShapeDispatch | dependent/dense_allocator.h:79-95 | keyed by shape, two served types share a sub-allocator exactly when their size and alignment agree |
| DenseArena.UnknownTypeServesNodes | dependent/ut/dependent_ut.cpp:157-176 | an arena over char and unknown_type<48, 8> serves a 48-byte, 8-aligned map node from the 48-byte cages, and char from a different sub-allocator |
| LegacyDenseArena.DistinctTypesSeparate | dense_allocator.h:83-94 | keyed by type, two different element types get different sub-allocators even with the same shape |
| LegacyDenseArena.AllocateLeavesOthers | dense_allocator.h:129-133 | allocating for one type leaves the cursor, chain and escape list of every other type alone |
| LimitedString.ToChar | dependent/limited_string.h:51-52 | the cast to Char lands in Char's range and is the identity there |
| LimitedString.ToUnsigned | dependent/limited_string.h:106 | the cast to the unsigned size type lands in its range and is the identity there |
| LimitedString.BackFor | dependent/limited_string.h:46-53 | the value set_size stores is a Char |
| LimitedString.CapacityOf | dependent/limited_string.h:101-107 | capacity() is an unsigned Char value |
| LimitedString.SizeOf | dependent/limited_string.h:100 | size() + capacity() == max_size() when the capacity is at most max_size; otherwise size wraps modulo the Char range |
| LimitedString.CapacityRoundTrip | dependent/limited_string.h:46-53 | after set_size(n) with n <= max_size, capacity() is max_size - n and size() is n; beyond, the capacity is max_size - n wrapped |
| LimitedString.DecrementStep | dependent/limited_string.h:135 | decrementing the last character lowers the capacity by one and raises the size by one |
| LimitedString.InputConstructorAsWritten | dependent/limited_string.h:55-58 | without set_size(0) the zeroed last character gives size 144 > max_size for a signed 8-bit Char and max_size 16 |
| LimitedString.BasicLimitedString.Capacity | dependent/limited_string.h:101-107 | capacity() is within the unsigned Char range |
| LimitedString.BasicLimitedString.Size | dependent/limited_string.h:100 | size() + capacity() == max_size() when the capacity is at most max_size; otherwise size wraps modulo the Char range |
| LimitedString.BasicLimitedString.MaxSize | dependent/limited_string.h:41-42 | max_size is below the unsigned maximum, leaving room for the capacity slot |
| LimitedString.BasicLimitedString.End | dependent/limited_string.h:114-118 | end() is begin() + size(), before the capacity slot |
| LimitedString.BasicLimitedString.View | dependent/limited_string.h:96-98 | the view is the first size() characters of data_ |
| LimitedString.BasicLimitedString.EqualsView | dependent/limited_string.h:139-145 | == with a view holds iff the sizes match and the first size() characters equal the view |
| LimitedString.BasicLimitedString.SetSize | dependent/limited_string.h:46-53 | set_size writes only the last slot, after which capacity is max_size - n and size is n |
| LimitedString.BasicLimitedString.constructor | dependent/limited_string.h:81 | the default string has size 0, capacity max_size and an empty view |
| LimitedString.BasicLimitedString.Fill | dependent/limited_string.h:83-87 | the fill constructor gives size n with every character x |
| LimitedString.BasicLimitedString.FromRange | dependent/limited_string.h:60-65 | the random-access constructor gives size l - f and contents equal to the source |
| LimitedString.BasicLimitedString.PushBack | dependent/limited_string.h:132-136 | with capacity left, push_back appends c to the view and lowers the capacity by one; with none, it overwrites the capacity slot |
| LimitedString.BasicLimitedString.FromInput | dependent/limited_string.h:55-58 | the input-iterator constructor with set_size(0) first gives size and contents equal to the source |
| LimitedString.Examples | dependent/ut/limited_string_ut.cpp:34-56 | the unit-test strings: default, "a", 16 times 'a' and 254 times 'a' have the sizes, capacities and contents the tests expect |
| StatsAllocator.SumUpdate | dependent/utils/stats_allocator.h:52-58 | changing one counter changes the sum by the difference |
| StatsAllocator.SumStep | dependent/utils/stats_allocator.h:54-56 | one step of the wrapped summation loop |
| StatsAllocator.WrapRoundTrip | dependent/utils/stats_allocator.h:60-68 | adding then subtracting n modulo 2^64 restores a counter |
| StatsAllocator.StatsNode.constructor | dependent/utils/stats_allocator.h:20-26 | a new node has counter 0 and links to the old list head |
| StatsAllocator.LinkedPush | dependent/utils/stats_allocator.h:24-25 | pushing a node whose next is the old head keeps the list well linked |
| StatsAllocator.CountersPush | dependent/utils/stats_allocator.h:24-25 | pushing a node puts its counter in front of the counters of the old list |
| StatsAllocator.AreaStats.Push | dependent/utils/stats_allocator.h:24-25 | a fresh zero node becomes the list head and the type's entry, and the footprint grows by that node only |
| StatsAllocator.AreaStats.AllocatedSize | dependent/utils/stats_allocator.h:21 | a counter is a size_t value |
| StatsAllocator.AreaStats.constructor | dependent/utils/stats_allocator.h:35-38 | an area starts with an empty list, every counter 0 and total 0 |
| StatsAllocator.AreaStats.StatsFor | dependent/utils/stats_allocator.h:40-44 | the first use of a type prepends exactly one zero node, later uses return the same node; no counter and not the total changes |
| StatsAllocator.AreaStats.Register | dependent/utils/stats_allocator.h:24-25 | registration prepends one fresh zero node and maps the type to it |
| StatsAllocator.AreaStats.Store | dependent/utils/stats_allocator.h:62 | storing a counter changes that node only |
| StatsAllocator.AreaStats.Bump | dependent/utils/stats_allocator.h:60-68 | adding a delta changes that type's counter and the total modulo 2^64, and no other counter |
| StatsAllocator.AreaStats.BumpNode | dependent/utils/stats_allocator.h:60-68 | the same on a registered node |
| StatsAllocator.AreaStats.ReportAllocation | dependent/utils/stats_allocator.h:60-63 | adds size to T's counter and to the total, modulo 2^64; other counters unchanged |
| StatsAllocator.AreaStats.ReportDeallocation | dependent/utils/stats_allocator.h:65-68 | subtracts size from T's counter and from the total with unsigned wrap-around; other counters unchanged |
| StatsAllocator.AreaStats.AllocatedSizeFor | dependent/utils/stats_allocator.h:47-50 | returns T's counter, 0 for a type not seen before |
| StatsAllocator.AreaStats.TotalAllocatedSize | dependent/utils/stats_allocator.h:52-58 | returns the sum of the counters of all registered nodes, modulo 2^64 |
| StatsAllocator.SumList | dependent/utils/stats_allocator.h:52-58 | the loop over the intrusive list sums its counters modulo 2^64 |
| StatsAllocator.Rebind | dependent/utils/stats_allocator.h:90-91 | the converting constructor keeps the area |
| StatsAllocator.ReportedBytes | dependent/utils/stats_allocator.h:94 | n * sizeof(T) in size_t, equal to the product when it fits |
| StatsAllocator.Allocate | dependent/utils/stats_allocator.h:93-96 | allocate(n) reports n * sizeof(T) bytes for T |
| StatsAllocator.Deallocate | dependent/utils/stats_allocator.h:98-101 | deallocate(p, n) reports n * sizeof(T) bytes removed for T |
| StatsAllocator.AllocateThenDeallocate | dependent/utils/stats_allocator.h:93-101 | allocate(n) then deallocate(n) restores every counter and the total |
| StatsAllocator.VectorReserveExample | dependent/ut/utils/stats_allocator_ut.cpp:61-69 | a vector of 100 ints: total 0, then 400 for the total and for int, then 0 again |

## Left out

- The iterator-category and `DependentType` detection traits are not modelled as code. An element's kind carries a `dependent` flag instead.
- `std::forward_list` node allocation, `std::scoped_allocator_adaptor` propagation and the standard allocators behind the arenas are not modelled. Both backing allocators are objects that hand out fresh addresses and log what they receive.
- Pointers, `reinterpret_cast` and `std::align` are byte offsets and explicit rounding. The count is stored little-endian.
- Exceptions are not modelled. An element whose construction throws is the index `failAt`. The intended constructor reports it as a `Failure` value.
- The allocator-extended move constructor of the sequence is not modelled. The range constructor only forwards to the iterator constructor, and the string-view constructor of `limited_string` is `FromRange`.
- `operator!=`, `<`, `>`, `<=`, `>=` state only their empty-sequence cases in their own contracts. What they mean over an element order is stated in `CompactSequence.DerivedOperators` and `CompactSequence.LessIsStrictOrder`. The public `leaky_vector` `!=` is the negation of the public `==` and inherits its defect; the public `<`, `>`, `<=` and `>=` forward to the detail ones. None of them is modelled separately.
- Elements are compared by caller-supplied functions, standing for the element type's `==` and `<`.
- The reverse iterators and the `std::hash` specialisation of `limited_string` are not modelled. Some of `rbegin`, `rend` and `crend` lack a `return` statement.
- `LimitedString.BasicLimitedString.Fill` and `FromRange` require the size to be at most `max_size`. The source states this only in a commented-out assert.
- `LimitedString.BasicLimitedString.PushBack` requires nothing about capacity. When the capacity is 0 it states only that the capacity slot is overwritten, not the resulting string.
- Character types are 8, 16 or 32 bits wide and signed or unsigned.
- `StatsAllocator.AreaStats.TotalAllocatedSize`: the total is proved equal to the wrapped sum over the list's nodes. It is not proved equal to the sum over the types registered so far.
- The pointer `std::allocator` returns from `stats_allocator::allocate`, and the allocation hint, are not modelled. Types are identified by name and carry their size.
- The area's list is a field of an object rather than a function-local static.
- Thread safety is not modelled. The code is single-threaded.
- `DenseArena.HandlerDeallocate` has no effect to state, because the source's `deallocate` is empty.
- Regions handed out by different sub-allocators of one arena are not proved disjoint. Disjointness is proved within each sub-allocator.
- `LegacySequence.LegacyRoundTrip` and `LegacySequence.LegacyDeallocMatches` require the count field to fit in one element. That excludes element sizes 3, 5, 6 and 7, where the header overrun of the width rule applies.
- `LegacySequence.LegacyHeaderIntact` requires the count field to fit in one element, like `LegacyRoundTrip`. For element sizes 3, 5, 6 and 7 the first element is written over the top bytes of the field, and the narrowed count is not claimed to read back.
- `LegacySequence.LegacyElementsIntact` has the same requirement. For element sizes 3, 5, 6 and 7 the elements are not claimed to read back.
- `CompactSequence.CompactVector.constructor` models the swallowed exception as written, but it writes the count with the corrected width `LengthCodec.FittingSizeType`. For element sizes 3, 5, 6 and 7 the source's wider count field overlaps element 0, and its `as_span` is not claimed to equal the source.
- `CompactSequence.BuildOrRollBackAsWritten` models the as-written rollback, but it uses the corrected count width as well. For element sizes 3, 5, 6 and 7 its read-back is that of the corrected layout, not the source's.
- `CompactSequence.CompactVector.Destroy` destroys the elements with the corrected `Destruction.DestroyRange`, last first down to the first. The source's `vector::destroy` calls the as-written `detail::destroy`, which visits l down to f+1; that behaviour is `Destruction.DestroyRangeAsWritten`.
- `DenseArena.SingleDenseAllocator.Allocate` uses the corrected fit test, a plain comparison. A request of more than `PTRDIFF_MAX` cages therefore goes to the backing allocator, where the source's cast test takes the fit branch (`DenseArena.HugeRequestPassesFitTest`). Up to `PTRDIFF_MAX` the two agree (`DenseArena.FitTestAgrees`).
- `DenseArena.DenseAllocators.constructor` does not state that its sub-allocators are newly allocated objects, nor that it creates a sub-allocator for no key other than those of `Ts`.
- The legacy iterator constructor's over-allocation (`space_in_types * sizeof(T)` objects of `T` instead of `space_in_types`) is modelled. No property beyond its bounds is claimed.
- Counts are at most `PTRDIFF_MAX`, as `std::distance` returns them. The sequence's 64-bit header therefore never takes the escape path.

## Findings

| source | as written | input that shows it | evidently intended | confidence | as-written member | corrected member |
|---|---|---|---|---|---|---|
| dependent/dependent.h:51-56 | `detail::destroy` passes `it.base()` to the allocator, which is one past the element the reverse iterator designates | any non-empty range [f, l): it destroys l, where nothing was built, and never f | destroy `&*it`, i.e. l - 1 down to f | high, not executed | Destruction.AsWrittenMissesFirst | Destruction.DestroyUndoesConstruct |
| dependent/dependent.h:262-264 | the public `leaky_vector::operator==` returns `x < y` | any sequence compared with itself is unequal | forward to the detail `==` | high, not executed | CompactSequence.PublicEqualNotReflexive | CompactSequence.DerivedOperators |
| dependent/dependent.h:187-190 | the `catch` block destroys and deallocates but does not rethrow, leaving `data_` pointing at freed memory | a source whose second element's copy throws | rethrow after cleanup | high, not executed | CompactSequence.CompactVector.constructor | CompactSequence.CompactVector.TryConstruct |
| dependent/dependent.h:29-49 | `select_size_type` picks a count field at least as wide as the element, so element sizes 3, 5, 6 and 7 get a field wider than a unit | an empty sequence of 3-byte elements: one 3-byte unit allocated, a 4-byte count written | a count field no wider than one element | high, not executed | LengthCodec.HeaderOverrunsUnit | LengthCodec.HeaderFitsInUnit |
| dependent/limited_string.h:55-58 | the input-iterator constructor never calls `set_size(0)`, so the zeroed last character decodes as capacity 128 for signed `char` | `limited_string<16>` built from an input iterator over "a": size() is 144 and `push_back` writes past the array | call `set_size(0)` before copying | high, not executed | LimitedString.InputConstructorAsWritten | LimitedString.BasicLimitedString.FromInput |
| dependent.h:306-310 | `vector::operator<` returns true for every pair | any vector compared with itself | the lexicographic order of the base | high, not executed | LegacySequence.VectorLessReflexive | CompactSequence.LessIsStrictOrder |
| dependent.h:179-207 | the legacy constructor stores the count narrowed to the small field, with no escape slot, and places the elements after the reserved escape units, while `as_span` reads the narrowed count from unit 1 | 255 one-byte elements: elements start at unit 17, the span reads 255 bytes from unit 1; likewise the 1,000,000 shorts of dependent/ut/dependent_ut.cpp:110-114 | the escape encoding of the current version | high, not executed | LegacySequence.LegacyRoundTrip | LengthCodec.WriteThenRead |
| dependent/dense_allocator.h:61-63 | the fit test casts the request to `ptrdiff_t`, which is negative past `PTRDIFF_MAX`, so any such request passes | `allocate(2^63)` on a fresh sub-allocator returns the cursor and moves it past the block | compare without the signed cast, sending the request to the backing allocator | medium, not executed | DenseArena.HugeRequestPassesFitTest | DenseArena.SingleDenseAllocator.Allocate |
