/**
 * The older arena of `dense_allocator.h`.  Its `single_dense_allocator` is
 * the one of `DenseArena` (cages of `sizeof(T)` bytes, the same three
 * allocation paths and the same teardown); what differs is that
 * `dense_allocators` holds one sub-allocator per element type rather than
 * per shape, so the aggregate is `DenseArena.DenseAllocators` built with
 * `ByType`.
 */
module LegacyDenseArena {
  import opened Machine
  import opened DenseArena

  /**
   * Keyed by type, handlers for two different element types on one arena
   * draw from two different sub-allocators, even when the types have the
   * same size and alignment.
   */
  lemma DistinctTypesSeparate(h: Handler, u: TypeDesc)
    requires h.arena.Valid() && h.arena.keying == ByType
    requires h.elem in h.arena.types && u in h.arena.types && u != h.elem
    ensures SubFor(Rebind(h, u)) != SubFor(h)
  {
    assert KeyOf(ByType, u) != KeyOf(ByType, h.elem);
  }

  /**
   * `allocate(n)` through a handler for one type leaves the cursor, the
   * chain and the escape list of every other type's sub-allocator alone.
   */
  method AllocateLeavesOthers(h: Handler, u: TypeDesc, n: nat) returns (p: nat)
    requires h.arena.Valid() && h.arena.keying == ByType
    requires h.elem in h.arena.types && u in h.arena.types && u != h.elem
    modifies SubFor(h), h.arena.heap
    ensures h.arena.Valid()
    ensures SubFor(h).handed == old(SubFor(h).handed) + [Region(p, p + Bytes(n, h.elem.size))]
    ensures SubFor(Rebind(h, u)).tail == old(SubFor(Rebind(h, u)).tail)
    ensures SubFor(Rebind(h, u)).blocks == old(SubFor(Rebind(h, u)).blocks)
    ensures SubFor(Rebind(h, u)).toDelete == old(SubFor(Rebind(h, u)).toDelete)
  {
    DistinctTypesSeparate(h, u);
    p := HandlerAllocate(h, n);
  }
}
