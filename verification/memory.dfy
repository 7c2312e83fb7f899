/**
 * The element allocator the sequences are built with (`std::allocator_traits`
 * over some `Alloc`), reduced to what the sequences observe: `allocate` hands
 * out a fresh aligned region, and every `allocate`, `construct`, `destroy` and
 * `deallocate` call is recorded, in order, in a log.
 */
module Memory {
  import opened Machine

  /** One allocator call: counts are in objects of the allocator's element type. */
  datatype Event =
    | Allocated(addr: nat, count: nat)
    | Constructed(addr: nat)
    | Destroyed(addr: nat)
    | Deallocated(addr: nat, count: nat)

  /** An allocator for objects of `elemSize` bytes aligned to `elemAlign`. */
  class Allocator {
    const elemSize: nat
    const elemAlign: nat
    /** Every address at or above `top` is unused. */
    var top: nat
    ghost var log: seq<Event>

    ghost predicate Valid()
      reads this
    {
      elemSize > 0 && elemAlign > 0
    }

    constructor (s: nat, a: nat)
      requires s > 0 && a > 0
      ensures Valid()
      ensures elemSize == s && elemAlign == a
      ensures top == 0 && log == []
    {
      elemSize, elemAlign := s, a;
      top, log := 0, [];
    }

    /** `allocate(count)`: a fresh aligned region of `count` objects above everything handed out so far. */
    method Allocate(count: nat) returns (addr: nat)
      requires Valid()
      modifies this
      ensures Valid() && addr % elemAlign == 0 && old(top) <= addr
      ensures top == addr + count * elemSize
      ensures log == old(log) + [Allocated(addr, count)]
    {
      addr := AlignUp(top, elemAlign);
      top := addr + count * elemSize;
      log := log + [Allocated(addr, count)];
    }

    /** `construct(p, ...)`: the object bytes themselves are written by the caller. */
    method Construct(addr: nat)
      modifies this
      ensures top == old(top)
      ensures log == old(log) + [Constructed(addr)]
    {
      log := log + [Constructed(addr)];
    }

    /** `destroy(p)`. */
    method Destroy(addr: nat)
      modifies this
      ensures top == old(top)
      ensures log == old(log) + [Destroyed(addr)]
    {
      log := log + [Destroyed(addr)];
    }

    /** `deallocate(p, count)`. */
    method Deallocate(addr: nat, count: nat)
      modifies this
      ensures top == old(top)
      ensures log == old(log) + [Deallocated(addr, count)]
    {
      log := log + [Deallocated(addr, count)];
    }
  }

  /** The events of constructing `n` objects of `s` bytes in order from `first`. */
  function ConstructTrace(first: nat, n: nat, s: nat): (r: seq<Event>)
  {
    if n == 0 then [] else ConstructTrace(first, n - 1, s) + [Constructed(first + Bytes(n - 1, s))]
  }

  /** One more construction appends one event to a log ending in the earlier ones. */
  lemma ConstructStep(log: seq<Event>, prior: seq<Event>, first: nat, n: nat, s: nat)
    requires log == prior + ConstructTrace(first, n, s)
    ensures log + [Constructed(first + Bytes(n, s))] == prior + ConstructTrace(first, n + 1, s)
  {
  }

  /** The `i`-th constructed object is the one at `first + i * s`. */
  lemma {:induction false} ConstructTraceOrder(first: nat, n: nat, s: nat)
    ensures |ConstructTrace(first, n, s)| == n
    ensures forall i :: 0 <= i < n ==> ConstructTrace(first, n, s)[i] == Constructed(first + i * s)
  {
    if n > 0 {
      ConstructTraceOrder(first, n - 1, s);
      BytesIsProduct(n - 1, s);
    }
  }
}
