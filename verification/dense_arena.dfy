/**
 * The bump arena of `dependent/dense_allocator.h`.  A `single_dense_allocator`
 * for cages of `sizeof_T` bytes serves requests, counted in cages, from the
 * head block of a chain of 4096-byte blocks; a request that does not fit
 * starts a new head block, and one larger than a block goes straight to the
 * backing allocator and is remembered in `to_delete_`.  `dense_allocators`
 * holds one sub-allocator per key, and a handler is a typed, non-owning view
 * onto the aggregate.
 *
 * Addresses are byte addresses; the backing allocator is a `Heap` that hands
 * out fresh regions above everything it handed out before.
 */
module DenseArena {
  import opened Machine

  /** `memory_block_size`. */
  const MemoryBlockSize: nat := 4096

  /** `cage_count`: the cages of `s` bytes a block holds. */
  function CageCount(s: nat): (r: nat)
    requires s > 0
    ensures Bytes(r, s) <= MemoryBlockSize < Bytes(r + 1, s)
  {
    QuotientIsDiv(MemoryBlockSize, s);
    BytesIsProduct(Quotient(MemoryBlockSize, s), s);
    BytesIsProduct(Quotient(MemoryBlockSize, s) + 1, s);
    Quotient(MemoryBlockSize, s)
  }

  /** The bytes `[lo, hi)`. */
  datatype Region = Region(lo: nat, hi: nat)

  predicate Disjoint(x: Region, y: Region) {
    x.hi <= y.lo || y.hi <= x.lo
  }

  ghost predicate PairwiseDisjoint(rs: seq<Region>) {
    forall i, j :: 0 <= i < j < |rs| ==> Disjoint(rs[i], rs[j])
  }

  /** One call on the backing allocator. */
  datatype HeapEvent = Took(r: Region) | Returned(r: Region)

  /** The backing allocator: every region it hands out lies at or above `top`. */
  class Heap {
    var top: nat
    ghost var log: seq<HeapEvent>

    constructor ()
      ensures top == 0 && log == []
    {
      top, log := 0, [];
    }

    method Allocate(bytes: nat) returns (addr: nat)
      modifies this
      ensures old(top) <= addr && top == addr + bytes
      ensures log == old(log) + [Took(Region(addr, addr + bytes))]
    {
      addr := top;
      top := top + bytes;
      log := log + [Took(Region(addr, addr + bytes))];
    }

    method Deallocate(addr: nat, bytes: nat)
      modifies this
      ensures top == old(top)
      ensures log == old(log) + [Returned(Region(addr, addr + bytes))]
    {
      log := log + [Returned(Region(addr, addr + bytes))];
    }
  }

  /** An entry of `to_delete_`: the pointer and the size in cages. */
  datatype Escape = Escape(addr: nat, count: nat)

  /** The regions of the blocks of `bytes` bytes starting at `blocks`, in order. */
  function BlockRegions(blocks: seq<nat>, bytes: nat): (r: seq<Region>)
    ensures |r| == |blocks|
  {
    if blocks == [] then []
    else BlockRegions(blocks[..|blocks| - 1], bytes) + [Region(blocks[|blocks| - 1], blocks[|blocks| - 1] + bytes)]
  }

  /** The regions of the escape entries for cages of `s` bytes, in order. */
  function EscapeRegions(es: seq<Escape>, s: nat): (r: seq<Region>)
    ensures |r| == |es|
  {
    if es == [] then []
    else EscapeRegions(es[..|es| - 1], s) + [Region(es[|es| - 1].addr, es[|es| - 1].addr + Bytes(es[|es| - 1].count, s))]
  }

  /** The `Returned` events for `rs`, in order. */
  function Returns(rs: seq<Region>): (r: seq<HeapEvent>)
    ensures |r| == |rs|
  {
    if rs == [] then [] else Returns(rs[..|rs| - 1]) + [Returned(rs[|rs| - 1])]
  }

  /** The i-th block region covers the i-th block. */
  lemma {:induction false} BlockRegionsInOrder(blocks: seq<nat>, bytes: nat)
    ensures forall i :: 0 <= i < |blocks| ==> BlockRegions(blocks, bytes)[i] == Region(blocks[i], blocks[i] + bytes)
  {
    if blocks != [] {
      BlockRegionsInOrder(blocks[..|blocks| - 1], bytes);
    }
  }

  /** The i-th escape region covers the i-th entry's cages. */
  lemma {:induction false} EscapeRegionsInOrder(es: seq<Escape>, s: nat)
    ensures forall i :: 0 <= i < |es| ==> EscapeRegions(es, s)[i] == Region(es[i].addr, es[i].addr + Bytes(es[i].count, s))
  {
    if es != [] {
      EscapeRegionsInOrder(es[..|es| - 1], s);
    }
  }

  /** The i-th event returns the i-th region. */
  lemma {:induction false} ReturnsInOrder(rs: seq<Region>)
    ensures forall i :: 0 <= i < |rs| ==> Returns(rs)[i] == Returned(rs[i])
  {
    if rs != [] {
      ReturnsInOrder(rs[..|rs| - 1]);
    }
  }

  lemma ReturnsSnoc(rs: seq<Region>, r: Region)
    ensures Returns(rs + [r]) == Returns(rs) + [Returned(r)]
  {
    assert (rs + [r])[..|rs|] == rs;
  }

  /**
   * Every region in `handed` lies below `top` and is disjoint from every
   * other one and from `free`.
   */
  ghost predicate Separate(handed: seq<Region>, free: Region, top: nat) {
    && PairwiseDisjoint(handed)
    && forall i :: 0 <= i < |handed| ==> handed[i].hi <= top && Disjoint(handed[i], free)
  }

  /** Handing out the front of the free part leaves the rest free. */
  lemma SeparateFit(handed: seq<Region>, top: nat, lo: nat, mid: nat, hi: nat)
    requires Separate(handed, Region(lo, hi), top) && lo <= mid <= hi <= top
    ensures Separate(handed + [Region(lo, mid)], Region(mid, hi), top)
  {
    var h' := handed + [Region(lo, mid)];
    assert forall i :: 0 <= i < |handed| ==> h'[i] == handed[i];
  }

  /** Handing out a region from above `top` keeps everything apart. */
  lemma SeparateFresh(handed: seq<Region>, free: Region, top: nat, r: Region, free': Region, top': nat)
    requires Separate(handed, free, top) && free.hi <= top
    requires top <= r.lo && r.hi <= top' && top <= top'
    requires free' == free || top <= free'.lo
    requires Disjoint(r, free')
    ensures Separate(handed + [r], free', top')
  {
    var h' := handed + [r];
    assert forall i :: 0 <= i < |handed| ==> h'[i] == handed[i];
  }

  /**
   * The arena invariant, over the sub-allocator's state and the heap's `top`:
   * the cursor lies in the head block, every region handed out so far is
   * disjoint from every other one and from the head block's free part.
   */
  ghost predicate ArenaInv(s: nat, cc: nat, blocks: seq<nat>, toDelete: seq<Escape>, tail: nat,
                           handed: seq<Region>, top: nat)
  {
    && s > 0 && cc == CageCount(s)
    && |blocks| >= 1 && tail <= cc
    && blocks[0] + Bytes(cc, s) <= top
    && Separate(handed, Region(blocks[0] + Bytes(tail, s), blocks[0] + Bytes(cc, s)), top)
  }

  /** The invariant survives the heap handing out more. */
  lemma ArenaInvGrows(s: nat, cc: nat, blocks: seq<nat>, toDelete: seq<Escape>, tail: nat,
                      handed: seq<Region>, top: nat, top': nat)
    requires ArenaInv(s, cc, blocks, toDelete, tail, handed, top) && top <= top'
    ensures ArenaInv(s, cc, blocks, toDelete, tail, handed, top')
  {
  }

  /** The fit path keeps the invariant: the served cages come out of the free part. */
  lemma FitKeeps(s: nat, cc: nat, blocks: seq<nat>, toDelete: seq<Escape>, tail: nat,
                 handed: seq<Region>, top: nat, size: nat)
    requires ArenaInv(s, cc, blocks, toDelete, tail, handed, top)
    requires size <= cc - tail
    ensures ArenaInv(s, cc, blocks, toDelete, tail + size,
                     handed + [Region(blocks[0] + Bytes(tail, s), blocks[0] + Bytes(tail, s) + Bytes(size, s))], top)
  {
    var lo, mid, hi := blocks[0] + Bytes(tail, s), blocks[0] + Bytes(tail + size, s), blocks[0] + Bytes(cc, s);
    BytesAdd(tail, size, s);
    assert mid == lo + Bytes(size, s);
    BytesMonotone(tail + size, cc, s);
    SeparateFit(handed, top, lo, mid, hi);
  }

  /** The new-block path keeps the invariant: the block `b` comes from above everything handed out. */
  lemma NewBlockKeeps(s: nat, cc: nat, blocks: seq<nat>, toDelete: seq<Escape>, tail: nat,
                      handed: seq<Region>, top: nat, size: nat, b: nat)
    requires ArenaInv(s, cc, blocks, toDelete, tail, handed, top)
    requires size <= cc && top <= b
    ensures ArenaInv(s, cc, [b] + blocks, toDelete, size,
                     handed + [Region(b, b + Bytes(size, s))], b + Bytes(cc, s))
  {
    BytesMonotone(size, cc, s);
    var blocks' := [b] + blocks;
    assert blocks'[0] == b;
    var free := Region(blocks[0] + Bytes(tail, s), blocks[0] + Bytes(cc, s));
    SeparateFresh(handed, free, top, Region(b, b + Bytes(size, s)),
                  Region(b + Bytes(size, s), b + Bytes(cc, s)), b + Bytes(cc, s));
  }

  /** The escape path keeps the invariant: the region at `b` comes from above everything handed out. */
  lemma EscapeKeeps(s: nat, cc: nat, blocks: seq<nat>, toDelete: seq<Escape>, tail: nat,
                    handed: seq<Region>, top: nat, size: nat, b: nat)
    requires ArenaInv(s, cc, blocks, toDelete, tail, handed, top)
    requires top <= b
    ensures ArenaInv(s, cc, blocks, toDelete + [Escape(b, size)], tail,
                     handed + [Region(b, b + Bytes(size, s))], b + Bytes(size, s))
  {
    var free := Region(blocks[0] + Bytes(tail, s), blocks[0] + Bytes(cc, s));
    SeparateFresh(handed, free, top, Region(b, b + Bytes(size, s)), free, b + Bytes(size, s));
  }

  /**
   * `static_cast<std::ptrdiff_t>(size)` for a 64-bit `size_t`: a size past
   * `PTRDIFF_MAX` wraps to a negative value.
   */
  function PtrdiffCast(size: nat): (r: int)
    requires size <= SizeMax
    ensures size <= PtrdiffMax ==> r == size
    ensures size > PtrdiffMax ==> r < 0 && r == size - (SizeMax + 1)
  {
    if size <= PtrdiffMax then size else size - (SizeMax + 1)
  }

  /** The fit test of `allocate` as written: the head block's free cages against the cast request. */
  predicate FitsAsWritten(free: nat, size: nat)
    requires size <= SizeMax
  {
    free >= PtrdiffCast(size)
  }

  /**
   * As written, a request for more than `PTRDIFF_MAX` cages passes the fit
   * test however little of the block is free, so the cursor is moved past
   * the block's end.
   */
  lemma HugeRequestPassesFitTest(free: nat, size: nat)
    requires PtrdiffMax < size <= SizeMax && free <= MemoryBlockSize
    ensures FitsAsWritten(free, size) && free < size
  {
  }

  /** Up to `PTRDIFF_MAX` cages the test as written is the plain comparison the model uses. */
  lemma FitTestAgrees(free: nat, size: nat)
    requires size <= PtrdiffMax
    ensures FitsAsWritten(free, size) <==> size <= free
  {
  }

  /** `detail::single_dense_allocator`, for cages of `cageSize` bytes. */
  class SingleDenseAllocator {
    const cageSize: nat
    const cageCount: nat
    /** The backing allocator (`memory_blocks_.get_allocator()`). */
    const heap: Heap
    /** `memory_blocks_`: block start addresses, head first. */
    var blocks: seq<nat>
    /** `to_delete_`. */
    var toDelete: seq<Escape>
    /** `tail_`, as a cage index into the head block. */
    var tail: nat
    /** Every region `allocate` has returned, in order. */
    ghost var handed: seq<Region>

    ghost predicate Inv(top: nat)
      reads this
    {
      ArenaInv(cageSize, cageCount, blocks, toDelete, tail, handed, top)
    }

    ghost predicate Valid()
      reads this, heap
    {
      Inv(heap.top)
    }

    /** The address `tail_` points at. */
    function Cursor(): nat
      reads this
      requires cageSize > 0 && |blocks| >= 1
    {
      blocks[0] + Bytes(tail, cageSize)
    }

    /** The constructor: one block at the head and the cursor at its start. */
    constructor (heap: Heap, s: nat)
      requires s > 0
      modifies heap
      ensures this.heap == heap && cageSize == s && cageCount == CageCount(s)
      ensures Valid()
      ensures |blocks| == 1 && old(heap.top) <= blocks[0] && tail == 0 && toDelete == []
      ensures handed == []
      ensures heap.top == blocks[0] + Bytes(cageCount, s)
      ensures heap.log == old(heap.log) + [Took(Region(blocks[0], blocks[0] + Bytes(cageCount, s)))]
    {
      var cc := CageCount(s);
      var b := heap.Allocate(Bytes(cc, s));
      cageSize, cageCount, this.heap := s, cc, heap;
      blocks, toDelete, tail := [b], [], 0;
      handed := [];
    }

    /** `fit_allocation(size)`: hand out the cursor and move it `size` cages on. */
    method FitAllocation(size: nat) returns (p: nat)
      requires cageSize > 0 && |blocks| >= 1
      modifies this
      ensures p == old(Cursor()) && tail == old(tail) + size
      ensures blocks == old(blocks) && toDelete == old(toDelete)
      ensures handed == old(handed)
    {
      p := blocks[0] + Bytes(tail, cageSize);
      tail := tail + size;
    }

    /**
     * `allocate(size)`: from the head block when `size` cages are left in
     * it; else from a new head block when `size` fits in a block; else from
     * the backing allocator, remembered in `to_delete_`.
     */
    method Allocate(size: nat) returns (p: nat)
      requires Valid()
      modifies this, heap
      ensures Valid() && old(heap.top) <= heap.top
      ensures handed == old(handed) + [Region(p, p + Bytes(size, cageSize))]
      ensures size <= old(cageCount - tail) ==>
        p == old(Cursor()) && tail == old(tail) + size && blocks == old(blocks) && toDelete == old(toDelete)
        && heap.top == old(heap.top) && heap.log == old(heap.log)
      ensures old(cageCount - tail) < size <= cageCount ==>
        old(heap.top) <= p && blocks == [p] + old(blocks) && tail == size && toDelete == old(toDelete)
        && heap.log == old(heap.log) + [Took(Region(p, p + Bytes(cageCount, cageSize)))]
      ensures cageCount < size ==>
        old(heap.top) <= p && blocks == old(blocks) && tail == old(tail) && toDelete == old(toDelete) + [Escape(p, size)]
        && heap.log == old(heap.log) + [Took(Region(p, p + Bytes(size, cageSize)))]
    {
      if cageCount - tail >= size {
        p := FromHead(size);
      } else if size <= cageCount {
        p := FromNewBlock(size);
      } else {
        p := FromBacking(size);
      }
    }

    /** The first branch of `allocate`: `size` cages are left in the head block. */
    method FromHead(size: nat) returns (p: nat)
      requires Valid() && size <= cageCount - tail
      modifies this
      ensures Valid() && heap.top == old(heap.top)
      ensures handed == old(handed) + [Region(p, p + Bytes(size, cageSize))]
      ensures p == old(Cursor()) && tail == old(tail) + size && blocks == old(blocks) && toDelete == old(toDelete)
    {
      FitKeeps(cageSize, cageCount, blocks, toDelete, tail, handed, heap.top, size);
      p := FitAllocation(size);
      handed := handed + [Region(p, p + Bytes(size, cageSize))];
    }

    /** The second branch of `allocate`: a new head block, served from its start. */
    method FromNewBlock(size: nat) returns (p: nat)
      requires Valid() && size <= cageCount
      modifies this, heap
      ensures Valid() && old(heap.top) <= heap.top
      ensures handed == old(handed) + [Region(p, p + Bytes(size, cageSize))]
      ensures old(heap.top) <= p && blocks == [p] + old(blocks) && tail == size && toDelete == old(toDelete)
      ensures heap.log == old(heap.log) + [Took(Region(p, p + Bytes(cageCount, cageSize)))]
    {
      ghost var top := heap.top;
      var b := heap.Allocate(Bytes(cageCount, cageSize));
      NewBlockKeeps(cageSize, cageCount, blocks, toDelete, tail, handed, top, size, b);
      blocks, tail := [b] + blocks, 0;
      p := FitAllocation(size);
      assert p == b;
      handed := handed + [Region(p, p + Bytes(size, cageSize))];
    }

    /** The third branch of `allocate`: straight from the backing allocator, remembered in `to_delete_`. */
    method FromBacking(size: nat) returns (p: nat)
      requires Valid()
      modifies this, heap
      ensures Valid() && old(heap.top) <= heap.top
      ensures handed == old(handed) + [Region(p, p + Bytes(size, cageSize))]
      ensures old(heap.top) <= p && blocks == old(blocks) && tail == old(tail) && toDelete == old(toDelete) + [Escape(p, size)]
      ensures heap.log == old(heap.log) + [Took(Region(p, p + Bytes(size, cageSize)))]
    {
      ghost var top := heap.top;
      p := heap.Allocate(Bytes(size, cageSize));
      EscapeKeeps(cageSize, cageCount, blocks, toDelete, tail, handed, top, size, p);
      toDelete := toDelete + [Escape(p, size)];
      handed := handed + [Region(p, p + Bytes(size, cageSize))];
    }

    /**
     * The destructor: return every `to_delete_` entry with its recorded
     * size, in order; then the block chain is destroyed, head first.
     */
    method Teardown()
      modifies heap
      ensures heap.top == old(heap.top)
      ensures heap.log == old(heap.log) + Returns(EscapeRegions(toDelete, cageSize))
                          + Returns(BlockRegions(blocks, Bytes(cageCount, cageSize)))
    {
      ReturnEscapes(heap, toDelete, cageSize);
      ReturnBlocks(heap, blocks, Bytes(cageCount, cageSize));
    }
  }

  /** The loop of the destructor: `deallocate(p.first, p.second)` for each entry, in order. */
  method ReturnEscapes(heap: Heap, es: seq<Escape>, s: nat)
    modifies heap
    ensures heap.top == old(heap.top)
    ensures heap.log == old(heap.log) + Returns(EscapeRegions(es, s))
  {
    var i := 0;
    while i < |es|
      invariant i <= |es| && heap.top == old(heap.top)
      invariant heap.log == old(heap.log) + Returns(EscapeRegions(es[..i], s))
    {
      heap.Deallocate(es[i].addr, Bytes(es[i].count, s));
      ReturnsSnoc(EscapeRegions(es[..i], s), Region(es[i].addr, es[i].addr + Bytes(es[i].count, s)));
      assert es[..i + 1][..i] == es[..i];
      i := i + 1;
    }
    assert es[..i] == es;
  }

  /** The destruction of `memory_blocks_`: each block of `bb` bytes returned, head first. */
  method ReturnBlocks(heap: Heap, blocks: seq<nat>, bb: nat)
    modifies heap
    ensures heap.top == old(heap.top)
    ensures heap.log == old(heap.log) + Returns(BlockRegions(blocks, bb))
  {
    var j := 0;
    while j < |blocks|
      invariant j <= |blocks| && heap.top == old(heap.top)
      invariant heap.log == old(heap.log) + Returns(BlockRegions(blocks[..j], bb))
    {
      heap.Deallocate(blocks[j], bb);
      ReturnsSnoc(BlockRegions(blocks[..j], bb), Region(blocks[j], blocks[j] + bb));
      assert blocks[..j + 1][..j] == blocks[..j];
      j := j + 1;
    }
    assert blocks[..j] == blocks;
  }

  // ----- dense_allocators and dense_allocator_handler -----

  /** An element type: its identity, `sizeof` and `alignof`. */
  datatype TypeDesc = TypeDesc(name: string, size: nat, align: nat)

  /** How the aggregate picks a sub-allocator for a type. */
  datatype Keying = ByShape | ByType

  datatype Key = ShapeKey(size: nat, align: nat) | TypeKey(t: TypeDesc)

  /** The sub-allocator key of `t`: its shape, or `t` itself. */
  function KeyOf(keying: Keying, t: TypeDesc): (k: Key)
    ensures KeySize(k) == t.size
  {
    match keying
    case ByShape => ShapeKey(t.size, t.align)
    case ByType => TypeKey(t)
  }

  /** The cage size of the sub-allocator a key names: `size` of a shape, `sizeof` of a type. */
  function KeySize(k: Key): nat {
    match k
    case ShapeKey(size, _) => size
    case TypeKey(t) => t.size
  }

  /**
   * `dense_allocators<Alloc, Ts...>`: one sub-allocator per key of the
   * types `Ts`, all on one backing allocator.
   */
  class DenseAllocators {
    const heap: Heap
    const keying: Keying
    /** `Ts...`. */
    const types: seq<TypeDesc>
    const subs: map<Key, SingleDenseAllocator>

    ghost predicate Valid()
      reads this, heap, subs.Values
    {
      && (forall i :: 0 <= i < |types| ==> KeyOf(keying, types[i]) in subs)
      && (forall k :: k in subs ==> subs[k].heap == heap && subs[k].cageSize == KeySize(k) && subs[k].Valid())
      && (forall k, j :: k in subs && j in subs && k != j ==> subs[k] != subs[j])
    }

    /**
     * The constructor: build the sub-allocators of `Ts...` in order.  Two
     * types with one key would make one base class twice, which the
     * language rejects.
     */
    constructor (heap: Heap, keying: Keying, types: seq<TypeDesc>)
      requires forall i :: 0 <= i < |types| ==> types[i].size > 0
      requires forall i, j :: 0 <= i < j < |types| ==> KeyOf(keying, types[i]) != KeyOf(keying, types[j])
      modifies heap
      ensures Valid() && this.heap == heap && this.keying == keying && this.types == types
      ensures Fresh(subs, heap)
    {
      var m := BuildSubAllocators(heap, keying, types);
      this.heap, this.keying, this.types, subs := heap, keying, types, m;
    }
  }

  /** The constructor's pack expansion: one fresh sub-allocator per key of `types`, in order. */
  method BuildSubAllocators(heap: Heap, keying: Keying, types: seq<TypeDesc>)
    returns (m: map<Key, SingleDenseAllocator>)
    requires forall i :: 0 <= i < |types| ==> types[i].size > 0
    requires forall i, j :: 0 <= i < j < |types| ==> KeyOf(keying, types[i]) != KeyOf(keying, types[j])
    modifies heap
    ensures forall i :: 0 <= i < |types| ==> KeyOf(keying, types[i]) in m
    ensures Fresh(m, heap)
  {
    m := map[];
    var i := 0;
    while i < |types|
      invariant i <= |types|
      invariant forall j :: 0 <= j < i ==> KeyOf(keying, types[j]) in m
      invariant forall j :: i <= j < |types| ==> KeyOf(keying, types[j]) !in m
      invariant Fresh(m, heap)
    {
      m := AddSubAllocator(heap, m, KeyOf(keying, types[i]), types[i].size);
      i := i + 1;
    }
  }

  /**
   * Distinct, valid sub-allocators on `heap`, each with the cage size its
   * key names, none of which has served anything yet.
   */
  ghost predicate Fresh(m: map<Key, SingleDenseAllocator>, heap: Heap)
    reads heap, m.Values
  {
    && (forall k :: k in m ==> m[k].heap == heap && m[k].cageSize == KeySize(k) && m[k].Valid() && m[k].handed == [] && m[k].toDelete == [])
    && (forall k, j :: k in m && j in m && k != j ==> m[k] != m[j])
  }

  /** One step of the constructor: the sub-allocator for key `k`, on the same heap. */
  method AddSubAllocator(heap: Heap, m: map<Key, SingleDenseAllocator>, k: Key, s: nat)
    returns (m': map<Key, SingleDenseAllocator>)
    requires Fresh(m, heap) && k !in m && s == KeySize(k) > 0
    modifies heap
    ensures Fresh(m', heap)
    ensures m'.Keys == m.Keys + {k} && fresh(m'[k])
    ensures forall j :: j in m ==> m'[j] == m[j]
  {
    ghost var top := heap.top;
    var sub := new SingleDenseAllocator(heap, s);
    forall j | j in m
      ensures m[j].Valid()
    {
      ArenaInvGrows(m[j].cageSize, m[j].cageCount, m[j].blocks, m[j].toDelete, m[j].tail, m[j].handed, top, heap.top);
    }
    m' := m[k := sub];
  }

  /** `dense_allocator_handler<T, ...>`: a non-owning view of `arena` for elements of type `elem`. */
  datatype Handler = Handler(arena: DenseAllocators, elem: TypeDesc)

  /** The rebinding constructor and assignment: the same arena, another element type. */
  function Rebind(h: Handler, u: TypeDesc): (r: Handler)
    ensures r.elem == u && HandlerEqual(r, h)
  {
    Handler(h.arena, u)
  }

  /** `operator==`: the same arena. */
  predicate HandlerEqual(x: Handler, y: Handler): (r: bool)
    ensures x == y ==> r
  {
    x.arena == y.arena
  }

  /** `operator!=`. */
  predicate HandlerNotEqual(x: Handler, y: Handler): (r: bool)
    ensures r ==> x != y
  {
    !HandlerEqual(x, y)
  }

  /**
   * `as_allocator_for_T<sizeof(T), alignof(T)>`: the sub-allocator that
   * serves `h`'s element type.  Keyed by shape, `T` need not be one of
   * `Ts`: any type with the size and alignment of one of them is served.
   */
  function SubFor(h: Handler): (sub: SingleDenseAllocator)
    reads h.arena, h.arena.heap, h.arena.subs.Values
    requires h.arena.Valid() && KeyOf(h.arena.keying, h.elem) in h.arena.subs
    ensures sub in h.arena.subs.Values && sub.heap == h.arena.heap && sub.cageSize == h.elem.size && sub.Valid()
  {
    h.arena.subs[KeyOf(h.arena.keying, h.elem)]
  }

  /**
   * `allocate(n)`: `n` cages from the sub-allocator for the element type;
   * every other sub-allocator is left as it was.
   */
  method HandlerAllocate(h: Handler, n: nat) returns (p: nat)
    requires h.arena.Valid() && KeyOf(h.arena.keying, h.elem) in h.arena.subs
    modifies SubFor(h), h.arena.heap
    ensures h.arena.Valid()
    ensures SubFor(h).handed == old(SubFor(h).handed) + [Region(p, p + Bytes(n, h.elem.size))]
  {
    var sub := h.arena.subs[KeyOf(h.arena.keying, h.elem)];
    ghost var top := h.arena.heap.top;
    p := sub.Allocate(n);
    forall k | k in h.arena.subs && k != KeyOf(h.arena.keying, h.elem)
      ensures h.arena.subs[k].Valid()
    {
      var o := h.arena.subs[k];
      ArenaInvGrows(o.cageSize, o.cageCount, o.blocks, o.toDelete, o.tail, o.handed, top, h.arena.heap.top);
    }
  }

  /** `deallocate`: memory goes back only when the arena is destroyed. */
  method HandlerDeallocate(h: Handler, p: nat, n: nat)
    requires h.arena.Valid()
    ensures h.arena.Valid()
  {
  }

  /**
   * Keyed by shape, a handler for any type `u` with the size and alignment
   * of `h`'s element type is served, and draws from the same sub-allocator,
   * hence the same cursor, whether or not `u` is one of `Ts`.
   */
  lemma SameShapeSharesCursor(h: Handler, u: TypeDesc)
    requires h.arena.Valid() && h.arena.keying == ByShape
    requires KeyOf(ByShape, h.elem) in h.arena.subs
    requires u.size == h.elem.size && u.align == h.elem.align
    ensures KeyOf(ByShape, u) in h.arena.subs && SubFor(Rebind(h, u)) == SubFor(h)
  {
  }

  /**
   * Keyed by shape, two served types draw from one sub-allocator exactly
   * when they have the same size and alignment.
   */
  lemma ShapeDispatch(h: Handler, u: TypeDesc)
    requires h.arena.Valid() && h.arena.keying == ByShape
    requires KeyOf(ByShape, h.elem) in h.arena.subs && KeyOf(ByShape, u) in h.arena.subs
    ensures SubFor(Rebind(h, u)) == SubFor(h) <==> (u.size == h.elem.size && u.align == h.elem.align)
  {
    if SubFor(Rebind(h, u)) == SubFor(h) {
      assert KeyOf(ByShape, u) == KeyOf(ByShape, h.elem);
    }
  }

  /**
   * The arena of `dense_allocators<A, char, unknown_type<48, 8>>` serves a
   * 48-byte, 8-aligned map node that is not among its types from the
   * cages of `unknown_type<48, 8>`, and `char` from a sub-allocator of its own.
   */
  method UnknownTypeServesNodes(heap: Heap) returns (arena: DenseAllocators)
    modifies heap
    ensures arena.Valid() && arena.keying == ByShape
    ensures var node := Handler(arena, TypeDesc("map node", 48, 8));
      && KeyOf(ByShape, node.elem) in arena.subs && KeyOf(ByShape, TypeDesc("char", 1, 1)) in arena.subs
      && SubFor(node).cageSize == 48
      && SubFor(node) == SubFor(Rebind(node, TypeDesc("unknown_type<48, 8>", 48, 8)))
      && SubFor(node) != SubFor(Rebind(node, TypeDesc("char", 1, 1)))
  {
    var storage := TypeDesc("unknown_type<48, 8>", 48, 8);
    var ch := TypeDesc("char", 1, 1);
    arena := new DenseAllocators(heap, ByShape, [ch, storage]);
    assert arena.types[0] == ch && arena.types[1] == storage;
    var node := Handler(arena, TypeDesc("map node", 48, 8));
    SameShapeSharesCursor(node, storage);
    ShapeDispatch(node, ch);
  }
}
