/**
 * The older compact sequence of namespace `dependent_lib`.  It shares the
 * width rule as written (`SelectSizeType`), the sizing rule
 * (`SourceRequiredSpaceInTypes`), the construction loop, `detail::destroy` and
 * the `allocator_adaptor_impl` dispatch with the current one; it differs in
 * where the count and the elements go:
 *
 *  - the allocation is `required_space_in_types(dist) * sizeof(T)` objects of
 *    `T`, of which only the first `required_space_in_types(dist)` units are used;
 *  - the count is stored narrowed to the small field, with no escape slot;
 *  - the elements go at unit `required_space_in_types(dist) - dist`;
 *  - `as_span` reads `small_size()` elements from unit 1, and
 *    `vector::destroy` returns `(small_size() + 1) * sizeof(T)` objects.
 *
 * So the count survives exactly when it is below the marker.
 */
module LegacySequence {
  import opened Machine
  import opened LengthCodec
  import opened Memory
  import opened Destruction
  import CompactSequence
  import Lexicographic

  // ----- Layout -----

  /** Width of `size_type_t<T>`: the rule as written. */
  function LegacyHeaderBytes(s: nat): nat {
    SizeTypeBytes(SelectSizeType(s))
  }

  /** `numeric_limits<size_type_t<T>>::max()`. */
  function LegacyMarker(s: nat): nat {
    SizeTypeMax(SelectSizeType(s))
  }

  /** `small_size() = dist`: the count converted to the unsigned small field, modulo its range. */
  function Narrow(s: nat, dist: nat): (r: nat)
    ensures r <= LegacyMarker(s)
    ensures r < Pow256(LegacyHeaderBytes(s))
    ensures dist <= LegacyMarker(s) ==> r == dist
  {
    dist % Pow256(LegacyHeaderBytes(s))
  }

  /** `space_in_types * sizeof(T)`: the number of `T` objects the constructor allocates. */
  function LegacyAllocCount(s: nat, dist: nat): nat
    requires s > 0
  {
    Bytes(SourceRequiredSpaceInTypes(s, dist), s)
  }

  /** The bytes of that allocation. */
  function LegacyAllocBytes(s: nat, dist: nat): nat
    requires s > 0
  {
    Bytes(LegacyAllocCount(s, dist), s)
  }

  /** `t_begin`: byte offset of unit `space_in_types - dist`, where the elements go. */
  function LegacyBegin(s: nat, dist: nat): nat
    requires s > 0
  {
    Bytes(SourceRequiredSpaceInTypes(s, dist) - dist, s)
  }

  /**
   * The small field, the used units and the elements lie inside the
   * allocation, and the elements end exactly at the end of the used units.
   */
  lemma LegacyFits(s: nat, dist: nat)
    requires s > 0
    ensures LegacyHeaderBytes(s) <= LegacyAllocBytes(s, dist)
    ensures s <= LegacyBegin(s, dist)
    ensures LegacyBegin(s, dist) + Bytes(dist, s) == LegacyAllocCount(s, dist)
    ensures LegacyAllocCount(s, dist) <= LegacyAllocBytes(s, dist)
  {
    var space := SourceRequiredSpaceInTypes(s, dist);
    assert LegacyBegin(s, dist) == Bytes(space - dist, s);
    assert LegacyAllocCount(s, dist) == Bytes(space, s);
    assert LegacyAllocBytes(s, dist) == Bytes(Bytes(space, s), s);
    UnitBounds(dist, space, s);
    HeaderWithinSquare(s);
  }

  /** `total - n >= 1` leading units, then `n` more: the byte counts the layout relies on. */
  lemma UnitBounds(n: nat, total: nat, s: nat)
    requires s > 0 && n < total
    ensures s <= Bytes(total - n, s)
    ensures Bytes(total - n, s) + Bytes(n, s) == Bytes(total, s)
    ensures Bytes(total, s) <= Bytes(Bytes(total, s), s)
    ensures Bytes(s, s) <= Bytes(Bytes(total, s), s)
  {
    BytesMonotone(1, total - n, s);
    BytesSplit(n, total, s);
    BytesMonotone(total - n, total, s);
    BytesAtLeastCount(Bytes(total, s), s);
    BytesMonotone(s, Bytes(total, s), s);
  }

  /** The legacy small field fits in `s * s` bytes, the least the allocation holds. */
  lemma HeaderWithinSquare(s: nat)
    requires s > 0
    ensures LegacyHeaderBytes(s) <= Bytes(s, s)
  {
    BytesAtLeastCount(s, s);
    if LegacyHeaderBytes(s) > s {
      BytesMonotone(3, s, s);
      assert Bytes(1, s) == s;
      assert Bytes(2, s) == s + s;
      assert Bytes(3, s) == s + s + s;
    }
  }

  /** The bytes of the allocation after the constructor wrote the count and every element of `src` over `raw`. */
  function LegacyImage(raw: seq<byte>, s: nat, src: seq<seq<byte>>): (r: seq<byte>)
    requires s > 0 && forall i :: 0 <= i < |src| ==> |src[i]| == s
    requires |raw| == LegacyAllocBytes(s, |src|)
    ensures |r| == |raw|
  {
    LegacyFits(s, |src|);
    FlattenBytes(src, s);
    var withCount := Splice(raw, 0, StoreLE(Narrow(s, |src|), LegacyHeaderBytes(s)));
    Splice(withCount, LegacyBegin(s, |src|), Flatten(src))
  }

  /** `small_size()`: the count the small field holds. */
  function LegacySmall(bytes: seq<byte>, s: nat): (n: nat)
    requires LegacyHeaderBytes(s) <= |bytes|
    ensures n < Pow256(LegacyHeaderBytes(s))
  {
    LoadLE(bytes[..LegacyHeaderBytes(s)])
  }

  /** `as_span()`: byte offset of the first element and element count: `small_size()` elements from unit 1. */
  function LegacySpan(bytes: seq<byte>, s: nat): (r: (nat, nat))
    requires LegacyHeaderBytes(s) <= |bytes|
    ensures r.0 == s && r.1 < Pow256(LegacyHeaderBytes(s))
  {
    (s, LegacySmall(bytes, s))
  }

  /** The elements in that span; `None` when it runs past the allocation. */
  function LegacyElements(bytes: seq<byte>, s: nat): (r: Option<seq<seq<byte>>>)
    requires s > 0 && LegacyHeaderBytes(s) <= |bytes|
    ensures r.Some? ==> |r.value| == LegacySmall(bytes, s) && forall i :: 0 <= i < |r.value| ==> |r.value[i]| == s
    ensures r.Some? <==> s + Bytes(LegacySmall(bytes, s), s) <= |bytes|
  {
    var n := LegacySmall(bytes, s);
    BytesDivMod(n, s);
    if s + Bytes(n, s) <= |bytes| then Some(Chunks(bytes[s .. s + Bytes(n, s)], s)) else None
  }

  /**
   * Where the small field lies inside the first unit, the span `as_span`
   * reads is the span the constructor wrote exactly when the count is below
   * the marker, and then it holds the source elements.  At or past the
   * marker the span starts at unit 1 while the elements start after the
   * reserved escape units.
   */
  lemma LegacyRoundTrip(raw: seq<byte>, s: nat, src: seq<seq<byte>>)
    requires s > 0 && forall i :: 0 <= i < |src| ==> |src[i]| == s
    requires |raw| == LegacyAllocBytes(s, |src|) && |src| <= PtrdiffMax
    requires LegacyHeaderBytes(s) <= s
    ensures LegacyHeaderBytes(s) <= |raw|
    ensures LegacySmall(LegacyImage(raw, s, src), s) == Narrow(s, |src|)
    ensures LegacySpan(LegacyImage(raw, s, src), s) == (LegacyBegin(s, |src|), |src|) <==> |src| < LegacyMarker(s)
    ensures |src| < LegacyMarker(s) ==> LegacyElements(LegacyImage(raw, s, src), s) == Some(src)
  {
    var n := |src|;
    LegacyHeaderIntact(raw, s, src);
    LegacyBeginPosition(s, n);
    if n < LegacyMarker(s) {
      LegacyElementsIntact(raw, s, src);
    }
  }

  /** The elements, written after the count, leave a small field that fits in the first unit alone. */
  lemma LegacyHeaderIntact(raw: seq<byte>, s: nat, src: seq<seq<byte>>)
    requires s > 0 && forall i :: 0 <= i < |src| ==> |src[i]| == s
    requires |raw| == LegacyAllocBytes(s, |src|)
    requires LegacyHeaderBytes(s) <= s
    ensures LegacyHeaderBytes(s) <= |raw|
    ensures LegacySmall(LegacyImage(raw, s, src), s) == Narrow(s, |src|)
  {
    LegacyFits(s, |src|);
    FlattenBytes(src, s);
    var n, hb := |src|, LegacyHeaderBytes(s);
    var withCount := Splice(raw, 0, StoreLE(Narrow(s, n), hb));
    var img := LegacyImage(raw, s, src);
    assert img[..hb] == withCount[..hb];
    LoadStore(Narrow(s, n), hb);
  }

  /** The elements start at unit 1 below the marker, and at unit 2 or later from it on (for counts `std::distance` can return). */
  lemma LegacyBeginPosition(s: nat, n: nat)
    requires s > 0 && n <= PtrdiffMax
    ensures n < LegacyMarker(s) ==> LegacyBegin(s, n) == s
    ensures n >= LegacyMarker(s) ==> LegacyBegin(s, n) > s
  {
    var space := SourceRequiredSpaceInTypes(s, n);
    assert LegacyBegin(s, n) == Bytes(space - n, s);
    assert Bytes(1, s) == s;
    if n >= LegacyMarker(s) {
      assert s <= 4;
      QuotientIsDiv(SizeTAlign + SizeTSize, s);
      assert space - n >= 2;
      BytesMonotone(2, space - n, s);
    } else {
      assert space - n == 1;
    }
  }

  /** Below the marker the bytes from unit 1 hold the source elements. */
  lemma LegacyElementsIntact(raw: seq<byte>, s: nat, src: seq<seq<byte>>)
    requires s > 0 && forall i :: 0 <= i < |src| ==> |src[i]| == s
    requires |raw| == LegacyAllocBytes(s, |src|) && |src| < LegacyMarker(s) && |src| <= PtrdiffMax
    requires LegacyHeaderBytes(s) <= s
    ensures LegacyHeaderBytes(s) <= |raw|
    ensures LegacyElements(LegacyImage(raw, s, src), s) == Some(src)
  {
    var n := |src|;
    LegacyHeaderIntact(raw, s, src);
    LegacyBeginPosition(s, n);
    LegacyFits(s, n);
    FlattenBytes(src, s);
    var img := LegacyImage(raw, s, src);
    assert img[s .. s + Bytes(n, s)] == Flatten(src);
    ChunksFlatten(src, s);
  }

  /**
   * `vector::destroy` returns as many objects as the constructor allocated
   * exactly when the count is below the marker; past it, fewer.
   */
  lemma LegacyDeallocMatches(raw: seq<byte>, s: nat, src: seq<seq<byte>>)
    requires s > 0 && forall i :: 0 <= i < |src| ==> |src[i]| == s
    requires |raw| == LegacyAllocBytes(s, |src|) && |src| <= PtrdiffMax
    requires LegacyHeaderBytes(s) <= s
    ensures LegacyHeaderBytes(s) <= |raw|
    ensures var freed := Bytes(LegacySmall(LegacyImage(raw, s, src), s) + 1, s);
      (freed == LegacyAllocCount(s, |src|) <==> |src| < LegacyMarker(s))
      && freed <= LegacyAllocCount(s, |src|)
  {
    LegacyRoundTrip(raw, s, src);
    var n := |src|;
    var small := Narrow(s, n);
    var space := SourceRequiredSpaceInTypes(s, n);
    if n >= LegacyMarker(s) {
      assert small + 1 < space;
      BytesSplit(small + 1, space, s);
      BytesAtLeastCount(space - (small + 1), s);
    }
  }

  /**
   * The start of the iterator constructor: allocate `space_in_types *
   * sizeof(T)` objects and store the narrowed count at their start.
   */
  method LegacyAllocateWithHeader(s: nat, a: nat, alloc: Allocator, n: nat)
    returns (addr: nat, buf: array<byte>, ghost before: seq<byte>)
    requires ValidShape(s, a) && alloc.Valid() && alloc.elemSize == s && alloc.elemAlign == a
    modifies alloc
    ensures fresh(buf)
    ensures |before| == LegacyAllocBytes(s, n) && LegacyHeaderBytes(s) <= |before|
    ensures buf[..] == Splice(before, 0, StoreLE(Narrow(s, n), LegacyHeaderBytes(s)))
    ensures alloc.Valid() && alloc.elemSize == s && alloc.elemAlign == a
    ensures alloc.log == old(alloc.log) + [Allocated(addr, LegacyAllocCount(s, n))]
  {
    var space := SourceRequiredSpaceInTypes(s, n);
    var objects := space * s;
    BytesIsProduct(space, s);
    assert objects == LegacyAllocCount(s, n);
    addr := alloc.Allocate(objects);
    BytesIsProduct(objects, s);
    LegacyFits(s, n);
    buf := new byte[objects * s];
    before := buf[..];
    CompactSequence.Store(buf, 0, StoreLE(Narrow(s, n), LegacyHeaderBytes(s)));
  }

  /** `t_begin`: the byte offset of unit `space_in_types - dist`. */
  method LegacyElementOffset(s: nat, n: nat) returns (tBegin: nat)
    requires s > 0
    ensures tBegin == LegacyBegin(s, n)
  {
    var space := SourceRequiredSpaceInTypes(s, n);
    tBegin := (space - n) * s;
    BytesIsProduct(space - n, s);
  }

  /**
   * The work of the iterator constructor before any rollback: allocate, store
   * the count, then construct the elements from `t_begin` until one throws.
   */
  method LegacyBuildBuffer(s: nat, a: nat, alloc: Allocator, src: seq<seq<byte>>, failAt: nat)
    returns (addr: nat, buf: array<byte>, ghost before: seq<byte>, tBegin: nat, built: nat)
    requires ValidShape(s, a) && alloc.Valid() && alloc.elemSize == s && alloc.elemAlign == a
    requires forall i :: 0 <= i < |src| ==> |src[i]| == s
    modifies alloc
    ensures fresh(buf)
    ensures |before| == LegacyAllocBytes(s, |src|) && tBegin == LegacyBegin(s, |src|)
    ensures built == if failAt < |src| then failAt else |src|
    ensures LegacyHeaderBytes(s) <= |before| == buf.Length && tBegin + Bytes(built, s) <= buf.Length
    ensures |Flatten(src[..built])| == Bytes(built, s)
    ensures buf[..] == Splice(Splice(before, 0, StoreLE(Narrow(s, |src|), LegacyHeaderBytes(s))), tBegin, Flatten(src[..built]))
    ensures alloc.Valid() && alloc.elemSize == s && alloc.elemAlign == a
    ensures alloc.log == old(alloc.log) + [Allocated(addr, LegacyAllocCount(s, |src|))] + ConstructTrace(addr + tBegin, built, s)
  {
    var n := |src|;
    addr, buf, before := LegacyAllocateWithHeader(s, a, alloc, n);
    tBegin := LegacyElementOffset(s, n);
    LegacyFits(s, n);
    built := CompactSequence.ConstructElements(buf, alloc, addr, tBegin, s, src, failAt);
  }

  // ----- The sequence object -----

  class LegacyVector {
    const elemSize: nat
    const elemAlign: nat
    /** Address of the allocation (`data_`). */
    var base: nat
    /** The allocation's bytes; null once `destroy` has run. */
    var data: array?<byte>
    /** The bytes the allocation held before the constructor wrote it. */
    ghost var raw: seq<byte>
    /** The source elements. */
    ghost var elems: seq<seq<byte>>
    /** The allocation has been returned while `data_` still points at it. */
    ghost var freed: bool

    /** A live sequence whose buffer is what the constructor wrote. */
    ghost predicate Valid()
      reads this, data
    {
      && data != null && !freed
      && ValidShape(elemSize, elemAlign) && |elems| <= PtrdiffMax
      && (forall i :: 0 <= i < |elems| ==> |elems[i]| == elemSize)
      && |raw| == LegacyAllocBytes(elemSize, |elems|)
      && data[..] == LegacyImage(raw, elemSize, elems)
    }

    /**
     * The iterator constructor: allocate `space_in_types * sizeof(T)` objects,
     * store the narrowed count, construct the elements from unit
     * `space_in_types - dist`.  When element `failAt` throws, the built ones
     * are destroyed by `detail::destroy` as written, the allocation is
     * returned, and the exception is swallowed.
     */
    constructor (s: nat, a: nat, alloc: Allocator, src: seq<seq<byte>>, failAt: nat)
      requires ValidShape(s, a) && alloc.Valid() && alloc.elemSize == s && alloc.elemAlign == a
      requires |src| <= PtrdiffMax
      requires forall i :: 0 <= i < |src| ==> |src[i]| == s
      modifies alloc
      ensures elemSize == s && elemAlign == a && data != null && fresh(data)
      ensures elems == src && |raw| == LegacyAllocBytes(s, |src|)
      ensures freed <==> failAt < |src|
      ensures failAt >= |src| ==> Valid()
      ensures alloc.log == CompactSequence.AsWrittenLog(old(alloc.log), base, LegacyAllocCount(s, |src|),
                                                        base + LegacyBegin(s, |src|), s, |src|, failAt)
    {
      var n := |src|;
      var addr: nat, buf: array<byte>, tBegin: nat, built: nat;
      ghost var before: seq<byte>;
      addr, buf, before, tBegin, built := LegacyBuildBuffer(s, a, alloc, src, failAt);
      if built < n {
        CompactSequence.RollBackAsWritten(alloc, addr, LegacyAllocCount(s, n), addr + tBegin, s, built);
      } else {
        assert src[..n] == src;
      }
      elemSize, elemAlign := s, a;
      base, data := addr, buf;
      raw, elems := before, src;
      freed := built < n;
    }

    /**
     * `vector::destroy(a)`: destroy `small_size()` elements from unit 1 with
     * `detail::destroy` as written, return `(small_size() + 1) * sizeof(T)`
     * objects, and null `data_`.
     */
    method Destroy(alloc: Allocator)
      requires Valid()
      modifies this, alloc
      ensures data == null
      ensures base == old(base) && raw == old(raw) && elems == old(elems)
      ensures LegacyHeaderBytes(elemSize) <= |raw|
      ensures var small := LegacySmall(LegacyImage(raw, elemSize, elems), elemSize);
        alloc.log == old(alloc.log) + BaseTrace(base + elemSize, base + elemSize + Bytes(small, elemSize), elemSize)
                     + [Deallocated(base, Bytes(small + 1, elemSize))]
    {
      LegacyFits(elemSize, |elems|);
      var small := LoadLE(data[..LegacyHeaderBytes(elemSize)]);
      var f := base + elemSize;
      var l := f + small * elemSize;
      MulMod(small, elemSize);
      BytesIsProduct(small, elemSize);
      BytesIsProduct(small + 1, elemSize);
      DestroyRangeAsWritten(alloc, f, l, elemSize);
      alloc.Deallocate(base, (small + 1) * elemSize);
      data := null;
    }
  }

  // ----- vector::operator< -----

  /** The public `vector::operator<` as written: true for every pair. */
  function VectorLessAsWritten(x: LegacyVector, y: LegacyVector): bool {
    true
  }

  /**
   * As written every sequence is less than itself, while the lexicographic
   * order the comparison evidently means, over a strict weak order on
   * elements, does not hold between `x`'s elements and themselves.
   */
  lemma VectorLessReflexive(x: LegacyVector, less: (seq<byte>, seq<byte>) -> bool)
    requires Lexicographic.StrictWeakOrder(less)
    ensures VectorLessAsWritten(x, x)
    ensures !Lexicographic.LexLess(x.elems, x.elems, less)
  {
    Lexicographic.LexIrreflexive(x.elems, less);
  }
}
