/**
 * The write-once compact sequence (`detail::leaky_vector`, the public
 * `leaky_vector` and `vector`): one allocation of `RequiredSpaceInTypes(s, n)`
 * element units holding the count in its first unit (and, past the marker, in
 * an aligned `size_t` slot after it) followed by the elements.
 *
 * The buffer is modelled byte by byte: `data` holds the bytes of the
 * allocation that starts at address `base`, and an element is its
 * `elemSize`-byte object representation.  The count is written with the
 * corrected width rule of `LengthCodec`.
 */
module CompactSequence {
  import opened Machine
  import opened LengthCodec
  import opened Memory
  import opened Destruction
  import Lexicographic

  /** The outcome of the rethrowing constructor: the sequence, or the index of the element whose construction threw. */
  datatype Result<T> = Success(value: T) | Failure(index: nat)

  // ----- Writing the buffer -----

  /** `bytes` stored into `data` from offset `at`. */
  method Store(data: array<byte>, at: nat, bytes: seq<byte>)
    requires at + |bytes| <= data.Length
    modifies data
    ensures data[..] == Splice(old(data[..]), at, bytes)
  {
    forall i | 0 <= i < |bytes| {
      data[at + i] := bytes[i];
    }
  }

  /**
   * `unaligned_write_size(n)` on the buffer `data` of the allocation at `base`:
   * writes the count and returns the offset where the elements start.
   */
  method UnalignedWriteSize(data: array<byte>, s: nat, a: nat, base: nat, n: nat) returns (tBegin: nat)
    requires ValidShape(s, a) && base % a == 0
    requires data.Length == RequiredSpaceInTypes(s, n) * s
    modifies data
    ensures data[..] == WriteSize(old(data[..]), s, a, base, n)
    ensures tBegin == PlanLayout(s, a, base, n).begin
  {
    LayoutInBounds(s, a, base, n);
    var hb := HeaderBytes(s);
    if n < BigSizeMarker(s) {
      Store(data, 0, StoreLE(n, hb));
      tBegin := s;
    } else {
      Store(data, 0, StoreLE(BigSizeMarker(s), hb));
      var e := EscapeOffsets(s, a, base);
      Store(data, e.1, StoreLE(n, SizeTSize));
      tBegin := e.0;
    }
  }

  /**
   * The construction loop `for (; f != l; ++f, ++t_cur) construct(a, t_cur, *f)`
   * copying `src` into `data` from offset `tBegin`; the construction of element
   * `failAt` throws (no element throws when `failAt >= |src|`).  Returns how many
   * elements were built.
   */
  method ConstructElements(data: array<byte>, alloc: Allocator, base: nat, tBegin: nat, s: nat,
                           src: seq<seq<byte>>, failAt: nat) returns (built: nat)
    requires s > 0 && tBegin + Bytes(|src|, s) <= data.Length
    requires forall i :: 0 <= i < |src| ==> |src[i]| == s
    modifies data, alloc
    ensures built == if failAt < |src| then failAt else |src|
    ensures |Flatten(src[..built])| == Bytes(built, s) && tBegin + Bytes(built, s) <= data.Length
    ensures data[..] == Splice(old(data[..]), tBegin, Flatten(src[..built]))
    ensures alloc.top == old(alloc.top)
    ensures alloc.log == old(alloc.log) + ConstructTrace(base + tBegin, built, s)
  {
    built := 0;
    var cur := tBegin;
    ghost var orig, prior := data[..], alloc.log;
    assert src[..0] == [];
    assert Splice(orig, tBegin, []) == orig;
    while built < |src| && built != failAt
      invariant built <= failAt && cur == tBegin + Bytes(built, s)
      invariant Constructed(data[..], alloc.log, orig, prior, base, tBegin, s, src, built)
      invariant alloc.top == old(alloc.top)
    {
      ConstructOne(data, alloc, base, tBegin, cur, s, src, built, orig, prior);
      built, cur := built + 1, cur + s;
    }
  }

  /**
   * The state after the first `k` elements of `src` are built: the buffer is
   * `orig` with their bytes from offset `tBegin`, and the log is `prior`
   * followed by their construction.
   */
  ghost predicate Constructed(bytes: seq<byte>, log: seq<Event>, orig: seq<byte>, prior: seq<Event>,
                              base: nat, tBegin: nat, s: nat, src: seq<seq<byte>>, k: nat)
  {
    && k <= |src|
    && tBegin + Bytes(|src|, s) <= |orig|
    && |Flatten(src[..k])| == Bytes(k, s)
    && Bytes(k, s) <= Bytes(|src|, s)
    && bytes == Splice(orig, tBegin, Flatten(src[..k]))
    && log == prior + ConstructTrace(base + tBegin, k, s)
  }

  /** One trip round the construction loop: construct element `k` at the cursor and copy its bytes. */
  method ConstructOne(data: array<byte>, alloc: Allocator, base: nat, tBegin: nat, cur: nat, s: nat,
                      src: seq<seq<byte>>, k: nat, ghost orig: seq<byte>, ghost prior: seq<Event>)
    requires forall i :: 0 <= i < |src| ==> |src[i]| == s
    requires k < |src| && cur == tBegin + Bytes(k, s)
    requires Constructed(data[..], alloc.log, orig, prior, base, tBegin, s, src, k)
    modifies data, alloc
    ensures Constructed(data[..], alloc.log, orig, prior, base, tBegin, s, src, k + 1)
    ensures alloc.top == old(alloc.top)
  {
    ConstructedStep(data[..], alloc.log, orig, prior, base, tBegin, s, src, k);
    alloc.Construct(base + cur);
    Store(data, cur, src[k]);
  }

  /** The state change of one trip round the loop, on values. */
  lemma ConstructedStep(bytes: seq<byte>, log: seq<Event>, orig: seq<byte>, prior: seq<Event>,
                        base: nat, tBegin: nat, s: nat, src: seq<seq<byte>>, k: nat)
    requires forall i :: 0 <= i < |src| ==> |src[i]| == s
    requires k < |src| && Constructed(bytes, log, orig, prior, base, tBegin, s, src, k)
    ensures tBegin + Bytes(k, s) + s <= |bytes|
    ensures Constructed(Splice(bytes, tBegin + Bytes(k, s), src[k]), log + [Event.Constructed(base + (tBegin + Bytes(k, s)))],
                        orig, prior, base, tBegin, s, src, k + 1)
  {
    BytesMonotone(k + 1, |src|, s);
    ExtendWritten(orig, tBegin, src, k, s);
    assert Splice(bytes, tBegin + Bytes(k, s), src[k]) == Splice(orig, tBegin, Flatten(src[..k + 1]));
    ConstructStep(log, prior, base + tBegin, k, s);
  }

  /** Writing element `k` right after the first `k` extends the written elements by one. */
  lemma ExtendWritten(orig: seq<byte>, tBegin: nat, src: seq<seq<byte>>, k: nat, s: nat)
    requires k < |src| && |src[k]| == s
    requires tBegin + Bytes(k + 1, s) <= |orig|
    requires |Flatten(src[..k])| == Bytes(k, s)
    ensures |Flatten(src[..k + 1])| == Bytes(k + 1, s)
    ensures Splice(Splice(orig, tBegin, Flatten(src[..k])), tBegin + Bytes(k, s), src[k])
            == Splice(orig, tBegin, Flatten(src[..k + 1]))
  {
    var f := Flatten(src[..k]);
    assert src[..k + 1] == src[..k] + [src[k]];
    FlattenAppend(src[..k], [src[k]]);
    assert Flatten([src[k]]) == src[k] + Flatten([]);
    var g := f + src[k];
    assert Flatten(src[..k + 1]) == g;
    var lhs := Splice(Splice(orig, tBegin, f), tBegin + |f|, src[k]);
    var rhs := Splice(orig, tBegin, g);
    forall i | 0 <= i < |orig|
      ensures lhs[i] == rhs[i]
    {
      if tBegin <= i < tBegin + |f| {
        assert lhs[i] == Splice(orig, tBegin, f)[i] == f[i - tBegin] == g[i - tBegin];
      } else if tBegin + |f| <= i < tBegin + |g| {
        assert lhs[i] == src[k][i - tBegin - |f|] == g[i - tBegin];
      }
    }
  }

  /**
   * The start of the iterator constructor: allocate
   * `required_allocation_size(n)` units and write the count.
   */
  method AllocateWithHeader(s: nat, a: nat, alloc: Allocator, n: nat)
    returns (base: nat, data: array<byte>, tBegin: nat)
    requires ValidShape(s, a) && alloc.Valid() && alloc.elemSize == s && alloc.elemAlign == a
    requires n <= PtrdiffMax
    modifies alloc
    ensures fresh(data)
    ensures old(alloc.top) <= base
    ensures Encodes(data[..], s, a, base, tBegin, n, RequiredSpaceInTypes(s, n))
    ensures alloc.Valid() && alloc.elemSize == s && alloc.elemAlign == a
    ensures alloc.top == base + data.Length
    ensures alloc.log == old(alloc.log) + [Allocated(base, RequiredSpaceInTypes(s, n))]
  {
    var units := RequiredSpaceInTypes(s, n);
    base := alloc.Allocate(units);
    data := new byte[units * s];
    ghost var raw := data[..];
    tBegin := UnalignedWriteSize(data, s, a, base, n);
    WriteThenRead(raw, s, a, base, n);
    LayoutInBounds(s, a, base, n);
    BytesIsProduct(units, s);
    BytesIsProduct(n, s);
  }

  /**
   * The work of the iterator constructor before any rollback: allocate and
   * write the count, then construct the elements until one throws.
   */
  method BuildBuffer(s: nat, a: nat, alloc: Allocator, src: seq<seq<byte>>, failAt: nat)
    returns (base: nat, data: array<byte>, tBegin: nat, built: nat)
    requires ValidShape(s, a) && alloc.Valid() && alloc.elemSize == s && alloc.elemAlign == a
    requires |src| <= PtrdiffMax
    requires forall i :: 0 <= i < |src| ==> |src[i]| == s
    modifies alloc
    ensures fresh(data)
    ensures old(alloc.top) <= base
    ensures Encodes(data[..], s, a, base, tBegin, |src|, RequiredSpaceInTypes(s, |src|))
    ensures built == if failAt < |src| then failAt else |src|
    ensures tBegin + Bytes(built, s) <= data.Length
    ensures data[tBegin .. tBegin + Bytes(built, s)] == Flatten(src[..built])
    ensures alloc.Valid() && alloc.elemSize == s && alloc.elemAlign == a
    ensures alloc.top == base + data.Length
    ensures alloc.log == old(alloc.log) + [Allocated(base, RequiredSpaceInTypes(s, |src|))]
                         + ConstructTrace(base + tBegin, built, s)
  {
    base, data, tBegin := AllocateWithHeader(s, a, alloc, |src|);
    ghost var header := data[..];
    built := ConstructElements(data, alloc, base, tBegin, s, src, failAt);
    assert data[..tBegin] == header[..tBegin];
    assert data[tBegin .. tBegin + Bytes(built, s)] == Flatten(src[..built]);
    BeginEndReadsHeaderOnly(header, data[..], s, a, base, tBegin, |src|);
  }

  /**
   * The bytes of the allocation at `base` as `unaligned_write_size` leaves
   * them for `count` elements of `s` bytes aligned to `a`: `units` element
   * units long, elements from offset `begin`, and the count reads back.
   */
  ghost predicate Encodes(bytes: seq<byte>, s: nat, a: nat, base: nat, begin: nat, count: nat, units: nat)
  {
    && ValidShape(s, a) && base % a == 0
    && count <= PtrdiffMax
    && begin == PlanLayout(s, a, base, count).begin
    && units == RequiredSpaceInTypes(s, count)
    && |bytes| == Bytes(units, s)
    && begin + Bytes(count, s) <= |bytes|
    && BeginEnd(bytes, s, a, base) == Some((begin, count))
  }

  /**
   * The log after the iterator constructor as written, for `n`
   * elements placed from address `b`, following `prior`: allocate `units`, construct; when
   * element `failAt` throws, destroy the `failAt` built ones with
   * `detail::destroy` as written and deallocate.
   */
  function AsWrittenLog(prior: seq<Event>, base: nat, units: nat, b: nat, s: nat, n: nat, failAt: nat): seq<Event>
    requires s > 0
  {
    if failAt < n then
      prior + [Allocated(base, units)] + ConstructTrace(b, failAt, s) + BaseTrace(b, b + Bytes(failAt, s), s)
        + [Deallocated(base, units)]
    else prior + [Allocated(base, units)] + ConstructTrace(b, n, s)
  }

  /** The same with the intended `detail::destroy`: the built elements are destroyed last first. */
  function RethrowingLog(prior: seq<Event>, base: nat, units: nat, b: nat, s: nat, n: nat, failAt: nat): seq<Event>
    requires s > 0
  {
    if failAt < n then
      prior + [Allocated(base, units)] + ConstructTrace(b, failAt, s) + ReverseTrace(b, b + Bytes(failAt, s), s)
        + [Deallocated(base, units)]
    else prior + [Allocated(base, units)] + ConstructTrace(b, n, s)
  }

  /**
   * The `catch` block as written: destroy the `built` elements placed from
   * `b` with `detail::destroy` as written, then return the `units` objects
   * allocated at `base`.
   */
  method RollBackAsWritten(alloc: Allocator, base: nat, units: nat, b: nat, s: nat, built: nat)
    requires s > 0
    modifies alloc
    ensures alloc.top == old(alloc.top)
    ensures alloc.log == old(alloc.log) + BaseTrace(b, b + Bytes(built, s), s) + [Deallocated(base, units)]
  {
    BytesDivMod(built, s);
    DestroyRangeAsWritten(alloc, b, b + Bytes(built, s), s);
    alloc.Deallocate(base, units);
  }

  /** The same with the intended `detail::destroy`: last built first. */
  method RollBack(alloc: Allocator, base: nat, units: nat, b: nat, s: nat, built: nat)
    requires s > 0
    modifies alloc
    ensures alloc.top == old(alloc.top)
    ensures alloc.log == old(alloc.log) + ReverseTrace(b, b + Bytes(built, s), s) + [Deallocated(base, units)]
  {
    BytesDivMod(built, s);
    DestroyRange(alloc, b, b + Bytes(built, s), s);
    alloc.Deallocate(base, units);
  }

  /**
   * The body of the iterator constructor as written, before the object's
   * fields are set: build the buffer and, when an element throws, destroy the
   * elements built so far with `detail::destroy` as written and return the
   * allocation.
   */
  method BuildOrRollBackAsWritten(s: nat, a: nat, alloc: Allocator, src: seq<seq<byte>>, failAt: nat)
    returns (base: nat, data: array<byte>, tBegin: nat)
    requires ValidShape(s, a) && alloc.Valid() && alloc.elemSize == s && alloc.elemAlign == a
    requires |src| <= PtrdiffMax
    requires forall i :: 0 <= i < |src| ==> |src[i]| == s
    modifies alloc
    ensures fresh(data)
    ensures Encodes(data[..], s, a, base, tBegin, |src|, RequiredSpaceInTypes(s, |src|))
    ensures failAt >= |src| ==> Chunks(data[tBegin .. tBegin + Bytes(|src|, s)], s) == src
    ensures alloc.log == AsWrittenLog(old(alloc.log), base, RequiredSpaceInTypes(s, |src|), base + tBegin, s, |src|, failAt)
  {
    var built;
    base, data, tBegin, built := BuildBuffer(s, a, alloc, src, failAt);
    if built < |src| {
      RollBackAsWritten(alloc, base, RequiredSpaceInTypes(s, |src|), base + tBegin, s, built);
    } else {
      ElementsRoundTrip(data[tBegin .. tBegin + Bytes(|src|, s)], s, src);
    }
  }

  /** The same with the intended `detail::destroy`. */
  method BuildOrRollBack(s: nat, a: nat, alloc: Allocator, src: seq<seq<byte>>, failAt: nat)
    returns (base: nat, data: array<byte>, tBegin: nat)
    requires ValidShape(s, a) && alloc.Valid() && alloc.elemSize == s && alloc.elemAlign == a
    requires |src| <= PtrdiffMax
    requires forall i :: 0 <= i < |src| ==> |src[i]| == s
    modifies alloc
    ensures fresh(data)
    ensures Encodes(data[..], s, a, base, tBegin, |src|, RequiredSpaceInTypes(s, |src|))
    ensures failAt >= |src| ==> Chunks(data[tBegin .. tBegin + Bytes(|src|, s)], s) == src
    ensures alloc.log == RethrowingLog(old(alloc.log), base, RequiredSpaceInTypes(s, |src|), base + tBegin, s, |src|, failAt)
  {
    var built;
    base, data, tBegin, built := BuildBuffer(s, a, alloc, src, failAt);
    if built < |src| {
      RollBack(alloc, base, RequiredSpaceInTypes(s, |src|), base + tBegin, s, built);
    } else {
      ElementsRoundTrip(data[tBegin .. tBegin + Bytes(|src|, s)], s, src);
    }
  }

  /** The bytes of all of `src`, split back into elements, are `src`. */
  lemma ElementsRoundTrip(bytes: seq<byte>, s: nat, src: seq<seq<byte>>)
    requires s > 0 && forall i :: 0 <= i < |src| ==> |src[i]| == s
    requires bytes == Flatten(src[..|src|])
    ensures Chunks(bytes, s) == src
  {
    assert src[..|src|] == src;
    ChunksFlatten(src, s);
  }

  // ----- The sequence object -----

  class CompactVector {
    const elemSize: nat
    const elemAlign: nat
    /** Address of the allocation (`data_`). */
    var base: nat
    /** The allocation's bytes; null once `destroy` has run. */
    var data: array?<byte>
    /** Element units allocated. */
    ghost var units: nat
    /** Offset of the first element and the element count the buffer encodes. */
    ghost var begin: nat
    ghost var count: nat
    /** The allocation has been returned while `data_` still points at it. */
    ghost var freed: bool

    /** A live sequence whose buffer encodes its count and layout. */
    ghost predicate Valid()
      reads this, data
    {
      data != null && !freed && Encodes(data[..], elemSize, elemAlign, base, begin, count, units)
    }

    /** Offset of the first element: the first half of `begin_end()`. */
    function Begin(): (b: nat)
      reads this, data
      requires Valid()
      ensures b == begin
    {
      BeginEnd(data[..], elemSize, elemAlign, base).value.0
    }

    /** `size()`: the element count `begin_end()` decodes. */
    function Size(): (n: nat)
      reads this, data
      requires Valid()
      ensures n == count
    {
      BeginEnd(data[..], elemSize, elemAlign, base).value.1
    }

    /** `as_span()`: the elements between the two pointers `begin_end()` returns. */
    function View(): (v: seq<seq<byte>>)
      reads this, data
      requires Valid()
      ensures |v| == count
      ensures forall i :: 0 <= i < |v| ==> |v[i]| == elemSize
    {
      var b, n := Begin(), Size();
      BytesDivMod(n, elemSize);
      Chunks(data[b .. b + Bytes(n, elemSize)], elemSize)
    }

    /**
     * The iterator constructor as written: allocate, write the count, copy the
     * source.  When the construction of element `failAt` throws, the elements
     * built so far are destroyed by `detail::destroy` as written, the
     * allocation is returned, and the exception is swallowed: the object is
     * left pointing at the freed allocation.
     */
    constructor (s: nat, a: nat, alloc: Allocator, src: seq<seq<byte>>, failAt: nat)
      requires ValidShape(s, a) && alloc.Valid() && alloc.elemSize == s && alloc.elemAlign == a
      requires |src| <= PtrdiffMax
      requires forall i :: 0 <= i < |src| ==> |src[i]| == s
      modifies alloc
      ensures elemSize == s && elemAlign == a && data != null && fresh(data)
      ensures Encodes(data[..], s, a, base, begin, |src|, RequiredSpaceInTypes(s, |src|))
      ensures count == |src| && units == RequiredSpaceInTypes(s, |src|)
      ensures freed <==> failAt < |src|
      ensures failAt >= |src| ==> Valid() && View() == src
      ensures alloc.log == AsWrittenLog(old(alloc.log), base, units, base + begin, s, |src|, failAt)
    {
      var addr, buf, tBegin := BuildOrRollBackAsWritten(s, a, alloc, src, failAt);
      elemSize, elemAlign := s, a;
      base, data := addr, buf;
      units := RequiredSpaceInTypes(s, |src|);
      begin, count := tBegin, |src|;
      freed := failAt < |src|;
    }

    /** A sequence object taking over a buffer that already holds `n` elements from offset `b`. */
    constructor Adopt(s: nat, a: nat, addr: nat, buf: array<byte>, b: nat, n: nat)
      requires ValidShape(s, a) && Encodes(buf[..], s, a, addr, b, n, RequiredSpaceInTypes(s, n))
      ensures Valid()
      ensures elemSize == s && elemAlign == a && base == addr && data == buf
      ensures begin == b && count == n && units == RequiredSpaceInTypes(s, n)
    {
      elemSize, elemAlign := s, a;
      base, data, units, freed := addr, buf, RequiredSpaceInTypes(s, n), false;
      begin, count := b, n;
    }

    /**
     * The iterator constructor with the exception propagated: on failure the
     * elements built so far are destroyed last first, the allocation is
     * returned with the size it was allocated with, and the failure is reported.
     * `addr` is the address of the allocation and `b` the offset of its first element.
     */
    static method TryConstruct(s: nat, a: nat, alloc: Allocator, src: seq<seq<byte>>, failAt: nat)
      returns (r: Result<CompactVector>, addr: nat, b: nat)
      requires ValidShape(s, a) && alloc.Valid() && alloc.elemSize == s && alloc.elemAlign == a
      requires |src| <= PtrdiffMax
      requires forall i :: 0 <= i < |src| ==> |src[i]| == s
      modifies alloc
      ensures addr % a == 0 && b == PlanLayout(s, a, addr, |src|).begin
      ensures r.Success? <==> failAt >= |src|
      ensures r.Failure? ==> r.index == failAt
      ensures r.Success? ==> fresh(r.value) && fresh(r.value.data)
      ensures r.Success? ==> r.value.Valid() && r.value.View() == src && r.value.count == |src|
      ensures r.Success? ==> r.value.base == addr && r.value.begin == b
      ensures r.Success? ==> r.value.elemSize == s && r.value.elemAlign == a
      ensures r.Success? ==> r.value.units == RequiredSpaceInTypes(s, |src|)
      ensures alloc.log == RethrowingLog(old(alloc.log), addr, RequiredSpaceInTypes(s, |src|), addr + b, s, |src|, failAt)
    {
      var buf;
      addr, buf, b := BuildOrRollBack(s, a, alloc, src, failAt);
      if failAt < |src| {
        return Failure(failAt), addr, b;
      }
      var v := new CompactVector.Adopt(s, a, addr, buf, b, |src|);
      r := Success(v);
    }

    /**
     * `vector::destroy(a)`: destroy the elements, return the allocation with
     * `required_allocation_size(size())` units, which is what was allocated,
     * and null `data_`.
     */
    method Destroy(alloc: Allocator)
      requires Valid()
      modifies this, alloc
      ensures data == null && !freed
      ensures base == old(base) && begin == old(begin) && count == old(count) && units == old(units)
      ensures RequiredSpaceInTypes(elemSize, count) == units
      ensures alloc.top == old(alloc.top)
      ensures alloc.log == old(alloc.log) + ReverseTrace(base + begin, base + begin + Bytes(count, elemSize), elemSize)
                           + [Deallocated(base, RequiredSpaceInTypes(elemSize, count))]
    {
      var f := Begin();
      var n := Size();
      BytesDivMod(n, elemSize);
      var len := Bytes(n, elemSize);
      DestroyRange(alloc, base + f, base + f + len, elemSize);
      alloc.Deallocate(base, RequiredSpaceInTypes(elemSize, n));
      data := null;
    }
  }

  // ----- Comparisons -----

  /** `detail::leaky_vector::operator==`: equal lengths and pairwise equal elements. */
  function Equal(x: CompactVector, y: CompactVector, eq: (seq<byte>, seq<byte>) -> bool): (r: bool)
    reads x, x.data, y, y.data
    requires x.Valid() && y.Valid()
    ensures r <==> x.count == y.count && forall i :: 0 <= i < x.count ==> eq(x.View()[i], y.View()[i])
  {
    Lexicographic.Equal(x.View(), y.View(), eq)
  }

  /** `operator!=`. */
  function NotEqual(x: CompactVector, y: CompactVector, eq: (seq<byte>, seq<byte>) -> bool): (r: bool)
    reads x, x.data, y, y.data
    requires x.Valid() && y.Valid()
    ensures x.count != y.count ==> r
  {
    !Equal(x, y, eq)
  }

  /** `detail::leaky_vector::operator<`: lexicographic over the element `operator<`. */
  function Less(x: CompactVector, y: CompactVector, less: (seq<byte>, seq<byte>) -> bool): (r: bool)
    reads x, x.data, y, y.data
    requires x.Valid() && y.Valid()
    ensures r ==> y.count > 0
  {
    Lexicographic.LexLess(x.View(), y.View(), less)
  }

  /** `operator>`: `y < x`. */
  function Greater(x: CompactVector, y: CompactVector, less: (seq<byte>, seq<byte>) -> bool): (r: bool)
    reads x, x.data, y, y.data
    requires x.Valid() && y.Valid()
    ensures r ==> x.count > 0
  {
    Less(y, x, less)
  }

  /** `operator<=`: `!(x > y)`. */
  function LessEq(x: CompactVector, y: CompactVector, less: (seq<byte>, seq<byte>) -> bool): (r: bool)
    reads x, x.data, y, y.data
    requires x.Valid() && y.Valid()
    ensures x.count == 0 ==> r
  {
    !Greater(x, y, less)
  }

  /** `operator>=`: `!(x < y)`. */
  function GreaterEq(x: CompactVector, y: CompactVector, less: (seq<byte>, seq<byte>) -> bool): (r: bool)
    reads x, x.data, y, y.data
    requires x.Valid() && y.Valid()
    ensures y.count == 0 ==> r
  {
    !Less(x, y, less)
  }

  /**
   * Over a strict weak order on elements, `<` is a strict order on sequences:
   * irreflexive, asymmetric and transitive.
   */
  lemma LessIsStrictOrder(x: CompactVector, y: CompactVector, z: CompactVector, less: (seq<byte>, seq<byte>) -> bool)
    requires x.Valid() && y.Valid() && z.Valid()
    requires Lexicographic.StrictWeakOrder(less)
    ensures !Less(x, x, less)
    ensures Less(x, y, less) ==> !Less(y, x, less)
    ensures Less(x, y, less) && Less(y, z, less) ==> Less(x, z, less)
  {
    Lexicographic.LexIrreflexive(x.View(), less);
    if Less(x, y, less) {
      Lexicographic.LexAsymmetric(x.View(), y.View(), less);
      if Less(y, z, less) {
        Lexicographic.LexTransitive(x.View(), y.View(), z.View(), less);
      }
    }
  }

  /**
   * Over a strict total order on elements with `==` as element equality, the
   * derived operators mean what their names say: `<=` is `<` or `==`, `>=` is
   * `>` or `==`, and exactly one of `<`, `==`, `>` holds.
   */
  lemma DerivedOperators(x: CompactVector, y: CompactVector,
                         eq: (seq<byte>, seq<byte>) -> bool, less: (seq<byte>, seq<byte>) -> bool)
    requires x.Valid() && y.Valid()
    requires Lexicographic.StrictWeakOrder(less)
    requires forall u, v :: Lexicographic.Equiv(u, v, less) ==> u == v
    requires forall u, v :: eq(u, v) <==> u == v
    ensures LessEq(x, y, less) <==> Less(x, y, less) || Equal(x, y, eq)
    ensures GreaterEq(x, y, less) <==> Greater(x, y, less) || Equal(x, y, eq)
    ensures Equal(x, y, eq) ==> !Less(x, y, less) && !Greater(x, y, less)
    ensures Less(x, y, less) ==> !Greater(x, y, less)
    ensures NotEqual(x, y, eq) <==> Less(x, y, less) || Greater(x, y, less)
  {
    Lexicographic.EqualIsEquality(x.View(), y.View(), eq);
    Lexicographic.LexTrichotomy(x.View(), y.View(), less);
    Lexicographic.LexIrreflexive(x.View(), less);
    if Less(x, y, less) {
      Lexicographic.LexAsymmetric(x.View(), y.View(), less);
    }
  }

  // ----- The public leaky_vector operators -----

  /** The public `leaky_vector::operator==` as written: it returns `x < y`. */
  function PublicEqualAsWritten(x: CompactVector, y: CompactVector, less: (seq<byte>, seq<byte>) -> bool): (r: bool)
    reads x, x.data, y, y.data
    requires x.Valid() && y.Valid()
    ensures r ==> y.count > 0
  {
    Less(x, y, less)
  }

  /**
   * As written, over a strict weak order no sequence compares equal to itself;
   * `Equal`, which the public `operator==` evidently means to forward to, is
   * reflexive over a reflexive element equality.
   */
  lemma PublicEqualNotReflexive(x: CompactVector, eq: (seq<byte>, seq<byte>) -> bool, less: (seq<byte>, seq<byte>) -> bool)
    requires x.Valid()
    requires Lexicographic.StrictWeakOrder(less)
    requires forall u :: eq(u, u)
    ensures !PublicEqualAsWritten(x, x, less)
    ensures Equal(x, x, eq)
  {
    Lexicographic.LexIrreflexive(x.View(), less);
  }
}
