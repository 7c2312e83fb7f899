/**
 * The length codec of the compact sequence: which unsigned integer type holds
 * the element count, how many element-sized units a buffer needs, and where
 * `unaligned_write_size` / `begin_end` put and find the count.
 *
 * A buffer is `units * s` bytes starting at address `base`; every offset below
 * is in bytes from `base`.  The small count field sits at offset 0; the first
 * element (or the escape slot) follows at offset `s`, i.e. `data_ + 1`.
 *
 * Two versions of the width rule live here.  `SelectSizeType` and
 * `SourceRequiredSpaceInTypes` are the rule as written; `HeaderBytes`,
 * `EscapeUnits` and `RequiredSpaceInTypes` are the corrected rule the rest of
 * the model uses.  They agree for every element size except 3, 5, 6 and 7
 * (`CorrectedAgreesWithSource`).
 */
module LengthCodec {
  import opened Machine

  /** Objects must fit in the 48-bit virtual address space of the modelled target. */
  const MaxObjectSize: nat := 0x1_0000_0000_0000

  /** The element shapes C++ produces: a positive size that is a multiple of a power-of-two alignment. */
  predicate ValidShape(s: nat, a: nat) {
    0 < s <= MaxObjectSize && IsPow2(a) && s % a == 0
  }

  /** Byte width of entry `k` of the tuple (uint8_t, uint16_t, uint32_t, uint64_t). */
  function SizeTypeBytes(k: nat): nat
    requires k <= 3
  {
    if k == 0 then 1 else if k == 1 then 2 else if k == 2 then 4 else 8
  }

  /** `std::numeric_limits<...>::max()` of entry `k` of the same tuple. */
  function SizeTypeMax(k: nat): (m: nat)
    requires k <= 3
    ensures m + 1 == Pow256(SizeTypeBytes(k))
  {
    if k == 0 then 0xFF
    else if k == 1 then 0xFFFF
    else if k == 2 then 0xFFFF_FFFF
    else assert Pow256(8) == 0x1_0000_0000_0000_0000; 0xFFFF_FFFF_FFFF_FFFF
  }

  // ----- The rule as written -----

  /** `select_size_type<T>()` for `sizeof(T) == s`. */
  function SelectSizeType(s: nat): (k: nat)
    ensures k <= 3
  {
    if s <= 1 then 0 else if s <= 2 then 1 else if s <= 4 then 2 else 3
  }

  /** `required_space_in_types<T>(size)` as written: `(alignof(size_t) + sizeof(size_t)) / sizeof(T)` truncates. */
  function SourceRequiredSpaceInTypes(s: nat, size: nat): (r: nat)
    requires s > 0
    ensures r > size
  {
    if size < SizeTypeMax(SelectSizeType(s)) then size + 1
    else 1 + Quotient(SizeTAlign + SizeTSize, s) + size
  }

  /**
   * `select_size_type` picks the narrowest candidate that is at least as wide as
   * the element, and the 64-bit one when no candidate is.
   */
  lemma WidthSelection(s: nat)
    ensures var w := SizeTypeBytes(SelectSizeType(s));
      && (s <= 8 ==> s <= w)
      && (s > 8 ==> w == 8)
      && (forall k :: 0 <= k < SelectSizeType(s) ==> SizeTypeBytes(k) < s)
  {
  }

  /** The widths the unit tests expect for int8_t .. int64_t and a 16-byte struct. */
  lemma WidthExamples()
    ensures SizeTypeBytes(SelectSizeType(1)) == 1
    ensures SizeTypeBytes(SelectSizeType(2)) == 2
    ensures SizeTypeBytes(SelectSizeType(4)) == 4
    ensures SizeTypeBytes(SelectSizeType(8)) == 8
    ensures SizeTypeBytes(SelectSizeType(16)) == 8
  {
  }

  /**
   * The sizes the unit tests expect from `required_space_in_types` for `char`
   * and `int32_t`, plus the boundary cases 254 and 255, which they do not test.
   */
  lemma SourceSizingExamples()
    ensures SourceRequiredSpaceInTypes(1, 9) == 10
    ensures SourceRequiredSpaceInTypes(1, 99) == 100
    ensures SourceRequiredSpaceInTypes(1, 128) == 129
    ensures SourceRequiredSpaceInTypes(1, 254) == 255
    ensures SourceRequiredSpaceInTypes(1, 255) == 255 + 17
    ensures SourceRequiredSpaceInTypes(1, 256) == 257 + 16
    ensures SourceRequiredSpaceInTypes(1, 3500) == 3501 + 16
    ensures SourceRequiredSpaceInTypes(4, 3500) == 3501
    ensures SourceRequiredSpaceInTypes(4, 0xFFFF_FFFF - 1) == 0xFFFF_FFFF
    ensures SourceRequiredSpaceInTypes(4, 0xFFFF_FFFF) == 0xFFFF_FFFF + 5
  {
    QuotientIsDiv(SizeTAlign + SizeTSize, 1);
    QuotientIsDiv(SizeTAlign + SizeTSize, 4);
  }

  /**
   * The width as written does not fit in one element unit when the element is
   * 3 bytes: a `char[3]`-sized element gets a 4-byte count field, so for an
   * empty sequence the 4-byte header write overruns the 3-byte allocation, and
   * for one element the header's last byte is the first element's first byte.
   */
  lemma HeaderOverrunsUnit()
    ensures SizeTypeBytes(SelectSizeType(3)) == 4
    ensures SourceRequiredSpaceInTypes(3, 0) * 3 == 3
    ensures SourceRequiredSpaceInTypes(3, 1) * 3 == 6
    ensures forall s :: s in {3, 5, 6, 7} ==> SizeTypeBytes(SelectSizeType(s)) > s
  {
  }

  // ----- The corrected rule -----

  /** The widest candidate that fits inside one element unit. */
  function FittingSizeType(s: nat): (k: nat)
    requires s >= 1
    ensures k <= 3
  {
    if s >= 8 then 3 else if s >= 4 then 2 else if s >= 2 then 1 else 0
  }

  /** Width in bytes of the small count field. */
  function HeaderBytes(s: nat): nat
    requires s >= 1
  {
    SizeTypeBytes(FittingSizeType(s))
  }

  /** `big_size_marker`: the largest value of the small count field. */
  function BigSizeMarker(s: nat): (m: nat)
    requires s >= 1
    ensures m + 1 == Pow256(HeaderBytes(s)) && m >= 0xFF
  {
    SizeTypeMax(FittingSizeType(s))
  }

  /** Element units reserved for the aligned `size_t` escape slot: ceil((alignof + sizeof) / s). */
  function EscapeUnits(s: nat): nat
    requires s >= 1
  {
    Quotient(SizeTAlign + SizeTSize + s - 1, s)
  }

  /** `required_space_in_types`: header unit, escape units when the count reaches the marker, elements. */
  function RequiredSpaceInTypes(s: nat, size: nat): (r: nat)
    requires s >= 1
    ensures r >= size + 1
    ensures size >= BigSizeMarker(s) ==> r >= size + 2
  {
    EscapeUnitsCover(s);
    if size < BigSizeMarker(s) then size + 1 else 1 + EscapeUnits(s) + size
  }

  /** The corrected small field is never wider than an element, and is the widest that is not. */
  lemma HeaderFitsInUnit(s: nat)
    requires s >= 1
    ensures HeaderBytes(s) <= s
    ensures forall k :: FittingSizeType(s) < k <= 3 ==> SizeTypeBytes(k) > s
  {
  }

  /** The escape units hold 16 bytes, and at least one whole element. */
  lemma EscapeUnitsCover(s: nat)
    requires s >= 1
    ensures EscapeUnits(s) >= 1
    ensures EscapeUnits(s) * s >= SizeTAlign + SizeTSize
  {
    var x := SizeTAlign + SizeTSize + s - 1;
    QuotientIsDiv(x, s);
    DivModUnique(x, s, x / s, x % s);
  }

  /**
   * Outside the element sizes 3, 5, 6 and 7 the corrected rule is the rule as
   * written, for every count `std::distance` can return.
   */
  lemma CorrectedAgreesWithSource(s: nat, size: nat)
    requires s >= 1 && s != 3 && s != 5 && s != 6 && s != 7
    requires size <= PtrdiffMax
    ensures FittingSizeType(s) == SelectSizeType(s)
    ensures RequiredSpaceInTypes(s, size) == SourceRequiredSpaceInTypes(s, size)
  {
    if size >= BigSizeMarker(s) {
      QuotientIsDiv(SizeTAlign + SizeTSize, s);
      QuotientIsDiv(SizeTAlign + SizeTSize + s - 1, s);
    }
  }

  // ----- unaligned_read -----

  /**
   * `unaligned_read<size_t>(ptr)` for a `T*` `ptr` with `sizeof(T) == s` and
   * `alignof(T) == a`: the slot is `ptr` rounded up to `alignof(size_t)`, the
   * returned element pointer is the end of the slot rounded up to `a`.  `None`
   * is a null result from either `std::align` call (the asserts fire).
   * The result is (element pointer, slot address).
   */
  function UnalignedRead(ptr: nat, s: nat, a: nat): (r: Option<(nat, nat)>)
    requires a > 0
    ensures r.Some? ==> && r.value.1 % SizeTAlign == 0 && ptr <= r.value.1
                        && r.value.1 + SizeTSize <= r.value.0 && r.value.0 % a == 0
  {
    match StdAlign(SizeTAlign, SizeTSize, ptr, SizeMax)
    case None => None
    case Some(r1) =>
      match StdAlign(a, s, r1.0 + SizeTSize, r1.1)
      case None => None
      case Some(r2) => Some((r2.0, r1.0))
  }

  /**
   * For an element-aligned `ptr`, neither assert in `unaligned_read` fires; the
   * slot is size_t-aligned, starts within 8 bytes of `ptr` and ends before the
   * element-aligned result, which is at most 16 bytes, or one alignment, past `ptr`.
   */
  lemma UnalignedReadShape(ptr: nat, s: nat, a: nat)
    requires ValidShape(s, a) && ptr % a == 0
    ensures var r := UnalignedRead(ptr, s, a);
      && r.Some?
      && r.value.1 % SizeTAlign == 0
      && ptr <= r.value.1 < ptr + SizeTAlign
      && r.value.1 + SizeTSize <= r.value.0
      && r.value.0 % a == 0
      && (r.value.0 < ptr + 16 || r.value.0 == ptr + a)
  {
    var slot := AlignUp(ptr, SizeTAlign);
    var elems := AlignUp(slot + SizeTSize, a);
    SlotAndElements(ptr, s, a);
    var r1 := StdAlign(SizeTAlign, SizeTSize, ptr, SizeMax);
    assert r1 == Some((slot, SizeMax - (slot - ptr)));
    var r2 := StdAlign(a, s, slot + SizeTSize, SizeMax - (slot - ptr));
    assert r2.Some?;
  }

  /** The arithmetic behind `UnalignedReadShape`, on the two roundings alone. */
  lemma SlotAndElements(ptr: nat, s: nat, a: nat)
    requires ValidShape(s, a) && ptr % a == 0
    ensures var slot := AlignUp(ptr, SizeTAlign);
      var elems := AlignUp(slot + SizeTSize, a);
      && slot + SizeTSize <= elems
      && (elems < ptr + 16 || (slot == ptr && elems == ptr + a))
      && a <= s
  {
    DivisorBelow(s, a);
    Pow2AgainstEight(a);
    if a <= 8 {
      SmallAlignment(ptr, a);
    } else {
      LargeAlignment(ptr, a);
    }
  }

  /** An alignment dividing 8: the elements follow the slot directly. */
  lemma SmallAlignment(ptr: nat, a: nat)
    requires 0 < a && 8 % a == 0
    ensures AlignUp(AlignUp(ptr, SizeTAlign) + SizeTSize, a) == AlignUp(ptr, SizeTAlign) + SizeTSize
  {
    var slot := AlignUp(ptr, SizeTAlign);
    AddMultiples(slot, 8, 8);
    DividesTrans(slot + SizeTSize, 8, a);
  }

  /** An alignment above 8 (a multiple of 8): the slot is at `ptr` and the elements one alignment later. */
  lemma LargeAlignment(ptr: nat, a: nat)
    requires a > 8 && a % 8 == 0 && ptr % a == 0
    ensures AlignUp(ptr, SizeTAlign) == ptr
    ensures AlignUp(ptr + SizeTSize, a) == ptr + a
  {
    DividesTrans(ptr, a, 8);
    ElementsAfterSlot(ptr, a, AlignUp(ptr + SizeTSize, a));
  }

  /** When the alignment exceeds 8, the first `a`-aligned address at or after `ptr + 8` is `ptr + a`. */
  lemma ElementsAfterSlot(ptr: nat, a: nat, elems: nat)
    requires a > 8 && ptr % a == 0 && elems == AlignUp(ptr + SizeTSize, a)
    ensures elems == ptr + a
  {
    DivModUnique(ptr + a, a, ptr / a + 1, 0);
    if elems < ptr + a {
      DivModUnique(ptr, a, ptr / a, 0);
      MultipleGap(ptr, elems, a);
    } else if elems > ptr + a {
      MultipleGap(ptr + a, elems, a);
    }
  }

  // ----- unaligned_write_size and begin_end -----

  /** Offsets of the escape slot and of the first element when the count takes the escape path. */
  function EscapeOffsets(s: nat, a: nat, base: nat): (r: (nat, nat))
    requires ValidShape(s, a) && base % a == 0
    ensures s <= r.1 && r.1 + SizeTSize <= r.0
    ensures (base + r.0) % a == 0
    ensures r.0 < s + 16 || r.0 == s + a
  {
    AddMultiples(base, s, a);
    UnalignedReadShape(base + s, s, a);
    var p := UnalignedRead(base + s, s, a).value;
    (p.0 - base, p.1 - base)
  }

  /** Where `unaligned_write_size(n)` puts the elements, and the escape slot if it uses one. */
  datatype Layout = Layout(begin: nat, slot: Option<nat>)

  function PlanLayout(s: nat, a: nat, base: nat, n: nat): (l: Layout)
    requires ValidShape(s, a) && base % a == 0
    ensures l.slot.None? <==> n < BigSizeMarker(s)
  {
    if n < BigSizeMarker(s) then Layout(s, None)
    else
      var e := EscapeOffsets(s, a, base);
      Layout(e.0, Some(e.1))
  }

  /**
   * The layout of a buffer sized by `RequiredSpaceInTypes` stays inside it: the
   * small field lies in the first unit, the escape slot after it and before the
   * elements, the elements are aligned and end within the allocation.
   */
  lemma LayoutInBounds(s: nat, a: nat, base: nat, n: nat)
    requires ValidShape(s, a) && base % a == 0
    ensures var l := PlanLayout(s, a, base, n);
      && HeaderBytes(s) <= s <= l.begin
      && (base + l.begin) % a == 0
      && (l.slot.Some? ==> s <= l.slot.value && l.slot.value + SizeTSize <= l.begin)
      && l.begin + n * s <= RequiredSpaceInTypes(s, n) * s
      && l.begin <= RequiredSpaceInTypes(s, n) * s
  {
    MulNonneg(n, s);
    AddMultiples(base, s, a);
    HeaderFitsInUnit(s);
    if n < BigSizeMarker(s) {
      Distribute(0, n, s);
    } else {
      EscapeFits(s, a, base, n);
    }
  }

  /** The escape layout's elements end within `1 + EscapeUnits(s) + n` units. */
  lemma EscapeFits(s: nat, a: nat, base: nat, n: nat)
    requires ValidShape(s, a) && base % a == 0
    ensures EscapeOffsets(s, a, base).0 + n * s <= (1 + EscapeUnits(s) + n) * s
  {
    AddMultiples(base, s, a);
    UnalignedReadShape(base + s, s, a);
    DivisorBelow(s, a);
    var u := EscapeUnits(s);
    EscapeUnitsCover(s);
    UnitsAtLeastOne(u, s);
    Distribute(u, n, s);
  }

  /** The buffer bytes after `unaligned_write_size(n)`: the small field, then the escape slot if any. */
  function WriteSize(mem: seq<byte>, s: nat, a: nat, base: nat, n: nat): (r: seq<byte>)
    requires ValidShape(s, a) && base % a == 0
    requires |mem| == RequiredSpaceInTypes(s, n) * s
    ensures |r| == |mem|
  {
    LayoutInBounds(s, a, base, n);
    var hb := HeaderBytes(s);
    var l := PlanLayout(s, a, base, n);
    if l.slot.None? then Splice(mem, 0, StoreLE(n, hb))
    else Splice(Splice(mem, 0, StoreLE(BigSizeMarker(s), hb)), l.slot.value, StoreLE(n, SizeTSize))
  }

  /**
   * `begin_end()`: the offset of the first element and the count, read back from
   * the small field and, when it holds the marker, from the escape slot.  `None`
   * when the reads would leave the buffer.
   */
  function BeginEnd(mem: seq<byte>, s: nat, a: nat, base: nat): (r: Option<(nat, nat)>)
    requires ValidShape(s, a) && base % a == 0
    ensures r.Some? ==> s <= r.value.0
  {
    var hb := HeaderBytes(s);
    if |mem| < hb then None
    else
      var small := LoadLE(mem[..hb]);
      if small < BigSizeMarker(s) then Some((s, small))
      else
        var e := EscapeOffsets(s, a, base);
        if |mem| < e.1 + SizeTSize then None
        else Some((e.0, LoadLE(mem[e.1 .. e.1 + SizeTSize])))
  }

  /**
   * Round trip: reading back what `unaligned_write_size(n)` wrote yields `n`, and
   * elements starting exactly where the write said they start, on both sides
   * of the marker.
   */
  lemma WriteThenRead(mem: seq<byte>, s: nat, a: nat, base: nat, n: nat)
    requires ValidShape(s, a) && base % a == 0
    requires |mem| == RequiredSpaceInTypes(s, n) * s
    requires n <= PtrdiffMax
    ensures BeginEnd(WriteSize(mem, s, a, base, n), s, a, base) == Some((PlanLayout(s, a, base, n).begin, n))
  {
    LayoutInBounds(s, a, base, n);
    var r := WriteSize(mem, s, a, base, n);
    if n < BigSizeMarker(s) {
      ReadSmall(r, s, a, base, n);
    } else {
      var e := EscapeOffsets(s, a, base);
      EscapeWriteShape(mem, s, a, base, n);
      ReadEscape(r, s, a, base, n);
    }
  }

  /** What the escape branch of `WriteSize` leaves in the small field and the slot. */
  lemma EscapeWriteShape(mem: seq<byte>, s: nat, a: nat, base: nat, n: nat)
    requires ValidShape(s, a) && base % a == 0
    requires |mem| == RequiredSpaceInTypes(s, n) * s
    requires n >= BigSizeMarker(s)
    ensures var r := WriteSize(mem, s, a, base, n);
      var e := EscapeOffsets(s, a, base);
      var hb := HeaderBytes(s);
      && |r| >= e.1 + SizeTSize && hb <= e.1
      && r[..hb] == StoreLE(BigSizeMarker(s), hb)
      && r[e.1 .. e.1 + SizeTSize] == StoreLE(n, SizeTSize)
  {
    LayoutInBounds(s, a, base, n);
    var hb := HeaderBytes(s);
    var e := EscapeOffsets(s, a, base);
    var m := Splice(mem, 0, StoreLE(BigSizeMarker(s), hb));
    var r := Splice(m, e.1, StoreLE(n, SizeTSize));
    assert r[..hb] == m[..hb];
  }

  /** A small field holding a count below the marker decodes to that count, elements at `s`. */
  lemma ReadSmall(mem: seq<byte>, s: nat, a: nat, base: nat, n: nat)
    requires ValidShape(s, a) && base % a == 0
    requires n < BigSizeMarker(s)
    requires |mem| >= HeaderBytes(s) && mem[..HeaderBytes(s)] == StoreLE(n, HeaderBytes(s))
    ensures BeginEnd(mem, s, a, base) == Some((s, n))
  {
    LoadStore(n, HeaderBytes(s));
  }

  /** A marker in the small field and `n` in the escape slot decode to `n`, elements after the slot. */
  lemma ReadEscape(mem: seq<byte>, s: nat, a: nat, base: nat, n: nat)
    requires ValidShape(s, a) && base % a == 0
    requires n <= PtrdiffMax
    requires |mem| >= HeaderBytes(s) && mem[..HeaderBytes(s)] == StoreLE(BigSizeMarker(s), HeaderBytes(s))
    requires var e := EscapeOffsets(s, a, base);
      |mem| >= e.1 + SizeTSize && mem[e.1 .. e.1 + SizeTSize] == StoreLE(n, SizeTSize)
    ensures BeginEnd(mem, s, a, base) == Some((EscapeOffsets(s, a, base).0, n))
  {
    LoadStore(BigSizeMarker(s), HeaderBytes(s));
    assert Pow256(8) == 0x1_0000_0000_0000_0000;
    LoadStore(n, SizeTSize);
  }

  /**
   * The write's branch agrees with the sizing: the small path is taken exactly
   * when the allocation is one unit bigger than the elements.
   */
  lemma BranchMatchesSizing(s: nat, a: nat, base: nat, n: nat)
    requires ValidShape(s, a) && base % a == 0
    ensures PlanLayout(s, a, base, n).slot.None? <==> RequiredSpaceInTypes(s, n) == n + 1
  {
    EscapeUnitsCover(s);
  }

  /**
   * `begin_end()` reads nothing at or after the first element: two buffers that
   * agree before it decode alike.
   */
  lemma BeginEndReadsHeaderOnly(mem: seq<byte>, mem': seq<byte>, s: nat, a: nat, base: nat, b: nat, n: nat)
    requires ValidShape(s, a) && base % a == 0
    requires BeginEnd(mem, s, a, base) == Some((b, n))
    requires |mem'| == |mem| && b <= |mem|
    requires mem'[..b] == mem[..b]
    ensures BeginEnd(mem', s, a, base) == Some((b, n))
  {
    HeaderFitsInUnit(s);
    var hb := HeaderBytes(s);
    assert hb <= s <= b;
    assert mem'[..hb] == mem'[..b][..hb] == mem[..b][..hb] == mem[..hb];
    if LoadLE(mem[..hb]) >= BigSizeMarker(s) {
      var e := EscapeOffsets(s, a, base);
      assert b == e.0 && e.1 + SizeTSize <= b;
      assert mem'[e.1 .. e.1 + SizeTSize] == mem'[..b][e.1 .. e.1 + SizeTSize];
      assert mem[e.1 .. e.1 + SizeTSize] == mem[..b][e.1 .. e.1 + SizeTSize];
    }
  }

  /**
   * The `short` sequences of the unit tests, in a buffer at an 8-aligned
   * address: five elements follow a one-unit header; a million take the escape
   * path, with the count in the slot at offset 8 and the elements from offset
   * 16, in 1 + 8 + 1000000 units.
   */
  lemma ShortLayoutExamples()
    ensures PlanLayout(2, 2, 0, 5) == Layout(2, None) && RequiredSpaceInTypes(2, 5) == 6
    ensures PlanLayout(2, 2, 0, 1000000) == Layout(16, Some(8))
    ensures RequiredSpaceInTypes(2, 1000000) == 1000009
  {
    QuotientIsDiv(SizeTAlign + SizeTSize + 1, 2);
    assert AlignUp(2, SizeTAlign) == 8;
    assert AlignUp(16, 2) == 16;
  }
}
