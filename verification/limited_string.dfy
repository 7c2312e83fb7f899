/**
 * `basic_limited_string<Char, Traits, max_size>` of `limited_string.h`: a
 * string of at most `max_size` characters kept inline in an array of
 * `max_size + 1` characters.  The last slot does not hold a character but
 * the remaining capacity, stored as `capacity + numeric_limits<Char>::min()`
 * converted to `Char`; the size is `max_size - capacity`.
 *
 * Characters are modelled as integers in the range of the character type.
 * The conversions `static_cast<Char>` and `static_cast<unsigned_char>` are
 * written out as reductions modulo 2^bits.
 */
module LimitedString {
  import opened Machine

  /** A character type: its width in bits (8, 16 or 32) and its signedness. */
  datatype CharType = CharType(bits: nat, signed: bool)

  predicate ValidCharType(ct: CharType) {
    ct.bits == 8 || ct.bits == 16 || ct.bits == 32
  }

  /** `char` on the usual ABIs: signed and 8 bits wide. */
  const PlainChar := CharType(8, true)

  /** 2^bits, the number of values of the character type. */
  function Modulus(ct: CharType): nat {
    if ct.bits == 8 then 256 else if ct.bits == 16 then 65536 else 4294967296
  }

  /** `numeric_limits<Char>::min()`. */
  function CharMin(ct: CharType): int {
    if ct.signed then -(Modulus(ct) / 2) else 0
  }

  /** `numeric_limits<unsigned_char>::max()`. */
  function UnsignedMax(ct: CharType): nat {
    Modulus(ct) - 1
  }

  /** `c` is a value of the character type. */
  predicate InChar(ct: CharType, c: int) {
    CharMin(ct) <= c < CharMin(ct) + Modulus(ct)
  }

  /** `static_cast<Char>(x)`: `x` wrapped into the range of `Char`. */
  function ToChar(ct: CharType, x: int): (c: int)
    ensures InChar(ct, c)
    ensures InChar(ct, x) ==> c == x
  {
    CharMin(ct) + (x - CharMin(ct)) % Modulus(ct)
  }

  /** `static_cast<unsigned_char>(x)`: `x` modulo 2^bits. */
  function ToUnsigned(ct: CharType, x: int): (u: nat)
    ensures u <= UnsignedMax(ct)
    ensures 0 <= x <= UnsignedMax(ct) ==> u == x
  {
    x % Modulus(ct)
  }

  /** The value `set_size(n)` stores in the last slot. */
  function BackFor(ct: CharType, maxSize: nat, n: nat): (b: int)
    ensures InChar(ct, b)
  {
    ToChar(ct, maxSize - n + CharMin(ct))
  }

  /** `capacity()` when the last slot holds `b`. */
  function CapacityOf(ct: CharType, b: int): (c: nat)
    ensures c <= UnsignedMax(ct)
  {
    ToUnsigned(ct, b + CharMin(ct))
  }

  /** `size()` when the last slot holds `b`: `max_size - capacity()` as `unsigned_char`. */
  function SizeOf(ct: CharType, maxSize: nat, b: int): (n: nat)
    requires maxSize <= UnsignedMax(ct)
    ensures CapacityOf(ct, b) <= maxSize ==> n + CapacityOf(ct, b) == maxSize
    ensures CapacityOf(ct, b) > maxSize ==> n == maxSize + Modulus(ct) - CapacityOf(ct, b)
  {
    ToUnsigned(ct, maxSize - CapacityOf(ct, b))
  }

  /**
   * The capacity encoding round-trips: after `set_size(n)` with any `n` the
   * size type can hold, `capacity()` reads back `max_size - n` modulo 2^bits;
   * for `n <= max_size` that is exactly `max_size - n`, and `size()` is `n`.
   */
  lemma CapacityRoundTrip(ct: CharType, maxSize: nat, n: nat)
    requires ValidCharType(ct) && maxSize <= UnsignedMax(ct) - 1 && n <= UnsignedMax(ct)
    ensures CapacityOf(ct, BackFor(ct, maxSize, n)) == ToUnsigned(ct, maxSize - n)
    ensures n <= maxSize ==> CapacityOf(ct, BackFor(ct, maxSize, n)) == maxSize - n
    ensures n <= maxSize ==> SizeOf(ct, maxSize, BackFor(ct, maxSize, n)) == n
  {
    var m := Modulus(ct);
    var r := (maxSize - n) % m;
    assert BackFor(ct, maxSize, n) == CharMin(ct) + r;
    if ct.signed {
      assert 2 * CharMin(ct) + m == 0;
      DivModUnique(r - m, m, -1, r);
    }
  }

  /**
   * The decrement `push_back` applies to the last slot, when the capacity is
   * not zero, lowers the capacity by one and raises the size by one.
   */
  lemma DecrementStep(ct: CharType, maxSize: nat, b: int)
    requires ValidCharType(ct) && maxSize <= UnsignedMax(ct) - 1
    requires InChar(ct, b) && 0 < CapacityOf(ct, b) <= maxSize
    ensures CapacityOf(ct, ToChar(ct, b - 1)) == CapacityOf(ct, b) - 1
    ensures SizeOf(ct, maxSize, ToChar(ct, b - 1)) == SizeOf(ct, maxSize, b) + 1
  {
    var m := Modulus(ct);
    var lo := CharMin(ct);
    if ct.signed {
      assert 2 * lo + m == 0;
      DivModUnique(b + lo, m, -1, b - lo);
      assert b - 1 >= lo;
      assert ToChar(ct, b - 1) == b - 1;
      DivModUnique(b - 1 + lo, m, -1, b - 1 - lo);
    } else {
      assert b >= 1;
      assert ToChar(ct, b - 1) == b - 1;
    }
  }

  /**
   * The input-iterator constructor as written: `data_` is zero-initialised
   * and `set_size(0)` is never called, so the string starts with the size a
   * zero capacity slot encodes.  For an unsigned character type that is
   * `max_size` (the string looks full and the first `push_back` writes into
   * the capacity slot); for `limited_string<16>` over signed 8-bit `char` it
   * is 144, far past the 17-slot array that `end()` points into.
   */
  lemma InputConstructorAsWritten(ct: CharType, maxSize: nat)
    requires ValidCharType(ct) && maxSize <= UnsignedMax(ct) - 1
    ensures !ct.signed ==> SizeOf(ct, maxSize, 0) == maxSize
    ensures ct == PlainChar && maxSize == 16 ==> SizeOf(ct, maxSize, 0) == 144 > maxSize + 1
  {
    if ct == PlainChar && maxSize == 16 {
      assert CapacityOf(ct, 0) == 128;
    }
  }

  class BasicLimitedString {
    /** The character type `Char`. */
    const ct: CharType
    /** The template parameter `max_size`. */
    const maxSize: nat
    /** `data_`: `max_size` character slots followed by the capacity slot. */
    const data: array<int>

    /** The static shape: a supported `Char`, room for the capacity slot. */
    predicate Shape()
      reads this
    {
      ValidCharType(ct) && maxSize <= UnsignedMax(ct) - 1 && data.Length == maxSize + 1
    }

    /** Every slot holds a `Char` and the encoded capacity is at most `max_size`. */
    ghost predicate Valid()
      reads this, data
    {
      Shape()
      && (forall i :: 0 <= i < data.Length ==> InChar(ct, data[i]))
      && CapacityOf(ct, data[maxSize]) <= maxSize
    }

    /** `capacity()`. */
    function Capacity(): (c: nat)
      requires Shape()
      reads this, data
      ensures c <= UnsignedMax(ct)
    {
      CapacityOf(ct, data[maxSize])
    }

    /** `size()`: together with `capacity()` it always makes up `max_size()`. */
    function Size(): (n: nat)
      requires Shape()
      reads this, data
      ensures Capacity() <= maxSize ==> n + Capacity() == MaxSize()
    {
      SizeOf(ct, maxSize, data[maxSize])
    }

    /** `max_size()`: bounded so that the capacity slot is never the largest unsigned value. */
    function MaxSize(): (m: nat)
      requires Shape()
      reads this
      ensures m < UnsignedMax(ct)
    {
      maxSize
    }

    /** `end()` as an index into `data_`: `begin() + size()`, never past the capacity slot. */
    function End(): (e: nat)
      requires Valid()
      reads this, data
      ensures e == Size() && e + Capacity() == maxSize && e < data.Length
    {
      Size()
    }

    /** `operator string_view`: the first `size()` characters. */
    function View(): (v: seq<int>)
      requires Valid()
      reads this, data
      ensures |v| + Capacity() == maxSize
      ensures forall i :: 0 <= i < |v| ==> v[i] == data[i]
    {
      data[..Size()]
    }

    /** `x == y` and `y == x` for a view `y`. */
    function EqualsView(y: seq<int>): (r: bool)
      requires Valid()
      reads this, data
      ensures r <==> (Size() == |y| && forall i :: 0 <= i < |y| ==> data[i] == y[i])
    {
      View() == y
    }

    /**
     * `set_size(n)`: stores `(max_size - n) + min` converted to `Char` in the
     * last slot; the character slots are untouched.
     */
    method SetSize(n: nat)
      requires Shape() && n <= UnsignedMax(ct)
      modifies data
      ensures data[..maxSize] == old(data[..maxSize])
      ensures data[maxSize] == BackFor(ct, maxSize, n)
      ensures Capacity() == ToUnsigned(ct, maxSize - n)
      ensures n <= maxSize ==> Capacity() == maxSize - n && Size() == n
    {
      data[maxSize] := ToChar(ct, maxSize - n + CharMin(ct));
      CapacityRoundTrip(ct, maxSize, n);
    }

    /** The default constructor: the empty string, with all of `max_size` free. */
    constructor (ct: CharType, maxSize: nat)
      requires ValidCharType(ct) && maxSize <= UnsignedMax(ct) - 1
      ensures this.ct == ct && this.maxSize == maxSize && fresh(data)
      ensures Valid() && Size() == 0 && Capacity() == maxSize && View() == []
    {
      this.ct := ct;
      this.maxSize := maxSize;
      data := new int[maxSize + 1](_ => 0);
      new;
      ghost var zeros := data[..maxSize];
      SetSize(0);
      forall i | 0 <= i < data.Length
        ensures InChar(ct, data[i])
      {
        if i < maxSize {
          assert data[i] == zeros[i] == 0;
        }
      }
    }

    /** The fill constructor `(size, x)`: `size` copies of `x`. */
    constructor Fill(ct: CharType, maxSize: nat, size: nat, x: int)
      requires ValidCharType(ct) && maxSize <= UnsignedMax(ct) - 1
      requires size <= maxSize && InChar(ct, x)
      ensures this.ct == ct && this.maxSize == maxSize && fresh(data)
      ensures Valid() && Size() == size && Capacity() == maxSize - size
      ensures View() == seq(size, _ => x)
    {
      this.ct := ct;
      this.maxSize := maxSize;
      data := new int[maxSize + 1](_ => 0);
      new;
      SetSize(size);
      var e := End();
      var i := 0;
      while i < e
        invariant 0 <= i <= e == size
        invariant data[maxSize] == BackFor(ct, maxSize, size)
        invariant forall j :: 0 <= j < data.Length ==> InChar(ct, data[j])
        invariant forall j :: 0 <= j < i ==> data[j] == x
      {
        data[i] := x;
        i := i + 1;
      }
      assert View() == seq(size, _ => x);
    }

    /**
     * The random-access range constructor, also reached from a
     * `string_view`: copies the characters to `begin()`, then records their
     * count with `set_size`.
     */
    constructor FromRange(ct: CharType, maxSize: nat, src: seq<int>)
      requires ValidCharType(ct) && maxSize <= UnsignedMax(ct) - 1
      requires |src| <= maxSize && forall i :: 0 <= i < |src| ==> InChar(ct, src[i])
      ensures this.ct == ct && this.maxSize == maxSize && fresh(data)
      ensures Valid() && Size() == |src| && View() == src
    {
      this.ct := ct;
      this.maxSize := maxSize;
      data := new int[maxSize + 1](_ => 0);
      new;
      var i := 0;
      while i < |src|
        invariant 0 <= i <= |src|
        invariant forall j :: 0 <= j < data.Length ==> InChar(ct, data[j])
        invariant forall j :: 0 <= j < i ==> data[j] == src[j]
      {
        data[i] := src[i];
        i := i + 1;
      }
      SetSize(|src|);
      assert View() == src;
    }

    /**
     * `push_back(c)`: writes `c` at `end()` and decrements the capacity
     * slot.  With capacity left, the string grows by `c`.  On a full string
     * `end()` is the capacity slot itself, so `c` overwrites it and the
     * decrement leaves `c - 1` there.
     */
    method PushBack(c: int)
      requires Valid() && InChar(ct, c)
      modifies data
      ensures old(Capacity()) > 0 ==> Valid() && View() == old(View()) + [c]
      ensures old(Capacity()) > 0 ==> Capacity() == old(Capacity()) - 1
      ensures old(Capacity()) == 0 ==> data[..maxSize] == old(data[..maxSize])
      ensures old(Capacity()) == 0 ==> data[maxSize] == ToChar(ct, c - 1)
    {
      var e := End();
      data[e] := c;
      if e < maxSize {
        DecrementStep(ct, maxSize, data[maxSize]);
      }
      data[maxSize] := ToChar(ct, data[maxSize] - 1);
      if e < maxSize {
        assert View() == old(View()) + [c];
      }
    }

    /**
     * The input-iterator constructor with the empty string established
     * first (`set_size(0)`), then every character appended by `push_back`.
     */
    constructor FromInput(ct: CharType, maxSize: nat, src: seq<int>)
      requires ValidCharType(ct) && maxSize <= UnsignedMax(ct) - 1
      requires |src| <= maxSize && forall i :: 0 <= i < |src| ==> InChar(ct, src[i])
      ensures this.ct == ct && this.maxSize == maxSize && fresh(data)
      ensures Valid() && Size() == |src| && View() == src
    {
      this.ct := ct;
      this.maxSize := maxSize;
      data := new int[maxSize + 1](_ => 0);
      new;
      ghost var zeros := data[..maxSize];
      SetSize(0);
      forall j | 0 <= j < data.Length
        ensures InChar(ct, data[j])
      {
        if j < maxSize {
          assert data[j] == zeros[j] == 0;
        }
      }
      var i := 0;
      while i < |src|
        invariant 0 <= i <= |src|
        invariant Valid() && View() == src[..i] && Capacity() == maxSize - i
      {
        PushBack(src[i]);
        assert src[..i + 1] == src[..i] + [src[i]];
        i := i + 1;
      }
      assert src[..i] == src;
    }
  }

  /**
   * Strings of `limited_string<16>` and `limited_string<254>`: the default
   * one is empty with capacity 16 and equals "", one built from "a" has size
   * 1 and equals "a", one filled with 16 'a's has size 16, and the longest
   * string allowed has 254 characters ending in 'a'.
   */
  method Examples() returns (x1: BasicLimitedString, x2: BasicLimitedString, x3: BasicLimitedString, big: BasicLimitedString)
    ensures x1.Valid() && x1.Capacity() == x1.MaxSize() == 16 && x1.Size() == 0 && x1.EqualsView([])
    ensures x2.Valid() && x2.Size() == 1 && x2.EqualsView(['a' as int])
    ensures x3.Valid() && x3.Size() == 16
    ensures big.Valid() && big.Size() == 254 && big.View()[253] == 'a' as int
  {
    x1 := new BasicLimitedString(PlainChar, 16);
    x2 := new BasicLimitedString.FromRange(PlainChar, 16, ['a' as int]);
    x3 := new BasicLimitedString.Fill(PlainChar, 16, 16, 'a' as int);
    big := new BasicLimitedString.Fill(PlainChar, 254, 254, 'a' as int);
  }
}
