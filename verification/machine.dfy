/**
 * The machine the memory-layout primitives run on: bytes, the widths of the
 * standard integer types, little-endian storage of unsigned integers, address
 * alignment and `std::align`.  Addresses are plain naturals.
 */
module Machine {

  datatype Option<T> = None | Some(value: T)

  type byte = b: int | 0 <= b < 256

  /** `sizeof(std::size_t)` and `alignof(std::size_t)` on the modelled target. */
  const SizeTSize: nat := 8
  const SizeTAlign: nat := 8

  /** `std::numeric_limits<std::size_t>::max()` and `PTRDIFF_MAX`. */
  const SizeMax: nat := 0xFFFF_FFFF_FFFF_FFFF
  const PtrdiffMax: nat := 0x7FFF_FFFF_FFFF_FFFF

  /** Number of values of an unsigned integer that is `k` bytes wide. */
  function Pow256(k: nat): (r: nat)
    ensures r >= 1
    ensures k >= 1 ==> r >= 256
  {
    if k == 0 then 1 else 256 * Pow256(k - 1)
  }

  /** The `k` bytes, least significant first, of the unsigned value `v` (which must fit). */
  function StoreLE(v: nat, k: nat): (r: seq<byte>)
    ensures |r| == k
  {
    if k == 0 then [] else [v % 256] + StoreLE(v / 256, k - 1)
  }

  /** The unsigned value held by the bytes `s`, least significant first. */
  function LoadLE(s: seq<byte>): (v: nat)
    ensures v < Pow256(|s|)
  {
    if s == [] then 0 else s[0] + 256 * LoadLE(s[1..])
  }

  /** Storing a value that fits in `k` bytes and loading it back gives the value. */
  lemma {:induction false} LoadStore(v: nat, k: nat)
    requires v < Pow256(k)
    ensures LoadLE(StoreLE(v, k)) == v
  {
    if k > 0 {
      var s := StoreLE(v, k);
      assert s[1..] == StoreLE(v / 256, k - 1);
      LoadStore(v / 256, k - 1);
    }
  }

  /** Powers of two: the only values an alignment may take. */
  predicate IsPow2(a: nat)
    decreases a
  {
    a == 1 || (a >= 2 && a % 2 == 0 && IsPow2(a / 2))
  }

  /** The powers of two up to 8. */
  lemma {:induction false} SmallPow2(a: nat)
    requires IsPow2(a) && a <= 8
    ensures a == 1 || a == 2 || a == 4 || a == 8
    decreases a
  {
    if a != 1 {
      SmallPow2(a / 2);
    }
  }

  /** A power of two either divides 8 or is a multiple of 8. */
  lemma {:induction false} Pow2AgainstEight(a: nat)
    requires IsPow2(a)
    ensures a <= 8 ==> 8 % a == 0
    ensures a >= 8 ==> a % 8 == 0
    decreases a
  {
    if a <= 8 {
      SmallPow2(a);
    } else if a / 2 >= 8 {
      Pow2AgainstEight(a / 2);
    } else {
      SmallPow2(a / 2);
    }
  }

  /** A multiple of a positive `a` strictly between `-a` and `a` is zero. */
  lemma MulBetween(a: int, d: int)
    requires a > 0 && -a < a * d < a
    ensures d == 0
  {
    if d > 0 {
      assert a * d == a * (d - 1) + a;
      MulNonneg(a, d - 1);
      assert false;
    } else if d < 0 {
      assert a * d == a * (d + 1) - a;
      MulNonneg(a, -(d + 1));
      assert false;
    }
  }

  lemma MulNonneg(a: int, b: int)
    requires a >= 0 && b >= 0
    ensures a * b >= 0
  {
  }

  /** Euclidean division is unique. */
  lemma DivModUnique(x: int, a: int, q: int, m: int)
    requires a > 0 && 0 <= m < a && x == a * q + m
    ensures x / a == q && x % a == m
  {
    var q', m' := x / a, x % a;
    assert a * (q' - q) == m - m';
    MulBetween(a, q' - q);
  }

  /** The least multiple of `a` that is not below `p`. */
  function AlignUp(p: nat, a: nat): (r: nat)
    requires a > 0
    ensures r % a == 0
    ensures p <= r < p + a
  {
    if p % a == 0 then p
    else
      DivModUnique(p, a, p / a, p % a);
      DivModUnique(p + (a - p % a), a, p / a + 1, 0);
      p + (a - p % a)
  }

  /**
   * `std::align(alignment, size, ptr, space)`: rounds `ptr` up to `alignment`
   * and, when `size` bytes still fit in what is left of `space`, yields the
   * aligned pointer and the reduced space; otherwise the null pointer.
   */
  function StdAlign(alignment: nat, size: nat, ptr: nat, space: nat): (r: Option<(nat, nat)>)
    requires alignment > 0
    ensures r.Some? <==> size + (AlignUp(ptr, alignment) - ptr) <= space
    ensures r.Some? ==> r.value.0 == AlignUp(ptr, alignment)
    ensures r.Some? ==> r.value.1 == space - (r.value.0 - ptr)
  {
    var aligned := AlignUp(ptr, alignment);
    if size + (aligned - ptr) > space then None else Some((aligned, space - (aligned - ptr)))
  }

  /** `mem` with the bytes from `at` on overwritten by `bytes`. */
  function Splice(mem: seq<byte>, at: nat, bytes: seq<byte>): (r: seq<byte>)
    requires at + |bytes| <= |mem|
    ensures |r| == |mem|
    ensures r[at .. at + |bytes|] == bytes
    ensures forall i :: 0 <= i < |mem| && !(at <= i < at + |bytes|) ==> r[i] == mem[i]
  {
    mem[..at] + bytes + mem[at + |bytes|..]
  }

  /** Multiples of a positive `a` that are `a` apart or less are equal or `a` apart. */
  lemma MultipleGap(x: nat, y: nat, a: nat)
    requires a > 0 && x % a == 0 && y % a == 0 && x < y < x + 2 * a
    ensures y == x + a
  {
    DivModUnique(x, a, x / a, 0);
    DivModUnique(y, a, y / a, 0);
    assert y - x == a * (y / a - x / a);
    MulBetween(a, y / a - x / a - 1);
  }

  /** Divisibility is transitive. */
  lemma DividesTrans(x: nat, b: nat, a: nat)
    requires a > 0 && b > 0 && x % b == 0 && b % a == 0
    ensures x % a == 0
  {
    DivModUnique(x, b, x / b, 0);
    DivModUnique(b, a, b / a, 0);
    assert x == a * ((b / a) * (x / b));
    DivModUnique(x, a, (b / a) * (x / b), 0);
  }

  /** A positive multiple of `a` is at least `a`. */
  lemma DivisorBelow(s: nat, a: nat)
    requires a > 0 && s > 0 && s % a == 0
    ensures a <= s
  {
    if s < a {
      DivModUnique(s, a, 0, s);
    }
  }

  /** The sum of two multiples of `a` is one. */
  lemma AddMultiples(x: nat, y: nat, a: nat)
    requires a > 0 && x % a == 0 && y % a == 0
    ensures (x + y) % a == 0
  {
    DivModUnique(x, a, x / a, 0);
    DivModUnique(y, a, y / a, 0);
    DivModUnique(x + y, a, x / a + y / a, 0);
  }

  /** A product is a multiple of each factor. */
  lemma MulMod(n: nat, s: nat)
    requires s > 0
    ensures n * s >= 0 && (n * s) % s == 0 && (n * s) / s == n
  {
    MulNonneg(n, s);
    DivModUnique(n * s, s, n, 0);
  }

  /** `(1 + u + n) * s` spelled out. */
  lemma Distribute(u: nat, n: nat, s: nat)
    ensures (1 + u + n) * s == s + u * s + n * s
  {
  }

  /** At least one unit of `s` is at least `s`. */
  lemma UnitsAtLeastOne(u: nat, s: nat)
    requires u >= 1
    ensures u * s >= s
  {
    MulNonneg(u - 1, s);
    assert u * s == (u - 1) * s + s;
  }

  /**
   * `x / d`, counted by repeated subtraction (`QuotientIsDiv`); sizing rules
   * use it so that the division stays out of proofs about them.
   */
  function Quotient(x: nat, d: nat): nat
    requires d > 0
    decreases x
  {
    if x < d then 0 else 1 + Quotient(x - d, d)
  }

  lemma {:induction false} QuotientIsDiv(x: nat, d: nat)
    requires d > 0
    ensures Quotient(x, d) == x / d
    decreases x
  {
    if x < d {
      DivModUnique(x, d, 0, x);
    } else {
      QuotientIsDiv(x - d, d);
      DivModUnique(x - d, d, (x - d) / d, (x - d) % d);
      DivModUnique(x, d, (x - d) / d + 1, (x - d) % d);
    }
  }

  /**
   * The bytes `n` objects of `s` bytes occupy, counted one object at a time.
   * It is `n * s` (`BytesIsProduct`); contracts about whole buffers use it so
   * that the product stays out of their proofs.
   */
  function Bytes(n: nat, s: nat): nat
  {
    if n == 0 then 0 else Bytes(n - 1, s) + s
  }

  lemma {:induction false} BytesIsProduct(n: nat, s: nat)
    ensures Bytes(n, s) == n * s
  {
    if n > 0 {
      BytesIsProduct(n - 1, s);
      Distribute(0, n - 1, s);
    }
  }

  /** More objects occupy at least as many bytes. */
  lemma {:induction false} BytesMonotone(m: nat, n: nat, s: nat)
    requires m <= n
    ensures Bytes(m, s) <= Bytes(n, s)
    decreases n
  {
    if m < n {
      BytesMonotone(m, n - 1, s);
    }
  }

  /** The bytes of whole objects are a multiple of the object size, and hold `n` of them. */
  lemma BytesDivMod(n: nat, s: nat)
    requires s > 0
    ensures Bytes(n, s) % s == 0 && Bytes(n, s) / s == n
  {
    BytesIsProduct(n, s);
    MulMod(n, s);
  }

  /** Objects laid out back to back: `m` of them, then `n` more. */
  lemma {:induction false} BytesAdd(m: nat, n: nat, s: nat)
    ensures Bytes(m, s) + Bytes(n, s) == Bytes(m + n, s)
    decreases n
  {
    if n > 0 {
      BytesAdd(m, n - 1, s);
    }
  }

  /** The first `n - k` of `n` objects, and the last `k`. */
  lemma BytesSplit(k: nat, n: nat, s: nat)
    requires k <= n
    ensures Bytes(n - k, s) + Bytes(k, s) == Bytes(n, s)
  {
    BytesAdd(n - k, k, s);
  }

  /** Objects of at least one byte occupy at least as many bytes as there are objects. */
  lemma {:induction false} BytesAtLeastCount(n: nat, s: nat)
    requires s >= 1
    ensures n <= Bytes(n, s)
  {
    if n > 0 {
      BytesAtLeastCount(n - 1, s);
    }
  }

  // ----- Object representations -----

  /** The bytes of consecutive objects laid out one after another. */
  function Flatten(objs: seq<seq<byte>>): (r: seq<byte>)
  {
    if objs == [] then [] else objs[0] + Flatten(objs[1..])
  }

  /** The consecutive `s`-byte objects held by `bytes`; a trailing partial object is dropped. */
  function Chunks(bytes: seq<byte>, s: nat): (r: seq<seq<byte>>)
    requires s > 0
    ensures |r| == |bytes| / s
    ensures forall i :: 0 <= i < |r| ==> |r[i]| == s
    decreases |bytes|
  {
    if |bytes| < s then
      DivModUnique(|bytes|, s, 0, |bytes|);
      []
    else
      DivModUnique(|bytes|, s, (|bytes| - s) / s + 1, (|bytes| - s) % s);
      [bytes[..s]] + Chunks(bytes[s..], s)
  }

  /** Objects of `s` bytes each occupy `|objs| * s` bytes. */
  lemma {:induction false} FlattenLength(objs: seq<seq<byte>>, s: nat)
    requires forall i :: 0 <= i < |objs| ==> |objs[i]| == s
    ensures |Flatten(objs)| == |objs| * s
  {
    if objs != [] {
      FlattenLength(objs[1..], s);
      Distribute(0, |objs| - 1, s);
    }
  }

  /** The same length counted with `Bytes`. */
  lemma FlattenBytes(objs: seq<seq<byte>>, s: nat)
    requires forall i :: 0 <= i < |objs| ==> |objs[i]| == s
    ensures |Flatten(objs)| == Bytes(|objs|, s)
  {
    FlattenLength(objs, s);
    BytesIsProduct(|objs|, s);
  }

  /** Laying out two runs of objects back to back. */
  lemma {:induction false} FlattenAppend(xs: seq<seq<byte>>, ys: seq<seq<byte>>)
    ensures Flatten(xs + ys) == Flatten(xs) + Flatten(ys)
  {
    if xs != [] {
      assert (xs + ys)[1..] == xs[1..] + ys;
      FlattenAppend(xs[1..], ys);
    } else {
      assert xs + ys == ys;
    }
  }

  /** Cutting the layout of `s`-byte objects back into objects recovers them. */
  lemma {:induction false} ChunksFlatten(objs: seq<seq<byte>>, s: nat)
    requires s > 0
    requires forall i :: 0 <= i < |objs| ==> |objs[i]| == s
    ensures Chunks(Flatten(objs), s) == objs
  {
    if objs != [] {
      var b := Flatten(objs);
      FlattenLength(objs[1..], s);
      assert b[..s] == objs[0];
      assert b[s..] == Flatten(objs[1..]);
      ChunksFlatten(objs[1..], s);
    }
  }
}
