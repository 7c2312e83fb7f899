/**
 * `area_stats<Tag>` and `stats_allocator<T, Tag>` of
 * `utils/stats_allocator.h`: per-type byte counters for one area, linked
 * into an intrusive list whose head is the area's static list pointer, and
 * an allocator that reports `n * sizeof(T)` bytes to its area on every
 * allocation and deallocation.
 *
 * Counters are `size_t` and every update wraps modulo 2^64.  A type is
 * identified by its name; the function-local statics `stats_for_t<T>` are
 * the map `statsFor` from a type to its node, filled on first use.
 */
module StatsAllocator {
  import opened Machine

  /** 2^64: `size_t` arithmetic is modulo this. */
  const Word: nat := SizeMax + 1

  /** A `size_t` value. */
  type SizeT = x: int | 0 <= x <= SizeMax

  /** The plain sum of a sequence of counters. */
  function Sum(s: seq<nat>): nat {
    if |s| == 0 then 0 else s[0] + Sum(s[1..])
  }

  /** Replacing one counter changes the sum by the difference. */
  lemma {:induction false} SumUpdate(s: seq<nat>, i: nat, v: nat)
    requires i < |s|
    ensures Sum(s[i := v]) + s[i] == Sum(s) + v
  {
    if i == 0 {
      assert s[i := v][1..] == s[1..];
    } else {
      assert s[i := v][1..] == s[1..][i - 1 := v];
      SumUpdate(s[1..], i - 1, v);
    }
  }

  /** One step of `total_allocated_size`'s loop: folding in the next counter keeps the running total. */
  lemma SumStep(cs: seq<nat>, i: nat, r: int)
    requires i < |cs|
    ensures ((r + cs[i]) % Word + Sum(cs[i + 1..])) % Word == (r + Sum(cs[i..])) % Word
  {
    assert cs[i..][1..] == cs[i + 1..];
    WrappedStep(r + cs[i], Sum(cs[i + 1..]));
  }

  /** Subtracting whole multiples of 2^64 does not change a value modulo 2^64. */
  lemma ModShift(x: int, q: int)
    ensures (x - Word * q) % Word == x % Word
  {
    DivModUnique(x - Word * q, Word, x / Word - q, x % Word);
  }

  /**
   * Replacing a counter `c` by `c + d` wrapped to 64 bits moves the sum of
   * all counters, taken modulo 2^64, by `d`.
   */
  lemma WrappedReplace(total: int, c: int, d: int)
    ensures (total - c + (c + d) % Word) % Word == (total + d) % Word
  {
    var q := (c + d) / Word;
    assert (c + d) % Word == c + d - Word * q;
    ModShift(total + d, q);
  }

  /** One step of a wrapping sum: reducing the partial sum first changes nothing. */
  lemma WrappedStep(acc: int, x: int)
    ensures (acc % Word + x) % Word == (acc + x) % Word
  {
    ModShift(acc + x, acc / Word);
  }

  /** Adding `n` to a 64-bit counter and then subtracting `n` restores it. */
  lemma WrapRoundTrip(c: nat, n: int)
    requires c < Word
    ensures ((c + n) % Word - n) % Word == c
  {
    var q := (c + n) / Word;
    DivModUnique((c + n) % Word - n, Word, -q, c);
  }

  /** `memory_stats_for_t`: one type's counter and the link to the next node. */
  class StatsNode {
    var allocatedSize: SizeT
    const next: StatsNode?

    /** A node for a new type: a zero counter, pushed in front of `list`. */
    constructor (list: StatsNode?)
      ensures allocatedSize == 0 && next == list
    {
      allocatedSize := 0;
      next := list;
    }
  }

  /** The counters of `ns`, in list order. */
  ghost function Counters(ns: seq<StatsNode>): (cs: seq<nat>)
    reads ns
  {
    seq(|ns|, i requires 0 <= i < |ns| reads ns => ns[i].allocatedSize)
  }

  /** `ns` is the list that starts at `head` and follows `next` to null. */
  ghost predicate Linked(head: StatsNode?, ns: seq<StatsNode>) {
    (if |ns| == 0 then head == null else head == ns[0] && ns[|ns| - 1].next == null)
    && forall i :: 0 <= i < |ns| - 1 ==> ns[i].next == ns[i + 1]
  }

  /** Pushing a node whose `next` is the old head extends the list at the front. */
  lemma LinkedPush(head: StatsNode?, ns: seq<StatsNode>, r: StatsNode)
    requires Linked(head, ns) && r.next == head
    ensures Linked(r, [r] + ns)
  {
    var ns' := [r] + ns;
    forall i | 0 <= i < |ns'| - 1
      ensures ns'[i].next == ns'[i + 1]
    {
      if i > 0 {
        assert ns'[i] == ns[i - 1] && ns'[i + 1] == ns[i];
      }
    }
    assert ns'[|ns'| - 1].next == null by {
      if |ns| > 0 {
        assert ns'[|ns'| - 1] == ns[|ns| - 1];
      }
    }
  }

  /** Pushing a node puts its counter in front of the others. */
  lemma CountersPush(r: StatsNode, ns: seq<StatsNode>)
    ensures Counters([r] + ns) == [r.allocatedSize] + Counters(ns)
  {
    var ns' := [r] + ns;
    forall i | 0 <= i < |ns'|
      ensures Counters(ns')[i] == ([r.allocatedSize] + Counters(ns))[i]
    {
      if i > 0 {
        assert ns'[i] == ns[i - 1];
      }
    }
  }

  /** `area_stats<Tag>` for one tag. */
  class AreaStats {
    /** `stats_list()`: the head of the intrusive list. */
    var head: StatsNode?
    /** The nodes reachable from `head`, in list order. */
    ghost var nodes: seq<StatsNode>
    /** `stats_for_t<T>()` for every type used so far. */
    var statsFor: map<string, StatsNode>
    /** The area and its nodes. */
    ghost var Repr: set<object>

    /**
     * The list is well linked and has no repeated node, and every type owns
     * its own node on the list.
     */
    ghost predicate Valid()
      reads this, Repr
    {
      this in Repr
      && (forall i :: 0 <= i < |nodes| ==> nodes[i] in Repr)
      && Linked(head, nodes)
      && (forall i, j :: 0 <= i < j < |nodes| ==> nodes[i] != nodes[j])
      && (forall t :: t in statsFor ==> statsFor[t] in nodes)
      && (forall t, u :: t in statsFor && u in statsFor && t != u ==> statsFor[t] != statsFor[u])
    }

    /** `allocated_size_for_t<T>()`: a type not used yet has a zero counter. */
    ghost function AllocatedSize(t: string): (c: nat)
      requires Valid()
      reads this, Repr
      ensures c < Word
    {
      if t in statsFor then statsFor[t].allocatedSize else 0
    }


    /** What `total_allocated_size()` returns: the counters summed modulo 2^64. */
    ghost function Total(): nat
      requires Valid()
      reads this, Repr
    {
      Sum(Counters(nodes)) % Word
    }

    /** A fresh area: an empty list, so every counter and the total are 0. */
    constructor ()
      ensures Valid() && nodes == [] && statsFor == map[] && Repr == {this} && Total() == 0
      ensures forall t :: AllocatedSize(t) == 0
    {
      head := null;
      nodes := [];
      statsFor := map[];
      Repr := {this};
    }

    /**
     * `stats_for_t<T>()`: the first use of a type pushes one zero node in
     * front of the list; later uses return that same node.
     */
    method StatsFor(t: string) returns (r: StatsNode)
      requires Valid()
      modifies this
      ensures Valid() && t in statsFor && r == statsFor[t]
      ensures t in old(statsFor) ==> r == old(statsFor[t]) && statsFor == old(statsFor) && nodes == old(nodes)
      ensures t !in old(statsFor) ==> fresh(r) && r.allocatedSize == 0
      ensures t !in old(statsFor) ==> statsFor == old(statsFor)[t := r] && nodes == [r] + old(nodes)
      ensures fresh(Repr - old(Repr))
      ensures Total() == old(Total())
      ensures forall u :: AllocatedSize(u) == old(AllocatedSize(u))
    {
      if t in statsFor {
        r := statsFor[t];
      } else {
        r := Register(t);
      }
    }

    /**
     * The first use of `t`: a zero node becomes the new head of the list,
     * and no counter and not the total changes.
     */
    method Register(t: string) returns (r: StatsNode)
      requires Valid() && t !in statsFor
      modifies this
      ensures Valid() && fresh(r) && r.allocatedSize == 0
      ensures statsFor == old(statsFor)[t := r] && nodes == [r] + old(nodes)
      ensures Repr == old(Repr) + {r}
      ensures Total() == old(Total())
      ensures forall u :: AllocatedSize(u) == old(AllocatedSize(u))
    {
      r := Push(t);
      CountersPush(r, old(nodes));
      assert Counters(nodes) == [0] + old(Counters(nodes));
      assert ([0] + old(Counters(nodes)))[1..] == old(Counters(nodes));
      forall u | u != t
        ensures AllocatedSize(u) == old(AllocatedSize(u))
      {
        if u in statsFor {
          assert statsFor[u] == old(statsFor[u]) && old(statsFor[u].allocatedSize) == statsFor[u].allocatedSize;
        }
      }
    }

    /** The list update of `Register`: the new node is linked in front and mapped from `t`. */
    method Push(t: string) returns (r: StatsNode)
      requires Valid() && t !in statsFor
      modifies this
      ensures Valid() && fresh(r) && r.allocatedSize == 0
      ensures statsFor == old(statsFor)[t := r] && nodes == [r] + old(nodes)
      ensures Repr == old(Repr) + {r}
    {
      r := new StatsNode(head);
      LinkedPush(head, nodes, r);
      head := r;
      nodes := [r] + nodes;
      statsFor := statsFor[t := r];
      Repr := Repr + {r};
    }

    /** Writes `v` into the counter of the `k`-th node, the only node that changes. */
    method Store(r: StatsNode, ghost k: nat, v: nat)
      requires Valid() && k < |nodes| && nodes[k] == r && v < Word
      modifies r
      ensures Valid()
      ensures r.allocatedSize == v && Counters(nodes) == old(Counters(nodes))[k := v]
      ensures forall u :: u in statsFor && statsFor[u] != r ==> AllocatedSize(u) == old(AllocatedSize(u))
    {
      r.allocatedSize := v;
      forall i | 0 <= i < |nodes|
        ensures Counters(nodes)[i] == old(Counters(nodes))[k := v][i]
      {
        if i != k {
          assert nodes[i] != nodes[k];
        }
      }
      assert Counters(nodes) == old(Counters(nodes))[k := v];
    }

    /** Adds `delta` to the counter of `t`, wrapping to 64 bits. */
    method Bump(t: string, delta: int)
      requires Valid()
      modifies Repr
      ensures Valid() && t in statsFor
      ensures AllocatedSize(t) == (old(AllocatedSize(t)) + delta) % Word
      ensures forall u :: u != t ==> AllocatedSize(u) == old(AllocatedSize(u))
      ensures Total() == (old(Total()) + delta) % Word
      ensures fresh(Repr - old(Repr))
    {
      var r := StatsFor(t);
      BumpNode(t, r, delta);
    }

    /** Adds `delta` to the counter of the registered type `t`, whose node is `r`. */
    method BumpNode(t: string, r: StatsNode, delta: int)
      requires Valid() && t in statsFor && statsFor[t] == r
      modifies r
      ensures Valid()
      ensures AllocatedSize(t) == (old(AllocatedSize(t)) + delta) % Word
      ensures forall u :: u != t ==> AllocatedSize(u) == old(AllocatedSize(u))
      ensures Total() == (old(Total()) + delta) % Word
    {
      ghost var before := Counters(nodes);
      ghost var k :| 0 <= k < |nodes| && nodes[k] == r;
      var v := (r.allocatedSize + delta) % Word;
      Store(r, k, v);
      SumUpdate(before, k, v);
      WrappedReplace(Sum(before), before[k], delta);
      WrappedStep(Sum(before), delta);
    }

    /** `report_allocation<T>(size)`: adds `size` to the counter of `T`. */
    method ReportAllocation(t: string, size: nat)
      requires Valid() && size < Word
      modifies Repr
      ensures Valid()
      ensures AllocatedSize(t) == (old(AllocatedSize(t)) + size) % Word
      ensures forall u :: u != t ==> AllocatedSize(u) == old(AllocatedSize(u))
      ensures Total() == (old(Total()) + size) % Word
      ensures fresh(Repr - old(Repr))
    {
      Bump(t, size);
    }

    /** `report_deallocation<T>(size)`: subtracts `size` from the counter of `T`, as unsigned. */
    method ReportDeallocation(t: string, size: nat)
      requires Valid() && size < Word
      modifies Repr
      ensures Valid()
      ensures AllocatedSize(t) == (old(AllocatedSize(t)) - size) % Word
      ensures forall u :: u != t ==> AllocatedSize(u) == old(AllocatedSize(u))
      ensures Total() == (old(Total()) - size) % Word
      ensures fresh(Repr - old(Repr))
    {
      Bump(t, -(size as int));
    }

    /** `allocated_size_for_t<T>()`: reads the counter of `T`, registering `T` on first use. */
    method AllocatedSizeFor(t: string) returns (r: nat)
      requires Valid()
      modifies Repr
      ensures Valid() && r == old(AllocatedSize(t))
      ensures Total() == old(Total())
      ensures forall u :: AllocatedSize(u) == old(AllocatedSize(u))
      ensures fresh(Repr - old(Repr))
    {
      var node := StatsFor(t);
      r := node.allocatedSize;
    }

    /** `total_allocated_size()`: the counters of the list, summed modulo 2^64. */
    method TotalAllocatedSize() returns (r: nat)
      requires Valid()
      ensures r == Total()
    {
      r := SumList(head, nodes);
    }
  }

  /** The loop of `total_allocated_size()`: walks the list from `head`, adding each counter in `size_t`. */
  method SumList(head: StatsNode?, ghost ns: seq<StatsNode>) returns (r: nat)
    requires Linked(head, ns)
    ensures r == Sum(Counters(ns)) % Word
  {
    ghost var cs := Counters(ns);
    r := 0;
    var cur := head;
    ghost var i := 0;
    while cur != null
      invariant 0 <= i <= |ns|
      invariant cur == (if i < |ns| then ns[i] else null)
      invariant r < Word
      invariant (r + Sum(cs[i..])) % Word == Sum(cs) % Word
      decreases |ns| - i
    {
      SumStep(cs, i, r);
      r := (r + cur.allocatedSize) % Word;
      cur := cur.next;
      i := i + 1;
    }
    assert cs[i..] == [];
  }

  /**
   * `stats_allocator<T, Tag>`: stateless apart from the area of its tag;
   * `elem` names `T` and `elemSize` is `sizeof(T)`.
   */
  datatype StatsAllocatorFor = StatsAllocatorFor(area: AreaStats, elem: string, elemSize: nat)

  /** The converting constructor: an allocator for `U` reporting to the same area. */
  function Rebind(a: StatsAllocatorFor, u: string, uSize: nat): (r: StatsAllocatorFor)
    ensures r.area == a.area && r.elem == u && r.elemSize == uSize
  {
    StatsAllocatorFor(a.area, u, uSize)
  }

  /** `n * sizeof(T)` as `size_t`: the product wrapped to 64 bits. */
  function ReportedBytes(n: nat, elemSize: nat): (b: nat)
    ensures b < Word
    ensures n * elemSize < Word ==> b == n * elemSize
  {
    (n * elemSize) % Word
  }

  /** `allocate(n)`: reports `n * sizeof(T)` bytes added to the counter of `T`. */
  method Allocate(a: StatsAllocatorFor, n: nat)
    requires a.area.Valid() && n < Word
    modifies a.area.Repr
    ensures a.area.Valid()
    ensures a.area.AllocatedSize(a.elem) == (old(a.area.AllocatedSize(a.elem)) + ReportedBytes(n, a.elemSize)) % Word
    ensures forall u :: u != a.elem ==> a.area.AllocatedSize(u) == old(a.area.AllocatedSize(u))
    ensures a.area.Total() == (old(a.area.Total()) + ReportedBytes(n, a.elemSize)) % Word
    ensures fresh(a.area.Repr - old(a.area.Repr))
  {
    a.area.ReportAllocation(a.elem, ReportedBytes(n, a.elemSize));
  }

  /** `deallocate(p, n)`: reports `n * sizeof(T)` bytes removed from the counter of `T`. */
  method Deallocate(a: StatsAllocatorFor, n: nat)
    requires a.area.Valid() && n < Word
    modifies a.area.Repr
    ensures a.area.Valid()
    ensures a.area.AllocatedSize(a.elem) == (old(a.area.AllocatedSize(a.elem)) - ReportedBytes(n, a.elemSize)) % Word
    ensures forall u :: u != a.elem ==> a.area.AllocatedSize(u) == old(a.area.AllocatedSize(u))
    ensures a.area.Total() == (old(a.area.Total()) - ReportedBytes(n, a.elemSize)) % Word
    ensures fresh(a.area.Repr - old(a.area.Repr))
  {
    a.area.ReportDeallocation(a.elem, ReportedBytes(n, a.elemSize));
  }

  /**
   * `allocate(n)` followed by `deallocate(p, n)` on the same allocator puts
   * every counter and the total back where they were, whatever wrapping
   * happened in between.
   */
  method AllocateThenDeallocate(a: StatsAllocatorFor, n: nat)
    requires a.area.Valid() && n < Word
    modifies a.area.Repr
    ensures a.area.Valid()
    ensures forall u :: a.area.AllocatedSize(u) == old(a.area.AllocatedSize(u))
    ensures a.area.Total() == old(a.area.Total())
  {
    var b := ReportedBytes(n, a.elemSize);
    ghost var c := a.area.AllocatedSize(a.elem);
    ghost var total := a.area.Total();
    Allocate(a, n);
    ghost var c1 := a.area.AllocatedSize(a.elem);
    ghost var total1 := a.area.Total();
    assert c1 == (c + b) % Word && total1 == (total + b) % Word;
    Deallocate(a, n);
    assert a.area.AllocatedSize(a.elem) == (c1 - b) % Word;
    assert a.area.Total() == (total1 - b) % Word;
    WrapRoundTrip(c, b);
    WrapRoundTrip(total, b);
  }

  /**
   * A fresh area starts at 0; a vector of 100 `int`s (4 bytes each) brings
   * the total and the `int` counter to 400; releasing it brings the total
   * back to 0.
   */
  method VectorReserveExample() returns (before: nat, during: nat, duringInt: nat, after: nat)
    ensures before == 0 && during == 400 && duringInt == 400 && after == 0
  {
    var area := new AreaStats();
    var a := StatsAllocatorFor(area, "int", 4);
    before := area.TotalAllocatedSize();
    assert ReportedBytes(100, 4) == 400 && (0 + 400) % Word == 400 && (400 - 400) % Word == 0;
    Allocate(a, 100);
    assert area.Total() == 400 && area.AllocatedSize("int") == 400;
    during := area.TotalAllocatedSize();
    duringInt := area.AllocatedSizeFor("int");
    Deallocate(a, 100);
    assert area.Total() == 0;
    after := area.TotalAllocatedSize();
  }
}
