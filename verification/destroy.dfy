/**
 * Tearing down elements: `detail::destroy(f, l, a)` walks a range backwards
 * calling the allocator's `destroy`, and `allocator_adaptor_impl::destroy`
 * first lets an allocator-aware ("dependent") element release its own storage.
 *
 * `detail::destroy` as written hands `it.base()` to the allocator, which is one
 * past the element the reverse iterator designates: it destroys the objects at
 * `l, l - s, ..., f + s` instead of `l - s, ..., f`.  `DestroyRangeAsWritten`
 * models that loop; `DestroyRange` is the intended loop, and is the one the
 * sequences use.
 */
module Destruction {
  import opened Machine
  import opened Memory

  // ----- detail::destroy -----

  /** The events of the loop as written, for objects of `s` bytes between `f` and `l`. */
  function BaseTrace(f: nat, l: nat, s: nat): seq<Event>
    requires s > 0
    decreases l - f
  {
    if l <= f then [] else BaseTrace(f + s, l, s) + [Destroyed(f + s)]
  }

  /** The events of the intended loop: every object in `[f, l)`, last one first. */
  function ReverseTrace(f: nat, l: nat, s: nat): seq<Event>
    requires s > 0
    decreases l - f
  {
    if l <= f then [] else ReverseTrace(f + s, l, s) + [Destroyed(f)]
  }

  /** One step down a range of `s`-byte objects stays in the range. */
  lemma StepDown(cur: nat, f: nat, s: nat)
    requires s > 0 && f < cur && (cur - f) % s == 0
    ensures f <= cur - s && (cur - s - f) % s == 0
  {
    DivisorBelow(cur - f, s);
    DivModUnique(cur - f, s, (cur - f) / s, 0);
    DivModUnique(cur - s - f, s, (cur - f) / s - 1, 0);
  }

  /** `detail::destroy(f, l, a)` as written: the reverse iterator's `base()` is destroyed. */
  method DestroyRangeAsWritten(alloc: Allocator, f: nat, l: nat, s: nat)
    requires s > 0 && f <= l && (l - f) % s == 0
    modifies alloc
    ensures alloc.top == old(alloc.top)
    ensures alloc.log == old(alloc.log) + BaseTrace(f, l, s)
  {
    var cur := l;
    while cur != f
      invariant f <= cur <= l && (cur - f) % s == 0
      invariant alloc.top == old(alloc.top)
      invariant alloc.log == old(alloc.log) + BaseTrace(cur, l, s)
      decreases cur - f
    {
      StepDown(cur, f, s);
      alloc.Destroy(cur);
      cur := cur - s;
    }
  }

  /** `detail::destroy(f, l, a)` destroying what the reverse iterator designates. */
  method DestroyRange(alloc: Allocator, f: nat, l: nat, s: nat)
    requires s > 0 && f <= l && (l - f) % s == 0
    modifies alloc
    ensures alloc.top == old(alloc.top)
    ensures alloc.log == old(alloc.log) + ReverseTrace(f, l, s)
  {
    var cur := l;
    while cur != f
      invariant f <= cur <= l && (cur - f) % s == 0
      invariant alloc.top == old(alloc.top)
      invariant alloc.log == old(alloc.log) + ReverseTrace(cur, l, s)
      decreases cur - f
    {
      StepDown(cur, f, s);
      cur := cur - s;
      alloc.Destroy(cur);
    }
  }

  /** As written, the `i`-th destroyed address is `l - i * s`: from `l` down to `f + s`. */
  lemma {:induction false} BaseTraceOrder(f: nat, n: nat, s: nat)
    requires s > 0
    ensures var t := BaseTrace(f, f + n * s, s);
      |t| == n && forall i :: 0 <= i < n ==> t[i] == Destroyed(f + (n - i) * s)
    decreases n
  {
    if n > 0 {
      Distribute(0, n - 1, s);
      assert f + n * s == (f + s) + (n - 1) * s;
      BaseTraceOrder(f + s, n - 1, s);
      forall j | 1 <= j < n
        ensures (f + s) + (j - 1) * s == f + j * s
      {
        Distribute(0, j - 1, s);
      }
    }
  }

  /** Intended: the `i`-th destroyed address is `l - (i + 1) * s`: from `l - s` down to `f`. */
  lemma {:induction false} ReverseTraceOrder(f: nat, n: nat, s: nat)
    requires s > 0
    ensures var t := ReverseTrace(f, f + n * s, s);
      |t| == n && forall i :: 0 <= i < n ==> t[i] == Destroyed(f + (n - 1 - i) * s)
    decreases n
  {
    if n > 0 {
      Distribute(0, n - 1, s);
      assert f + n * s == (f + s) + (n - 1) * s;
      ReverseTraceOrder(f + s, n - 1, s);
      forall j | 1 <= j < n
        ensures (f + s) + (j - 1) * s == f + j * s
      {
        Distribute(0, j - 1, s);
      }
    }
  }

  /**
   * The intended loop destroys exactly the objects construction built, in the
   * opposite order: its `i`-th event undoes construction event `n - 1 - i`.
   */
  lemma DestroyUndoesConstruct(f: nat, n: nat, s: nat)
    requires s > 0
    ensures var d, c := ReverseTrace(f, f + n * s, s), ConstructTrace(f, n, s);
      |d| == |c| == n && forall i :: 0 <= i < n ==> d[i].addr == c[n - 1 - i].addr
  {
    ReverseTraceOrder(f, n, s);
    ConstructTraceOrder(f, n, s);
  }

  /**
   * The loop as written, on a non-empty range, destroys the one-past-the-end
   * address `l`, where nothing was constructed, and never the first object `f`.
   */
  lemma AsWrittenMissesFirst(f: nat, n: nat, s: nat)
    requires s > 0 && n > 0
    ensures Destroyed(f + n * s) in BaseTrace(f, f + n * s, s)
    ensures Destroyed(f) !in BaseTrace(f, f + n * s, s)
    ensures Constructed(f + n * s) !in ConstructTrace(f, n, s)
  {
    BaseTraceOrder(f, n, s);
    ConstructTraceOrder(f, n, s);
    assert BaseTrace(f, f + n * s, s)[0] == Destroyed(f + n * s);
    forall j | 0 <= j <= n ensures (0 < j ==> f + j * s > f) && (j < n ==> f + j * s < f + n * s) {
      if 0 < j {
        MulPositive(j, s);
      }
      if j < n {
        MulStrict(j, n, s);
      }
    }
  }

  lemma MulPositive(a: nat, b: nat)
    requires a > 0 && b > 0
    ensures a * b > 0
  {
    UnitsAtLeastOne(a, b);
  }

  lemma MulStrict(i: nat, n: nat, s: nat)
    requires i < n && s > 0
    ensures i * s < n * s
  {
    Distribute(0, i, s);
    MulPositive(n - i, s);
    assert n * s == i * s + (n - i) * s;
  }

  // ----- allocator_adaptor_impl::destroy -----

  /**
   * What `allocator_adaptor_impl` sees of an element type: a type that is
   * `DependentType` (it has a `destroy(allocator)` member), one that is not, or
   * a `std::pair`.  A pair itself never is `DependentType`.
   */
  datatype Kind = Leaf(dependent: bool) | Pair(first: Kind, second: Kind)

  /** Which sub-object a step acts on. */
  datatype Part = Whole | First | Second

  /** `x->destroy(*this)` on a sub-object, or `allocator_traits::destroy` (the destructor). */
  datatype Step = SelfDestroy(part: Part) | Destruct(part: Part)

  /** `maybe_destroy(x)`: the self-destroy call only for a `DependentType`. */
  function MaybeDestroy(k: Kind, p: Part): (r: seq<Step>)
    ensures r == [SelfDestroy(p)] || r == []
  {
    if k.Leaf? && k.dependent then [SelfDestroy(p)] else []
  }

  /** `allocator_adaptor_impl::destroy(x)`: the general overload and the pair overload. */
  function AdaptorDestroy(k: Kind): (r: seq<Step>)
    ensures 1 <= |r| <= 3 && r[|r| - 1] == Destruct(Whole)
  {
    match k
    case Pair(a, b) => MaybeDestroy(a, First) + MaybeDestroy(b, Second) + [Destruct(Whole)]
    case Leaf(_) => MaybeDestroy(k, Whole) + [Destruct(Whole)]
  }

  /** Is `k` a `DependentType`? */
  predicate IsDependent(k: Kind) {
    k.Leaf? && k.dependent
  }

  /**
   * The dispatch: the destructor runs exactly once, last; an element (or, for a
   * pair, each member) releases its own storage first exactly when it is a
   * `DependentType`; and a pair handles `first` before `second`.
   */
  lemma AdaptorDestroyDispatch(k: Kind)
    ensures var r := AdaptorDestroy(k);
      && |r| >= 1 && r[|r| - 1] == Destruct(Whole)
      && (forall i :: 0 <= i < |r| - 1 ==> r[i].SelfDestroy?)
      && (k.Leaf? ==> (SelfDestroy(Whole) in r <==> IsDependent(k)))
      && (k.Pair? ==> SelfDestroy(Whole) !in r)
      && (k.Pair? ==> (SelfDestroy(First) in r <==> IsDependent(k.first)))
      && (k.Pair? ==> (SelfDestroy(Second) in r <==> IsDependent(k.second)))
      && (k.Pair? && IsDependent(k.first) && IsDependent(k.second) ==>
            r == [SelfDestroy(First), SelfDestroy(Second), Destruct(Whole)])
  {
  }
}
