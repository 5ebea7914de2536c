/** The in-memory state cache that the background updater fills and the quote path reads.
    Go pointers are modelled by an explicit heap: the pool state is kept by pointer (a
    reader sees the very record that was stored), while the native price is copied on
    the way in and on the way out, so neither the writer nor a reader can change the
    cached value through its own pointer. The read-write mutex is not modelled: every
    operation is one atomic step. */
module Cache {
  import opened Results
  import opened Model

  type Ref = nat

  /** The objects reachable from the cache: pool-state records and big integers. */
  datatype Heap = Heap(pools: map<Ref, PoolState>, ints: map<Ref, int>, next: Ref)

  /** Every allocated object lies below the allocation counter. */
  predicate HeapValid(h: Heap) {
    && (forall r :: r in h.pools ==> r < h.next)
    && (forall r :: r in h.ints ==> r < h.next)
  }

  /** `new(big.Int).Set(v)`: a fresh integer object holding v. */
  function NewInt(h: Heap, v: int): (res: (Heap, Ref))
    requires HeapValid(h)
    ensures HeapValid(res.0)
    ensures res.1 !in h.ints && res.1 !in h.pools
    ensures res.0.ints == h.ints[res.1 := v] && res.0.pools == h.pools
    ensures res.0.next > h.next
  {
    (h.(ints := h.ints[h.next := v], next := h.next + 1), h.next)
  }

  /** A fresh pool-state record, as a client returns it. */
  function NewPool(h: Heap, s: PoolState): (res: (Heap, Ref))
    requires HeapValid(h)
    ensures HeapValid(res.0)
    ensures res.1 !in h.ints && res.1 !in h.pools
    ensures res.0.pools == h.pools[res.1 := s] && res.0.ints == h.ints
    ensures res.0.next > h.next
  {
    (h.(pools := h.pools[h.next := s], next := h.next + 1), h.next)
  }

  /** The cache's two slots; None is Go's nil pointer. */
  datatype StateCache = StateCache(poolState: Option<Ref>, nativePrice: Option<Ref>)

  /** The cache points only at allocated objects of the right kind. */
  predicate CacheValid(c: StateCache, h: Heap) {
    && HeapValid(h)
    && (c.poolState.Some? ==> c.poolState.value in h.pools)
    && (c.nativePrice.Some? ==> c.nativePrice.value in h.ints)
  }

  function NewStateCache(): (c: StateCache)
    ensures c.poolState.None? && c.nativePrice.None?
  {
    StateCache(None, None)
  }

  /** SetPoolState stores the pointer itself; a nil pointer empties the slot. */
  function SetPoolState(c: StateCache, s: Option<Ref>): (c': StateCache)
    ensures c'.poolState == s && c'.nativePrice == c.nativePrice
  {
    c.(poolState := s)
  }

  /** GetPoolState hands out the stored pointer, if there is one. */
  function GetPoolState(c: StateCache): (r: Option<Ref>)
    ensures r.Some? <==> c.poolState.Some?
    ensures r.Some? ==> r.value == c.poolState.value
  {
    c.poolState
  }

  /** SetNativePrice stores a fresh copy of the caller's integer; nil empties the slot. */
  function SetNativePrice(c: StateCache, h: Heap, p: Option<Ref>): (res: (StateCache, Heap))
    requires CacheValid(c, h)
    requires p.Some? ==> p.value in h.ints
    ensures CacheValid(res.0, res.1)
    ensures res.0.poolState == c.poolState && res.1.pools == h.pools
    ensures p.None? ==> res.0.nativePrice.None? && res.1 == h
    ensures p.Some? ==>
              && res.0.nativePrice.Some?
              && res.0.nativePrice.value !in h.ints
              && res.0.nativePrice.value != p.value
              && res.1.ints == h.ints[res.0.nativePrice.value := h.ints[p.value]]
  {
    match p
    case None => (c.(nativePrice := None), h)
    case Some(q) =>
      var (h', copy) := NewInt(h, h.ints[q]);
      (c.(nativePrice := Some(copy)), h')
  }

  /** GetNativePrice returns a fresh copy of the cached integer. */
  function GetNativePrice(c: StateCache, h: Heap): (res: (Option<Ref>, Heap))
    requires CacheValid(c, h)
    ensures CacheValid(c, res.1)
    ensures res.0.Some? <==> c.nativePrice.Some?
    ensures c.nativePrice.None? ==> res.1 == h
    ensures res.0.Some? ==>
              && res.0.value !in h.ints
              && res.0.value != c.nativePrice.value
              && res.1.ints == h.ints[res.0.value := h.ints[c.nativePrice.value]]
              && res.1.pools == h.pools
  {
    match c.nativePrice
    case None => (None, h)
    case Some(q) =>
      var (h', copy) := NewInt(h, h.ints[q]);
      (Some(copy), h')
  }

  /** The price a reader of the cache would get, as a value. */
  function PriceValue(c: StateCache, h: Heap): (v: Option<int>)
    requires CacheValid(c, h)
    ensures v.Some? <==> c.nativePrice.Some?
  {
    match c.nativePrice
    case None => None
    case Some(q) => Some(h.ints[q])
  }

  /** The pool state a reader of the cache would see, as a value. */
  function PoolValue(c: StateCache, h: Heap): (v: Option<PoolState>)
    requires CacheValid(c, h)
    ensures v.Some? <==> c.poolState.Some?
  {
    match c.poolState
    case None => None
    case Some(r) => Some(h.pools[r])
  }

  // ---------------------------------------------------------------- properties

  /** A new cache misses on both reads. */
  lemma NewCacheMisses(h: Heap)
    requires HeapValid(h)
    ensures GetPoolState(NewStateCache()).None?
    ensures GetNativePrice(NewStateCache(), h).0.None?
  {
  }

  /** The copy GetNativePrice returns holds the value SetNativePrice was given. */
  lemma PriceRoundTrip(c: StateCache, h: Heap, p: Ref)
    requires CacheValid(c, h) && p in h.ints
    ensures var (c1, h1) := SetNativePrice(c, h, Some(p));
            var (q, h2) := GetNativePrice(c1, h1);
            q.Some? && q.value in h2.ints && h2.ints[q.value] == h.ints[p]
  {
  }

  /** The writer cannot change the cached price by mutating the integer it passed in. */
  lemma PriceIsolatedFromWriter(c: StateCache, h: Heap, p: Ref, x: int)
    requires CacheValid(c, h) && p in h.ints
    ensures var (c1, h1) := SetNativePrice(c, h, Some(p));
            var h2 := h1.(ints := h1.ints[p := x]);
            CacheValid(c1, h2) && PriceValue(c1, h2) == Some(h.ints[p])
  {
  }

  /** A reader cannot change the cached price by mutating the copy it was handed. */
  lemma PriceIsolatedFromReader(c: StateCache, h: Heap, x: int)
    requires CacheValid(c, h) && c.nativePrice.Some?
    ensures var (q, h1) := GetNativePrice(c, h);
            var h2 := h1.(ints := h1.ints[q.value := x]);
            CacheValid(c, h2) && PriceValue(c, h2) == PriceValue(c, h)
  {
  }

  /** The pool state is shared: a write through the pointer handed out by GetPoolState
      is what the next reader sees. */
  lemma PoolStateShared(c: StateCache, h: Heap, s: PoolState)
    requires CacheValid(c, h) && c.poolState.Some?
    ensures var r := GetPoolState(c).value;
            var h2 := h.(pools := h.pools[r := s]);
            CacheValid(c, h2) && PoolValue(c, h2) == Some(s)
  {
  }

  /** Only the last SetPoolState counts. */
  lemma PoolStateLastWriteWins(c: StateCache, a: Option<Ref>, b: Option<Ref>)
    ensures SetPoolState(SetPoolState(c, a), b) == SetPoolState(c, b)
  {
  }

  /** Only the last SetNativePrice counts: the slot holds a copy of the last value given. */
  lemma PriceLastWriteWins(c: StateCache, h: Heap, a: Ref, b: Ref)
    requires CacheValid(c, h) && a in h.ints && b in h.ints
    ensures var (c1, h1) := SetNativePrice(c, h, Some(a));
            var (c2, h2) := SetNativePrice(c1, h1, Some(b));
            PriceValue(c2, h2) == Some(h.ints[b])
  {
  }

  /** Setting the pool state leaves the price a reader gets unchanged, and the other way round. */
  lemma SlotsIndependent(c: StateCache, h: Heap, s: Option<Ref>, p: Option<Ref>)
    requires CacheValid(c, h)
    requires s.Some? ==> s.value in h.pools
    requires p.Some? ==> p.value in h.ints
    ensures CacheValid(SetPoolState(c, s), h)
    ensures PriceValue(SetPoolState(c, s), h) == PriceValue(c, h)
    ensures var (c1, h1) := SetNativePrice(c, h, p);
            PoolValue(c1, h1) == PoolValue(c, h)
  {
  }
}
