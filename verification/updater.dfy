/** The background state updater. One refresh reads the pool state and the native price
    from the chain client and stores each result that succeeded; a failed read is logged
    and leaves that slot as it was. The goroutine, its ticker and the context that stops
    it are modelled by the finite sequence of refreshes that happen before the stop. */
module Updater {
  import opened Results
  import opened Model
  import opened Gateway
  import opened Cache

  /** What the client returned in one refresh: GetPoolState, then GetNativePrice. */
  datatype Refresh = Refresh(pool: Result<PoolState, GatewayError>, price: Result<int, GatewayError>)

  /** Stores a freshly read pool-state record, by pointer, when the read succeeded. */
  function StorePool(c: StateCache, h: Heap, read: Result<PoolState, GatewayError>): (res: (StateCache, Heap))
    requires CacheValid(c, h)
    ensures CacheValid(res.0, res.1)
    ensures read.Ok? ==> PoolValue(res.0, res.1) == Some(read.value)
    ensures read.Err? ==> res == (c, h)
    ensures PriceValue(res.0, res.1) == PriceValue(c, h)
  {
    match read
    case Err(_) => (c, h)
    case Ok(s) =>
      var (h1, r) := NewPool(h, s);
      (SetPoolState(c, Some(r)), h1)
  }

  /** Stores the freshly read price, through SetNativePrice's copy, when the read succeeded. */
  function StorePrice(c: StateCache, h: Heap, read: Result<int, GatewayError>): (res: (StateCache, Heap))
    requires CacheValid(c, h)
    ensures CacheValid(res.0, res.1)
    ensures read.Ok? ==> PriceValue(res.0, res.1) == Some(read.value)
    ensures read.Err? ==> res == (c, h)
    ensures PoolValue(res.0, res.1) == PoolValue(c, h)
  {
    match read
    case Err(_) => (c, h)
    case Ok(p) =>
      var (h1, r) := NewInt(h, p);
      SetNativePrice(c, h1, Some(r))
  }

  /** refreshOnce: nothing at all for a nil cache; otherwise each slot takes the value
      just read when that read succeeded and keeps its old value when it failed. */
  function RefreshOnce(cache: Option<StateCache>, h: Heap, fetched: Refresh): (res: (Option<StateCache>, Heap))
    requires cache.Some? ==> CacheValid(cache.value, h)
    ensures cache.None? ==> res == (None, h)
    ensures cache.Some? ==> res.0.Some? && CacheValid(res.0.value, res.1)
    ensures cache.Some? ==>
              PoolValue(res.0.value, res.1) == (if fetched.pool.Ok? then Some(fetched.pool.value) else PoolValue(cache.value, h))
    ensures cache.Some? ==>
              PriceValue(res.0.value, res.1) == (if fetched.price.Ok? then Some(fetched.price.value) else PriceValue(cache.value, h))
  {
    match cache
    case None => (None, h)
    case Some(c) =>
      var (c1, h1) := StorePool(c, h, fetched.pool);
      var (c2, h2) := StorePrice(c1, h1, fetched.price);
      (Some(c2), h2)
  }

  /** The refreshes in order, each on the cache the previous one left. */
  function Run(c: StateCache, h: Heap, rs: seq<Refresh>): (res: (StateCache, Heap))
    requires CacheValid(c, h)
    ensures CacheValid(res.0, res.1)
    decreases |rs|
  {
    if |rs| == 0 then (c, h)
    else
      var (c1, h1) := Run(c, h, rs[..|rs| - 1]);
      var (c2, h2) := RefreshOnce(Some(c1), h1, rs[|rs| - 1]);
      (c2.value, h2)
  }

  datatype Updater = NotStarted | Started(cache: StateCache, heap: Heap)

  /** StartStateUpdater: with a nil cache nothing starts; otherwise one refresh runs at
      once and one more on every tick until the context is cancelled. */
  function StartStateUpdater(cache: Option<StateCache>, h: Heap, initial: Refresh, ticks: seq<Refresh>): (u: Updater)
    requires cache.Some? ==> CacheValid(cache.value, h)
    ensures u.NotStarted? <==> cache.None?
    ensures u.Started? ==> CacheValid(u.cache, u.heap)
  {
    match cache
    case None => NotStarted
    case Some(c) =>
      var (c0, h0) := RefreshOnce(Some(c), h, initial);
      var (c1, h1) := Run(c0.value, h0, ticks);
      Started(c1, h1)
  }

  // ---------------------------------------------------------------- properties

  /** No refresh in rs read the price successfully. */
  predicate NoPriceRead(rs: seq<Refresh>) {
    forall i :: 0 <= i < |rs| ==> rs[i].price.Err?
  }

  /** Refresh i is the last one in rs that read the price successfully. */
  predicate LastPriceRead(rs: seq<Refresh>, i: int) {
    0 <= i < |rs| && rs[i].price.Ok? && forall j :: i < j < |rs| ==> rs[j].price.Err?
  }

  predicate NoPoolRead(rs: seq<Refresh>) {
    forall i :: 0 <= i < |rs| ==> rs[i].pool.Err?
  }

  predicate LastPoolRead(rs: seq<Refresh>, i: int) {
    0 <= i < |rs| && rs[i].pool.Ok? && forall j :: i < j < |rs| ==> rs[j].pool.Err?
  }

  /** One more refresh at the end of a run: each slot follows that refresh's read when it
      succeeded and keeps the run's value otherwise. */
  lemma RunStep(c: StateCache, h: Heap, rs: seq<Refresh>)
    requires CacheValid(c, h) && |rs| > 0
    ensures var (c1, h1) := Run(c, h, rs[..|rs| - 1]);
            var (c2, h2) := Run(c, h, rs);
            var last := rs[|rs| - 1];
            && PoolValue(c2, h2) == (if last.pool.Ok? then Some(last.pool.value) else PoolValue(c1, h1))
            && PriceValue(c2, h2) == (if last.price.Ok? then Some(last.price.value) else PriceValue(c1, h1))
  {
  }

  /** Dropping a last refresh that read no price keeps the other facts about the reads. */
  lemma DropFailedPrice(rs: seq<Refresh>)
    requires |rs| > 0 && rs[|rs| - 1].price.Err?
    ensures NoPriceRead(rs) ==> NoPriceRead(rs[..|rs| - 1])
    ensures forall i :: LastPriceRead(rs, i) ==> LastPriceRead(rs[..|rs| - 1], i)
  {
  }

  lemma DropFailedPool(rs: seq<Refresh>)
    requires |rs| > 0 && rs[|rs| - 1].pool.Err?
    ensures NoPoolRead(rs) ==> NoPoolRead(rs[..|rs| - 1])
    ensures forall i :: LastPoolRead(rs, i) ==> LastPoolRead(rs[..|rs| - 1], i)
  {
  }

  /** Last known good price: after any run of refreshes the cache holds the price of the
      last successful read, or the price it started with when no read succeeded. */
  lemma {:induction false} PriceLastKnownGood(c: StateCache, h: Heap, rs: seq<Refresh>)
    requires CacheValid(c, h)
    ensures var (c', h') := Run(c, h, rs);
            && (NoPriceRead(rs) ==> PriceValue(c', h') == PriceValue(c, h))
            && (forall i :: LastPriceRead(rs, i) ==> PriceValue(c', h') == Some(rs[i].price.value))
    decreases |rs|
  {
    if |rs| > 0 {
      PriceLastKnownGood(c, h, rs[..|rs| - 1]);
      RunStep(c, h, rs);
      if rs[|rs| - 1].price.Err? {
        DropFailedPrice(rs);
      }
    }
  }

  /** Last known good pool state, as for the price. */
  lemma {:induction false} PoolLastKnownGood(c: StateCache, h: Heap, rs: seq<Refresh>)
    requires CacheValid(c, h)
    ensures var (c', h') := Run(c, h, rs);
            && (NoPoolRead(rs) ==> PoolValue(c', h') == PoolValue(c, h))
            && (forall i :: LastPoolRead(rs, i) ==> PoolValue(c', h') == Some(rs[i].pool.value))
    decreases |rs|
  {
    if |rs| > 0 {
      PoolLastKnownGood(c, h, rs[..|rs| - 1]);
      RunStep(c, h, rs);
      if rs[|rs| - 1].pool.Err? {
        DropFailedPool(rs);
      }
    }
  }

  /** A nil cache is never refreshed, whatever the client returns. */
  lemma NilCacheIgnored(h: Heap, initial: Refresh, ticks: seq<Refresh>)
    ensures StartStateUpdater(None, h, initial, ticks) == NotStarted
    ensures RefreshOnce(None, h, initial) == (None, h)
  {
  }

  /** When the first refresh read both values and no later tick read one, a started
      updater holds what the first refresh read. */
  lemma StartedHoldsLatest(c: StateCache, h: Heap, initial: Refresh, ticks: seq<Refresh>)
    requires CacheValid(c, h)
    requires initial.pool.Ok? && initial.price.Ok?
    ensures var u := StartStateUpdater(Some(c), h, initial, ticks);
            && (NoPoolRead(ticks) ==> PoolValue(u.cache, u.heap) == Some(initial.pool.value))
            && (NoPriceRead(ticks) ==> PriceValue(u.cache, u.heap) == Some(initial.price.value))
  {
    var (c0, h0) := RefreshOnce(Some(c), h, initial);
    PoolLastKnownGood(c0.value, h0, ticks);
    PriceLastKnownGood(c0.value, h0, ticks);
  }
}
