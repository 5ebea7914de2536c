/** The borrow quote: how much native collateral (in wei) a borrow of a USDT amount
    (6 decimals) needs at the pool's maximum loan-to-value ratio, priced by the cached
    oracle price when there is one and by a fresh oracle read otherwise. */
module Quote {
  import opened Results
  import opened Decimal
  import opened Abi
  import opened Model
  import opened Gateway
  import opened Cache

  /** The pool's maximum loan-to-value ratio, in percent. */
  const MaxLtvPercent: nat := 75

  /** USDT has 6 decimals and USD values 18: the amount is scaled by 10^12. */
  const UsdScale: nat := 1_000_000_000_000

  /** One native token, in wei (the oracle price has 18 decimals). */
  const OneEth: nat := 1_000_000_000_000_000_000

  datatype QuoteError =
    | AmountRequired
    | InvalidAmount(cause: ParseError)
    | NonPositiveAmount
    | PriceFetch(fetchError: GatewayError)
    | NonPositivePrice
    | ZeroDenominator

  /** big.Int.QuoRem: the quotient truncated toward zero and the remainder with the
      dividend's sign (Dafny's own `/` and `%` are Euclidean). */
  function QuoRem(n: int, d: int): (qr: (int, int))
    requires d != 0
    ensures n == qr.0 * d + qr.1
    ensures Abs(qr.1) < Abs(d)
    ensures qr.1 != 0 ==> (qr.1 < 0 <==> n < 0)
  {
    var q, r := Abs(n) / Abs(d), Abs(n) % Abs(d);
    TruncatedParts(n, d, q, r);
    (if (n < 0) == (d < 0) then q else -q, if n < 0 then -r else r)
  }

  /** Attaching the signs to the quotient and remainder of the magnitudes. */
  lemma TruncatedParts(n: int, d: int, q: int, r: int)
    requires d != 0 && Abs(n) == q * Abs(d) + r && 0 <= r < Abs(d)
    ensures n == (if (n < 0) == (d < 0) then q else -q) * d + (if n < 0 then -r else r)
  {
    if n < 0 && d < 0 {
      assert n == -(q * -d + r);
    } else if n < 0 {
      assert n == -(q * d + r);
    } else if d < 0 {
      assert n == q * -d + r;
    }
  }

  /** The quotient, rounded up when QuoRem leaves a positive remainder: for a positive
      divisor, the least multiplier whose product reaches the dividend. */
  function CeilQuo(n: int, d: int): (c: int)
    requires d != 0
    ensures d > 0 ==> c * d >= n && (c - 1) * d < n
  {
    var (q, r) := QuoRem(n, d);
    assert (q + 1) * d == q * d + d && (q - 1) * d == q * d - d;
    if r > 0 then q + 1 else q
  }

  /** amount * 10^12 * 10^18 * 100: the borrow in 18-decimal USD, over the 100 of the ratio. */
  function Numerator(amt: int): int {
    amt * UsdScale * OneEth * 100
  }

  function Denominator(price: int): int {
    price * MaxLtvPercent
  }

  /** The least collateral whose value at the price covers the borrow at the maximum
      loan-to-value ratio. */
  function RequiredCollateral(amt: int, price: int): (c: int)
    requires amt > 0 && price > 0
    ensures c > 0
    ensures c * Denominator(price) >= Numerator(amt)
    ensures (c - 1) * Denominator(price) < Numerator(amt)
  {
    var n, d := Numerator(amt), Denominator(price);
    CeilQuoBounds(n, d);
    CeilQuo(n, d)
  }

  /** For a positive numerator and denominator the rounded-up quotient is the least
      multiplier reaching the numerator. */
  lemma CeilQuoBounds(n: int, d: int)
    requires n > 0 && d > 0
    ensures CeilQuo(n, d) > 0
    ensures CeilQuo(n, d) * d >= n
    ensures (CeilQuo(n, d) - 1) * d < n
  {
    var (q, r) := QuoRem(n, d);
    assert n == q * d + r && 0 <= r < d;
    if r > 0 {
      assert (q + 1) * d == q * d + d;
    } else {
      assert q * d == n;
      assert (q - 1) * d == q * d - d;
    }
  }

  /** Any collateral that covers the borrow is at least the required collateral. */
  lemma RequiredCollateralLeast(amt: int, price: int, c: int)
    requires amt > 0 && price > 0
    requires c * Denominator(price) >= Numerator(amt)
    ensures RequiredCollateral(amt, price) <= c
  {
    var r := RequiredCollateral(amt, price);
    MulMonotone(c, r - 1, Denominator(price));
  }

  /** Both bounds pin the collateral down: any c meeting them is the required collateral. */
  lemma RequiredCollateralUnique(amt: int, price: int, c: int)
    requires amt > 0 && price > 0
    requires c * Denominator(price) >= Numerator(amt)
    requires (c - 1) * Denominator(price) < Numerator(amt)
    ensures c == RequiredCollateral(amt, price)
  {
    RequiredCollateralLeast(amt, price, c);
    MulMonotone(RequiredCollateral(amt, price), c - 1, Denominator(price));
  }

  lemma MulMonotone(a: int, b: int, d: int)
    ensures a <= b && d >= 0 ==> a * d <= b * d
  {
  }

  /** A larger borrow never needs less collateral. */
  lemma CollateralMonotoneInAmount(a1: int, a2: int, price: int)
    requires 0 < a1 <= a2 && price > 0
    ensures RequiredCollateral(a1, price) <= RequiredCollateral(a2, price)
  {
    assert Numerator(a1) <= Numerator(a2);
    RequiredCollateralLeast(a1, price, RequiredCollateral(a2, price));
  }

  /** A higher price never needs more collateral. */
  lemma CollateralAntitoneInPrice(amt: int, p1: int, p2: int)
    requires amt > 0 && 0 < p1 <= p2
    ensures RequiredCollateral(amt, p2) <= RequiredCollateral(amt, p1)
  {
    var c1 := RequiredCollateral(amt, p1);
    MulMonotone(Denominator(p1), Denominator(p2), c1);
    RequiredCollateralLeast(amt, p2, c1);
  }

  /** Borrowing 1 USDT at 2000 USD per native token needs 1/1500 of a token, rounded up. */
  lemma OneUsdtAtTwoThousand()
    ensures RequiredCollateral(1_000_000, 2000 * OneEth) == 666_666_666_666_667
  {
    RequiredCollateralUnique(1_000_000, 2000 * OneEth, 666_666_666_666_667);
  }

  /** The price the quote uses: the cached copy when the cache is present and holds one,
      otherwise the result of the oracle read. */
  function QuotePrice(cache: Option<StateCache>, h: Heap, fetched: Result<int, GatewayError>): (r: Result<int, GatewayError>)
    requires cache.Some? ==> CacheValid(cache.value, h)
    ensures cache.Some? && PriceValue(cache.value, h).Some? ==> r == Ok(PriceValue(cache.value, h).value)
    ensures cache.None? || PriceValue(cache.value, h).None? ==> r == fetched
  {
    if cache.Some? && cache.value.nativePrice.Some? then
      var (copy, h') := Cache.GetNativePrice(cache.value, h);
      Ok(h'.ints[copy.value])
    else fetched
  }

  /** The amount passes validation: present, a decimal integer, and positive. */
  predicate ValidAmount(amount: string) {
    amount != "" && ParseBig(amount).Ok? && ParseBig(amount).value > 0
  }

  /** QuoteBorrowCollateral: rejects a missing, malformed or non-positive amount before
      any price is read, then a failed read or a non-positive price; otherwise echoes the
      amount and price in canonical decimal with the required collateral and "75". */
  function QuoteBorrowCollateral(amount: string, cache: Option<StateCache>, h: Heap,
                                 fetched: Result<int, GatewayError>): (r: Result<BorrowQuote, QuoteError>)
    requires cache.Some? ==> CacheValid(cache.value, h)
    ensures amount == "" ==> r == Err(AmountRequired)
    ensures amount != "" && ParseBig(amount).Err? ==> r == Err(InvalidAmount(ParseBig(amount).error))
    ensures amount != "" && ParseBig(amount).Ok? && ParseBig(amount).value <= 0 ==> r == Err(NonPositiveAmount)
    ensures ValidAmount(amount) && QuotePrice(cache, h, fetched).Err? ==>
              r == Err(PriceFetch(QuotePrice(cache, h, fetched).error))
    ensures ValidAmount(amount) && QuotePrice(cache, h, fetched).Ok? && QuotePrice(cache, h, fetched).value <= 0 ==>
              r == Err(NonPositivePrice)
    ensures r.Ok? <==>
              && amount != "" && ParseBig(amount).Ok? && ParseBig(amount).value > 0
              && QuotePrice(cache, h, fetched).Ok? && QuotePrice(cache, h, fetched).value > 0
    ensures r.Ok? ==>
              var amt, price := ParseBig(amount).value, QuotePrice(cache, h, fetched).value;
              r.value == PricedQuote(amt, price)
  {
    if amount == "" then Err(AmountRequired)
    else
      match ParseBig(amount)
      case Err(e) => Err(InvalidAmount(e))
      case Ok(amt) =>
        if amt <= 0 then Err(NonPositiveAmount)
        else
          match QuotePrice(cache, h, fetched)
          case Err(e) => Err(PriceFetch(e))
          case Ok(price) =>
            if price <= 0 then Err(NonPositivePrice)
            else
              if Denominator(price) == 0 then Err(ZeroDenominator)
              else Ok(PricedQuote(amt, price))
  }

  /** The quote for a positive amount at a positive price: the amount and price in canonical
      decimal, the least covering collateral, and the ratio as "75". */
  function PricedQuote(amt: int, price: int): (q: BorrowQuote)
    requires amt > 0 && price > 0
    ensures ParseBig(q.borrowAmount) == Ok(amt)
    ensures ParseBig(q.bnbUsdPrice) == Ok(price)
    ensures ParseBig(q.collateralWei) == Ok(RequiredCollateral(amt, price))
    ensures q.maxLtvPercent == "75"
  {
    BorrowQuote(DecimalOf(amt), DecimalOf(RequiredCollateral(amt, price)), DecimalOf(price), "75")
  }

  /** The zero-denominator guard never fires: the price is positive by then. */
  lemma ZeroDenominatorUnreachable(amount: string, cache: Option<StateCache>, h: Heap,
                                   fetched: Result<int, GatewayError>)
    requires cache.Some? ==> CacheValid(cache.value, h)
    ensures QuoteBorrowCollateral(amount, cache, h, fetched) != Err(ZeroDenominator)
  {
  }

  /** A rejected amount is rejected the same way whatever the cache holds and whatever
      the oracle would return. */
  lemma AmountCheckedFirst(amount: string, c1: Option<StateCache>, h1: Heap, f1: Result<int, GatewayError>,
                           c2: Option<StateCache>, h2: Heap, f2: Result<int, GatewayError>)
    requires c1.Some? ==> CacheValid(c1.value, h1)
    requires c2.Some? ==> CacheValid(c2.value, h2)
    requires amount == "" || ParseBig(amount).Err? || ParseBig(amount).value <= 0
    ensures QuoteBorrowCollateral(amount, c1, h1, f1) == QuoteBorrowCollateral(amount, c2, h2, f2)
  {
  }

  /** A cached price that is not positive is rejected: it does not fall back to the oracle. */
  lemma CachedNonPositivePriceRejected(amount: string, c: StateCache, h: Heap, fetched: Result<int, GatewayError>)
    requires CacheValid(c, h) && c.nativePrice.Some? && h.ints[c.nativePrice.value] <= 0
    requires ValidAmount(amount)
    ensures QuoteBorrowCollateral(amount, Some(c), h, fetched) == Err(NonPositivePrice)
  {
  }

  /** On a cache hit the oracle read does not influence the quote. */
  lemma CacheHitIgnoresOracle(amount: string, c: StateCache, h: Heap,
                              f1: Result<int, GatewayError>, f2: Result<int, GatewayError>)
    requires CacheValid(c, h) && c.nativePrice.Some?
    ensures QuoteBorrowCollateral(amount, Some(c), h, f1) == QuoteBorrowCollateral(amount, Some(c), h, f2)
  {
    assert QuotePrice(Some(c), h, f1) == QuotePrice(Some(c), h, f2);
  }
}
