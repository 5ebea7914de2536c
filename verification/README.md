# Lending-pool backend core in Dafny

This project models the on-chain core of a lending-pool backend. The backend reads a
lending pool contract and a price oracle through hand-written contract-call encoding. It
also builds unsigned transactions for wallets to sign, and quotes the collateral a borrow
needs. The model has five parts.

- **Chain client** (`abi.dfy`, `gateway.dfy`):
  - the hand-rolled codec: `splitWords`, `decodeUint256Array`, `packAddress`,
    `packUint64` and `isHexAddress`;
  - the call data and result decoding of `GetPoolState`, `GetUserPosition`,
    `GetLenderPosition`, `GetLoan`, `GetLoanHealth` and `GetNativePrice`;
  - `ListUserLoans`.

  The JSON-RPC `eth_call` is a function parameter (`Gateway.Transport`).
- **Transaction builder** (`decimal.dfy`, `hex.dfy`, `txbuilder.dfy`): `parseBig`,
  `packUint256`, `bytesToHex`, `buildApproveCall`, `NewTxService`, and the deposit, borrow,
  repay and liquidate builders.
- **Quote service** (`quote.dfy`): `QuoteBorrowCollateral`. This is the least collateral
  covering a USDT borrow at the 75% maximum loan-to-value ratio, rounded up, at the
  cached or freshly read oracle price.
- **State cache** (`cache.dfy`): the pool-state and native-price slots. The model uses an
  explicit heap, so the difference between a slot that shares its pointer (pool state)
  and one that copies its value (price) can be stated.
- **State updater** (`updater.dfy`): `refreshOnce` and `StartStateUpdater`. The updater's
  lifetime is the finite sequence of refreshes before its context is cancelled.

Shared definitions:

- `bytes.dfy`: bytes and big-endian values, standing for `big.Int.SetBytes`/`Bytes`.
- `results.dfy`: `Result`/`Option`.
- `model.dfy`: the response records.

Integers are unbounded and Go semantics are written out where they matter:

- `LowUint64` stands for `big.Int.Uint64`;
- `ToInt64` stands for `big.Int.Int64`;
- `Wrap64` is 64-bit `int` arithmetic;
- `Quote.QuoRem` is the truncating `big.Int.QuoRem`.

Where the code and its documentation differ, the model follows the code:

- Amounts may carry a sign, because `parseBig` uses `SetString`. A negative amount
  builds a transaction for its magnitude, because `packUint256` packs `big.Int.Bytes`.
- The boolean result words (`isActive`, `isLiquidatable`) are true only when their last
  byte is exactly 1.
- `isHexAddress` checks only the length and the prefix. The length is Go's `len`, a count of
  UTF-8 bytes (`Abi.Utf8Len`), not of characters.

The service layer repeats `packAddress`, `packUint64` and `isHexAddress`
(internal/service/tx_service.go:219-249) with the same bodies as the chain client. Each
is modelled once, in `Abi`.

## Model

| member | source | states |
|---|---|---|
| Bytes.BeValue | internal/onchain/eth_client.go:311 | `big.Int.SetBytes`: the big-endian value of n bytes is below 256^n |
| Bytes.BeBytesOfValue | internal/service/tx_service.go:211-216 | every byte string is the fixed-width encoding of its own big-endian value |
| Bytes.BeValueInjective | internal/service/tx_service.go:211-216 | two equal-width byte strings with the same value are equal |
| Bytes.MinimalBytes | internal/service/tx_service.go:213 | the magnitude bytes (`big.Int.Bytes`) read back to the value and have no leading zero byte |
| Bytes.MinimalBytesFit | internal/service/tx_service.go:213-214 | the magnitude fits k bytes exactly when the value is below 256^k |
| Bytes.PadMinimalIsBeBytes | internal/service/tx_service.go:211-216 | right-aligning the magnitude in a zeroed word gives the fixed-width big-endian encoding |
| Bytes.LowUint64 | internal/onchain/eth_client.go:232-233 | `Uint64` keeps values below 2^64 and otherwise agrees with the value modulo 2^64 |
| Bytes.ToInt64 | internal/onchain/eth_client.go:110 | `Int64` lies in the signed 64-bit range, agrees modulo 2^64, and is the value itself below 2^63 |
| Bytes.Wrap64 | internal/onchain/eth_client.go:318-327 | a Go `int` result is in the 64-bit range and congruent to the exact result, and equals it when it fits |
| Decimal.TrimSpace | internal/service/tx_service.go:199 | the result starts and ends with a non-space, is empty iff the input is all space, and a trimmed input is unchanged |
| Decimal.ParseBig | internal/service/tx_service.go:198-208 | the empty-string error exactly for all-space input; success exactly when the trimmed text is an optionally signed digit string, with its decimal value |
| Decimal.FormatNat | internal/onchain/eth_client.go:85-89 | `big.Int.String` of a non-negative value: a non-empty digit string with the value and no leading zero |
| Decimal.FormatInt | internal/onchain/eth_client.go:85-89 | `big.Int.String`: a digit string with the integer's value, a leading '-' exactly for negative values, never '+', and no leading zero in the digits (so "0", not "-0" or "00") |
| Decimal.ParseFormatRoundTrip | internal/onchain/eth_client.go:85-89 | the decimal fields the client produces parse back, through parseBig, to the decoded values |
| Decimal.DecimalOf | internal/onchain/eth_client.go:85-89 | a decoded word rendered in decimal parses back to the word |
| Decimal.FormatIntInjective | internal/onchain/eth_client.go:85-89 | distinct values render to distinct decimal strings |
| Decimal.FormatDigitsValue | internal/service/quote_service.go:110-112 | a canonical digit string is the rendering of its own value |
| Decimal.ParseCanonical | internal/service/tx_service.go:198-208 | text already in SetString's shape parses to its value without trimming |
| Hex.HexDigits | internal/service/tx_service.go:237-240 | byte i becomes its high nibble digit then its low nibble digit at positions 2i and 2i+1 |
| Hex.BytesToHex | internal/service/tx_service.go:233-242 | the output is "0x" and two lower-case hex digits per byte, high nibble first |
| Hex.DecodeHexDigitsRoundTrip | internal/service/tx_service.go:233-242 | the digit pairs decode back to the bytes |
| Hex.HexRoundTrip | internal/service/tx_service.go:233-242 | reading hex call data back yields the bytes that were rendered |
| Hex.BytesToHexInjective | internal/service/tx_service.go:233-242 | distinct call data renders to distinct strings |
| Abi.PackAddress | internal/onchain/eth_client.go:343-347 | twelve zero bytes then the address; the address reads back from the word |
| Abi.PackUint64 | internal/onchain/eth_client.go:350-355 | the 32-byte big-endian encoding of the value, which reads back as the value |
| Abi.PackUint64RoundTrip | internal/onchain/eth_client.go:350-355 | a packed id read back with SetBytes and Uint64 is the id |
| Abi.FitsWordIff | internal/service/tx_service.go:213-214 | the `copy` into the word is in range exactly when the magnitude is below 2^256 |
| Abi.PackUint256 | internal/service/tx_service.go:211-216 | a 32-byte word whose value is the magnitude of the integer, so the sign is dropped |
| Abi.SplitWords | internal/onchain/eth_client.go:303-314 | too-short input is an error naming both sizes; otherwise exactly n words, word i read from bytes 32i..32i+32 |
| Abi.JoinWords | internal/onchain/eth_client.go:303-314 | the static encoding of a tuple that splitWords reads: one big-endian word per value |
| Abi.SplitJoinRoundTrip | internal/onchain/eth_client.go:303-314 | splitting an encoded tuple, whatever follows it, recovers the tuple |
| Abi.SplitWordsIgnoresTail | internal/onchain/eth_client.go:303-314 | bytes after the n words do not change the result |
| Abi.DecodeUint256Array | internal/onchain/eth_client.go:317-340 | with exact bounds: an offset outside the data, a negative Int64 length, and elements past the end are each rejected with their own error, in that order; otherwise the declared number of elements, element i being the low 64 bits of word i |
| Abi.ArrayRoundTrip | internal/onchain/eth_client.go:317-340 | an encoded array placed after any prefix decodes, at that offset, to its elements |
| Abi.ArrayExactFit | internal/onchain/eth_client.go:326-329 | a buffer ending exactly after the last element decodes; one byte shorter is rejected |
| Abi.DecodeUint256ArrayWrapping | internal/onchain/eth_client.go:317-340 | the as-written checks in wrapping 64-bit `int`: whatever they accept or reject agrees with the exact decoder, except that they can panic |
| Abi.WrappedLengthPanics | internal/onchain/eth_client.go:326-331 | a 64-byte buffer declaring 2^59+1 elements passes the wrapped size check and panics; the exact decoder rejects it |
| Abi.WrappedOffsetPanics | internal/onchain/eth_client.go:318-320 | offset 2^63-1 passes the wrapped offset check on an empty buffer and panics; the exact decoder rejects it |
| Abi.Utf8Len | internal/onchain/eth_client.go:359 | Go's `len` of a string: between 1 and 4 bytes per character, and equal to the character count exactly when every character is ASCII |
| Abi.IsHexAddress | internal/onchain/eth_client.go:358-366 | 42 UTF-8 bytes and a "0x"/"0X" prefix; an accepted string has between 11 and 42 characters |
| Abi.HexAddressIgnoresDigits | internal/onchain/eth_client.go:358-366 | anything of forty UTF-8 bytes after "0x" or "0X" passes, hex digits or not; any other byte length fails |
| Abi.HexAddressCountsBytes | internal/onchain/eth_client.go:359 | "0x" and twenty two-byte characters pass; "0x" and forty of them fail |
| Gateway.PoolStateCall | internal/onchain/eth_client.go:70-71 | getPoolState call data is the 4-byte selector alone |
| Gateway.AddressCall | internal/onchain/eth_client.go:96-98 | selector, then a word of twelve zero bytes from which the address reads back |
| Gateway.IdCall | internal/onchain/eth_client.go:203-205 | selector, then a word whose value is the id |
| Gateway.PriceCall | internal/onchain/eth_client.go:269-274 | getPrice selector followed by an all-zero address word |
| Gateway.DecodePoolState | internal/onchain/eth_client.go:78-90 | succeeds iff there are 160 bytes; each of the five fields parses back to its word, in order |
| Gateway.PoolStateRoundTrip | internal/onchain/eth_client.go:78-90 | five encoded values decode to the pool state holding them, whatever follows |
| Gateway.DecodeLenderPosition | internal/onchain/eth_client.go:146-159 | succeeds iff there are 96 bytes; address and three word fields as read |
| Gateway.DecodeLoan | internal/onchain/eth_client.go:212-235 | succeeds iff there are 224 bytes; borrower bytes 12..32, three decimal words, low 64 bits of start and duration, active iff the last byte is 1 |
| Gateway.LoanRoundTrip | internal/onchain/eth_client.go:212-235 | the contract's loan layout decodes to every field it holds |
| Gateway.FlagTwoDecodesInactive | internal/onchain/eth_client.go:224 | a non-zero flag word ending in byte 2 decodes as inactive |
| Gateway.DecodeLoanHealth | internal/onchain/eth_client.go:249-259 | succeeds iff there are 64 bytes; the ltv word, and liquidatable iff the last byte is 1 |
| Gateway.DecodeHeadArray | internal/onchain/eth_client.go:110-122 | the loan-id array at the offset read by Int64 from the first word, with the offset validated |
| Gateway.DecodeHeadArrayWrapping | internal/onchain/eth_client.go:110-113 | the as-written head-offset check in wrapping 64-bit `int`, then the wrapping array decoder: what it decodes or rejects agrees with the exact decode, and otherwise it panics |
| Gateway.HeadOffsetPanics | internal/onchain/eth_client.go:110-113 | a 128-byte reply whose first word is 2^63-1 panics as written, while the exact decode rejects it as an invalid offset |
| Gateway.DecodeUserPosition | internal/onchain/eth_client.go:105-130 | too short below 128 bytes; success iff the id array decodes; the ids and the three totals as read |
| Gateway.UserPositionRoundTrip | internal/onchain/eth_client.go:105-130 | a head of offset 128 and three totals, followed by an encoded id array, decodes to those ids and totals |
| Gateway.UserPositionOf | internal/onchain/eth_client.go:115-130 | a buffer whose head array decodes to the ids gives the position with those ids and the three head totals |
| Gateway.DecodeNativePrice | internal/onchain/eth_client.go:285-290 | succeeds iff there are 32 bytes; the price is the first word, below 2^256 |
| Gateway.CallAndDecode | internal/onchain/eth_client.go:73-82 | a transport error becomes a call failure and a decode error a decode failure; success iff both steps succeed, with the decoded value |
| Gateway.GetPoolState | internal/onchain/eth_client.go:69-91 | a transport error is returned as a call failure; success iff the call and the decoding succeed, with the decoded state |
| Gateway.GetUserPosition | internal/onchain/eth_client.go:93-131 | the same for getUserPosition(address) and the position decoder |
| Gateway.GetLenderPosition | internal/onchain/eth_client.go:134-160 | the same for getLenderPosition(address) and the lender decoder |
| Gateway.GetLoan | internal/onchain/eth_client.go:202-236 | the same for loans(id) and the loan decoder |
| Gateway.GetLoanHealth | internal/onchain/eth_client.go:239-260 | the same for getLoanHealth(id) and the health decoder |
| Gateway.GetNativePrice | internal/onchain/eth_client.go:264-291 | fails as not configured exactly when the oracle is the zero address; otherwise calls the oracle and returns the decoded price |
| Gateway.NativePriceReadsOnlyOracle | internal/onchain/eth_client.go:276-281 | the price depends only on the oracle's answer to getPrice(address(0)) |
| Gateway.FetchEach | internal/onchain/eth_client.go:189-196 | all reads succeed iff the result holds each read in order; otherwise the first failing read's error |
| Gateway.LoanRead | internal/onchain/eth_client.go:191-194 | one loans(id) read: its loan when it succeeds, otherwise its error wrapped with the id ("get loan %d: %w") |
| Gateway.FetchEachWrapsError | internal/onchain/eth_client.go:189-196 | when every read wraps its base read's error with the id, a failed walk returns the wrapped error of the first failing base read, every earlier one having succeeded |
| Gateway.FetchLoansSucceed | internal/onchain/eth_client.go:189-196 | the walk over the ids succeeds iff every loans(id) read does, and then holds each read's loan in order |
| Gateway.FetchLoansFail | internal/onchain/eth_client.go:189-196 | a failed walk returns LoanReadFailed with the first failing id and that read's error |
| Gateway.FetchLoans | internal/onchain/eth_client.go:189-196 | the loans, read in id order; a failure is LoanReadFailed carrying the first failing id and that read's own error, every earlier read having succeeded |
| Gateway.ListUserLoans | internal/onchain/eth_client.go:163-199 | a call failure, output under 32 bytes and an invalid id array are each errors; otherwise the result is that of reading the loans of the decoded ids in order, a failed read coming back wrapped with its id |
| Gateway.LoanFailureKeepsId | internal/onchain/eth_client.go:170-194 | the error is a loan-read failure exactly when the id array was read and some loans(id) read fails, and then it names one of the listed ids; a getUserLoans failure is never reported as one |
| TxBuilder.ReadCallOf | internal/service/tx_service.go:233-242 | hex call data built from a selector and encoded words reads back as that selector and those words |
| TxBuilder.AddressWordInjective | internal/service/tx_service.go:188 | the spender word determines the spender |
| TxBuilder.TokenSetting | internal/service/tx_service.go:44-47 | the USDT setting when it is non-empty, else MockUSDT; empty only when both are |
| TxBuilder.NewTxService | internal/service/tx_service.go:43-61 | succeeds iff the chosen token and the pool pass the address check (42 UTF-8 bytes and the prefix); the token error is reported first; the addresses are converted |
| TxBuilder.UsdtPreferred | internal/service/tx_service.go:44-47 | a set USDT address makes the MockUSDT setting irrelevant; an empty one falls back to MockUSDT |
| TxBuilder.NoTokenConfigured | internal/service/tx_service.go:44-50 | with neither token set, construction fails on the empty token address |
| TxBuilder.BuildApproveCall | internal/service/tx_service.go:185-196 | approve on the token with no value; the data reads back as the approve selector, the spender and the magnitude |
| TxBuilder.PoolCall | internal/service/tx_service.go:136-144 | a one-argument pool call with no value whose data reads back as the selector and the word |
| TxBuilder.ParseWord | internal/service/tx_service.go:198-216 | a parse error is wrapped; a parsed value is kept iff its magnitude fits a word, else the word-overflow error |
| TxBuilder.BuildDepositTx | internal/service/tx_service.go:65-88 | a parse error is reported; success iff the amount parses and fits; approve the pool for the magnitude, then deposit(magnitude) on the pool |
| TxBuilder.DepositCalls | internal/service/tx_service.go:71-87 | the approve and deposit calls read back to the right targets, selectors and magnitude |
| TxBuilder.BorrowCall | internal/service/tx_service.go:101-113 | borrow(magnitude, duration) on the pool, with the collateral as value in decimal |
| TxBuilder.BuildBorrowTx | internal/service/tx_service.go:91-118 | amount errors first, then collateral errors; success iff both parse and the amount fits; the call reads back and its value parses to the collateral |
| TxBuilder.BuildLoanAction | internal/service/tx_service.go:122-150 | a read error, then a parse error of the repayment amount; success approves the repayment magnitude, then calls the action with the loan id |
| TxBuilder.BuildRepayTx | internal/service/tx_service.go:122-150 | repay is the loan action with the repay selector |
| TxBuilder.BuildLiquidateTx | internal/service/tx_service.go:154-182 | liquidate is the loan action with the liquidate selector |
| TxBuilder.PackMagnitude | internal/service/tx_service.go:211-216 | two integers with the same magnitude pack to the same word |
| TxBuilder.DepositDependsOnMagnitude | internal/service/tx_service.go:65-88 | deposits of amounts with the same magnitude are identical |
| TxBuilder.NegativeDepositPacksMagnitude | internal/service/tx_service.go:198-216 | "-d" builds exactly the deposit for "d", and succeeds iff d is below 2^256 |
| TxBuilder.RepayAndLiquidateAgree | internal/service/tx_service.go:122-182 | repay and liquidate of the same loan succeed together, approve the same amount, and pass the same loan id |
| TxBuilder.RepayApprovesOnChainAmount | internal/service/tx_service.go:122-150 | repaying a loan read through the chain client approves the repaymentAmount word the contract returned and names the loan id |
| TxBuilder.OnChainRepayment | internal/onchain/eth_client.go:214-231 | a full loans(id) answer gives a loan whose repayment amount parses back to the returned word |
| Cache.NewStateCache | internal/service/state_cache.go:17-19 | a new cache has both slots empty |
| Cache.SetPoolState | internal/service/state_cache.go:21-25 | the pool slot holds the given pointer; the price slot is untouched |
| Cache.GetPoolState | internal/service/state_cache.go:27-34 | a hit exactly when the slot is set, returning the stored pointer itself |
| Cache.SetNativePrice | internal/service/state_cache.go:36-45 | nil empties the slot; otherwise the slot points at a fresh object holding the caller's value |
| Cache.GetNativePrice | internal/service/state_cache.go:47-55 | a hit exactly when the slot is set, returning a fresh object holding the cached value |
| Cache.NewCacheMisses | internal/service/state_cache.go:17-34 | a new cache misses on both reads |
| Cache.PriceRoundTrip | internal/service/state_cache.go:36-55 | the copy read back holds the value that was stored |
| Cache.PriceIsolatedFromWriter | internal/service/state_cache.go:43-44 | mutating the integer passed to SetNativePrice does not change the cached price |
| Cache.PriceIsolatedFromReader | internal/service/state_cache.go:53-54 | mutating the integer returned by GetNativePrice does not change the cached price |
| Cache.PoolStateShared | internal/service/state_cache.go:21-34 | a write through the pointer handed out is what the next reader sees |
| Cache.PoolStateLastWriteWins | internal/service/state_cache.go:21-25 | only the last SetPoolState counts |
| Cache.PriceLastWriteWins | internal/service/state_cache.go:36-45 | only the last SetNativePrice counts |
| Cache.SlotsIndependent | internal/service/state_cache.go:21-45 | setting either slot leaves what a reader of the other slot gets unchanged |
| Quote.QuoRem | internal/service/quote_service.go:104 | truncated division: n = q*d + r, the remainder is smaller than the divisor and has the dividend's sign |
| Quote.CeilQuo | internal/service/quote_service.go:103-107 | for a positive divisor, the rounded-up quotient is the least multiplier whose product reaches the dividend |
| Quote.RequiredCollateral | internal/service/quote_service.go:83-107 | the collateral is positive, covers amount*10^12*10^18*100 at price*75, and one wei less does not |
| Quote.CeilQuoBounds | internal/service/quote_service.go:103-107 | rounding the quotient up when the remainder is positive gives the least multiple reaching the numerator |
| Quote.RequiredCollateralLeast | internal/service/quote_service.go:88-91 | any covering collateral is at least the quoted one |
| Quote.RequiredCollateralUnique | internal/service/quote_service.go:88-107 | the two bounds determine the quoted collateral |
| Quote.CollateralMonotoneInAmount | internal/service/quote_service.go:83-107 | a larger borrow never needs less collateral |
| Quote.CollateralAntitoneInPrice | internal/service/quote_service.go:83-107 | a higher price never needs more collateral |
| Quote.OneUsdtAtTwoThousand | internal/service/quote_service.go:83-107 | 1 USDT at 2000 USD per token needs 666666666666667 wei |
| Quote.QuotePrice | internal/service/quote_service.go:67-78 | a present cache holding a price supplies it; otherwise the oracle read is used |
| Quote.QuoteBorrowCollateral | internal/service/quote_service.go:49-115 | empty, malformed and non-positive amounts are rejected in that order, then a failed price read (its error wrapped) and a non-positive price; success iff none of these, with the priced quote |
| Quote.PricedQuote | internal/service/quote_service.go:109-114 | amount, collateral and price in decimal that parse back to their values, and "75" |
| Quote.ZeroDenominatorUnreachable | internal/service/quote_service.go:99-101 | the zero-denominator error never occurs |
| Quote.AmountCheckedFirst | internal/service/quote_service.go:50-60 | a rejected amount is rejected the same way whatever the cache and the oracle hold |
| Quote.CachedNonPositivePriceRejected | internal/service/quote_service.go:68-81 | a cached price of zero or less is rejected as non-positive, whatever the oracle would return |
| Quote.CacheHitIgnoresOracle | internal/service/quote_service.go:68-74 | on a cache hit the oracle's answer does not affect the quote |
| Updater.StorePool | internal/service/state_updater.go:42-46 | a successful pool read is stored and a failed one changes nothing; the price is untouched |
| Updater.StorePrice | internal/service/state_updater.go:48-52 | a successful price read is stored and a failed one changes nothing; the pool state is untouched |
| Updater.RefreshOnce | internal/service/state_updater.go:37-53 | a nil cache is left alone; otherwise each slot takes the value just read, or keeps its old value when that read failed |
| Updater.Run | internal/service/state_updater.go:25-33 | the refreshes in order keep the cache well formed |
| Updater.StartStateUpdater | internal/service/state_updater.go:13-35 | nothing starts exactly for a nil cache; a started updater's cache is well formed |
| Updater.RunStep | internal/service/state_updater.go:30-31 | one more refresh moves each slot to its read value, or keeps it when the read failed |
| Updater.PriceLastKnownGood | internal/service/state_updater.go:37-53 | after any run the price is the last successfully read one, or the initial one when none succeeded |
| Updater.PoolLastKnownGood | internal/service/state_updater.go:37-53 | after any run the pool state is the last successfully read one, or the initial one when none succeeded |
| Updater.NilCacheIgnored | internal/service/state_updater.go:14-16 | a nil cache never starts an updater and a refresh on it does nothing |
| Updater.StartedHoldsLatest | internal/service/state_updater.go:18-20 | when the first refresh reads both values and no later tick reads one, the cache holds the first refresh's values |

## Left out

- The JSON-RPC client, dialling, `context` deadlines and the `call` wrapper (eth_client.go:294-300). These are I/O; the transport is a function parameter.
- Keccak-256 selector computation. The selectors are the constants the code lists.
- `common.HexToAddress`. It is a function parameter of `TxBuilder.NewTxService`. `GetUserPosition`, `GetLenderPosition` and `ListUserLoans` also parse their address string with it (eth_client.go:94, :135, :164). Their models take the parsed 20-byte `Address`, so the lenient parse happens before the call.
- `Address.Hex()` (EIP-55 checksummed text). `TxCall.to` and `Loan.borrower` are the 20 address bytes.
- The goroutine, the ticker, the read-write mutex and logging. Each cache operation is one atomic step, and an updater's life is a finite sequence of refreshes.
- HTTP handlers, configuration loading and everything outside the chain client and the four services named above.
- `GetLenderPosition`'s `NetDeposited` and `Interest`. They are fixed placeholders ("0") in the code, and the model keeps them.
- Gateway.DecodeHeadArray, Gateway.DecodeUserPosition, Gateway.ListUserLoans: these model the intended, exact head-offset check. The code as written wraps at eth_client.go:111 and :180 and can panic; that behaviour is Gateway.DecodeHeadArrayWrapping (see Findings).
- Error text. Go's `fmt.Errorf` messages are modelled as error constructors, one per wrap: `CallFailed`, `DecodeFailed`, `OracleNotConfigured` and `LoanReadFailed` (which keeps the id of "get loan %d") in `Gateway`, and `PriceFetch` and its neighbours in `Quote` and `TxBuilder`. The formatted message strings are not.
- Strings are sequences of Unicode scalar values. A Go string holding invalid UTF-8 is not modelled. `len` is the UTF-8 byte count of the characters.
- Gateway.LoanRoundTrip, Gateway.UserPositionRoundTrip: stated for any buffer that holds the words. They do not cover a contract's ABI encoder, which is not part of this model.
- Quote.QuoteBorrowCollateral: the price read is a value parameter, so the model does not show that the oracle is called lazily. Quote.AmountCheckedFirst and Quote.CacheHitIgnoresOracle state that the read does not influence those cases.
- TxBuilder.BuildDepositTx, TxBuilder.BuildBorrowTx, TxBuilder.BuildLoanAction: a magnitude of 2^256 or more makes `packUint256` panic (a negative slice index). The model returns the `WordOverflow` error instead.

## Findings

| source | as written | input that shows it | evidently intended | confidence | as-written member | corrected member |
|---|---|---|---|---|---|---|
| internal/onchain/eth_client.go:317-340 | the offset and size checks compute `offset+32` and `offset+32+int(length)*32` in 64-bit `int`, which wraps (the same `int(offset)+32` appears at lines 111 and 180) | a 64-byte buffer whose length word is 2^59+1 (the byte count wraps to 32, so the check passes and `make([]uint64, length)` at line 332 panics); or offset 2^63-1 on an empty buffer | reject any array that does not lie inside the buffer | high, not executed | Abi.DecodeUint256ArrayWrapping | Abi.DecodeUint256Array |
| internal/onchain/eth_client.go:110-113 | `GetUserPosition` checks the head offset with `int(offset)+32 > len(out)` in 64-bit `int`, which wraps; `ListUserLoans` repeats it at lines 179-182 | a 128-byte reply whose first word is 2^63-1: the sum wraps negative, the check passes, and the array decoder's slice panics | reject an offset whose length word lies outside the reply | high, not executed | Gateway.DecodeHeadArrayWrapping | Gateway.DecodeHeadArray |
