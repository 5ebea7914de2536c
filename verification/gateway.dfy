/** The read side of the chain client: call data for each view function, the decoding
    of each result buffer, and the gateway operations over an abstract transport that
    stands for the JSON-RPC eth_call. */
module Gateway {
  import opened Results
  import opened Bytes
  import opened Decimal
  import opened Abi
  import opened Model

  // 4-byte function selectors, taken as opaque constants.
  const SelectorGetPoolState: seq<byte> := [0x21, 0x7a, 0xc2, 0x37]
  const SelectorGetUserPosition: seq<byte> := [0x5b, 0x7c, 0x2d, 0xad]
  const SelectorGetUserLoans: seq<byte> := [0x02, 0xbf, 0x32, 0x1f]
  const SelectorGetLoanHealth: seq<byte> := [0xb6, 0xe0, 0x76, 0x88]
  const SelectorLoans: seq<byte> := [0xe1, 0xec, 0x3c, 0x68]
  const SelectorGetLenderPosition: seq<byte> := [0x5d, 0x41, 0x3f, 0xa2]
  const SelectorGetPrice: seq<byte> := [0x41, 0x97, 0x6e, 0x09]

  datatype GatewayError =
    | CallFailed(msg: string)
    | DecodeFailed(cause: DecodeError)
    | OracleNotConfigured
      /** A loans(id) read inside listUserLoans failed; the failing id is kept with the cause. */
    | LoanReadFailed(id: uint64, readError: GatewayError)

  /** The two contract addresses the client reads from; the zero oracle means "not configured". */
  datatype EthClient = EthClient(lendingPool: Address, oracle: Address)

  /** A read-only contract call: target and call data to the returned bytes or a transport error. */
  type Transport = (Address, seq<byte>) -> Result<seq<byte>, string>

  // ---------------------------------------------------------------- call data

  /** getPoolState() takes no argument: the call data is the selector alone. */
  function PoolStateCall(): (data: seq<byte>)
    ensures |data| == 4 && data == SelectorGetPoolState
  {
    SelectorGetPoolState
  }

  /** A single-address call: the selector, then the address in one 32-byte word. */
  function AddressCall(selector: seq<byte>, a: Address): (data: seq<byte>)
    requires |selector| == 4
    ensures |data| == 36 && data[..4] == selector
    ensures forall i :: 4 <= i < 16 ==> data[i] == 0
    ensures AddressOfWord(data[4..]) == a
  {
    var w := PackAddress(a);
    assert (selector + w)[4..] == w;
    selector + w
  }

  /** A single-id call: the selector, then the id as a 32-byte big-endian word. */
  function IdCall(selector: seq<byte>, id: uint64): (data: seq<byte>)
    requires |selector| == 4
    ensures |data| == 36 && data[..4] == selector
    ensures Word(data, 4) == id
  {
    var w := PackUint64(id);
    assert (selector + w)[4..36] == w[0..32];
    selector + w
  }

  /** getPrice(address(0)): the selector and an all-zero argument word. */
  function PriceCall(): (data: seq<byte>)
    ensures |data| == 36 && data[..4] == SelectorGetPrice
    ensures forall i :: 4 <= i < 36 ==> data[i] == 0
  {
    AddressCall(SelectorGetPrice, ZeroAddress)
  }

  // ---------------------------------------------------------------- decoders

  /** (totalAssets, totalBorrowed, availableLiquidity, exchangeRate, totalFTokenSupply). */
  function DecodePoolState(out: seq<byte>): (r: Result<PoolState, DecodeError>)
    ensures r.Ok? <==> |out| >= 160
    ensures r.Err? ==> r.error == TooShort(160, |out|)
    ensures r.Ok? ==>
              && ParseBig(r.value.totalAssets) == Ok(Word(out, 0))
              && ParseBig(r.value.totalBorrowed) == Ok(Word(out, 32))
              && ParseBig(r.value.availableLiquidity) == Ok(Word(out, 64))
              && ParseBig(r.value.exchangeRate) == Ok(Word(out, 96))
              && ParseBig(r.value.totalFTokenSupply) == Ok(Word(out, 128))
  {
    var w :- SplitWords(out, 5);
    Ok(PoolState(DecimalOf(w[0]), DecimalOf(w[1]), DecimalOf(w[2]), DecimalOf(w[3]), DecimalOf(w[4])))
  }

  /** Decoding the static encoding of five words yields those five values, in order. */
  lemma PoolStateRoundTrip(ws: seq<nat>, extra: seq<byte>)
    requires |ws| == 5 && AllWords(ws)
    ensures DecodePoolState(JoinWords(ws) + extra)
            == Ok(PoolState(DecimalOf(ws[0]), DecimalOf(ws[1]), DecimalOf(ws[2]), DecimalOf(ws[3]), DecimalOf(ws[4])))
  {
    SplitJoinRoundTrip(ws, extra);
  }

  /** (fTokenBalance, exchangeRate, underlyingBalance); the last two fields are placeholders. */
  function DecodeLenderPosition(a: Address, out: seq<byte>): (r: Result<LenderPosition, DecodeError>)
    ensures r.Ok? <==> |out| >= 96
    ensures r.Err? ==> r.error == TooShort(96, |out|)
    ensures r.Ok? ==>
              && r.value.address == a
              && ParseBig(r.value.fTokenBalance) == Ok(Word(out, 0))
              && ParseBig(r.value.exchangeRate) == Ok(Word(out, 32))
              && ParseBig(r.value.underlyingBalance) == Ok(Word(out, 64))
  {
    var w :- SplitWords(out, 3);
    Ok(LenderPosition(a, DecimalOf(w[0]), DecimalOf(w[1]), DecimalOf(w[2]), "0", "0"))
  }

  /** (address borrower, collateralAmount, principal, repaymentAmount, startTime, duration,
      bool isActive): seven words. The flag is true only when the last byte is exactly 1. */
  function DecodeLoan(id: uint64, out: seq<byte>): (r: Result<Loan, DecodeError>)
    ensures r.Ok? <==> |out| >= 224
    ensures r.Err? ==> r.error == OutputTooShort
    ensures r.Ok? ==>
              && r.value.id == id
              && r.value.borrower == out[12..32]
              && ParseBig(r.value.collateralAmount) == Ok(Word(out, 32))
              && ParseBig(r.value.principal) == Ok(Word(out, 64))
              && ParseBig(r.value.repaymentAmount) == Ok(Word(out, 96))
              && r.value.startTime == LowUint64(Word(out, 128))
              && r.value.duration == LowUint64(Word(out, 160))
              && (r.value.isActive <==> out[223] == 1)
  {
    if |out| < 7 * 32 then Err(OutputTooShort)
    else
      Ok(Loan(
        id,
        out[12..32],
        DecimalOf(Word(out, 32)),
        DecimalOf(Word(out, 64)),
        DecimalOf(Word(out, 96)),
        LowUint64(Word(out, 128)),
        LowUint64(Word(out, 160)),
        out[192 + 31] == 1))
  }

  /** The words of a six-word tuple behind a one-word head, and the last byte of the last word. */
  lemma SixWordsAfterHead(head: seq<byte>, body: seq<byte>, ws: seq<nat>)
    requires |head| == 32 && |ws| == 6 && HoldsWords(body, ws)
    ensures var out := head + body;
            && |out| == 224
            && Word(out, 32) == ws[0] && Word(out, 64) == ws[1] && Word(out, 96) == ws[2]
            && Word(out, 128) == ws[3] && Word(out, 160) == ws[4]
            && (ws[5] < 256 ==> out[223] == ws[5])
  {
    var out := head + body;
    WordAfterHead(head, body, ws, 0, 32);
    WordAfterHead(head, body, ws, 1, 64);
    WordAfterHead(head, body, ws, 2, 96);
    WordAfterHead(head, body, ws, 3, 128);
    WordAfterHead(head, body, ws, 4, 160);
    WordAfterHead(head, body, ws, 5, 192);
    if ws[5] < 256 {
      LastByte(out[192..224]);
    }
  }

  /** Decoding the contract's layout of a loan (the borrower word, then the words for
      collateral, principal, repayment, start time, duration and a 0/1 flag) recovers every field.
      HoldsWords(body, ws) says body is exactly the words ws. */
  lemma LoanRoundTrip(id: uint64, borrower: Address, body: seq<byte>, ws: seq<nat>)
    requires |ws| == 6 && HoldsWords(body, ws)
    requires ws[3] < U64Limit && ws[4] < U64Limit && ws[5] < 2
    ensures DecodeLoan(id, PackAddress(borrower) + body)
            == Ok(Loan(id, borrower, DecimalOf(ws[0]), DecimalOf(ws[1]), DecimalOf(ws[2]),
                       ws[3], ws[4], ws[5] == 1))
  {
    var head := PackAddress(borrower);
    assert (head + body)[12..32] == head[12..32];
    SixWordsAfterHead(head, body, ws);
  }

  /** A flag word whose last byte is 2 is a non-zero word, yet the loan decodes as inactive. */
  lemma FlagTwoDecodesInactive(id: uint64, out: seq<byte>)
    requires |out| >= 224 && out[223] == 2
    ensures Word(out, 192) >= 2
    ensures !DecodeLoan(id, out).value.isActive
  {
    var w := out[192..224];
    assert w[31] == 2;
    assert BeValue(w) == BeValue(w[..31]) * 256 + 2;
  }

  /** (uint256 ltv, bool liquidatable): liquidatable only when the last byte is exactly 1. */
  function DecodeLoanHealth(out: seq<byte>): (r: Result<LoanHealth, DecodeError>)
    ensures r.Ok? <==> |out| >= 64
    ensures r.Err? ==> r.error == OutputTooShort
    ensures r.Ok? ==> ParseBig(r.value.ltv) == Ok(Word(out, 0)) && (r.value.isLiquidatable <==> out[63] == 1)
  {
    if |out| < 2 * 32 then Err(OutputTooShort)
    else
      Ok(LoanHealth(DecimalOf(Word(out, 0)), out[32 + 31] == 1))
  }

  /** The offset stored in the first head word, as big.Int.Int64 reads it. */
  function HeadOffset(out: seq<byte>): int
    requires |out| >= 32
  {
    ToInt64(Word(out, 0))
  }

  /** The dynamic array whose offset is the first head word; the offset is validated first. */
  function DecodeHeadArray(out: seq<byte>): (r: Result<seq<uint64>, DecodeError>)
    requires |out| >= 32
    ensures r == DecodeUint256Array(out, HeadOffset(out))
  {
    var offset := HeadOffset(out);
    if offset < 0 || offset + 32 > |out| then Err(InvalidOffset(offset))
    else DecodeUint256Array(out, offset)
  }

  /** The head-array decode as written: the `int(offset)+32` check wraps at 64 bits, and the
      array decoder it hands the offset to wraps as well. */
  function DecodeHeadArrayWrapping(out: seq<byte>): (r: ArrayOutcome)
    requires 32 <= |out| < I64Limit
    ensures r.Decoded? ==> DecodeHeadArray(out) == Ok(r.ids)
    ensures r.Rejected? ==> DecodeHeadArray(out) == Err(r.error)
    ensures r.Panics? ==> DecodeHeadArray(out).Err?
    ensures DecodeHeadArray(out).Ok? ==> r.Decoded?
  {
    var offset := HeadOffset(out);
    if offset < 0 || Wrap64(offset + 32) > |out| then Rejected(InvalidOffset(offset))
    else DecodeUint256ArrayWrapping(out, offset)
  }

  /** A 128-byte reply whose first word is 2^63 - 1: `int(offset)+32` wraps negative, so the
      as-written check passes and the slice panics; the exact check rejects the reply. */
  lemma HeadOffsetPanics(a: Address)
    ensures var out := BeBytesWord(I64Limit - 1) + Zeros(96);
            && |out| == 128
            && DecodeHeadArrayWrapping(out) == Panics
            && DecodeUserPosition(a, out) == Err(InvalidOffset(I64Limit - 1))
  {
    var w := BeBytesWord(I64Limit - 1);
    var out := w + Zeros(96);
    assert out[0..32] == w;
    assert HeadOffset(out) == I64Limit - 1;
    assert Wrap64(I64Limit - 1 + 32) == 31 - I64Limit;
  }

  /** The 32-byte big-endian word holding v. */
  function BeBytesWord(v: nat): (w: seq<byte>)
    requires v < WordLimit
    ensures |w| == 32 && BeValue(w) == v
  {
    Pow256Word();
    BeBytes(v, 32)
  }

  /** (uint256[] loanIds, totalPrincipal, totalRepayment, totalCollateral): four head words,
      the first being the offset of the loan-id array. */
  function DecodeUserPosition(a: Address, out: seq<byte>): (r: Result<UserPosition, DecodeError>)
    ensures r.Ok? <==> |out| >= 128 && DecodeUint256Array(out, HeadOffset(out)).Ok?
    ensures |out| < 128 ==> r == Err(OutputTooShort)
    ensures r.Ok? ==>
              && r.value.address == a
              && r.value.loanIds == DecodeUint256Array(out, HeadOffset(out)).value
              && ParseBig(r.value.totalPrincipal) == Ok(Word(out, 32))
              && ParseBig(r.value.totalRepayment) == Ok(Word(out, 64))
              && ParseBig(r.value.totalCollateral) == Ok(Word(out, 96))
  {
    if |out| < 4 * 32 then Err(OutputTooShort)
    else
      var ids :- DecodeHeadArray(out);
      Ok(UserPosition(a, ids, DecimalOf(Word(out, 32)), DecimalOf(Word(out, 64)), DecimalOf(Word(out, 96))))
  }

  /** Decoding the contract's layout of a position (a head of four words: the offset 128 and
      the three totals, then the loan-id array) recovers the loan ids and the totals. */
  lemma UserPositionRoundTrip(a: Address, h: seq<byte>, head: seq<nat>, ids: seq<uint64>)
    requires |head| == 4 && HoldsWords(h, head) && head[0] == 128
    requires |ids| < I64Limit
    ensures DecodeUserPosition(a, h + EncodeUint256Array(ids))
            == Ok(UserPosition(a, ids, DecimalOf(head[1]), DecimalOf(head[2]), DecimalOf(head[3])))
  {
    var tail := EncodeUint256Array(ids);
    var out := h + tail;
    HeadWords(h, tail, head);
    assert DecodeUint256Array(out, HeadOffset(out)) == Ok(ids) by {
      ArrayRoundTrip(h, ids, []);
      assert h + tail + [] == out;
    }
    UserPositionOf(a, out, ids);
  }

  /** A buffer whose head array decodes to ids decodes to the position with those ids. */
  lemma UserPositionOf(a: Address, out: seq<byte>, ids: seq<uint64>)
    requires |out| >= 128 && DecodeUint256Array(out, HeadOffset(out)) == Ok(ids)
    ensures DecodeUserPosition(a, out)
            == Ok(UserPosition(a, ids, DecimalOf(Word(out, 32)), DecimalOf(Word(out, 64)), DecimalOf(Word(out, 96))))
  {
    assert DecodeHeadArray(out) == Ok(ids);
  }

  /** The four head words survive whatever follows them. */
  lemma HeadWords(h: seq<byte>, tail: seq<byte>, head: seq<nat>)
    requires |head| == 4 && HoldsWords(h, head)
    ensures var out := h + tail;
            && Word(out, 0) == head[0] && Word(out, 32) == head[1]
            && Word(out, 64) == head[2] && Word(out, 96) == head[3]
  {
    WordOfPrefix(h, tail, 0);
    WordOfPrefix(h, tail, 32);
    WordOfPrefix(h, tail, 64);
    WordOfPrefix(h, tail, 96);
  }

  /** getPrice returns one word: the price with 18 decimals. */
  function DecodeNativePrice(out: seq<byte>): (r: Result<nat, DecodeError>)
    ensures r.Ok? <==> |out| >= 32
    ensures r.Err? ==> r.error == OutputTooShort
    ensures r.Ok? ==> r.value == BeValue(out[..32]) && r.value < WordLimit
  {
    if |out| < 32 then Err(OutputTooShort)
    else
      WordBound(out, 0);
      Ok(Word(out, 0))
  }

  // ---------------------------------------------------------------- operations

  /** One contract call and the decoding of its answer; a transport error is not retried. */
  function CallAndDecode<T>(t: Transport, to: Address, data: seq<byte>,
                            decode: seq<byte> -> Result<T, DecodeError>): (r: Result<T, GatewayError>)
    ensures t(to, data).Err? ==> r == Err(CallFailed(t(to, data).error))
    ensures t(to, data).Ok? && decode(t(to, data).value).Err? ==> r == Err(DecodeFailed(decode(t(to, data).value).error))
    ensures r.Ok? <==> t(to, data).Ok? && decode(t(to, data).value).Ok?
    ensures r.Ok? ==> decode(t(to, data).value) == Ok(r.value)
  {
    match t(to, data)
    case Err(m) => Err(CallFailed(m))
    case Ok(out) => decode(out).MapErr(e => DecodeFailed(e))
  }

  function GetPoolState(c: EthClient, t: Transport): (r: Result<PoolState, GatewayError>)
    ensures t(c.lendingPool, PoolStateCall()).Err? ==> r == Err(CallFailed(t(c.lendingPool, PoolStateCall()).error))
    ensures r.Ok? <==> t(c.lendingPool, PoolStateCall()).Ok? && DecodePoolState(t(c.lendingPool, PoolStateCall()).value).Ok?
    ensures r.Ok? ==> DecodePoolState(t(c.lendingPool, PoolStateCall()).value) == Ok(r.value)
  {
    CallAndDecode(t, c.lendingPool, PoolStateCall(), DecodePoolState)
  }

  function GetUserPosition(c: EthClient, t: Transport, a: Address): (r: Result<UserPosition, GatewayError>)
    ensures var call := AddressCall(SelectorGetUserPosition, a);
            && (t(c.lendingPool, call).Err? ==> r == Err(CallFailed(t(c.lendingPool, call).error)))
            && (r.Ok? <==> t(c.lendingPool, call).Ok? && DecodeUserPosition(a, t(c.lendingPool, call).value).Ok?)
            && (r.Ok? ==> DecodeUserPosition(a, t(c.lendingPool, call).value) == Ok(r.value))
  {
    CallAndDecode(t, c.lendingPool, AddressCall(SelectorGetUserPosition, a), out => DecodeUserPosition(a, out))
  }

  function GetLenderPosition(c: EthClient, t: Transport, a: Address): (r: Result<LenderPosition, GatewayError>)
    ensures var call := AddressCall(SelectorGetLenderPosition, a);
            && (t(c.lendingPool, call).Err? ==> r == Err(CallFailed(t(c.lendingPool, call).error)))
            && (r.Ok? <==> t(c.lendingPool, call).Ok? && DecodeLenderPosition(a, t(c.lendingPool, call).value).Ok?)
            && (r.Ok? ==> DecodeLenderPosition(a, t(c.lendingPool, call).value) == Ok(r.value))
  {
    CallAndDecode(t, c.lendingPool, AddressCall(SelectorGetLenderPosition, a), out => DecodeLenderPosition(a, out))
  }

  function GetLoan(c: EthClient, t: Transport, id: uint64): (r: Result<Loan, GatewayError>)
    ensures var call := IdCall(SelectorLoans, id);
            && (t(c.lendingPool, call).Err? ==> r == Err(CallFailed(t(c.lendingPool, call).error)))
            && (r.Ok? <==> t(c.lendingPool, call).Ok? && DecodeLoan(id, t(c.lendingPool, call).value).Ok?)
            && (r.Ok? ==> DecodeLoan(id, t(c.lendingPool, call).value) == Ok(r.value))
  {
    CallAndDecode(t, c.lendingPool, IdCall(SelectorLoans, id), out => DecodeLoan(id, out))
  }

  function GetLoanHealth(c: EthClient, t: Transport, id: uint64): (r: Result<LoanHealth, GatewayError>)
    ensures var call := IdCall(SelectorGetLoanHealth, id);
            && (t(c.lendingPool, call).Err? ==> r == Err(CallFailed(t(c.lendingPool, call).error)))
            && (r.Ok? <==> t(c.lendingPool, call).Ok? && DecodeLoanHealth(t(c.lendingPool, call).value).Ok?)
            && (r.Ok? ==> DecodeLoanHealth(t(c.lendingPool, call).value) == Ok(r.value))
  {
    CallAndDecode(t, c.lendingPool, IdCall(SelectorGetLoanHealth, id), DecodeLoanHealth)
  }

  /** getPrice(address(0)) on the oracle; fails without any call when no oracle is configured. */
  function GetNativePrice(c: EthClient, t: Transport): (r: Result<nat, GatewayError>)
    ensures c.oracle == ZeroAddress <==> r == Err(OracleNotConfigured)
    ensures c.oracle != ZeroAddress && t(c.oracle, PriceCall()).Err? ==> r == Err(CallFailed(t(c.oracle, PriceCall()).error))
    ensures r.Ok? <==> c.oracle != ZeroAddress && t(c.oracle, PriceCall()).Ok? && DecodeNativePrice(t(c.oracle, PriceCall()).value).Ok?
    ensures r.Ok? ==> DecodeNativePrice(t(c.oracle, PriceCall()).value) == Ok(r.value)
  {
    if c.oracle == ZeroAddress then Err(OracleNotConfigured)
    else CallAndDecode(t, c.oracle, PriceCall(), DecodeNativePrice)
  }

  /** The price read depends only on what the oracle answers to getPrice(address(0)). */
  lemma NativePriceReadsOnlyOracle(c: EthClient, t1: Transport, t2: Transport)
    requires t1(c.oracle, PriceCall()) == t2(c.oracle, PriceCall())
    ensures GetNativePrice(c, t1) == GetNativePrice(c, t2)
  {
  }

  /** Reads each id in order; the first failure ends the walk and is returned. */
  function FetchEach<T, E>(read: uint64 -> Result<T, E>, ids: seq<uint64>): (r: Result<seq<T>, E>)
    ensures r.Ok? <==> forall i :: 0 <= i < |ids| ==> read(ids[i]).Ok?
    ensures r.Ok? ==> |r.value| == |ids| && forall i :: 0 <= i < |ids| ==> read(ids[i]) == Ok(r.value[i])
    ensures r.Err? ==> exists i :: 0 <= i < |ids| && read(ids[i]) == Err(r.error)
                                   && forall j :: 0 <= j < i ==> read(ids[j]).Ok?
    decreases |ids|
  {
    if |ids| == 0 then Ok([])
    else
      match read(ids[0])
      case Err(e) => Err(e)
      case Ok(x) =>
        var rest := FetchEach(read, ids[1..]);
        if rest.Err? then
          ghost var k :| 0 <= k < |ids[1..]| && read(ids[1..][k]) == Err(rest.error)
                         && forall j :: 0 <= j < k ==> read(ids[1..][j]).Ok?;
          assert read(ids[k + 1]) == Err(rest.error);
          Err(rest.error)
        else
          Ok([x] + rest.value)
  }

  /** One loans(id) read of listUserLoans: a failure is wrapped with the id, as "get loan %d: %w" does. */
  function LoanRead(c: EthClient, t: Transport, id: uint64): (r: Result<Loan, GatewayError>)
    ensures r.Ok? <==> GetLoan(c, t, id).Ok?
    ensures r.Ok? ==> r == GetLoan(c, t, id)
    ensures r.Err? ==> r.error == LoanReadFailed(id, GetLoan(c, t, id).error)
  {
    GetLoan(c, t, id).MapErr(e => LoanReadFailed(id, e))
  }

  /** When each read is a base read whose error is wrapped with its id, the first failure
      of the walk is the wrapped error of the first failing base read. */
  lemma FetchEachWrapsError<T, E, F>(base: uint64 -> Result<T, E>, read: uint64 -> Result<T, F>,
                                     wrap: (uint64, E) -> F, ids: seq<uint64>)
    requires forall id :: read(id).Ok? <==> base(id).Ok?
    requires forall id :: read(id).Err? ==> read(id).error == wrap(id, base(id).error)
    ensures FetchEach(read, ids).Err? ==>
              exists i :: 0 <= i < |ids| && base(ids[i]).Err? && FetchEach(read, ids).error == wrap(ids[i], base(ids[i]).error)
                          && forall j :: 0 <= j < i ==> base(ids[j]).Ok?
  {
    var r := FetchEach(read, ids);
    if r.Err? {
      var i :| 0 <= i < |ids| && read(ids[i]) == Err(r.error) && forall j :: 0 <= j < i ==> read(ids[j]).Ok?;
      assert base(ids[i]).Err? && r.error == wrap(ids[i], base(ids[i]).error);
    }
  }

  /** The loans(id) read of listUserLoans, as a function of the id. */
  function LoanReads(c: EthClient, t: Transport): uint64 -> Result<Loan, GatewayError>
  {
    (id: uint64) => LoanRead(c, t, id)
  }

  /** The walk over the ids succeeds iff every loans(id) read does, and then holds their loans. */
  lemma FetchLoansSucceed(c: EthClient, t: Transport, ids: seq<uint64>)
    ensures var r := FetchEach(LoanReads(c, t), ids);
            && (r.Ok? <==> forall i :: 0 <= i < |ids| ==> GetLoan(c, t, ids[i]).Ok?)
            && (r.Ok? ==> |r.value| == |ids| && forall i :: 0 <= i < |ids| ==> GetLoan(c, t, ids[i]) == Ok(r.value[i]))
  {
    var read := LoanReads(c, t);
    var r := FetchEach(read, ids);
    forall i | 0 <= i < |ids|
      ensures read(ids[i]).Ok? <==> GetLoan(c, t, ids[i]).Ok?
      ensures read(ids[i]).Ok? ==> read(ids[i]) == GetLoan(c, t, ids[i])
    {
    }
  }

  /** A failed walk reports the first failing loans(id) read, wrapped with its id. */
  lemma FetchLoansFail(c: EthClient, t: Transport, ids: seq<uint64>)
    ensures var r := FetchEach(LoanReads(c, t), ids);
            r.Err? ==> exists i :: 0 <= i < |ids| && GetLoan(c, t, ids[i]).Err?
                                   && r.error == LoanReadFailed(ids[i], GetLoan(c, t, ids[i]).error)
                                   && forall j :: 0 <= j < i ==> GetLoan(c, t, ids[j]).Ok?
  {
    var base := (id: uint64) => GetLoan(c, t, id);
    var read := LoanReads(c, t);
    forall id: uint64
      ensures read(id).Ok? <==> base(id).Ok?
      ensures read(id).Err? ==> read(id).error == LoanReadFailed(id, base(id).error)
    {
    }
    FetchEachWrapsError(base, read, (id: uint64, e: GatewayError) => LoanReadFailed(id, e), ids);
    var r := FetchEach(read, ids);
    if r.Err? {
      var i :| 0 <= i < |ids| && base(ids[i]).Err? && r.error == LoanReadFailed(ids[i], base(ids[i]).error)
               && forall j :: 0 <= j < i ==> base(ids[j]).Ok?;
      forall j | 0 <= j < i
        ensures GetLoan(c, t, ids[j]).Ok?
      {
        assert base(ids[j]).Ok?;
      }
    }
  }

  /** Fetches each loan in order with loans(id); the first failed read is returned,
      wrapped with its id. */
  function FetchLoans(c: EthClient, t: Transport, ids: seq<uint64>): (r: Result<seq<Loan>, GatewayError>)
    ensures r.Ok? <==> forall i :: 0 <= i < |ids| ==> GetLoan(c, t, ids[i]).Ok?
    ensures r.Ok? ==> |r.value| == |ids| && forall i :: 0 <= i < |ids| ==> GetLoan(c, t, ids[i]) == Ok(r.value[i])
    ensures r.Err? ==> exists i :: 0 <= i < |ids| && GetLoan(c, t, ids[i]).Err?
                                   && r.error == LoanReadFailed(ids[i], GetLoan(c, t, ids[i]).error)
                                   && forall j :: 0 <= j < i ==> GetLoan(c, t, ids[j]).Ok?
  {
    FetchLoansSucceed(c, t, ids);
    FetchLoansFail(c, t, ids);
    FetchEach(LoanReads(c, t), ids)
  }

  /** listUserLoans: the loan ids from getUserLoans, then one loans(id) read per id. */
  function ListUserLoans(c: EthClient, t: Transport, a: Address): (r: Result<seq<Loan>, GatewayError>)
    ensures var call := AddressCall(SelectorGetUserLoans, a);
            && (t(c.lendingPool, call).Err? ==> r == Err(CallFailed(t(c.lendingPool, call).error)))
            && (t(c.lendingPool, call).Ok? && |t(c.lendingPool, call).value| < 32 ==> r == Err(DecodeFailed(OutputTooShort)))
            && (t(c.lendingPool, call).Ok? && |t(c.lendingPool, call).value| >= 32 && DecodeHeadArray(t(c.lendingPool, call).value).Err? ==>
                  r == Err(DecodeFailed(DecodeHeadArray(t(c.lendingPool, call).value).error)))
            && (t(c.lendingPool, call).Ok? && |t(c.lendingPool, call).value| >= 32 && DecodeHeadArray(t(c.lendingPool, call).value).Ok? ==>
                  r == FetchLoans(c, t, DecodeHeadArray(t(c.lendingPool, call).value).value))
  {
    match t(c.lendingPool, AddressCall(SelectorGetUserLoans, a))
    case Err(m) => Err(CallFailed(m))
    case Ok(out) =>
      if |out| < 32 then Err(DecodeFailed(OutputTooShort))
      else
        match DecodeHeadArray(out)
        case Err(e) => Err(DecodeFailed(e))
        case Ok(ids) => FetchLoans(c, t, ids)
  }

  /** A failed loans(id) read is reported with its id, and so differs from a failure of
      the getUserLoans call or of its decoding. */
  lemma LoanFailureKeepsId(c: EthClient, t: Transport, a: Address)
    ensures var call := AddressCall(SelectorGetUserLoans, a);
            var r := ListUserLoans(c, t, a);
            r.Err? && r.error.LoanReadFailed? <==>
              && t(c.lendingPool, call).Ok? && |t(c.lendingPool, call).value| >= 32
              && DecodeHeadArray(t(c.lendingPool, call).value).Ok?
              && exists i :: 0 <= i < |DecodeHeadArray(t(c.lendingPool, call).value).value|
                             && GetLoan(c, t, DecodeHeadArray(t(c.lendingPool, call).value).value[i]).Err?
    ensures var call := AddressCall(SelectorGetUserLoans, a);
            var r := ListUserLoans(c, t, a);
            r.Err? && r.error.LoanReadFailed? ==> r.error.id in DecodeHeadArray(t(c.lendingPool, call).value).value
  {
  }
}
