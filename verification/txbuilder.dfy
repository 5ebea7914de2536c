/** Unsigned transaction payloads for wallets to sign: ERC-20 approve plus deposit, borrow,
    repay and liquidate against the lending pool. Nothing here holds a key or sends anything. */
module TxBuilder {
  import opened Results
  import opened Bytes
  import opened Decimal
  import opened Hex
  import opened Abi
  import opened Model
  import opened Gateway

  // 4-byte function selectors of the write methods, taken as opaque constants.
  const SelectorApprove: seq<byte> := [0x09, 0x5e, 0xa7, 0xb3]
  const SelectorDeposit: seq<byte> := [0xb6, 0xb5, 0x5f, 0x25]
  const SelectorBorrow: seq<byte> := [0x0e, 0xcb, 0xcd, 0xab]
  const SelectorRepay: seq<byte> := [0x37, 0x1f, 0xd8, 0xe6]
  const SelectorLiquidate: seq<byte> := [0x41, 0x5f, 0x12, 0x40]

  /** The chain addresses the service is configured with, as hex strings. */
  datatype ChainConfig = ChainConfig(usdt: string, mockUsdt: string, lendingPool: string)

  datatype ConfigError = InvalidTokenAddress(token: string) | InvalidPoolAddress(pool: string)

  /** The token to approve and the pool to call. */
  datatype TxService = TxService(token: Address, pool: Address)

  datatype BuildError =
    | InvalidAmount(cause: ParseError)
    | InvalidCollateral(cause: ParseError)
    | ReadLoan(readError: GatewayError)
    | InvalidRepaymentAmount(cause: ParseError)
      /** packUint256 of a value whose magnitude needs more than 32 bytes: a run-time panic. */
    | WordOverflow

  /** The loans(id) read the repay and liquidate builders depend on. */
  type LoanReader = uint64 -> Result<Loan, GatewayError>

  // ---------------------------------------------------------------- reading call data back

  /** Call data split into its selector and its static uint256 arguments. */
  datatype DecodedCall = DecodedCall(selector: seq<byte>, args: seq<nat>)

  /** Reads hex call data as a selector followed by exactly n argument words. */
  function ReadCall(data: string, n: nat): Option<DecodedCall>
  {
    match HexToBytes(data)
    case None => None
    case Some(b) =>
      if |b| != 4 + 32 * n then None
      else Some(DecodedCall(b[..4], seq(n, i requires 0 <= i < n => Word(b, 4 + 32 * i))))
  }

  /** Hex call data built from a selector and encoded words reads back as those words. */
  lemma ReadCallOf(selector: seq<byte>, body: seq<byte>, ws: seq<nat>)
    requires |selector| == 4 && HoldsWords(body, ws)
    ensures ReadCall(BytesToHex(selector + body), |ws|) == Some(DecodedCall(selector, ws))
  {
    var b := selector + body;
    HexRoundTrip(b);
    assert b[..4] == selector;
    var args := seq(|ws|, i requires 0 <= i < |ws| => Word(b, 4 + 32 * i));
    forall i | 0 <= i < |ws|
      ensures args[i] == ws[i]
    {
      WordOfSuffix(selector, body, 32 * i);
    }
    assert args == ws;
  }

  /** One 32-byte word encodes its own value. */
  lemma OneWord(w: seq<byte>)
    requires |w| == 32
    ensures HoldsWords(w, [BeValue(w)])
  {
    WholeWord(w);
  }

  /** Two 32-byte words encode their two values, in order. */
  lemma TwoWords(w0: seq<byte>, w1: seq<byte>)
    requires |w0| == 32 && |w1| == 32
    ensures HoldsWords(w0 + w1, [BeValue(w0), BeValue(w1)])
  {
    WholeWord(w0);
    WholeWord(w1);
    WordOfPrefix(w0, w1, 0);
    WordOfSuffix(w0, w1, 0);
  }

  /** The address word of approve determines the spender: distinct addresses give distinct words. */
  lemma AddressWordInjective(a: Address, b: Address)
    requires BeValue(a) == BeValue(b)
    ensures a == b
  {
    BeValueInjective(a, b);
  }

  // ---------------------------------------------------------------- construction

  /** The configured token: USDT when set, MockUSDT otherwise. */
  function TokenSetting(cfg: ChainConfig): (token: string)
    ensures token == cfg.usdt || token == cfg.mockUsdt
    ensures cfg.usdt != "" ==> token == cfg.usdt
    ensures token == "" <==> cfg.usdt == "" && cfg.mockUsdt == ""
  {
    if cfg.usdt == "" then cfg.mockUsdt else cfg.usdt
  }

  /** NewTxService: both the chosen token and the pool must pass the hex-address shape check;
      hexToAddress stands for common.HexToAddress. */
  function NewTxService(cfg: ChainConfig, hexToAddress: string -> Address): (r: Result<TxService, ConfigError>)
    ensures r.Ok? <==> IsHexAddress(TokenSetting(cfg)) && IsHexAddress(cfg.lendingPool)
    ensures !IsHexAddress(TokenSetting(cfg)) ==> r == Err(InvalidTokenAddress(TokenSetting(cfg)))
    ensures IsHexAddress(TokenSetting(cfg)) && !IsHexAddress(cfg.lendingPool) ==> r == Err(InvalidPoolAddress(cfg.lendingPool))
    ensures r.Ok? ==> r.value.token == hexToAddress(TokenSetting(cfg)) && r.value.pool == hexToAddress(cfg.lendingPool)
  {
    var token := TokenSetting(cfg);
    if !IsHexAddress(token) then Err(InvalidTokenAddress(token))
    else if !IsHexAddress(cfg.lendingPool) then Err(InvalidPoolAddress(cfg.lendingPool))
    else Ok(TxService(hexToAddress(token), hexToAddress(cfg.lendingPool)))
  }

  /** A set USDT address wins: the MockUSDT setting then has no effect. An empty one falls back. */
  lemma UsdtPreferred(cfg: ChainConfig, mock: string, hexToAddress: string -> Address)
    ensures cfg.usdt != "" ==> NewTxService(cfg, hexToAddress) == NewTxService(cfg.(mockUsdt := mock), hexToAddress)
    ensures cfg.usdt == "" ==> TokenSetting(cfg) == cfg.mockUsdt
  {
  }

  /** With neither USDT nor MockUSDT set, construction fails on the empty token address. */
  lemma NoTokenConfigured(pool: string, hexToAddress: string -> Address)
    ensures NewTxService(ChainConfig("", "", pool), hexToAddress) == Err(InvalidTokenAddress(""))
  {
  }

  // ---------------------------------------------------------------- builders

  /** approve(spender, |amt|) on the token contract, with no native value. */
  function BuildApproveCall(token: Address, spender: Address, amt: int): (call: TxCall)
    requires FitsWord(amt)
    ensures call.to == token && call.value == "0"
    ensures ReadCall(call.data, 2) == Some(DecodedCall(SelectorApprove, [BeValue(spender), Abs(amt)]))
  {
    var args := PackAddress(spender) + PackUint256(amt);
    TwoWords(PackAddress(spender), PackUint256(amt));
    ReadCallOf(SelectorApprove, args, [BeValue(spender), Abs(amt)]);
    TxCall(token, BytesToHex(SelectorApprove + args), "0")
  }

  /** A one-argument call to the pool, with no native value. */
  function PoolCall(pool: Address, selector: seq<byte>, word: seq<byte>): (call: TxCall)
    requires |selector| == 4 && |word| == 32
    ensures call.to == pool && call.value == "0"
    ensures ReadCall(call.data, 1) == Some(DecodedCall(selector, [BeValue(word)]))
  {
    OneWord(word);
    ReadCallOf(selector, word, [BeValue(word)]);
    TxCall(pool, BytesToHex(selector + word), "0")
  }

  /** Parses a decimal amount and checks that its magnitude fits one word. */
  function ParseWord(s: string, invalid: ParseError -> BuildError): (r: Result<int, BuildError>)
    ensures ParseBig(s).Err? ==> r == Err(invalid(ParseBig(s).error))
    ensures ParseBig(s).Ok? ==> r == (if Abs(ParseBig(s).value) < WordLimit then Ok(ParseBig(s).value) else Err(WordOverflow))
    ensures r.Ok? ==> FitsWord(r.value)
  {
    match ParseBig(s)
    case Err(e) => Err(invalid(e))
    case Ok(v) =>
      FitsWordIff(v);
      if FitsWord(v) then Ok(v) else Err(WordOverflow)
  }

  /** BuildDepositTx: approve the pool for the amount on the token, then deposit(amount). */
  function BuildDepositTx(s: TxService, amount: string): (r: Result<DepositTx, BuildError>)
    ensures ParseBig(amount).Err? ==> r == Err(InvalidAmount(ParseBig(amount).error))
    ensures r.Ok? <==> ParseBig(amount).Ok? && Abs(ParseBig(amount).value) < WordLimit
    ensures r.Ok? ==>
              var v := Abs(ParseBig(amount).value);
              && r.value.approve.to == s.token && r.value.approve.value == "0"
              && ReadCall(r.value.approve.data, 2) == Some(DecodedCall(SelectorApprove, [BeValue(s.pool), v]))
              && r.value.deposit.to == s.pool && r.value.deposit.value == "0"
              && ReadCall(r.value.deposit.data, 1) == Some(DecodedCall(SelectorDeposit, [v]))
  {
    var amt :- ParseWord(amount, e => InvalidAmount(e));
    Ok(DepositCalls(s, amt))
  }

  /** The approve and deposit calls for an amount that fits one word. */
  function DepositCalls(s: TxService, amt: int): (tx: DepositTx)
    requires FitsWord(amt)
    ensures tx.approve.to == s.token && tx.approve.value == "0"
    ensures ReadCall(tx.approve.data, 2) == Some(DecodedCall(SelectorApprove, [BeValue(s.pool), Abs(amt)]))
    ensures tx.deposit.to == s.pool && tx.deposit.value == "0"
    ensures ReadCall(tx.deposit.data, 1) == Some(DecodedCall(SelectorDeposit, [Abs(amt)]))
  {
    DepositTx(BuildApproveCall(s.token, s.pool, amt), PoolCall(s.pool, SelectorDeposit, PackUint256(amt)))
  }

  /** borrow(|amt|, duration) on the pool, sending the collateral, in decimal, as native value. */
  function BorrowCall(pool: Address, amt: int, duration: uint64, collateral: int): (call: TxCall)
    requires FitsWord(amt)
    ensures call.to == pool && ParseBig(call.value) == Ok(collateral)
    ensures ReadCall(call.data, 2) == Some(DecodedCall(SelectorBorrow, [Abs(amt), duration]))
  {
    FitsWordIff(duration);
    var args := PackUint256(amt) + PackUint256(duration);
    TwoWords(PackUint256(amt), PackUint256(duration));
    ReadCallOf(SelectorBorrow, args, [Abs(amt), duration]);
    TxCall(pool, BytesToHex(SelectorBorrow + args), DecimalOf(collateral))
  }

  /** BuildBorrowTx: borrow(amount, duration) on the pool, sending the collateral as native value.
      The amount is parsed first, then the collateral; the collateral is not range-checked. */
  function BuildBorrowTx(s: TxService, amount: string, duration: uint64, collateralWei: string): (r: Result<BorrowTx, BuildError>)
    ensures ParseBig(amount).Err? ==> r == Err(InvalidAmount(ParseBig(amount).error))
    ensures ParseBig(amount).Ok? && ParseBig(collateralWei).Err? ==> r == Err(InvalidCollateral(ParseBig(collateralWei).error))
    ensures r.Ok? <==> ParseBig(amount).Ok? && ParseBig(collateralWei).Ok? && Abs(ParseBig(amount).value) < WordLimit
    ensures r.Ok? ==>
              && r.value.borrow.to == s.pool
              && ReadCall(r.value.borrow.data, 2) == Some(DecodedCall(SelectorBorrow, [Abs(ParseBig(amount).value), duration]))
              && ParseBig(r.value.borrow.value) == ParseBig(collateralWei)
  {
    match ParseBig(amount)
    case Err(e) => Err(InvalidAmount(e))
    case Ok(amt) =>
      match ParseBig(collateralWei)
      case Err(e) => Err(InvalidCollateral(e))
      case Ok(collateral) =>
        FitsWordIff(amt);
        if !FitsWord(amt) then Err(WordOverflow)
        else Ok(BorrowTx(BorrowCall(s.pool, amt, duration, collateral)))
  }

  /** The approve-then-act pair shared by repay and liquidate: read the loan, approve its
      on-chain repayment amount, then call the action with the loan id. */
  function BuildLoanAction(s: TxService, read: LoanReader, loanID: uint64, selector: seq<byte>): (r: Result<(TxCall, TxCall), BuildError>)
    requires |selector| == 4
    ensures read(loanID).Err? ==> r == Err(ReadLoan(read(loanID).error))
    ensures read(loanID).Ok? && ParseBig(read(loanID).value.repaymentAmount).Err? ==>
              r == Err(InvalidRepaymentAmount(ParseBig(read(loanID).value.repaymentAmount).error))
    ensures r.Ok? <==> read(loanID).Ok? && ParseBig(read(loanID).value.repaymentAmount).Ok?
                       && Abs(ParseBig(read(loanID).value.repaymentAmount).value) < WordLimit
    ensures r.Ok? ==>
              var owed := Abs(ParseBig(read(loanID).value.repaymentAmount).value);
              && r.value.0.to == s.token && r.value.0.value == "0"
              && ReadCall(r.value.0.data, 2) == Some(DecodedCall(SelectorApprove, [BeValue(s.pool), owed]))
              && r.value.1.to == s.pool && r.value.1.value == "0"
              && ReadCall(r.value.1.data, 1) == Some(DecodedCall(selector, [loanID]))
  {
    var loan :- read(loanID).MapErr(e => ReadLoan(e));
    var owed :- ParseWord(loan.repaymentAmount, e => InvalidRepaymentAmount(e));
    Ok((BuildApproveCall(s.token, s.pool, owed), PoolCall(s.pool, selector, PackUint64(loanID))))
  }

  function BuildRepayTx(s: TxService, read: LoanReader, loanID: uint64): (r: Result<RepayTx, BuildError>)
    ensures r.Ok? <==> BuildLoanAction(s, read, loanID, SelectorRepay).Ok?
    ensures r.Err? ==> r.error == BuildLoanAction(s, read, loanID, SelectorRepay).error
    ensures r.Ok? ==> var pair := BuildLoanAction(s, read, loanID, SelectorRepay).value;
                      r.value.approve == pair.0 && r.value.repay == pair.1
  {
    var pair :- BuildLoanAction(s, read, loanID, SelectorRepay);
    Ok(RepayTx(pair.0, pair.1))
  }

  function BuildLiquidateTx(s: TxService, read: LoanReader, loanID: uint64): (r: Result<LiquidateTx, BuildError>)
    ensures r.Ok? <==> BuildLoanAction(s, read, loanID, SelectorLiquidate).Ok?
    ensures r.Err? ==> r.error == BuildLoanAction(s, read, loanID, SelectorLiquidate).error
    ensures r.Ok? ==> var pair := BuildLoanAction(s, read, loanID, SelectorLiquidate).value;
                      r.value.approve == pair.0 && r.value.liquidate == pair.1
  {
    var pair :- BuildLoanAction(s, read, loanID, SelectorLiquidate);
    Ok(LiquidateTx(pair.0, pair.1))
  }

  // ---------------------------------------------------------------- properties

  /** Only the magnitude of a value is packed. */
  lemma PackMagnitude(a: int, b: int)
    requires FitsWord(a) && Abs(a) == Abs(b)
    ensures FitsWord(b) && PackUint256(a) == PackUint256(b)
  {
    FitsWordIff(a);
    FitsWordIff(b);
  }

  /** The deposit depends on the amount only through the magnitude it parses to. */
  lemma DepositDependsOnMagnitude(s: TxService, a: string, b: string)
    requires ParseBig(a).Ok? && ParseBig(b).Ok?
    requires Abs(ParseBig(a).value) == Abs(ParseBig(b).value)
    ensures BuildDepositTx(s, a) == BuildDepositTx(s, b)
  {
    var x, y := ParseBig(a).value, ParseBig(b).value;
    FitsWordIff(x);
    if FitsWord(x) {
      PackMagnitude(x, y);
    }
  }

  /** A leading '-' is accepted and only the magnitude is packed: depositing "-d" builds the
      same calls as depositing "d", and succeeds exactly when d fits a word. */
  lemma NegativeDepositPacksMagnitude(s: TxService, amount: string)
    requires |amount| > 1 && amount[0] == '-' && AllDigits(amount[1..])
    ensures BuildDepositTx(s, amount) == BuildDepositTx(s, amount[1..])
    ensures BuildDepositTx(s, amount).Ok? <==> DigitsValue(amount[1..]) < WordLimit
  {
    var digits := amount[1..];
    assert IsDigit(digits[0]);
    ParseCanonical(digits);
    ParseCanonical(amount);
    DepositDependsOnMagnitude(s, amount, digits);
  }

  /** Repay and liquidate of the same loan approve the same amount and differ only in the
      selector of the pool call. */
  lemma RepayAndLiquidateAgree(s: TxService, read: LoanReader, loanID: uint64)
    ensures BuildRepayTx(s, read, loanID).Ok? <==> BuildLiquidateTx(s, read, loanID).Ok?
    ensures BuildRepayTx(s, read, loanID).Ok? ==>
              && BuildRepayTx(s, read, loanID).value.approve == BuildLiquidateTx(s, read, loanID).value.approve
              && ReadCall(BuildRepayTx(s, read, loanID).value.repay.data, 1).value.args
                 == ReadCall(BuildLiquidateTx(s, read, loanID).value.liquidate.data, 1).value.args
  {
    var r1 := BuildLoanAction(s, read, loanID, SelectorRepay);
    var r2 := BuildLoanAction(s, read, loanID, SelectorLiquidate);
    if r1.Ok? {
      var owed := ParseBig(read(loanID).value.repaymentAmount).value;
      assert r1.value.0 == BuildApproveCall(s.token, s.pool, owed);
      assert r2.value.0 == BuildApproveCall(s.token, s.pool, owed);
    }
  }

  /** End to end: repaying a loan read through the chain client approves exactly the
      repaymentAmount word the contract returned, and names the loan id in repay(). */
  lemma RepayApprovesOnChainAmount(s: TxService, c: EthClient, t: Transport, loanID: uint64, out: seq<byte>)
    requires t(c.lendingPool, IdCall(SelectorLoans, loanID)) == Ok(out) && |out| >= 224
    ensures var r := BuildRepayTx(s, (id: uint64) => GetLoan(c, t, id), loanID);
            && r.Ok?
            && ReadCall(r.value.approve.data, 2) == Some(DecodedCall(SelectorApprove, [BeValue(s.pool), Word(out, 96)]))
            && ReadCall(r.value.repay.data, 1) == Some(DecodedCall(SelectorRepay, [loanID]))
  {
    OnChainRepayment(c, t, loanID, out);
    var read: LoanReader := (id: uint64) => GetLoan(c, t, id);
    assert read(loanID) == GetLoan(c, t, loanID);
  }

  /** The loan read for repay carries the repayment word, in decimal. */
  lemma OnChainRepayment(c: EthClient, t: Transport, loanID: uint64, out: seq<byte>)
    requires t(c.lendingPool, IdCall(SelectorLoans, loanID)) == Ok(out) && |out| >= 224
    ensures GetLoan(c, t, loanID).Ok?
    ensures ParseBig(GetLoan(c, t, loanID).value.repaymentAmount) == Ok(Word(out, 96))
    ensures Word(out, 96) < WordLimit
  {
    WordBound(out, 96);
    var r := GetLoan(c, t, loanID);
    var d := DecodeLoan(loanID, out);
    assert d.Ok?;
    assert r.Ok?;
    assert d.value == r.value;
  }
}
