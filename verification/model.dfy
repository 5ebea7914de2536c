/** The records that cross the gateway: decoded chain state, quotes and unsigned calls.
    Amounts are decimal strings of arbitrary-precision integers, as at the HTTP boundary. */
module Model {
  import opened Bytes
  import opened Abi

  /** Aggregate pool metrics, from getPoolState(). */
  datatype PoolState = PoolState(
    totalAssets: string,
    totalBorrowed: string,
    availableLiquidity: string,
    exchangeRate: string,
    totalFTokenSupply: string)

  /** One on-chain loan, from loans(uint256). */
  datatype Loan = Loan(
    id: uint64,
    borrower: Address,
    collateralAmount: string,
    principal: string,
    repaymentAmount: string,
    startTime: uint64,
    duration: uint64,
    isActive: bool)

  datatype LoanHealth = LoanHealth(ltv: string, isLiquidatable: bool)

  datatype UserPosition = UserPosition(
    address: Address,
    loanIds: seq<uint64>,
    totalPrincipal: string,
    totalRepayment: string,
    totalCollateral: string)

  /** netDeposited and interest are placeholders fixed to "0" by the gateway. */
  datatype LenderPosition = LenderPosition(
    address: Address,
    fTokenBalance: string,
    exchangeRate: string,
    underlyingBalance: string,
    netDeposited: string,
    interest: string)

  datatype BorrowQuote = BorrowQuote(
    borrowAmount: string,
    collateralWei: string,
    bnbUsdPrice: string,
    maxLtvPercent: string)

  /** One unsigned call: target, hex call data and native value in decimal. */
  datatype TxCall = TxCall(to: Address, data: string, value: string)

  datatype DepositTx = DepositTx(approve: TxCall, deposit: TxCall)
  datatype BorrowTx = BorrowTx(borrow: TxCall)
  datatype RepayTx = RepayTx(approve: TxCall, repay: TxCall)
  datatype LiquidateTx = LiquidateTx(approve: TxCall, liquidate: TxCall)
}
