/** The records the lending keepers store, and the keys they are stored under.

    Fixed-point decimals (`sdk.Dec`) and timestamps are modelled as integers:
    the logic modelled here only stores, copies and compares them, and uses
    the decimal zero. */
module LendingTypes {
  import opened KeyOrder

  type Denom = string
  type Address = string
  type Time = int
  type Dec = int

  /** `sdk.ZeroDec()`. */
  const ZeroDec: Dec := 0

  datatype Coin = Coin(denom: Denom, amount: int)
  type Coins = seq<Coin>

  datatype BorrowLimit = BorrowLimit(hasMaxLimit: bool, maximumLimit: Dec, loanToValue: Dec)

  datatype InterestRateModel = InterestRateModel(
    baseRateApy: Dec, baseMultiplier: Dec, kink: Dec, jumpMultiplier: Dec)

  /** The configuration of one collateral type; `denom` names it. */
  datatype MoneyMarket = MoneyMarket(
    denom: Denom,
    borrowLimit: BorrowLimit,
    spotMarketId: string,
    conversionFactor: int,
    auctionSize: int,
    interestRateModel: InterestRateModel,
    reserveFactor: Dec,
    keeperRewardPercentage: Dec)

  datatype Params = Params(moneyMarkets: seq<MoneyMarket>)

  /** One owner's deposit of one denom. */
  datatype Deposit = Deposit(depositor: Address, amount: Coin)

  datatype InterestFactor = InterestFactor(denom: Denom, value: Dec)

  /** One owner's outstanding borrow, with the borrow factors it was last
      synchronised against. */
  datatype Borrow = Borrow(borrower: Address, amount: Coins, index: seq<InterestFactor>)

  /** A reward owed to `owner` for activity in collateral type
      `depositDenom`, of reward type `claimType`. */
  datatype Claim = Claim(owner: Address, depositDenom: Denom, amount: Coin, claimType: string)

  /** Deposits are stored per (denom, owner), so that the deposits of one
      denom share a key prefix. */
  function DepositKeyFor(depositor: Address, denom: Denom): Key {
    [denom, depositor]
  }

  function DepositKey(d: Deposit): Key {
    DepositKeyFor(d.depositor, d.amount.denom)
  }

  function BorrowKey(b: Borrow): Key {
    [b.borrower]
  }

  /** Claims are stored per (owner, collateral type, reward type). */
  function ClaimKeyFor(owner: Address, depositDenom: Denom, claimType: string): Key {
    [owner, depositDenom, claimType]
  }

  function ClaimKey(c: Claim): Key {
    ClaimKeyFor(c.owner, c.depositDenom, c.claimType)
  }

  /** The key of a record stored per denom (money markets, interest factors,
      accrual times, distribution times). */
  function DenomKey(denom: Denom): Key {
    [denom]
  }

  function MarketKey(mm: MoneyMarket): Key {
    DenomKey(mm.denom)
  }

  /** A deposit stored under its own (denom, owner) key. */
  predicate DepositKeyed(key: Key, d: Deposit) {
    key == DepositKey(d)
  }

  /** A borrow stored under its own borrower key. */
  predicate BorrowKeyed(key: Key, b: Borrow) {
    key == BorrowKey(b)
  }

  /** A claim stored under its own (owner, collateral type, reward type) key. */
  predicate ClaimKeyed(key: Key, c: Claim) {
    key == ClaimKey(c)
  }

  /** A money market stored under a one-component denom key. */
  predicate DenomKeyed(key: Key, mm: MoneyMarket) {
    |key| == 1
  }
}
