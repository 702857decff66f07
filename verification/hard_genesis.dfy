/** Genesis import and export of the hard lending module
    (x/hard/genesis.go).

    `State` is the part of the module's store that genesis reads and
    writes.  `InitGenesis` validates a genesis state, writes every component
    into the store and then insists that the two protocol-owned module
    accounts exist; `ExportGenesis` projects the store, plus the current
    block time, back into a genesis state. */
module HardGenesis {
  import opened Wrappers
  import opened KeyOrder
  import opened KvStore
  import opened LendingTypes

  /** The exported form of one collateral type's interest factors. */
  datatype GenesisAccumulationTime = GenesisAccumulationTime(
    collateralType: Denom,
    previousAccumulationTime: Time,
    supplyInterestFactor: Dec,
    borrowInterestFactor: Dec)

  datatype GenesisState = GenesisState(
    params: Params,
    previousAccumulationTimes: seq<GenesisAccumulationTime>,
    deposits: seq<Deposit>,
    borrows: seq<Borrow>,
    totalSupplied: Coins,
    totalBorrowed: Coins,
    totalReserves: Coins)

  /** The totals exported for a store that never recorded them: empty coin
      sets. */
  const DefaultTotalSupplied: Coins := []
  const DefaultTotalBorrowed: Coins := []
  const DefaultTotalReserves: Coins := []

  /** The two protocol-owned accounts import requires: the one that holds
      deposited collateral and the one that holds seized collateral. */
  datatype ModuleAccount = DepositAccount | LiquidatorAccount

  /** Why import aborts (a panic in the source, which halts chain start). */
  datatype GenesisError = InvalidGenesis | MissingModuleAccount(account: ModuleAccount)

  /** The module's store as genesis sees it.  Interest factors and accrual
      times are keyed by collateral type; the three totals are optional
      because a fresh store has not recorded them. */
  datatype State = State(
    params: Params,
    moneyMarkets: Store<MoneyMarket>,
    previousAccrualTimes: Store<Time>,
    supplyInterestFactors: Store<Dec>,
    borrowInterestFactors: Store<Dec>,
    deposits: Store<Deposit>,
    borrows: Store<Borrow>,
    totalSupplied: Option<Coins>,
    totalBorrowed: Option<Coins>,
    totalReserves: Option<Coins>)

  /** Every deposit and borrow sits under the key its own fields name, as
      the keeper's setters put it there. */
  predicate WellKeyed(st: State) {
    EveryEntry(st.deposits, DepositKeyed) && EveryEntry(st.borrows, BorrowKeyed)
  }

  /** A store nothing has been written to yet. */
  predicate Fresh(st: State) {
    && st.moneyMarkets == [] && st.previousAccrualTimes == []
    && st.supplyInterestFactors == [] && st.borrowInterestFactors == []
    && st.deposits == [] && st.borrows == []
    && st.totalSupplied.None? && st.totalBorrowed.None? && st.totalReserves.None?
  }

  function GatKey(g: GenesisAccumulationTime): Key {
    DenomKey(g.collateralType)
  }

  function GatTime(g: GenesisAccumulationTime): Time {
    g.previousAccumulationTime
  }

  function GatSupplyFactor(g: GenesisAccumulationTime): Dec {
    g.supplyInterestFactor
  }

  function GatBorrowFactor(g: GenesisAccumulationTime): Dec {
    g.borrowInterestFactor
  }

  /** The denoms of the money markets in `params`, as store keys. */
  function ParamKeys(params: Params): set<Key> {
    set i | 0 <= i < |params.moneyMarkets| :: MarketKey(params.moneyMarkets[i])
  }

  /** The store after every component of `gs` has been written over `st`,
      in the order the source writes them. */
  function Write(st: State, gs: GenesisState): State {
    var gats := gs.previousAccumulationTimes;
    State(
      params := gs.params,
      moneyMarkets := SetAll(st.moneyMarkets, Entries(gs.params.moneyMarkets, MarketKey, Id)),
      previousAccrualTimes := SetAll(st.previousAccrualTimes, Entries(gats, GatKey, GatTime)),
      supplyInterestFactors := SetAll(st.supplyInterestFactors, Entries(gats, GatKey, GatSupplyFactor)),
      borrowInterestFactors := SetAll(st.borrowInterestFactors, Entries(gats, GatKey, GatBorrowFactor)),
      deposits := SetAll(st.deposits, Entries(gs.deposits, DepositKey, Id)),
      borrows := SetAll(st.borrows, Entries(gs.borrows, BorrowKey, Id)),
      totalSupplied := Some(gs.totalSupplied),
      totalBorrowed := Some(gs.totalBorrowed),
      totalReserves := Some(gs.totalReserves))
  }

  /** Genesis import.  `validate` stands for `gs.Validate()` succeeding and
      `accountExists` for the supply keeper finding a module account. */
  function InitGenesis(
    st: State, gs: GenesisState,
    validate: GenesisState -> bool, accountExists: ModuleAccount -> bool): (r: Result<State, GenesisError>)
    // an invalid genesis state is rejected before anything is written
    ensures !validate(gs) ==> r == Failure(InvalidGenesis)
    // the deposit account is checked before the liquidator account
    ensures validate(gs) && !accountExists(DepositAccount) ==> r == Failure(MissingModuleAccount(DepositAccount))
    ensures (validate(gs) && accountExists(DepositAccount) && !accountExists(LiquidatorAccount)) ==>
      r == Failure(MissingModuleAccount(LiquidatorAccount))
    ensures r.Success? <==> validate(gs) && accountExists(DepositAccount) && accountExists(LiquidatorAccount)
    // params and the three totals are taken from gs
    ensures r.Success? ==> r.value.params == gs.params
    ensures r.Success? ==> r.value.totalSupplied == Some(gs.totalSupplied)
    ensures r.Success? ==> r.value.totalBorrowed == Some(gs.totalBorrowed)
    ensures r.Success? ==> r.value.totalReserves == Some(gs.totalReserves)
    // every money market is stored under its own denom (the last one, for a repeated denom)
    ensures r.Success? ==>
      forall i | 0 <= i < |gs.params.moneyMarkets| && LastWithKey(gs.params.moneyMarkets, MarketKey, i) ::
        Get(r.value.moneyMarkets, MarketKey(gs.params.moneyMarkets[i])) == Some(gs.params.moneyMarkets[i])
    // each accumulation-time record sets the time and both factors of its collateral type
    ensures r.Success? ==>
      var gats := gs.previousAccumulationTimes;
      forall i | 0 <= i < |gats| && LastWithKey(gats, GatKey, i) ::
        && Get(r.value.previousAccrualTimes, GatKey(gats[i])) == Some(gats[i].previousAccumulationTime)
        && Get(r.value.supplyInterestFactors, GatKey(gats[i])) == Some(gats[i].supplyInterestFactor)
        && Get(r.value.borrowInterestFactors, GatKey(gats[i])) == Some(gats[i].borrowInterestFactor)
    // every deposit and borrow of gs is stored under its key
    ensures r.Success? ==>
      forall i | 0 <= i < |gs.deposits| && LastWithKey(gs.deposits, DepositKey, i) ::
        Get(r.value.deposits, DepositKey(gs.deposits[i])) == Some(gs.deposits[i])
    ensures r.Success? ==>
      forall i | 0 <= i < |gs.borrows| && LastWithKey(gs.borrows, BorrowKey, i) ::
        Get(r.value.borrows, BorrowKey(gs.borrows[i])) == Some(gs.borrows[i])
    // keys gs does not mention keep what the store held before
    ensures r.Success? ==>
      forall k | k !in KeysOf(gs.deposits, DepositKey) :: Get(r.value.deposits, k) == Get(st.deposits, k)
    ensures r.Success? ==>
      forall k | k !in KeysOf(gs.borrows, BorrowKey) :: Get(r.value.borrows, k) == Get(st.borrows, k)
    ensures r.Success? ==>
      forall k | k !in KeysOf(gs.params.moneyMarkets, MarketKey) ::
        Get(r.value.moneyMarkets, k) == Get(st.moneyMarkets, k)
    ensures r.Success? ==>
      forall k | k !in KeysOf(gs.previousAccumulationTimes, GatKey) ::
        && Get(r.value.previousAccrualTimes, k) == Get(st.previousAccrualTimes, k)
        && Get(r.value.supplyInterestFactors, k) == Get(st.supplyInterestFactors, k)
        && Get(r.value.borrowInterestFactors, k) == Get(st.borrowInterestFactors, k)
  {
    if !validate(gs) then Failure(InvalidGenesis)
    else
      var written := Write(st, gs);
      if !accountExists(DepositAccount) then Failure(MissingModuleAccount(DepositAccount))
      else if !accountExists(LiquidatorAccount) then Failure(MissingModuleAccount(LiquidatorAccount))
      else
        WriteMarkets(st, gs);
        WriteAccumulationTimes(st, gs);
        WritePositions(st, gs);
        Success(written)
  }

  /** `Write` stores every money market under its denom, and leaves other
      denoms alone. */
  lemma WriteMarkets(st: State, gs: GenesisState)
    ensures var w := Write(st, gs); var mms := gs.params.moneyMarkets;
      forall i | 0 <= i < |mms| && LastWithKey(mms, MarketKey, i) ::
        Get(w.moneyMarkets, MarketKey(mms[i])) == Some(mms[i])
    ensures var w := Write(st, gs);
      forall k | k !in KeysOf(gs.params.moneyMarkets, MarketKey) :: Get(w.moneyMarkets, k) == Get(st.moneyMarkets, k)
  {
    var mms := gs.params.moneyMarkets;
    forall i | 0 <= i < |mms| && LastWithKey(mms, MarketKey, i)
      ensures Get(Write(st, gs).moneyMarkets, MarketKey(mms[i])) == Some(mms[i])
    {
      SetAllLast(st.moneyMarkets, mms, MarketKey, Id, i);
    }
    forall k | k !in KeysOf(mms, MarketKey)
      ensures Get(Write(st, gs).moneyMarkets, k) == Get(st.moneyMarkets, k)
    {
      SetAllOutside(st.moneyMarkets, mms, MarketKey, Id, k);
    }
  }

  /** `Write` stores the time and both factors of each accumulation-time
      record under its collateral type, and leaves other keys alone. */
  lemma WriteAccumulationTimes(st: State, gs: GenesisState)
    ensures var w := Write(st, gs); var gats := gs.previousAccumulationTimes;
      forall i | 0 <= i < |gats| && LastWithKey(gats, GatKey, i) ::
        && Get(w.previousAccrualTimes, GatKey(gats[i])) == Some(gats[i].previousAccumulationTime)
        && Get(w.supplyInterestFactors, GatKey(gats[i])) == Some(gats[i].supplyInterestFactor)
        && Get(w.borrowInterestFactors, GatKey(gats[i])) == Some(gats[i].borrowInterestFactor)
    ensures var w := Write(st, gs);
      forall k | k !in KeysOf(gs.previousAccumulationTimes, GatKey) ::
        && Get(w.previousAccrualTimes, k) == Get(st.previousAccrualTimes, k)
        && Get(w.supplyInterestFactors, k) == Get(st.supplyInterestFactors, k)
        && Get(w.borrowInterestFactors, k) == Get(st.borrowInterestFactors, k)
  {
    var w := Write(st, gs);
    var gats := gs.previousAccumulationTimes;
    forall i | 0 <= i < |gats| && LastWithKey(gats, GatKey, i)
      ensures Get(w.previousAccrualTimes, GatKey(gats[i])) == Some(gats[i].previousAccumulationTime)
      ensures Get(w.supplyInterestFactors, GatKey(gats[i])) == Some(gats[i].supplyInterestFactor)
      ensures Get(w.borrowInterestFactors, GatKey(gats[i])) == Some(gats[i].borrowInterestFactor)
    {
      SetAllLast(st.previousAccrualTimes, gats, GatKey, GatTime, i);
      SetAllLast(st.supplyInterestFactors, gats, GatKey, GatSupplyFactor, i);
      SetAllLast(st.borrowInterestFactors, gats, GatKey, GatBorrowFactor, i);
    }
    forall k | k !in KeysOf(gats, GatKey)
      ensures Get(w.previousAccrualTimes, k) == Get(st.previousAccrualTimes, k)
      ensures Get(w.supplyInterestFactors, k) == Get(st.supplyInterestFactors, k)
      ensures Get(w.borrowInterestFactors, k) == Get(st.borrowInterestFactors, k)
    {
      SetAllOutside(st.previousAccrualTimes, gats, GatKey, GatTime, k);
      SetAllOutside(st.supplyInterestFactors, gats, GatKey, GatSupplyFactor, k);
      SetAllOutside(st.borrowInterestFactors, gats, GatKey, GatBorrowFactor, k);
    }
  }

  /** `Write` stores every deposit and borrow under its key, and leaves other
      keys alone. */
  lemma WritePositions(st: State, gs: GenesisState)
    ensures var w := Write(st, gs);
      forall i | 0 <= i < |gs.deposits| && LastWithKey(gs.deposits, DepositKey, i) ::
        Get(w.deposits, DepositKey(gs.deposits[i])) == Some(gs.deposits[i])
    ensures var w := Write(st, gs);
      forall i | 0 <= i < |gs.borrows| && LastWithKey(gs.borrows, BorrowKey, i) ::
        Get(w.borrows, BorrowKey(gs.borrows[i])) == Some(gs.borrows[i])
    ensures var w := Write(st, gs);
      forall k | k !in KeysOf(gs.deposits, DepositKey) :: Get(w.deposits, k) == Get(st.deposits, k)
    ensures var w := Write(st, gs);
      forall k | k !in KeysOf(gs.borrows, BorrowKey) :: Get(w.borrows, k) == Get(st.borrows, k)
  {
    var w := Write(st, gs);
    forall i | 0 <= i < |gs.deposits| && LastWithKey(gs.deposits, DepositKey, i)
      ensures Get(w.deposits, DepositKey(gs.deposits[i])) == Some(gs.deposits[i])
    {
      SetAllLast(st.deposits, gs.deposits, DepositKey, Id, i);
    }
    forall i | 0 <= i < |gs.borrows| && LastWithKey(gs.borrows, BorrowKey, i)
      ensures Get(w.borrows, BorrowKey(gs.borrows[i])) == Some(gs.borrows[i])
    {
      SetAllLast(st.borrows, gs.borrows, BorrowKey, Id, i);
    }
    forall k | k !in KeysOf(gs.deposits, DepositKey)
      ensures Get(w.deposits, k) == Get(st.deposits, k)
    {
      SetAllOutside(st.deposits, gs.deposits, DepositKey, Id, k);
    }
    forall k | k !in KeysOf(gs.borrows, BorrowKey)
      ensures Get(w.borrows, k) == Get(st.borrows, k)
    {
      SetAllOutside(st.borrows, gs.borrows, BorrowKey, Id, k);
    }
  }

  /** Writing a genesis state keeps a well-keyed store well keyed; in
      particular a fresh store ends up well keyed. */
  lemma WriteWellKeyed(st: State, gs: GenesisState)
    requires WellKeyed(st)
    ensures WellKeyed(Write(st, gs))
  {
    var ds := Entries(gs.deposits, DepositKey, Id);
    var bs := Entries(gs.borrows, BorrowKey, Id);
    assert EveryEntry(ds, DepositKeyed) by {
      forall i | 0 <= i < |ds|
        ensures DepositKeyed(ds[i].key, ds[i].value)
      {
        assert ds[i] == Entry(DepositKey(gs.deposits[i]), gs.deposits[i]);
      }
    }
    assert EveryEntry(bs, BorrowKeyed) by {
      forall i | 0 <= i < |bs|
        ensures BorrowKeyed(bs[i].key, bs[i].value)
      {
        assert bs[i] == Entry(BorrowKey(gs.borrows[i]), gs.borrows[i]);
      }
    }
    SetAllKeeps(st.deposits, ds, DepositKeyed);
    SetAllKeeps(st.borrows, bs, BorrowKeyed);
  }

  /** A successful import into a well-keyed store (a fresh one, say) leaves
      it well keyed, so what import builds meets the requirement of
      `ImportAfterExport`. */
  lemma InitGenesisWellKeyed(
    st: State, gs: GenesisState,
    validate: GenesisState -> bool, accountExists: ModuleAccount -> bool)
    requires WellKeyed(st)
    ensures InitGenesis(st, gs, validate, accountExists).Success? ==>
      WellKeyed(InitGenesis(st, gs, validate, accountExists).value)
  {
    WriteWellKeyed(st, gs);
  }

  /** The exported record for one collateral type.  A factor the store
      lacks is exported as zero and a missing accrual time as the current
      block time. */
  function ExportAccumulationTime(st: State, denom: Denom, blockTime: Time): GenesisAccumulationTime {
    GenesisAccumulationTime(
      denom,
      Get(st.previousAccrualTimes, DenomKey(denom)).GetOr(blockTime),
      Get(st.supplyInterestFactors, DenomKey(denom)).GetOr(ZeroDec),
      Get(st.borrowInterestFactors, DenomKey(denom)).GetOr(ZeroDec))
  }

  /** Genesis export at block time `blockTime`. */
  function ExportGenesis(st: State, blockTime: Time): (gs: GenesisState)
    ensures gs.params == st.params
    // one accumulation-time record per money market, in params order
    ensures |gs.previousAccumulationTimes| == |st.params.moneyMarkets|
    ensures forall i | 0 <= i < |gs.previousAccumulationTimes| ::
      var g := gs.previousAccumulationTimes[i];
      var k := MarketKey(st.params.moneyMarkets[i]);
      && g.collateralType == st.params.moneyMarkets[i].denom
      && (Get(st.supplyInterestFactors, k).Some? ==> g.supplyInterestFactor == Get(st.supplyInterestFactors, k).value)
      && (Get(st.supplyInterestFactors, k).None? ==> g.supplyInterestFactor == ZeroDec)
      && (Get(st.borrowInterestFactors, k).Some? ==> g.borrowInterestFactor == Get(st.borrowInterestFactors, k).value)
      && (Get(st.borrowInterestFactors, k).None? ==> g.borrowInterestFactor == ZeroDec)
      && (Get(st.previousAccrualTimes, k).Some? ==> g.previousAccumulationTime == Get(st.previousAccrualTimes, k).value)
      && (Get(st.previousAccrualTimes, k).None? ==> g.previousAccumulationTime == blockTime)
    // every stored deposit and borrow, in ascending key order
    ensures |gs.deposits| == |st.deposits|
    ensures forall i | 0 <= i < |st.deposits| :: gs.deposits[i] == st.deposits[i].value
    ensures |gs.borrows| == |st.borrows|
    ensures forall i | 0 <= i < |st.borrows| :: gs.borrows[i] == st.borrows[i].value
    // a total the store never recorded is exported as its default
    ensures gs.totalSupplied == st.totalSupplied.GetOr(DefaultTotalSupplied)
    ensures gs.totalBorrowed == st.totalBorrowed.GetOr(DefaultTotalBorrowed)
    ensures gs.totalReserves == st.totalReserves.GetOr(DefaultTotalReserves)
  {
    var mms := st.params.moneyMarkets;
    GenesisState(
      st.params,
      seq(|mms|, i requires 0 <= i < |mms| => ExportAccumulationTime(st, mms[i].denom, blockTime)),
      Values(st.deposits),
      Values(st.borrows),
      st.totalSupplied.GetOr(DefaultTotalSupplied),
      st.totalBorrowed.GetOr(DefaultTotalBorrowed),
      st.totalReserves.GetOr(DefaultTotalReserves))
  }

  /** Re-keying the exported records of a well-keyed store gives back the
      store's own entries. */
  lemma ExportedEntries(st: State, blockTime: Time)
    requires WellKeyed(st)
    ensures Entries(ExportGenesis(st, blockTime).deposits, DepositKey, Id) == st.deposits
    ensures Entries(ExportGenesis(st, blockTime).borrows, BorrowKey, Id) == st.borrows
  {
  }

  /** In the exported accumulation-time records, every record for the
      denom of money market `i` is the one exported for that denom. */
  lemma LatestExported<V>(st: State, blockTime: Time, f: GenesisAccumulationTime -> V, i: nat)
    requires i < |st.params.moneyMarkets|
    ensures var mm := st.params.moneyMarkets[i];
      Latest(Entries(ExportGenesis(st, blockTime).previousAccumulationTimes, GatKey, f), MarketKey(mm))
        == Some(f(ExportAccumulationTime(st, mm.denom, blockTime)))
  {
    var mms := st.params.moneyMarkets;
    var es := Entries(ExportGenesis(st, blockTime).previousAccumulationTimes, GatKey, f);
    assert es[i].key == MarketKey(mms[i]);
    forall j | 0 <= j < |es| && es[j].key == MarketKey(mms[i])
      ensures es[j].value == f(ExportAccumulationTime(st, mms[i].denom, blockTime))
    {
      assert mms[j].denom == mms[i].denom;
    }
    LatestConstant(es, MarketKey(mms[i]), f(ExportAccumulationTime(st, mms[i].denom, blockTime)));
  }

  /** The exported accumulation-time records name only money-market denoms. */
  lemma ExportedKeys<V>(st: State, blockTime: Time, f: GenesisAccumulationTime -> V, k: Key)
    requires k !in ParamKeys(st.params)
    ensures Latest(Entries(ExportGenesis(st, blockTime).previousAccumulationTimes, GatKey, f), k).None?
  {
    var es := Entries(ExportGenesis(st, blockTime).previousAccumulationTimes, GatKey, f);
    forall j | 0 <= j < |es|
      ensures es[j].key != k
    {
      assert es[j].key == MarketKey(st.params.moneyMarkets[j]);
    }
  }

  /** What importing an export leaves in the three per-collateral-type stores:
      a record for every money-market denom, holding the stored value or the
      export default, and nothing for any other key. */
  lemma ImportedFactors(st: State, blockTime: Time, st0: State)
    requires Fresh(st0)
    ensures var w := Write(st0, ExportGenesis(st, blockTime));
      forall k | k in ParamKeys(st.params) ::
        && Get(w.supplyInterestFactors, k) == Some(Get(st.supplyInterestFactors, k).GetOr(ZeroDec))
        && Get(w.borrowInterestFactors, k) == Some(Get(st.borrowInterestFactors, k).GetOr(ZeroDec))
        && Get(w.previousAccrualTimes, k) == Some(Get(st.previousAccrualTimes, k).GetOr(blockTime))
    ensures var w := Write(st0, ExportGenesis(st, blockTime));
      forall k | k !in ParamKeys(st.params) ::
        && Get(w.supplyInterestFactors, k).None?
        && Get(w.borrowInterestFactors, k).None?
        && Get(w.previousAccrualTimes, k).None?
  {
    var w := Write(st0, ExportGenesis(st, blockTime));
    var mms := st.params.moneyMarkets;
    forall k | k in ParamKeys(st.params)
      ensures Get(w.supplyInterestFactors, k) == Some(Get(st.supplyInterestFactors, k).GetOr(ZeroDec))
      ensures Get(w.borrowInterestFactors, k) == Some(Get(st.borrowInterestFactors, k).GetOr(ZeroDec))
      ensures Get(w.previousAccrualTimes, k) == Some(Get(st.previousAccrualTimes, k).GetOr(blockTime))
    {
      var i :| 0 <= i < |mms| && MarketKey(mms[i]) == k;
      LatestExported(st, blockTime, GatTime, i);
      LatestExported(st, blockTime, GatSupplyFactor, i);
      LatestExported(st, blockTime, GatBorrowFactor, i);
    }
    forall k | k !in ParamKeys(st.params)
      ensures Get(w.supplyInterestFactors, k).None?
      ensures Get(w.borrowInterestFactors, k).None?
      ensures Get(w.previousAccrualTimes, k).None?
    {
      ExportedKeys(st, blockTime, GatTime, k);
      ExportedKeys(st, blockTime, GatSupplyFactor, k);
      ExportedKeys(st, blockTime, GatBorrowFactor, k);
    }
  }

  /** Import after export.  Starting from a fresh store, importing what a
      well-keyed store exported (when validation passes and both module
      accounts exist) succeeds and restores the params, every deposit and
      borrow, and every recorded total; it also stores each money market of
      the params under its denom.  The per-collateral-type stores come back
      for exactly the money-market denoms: a stored value is restored, a
      missing factor becomes zero and a missing accrual time becomes the
      export's block time, while entries for denoms outside the params are
      dropped. */
  lemma ImportAfterExport(
    st: State, blockTime: Time, st0: State,
    validate: GenesisState -> bool, accountExists: ModuleAccount -> bool)
    requires WellKeyed(st) && Fresh(st0)
    requires validate(ExportGenesis(st, blockTime))
    requires accountExists(DepositAccount) && accountExists(LiquidatorAccount)
    ensures InitGenesis(st0, ExportGenesis(st, blockTime), validate, accountExists).Success?
    ensures var w := InitGenesis(st0, ExportGenesis(st, blockTime), validate, accountExists).value;
      && w.params == st.params
      && w.deposits == st.deposits
      && w.borrows == st.borrows
      && (st.totalSupplied.Some? ==> w.totalSupplied == st.totalSupplied)
      && (st.totalBorrowed.Some? ==> w.totalBorrowed == st.totalBorrowed)
      && (st.totalReserves.Some? ==> w.totalReserves == st.totalReserves)
      && (st.totalSupplied.None? ==> w.totalSupplied == Some(DefaultTotalSupplied))
      && (st.totalBorrowed.None? ==> w.totalBorrowed == Some(DefaultTotalBorrowed))
      && (st.totalReserves.None? ==> w.totalReserves == Some(DefaultTotalReserves))
    ensures var w := InitGenesis(st0, ExportGenesis(st, blockTime), validate, accountExists).value;
      var mms := st.params.moneyMarkets;
      forall i | 0 <= i < |mms| && LastWithKey(mms, MarketKey, i) ::
        Get(w.moneyMarkets, MarketKey(mms[i])) == Some(mms[i])
    ensures var w := InitGenesis(st0, ExportGenesis(st, blockTime), validate, accountExists).value;
      forall k | k in ParamKeys(st.params) ::
        && Get(w.supplyInterestFactors, k) == Some(Get(st.supplyInterestFactors, k).GetOr(ZeroDec))
        && Get(w.borrowInterestFactors, k) == Some(Get(st.borrowInterestFactors, k).GetOr(ZeroDec))
        && Get(w.previousAccrualTimes, k) == Some(Get(st.previousAccrualTimes, k).GetOr(blockTime))
    ensures var w := InitGenesis(st0, ExportGenesis(st, blockTime), validate, accountExists).value;
      forall k | k !in ParamKeys(st.params) ::
        && Get(w.supplyInterestFactors, k).None?
        && Get(w.borrowInterestFactors, k).None?
        && Get(w.previousAccrualTimes, k).None?
  {
    var gs := ExportGenesis(st, blockTime);
    assert InitGenesis(st0, gs, validate, accountExists) == Success(Write(st0, gs));
    ExportedEntries(st, blockTime);
    SetAllSorted(st.deposits);
    SetAllSorted(st.borrows);
    ImportedFactors(st, blockTime, st0);
  }

  /** A genesis state in the shape export produces: deposits and borrows in
      ascending key order, and one accumulation-time record per money market,
      in params order, for distinct denoms. */
  predicate Canonical(gs: GenesisState) {
    var mms := gs.params.moneyMarkets;
    var gats := gs.previousAccumulationTimes;
    && SortedByKey(gs.deposits, DepositKey)
    && SortedByKey(gs.borrows, BorrowKey)
    && DistinctKeys(mms, MarketKey)
    && |gats| == |mms|
    && (forall i | 0 <= i < |gats| :: gats[i].collateralType == mms[i].denom)
  }

  /** Importing records in ascending key order into an empty store and
      iterating the store gives back the same records. */
  lemma RecordsRoundTrip<T>(xs: seq<T>, key: T -> Key)
    requires SortedByKey(xs, key)
    ensures Values(SetAll([], Entries(xs, key, Id))) == xs
  {
    var es := Entries(xs, key, Id);
    assert Sorted(es);
    SetAllSorted(es);
  }

  /** Exporting after importing a canonical genesis state reproduces its
      accumulation-time records. */
  lemma AccumulationTimesRoundTrip(gs: GenesisState, st0: State, blockTime: Time)
    requires Canonical(gs)
    ensures ExportGenesis(Write(st0, gs), blockTime).previousAccumulationTimes == gs.previousAccumulationTimes
  {
    var mms := gs.params.moneyMarkets;
    var gats := gs.previousAccumulationTimes;
    var ex := ExportGenesis(Write(st0, gs), blockTime);
    WriteAccumulationTimes(st0, gs);
    forall i | 0 <= i < |gats|
      ensures ex.previousAccumulationTimes[i] == gats[i]
    {
      assert LastWithKey(gats, GatKey, i) by {
        forall j | i < j < |gats|
          ensures GatKey(gats[j]) != GatKey(gats[i])
        {
          assert MarketKey(mms[j]) != MarketKey(mms[i]);
        }
      }
    }
  }

  /** Export after import.  Importing a genesis state in export's shape into
      a fresh store and exporting again gives back the same genesis state,
      at any block time: nothing is lost or reordered, and no default is
      substituted for a value the genesis state supplied. */
  lemma ExportAfterImport(
    gs: GenesisState, st0: State, blockTime: Time,
    validate: GenesisState -> bool, accountExists: ModuleAccount -> bool)
    requires Fresh(st0) && Canonical(gs)
    requires validate(gs) && accountExists(DepositAccount) && accountExists(LiquidatorAccount)
    ensures InitGenesis(st0, gs, validate, accountExists).Success?
    ensures ExportGenesis(InitGenesis(st0, gs, validate, accountExists).value, blockTime) == gs
  {
    var w := Write(st0, gs);
    assert InitGenesis(st0, gs, validate, accountExists) == Success(w);
    RecordsRoundTrip(gs.deposits, DepositKey);
    RecordsRoundTrip(gs.borrows, BorrowKey);
    AccumulationTimesRoundTrip(gs, st0, blockTime);
    var ex := ExportGenesis(w, blockTime);
    assert ex.deposits == gs.deposits;
    assert ex.borrows == gs.borrows;
  }
}
