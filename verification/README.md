# Hard genesis and harvest keeper stores, in Dafny

This project models two parts of the Kava lending modules.

- **Genesis import and export of the hard module** (`x/hard/genesis.go`).
  `InitGenesis` validates a genesis state and writes it into the module's
  store, in this order: params, one money market per denom, the accrual time
  and both interest factors of each collateral type, deposits, borrows and
  the three totals. It then requires the deposit module account, and after
  it the liquidator module account. `ExportGenesis` reads the store back
  into a genesis state. It writes one accumulation-time record per money
  market of the params, with these defaults: zero for a missing interest
  factor, the current block time for a missing accrual time, and the default
  total for a total the store never recorded.
- **The keyed stores of the harvest keeper**, with the contracts its keeper
  tests assert (`x/harvest/keeper/keeper_test.go`):
  - get/set/delete of deposits keyed by (owner, denom);
  - get/set/delete of claims keyed by (owner, collateral type, reward type);
  - get/set/delete of money markets keyed by denom;
  - iteration over all deposits, or over the deposits of one denom;
  - iteration over money markets in denom order;
  - the single previous-block-time slot, and the per-denom delegator
    distribution time.

A keeper store is modelled as an association list sorted by key
(`KvStore.Store`). Its meaning is the finite map `KvStore.View`. `Get`,
`Set` and `Delete` are specified against that map. Iteration visits the
entries in ascending key order, as an ordered key-value store does. Two
sorted stores with the same map are equal (`KvStore.Extensionality`), so the
round trips below are stated as exact equalities.

Files:

- `wrappers.dfy`: `Option` and `Result`.
- `key_order.dfy`: store keys (sequences of strings) and their lexicographic
  order.
- `kv_store.dfy`: the sorted store, its operations, and batch writes (`SetAll`).
- `lending_types.dfy`: coins, money markets, deposits, borrows, claims, and
  the keys each record is stored under.
- `hard_genesis.dfy`: the genesis state, `InitGenesis`, `ExportGenesis`, and
  both round trips.
- `harvest_keeper.dfy`: the harvest keeper's stores and the test scenarios.

Things the code cannot see are parameters:

- Genesis validation is `validate: GenesisState -> bool`.
- The supply keeper's module-account lookup is
  `accountExists: ModuleAccount -> bool`.
- The block time is an argument of `ExportGenesis`.

A panic is modelled as a `Failure` result.

## Model

| member | source | states |
|---|---|---|
| HardGenesis.InitGenesis | x/hard/genesis.go:12-53 | An invalid genesis state fails before anything is written. A missing deposit account fails, and only then a missing liquidator account. Import succeeds exactly when validation passes and both accounts exist. On success: the params and the three totals are those of the genesis state. Each money market, accrual time, interest factor, deposit and borrow is stored under its key; for a repeated key the last write wins. In every one of these stores, keys the genesis state does not mention keep their old values. |
| HardGenesis.Write | x/hard/genesis.go:17-39 | No contract of its own. WriteMarkets, WriteAccumulationTimes and WritePositions state what it stores and what it leaves alone, and WriteWellKeyed that it keeps records under their own keys. |
| HardGenesis.WriteMarkets | x/hard/genesis.go:19-21 | Every money market of the params is stored under its own denom; for a repeated denom the last one is kept. Denoms outside the params keep their old money markets. |
| HardGenesis.WriteAccumulationTimes | x/hard/genesis.go:23-27 | Each accumulation-time record sets its collateral type's accrual time, supply factor and borrow factor. The three stores are unchanged for every other collateral type. |
| HardGenesis.WritePositions | x/hard/genesis.go:29-35 | Every deposit is stored under its (owner, denom) key and every borrow under its borrower; for a repeated key the last one is kept. Deposits and borrows under other keys are unchanged. |
| HardGenesis.ExportGenesis | x/hard/genesis.go:56-107 | Export gives the stored params; one accumulation-time record per money market, in params order, with the stored factor or zero and the stored accrual time or the block time; every stored deposit and borrow, in key order; and each total as stored, or its default when the store never recorded it. |
| HardGenesis.ExportAccumulationTime | x/hard/genesis.go:86-100 | No contract of its own. The ExportGenesis contract states each record it builds: the stored factors or zero, and the stored accrual time or the block time. |
| HardGenesis.WriteWellKeyed | x/hard/genesis.go:17-39 | Writing a genesis state into a store whose deposits and borrows sit under their own keys keeps them so. |
| HardGenesis.InitGenesisWellKeyed | x/hard/genesis.go:12-53 | A successful import into such a store leaves it so, which is what ImportAfterExport requires of the store it exports. |
| HardGenesis.ExportedEntries | x/hard/genesis.go:63-71 | In a store where every record sits under its own key, re-keying the exported deposits and borrows gives back the store's entries exactly. |
| HardGenesis.LatestExported | x/hard/genesis.go:86-101 | Among the exported accumulation-time records, every record with a money market's denom holds the values exported for that denom. |
| HardGenesis.ExportedKeys | x/hard/genesis.go:86-101 | The exported accumulation-time records name only denoms of the params' money markets. |
| HardGenesis.ImportedFactors | x/hard/genesis.go:17-107 | Importing an export into a fresh store creates an entry in all three per-collateral-type stores for each money-market denom, holding the stored value or its export default. It creates no entry for any other denom. |
| HardGenesis.ImportAfterExport | x/hard/genesis.go:12-107 | Importing an export into a fresh store succeeds when validation passes and both accounts exist. It restores the params, the deposit and borrow stores, and every recorded total, and a total never recorded comes back as its default. Every money market is stored under its denom; for a repeated denom, the last one. The factor and accrual-time stores come back for exactly the money-market denoms. |
| HardGenesis.RecordsRoundTrip | x/hard/genesis.go:29-71 | Records written into an empty store in ascending key order are iterated back as the same sequence. |
| HardGenesis.AccumulationTimesRoundTrip | x/hard/genesis.go:23-102 | With one accumulation-time record per money market, in params order and with distinct denoms, export after import reproduces the records exactly. |
| HardGenesis.ExportAfterImport | x/hard/genesis.go:12-107 | Take a genesis state in export's shape: deposits and borrows in key order, and one accumulation-time record per distinct money-market denom. Importing it into a fresh store succeeds, and exporting again at any block time gives back the same genesis state. |
| KvStore.Get | x/harvest/keeper/keeper_test.go:78-85 | A lookup finds a value exactly when the key is in the store's map, and returns the value mapped to it. |
| KvStore.Set | x/harvest/keeper/keeper_test.go:81-85 | After a write the store maps the key to the new value. Every other key is unchanged. |
| KvStore.Delete | x/harvest/keeper/keeper_test.go:87-90 | After a delete the key is absent. Every other key is unchanged. |
| KvStore.SetAll | x/hard/genesis.go:29-31 | Writing a sequence of entries one after another: each key holds the last value written to it, and keys never written keep their old values. |
| KvStore.SetAllLast | x/hard/genesis.go:29-35 | A record that no later record in the batch overwrites is the one stored under its key. |
| KvStore.SetAllOutside | x/hard/genesis.go:29-35 | A key no record of the batch names keeps its old value. |
| KvStore.SetAllSorted | x/hard/genesis.go:29-35 | Writing a store's own entries, in order, into an empty store rebuilds exactly that store. |
| KvStore.SetAllKeys | x/hard/genesis.go:29-35 | The keys after a batch write are the old keys plus the keys of the batch. |
| KvStore.WithPrefix | x/harvest/keeper/keeper_test.go:117-131 | A prefix scan sees exactly the entries whose keys start with the prefix, with their values. |
| KvStore.Visit | x/hard/genesis.go:63-71 | Iteration visits entries in order and stops at the first one for which the callback returns true. |
| KvStore.VisitAll | x/hard/genesis.go:63-71 | With a callback that never stops, iteration visits every entry. |
| KvStore.Extensionality | x/harvest/keeper/keeper_test.go:75-92 | Two sorted stores with the same map are the same store. |
| KvStore.SetThenDelete | x/harvest/keeper/keeper_test.go:75-92 | Setting an absent key and then deleting it gives back the original store. |
| KvStore.SetKeeps | x/harvest/keeper/keeper_test.go:81 | A write of an entry that satisfies a per-entry invariant keeps every entry satisfying it. |
| KvStore.DeleteKeeps | x/harvest/keeper/keeper_test.go:87 | A delete keeps every entry satisfying a per-entry invariant. |
| KvStore.SetAllKeeps | x/hard/genesis.go:29-35 | A batch of entries that satisfy a per-entry invariant keeps every entry satisfying it. |
| KvStore.SetSize | x/harvest/keeper/keeper_test.go:94-105 | A write adds one entry for a new key and none for a key already present. |
| HarvestKeeper.GetPreviousBlockTime | x/harvest/keeper/keeper_test.go:50-57 | No contract of its own. TimestampCycle and SetPreviousBlockTime state that it is absent in the empty keeper and reads back the last time written. |
| HarvestKeeper.SetPreviousBlockTime | x/harvest/keeper/keeper_test.go:47-58 | After a write the previous block time reads back as the written time. The rest of the keeper is unchanged. |
| HarvestKeeper.GetPreviousDelegatorDistribution | x/harvest/keeper/keeper_test.go:63-72 | No contract of its own. TimestampCycle and SetPreviousDelegationDistribution state that it is absent in the empty keeper and reads back the last time written for the denom. |
| HarvestKeeper.SetPreviousDelegationDistribution | x/harvest/keeper/keeper_test.go:60-73 | After a write the denom's distribution time reads back as the written time. Other denoms and the rest of the keeper are unchanged. |
| HarvestKeeper.TimestampCycle | x/harvest/keeper/keeper_test.go:47-73 | Both timestamps start absent, and each reads back the time last written. |
| HarvestKeeper.GetDeposit | x/harvest/keeper/keeper_test.go:78-89 | No contract of its own. DepositCycle, SetDeposit and DeleteDeposit state what it reads back, and GetDepositOwnPair that it finds only a deposit of the owner and denom asked for. |
| HarvestKeeper.GetDepositOwnPair | x/harvest/keeper/keeper_test.go:83-85 | In a well-keyed keeper a lookup of (owner, denom) finds only a deposit of that owner and denom. |
| HarvestKeeper.SetDeposit | x/harvest/keeper/keeper_test.go:81-85 | A deposit reads back under its (owner, denom) pair. Other pairs and the other stores are unchanged. |
| HarvestKeeper.DeleteDeposit | x/harvest/keeper/keeper_test.go:87-90 | After a delete the deposit's (owner, denom) pair is absent. Other pairs and the other stores are unchanged. |
| HarvestKeeper.DepositWritesKeepWellKeyed | x/harvest/keeper/keeper_test.go:75-92 | Setting or deleting a deposit keeps every record under its own key. |
| HarvestKeeper.DepositCycle | x/harvest/keeper/keeper_test.go:75-92 | An absent deposit is found equal once set, and is absent again once deleted. Set-then-delete restores the keeper exactly. |
| HarvestKeeper.IterateDeposits | x/harvest/keeper/keeper_test.go:99-104 | No contract of its own. IterateDepositsMatchesGet states which deposits it yields, SetDepositCount and SetDepositsCount how many, and KvStore.Visit where it stops. |
| HarvestKeeper.IterateDepositsMatchesGet | x/harvest/keeper/keeper_test.go:99-104 | In a well-keyed keeper, a deposit is iterated if and only if a lookup of its own (owner, denom) pair finds it. |
| HarvestKeeper.SetDepositCount | x/harvest/keeper/keeper_test.go:94-105 | Setting a deposit adds one to the number iterated for a new (owner, denom) pair, and none for a pair already held. |
| HarvestKeeper.SetDeposits | x/harvest/keeper/keeper_test.go:95-98 | Setting deposits one by one is the batch write of their entries, keyed by (owner, denom). Claims, money markets and both timestamps are unchanged. |
| HarvestKeeper.SetDepositsWellKeyed | x/harvest/keeper/keeper_test.go:108-115 | Setting deposits one after another keeps a well-keyed keeper well keyed; with EmptyWellKeyed this covers the keepers the deposit tests build. |
| HarvestKeeper.SetDepositsCount | x/harvest/keeper/keeper_test.go:94-105 | After deposits are set into an empty keeper, iteration yields one deposit per distinct (owner, denom) pair among them. |
| HarvestKeeper.IterateDepositsScenario | x/harvest/keeper/keeper_test.go:94-105 | Five bnb deposits from owners "test0" to "test4" are all iterated: five deposits. |
| HarvestKeeper.IterateDepositsByDenom | x/harvest/keeper/keeper_test.go:117-131 | No contract of its own. IterateByDenomContents, IterateByDenomOnlyDenom, IterateByDenomCovers and IterateByDenomCount state which deposits it yields and how many. |
| HarvestKeeper.IterateByDenomContents | x/harvest/keeper/keeper_test.go:117-131 | A deposit is yielded by per-denom iteration if and only if full iteration yields it and its denom is that denom. |
| HarvestKeeper.IterateByDenomOnlyDenom | x/harvest/keeper/keeper_test.go:117-131 | Whatever the callback, per-denom iteration yields only deposits of that denom. |
| HarvestKeeper.IterateByDenomCovers | x/harvest/keeper/keeper_test.go:133-139 | Every deposit that full iteration yields is also yielded by iteration over its own denom. |
| HarvestKeeper.IterateByDenomCount | x/harvest/keeper/keeper_test.go:133-139 | When the stored deposits' denoms are among distinct denoms, the per-denom iterations together yield as many deposits as full iteration does. |
| HarvestKeeper.SetDepositsByDenomCount | x/harvest/keeper/keeper_test.go:107-131 | After deposits are set into an empty keeper, per-denom iteration yields one deposit per distinct owner with a deposit of that denom. |
| HarvestKeeper.IterateDepositsByDenomScenario | x/harvest/keeper/keeper_test.go:107-140 | Each owner sets bnb twice and then btcb. The second bnb deposit overwrites the first, so iteration yields five bnb deposits, five btcb deposits and ten in all. Each per-denom iteration yields only deposits of its own denom. |
| HarvestKeeper.GetClaim | x/harvest/keeper/keeper_test.go:144-153 | No contract of its own. ClaimCycle, SetClaim and DeleteClaim state what it reads back, and GetClaimOwnTriple that it finds only a claim of the triple asked for. |
| HarvestKeeper.GetClaimOwnTriple | x/harvest/keeper/keeper_test.go:148-150 | In a well-keyed keeper a lookup of (owner, collateral type, reward type) finds only a claim with that owner, collateral type and reward type. |
| HarvestKeeper.SetClaim | x/harvest/keeper/keeper_test.go:147-150 | A claim reads back under its (owner, collateral type, reward type) triple. Other triples and the other stores are unchanged. |
| HarvestKeeper.DeleteClaim | x/harvest/keeper/keeper_test.go:152-154 | After a delete the claim's triple is absent. Other triples and the other stores are unchanged. |
| HarvestKeeper.ClaimWritesKeepWellKeyed | x/harvest/keeper/keeper_test.go:142-155 | Setting or deleting a claim keeps every record under its own key. |
| HarvestKeeper.ClaimCycle | x/harvest/keeper/keeper_test.go:142-155 | An absent claim is found equal once set, and is absent again once deleted. Set-then-delete restores the keeper exactly. |
| HarvestKeeper.GetMoneyMarket | x/harvest/keeper/keeper_test.go:163-174 | No contract of its own. MoneyMarketCycle, SetMoneyMarket and DeleteMoneyMarket state what it reads back. |
| HarvestKeeper.SetMoneyMarket | x/harvest/keeper/keeper_test.go:166-170 | A money market reads back under its denom. Other denoms and the other stores are unchanged. |
| HarvestKeeper.DeleteMoneyMarket | x/harvest/keeper/keeper_test.go:172-175 | After a delete the denom has no money market. Other denoms and the other stores are unchanged. |
| HarvestKeeper.MarketWritesKeepWellKeyed | x/harvest/keeper/keeper_test.go:157-176 | Setting or deleting a money market keeps every money-market key a single denom. |
| HarvestKeeper.MoneyMarketCycle | x/harvest/keeper/keeper_test.go:157-176 | An absent money market is found equal once set, and is absent again once deleted. Set-then-delete restores the keeper exactly. |
| HarvestKeeper.IterateMoneyMarkets | x/harvest/keeper/keeper_test.go:197-203 | No contract of its own. IterateMoneyMarketsMatchesGet states which pairs it yields, IterateMoneyMarketsAscending and IterateMoneyMarketsInsertionOrder in what order, and KvStore.Visit where it stops. |
| HarvestKeeper.IterateMoneyMarketsMatchesGet | x/harvest/keeper/keeper_test.go:197-206 | In a well-keyed keeper, a (denom, money market) pair is iterated if and only if a lookup of the denom finds that money market. |
| HarvestKeeper.IterateMoneyMarketsAscending | x/harvest/keeper/keeper_test.go:197-206 | Whatever the callback, money markets are visited in strictly ascending denom order. |
| HarvestKeeper.SetMoneyMarkets | x/harvest/keeper/keeper_test.go:182-195 | Setting (denom, money market) pairs one by one is the batch write of their entries, keyed by denom. Deposits, claims and both timestamps are unchanged. |
| HarvestKeeper.IterateMoneyMarketsInsertionOrder | x/harvest/keeper/keeper_test.go:178-207 | Money markets set into an empty keeper in ascending denom order are iterated back in that order: the same denoms and the same markets. |
| HarvestKeeper.IterateInterestRateModelsScenario | x/harvest/keeper/keeper_test.go:178-207 | Five money markets set under "test0" to "test4" are iterated back exactly as they were set. |

## Left out

- The `x/incentive/client/cli/query.go` command-line queries are left out because they are CLI plumbing that parses flags, builds requests and prints results. Two defects in the rewards query are not modelled: line 59 reads the reward type from the owner flag, and line 64 parses the owner flag even when it is empty, so the owner flag is not optional in practice.
- What `GenesisState.Validate` checks is left out. `types/genesis.go` is not part of this model, so validation is the `validate` parameter.
- The supply keeper's module-account lookup is left out. It is the `accountExists` parameter, because the supply keeper is not part of this model.
- The panic messages are left out. This includes line 44 of `x/hard/genesis.go`, which formats the nil account value instead of the account name. A panic is modelled only as which `GenesisError` is returned.
- HardGenesis.InitGenesis: on a missing module account it returns a `Failure` and drops the writes done before the check. The source has already written those values when it panics, but the panic aborts chain start, so no caller sees that state.
- HardGenesis.InitGenesis: for a key that appears more than once in the genesis state, the contract states only the last write. It says nothing of the earlier ones, which later writes overwrite anyway.
- The arithmetic of `sdk.Dec`, `sdk.Int` and `sdk.Coins` is left out. Decimals, amounts and timestamps are integers, and coin sets are sequences, because genesis only copies them and uses the decimal zero.
- The default totals are left out as values: `DefaultTotalSupplied`, `DefaultTotalBorrowed` and `DefaultTotalReserves` are empty coin sets. `types/genesis.go`, where the defaults are defined, is not part of this model.
- The byte layout of store keys is left out, because `types/keys.go` is not part of this model. A key is a sequence of strings ordered lexicographically. Deposits are keyed (denom, owner), so the deposits of one denom share a prefix, as per-denom iteration requires. Because a key is a sequence of whole components, the prefix `[denom]` matches that denom only. This is why IterateByDenomOnlyDenom and IterateByDenomContents hold. A raw byte-prefix scan is different: over keys laid out as denom, separator, owner, a scan with the bare denom bytes as its prefix would also visit "bnbx" deposits when scanning "bnb". Without the key layout the model cannot tell which of the two the keeper does. Claims are keyed (owner, collateral type, reward type). Money markets, factors and times are keyed by denom, and borrows by borrower.
- Lemmas about export and iteration require the store to be well keyed: every record sits under its own key. This invariant is proved, not assumed. It holds for the empty keeper and for a fresh genesis store. Every keeper setter and deleter keeps it, as do `SetDeposits` and genesis import (`HardGenesis.WriteWellKeyed`, `HardGenesis.InitGenesisWellKeyed`). What is not modelled is a store written by code outside this model.
- Interest accrual, rewards, borrowing, liquidation and the keeper's other operations are left out, because they are not among the modelled files.
- The test suite's setup is left out: the test app, account generation and context creation. The modelled tests start from the empty keeper `HarvestKeeper.Empty`.
