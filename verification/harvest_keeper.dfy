/** The harvest keeper's keyed stores, with the contracts its keeper tests
    (x/harvest/keeper/keeper_test.go) assert of them: get/set/delete cycles
    for deposits, claims and money markets, iteration of deposits (all of
    them, or those of one denom), ordered iteration of money markets, and
    the single-slot and per-denom timestamps. */
module HarvestKeeper {
  import opened Wrappers
  import opened KeyOrder
  import opened KvStore
  import opened LendingTypes

  datatype Keeper = Keeper(
    previousBlockTime: Option<Time>,
    previousDelegatorDistribution: Store<Time>,
    deposits: Store<Deposit>,
    claims: Store<Claim>,
    moneyMarkets: Store<MoneyMarket>)

  /** A keeper whose stores hold nothing, as at the start of each test. */
  const Empty: Keeper := Keeper(None, [], [], [], [])

  /** Every record sits under the key its own fields name, and every money
      market under a one-component denom key. */
  predicate WellKeyed(k: Keeper) {
    && EveryEntry(k.deposits, DepositKeyed)
    && EveryEntry(k.claims, ClaimKeyed)
    && EveryEntry(k.moneyMarkets, DenomKeyed)
  }

  /** The callback the tests pass to every iteration: never stop early. */
  predicate NoStop<T>(x: T) {
    false
  }

  // ---------------------------------------------------------------------
  // Timestamps

  function GetPreviousBlockTime(k: Keeper): Option<Time> {
    k.previousBlockTime
  }

  function SetPreviousBlockTime(k: Keeper, t: Time): (r: Keeper)
    ensures GetPreviousBlockTime(r) == Some(t)
    ensures r.(previousBlockTime := k.previousBlockTime) == k
  {
    k.(previousBlockTime := Some(t))
  }

  function GetPreviousDelegatorDistribution(k: Keeper, denom: Denom): Option<Time> {
    Get(k.previousDelegatorDistribution, DenomKey(denom))
  }

  function SetPreviousDelegationDistribution(k: Keeper, t: Time, denom: Denom): (r: Keeper)
    ensures GetPreviousDelegatorDistribution(r, denom) == Some(t)
    ensures forall other | other != denom ::
      GetPreviousDelegatorDistribution(r, other) == GetPreviousDelegatorDistribution(k, other)
    ensures r.(previousDelegatorDistribution := k.previousDelegatorDistribution) == k
  {
    k.(previousDelegatorDistribution := Set(k.previousDelegatorDistribution, DenomKey(denom), t))
  }

  // ---------------------------------------------------------------------
  // Deposits

  function GetDeposit(k: Keeper, depositor: Address, denom: Denom): Option<Deposit> {
    Get(k.deposits, DepositKeyFor(depositor, denom))
  }

  function SetDeposit(k: Keeper, d: Deposit): (r: Keeper)
    ensures GetDeposit(r, d.depositor, d.amount.denom) == Some(d)
    ensures forall owner, denom | (owner, denom) != (d.depositor, d.amount.denom) ::
      GetDeposit(r, owner, denom) == GetDeposit(k, owner, denom)
    ensures r.(deposits := k.deposits) == k
  {
    k.(deposits := Set(k.deposits, DepositKey(d), d))
  }

  function DeleteDeposit(k: Keeper, d: Deposit): (r: Keeper)
    ensures GetDeposit(r, d.depositor, d.amount.denom) == None
    ensures forall owner, denom | (owner, denom) != (d.depositor, d.amount.denom) ::
      GetDeposit(r, owner, denom) == GetDeposit(k, owner, denom)
    ensures r.(deposits := k.deposits) == k
  {
    k.(deposits := Delete(k.deposits, DepositKey(d)))
  }

  /** The deposits visited, in key order, until `stop` asks to stop. */
  function IterateDeposits(k: Keeper, stop: Deposit -> bool): seq<Deposit> {
    Visit(Values(k.deposits), stop)
  }

  /** The deposits of one denom visited, in key order, until `stop` asks to
      stop. */
  function IterateDepositsByDenom(k: Keeper, denom: Denom, stop: Deposit -> bool): seq<Deposit> {
    Visit(Values(WithPrefix(k.deposits, [denom])), stop)
  }

  // ---------------------------------------------------------------------
  // Claims

  function GetClaim(k: Keeper, owner: Address, depositDenom: Denom, claimType: string): Option<Claim> {
    Get(k.claims, ClaimKeyFor(owner, depositDenom, claimType))
  }

  function SetClaim(k: Keeper, c: Claim): (r: Keeper)
    ensures GetClaim(r, c.owner, c.depositDenom, c.claimType) == Some(c)
    ensures forall o, d, t | (o, d, t) != (c.owner, c.depositDenom, c.claimType) ::
      GetClaim(r, o, d, t) == GetClaim(k, o, d, t)
    ensures r.(claims := k.claims) == k
  {
    k.(claims := Set(k.claims, ClaimKey(c), c))
  }

  function DeleteClaim(k: Keeper, c: Claim): (r: Keeper)
    ensures GetClaim(r, c.owner, c.depositDenom, c.claimType) == None
    ensures forall o, d, t | (o, d, t) != (c.owner, c.depositDenom, c.claimType) ::
      GetClaim(r, o, d, t) == GetClaim(k, o, d, t)
    ensures r.(claims := k.claims) == k
  {
    k.(claims := Delete(k.claims, ClaimKey(c)))
  }

  // ---------------------------------------------------------------------
  // Money markets

  function GetMoneyMarket(k: Keeper, denom: Denom): Option<MoneyMarket> {
    Get(k.moneyMarkets, DenomKey(denom))
  }

  function SetMoneyMarket(k: Keeper, denom: Denom, mm: MoneyMarket): (r: Keeper)
    ensures GetMoneyMarket(r, denom) == Some(mm)
    ensures forall other | other != denom :: GetMoneyMarket(r, other) == GetMoneyMarket(k, other)
    ensures r.(moneyMarkets := k.moneyMarkets) == k
  {
    k.(moneyMarkets := Set(k.moneyMarkets, DenomKey(denom), mm))
  }

  function DeleteMoneyMarket(k: Keeper, denom: Denom): (r: Keeper)
    ensures GetMoneyMarket(r, denom) == None
    ensures forall other | other != denom :: GetMoneyMarket(r, other) == GetMoneyMarket(k, other)
    ensures r.(moneyMarkets := k.moneyMarkets) == k
  {
    k.(moneyMarkets := Delete(k.moneyMarkets, DenomKey(denom)))
  }

  /** The denom a money-market key names. */
  function KeyDenom(key: Key): Denom {
    if |key| == 0 then "" else key[0]
  }

  /** The (denom, money market) pairs of a store, in key order. */
  function MarketPairs(s: seq<Entry<MoneyMarket>>): (r: seq<(Denom, MoneyMarket)>)
    ensures |r| == |s|
    ensures forall i | 0 <= i < |s| :: r[i] == (KeyDenom(s[i].key), s[i].value)
  {
    seq(|s|, i requires 0 <= i < |s| => (KeyDenom(s[i].key), s[i].value))
  }

  /** The (denom, money market) pairs visited, in ascending denom order,
      until `stop` asks to stop. */
  function IterateMoneyMarkets(k: Keeper, stop: ((Denom, MoneyMarket)) -> bool): seq<(Denom, MoneyMarket)> {
    Visit(MarketPairs(k.moneyMarkets), stop)
  }

  // ---------------------------------------------------------------------
  // The well-keyed invariant

  /** The empty keeper is well keyed. */
  lemma EmptyWellKeyed()
    ensures WellKeyed(Empty)
  {
  }

  /** Setting or deleting a deposit keeps the keeper well keyed. */
  lemma DepositWritesKeepWellKeyed(k: Keeper, d: Deposit)
    requires WellKeyed(k)
    ensures WellKeyed(SetDeposit(k, d))
    ensures WellKeyed(DeleteDeposit(k, d))
  {
    SetKeeps(k.deposits, DepositKey(d), d, DepositKeyed);
    DeleteKeeps(k.deposits, DepositKey(d), DepositKeyed);
  }

  /** Setting or deleting a claim keeps the keeper well keyed. */
  lemma ClaimWritesKeepWellKeyed(k: Keeper, c: Claim)
    requires WellKeyed(k)
    ensures WellKeyed(SetClaim(k, c))
    ensures WellKeyed(DeleteClaim(k, c))
  {
    SetKeeps(k.claims, ClaimKey(c), c, ClaimKeyed);
    DeleteKeeps(k.claims, ClaimKey(c), ClaimKeyed);
  }

  /** Setting or deleting a money market keeps the keeper well keyed. */
  lemma MarketWritesKeepWellKeyed(k: Keeper, denom: Denom, mm: MoneyMarket)
    requires WellKeyed(k)
    ensures WellKeyed(SetMoneyMarket(k, denom, mm))
    ensures WellKeyed(DeleteMoneyMarket(k, denom))
  {
    SetKeeps(k.moneyMarkets, DenomKey(denom), mm, DenomKeyed);
    DeleteKeeps(k.moneyMarkets, DenomKey(denom), DenomKeyed);
  }

  // ---------------------------------------------------------------------
  // Lookups and iteration agree

  /** In a well-keyed keeper a deposit lookup finds only a deposit of that
      owner and denom. */
  lemma GetDepositOwnPair(k: Keeper, depositor: Address, denom: Denom)
    requires WellKeyed(k)
    ensures GetDeposit(k, depositor, denom).Some? ==>
      && GetDeposit(k, depositor, denom).value.depositor == depositor
      && GetDeposit(k, depositor, denom).value.amount.denom == denom
  {
    var key := DepositKeyFor(depositor, denom);
    if key in View(k.deposits) {
      var j := ViewHasEntry(k.deposits, key);
      assert DepositKey(k.deposits[j].value) == key;
    }
  }

  /** In a well-keyed keeper a claim lookup finds only a claim of that
      owner, collateral type and reward type. */
  lemma GetClaimOwnTriple(k: Keeper, owner: Address, depositDenom: Denom, claimType: string)
    requires WellKeyed(k)
    ensures GetClaim(k, owner, depositDenom, claimType).Some? ==>
      && GetClaim(k, owner, depositDenom, claimType).value.owner == owner
      && GetClaim(k, owner, depositDenom, claimType).value.depositDenom == depositDenom
      && GetClaim(k, owner, depositDenom, claimType).value.claimType == claimType
  {
    var key := ClaimKeyFor(owner, depositDenom, claimType);
    if key in View(k.claims) {
      var j := ViewHasEntry(k.claims, key);
      assert ClaimKey(k.claims[j].value) == key;
    }
  }

  /** A deposit is iterated exactly when it is the one a lookup of its own
      (owner, denom) pair finds. */
  lemma IterateDepositsMatchesGet(k: Keeper, d: Deposit)
    requires WellKeyed(k)
    ensures d in IterateDeposits(k, NoStop) <==> GetDeposit(k, d.depositor, d.amount.denom) == Some(d)
  {
    var s := k.deposits;
    VisitAll(Values(s), NoStop);
    if d in Values(s) {
      var j :| 0 <= j < |s| && s[j].value == d;
      EntryInView(s, j);
    }
    if GetDeposit(k, d.depositor, d.amount.denom) == Some(d) {
      var j := ViewHasEntry(s, DepositKey(d));
      assert Values(s)[j] == d;
    }
  }

  /** A (denom, money market) pair is iterated exactly when a lookup of the
      denom finds that money market. */
  lemma IterateMoneyMarketsMatchesGet(k: Keeper, denom: Denom, mm: MoneyMarket)
    requires WellKeyed(k)
    ensures (denom, mm) in IterateMoneyMarkets(k, NoStop) <==> GetMoneyMarket(k, denom) == Some(mm)
  {
    var s := k.moneyMarkets;
    VisitAll(MarketPairs(s), NoStop);
    if (denom, mm) in MarketPairs(s) {
      var j :| 0 <= j < |s| && MarketPairs(s)[j] == (denom, mm);
      assert s[j].key == DenomKey(denom);
      EntryInView(s, j);
    }
    if GetMoneyMarket(k, denom) == Some(mm) {
      var j := ViewHasEntry(s, DenomKey(denom));
      assert MarketPairs(s)[j] == (denom, mm);
    }
  }

  // ---------------------------------------------------------------------
  // Store contracts the keeper tests assert

  /** Both timestamps start absent; after a write each reads back the
      written time (keeper_test.go, TestGetSetPreviousBlockTime and
      TestGetSetPreviousDelegatorDistribution). */
  lemma TimestampCycle(k: Keeper, t: Time, denom: Denom)
    ensures GetPreviousBlockTime(Empty) == None
    ensures GetPreviousBlockTime(SetPreviousBlockTime(k, t)) == Some(t)
    ensures GetPreviousDelegatorDistribution(Empty, denom) == None
    ensures GetPreviousDelegatorDistribution(SetPreviousDelegationDistribution(k, t, denom), denom) == Some(t)
  {
  }

  /** A deposit is absent, reads back equal once set, and is absent again
      once deleted; set-then-delete leaves the keeper exactly as it was. */
  lemma DepositCycle(k: Keeper, d: Deposit)
    requires GetDeposit(k, d.depositor, d.amount.denom) == None
    ensures GetDeposit(SetDeposit(k, d), d.depositor, d.amount.denom) == Some(d)
    ensures GetDeposit(DeleteDeposit(SetDeposit(k, d), d), d.depositor, d.amount.denom) == None
    ensures DeleteDeposit(SetDeposit(k, d), d) == k
  {
    SetThenDelete(k.deposits, DepositKey(d), d);
  }

  /** The same cycle for a claim keyed by (owner, collateral type, reward type). */
  lemma ClaimCycle(k: Keeper, c: Claim)
    requires GetClaim(k, c.owner, c.depositDenom, c.claimType) == None
    ensures GetClaim(SetClaim(k, c), c.owner, c.depositDenom, c.claimType) == Some(c)
    ensures GetClaim(DeleteClaim(SetClaim(k, c), c), c.owner, c.depositDenom, c.claimType) == None
    ensures DeleteClaim(SetClaim(k, c), c) == k
  {
    SetThenDelete(k.claims, ClaimKey(c), c);
  }

  /** The same cycle for a money market keyed by denom. */
  lemma MoneyMarketCycle(k: Keeper, denom: Denom, mm: MoneyMarket)
    requires GetMoneyMarket(k, denom) == None
    ensures GetMoneyMarket(SetMoneyMarket(k, denom, mm), denom) == Some(mm)
    ensures GetMoneyMarket(DeleteMoneyMarket(SetMoneyMarket(k, denom, mm), denom), denom) == None
    ensures DeleteMoneyMarket(SetMoneyMarket(k, denom, mm), denom) == k
  {
    SetThenDelete(k.moneyMarkets, DenomKey(denom), mm);
  }

  /** Setting a deposit under an (owner, denom) pair that already holds one
      replaces it: iteration grows by one only for a new pair. */
  lemma SetDepositCount(k: Keeper, d: Deposit)
    ensures |IterateDeposits(SetDeposit(k, d), NoStop)| ==
      if GetDeposit(k, d.depositor, d.amount.denom).Some? then |IterateDeposits(k, NoStop)|
      else |IterateDeposits(k, NoStop)| + 1
  {
    VisitAll(Values(k.deposits), NoStop);
    VisitAll(Values(SetDeposit(k, d).deposits), NoStop);
    SetSize(k.deposits, DepositKey(d), d);
  }

  /** Sets each deposit of `ds` in turn. */
  function SetDeposits(k: Keeper, ds: seq<Deposit>): (r: Keeper)
    ensures r.deposits == SetAll(k.deposits, Entries(ds, DepositKey, Id))
    ensures r.(deposits := k.deposits) == k
    decreases |ds|
  {
    if ds == [] then k
    else
      assert Entries(ds, DepositKey, Id)[1..] == Entries(ds[1..], DepositKey, Id);
      SetDeposits(SetDeposit(k, ds[0]), ds[1..])
  }

  /** Setting deposits one after another keeps the keeper well keyed. */
  lemma {:induction false} SetDepositsWellKeyed(k: Keeper, ds: seq<Deposit>)
    requires WellKeyed(k)
    ensures WellKeyed(SetDeposits(k, ds))
    decreases |ds|
  {
    if ds != [] {
      DepositWritesKeepWellKeyed(k, ds[0]);
      SetDepositsWellKeyed(SetDeposit(k, ds[0]), ds[1..]);
    }
  }

  /** Setting the deposits `ds` one after another into an empty keeper leaves
      one deposit per distinct (owner, denom) pair among them. */
  lemma SetDepositsCount(ds: seq<Deposit>)
    ensures |IterateDeposits(SetDeposits(Empty, ds), NoStop)| == |KeysOf(ds, DepositKey)|
  {
    var s := SetDeposits(Empty, ds).deposits;
    VisitAll(Values(s), NoStop);
    SetAllKeys([], Entries(ds, DepositKey, Id));
    SizeIsKeyCount(s);
    EntriesKeys(ds, DepositKey, Id);
  }

  /** Each deposit under a key starting with `denom` is a stored deposit of
      that denom. */
  lemma PrefixedDeposit(k: Keeper, denom: Denom, d: Deposit)
    requires WellKeyed(k)
    requires d in Values(WithPrefix(k.deposits, [denom]))
    ensures d in Values(k.deposits) && d.amount.denom == denom
  {
    var w := WithPrefix(k.deposits, [denom]);
    var i :| 0 <= i < |w| && w[i].value == d;
    EntryInView(w, i);
    SingletonPrefix(denom, w[i].key);
    var j := ViewHasEntry(k.deposits, w[i].key);
    assert k.deposits[j].value == d;
  }

  /** Each stored deposit of `denom` sits under a key starting with `denom`. */
  lemma DepositPrefixed(k: Keeper, denom: Denom, d: Deposit)
    requires WellKeyed(k)
    requires d in Values(k.deposits) && d.amount.denom == denom
    ensures d in Values(WithPrefix(k.deposits, [denom]))
  {
    var s := k.deposits;
    var w := WithPrefix(s, [denom]);
    var j :| 0 <= j < |s| && s[j].value == d;
    EntryInView(s, j);
    SingletonPrefix(denom, s[j].key);
    var i := ViewHasEntry(w, s[j].key);
    assert w[i].value == d;
  }

  /** Per-denom iteration yields exactly the deposits of that denom, of all
      those `IterateDeposits` yields. */
  lemma IterateByDenomContents(k: Keeper, denom: Denom)
    requires WellKeyed(k)
    ensures forall d: Deposit :: d in IterateDepositsByDenom(k, denom, NoStop) <==>
      d in IterateDeposits(k, NoStop) && d.amount.denom == denom
  {
    VisitAll(Values(k.deposits), NoStop);
    VisitAll(Values(WithPrefix(k.deposits, [denom])), NoStop);
    forall d: Deposit
      ensures d in Values(WithPrefix(k.deposits, [denom])) <==> d in Values(k.deposits) && d.amount.denom == denom
    {
      if d in Values(WithPrefix(k.deposits, [denom])) {
        PrefixedDeposit(k, denom, d);
      }
      if d in Values(k.deposits) && d.amount.denom == denom {
        DepositPrefixed(k, denom, d);
      }
    }
  }

  /** Every deposit `IterateDeposits` yields is also yielded by the
      iteration over its own denom. */
  lemma IterateByDenomCovers(k: Keeper)
    requires WellKeyed(k)
    ensures forall d | d in IterateDeposits(k, NoStop) :: d in IterateDepositsByDenom(k, d.amount.denom, NoStop)
  {
    forall d | d in IterateDeposits(k, NoStop)
      ensures d in IterateDepositsByDenom(k, d.amount.denom, NoStop)
    {
      IterateByDenomContents(k, d.amount.denom);
    }
  }

  /** Whatever the callback, per-denom iteration yields only deposits of
      that denom. */
  lemma IterateByDenomOnlyDenom(k: Keeper, denom: Denom, stop: Deposit -> bool)
    requires WellKeyed(k)
    ensures forall d | d in IterateDepositsByDenom(k, denom, stop) :: d.amount.denom == denom
  {
    forall d | d in IterateDepositsByDenom(k, denom, stop)
      ensures d.amount.denom == denom
    {
      assert d in Values(WithPrefix(k.deposits, [denom]));
      PrefixedDeposit(k, denom, d);
    }
  }

  /** The keys whose first component is `denom`. */
  function DenomClass(keys: set<Key>, denom: Denom): set<Key> {
    set key | key in keys && |key| > 0 && key[0] == denom
  }

  lemma SingletonPrefix(denom: Denom, key: Key)
    ensures [denom] <= key <==> |key| > 0 && key[0] == denom
  {
    if |key| > 0 {
      assert key[..1] == [key[0]];
    }
  }

  function ClassSizes(keys: set<Key>, denoms: seq<Denom>): nat
    decreases |denoms|
  {
    if denoms == [] then 0 else |DenomClass(keys, denoms[0])| + ClassSizes(keys, denoms[1..])
  }

  /** Removing the class of a denom not in `denoms` changes none of their classes. */
  lemma {:induction false} ClassSizesIgnore(keys: set<Key>, denoms: seq<Denom>, d0: Denom)
    requires d0 !in denoms
    ensures ClassSizes(keys, denoms) == ClassSizes(keys - DenomClass(keys, d0), denoms)
    decreases |denoms|
  {
    if denoms != [] {
      assert denoms[0] != d0 by {
        assert denoms[0] in denoms;
      }
      assert DenomClass(keys, denoms[0]) == DenomClass(keys - DenomClass(keys, d0), denoms[0]);
      ClassSizesIgnore(keys, denoms[1..], d0);
    }
  }

  /** The classes of distinct denoms that cover every key partition the keys. */
  lemma {:induction false} ClassSizesPartition(keys: set<Key>, denoms: seq<Denom>)
    requires forall i, j | 0 <= i < j < |denoms| :: denoms[i] != denoms[j]
    requires forall key | key in keys :: |key| > 0 && key[0] in denoms
    ensures ClassSizes(keys, denoms) == |keys|
    decreases |denoms|
  {
    if denoms == [] {
      assert keys == {};
    } else {
      var d0 := denoms[0];
      var rest := keys - DenomClass(keys, d0);
      ClassSizesIgnore(keys, denoms[1..], d0);
      assert forall key | key in rest :: key[0] in denoms[1..];
      ClassSizesPartition(rest, denoms[1..]);
      assert keys == DenomClass(keys, d0) + rest;
    }
  }

  /** The number of deposits the per-denom iterations over `denoms` yield
      together. */
  function CountByDenoms(k: Keeper, denoms: seq<Denom>): nat
    decreases |denoms|
  {
    if denoms == [] then 0
    else |IterateDepositsByDenom(k, denoms[0], NoStop)| + CountByDenoms(k, denoms[1..])
  }

  /** Per-denom iteration yields one deposit per key of that denom. */
  lemma ByDenomSize(k: Keeper, denom: Denom)
    ensures |IterateDepositsByDenom(k, denom, NoStop)| == |DenomClass(KeySet(k.deposits), denom)|
  {
    var w := WithPrefix(k.deposits, [denom]);
    VisitAll(Values(w), NoStop);
    SizeIsKeyCount(w);
    forall key
      ensures key in KeySet(w) <==> key in DenomClass(KeySet(k.deposits), denom)
    {
      SingletonPrefix(denom, key);
    }
    assert KeySet(w) == DenomClass(KeySet(k.deposits), denom);
  }

  lemma {:induction false} CountByDenomsClasses(k: Keeper, denoms: seq<Denom>)
    ensures CountByDenoms(k, denoms) == ClassSizes(KeySet(k.deposits), denoms)
    decreases |denoms|
  {
    if denoms != [] {
      ByDenomSize(k, denoms[0]);
      CountByDenomsClasses(k, denoms[1..]);
    }
  }

  /** When every stored deposit's denom is among the distinct `denoms`, the
      per-denom iterations together yield as many deposits as
      `IterateDeposits` does. */
  lemma IterateByDenomCount(k: Keeper, denoms: seq<Denom>)
    requires WellKeyed(k)
    requires forall i, j | 0 <= i < j < |denoms| :: denoms[i] != denoms[j]
    requires forall i | 0 <= i < |k.deposits| :: k.deposits[i].value.amount.denom in denoms
    ensures CountByDenoms(k, denoms) == |IterateDeposits(k, NoStop)|
  {
    var keys := KeySet(k.deposits);
    CountByDenomsClasses(k, denoms);
    assert forall key | key in keys :: |key| > 0 && key[0] in denoms;
    ClassSizesPartition(keys, denoms);
    VisitAll(Values(k.deposits), NoStop);
    SizeIsKeyCount(k.deposits);
  }

  /** Setting the deposits `ds` one after another into an empty keeper,
      per-denom iteration yields one deposit per distinct owner that `ds`
      gives a deposit of that denom. */
  lemma SetDepositsByDenomCount(ds: seq<Deposit>, denom: Denom)
    ensures |IterateDepositsByDenom(SetDeposits(Empty, ds), denom, NoStop)| ==
      |DenomClass(KeysOf(ds, DepositKey), denom)|
  {
    var k := SetDeposits(Empty, ds);
    ByDenomSize(k, denom);
    SetAllKeys([], Entries(ds, DepositKey, Id));
    EntriesKeys(ds, DepositKey, Id);
    assert KeySet(k.deposits) == KeysOf(ds, DepositKey);
  }

  /** A one-component key orders as its component does. */
  lemma DenomKeyLess(a: Denom, b: Denom)
    ensures KeyLess(DenomKey(a), DenomKey(b)) <==> StrLess(a, b)
  {
    assert DenomKey(a)[1..] == [] && DenomKey(b)[1..] == [];
    if a == b {
      StrLessIrreflexive(a);
    }
  }

  /** Money markets are visited in strictly ascending denom order, whatever
      the callback. */
  lemma IterateMoneyMarketsAscending(k: Keeper, stop: ((Denom, MoneyMarket)) -> bool)
    requires WellKeyed(k)
    ensures var r := IterateMoneyMarkets(k, stop);
      forall i, j | 0 <= i < j < |r| :: StrLess(r[i].0, r[j].0)
  {
    var s := k.moneyMarkets;
    var r := IterateMoneyMarkets(k, stop);
    forall i, j | 0 <= i < j < |r|
      ensures StrLess(r[i].0, r[j].0)
    {
      assert r[i] == MarketPairs(s)[i] && r[j] == MarketPairs(s)[j];
      assert s[i].key == DenomKey(s[i].key[0]);
      assert s[j].key == DenomKey(s[j].key[0]);
      DenomKeyLess(s[i].key[0], s[j].key[0]);
    }
  }

  function PairKey(p: (Denom, MoneyMarket)): Key {
    DenomKey(p.0)
  }

  function PairMarket(p: (Denom, MoneyMarket)): MoneyMarket {
    p.1
  }

  /** Sets each (denom, money market) pair of `pairs` in turn. */
  function SetMoneyMarkets(k: Keeper, pairs: seq<(Denom, MoneyMarket)>): (r: Keeper)
    ensures r.moneyMarkets == SetAll(k.moneyMarkets, Entries(pairs, PairKey, PairMarket))
    ensures r.(moneyMarkets := k.moneyMarkets) == k
    decreases |pairs|
  {
    if pairs == [] then k
    else
      assert Entries(pairs, PairKey, PairMarket)[1..] == Entries(pairs[1..], PairKey, PairMarket);
      SetMoneyMarkets(SetMoneyMarket(k, pairs[0].0, pairs[0].1), pairs[1..])
  }

  /** Money markets set into an empty keeper in ascending denom order are
      iterated back in the order they were set, denoms and markets alike. */
  lemma IterateMoneyMarketsInsertionOrder(pairs: seq<(Denom, MoneyMarket)>)
    requires forall i, j | 0 <= i < j < |pairs| :: StrLess(pairs[i].0, pairs[j].0)
    ensures IterateMoneyMarkets(SetMoneyMarkets(Empty, pairs), NoStop) == pairs
  {
    var es := Entries(pairs, PairKey, PairMarket);
    assert Sorted(es) by {
      forall i, j | 0 <= i < j < |pairs|
        ensures KeyLess(DenomKey(pairs[i].0), DenomKey(pairs[j].0))
      {
        DenomKeyLess(pairs[i].0, pairs[j].0);
      }
    }
    SetAllSorted(es);
    assert MarketPairs(es) == pairs;
    VisitAll(MarketPairs(es), NoStop);
  }

  /** "test" followed by the digit `i`, as the tests build owners and denoms. */
  function TestName(i: nat): Denom
    requires i < 10
  {
    "test" + [('0' as int + i) as char]
  }

  /** "test0" < "test1" < ... < "test4". */
  lemma TestNamesAscending(i: nat, j: nat)
    requires i < j < 10
    ensures StrLess(TestName(i), TestName(j))
  {
    StrLessLastChar("test", ('0' as int + i) as char, ('0' as int + j) as char);
  }

  /** TestIterateInterestRateModels: five money markets set under "test0" to
      "test4", in that order, are iterated back in that order. */
  lemma IterateInterestRateModelsScenario(mms: seq<MoneyMarket>)
    requires |mms| == 5
    ensures var pairs := seq(5, i requires 0 <= i < 5 => (TestName(i), mms[i]));
      IterateMoneyMarkets(SetMoneyMarkets(Empty, pairs), NoStop) == pairs
  {
    var pairs := seq(5, i requires 0 <= i < 5 => (TestName(i), mms[i]));
    forall i, j | 0 <= i < j < |pairs|
      ensures StrLess(pairs[i].0, pairs[j].0)
    {
      TestNamesAscending(i, j);
    }
    IterateMoneyMarketsInsertionOrder(pairs);
  }

  lemma TestNameInjective(i: nat, j: nat)
    requires i < 10 && j < 10 && i != j
    ensures TestName(i) != TestName(j)
  {
    assert TestName(i)[4] != TestName(j)[4];
  }

  /** A deposit of 100 `denom` for each of the owners "test0" to "test4". */
  function OwnerDeposits(denom: Denom): (r: seq<Deposit>)
    ensures |r| == 5
    ensures forall i | 0 <= i < 5 :: r[i] == Deposit(TestName(i), Coin(denom, 100))
  {
    seq(5, i requires 0 <= i < 5 => Deposit(TestName(i), Coin(denom, 100)))
  }

  lemma OwnerDepositsDistinct(denom: Denom)
    ensures DistinctKeys(OwnerDeposits(denom), DepositKey)
  {
    var ds := OwnerDeposits(denom);
    forall i, j | 0 <= i < j < |ds|
      ensures DepositKey(ds[i]) != DepositKey(ds[j])
    {
      TestNameInjective(i, j);
      assert DepositKey(ds[i])[1] == TestName(i);
    }
  }

  /** TestIterateDeposits: five bnb deposits of distinct owners are all
      iterated. */
  lemma IterateDepositsScenario()
    ensures |IterateDeposits(SetDeposits(Empty, OwnerDeposits("bnb")), NoStop)| == 5
  {
    SetDepositsCount(OwnerDeposits("bnb"));
    OwnerDepositsDistinct("bnb");
    DistinctKeysCount(OwnerDeposits("bnb"), DepositKey);
  }

  /** The deposits TestIterateDepositsByDenom sets, in its order: for each
      owner "test0" to "test4", bnb twice and then btcb. */
  function ByDenomDeposits(): (r: seq<Deposit>)
    ensures |r| == 15
    ensures forall n | 0 <= n < 15 ::
      r[n] == Deposit(TestName(n / 3), Coin(if n % 3 == 2 then "btcb" else "bnb", 100))
  {
    seq(15, n requires 0 <= n < 15 => Deposit(TestName(n / 3), Coin(if n % 3 == 2 then "btcb" else "bnb", 100)))
  }

  /** Of the keys ByDenomDeposits writes, those of bnb (of btcb) are the keys
      of one deposit of that denom per owner. */
  lemma ByDenomDepositsClass(denom: Denom)
    requires denom == "bnb" || denom == "btcb"
    ensures DenomClass(KeysOf(ByDenomDeposits(), DepositKey), denom) == KeysOf(OwnerDeposits(denom), DepositKey)
  {
    var ds := ByDenomDeposits();
    var os := OwnerDeposits(denom);
    assert "bnb"[1] != "btcb"[1];
    forall key | key in DenomClass(KeysOf(ds, DepositKey), denom)
      ensures key in KeysOf(os, DepositKey)
    {
      var n :| 0 <= n < 15 && DepositKey(ds[n]) == key;
      assert DepositKey(os[n / 3]) == key;
    }
    forall key | key in KeysOf(os, DepositKey)
      ensures key in DenomClass(KeysOf(ds, DepositKey), denom)
    {
      var i :| 0 <= i < 5 && DepositKey(os[i]) == key;
      var n := if denom == "bnb" then 3 * i else 3 * i + 2;
      assert DepositKey(ds[n]) == key;
    }
  }

  /** Every key ByDenomDeposits writes is a bnb key or a btcb key, not both. */
  lemma ByDenomDepositsKeySplit()
    ensures var keys := KeysOf(ByDenomDeposits(), DepositKey);
      && keys == DenomClass(keys, "bnb") + DenomClass(keys, "btcb")
      && DenomClass(keys, "bnb") * DenomClass(keys, "btcb") == {}
  {
    var ds := ByDenomDeposits();
    var keys := KeysOf(ds, DepositKey);
    forall key | key in keys
      ensures key in DenomClass(keys, "bnb") + DenomClass(keys, "btcb")
    {
      var n :| 0 <= n < |ds| && DepositKey(ds[n]) == key;
      assert key[0] == ds[n].amount.denom;
    }
    assert "bnb"[1] != "btcb"[1];
  }

  /** ByDenomDeposits writes five bnb keys, five btcb keys, ten in all. */
  lemma ByDenomDepositsKeyCounts()
    ensures |DenomClass(KeysOf(ByDenomDeposits(), DepositKey), "bnb")| == 5
    ensures |DenomClass(KeysOf(ByDenomDeposits(), DepositKey), "btcb")| == 5
    ensures |KeysOf(ByDenomDeposits(), DepositKey)| == 10
  {
    ByDenomDepositsClass("bnb");
    ByDenomDepositsClass("btcb");
    OwnerDepositsDistinct("bnb");
    OwnerDepositsDistinct("btcb");
    DistinctKeysCount(OwnerDeposits("bnb"), DepositKey);
    DistinctKeysCount(OwnerDeposits("btcb"), DepositKey);
    ByDenomDepositsKeySplit();
  }

  /** TestIterateDepositsByDenom: the repeated bnb deposit of each owner
      overwrites the first, so five bnb and five btcb deposits are iterated,
      ten in all, and each per-denom iteration yields only its own denom. */
  lemma IterateDepositsByDenomScenario()
    ensures |IterateDepositsByDenom(SetDeposits(Empty, ByDenomDeposits()), "bnb", NoStop)| == 5
    ensures |IterateDepositsByDenom(SetDeposits(Empty, ByDenomDeposits()), "btcb", NoStop)| == 5
    ensures |IterateDeposits(SetDeposits(Empty, ByDenomDeposits()), NoStop)| == 10
    ensures forall d | d in IterateDepositsByDenom(SetDeposits(Empty, ByDenomDeposits()), "bnb", NoStop) ::
      d.amount.denom == "bnb"
    ensures forall d | d in IterateDepositsByDenom(SetDeposits(Empty, ByDenomDeposits()), "btcb", NoStop) ::
      d.amount.denom == "btcb"
  {
    EmptyWellKeyed();
    SetDepositsWellKeyed(Empty, ByDenomDeposits());
    IterateByDenomOnlyDenom(SetDeposits(Empty, ByDenomDeposits()), "bnb", NoStop);
    IterateByDenomOnlyDenom(SetDeposits(Empty, ByDenomDeposits()), "btcb", NoStop);
    ByDenomDepositsKeyCounts();
    SetDepositsByDenomCount(ByDenomDeposits(), "bnb");
    SetDepositsByDenomCount(ByDenomDeposits(), "btcb");
    SetDepositsCount(ByDenomDeposits());
  }
}
