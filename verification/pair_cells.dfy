/** The pair's calls on the 32-byte cells themselves: every read and every write through the contract's
    storage accessors, with token calls in between. */
module PairCells {
  import opened Words
  import opened PackedReserves
  import opened Ledgers
  import opened Sqrt
  import opened Layout
  import opened ContractStorage
  import opened PairSpec
  import opened PairContract

  const SLOT_TOKEN0: Slot := 1
  const SLOT_TOKEN1: Slot := 2
  const SLOT_RESERVES: Slot := 3
  const SLOT_UNLOCKED: Slot := 7
  const SLOT_TOTAL_SUPPLY: Slot := 8

  /** The cells hold the pair's storage, as far as the touched entries go. */
  ghost predicate Shows(views: map<Entry, Word>, s: Slots) {
    forall e <- views :: PairEntry(e) && views[e] == ContractStorage.Lookup(s, e)
  }

  /** The scalar slots that the calls use. */
  ghost predicate Touches(touched: set<Entry>) {
    && Scalar(SLOT_RESERVES) in touched && Scalar(SLOT_UNLOCKED) in touched && Scalar(SLOT_TOTAL_SUPPLY) in touched
    && Scalar(SLOT_TOKEN0) in touched && Scalar(SLOT_TOKEN1) in touched
  }

  /** The balances and allowances that the call `a` uses besides. */
  ghost predicate TouchesFor(touched: set<Entry>, me: Address, a: Action) {
    match a
    case Mint(to, _) => Keyed(SLOT_BALANCE_OF, ZERO_ADDRESS) in touched && Keyed(SLOT_BALANCE_OF, to) in touched
    case Burn(_, _) => Keyed(SLOT_BALANCE_OF, me) in touched
    case Approve(caller, spender, _) => KeyedTwice(SLOT_ALLOWANCE, caller, spender) in touched
    case Transfer(caller, to, _) => Keyed(SLOT_BALANCE_OF, caller) in touched && Keyed(SLOT_BALANCE_OF, to) in touched
    case TransferFrom(caller, from, to, _) =>
      && KeyedTwice(SLOT_ALLOWANCE, from, caller) in touched
      && Keyed(SLOT_BALANCE_OF, from) in touched && Keyed(SLOT_BALANCE_OF, to) in touched
    case _ => true
  }

  lemma ShowsUpdate(views: map<Entry, Word>, s: Slots, e: Entry, value: Word)
    requires Shows(views, s) && Writable(e, value)
    ensures Shows(views[e := value], Update(s, e, value))
  {
    forall f <- views[e := value]
      ensures PairEntry(f) && views[e := value][f] == ContractStorage.Lookup(Update(s, e, value), f)
    {
      UpdateLookup(s, e, value, f);
    }
  }

  lemma ShownEntry(store: Store, s: Slots, e: Entry)
    requires Shows(store.Views(), s) && e in store.touched
    ensures View(store.hash, store.cells, e) == ContractStorage.Lookup(s, e)
  {
    hide View, ContractStorage.Lookup;
    assert e in store.Views();
  }

  /** A scalar write moves the shown storage by exactly that slot. */
  method SetScalar(store: Store, ghost s: Slots, slot: Slot, value: Word)
    requires store.Valid() && Scalar(slot) in store.touched && Writable(Scalar(slot), value)
    requires Shows(store.Views(), s)
    modifies store
    ensures Shows(store.Views(), Update(s, Scalar(slot), value))
  {
    ShowsUpdate(store.Views(), s, Scalar(slot), value);
    hide View, Shows, Update;
    store.StorageSetU256(slot, value);
  }

  method SetShares(store: Store, ghost s: Slots, owner: Address, value: Word)
    requires store.Valid() && Keyed(SLOT_BALANCE_OF, owner) in store.touched
    requires Shows(store.Views(), s)
    modifies store
    ensures Shows(store.Views(), s.(balanceOf := s.balanceOf[owner := value]))
  {
    ShowsUpdate(store.Views(), s, Keyed(SLOT_BALANCE_OF, owner), value);
    hide View, Shows;
    store.SetBalance(owner, value);
  }

  method GetScalar(store: Store, ghost s: Slots, slot: Slot) returns (value: Word)
    requires Scalar(slot) in store.touched && Shows(store.Views(), s)
    ensures value == ContractStorage.Lookup(s, Scalar(slot))
  {
    ShownEntry(store, s, Scalar(slot));
    value := store.StorageGetU256(slot);
  }

  method GetShares(store: Store, ghost s: Slots, owner: Address) returns (value: Word)
    requires Keyed(SLOT_BALANCE_OF, owner) in store.touched && Shows(store.Views(), s)
    ensures value == Get(s.balanceOf, owner)
  {
    ShownEntry(store, s, Keyed(SLOT_BALANCE_OF, owner));
    value := store.GetBalance(owner);
  }

  method SetSpending(store: Store, ghost s: Slots, owner: Address, spender: Address, value: Word)
    requires store.Valid() && KeyedTwice(SLOT_ALLOWANCE, owner, spender) in store.touched
    requires Shows(store.Views(), s)
    modifies store
    ensures Shows(store.Views(), SetAllowance(s, owner, spender, value))
  {
    ShowsUpdate(store.Views(), s, KeyedTwice(SLOT_ALLOWANCE, owner, spender), value);
    hide View, Shows;
    store.SetAllowance(owner, spender, value);
  }

  method GetSpending(store: Store, ghost s: Slots, owner: Address, spender: Address) returns (value: Word)
    requires KeyedTwice(SLOT_ALLOWANCE, owner, spender) in store.touched && Shows(store.Views(), s)
    ensures value == Get(s.allowance, (owner, spender))
  {
    ShownEntry(store, s, KeyedTwice(SLOT_ALLOWANCE, owner, spender));
    value := store.GetAllowance(owner, spender);
  }

  method Initialize(store: Store, ghost s: Slots, t0: Address, t1: Address) returns (r: Result<seq<Word>>)
    requires store.Valid() && Touches(store.touched) && Shows(store.Views(), s)
    modifies store
    ensures match InitializeSlots(s, t0, t1)
      case Ok(named) => r == Ok([]) && Shows(store.Views(), named)
      case Halted(why) => r == Halted(why)
  {
    hide Shows, View;
    var locked := RequireUnlocked(store, s);
    if locked.Halted? { return Halted(locked.why); }
    ghost var s1 := s.(unlocked := 0);
    var token0 := GetScalar(store, s1, SLOT_TOKEN0);
    if token0 != ZERO_ADDRESS { return Halted(Reverted); }
    SetScalar(store, s1, SLOT_TOKEN0, t0);
    SetScalar(store, s1.(token0 := t0), SLOT_TOKEN1, t1);
    SetScalar(store, s1.(token0 := t0, token1 := t1), SLOT_UNLOCKED, 1);
    r := Ok([]);
  }

  /** The two branches of `mint` that issue shares. */
  method Issue(store: Store, ghost s: Slots, reserve: Reserves, balance0: Word, balance1: Word) returns (r: Result<Word>)
    requires store.Valid() && Touches(store.touched) && Keyed(SLOT_BALANCE_OF, ZERO_ADDRESS) in store.touched
    requires Shows(store.Views(), s)
    modifies store
    ensures match Issued(AS_WRITTEN, s, reserve, balance0, balance1)
      case Ok((issued, liquidity)) => r == Ok(liquidity) && Shows(store.Views(), issued)
      case Halted(why) => r == Halted(why)
  {
    hide FloorSqrt, WMul, WSub, WAdd, Quotient, Shows, View;
    var amount0 := WSub(balance0, reserve.r0);
    var amount1 := WSub(balance1, reserve.r1);
    var supply := GetScalar(store, s, SLOT_TOTAL_SUPPLY);
    var liquidity: Word;
    if supply == 0 {
      var root, _ := SqrtU256(WMul(amount0, amount1));
      if root <= MINIMUM_LIQUIDITY { return Halted(Reverted); }
      liquidity := root - MINIMUM_LIQUIDITY;
      SetScalar(store, s, SLOT_TOTAL_SUPPLY, WAdd(supply, MINIMUM_LIQUIDITY));
      SetShares(store, s.(totalSupply := WAdd(supply, MINIMUM_LIQUIDITY)), ZERO_ADDRESS, MINIMUM_LIQUIDITY);
    } else {
      if reserve.r0 == 0 || reserve.r1 == 0 { return Halted(Trapped); }
      var l0: Word := Quotient(WMul(amount0, supply), reserve.r0);
      var l1: Word := Quotient(WMul(amount1, supply), reserve.r1);
      liquidity := if l0 < l1 then l0 else l1;
      if liquidity == 0 { return Halted(Reverted); }
      SetScalar(store, s, SLOT_TOTAL_SUPPLY, WAdd(supply, liquidity));
    }
    r := Ok(liquidity);
  }

  /** The store of the two balances and the release of the lock, with which mint and burn end. */
  method StoreAndUnlock(store: Store, ghost s: Slots, balance0: Word, balance1: Word, now: Word) returns (r: Result<()>)
    requires store.Valid() && Touches(store.touched) && Shows(store.Views(), s)
    modifies store
    ensures match StoreReserves(s, balance0, balance1, now)
      case Ok(stored) => r == Ok(()) && Shows(store.Views(), Unlock(stored))
      case Halted(why) => r == Halted(why)
  {
    hide Pack, Shows, View;
    if balance0 >= TWO_128 || balance1 >= TWO_128 || now >= TWO_32 { return Halted(Trapped); }
    SetScalar(store, s, SLOT_RESERVES, Pack(balance0, balance1, now));
    SetScalar(store, s.(reserves := Pack(balance0, balance1, now)), SLOT_UNLOCKED, 1);
    r := Ok(());
  }

  method RequireUnlocked(store: Store, ghost s: Slots) returns (r: Result<()>)
    requires store.Valid() && Touches(store.touched) && Shows(store.Views(), s)
    modifies store
    ensures match Lock(s)
      case Ok(locked) => r == Ok(()) && Shows(store.Views(), locked)
      case Halted(why) => r == Halted(why)
  {
    hide Shows, View;
    var unlocked := GetScalar(store, s, SLOT_UNLOCKED);
    if unlocked != 1 { return Halted(Reverted); }
    SetScalar(store, s, SLOT_UNLOCKED, 0);
    r := Ok(());
  }

  /** `mint` on the cells: the verdict and data of its function of the storage, and cells that hold the
      storage that function returns. The host discards the cells of a call that halts. */
  method Mint(store: Store, coin0: Token, coin1: Token, ghost s: Slots, me: Address, to: Address, now: Word)
    returns (r: Result<seq<Word>>)
    requires store.Valid() && Touches(store.touched) && Shows(store.Views(), s)
    requires Keyed(SLOT_BALANCE_OF, ZERO_ADDRESS) in store.touched && Keyed(SLOT_BALANCE_OF, to) in store.touched
    modifies store
    ensures match MintCall(AS_WRITTEN, me, World(s, coin0.balances, coin1.balances), to, now)
      case Ok((w, data)) =>
        r == Ok(data) && Shows(store.Views(), w.pair) && w.led0 == coin0.balances && w.led1 == coin1.balances
      case Halted(why) => r == Halted(why)
  {
    hide GetReserves, Issued, StoreReserves, Shows, View, WAdd, Unlock;
    var locked := RequireUnlocked(store, s);
    if locked.Halted? { return Halted(locked.why); }
    ghost var s1 := s.(unlocked := 0);
    var packed := GetScalar(store, s1, SLOT_RESERVES);
    var reserve := GetReserves(false, packed);
    var balance0 := coin0.BalanceOf(me);
    var balance1 := coin1.BalanceOf(me);
    var issued := Issue(store, s1, reserve, balance0, balance1);
    if issued.Halted? { return Halted(issued.why); }
    var liquidity := issued.value;
    ghost var s2 := Issued(AS_WRITTEN, s1, reserve, balance0, balance1).value.0;
    var had := GetShares(store, s2, to);
    SetShares(store, s2, to, WAdd(had, liquidity));
    var stored := StoreAndUnlock(store, Credit(s2, to, liquidity), balance0, balance1, now);
    if stored.Halted? { return Halted(stored.why); }
    r := Ok([liquidity]);
  }

  /** `burn` on the cells, with its two token transfers. */
  method Burn(store: Store, coin0: Token, coin1: Token, ghost s: Slots, me: Address, to: Address, now: Word)
    returns (r: Result<seq<Word>>)
    requires coin0 != coin1
    requires store.Valid() && Touches(store.touched) && Shows(store.Views(), s)
    requires Keyed(SLOT_BALANCE_OF, me) in store.touched
    modifies store, coin0, coin1
    ensures match BurnCall(me, World(s, old(coin0.balances), old(coin1.balances)), to, now)
      case Ok((w, data)) =>
        r == Ok(data) && Shows(store.Views(), w.pair) && coin0.balances == w.led0 && coin1.balances == w.led1
      case Halted(why) => r == Halted(why)
  {
    hide StoreReserves, Shows, View, WMul, WSub, TokenTransfer, Unlock, Quotient;
    var locked := RequireUnlocked(store, s);
    if locked.Halted? { return Halted(locked.why); }
    ghost var s1 := s.(unlocked := 0);
    var liquidity := GetShares(store, s1, me);
    if liquidity == 0 { return Halted(Reverted); }
    var supply := GetScalar(store, s1, SLOT_TOTAL_SUPPLY);
    var balance0 := coin0.BalanceOf(me);
    var balance1 := coin1.BalanceOf(me);
    if supply == 0 { return Halted(Trapped); }
    var amount0: Word := Quotient(WMul(liquidity, balance0), supply);
    var amount1: Word := Quotient(WMul(liquidity, balance1), supply);
    if amount0 == 0 || amount1 == 0 { return Halted(Reverted); }
    SetShares(store, s1, me, 0);
    SetScalar(store, s1.(balanceOf := s1.balanceOf[me := 0]), SLOT_TOTAL_SUPPLY, WSub(supply, liquidity));
    var sent0 := coin0.Transfer(me, to, amount0);
    if !sent0 { return Halted(Reverted); }
    var sent1 := coin1.Transfer(me, to, amount1);
    if !sent1 { return Halted(Reverted); }
    var left0 := coin0.BalanceOf(me);
    var left1 := coin1.BalanceOf(me);
    var stored := StoreAndUnlock(store, Destroy(s1, me, supply, liquidity), left0, left1, now);
    if stored.Halted? { return Halted(stored.why); }
    r := Ok([amount0, amount1]);
  }

  /** What `swap` does with the balances that its payouts leave. */
  method Settle(store: Store, ghost s: Slots, reserve: Reserves, out0: Word, out1: Word, balance0: Word, balance1: Word, now: Word)
    returns (r: Result<()>)
    requires store.Valid() && Touches(store.touched) && Shows(store.Views(), s)
    modifies store
    ensures match FinishSwap(s, reserve, out0, out1, balance0, balance1, now)
      case Ok(done) => r == Ok(()) && Shows(store.Views(), done)
      case Halted(why) => r == Halted(why)
  {
    hide StoreReserves, Unlock, WMul, WSub, Shows, View;
    var kept0, kept1 := WSub(reserve.r0, out0), WSub(reserve.r1, out1);
    var in0: Word := if balance0 > kept0 then WSub(balance0, kept0) else 0;
    var in1: Word := if balance1 > kept1 then WSub(balance1, kept1) else 0;
    if in0 == 0 && in1 == 0 { return Halted(Reverted); }
    var adj0 := WSub(WMul(balance0, 1000), WMul(in0, 3));
    var adj1 := WSub(WMul(balance1, 1000), WMul(in1, 3));
    if WMul(adj0, adj1) < WMul(WMul(WMul(reserve.r0, reserve.r1), 1000), 1000) { return Halted(Reverted); }
    r := StoreAndUnlock(store, s, balance0, balance1, now);
  }

  method Swap(store: Store, coin0: Token, coin1: Token, ghost s: Slots, me: Address, out0: Word, out1: Word, to: Address, now: Word)
    returns (r: Result<seq<Word>>)
    requires coin0 != coin1
    requires store.Valid() && Touches(store.touched) && Shows(store.Views(), s)
    modifies store, coin0, coin1
    ensures match SwapCall(AS_WRITTEN, me, World(s, old(coin0.balances), old(coin1.balances)), out0, out1, to, now)
      case Ok((w, data)) =>
        r == Ok(data) && Shows(store.Views(), w.pair) && coin0.balances == w.led0 && coin1.balances == w.led1
      case Halted(why) => r == Halted(why)
  {
    hide GetReserves, PayOut, FinishSwap, Shows, View;
    var locked := RequireUnlocked(store, s);
    if locked.Halted? { return Halted(locked.why); }
    ghost var s1 := s.(unlocked := 0);
    if out0 == 0 && out1 == 0 { return Halted(Reverted); }
    var packed := GetScalar(store, s1, SLOT_RESERVES);
    var reserve := GetReserves(false, packed);
    if out0 >= reserve.r0 || out1 >= reserve.r1 { return Halted(Reverted); }
    var token0 := GetScalar(store, s1, SLOT_TOKEN0);
    var token1 := GetScalar(store, s1, SLOT_TOKEN1);
    if to == token0 || to == token1 { return Halted(Reverted); }
    var sent0 := coin0.PayOut(me, to, out0);
    if !sent0 { return Halted(Reverted); }
    var sent1 := coin1.PayOut(me, to, out1);
    if !sent1 { return Halted(Reverted); }
    var balance0 := coin0.BalanceOf(me);
    var balance1 := coin1.BalanceOf(me);
    var settled := Settle(store, s1, reserve, out0, out1, balance0, balance1, now);
    if settled.Halted? { return Halted(settled.why); }
    r := Ok([]);
  }

  method Skim(store: Store, coin0: Token, coin1: Token, ghost s: Slots, me: Address, to: Address) returns (r: Result<seq<Word>>)
    requires coin0 != coin1
    requires store.Valid() && Touches(store.touched) && Shows(store.Views(), s)
    modifies store, coin0, coin1
    ensures match SkimCall(AS_WRITTEN, me, World(s, old(coin0.balances), old(coin1.balances)), to)
      case Ok((w, data)) =>
        r == Ok(data) && Shows(store.Views(), w.pair) && coin0.balances == w.led0 && coin1.balances == w.led1
      case Halted(why) => r == Halted(why)
  {
    hide GetReserves, TokenTransfer, WSub, Shows, View;
    var locked := RequireUnlocked(store, s);
    if locked.Halted? { return Halted(locked.why); }
    ghost var s1 := s.(unlocked := 0);
    var packed := GetScalar(store, s1, SLOT_RESERVES);
    var reserve := GetReserves(false, packed);
    var balance0 := coin0.BalanceOf(me);
    var balance1 := coin1.BalanceOf(me);
    var sent0 := coin0.Transfer(me, to, WSub(balance0, reserve.r0));
    if !sent0 { return Halted(Reverted); }
    var sent1 := coin1.Transfer(me, to, WSub(balance1, reserve.r1));
    if !sent1 { return Halted(Reverted); }
    SetScalar(store, s1, SLOT_UNLOCKED, 1);
    r := Ok([]);
  }

  method Sync(store: Store, coin0: Token, coin1: Token, ghost s: Slots, me: Address) returns (r: Result<seq<Word>>)
    requires store.Valid() && Touches(store.touched) && Shows(store.Views(), s)
    modifies store
    ensures match SyncCall(AS_WRITTEN, me, World(s, coin0.balances, coin1.balances))
      case Ok((w, data)) =>
        r == Ok(data) && Shows(store.Views(), w.pair) && w.led0 == coin0.balances && w.led1 == coin1.balances
      case Halted(why) => r == Halted(why)
  {
    hide GetReserves, StoreReserves, Unlock, Shows, View;
    var locked := RequireUnlocked(store, s);
    if locked.Halted? { return Halted(locked.why); }
    ghost var s1 := s.(unlocked := 0);
    var balance0 := coin0.BalanceOf(me);
    var balance1 := coin1.BalanceOf(me);
    var packed := GetScalar(store, s1, SLOT_RESERVES);
    var reserve := GetReserves(false, packed);
    var stored := StoreAndUnlock(store, s1, balance0, balance1, reserve.ts);
    if stored.Halted? { return Halted(stored.why); }
    r := Ok([]);
  }

  /** The debit and then the credit of the LP token's two transfers. */
  method Move(store: Store, ghost s: Slots, from: Address, to: Address, had: Word, value: Word)
    requires store.Valid() && Keyed(SLOT_BALANCE_OF, from) in store.touched && Keyed(SLOT_BALANCE_OF, to) in store.touched
    requires Shows(store.Views(), s) && value <= had == Get(s.balanceOf, from)
    modifies store
    ensures MoveShares(s, from, to, value).Ok? && Shows(store.Views(), MoveShares(s, from, to, value).value)
  {
    hide Shows, View, WAdd;
    SetShares(store, s, from, had - value);
    ghost var debited := s.(balanceOf := s.balanceOf[from := had - value]);
    var has := GetShares(store, debited, to);
    SetShares(store, debited, to, WAdd(has, value));
  }

  method Transfer(store: Store, ghost s: Slots, caller: Address, to: Address, value: Word) returns (r: Result<seq<Word>>)
    requires store.Valid() && Keyed(SLOT_BALANCE_OF, caller) in store.touched && Keyed(SLOT_BALANCE_OF, to) in store.touched
    requires Shows(store.Views(), s)
    modifies store
    ensures match MoveShares(s, caller, to, value)
      case Ok(moved) => r == Ok([1]) && Shows(store.Views(), moved)
      case Halted(why) => r == Halted(why)
  {
    hide Shows, View, Credit;
    var had := GetShares(store, s, caller);
    if had < value { return Halted(Reverted); }
    Move(store, s, caller, to, had, value);
    r := Ok([1]);
  }

  /** Both checks come before any write. */
  method TransferFrom(store: Store, ghost s: Slots, caller: Address, from: Address, to: Address, value: Word) returns (r: Result<seq<Word>>)
    requires store.Valid() && KeyedTwice(SLOT_ALLOWANCE, from, caller) in store.touched
    requires Keyed(SLOT_BALANCE_OF, from) in store.touched && Keyed(SLOT_BALANCE_OF, to) in store.touched
    requires Shows(store.Views(), s)
    modifies store
    ensures match MoveSharesFrom(s, caller, from, to, value)
      case Ok(moved) => r == Ok([1]) && Shows(store.Views(), moved)
      case Halted(why) => r == Halted(why)
  {
    TransferFromByParts(s, caller, from, to, value);
    hide Shows, View, Credit, MoveShares;
    var allowed := GetSpending(store, s, from, caller);
    if allowed != MAX_WORD && allowed < value { return Halted(Reverted); }
    var had := GetShares(store, s, from);
    if had < value { return Halted(Reverted); }
    ghost var spent := s;
    if allowed != MAX_WORD {
      SetSpending(store, s, from, caller, allowed - value);
      spent := SetAllowance(s, from, caller, allowed - value);
    }
    Move(store, spent, from, to, had, value);
    r := Ok([1]);
  }

  /** One transaction on the cells: any call of the pair is one step of its storage and two ledgers, and
      the host puts the cells and the tokens back when it halts. */
  method Call(store: Store, coin0: Token, coin1: Token, ghost s: Slots, me: Address, a: Action) returns (r: Result<seq<Word>>)
    requires coin0 != coin1 && !a.TokensMove?
    requires store.Valid() && Touches(store.touched) && TouchesFor(store.touched, me, a) && Shows(store.Views(), s)
    modifies store, coin0, coin1
    ensures var before := World(s, old(coin0.balances), old(coin1.balances));
      var after := Step(AS_WRITTEN, me, before, a);
      && Shows(store.Views(), after.pair) && coin0.balances == after.led0 && coin1.balances == after.led1
      && r == match Attempt(AS_WRITTEN, me, before, a) case Ok((_, data)) => Ok(data) case Halted(why) => Halted(why)
  {
    hide MintCall, BurnCall, SwapCall, SkimCall, SyncCall, InitializeSlots, MoveShares, MoveSharesFrom, Shows, View;
    var cells, balances0, balances1 := store.cells, coin0.balances, coin1.balances;
    ghost var views := store.Views();
    match a {
      case Initialize(t0, t1) => r := Initialize(store, s, t0, t1);
      case Mint(to, now) => r := Mint(store, coin0, coin1, s, me, to, now);
      case Burn(to, now) => r := Burn(store, coin0, coin1, s, me, to, now);
      case Swap(out0, out1, to, now) => r := Swap(store, coin0, coin1, s, me, out0, out1, to, now);
      case Skim(to) => r := Skim(store, coin0, coin1, s, me, to);
      case Sync => r := Sync(store, coin0, coin1, s, me);
      case Approve(caller, spender, value) =>
        SetSpending(store, s, caller, spender, value);
        r := Ok([1]);
      case Transfer(caller, to, value) => r := Transfer(store, s, caller, to, value);
      case TransferFrom(caller, from, to, value) => r := TransferFrom(store, s, caller, from, to, value);
    }
    if r.Halted? {
      store.cells := cells;
      coin0.balances := balances0;
      coin1.balances := balances1;
      assert store.Views() == views;
    }
  }
}
