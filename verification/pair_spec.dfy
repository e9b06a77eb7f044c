/** The pair contract as a function of its storage and of two honest token ledgers. */
module PairSpec {
  import opened Words
  import opened PackedReserves
  import opened Ledgers
  import opened Sqrt

  const MINIMUM_LIQUIDITY: Word := 1000
  const MAX_WORD: Word := TWO_256 - 1
  const ZERO_ADDRESS: Address := 0

  /** Two lines of the contract that can be read in a second form: the mask that decodes
      reserve1 (112 bits instead of 128) and the supply stored by the first mint (all the
      liquidity it credits instead of the 1000 locked units only). */
  datatype Variant = Variant(narrowMask: bool, wholeFirstSupply: bool)

  const AS_WRITTEN := Variant(false, false)

  /** The storage of one pair. Price accumulators and kLast are never written. */
  datatype Slots = Slots(
    factory: Address,
    token0: Address,
    token1: Address,
    reserves: Word,
    unlocked: Word,
    totalSupply: Word,
    balanceOf: Ledger,
    allowance: map<(Address, Address), Word>)

  function Deployed(caller: Address): Slots {
    Slots(caller, 0, 0, 0, 1, 0, map[], map[])
  }

  // ----- pieces shared by every branch

  /** `require_unlocked` */
  function Lock(s: Slots): Result<Slots> {
    if s.unlocked != 1 then Halted(Reverted) else Ok(s.(unlocked := 0))
  }

  /** `set_unlocked` */
  function Unlock(s: Slots): Slots {
    s.(unlocked := 1)
  }

  function Reserve(v: Variant, s: Slots): Reserves {
    GetReserves(v.narrowMask, s.reserves)
  }

  /** `set_reserves(balance0.to(), balance1.to(), now)`: each conversion traps when it does not fit. */
  function StoreReserves(s: Slots, bal0: Word, bal1: Word, now: Word): Result<Slots> {
    if bal0 >= TWO_128 || bal1 >= TWO_128 || now >= TWO_32 then Halted(Trapped)
    else Ok(s.(reserves := Pack(bal0, bal1, now)))
  }

  function Credit(s: Slots, to: Address, value: Word): Slots {
    s.(balanceOf := s.balanceOf[to := WAdd(Get(s.balanceOf, to), value)])
  }

  // ----- initialize

  function SetTokens(s: Slots, t0: Address, t1: Address): Result<Slots> {
    if s.token0 != ZERO_ADDRESS then Halted(Reverted) else Ok(s.(token0 := t0, token1 := t1))
  }

  function InitializeSlots(s: Slots, t0: Address, t1: Address): Result<Slots> {
    var locked :- Lock(s);
    var named :- SetTokens(locked, t0, t1);
    Ok(Unlock(named))
  }

  // ----- mint

  ghost function FirstMint(v: Variant, s: Slots, amount0: Word, amount1: Word): Result<(Slots, Word)> {
    var root := FloorSqrt(WMul(amount0, amount1));
    if root <= MINIMUM_LIQUIDITY then Halted(Reverted)
    else
      RootIsWord(WMul(amount0, amount1));
      var liquidity: Word := root - MINIMUM_LIQUIDITY;
      var locked := WAdd(s.totalSupply, MINIMUM_LIQUIDITY);
      Ok((s.(totalSupply := if v.wholeFirstSupply then WAdd(locked, liquidity) else locked,
             balanceOf := s.balanceOf[ZERO_ADDRESS := MINIMUM_LIQUIDITY]),
          liquidity))
  }

  function LaterMint(s: Slots, r0: Word, r1: Word, amount0: Word, amount1: Word): Result<(Slots, Word)> {
    if r0 == 0 || r1 == 0 then Halted(Trapped)
    else
      var l0 := Quotient(WMul(amount0, s.totalSupply), r0);
      var l1 := Quotient(WMul(amount1, s.totalSupply), r1);
      var liquidity: Word := if l0 < l1 then l0 else l1;
      if liquidity == 0 then Halted(Reverted)
      else Ok((s.(totalSupply := WAdd(s.totalSupply, liquidity)), liquidity))
  }

  /** The branch of `mint` that issues shares for what the balances exceed the reserves by. */
  ghost function Issued(v: Variant, s: Slots, r: Reserves, bal0: Word, bal1: Word): Result<(Slots, Word)> {
    var amount0 := WSub(bal0, r.r0);
    var amount1 := WSub(bal1, r.r1);
    if s.totalSupply == 0 then FirstMint(v, s, amount0, amount1)
    else LaterMint(s, r.r0, r.r1, amount0, amount1)
  }

  /** Everything `mint` does once it has read the reserves `r` and then its two token balances. */
  ghost function FinishMint(v: Variant, s: Slots, r: Reserves, to: Address, bal0: Word, bal1: Word, now: Word): Result<(Slots, Word)> {
    var (minted, liquidity) :- Issued(v, s, r, bal0, bal1);
    var stored :- StoreReserves(Credit(minted, to, liquidity), bal0, bal1, now);
    Ok((Unlock(stored), liquidity))
  }

  // ----- burn

  function BurnAmounts(liquidity: Word, supply: Word, bal0: Word, bal1: Word): Result<(Word, Word)> {
    if supply == 0 then Halted(Trapped)
    else
      var amount0: Word := Quotient(WMul(liquidity, bal0), supply);
      var amount1: Word := Quotient(WMul(liquidity, bal1), supply);
      if amount0 == 0 || amount1 == 0 then Halted(Reverted) else Ok((amount0, amount1))
  }

  function Destroy(s: Slots, me: Address, supply: Word, liquidity: Word): Slots {
    s.(balanceOf := s.balanceOf[me := 0], totalSupply := WSub(supply, liquidity))
  }

  // ----- swap

  predicate SwapRefused(s: Slots, r: Reserves, out0: Word, out1: Word, to: Address) {
    (out0 == 0 && out1 == 0) || out0 >= r.r0 || out1 >= r.r1 || to == s.token0 || to == s.token1
  }

  function AmountIn(balance: Word, reserve: Word, out: Word): Word {
    if balance > WSub(reserve, out) then WSub(balance, WSub(reserve, out)) else 0
  }

  /** The balance less three thousandths of what came in, times a thousand. */
  function Adjusted(balance: Word, amountIn: Word): Word {
    WSub(WMul(balance, 1000), WMul(amountIn, 3))
  }

  /** Everything `swap` does once it has read the reserves `r`, paid out, and read the two balances back. */
  function FinishSwap(s: Slots, r: Reserves, out0: Word, out1: Word, bal0: Word, bal1: Word, now: Word): Result<Slots> {
    var in0 := AmountIn(bal0, r.r0, out0);
    var in1 := AmountIn(bal1, r.r1, out1);
    if in0 == 0 && in1 == 0 then Halted(Reverted)
    else if WMul(Adjusted(bal0, in0), Adjusted(bal1, in1)) < WMul(WMul(WMul(r.r0, r.r1), 1000), 1000) then
      Halted(Reverted)
    else
      var stored :- StoreReserves(s, bal0, bal1, now);
      Ok(Unlock(stored))
  }

  // ----- the LP token

  function SetAllowance(s: Slots, caller: Address, spender: Address, value: Word): Slots {
    s.(allowance := s.allowance[(caller, spender) := value])
  }

  function MoveShares(s: Slots, from: Address, to: Address, value: Word): Result<Slots> {
    if Get(s.balanceOf, from) < value then Halted(Reverted)
    else
      var debited := s.(balanceOf := s.balanceOf[from := Get(s.balanceOf, from) - value]);
      Ok(Credit(debited, to, value))
  }

  function SpendAllowance(s: Slots, owner: Address, spender: Address, value: Word): Result<Slots> {
    var allowed := Get(s.allowance, (owner, spender));
    if allowed == MAX_WORD then Ok(s)
    else if allowed < value then Halted(Reverted)
    else Ok(SetAllowance(s, owner, spender, allowed - value))
  }

  function MoveSharesFrom(s: Slots, caller: Address, from: Address, to: Address, value: Word): Result<Slots> {
    var spent :- SpendAllowance(s, from, caller, value);
    MoveShares(spent, from, to, value)
  }

  // ----- steps over the pair and its two honest tokens

  /** A pair at address `me` together with the ledgers of its token0 and token1. */
  datatype World = World(pair: Slots, led0: Ledger, led1: Ledger)

  datatype Action =
    | Initialize(t0: Address, t1: Address)
    | Mint(to: Address, now: Word)
    | Burn(to: Address, now: Word)
    | Swap(out0: Word, out1: Word, to: Address, now: Word)
    | Skim(to: Address)
    | Sync
    | Approve(caller: Address, spender: Address, value: Word)
    | Transfer(caller: Address, to: Address, value: Word)
    | TransferFrom(caller: Address, from: Address, to: Address, value: Word)
      // whatever the tokens do between two calls; an honest token never debits the pair
    | TokensMove(led0: Ledger, led1: Ledger)

  type Reply = Result<(World, seq<Word>)>

  ghost function MintCall(v: Variant, me: Address, w: World, to: Address, now: Word): Reply {
    var s :- Lock(w.pair);
    var (done, liquidity) :- FinishMint(v, s, Reserve(v, s), to, Get(w.led0, me), Get(w.led1, me), now);
    Ok((w.(pair := done), [liquidity]))
  }

  function BurnCall(me: Address, w: World, to: Address, now: Word): Reply {
    var s :- Lock(w.pair);
    var liquidity := Get(s.balanceOf, me);
    if liquidity == 0 then Halted(Reverted)
    else
      var (amount0, amount1) :- BurnAmounts(liquidity, s.totalSupply, Get(w.led0, me), Get(w.led1, me));
      var led0 :- TokenTransfer(w.led0, me, to, amount0);
      var led1 :- TokenTransfer(w.led1, me, to, amount1);
      var stored :- StoreReserves(Destroy(s, me, s.totalSupply, liquidity), Get(led0, me), Get(led1, me), now);
      Ok((World(Unlock(stored), led0, led1), [amount0, amount1]))
  }

  /** `safe_transfer` guarded by `amount > 0`. */
  function PayOut(l: Ledger, me: Address, to: Address, out: Word): Result<Ledger> {
    if out > 0 then TokenTransfer(l, me, to, out) else Ok(l)
  }

  function SwapCall(v: Variant, me: Address, w: World, out0: Word, out1: Word, to: Address, now: Word): Reply {
    var s :- Lock(w.pair);
    if SwapRefused(s, Reserve(v, s), out0, out1, to) then Halted(Reverted)
    else
      var led0 :- PayOut(w.led0, me, to, out0);
      var led1 :- PayOut(w.led1, me, to, out1);
      var done :- FinishSwap(s, Reserve(v, s), out0, out1, Get(led0, me), Get(led1, me), now);
      Ok((World(done, led0, led1), []))
  }

  function SkimCall(v: Variant, me: Address, w: World, to: Address): Reply {
    var s :- Lock(w.pair);
    var r := Reserve(v, s);
    var led0 :- TokenTransfer(w.led0, me, to, WSub(Get(w.led0, me), r.r0));
    var led1 :- TokenTransfer(w.led1, me, to, WSub(Get(w.led1, me), r.r1));
    Ok((World(Unlock(s), led0, led1), []))
  }

  function SyncCall(v: Variant, me: Address, w: World): Reply {
    var s :- Lock(w.pair);
    var stored :- StoreReserves(s, Get(w.led0, me), Get(w.led1, me), Reserve(v, s).ts);
    Ok((w.(pair := Unlock(stored)), []))
  }

  function InitializeCall(w: World, t0: Address, t1: Address): Reply {
    var done :- InitializeSlots(w.pair, t0, t1);
    Ok((w.(pair := done), []))
  }

  function TokensMoveCall(me: Address, w: World, led0: Ledger, led1: Ledger): Reply {
    if Get(led0, me) < Get(w.led0, me) || Get(led1, me) < Get(w.led1, me) then Halted(Reverted)
    else Ok((w.(led0 := led0, led1 := led1), []))
  }

  ghost function Attempt(v: Variant, me: Address, w: World, a: Action): Reply {
    match a
    case Initialize(t0, t1) => InitializeCall(w, t0, t1)
    case Mint(to, now) => MintCall(v, me, w, to, now)
    case Burn(to, now) => BurnCall(me, w, to, now)
    case Swap(out0, out1, to, now) => SwapCall(v, me, w, out0, out1, to, now)
    case Skim(to) => SkimCall(v, me, w, to)
    case Sync => SyncCall(v, me, w)
    case Approve(caller, spender, value) => Ok((w.(pair := SetAllowance(w.pair, caller, spender, value)), [1]))
    case Transfer(caller, to, value) =>
      var moved :- MoveShares(w.pair, caller, to, value);
      Ok((w.(pair := moved), [1]))
    case TransferFrom(caller, from, to, value) =>
      var moved :- MoveSharesFrom(w.pair, caller, from, to, value);
      Ok((w.(pair := moved), [1]))
    case TokensMove(led0, led1) => TokensMoveCall(me, w, led0, led1)
  }

  /** One transaction: the host keeps nothing of a call that reverts or traps. */
  ghost function Step(v: Variant, me: Address, w: World, a: Action): World {
    var reply := Attempt(v, me, w, a);
    if reply.Ok? then reply.value.0 else w
  }

  ghost function Run(v: Variant, me: Address, w: World, actions: seq<Action>): World
    decreases |actions|
  {
    if actions == [] then w else Run(v, me, Step(v, me, w, actions[0]), actions[1..])
  }

  /** The state `createPair` leaves: deployed, two different non-zero tokens named, nothing minted. */
  ghost predicate Created(w: World) {
    && w.pair.token0 != ZERO_ADDRESS && w.pair.token0 != w.pair.token1
    && w.pair == Deployed(w.pair.factory).(token0 := w.pair.token0, token1 := w.pair.token1)
  }
}
