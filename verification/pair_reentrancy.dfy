/** The pair under arbitrary tokens: each external call may call back into the pair before it answers. */
module PairReentrancy {
  import opened Words
  import opened PackedReserves
  import opened Ledgers
  import opened Sqrt
  import opened PairSpec

  datatype Answer = Failed | Returned(value: Word)

  /** One call out to a token: the pair calls made while it runs, then its answer. */
  datatype External = External(nested: seq<Call>, answer: Answer)

  datatype Call =
    | Initialize(t0: Address, t1: Address)
    | Mint(to: Address, now: Word, bal0: External, bal1: External)
    | Burn(to: Address, now: Word, bal0: External, bal1: External,
           send0: External, send1: External, left0: External, left1: External)
    | Swap(out0: Word, out1: Word, to: Address, now: Word,
           send0: External, send1: External, bal0: External, bal1: External)
    | Skim(to: Address, bal0: External, bal1: External, send0: External, send1: External)
    | Sync(bal0: External, bal1: External)
    | Approve(caller: Address, spender: Address, value: Word)
    | Transfer(caller: Address, to: Address, value: Word)
    | TransferFrom(caller: Address, from: Address, to: Address, value: Word)

  type Outcome = Result<(Slots, seq<Word>)>

  /** `safe_balance_of` and `safe_transfer`: a failed call reverts, otherwise the answer comes back. */
  ghost function Ask(v: Variant, me: Address, s: Slots, x: External): Result<(Slots, Word)>
    decreases x, 1
  {
    var after := ExecAll(v, me, s, x.nested);
    match x.answer
    case Failed => Halted(Reverted)
    case Returned(value) => Ok((after, value))
  }

  ghost function AskIf(v: Variant, me: Address, s: Slots, asked: bool, x: External): Result<(Slots, Word)>
    decreases x, 2
  {
    if asked then Ask(v, me, s, x) else Ok((s, 0))
  }

  ghost function ExecMint(v: Variant, me: Address, s: Slots, c: Call): Outcome
    requires c.Mint?
    decreases c, 4
  {
    var locked :- Lock(s);
    var r := Reserve(v, locked);
    var (s0, b0) :- Ask(v, me, locked, c.bal0);
    var (s1, b1) :- Ask(v, me, s0, c.bal1);
    var (done, shares) :- FinishMint(v, s1, r, c.to, b0, b1, c.now);
    Ok((done, [shares]))
  }

  ghost function ExecBurn(v: Variant, me: Address, s: Slots, c: Call): Outcome
    requires c.Burn?
    decreases c, 4
  {
    var locked :- Lock(s);
    var burned := Get(locked.balanceOf, me);
    if burned == 0 then Halted(Reverted)
    else
      var supply := locked.totalSupply;
      var (s0, b0) :- Ask(v, me, locked, c.bal0);
      var (s1, b1) :- Ask(v, me, s0, c.bal1);
      var (amount0, amount1) :- BurnAmounts(burned, supply, b0, b1);
      var done :- BurnTail(v, me, Destroy(s1, me, supply, burned), c);
      Ok((Unlock(done), [amount0, amount1]))
  }

  /** The part of `burn` after the shares are destroyed: two transfers, two balances, one store. */
  ghost function BurnTail(v: Variant, me: Address, s: Slots, c: Call): Result<Slots>
    requires c.Burn?
    decreases c, 3
  {
    var (s2, _) :- Ask(v, me, s, c.send0);
    var (s3, _) :- Ask(v, me, s2, c.send1);
    var (s4, l0) :- Ask(v, me, s3, c.left0);
    var (s5, l1) :- Ask(v, me, s4, c.left1);
    StoreReserves(s5, l0, l1, c.now)
  }

  ghost function ExecSwap(v: Variant, me: Address, s: Slots, c: Call): Outcome
    requires c.Swap?
    decreases c, 4
  {
    var locked :- Lock(s);
    var r := Reserve(v, locked);
    if SwapRefused(locked, r, c.out0, c.out1, c.to) then Halted(Reverted)
    else
      var (s0, _) :- AskIf(v, me, locked, c.out0 > 0, c.send0);
      var (s1, _) :- AskIf(v, me, s0, c.out1 > 0, c.send1);
      var done :- SwapTail(v, me, s1, r, c);
      Ok((done, []))
  }

  /** The part of `swap` after it has paid out. */
  ghost function SwapTail(v: Variant, me: Address, s: Slots, r: Reserves, c: Call): Result<Slots>
    requires c.Swap?
    decreases c, 3
  {
    var (s2, b0) :- Ask(v, me, s, c.bal0);
    var (s3, b1) :- Ask(v, me, s2, c.bal1);
    FinishSwap(s3, r, c.out0, c.out1, b0, b1, c.now)
  }

  ghost function ExecSkim(v: Variant, me: Address, s: Slots, c: Call): Outcome
    requires c.Skim?
    decreases c, 4
  {
    var locked :- Lock(s);
    var (s0, _) :- Ask(v, me, locked, c.bal0);
    var (s1, _) :- Ask(v, me, s0, c.bal1);
    var (s2, _) :- Ask(v, me, s1, c.send0);
    var (s3, _) :- Ask(v, me, s2, c.send1);
    Ok((Unlock(s3), []))
  }

  ghost function ExecSync(v: Variant, me: Address, s: Slots, c: Call): Outcome
    requires c.Sync?
    decreases c, 4
  {
    var locked :- Lock(s);
    var (s0, b0) :- Ask(v, me, locked, c.bal0);
    var (s1, b1) :- Ask(v, me, s0, c.bal1);
    var stored :- StoreReserves(s1, b0, b1, Reserve(v, s1).ts);
    Ok((Unlock(stored), []))
  }

  ghost function Exec(v: Variant, me: Address, s: Slots, c: Call): Outcome
    decreases c, 5
  {
    match c
    case Initialize(t0, t1) =>
      var done :- InitializeSlots(s, t0, t1);
      Ok((done, []))
    case Mint(_, _, _, _) => ExecMint(v, me, s, c)
    case Burn(_, _, _, _, _, _, _, _) => ExecBurn(v, me, s, c)
    case Swap(_, _, _, _, _, _, _, _) => ExecSwap(v, me, s, c)
    case Skim(_, _, _, _, _) => ExecSkim(v, me, s, c)
    case Sync(_, _) => ExecSync(v, me, s, c)
    case Approve(caller, spender, value) => Ok((SetAllowance(s, caller, spender, value), [1]))
    case Transfer(caller, to, value) =>
      var moved :- MoveShares(s, caller, to, value);
      Ok((moved, [1]))
    case TransferFrom(caller, from, to, value) =>
      var moved :- MoveSharesFrom(s, caller, from, to, value);
      Ok((moved, [1]))
  }

  /** Calls one after another; the host undoes those that halt. */
  ghost function ExecAll(v: Variant, me: Address, s: Slots, calls: seq<Call>): Slots
    decreases calls, 0
  {
    if calls == [] then s
    else
      var outcome := Exec(v, me, s, calls[0]);
      ExecAll(v, me, if outcome.Ok? then outcome.value.0 else s, calls[1..])
  }

  predicate Guarded(c: Call) {
    !c.Approve? && !c.Transfer? && !c.TransferFrom?
  }

  /** Everything but the LP token's own tables. */
  function Frozen(s: Slots): Slots {
    s.(balanceOf := map[], allowance := map[])
  }

  // ----- while the lock is held

  /** Every guarded call made while the lock is held reverts. */
  lemma LockedRefuses(v: Variant, me: Address, s: Slots, c: Call)
    requires s.unlocked != 1 && Guarded(c)
    ensures Exec(v, me, s, c) == Halted(Reverted)
  {
  }

  lemma TokenCallFrame(v: Variant, me: Address, s: Slots, c: Call)
    requires !Guarded(c) && Exec(v, me, s, c).Ok?
    ensures Frozen(Exec(v, me, s, c).value.0) == Frozen(s)
  {
  }

  /** Whatever a token calls while a guarded operation is in flight, reserves, tokens, supply and lock stand still. */
  lemma {:induction false} LockedStandsStill(v: Variant, me: Address, s: Slots, calls: seq<Call>)
    requires s.unlocked != 1
    ensures Frozen(ExecAll(v, me, s, calls)) == Frozen(s)
    decreases |calls|
  {
    if calls != [] {
      var outcome := Exec(v, me, s, calls[0]);
      if Guarded(calls[0]) {
        LockedRefuses(v, me, s, calls[0]);
      } else if outcome.Ok? {
        TokenCallFrame(v, me, s, calls[0]);
      }
      hide Exec;
      LockedStandsStill(v, me, if outcome.Ok? then outcome.value.0 else s, calls[1..]);
    }
  }

  lemma AskFrame(v: Variant, me: Address, s: Slots, asked: bool, x: External)
    requires s.unlocked != 1
    ensures var r := AskIf(v, me, s, asked, x);
      && (r.Ok? <==> asked ==> x.answer.Returned?)
      && (r.Halted? ==> r.why == Reverted)
      && (r.Ok? ==> Frozen(r.value.0) == Frozen(s) && r.value.1 == if asked then x.answer.value else 0)
  {
    LockedStandsStill(v, me, s, x.nested);
    hide ExecAll;
  }

  // ----- the lock at outermost boundaries

  lemma BranchesRelease(v: Variant, me: Address, s: Slots, c: Call)
    ensures c.Mint? && ExecMint(v, me, s, c).Ok? ==> ExecMint(v, me, s, c).value.0.unlocked == 1
    ensures c.Burn? && ExecBurn(v, me, s, c).Ok? ==> ExecBurn(v, me, s, c).value.0.unlocked == 1
    ensures c.Swap? && ExecSwap(v, me, s, c).Ok? ==> ExecSwap(v, me, s, c).value.0.unlocked == 1
    ensures c.Skim? && ExecSkim(v, me, s, c).Ok? ==> ExecSkim(v, me, s, c).value.0.unlocked == 1
    ensures c.Sync? && ExecSync(v, me, s, c).Ok? ==> ExecSync(v, me, s, c).value.0.unlocked == 1
  {
    hide Ask, AskIf, BurnTail, FirstMint, LaterMint, Pack, GetReserves, BurnAmounts, AmountIn, Adjusted, WMul;
    if c.Swap? { SwapTailReleases(v, me, s, c); }
  }

  lemma SwapTailReleases(v: Variant, me: Address, s: Slots, c: Call)
    requires c.Swap?
    ensures forall t: Slots, r: Reserves :: SwapTail(v, me, t, r, c).Ok? ==> SwapTail(v, me, t, r, c).value.unlocked == 1
  {
    hide Ask, Pack, AmountIn, Adjusted, WMul;
  }

  /** A guarded call that completes leaves the lock free; one that halts is undone. */
  lemma LockIsReleased(v: Variant, me: Address, s: Slots, c: Call)
    requires s.unlocked == 1 && Exec(v, me, s, c).Ok?
    ensures Exec(v, me, s, c).value.0.unlocked == 1
  {
    BranchesRelease(v, me, s, c);
    hide ExecMint, ExecBurn, ExecSwap, ExecSkim, ExecSync;
  }

  /** From deployment on, the lock is free at every outermost call boundary, whatever tokens do inside. */
  lemma {:induction false} LockIsFreeOutside(v: Variant, me: Address, s: Slots, calls: seq<Call>)
    requires s.unlocked == 1
    ensures ExecAll(v, me, s, calls).unlocked == 1
    decreases |calls|
  {
    if calls != [] {
      var outcome := Exec(v, me, s, calls[0]);
      if outcome.Ok? { LockIsReleased(v, me, s, calls[0]); }
      hide Exec;
      LockIsFreeOutside(v, me, if outcome.Ok? then outcome.value.0 else s, calls[1..]);
    }
  }

  /** Once named, the two tokens never change again. */
  lemma {:induction false} TokensAreFixed(v: Variant, me: Address, s: Slots, calls: seq<Call>)
    requires s.token0 != ZERO_ADDRESS
    ensures var s' := ExecAll(v, me, s, calls);
      s'.token0 == s.token0 && s'.token1 == s.token1 && s'.factory == s.factory
    decreases |calls|
  {
    if calls != [] {
      var outcome := Exec(v, me, s, calls[0]);
      if outcome.Ok? { CallKeepsTokens(v, me, s, calls[0]); }
      hide Exec;
      TokensAreFixed(v, me, if outcome.Ok? then outcome.value.0 else s, calls[1..]);
    }
  }

  // ----- nested calls are invisible

  function Quiet(x: External): External {
    x.(nested := [])
  }

  /** The same call against tokens that answer the same but never call back. */
  function QuietCall(c: Call): Call {
    match c
    case Mint(to, now, bal0, bal1) => Call.Mint(to, now, Quiet(bal0), Quiet(bal1))
    case Burn(to, now, bal0, bal1, send0, send1, left0, left1) =>
      Call.Burn(to, now, Quiet(bal0), Quiet(bal1), Quiet(send0), Quiet(send1), Quiet(left0), Quiet(left1))
    case Swap(out0, out1, to, now, send0, send1, bal0, bal1) =>
      Call.Swap(out0, out1, to, now, Quiet(send0), Quiet(send1), Quiet(bal0), Quiet(bal1))
    case Skim(to, bal0, bal1, send0, send1) =>
      Call.Skim(to, Quiet(bal0), Quiet(bal1), Quiet(send0), Quiet(send1))
    case Sync(bal0, bal1) => Call.Sync(Quiet(bal0), Quiet(bal1))
    case _ => c
  }

  /** Same verdict, same returned data, same frozen slots. */
  ghost predicate Alike(a: Outcome, b: Outcome) {
    match (a, b)
    case (Halted(x), Halted(y)) => x == y
    case (Ok((s, x)), Ok((t, y))) => Frozen(s) == Frozen(t) && x == y
    case _ => false
  }

  lemma CallKeepsTokens(v: Variant, me: Address, s: Slots, c: Call)
    requires s.token0 != ZERO_ADDRESS && Exec(v, me, s, c).Ok?
    ensures var s' := Exec(v, me, s, c).value.0;
      s'.token0 == s.token0 && s'.token1 == s.token1 && s'.factory == s.factory
  {
    NestedCallsAreInvisible(v, me, s, c);
    QuietKeepsTokens(v, me, s, QuietCall(c));
    hide Exec, QuietCall;
  }

  ghost predicate KeepsTokens(s: Slots, r: Result<Slots>) {
    r.Ok? ==> r.value.token0 == s.token0 && r.value.token1 == s.token1 && r.value.factory == s.factory
  }

  function StateOf(o: Outcome): Result<Slots> {
    if o.Ok? then Ok(o.value.0) else Halted(o.why)
  }

  /** Against quiet tokens the tails only look at the answers. */
  lemma QuietBurnTail(v: Variant, me: Address, s: Slots, c: Call)
    requires c == QuietCall(c) && c.Burn?
    ensures BurnTail(v, me, s, c)
         == if c.send0.answer.Failed? || c.send1.answer.Failed? || c.left0.answer.Failed? || c.left1.answer.Failed?
            then Halted(Reverted)
            else StoreReserves(s, c.left0.answer.value, c.left1.answer.value, c.now)
  {
    QuietAsk(v, me);
    hide Ask, StoreReserves;
  }

  lemma QuietSwapTail(v: Variant, me: Address, s: Slots, r: Reserves, c: Call)
    requires c == QuietCall(c) && c.Swap?
    ensures SwapTail(v, me, s, r, c)
         == if c.bal0.answer.Failed? || c.bal1.answer.Failed? then Halted(Reverted)
            else FinishSwap(s, r, c.out0, c.out1, c.bal0.answer.value, c.bal1.answer.value, c.now)
  {
    QuietAsk(v, me);
    hide Ask, FinishSwap;
  }

  lemma QuietBurn(v: Variant, me: Address, s: Slots, c: Call)
    requires c == QuietCall(c) && c.Burn?
    ensures KeepsTokens(s, StateOf(ExecBurn(v, me, s, c)))
  {
    QuietAsk(v, me);
    hide Ask, AskIf, BurnTail, BurnAmounts, WSub, Pack;
    var burned, supply := Get(s.balanceOf, me), s.totalSupply;
    QuietBurnTail(v, me, Destroy(s.(unlocked := 0), me, supply, burned), c);
  }

  lemma QuietSwap(v: Variant, me: Address, s: Slots, c: Call)
    requires c == QuietCall(c) && c.Swap?
    ensures KeepsTokens(s, StateOf(ExecSwap(v, me, s, c)))
  {
    QuietAsk(v, me);
    hide Ask, AskIf, SwapTail, GetReserves, Pack, AmountIn, Adjusted, WMul;
    QuietSwapTail(v, me, s.(unlocked := 0), Reserve(v, s), c);
  }

  lemma QuietRest(v: Variant, me: Address, s: Slots, c: Call)
    requires c == QuietCall(c)
    ensures c.Mint? ==> KeepsTokens(s, StateOf(ExecMint(v, me, s, c)))
    ensures c.Skim? ==> KeepsTokens(s, StateOf(ExecSkim(v, me, s, c)))
    ensures c.Sync? ==> KeepsTokens(s, StateOf(ExecSync(v, me, s, c)))
  {
    QuietAsk(v, me);
    hide Ask, AskIf, FloorSqrt, Pack, GetReserves, Quotient, WMul;
  }

  lemma QuietKeepsTokens(v: Variant, me: Address, s: Slots, c: Call)
    requires s.token0 != ZERO_ADDRESS && c == QuietCall(c)
    ensures Exec(v, me, s, c).Ok? ==>
      var s' := Exec(v, me, s, c).value.0;
      s'.token0 == s.token0 && s'.token1 == s.token1 && s'.factory == s.factory
  {
    if c.Burn? { QuietBurn(v, me, s, c); }
    if c.Swap? { QuietSwap(v, me, s, c); }
    QuietRest(v, me, s, c);
    hide ExecMint, ExecBurn, ExecSwap, ExecSkim, ExecSync, QuietCall;
  }

  lemma QuietAsk(v: Variant, me: Address)
    ensures forall s: Slots, x: External {:trigger Ask(v, me, s, x)} :: x.nested == [] ==>
      Ask(v, me, s, x) == if x.answer.Failed? then Halted(Reverted) else Ok((s, x.answer.value))
    ensures forall s: Slots, x: External, b: bool {:trigger AskIf(v, me, s, b, x)} :: x.nested == [] ==>
      AskIf(v, me, s, b, x) == if !b then Ok((s, 0)) else Ask(v, me, s, x)
  {
  }

  lemma StoreAlike(s: Slots, t: Slots, b0: Word, b1: Word, now: Word)
    requires Frozen(s) == Frozen(t)
    ensures var x, y := StoreReserves(s, b0, b1, now), StoreReserves(t, b0, b1, now);
      && (x.Halted? ==> x == y)
      && (x.Ok? ==> y.Ok? && Frozen(x.value) == Frozen(y.value) && Frozen(Unlock(x.value)) == Frozen(Unlock(y.value)))
  {
    hide Pack;
  }

  lemma IssuedAlike(v: Variant, s: Slots, t: Slots, r: Reserves, b0: Word, b1: Word)
    requires Frozen(s) == Frozen(t)
    ensures var x, y := Issued(v, s, r, b0, b1), Issued(v, t, r, b0, b1);
      && (x.Halted? ==> x == y)
      && (x.Ok? ==> y.Ok? && x.value.1 == y.value.1 && Frozen(x.value.0) == Frozen(y.value.0))
  {
    hide FloorSqrt, WMul, WSub, WAdd, Quotient;
  }

  lemma CreditAlike(s: Slots, t: Slots, to: Address, value: Word)
    requires Frozen(s) == Frozen(t)
    ensures Frozen(Credit(s, to, value)) == Frozen(Credit(t, to, value))
  {
    hide WAdd;
  }

  lemma FinishMintAlike(v: Variant, s: Slots, t: Slots, r: Reserves, to: Address, b0: Word, b1: Word, now: Word)
    requires Frozen(s) == Frozen(t)
    ensures var x, y := FinishMint(v, s, r, to, b0, b1, now), FinishMint(v, t, r, to, b0, b1, now);
      && (x.Halted? ==> x == y)
      && (x.Ok? ==> y.Ok? && x.value.1 == y.value.1 && Frozen(x.value.0) == Frozen(y.value.0))
  {
    hide Issued, Credit, StoreReserves, Unlock, Frozen;
    IssuedAlike(v, s, t, r, b0, b1);
    var x, y := Issued(v, s, r, b0, b1), Issued(v, t, r, b0, b1);
    if x.Ok? {
      CreditAlike(x.value.0, y.value.0, to, x.value.1);
      StoreAlike(Credit(x.value.0, to, x.value.1), Credit(y.value.0, to, x.value.1), b0, b1, now);
    }
  }

  lemma FinishSwapAlike(s: Slots, t: Slots, r: Reserves, out0: Word, out1: Word, b0: Word, b1: Word, now: Word)
    requires Frozen(s) == Frozen(t)
    ensures var x, y := FinishSwap(s, r, out0, out1, b0, b1, now), FinishSwap(t, r, out0, out1, b0, b1, now);
      && (x.Halted? ==> x == y)
      && (x.Ok? ==> y.Ok? && Frozen(x.value) == Frozen(y.value))
  {
    hide Pack, WMul, WSub, AmountIn, Adjusted;
  }

  /** Two states that differ in the tables only, asking tokens that answer the same, stay so. */
  lemma AskAlike(v: Variant, me: Address, s: Slots, t: Slots, asked: bool, x: External)
    requires s.unlocked != 1 && Frozen(s) == Frozen(t)
    ensures var a, b := AskIf(v, me, s, asked, x), AskIf(v, me, t, asked, Quiet(x));
      && (a.Halted? ==> a == b)
      && (a.Ok? ==>
          && b.Ok? && a.value.1 == b.value.1
          && Frozen(a.value.0) == Frozen(b.value.0) == Frozen(s) && a.value.0.unlocked != 1)
  {
    AskFrame(v, me, s, asked, x);
    AskFrame(v, me, t, asked, Quiet(x));
    hide ExecAll;
  }

  lemma AskSame(v: Variant, me: Address, s: Slots, t: Slots, x: External)
    requires s.unlocked != 1 && Frozen(s) == Frozen(t)
    ensures var a, b := Ask(v, me, s, x), Ask(v, me, t, Quiet(x));
      && (a.Halted? ==> a == b)
      && (a.Ok? ==>
          && b.Ok? && a.value.1 == b.value.1
          && Frozen(a.value.0) == Frozen(b.value.0) == Frozen(s) && a.value.0.unlocked != 1)
  {
    AskAlike(v, me, s, t, true, x);
    hide Ask, Frozen;
  }

  lemma UnlockAlike(s: Slots, t: Slots)
    requires Frozen(s) == Frozen(t)
    ensures Frozen(Unlock(s)) == Frozen(Unlock(t))
  {
  }

  lemma DestroyAlike(s: Slots, t: Slots, me: Address, supply: Word, burned: Word)
    requires Frozen(s) == Frozen(t)
    ensures Frozen(Destroy(s, me, supply, burned)) == Frozen(Destroy(t, me, supply, burned))
    ensures Destroy(s, me, supply, burned).unlocked == s.unlocked
  {
  }

  /** The lock makes every nested call invisible: outcome, returned data, reserves, supply, tokens and lock
      are those of the same call against tokens that never call back. */
  lemma NestedCallsAreInvisible(v: Variant, me: Address, s: Slots, c: Call)
    ensures Alike(Exec(v, me, s, c), Exec(v, me, s, QuietCall(c)))
  {
    if s.unlocked == 1 {
      match c
      case Mint(_, _, _, _) => MintAlike(v, me, s, c);
      case Burn(_, _, _, _, _, _, _, _) => BurnAlike(v, me, s, c);
      case Swap(_, _, _, _, _, _, _, _) => SwapAlike(v, me, s, c);
      case Skim(_, _, _, _, _) => SkimAlike(v, me, s, c);
      case Sync(_, _) => SyncAlike(v, me, s, c);
      case _ =>
    } else if Guarded(c) {
      LockedRefuses(v, me, s, c);
      LockedRefuses(v, me, s, QuietCall(c));
    }
    hide ExecMint, ExecBurn, ExecSwap, ExecSkim, ExecSync, InitializeSlots, MoveShares, MoveSharesFrom;
  }

  lemma MintAlike(v: Variant, me: Address, s: Slots, c: Call)
    requires s.unlocked == 1 && c.Mint?
    ensures Alike(ExecMint(v, me, s, c), ExecMint(v, me, s, QuietCall(c)))
  {
    hide Ask, FinishMint, GetReserves, Frozen;
    var l := s.(unlocked := 0);
    var q := QuietCall(c);
    AskSame(v, me, l, l, c.bal0);
    if Ask(v, me, l, c.bal0).Ok? {
      var (s0, b0) := Ask(v, me, l, c.bal0).value;
      var t0 := Ask(v, me, l, q.bal0).value.0;
      AskSame(v, me, s0, t0, c.bal1);
      if Ask(v, me, s0, c.bal1).Ok? {
        var (s1, b1) := Ask(v, me, s0, c.bal1).value;
        var t1 := Ask(v, me, t0, q.bal1).value.0;
        FinishMintAlike(v, s1, t1, Reserve(v, l), c.to, b0, b1, c.now);
      }
    }
  }

  lemma BurnAlike(v: Variant, me: Address, s: Slots, c: Call)
    requires s.unlocked == 1 && c.Burn?
    ensures Alike(ExecBurn(v, me, s, c), ExecBurn(v, me, s, QuietCall(c)))
  {
    hide Ask, BurnAmounts, BurnTail, Destroy, Unlock, Frozen;
    var l := s.(unlocked := 0);
    var q := QuietCall(c);
    var burned := Get(l.balanceOf, me);
    AskSame(v, me, l, l, c.bal0);
    if Ask(v, me, l, c.bal0).Ok? {
      var s0, t0 := Ask(v, me, l, c.bal0).value.0, Ask(v, me, l, q.bal0).value.0;
      AskSame(v, me, s0, t0, c.bal1);
      if Ask(v, me, s0, c.bal1).Ok? {
        var s1, t1 := Ask(v, me, s0, c.bal1).value.0, Ask(v, me, t0, q.bal1).value.0;
        DestroyAlike(s1, t1, me, l.totalSupply, burned);
        var s2, t2 := Destroy(s1, me, l.totalSupply, burned), Destroy(t1, me, l.totalSupply, burned);
        BurnTailAlike(v, me, s2, t2, c);
        if BurnTail(v, me, s2, c).Ok? { UnlockAlike(BurnTail(v, me, s2, c).value, BurnTail(v, me, t2, q).value); }
      }
    }
  }

  lemma BurnTailAlike(v: Variant, me: Address, s: Slots, t: Slots, c: Call)
    requires c.Burn? && s.unlocked != 1 && Frozen(s) == Frozen(t)
    ensures var x, y := BurnTail(v, me, s, c), BurnTail(v, me, t, QuietCall(c));
      && (x.Halted? ==> x == y)
      && (x.Ok? ==> y.Ok? && Frozen(x.value) == Frozen(y.value))
  {
    hide Ask, StoreReserves, Frozen;
    var q := QuietCall(c);
    AskSame(v, me, s, t, c.send0);
    if Ask(v, me, s, c.send0).Ok? {
      var s2, t2 := Ask(v, me, s, c.send0).value.0, Ask(v, me, t, q.send0).value.0;
      AskSame(v, me, s2, t2, c.send1);
      if Ask(v, me, s2, c.send1).Ok? {
        var s3, t3 := Ask(v, me, s2, c.send1).value.0, Ask(v, me, t2, q.send1).value.0;
        AskSame(v, me, s3, t3, c.left0);
        if Ask(v, me, s3, c.left0).Ok? {
          var (s4, l0) := Ask(v, me, s3, c.left0).value;
          var t4 := Ask(v, me, t3, q.left0).value.0;
          AskSame(v, me, s4, t4, c.left1);
          if Ask(v, me, s4, c.left1).Ok? {
            var (s5, l1) := Ask(v, me, s4, c.left1).value;
            var t5 := Ask(v, me, t4, q.left1).value.0;
            StoreAlike(s5, t5, l0, l1, c.now);
          }
        }
      }
    }
  }

  lemma SwapAlike(v: Variant, me: Address, s: Slots, c: Call)
    requires s.unlocked == 1 && c.Swap?
    ensures Alike(ExecSwap(v, me, s, c), ExecSwap(v, me, s, QuietCall(c)))
  {
    hide AskIf, SwapTail, GetReserves, Frozen, SwapRefused;
    var l := s.(unlocked := 0);
    var q := QuietCall(c);
    AskAlike(v, me, l, l, c.out0 > 0, c.send0);
    if AskIf(v, me, l, c.out0 > 0, c.send0).Ok? {
      var s0, t0 := AskIf(v, me, l, c.out0 > 0, c.send0).value.0, AskIf(v, me, l, c.out0 > 0, q.send0).value.0;
      AskAlike(v, me, s0, t0, c.out1 > 0, c.send1);
      if AskIf(v, me, s0, c.out1 > 0, c.send1).Ok? {
        var s1, t1 := AskIf(v, me, s0, c.out1 > 0, c.send1).value.0, AskIf(v, me, t0, c.out1 > 0, q.send1).value.0;
        SwapTailAlike(v, me, s1, t1, Reserve(v, l), c);
      }
    }
  }

  lemma SwapTailAlike(v: Variant, me: Address, s: Slots, t: Slots, r: Reserves, c: Call)
    requires c.Swap? && s.unlocked != 1 && Frozen(s) == Frozen(t)
    ensures var x, y := SwapTail(v, me, s, r, c), SwapTail(v, me, t, r, QuietCall(c));
      && (x.Halted? ==> x == y)
      && (x.Ok? ==> y.Ok? && Frozen(x.value) == Frozen(y.value))
  {
    hide Ask, FinishSwap, Frozen;
    var q := QuietCall(c);
    AskSame(v, me, s, t, c.bal0);
    if Ask(v, me, s, c.bal0).Ok? {
      var (s2, b0) := Ask(v, me, s, c.bal0).value;
      var t2 := Ask(v, me, t, q.bal0).value.0;
      AskSame(v, me, s2, t2, c.bal1);
      if Ask(v, me, s2, c.bal1).Ok? {
        var (s3, b1) := Ask(v, me, s2, c.bal1).value;
        var t3 := Ask(v, me, t2, q.bal1).value.0;
        FinishSwapAlike(s3, t3, r, c.out0, c.out1, b0, b1, c.now);
      }
    }
  }

  lemma SkimAlike(v: Variant, me: Address, s: Slots, c: Call)
    requires s.unlocked == 1 && c.Skim?
    ensures Alike(ExecSkim(v, me, s, c), ExecSkim(v, me, s, QuietCall(c)))
  {
    hide Ask, Unlock, Frozen;
    var l := s.(unlocked := 0);
    var q := QuietCall(c);
    AskSame(v, me, l, l, c.bal0);
    if Ask(v, me, l, c.bal0).Ok? {
      var s0, t0 := Ask(v, me, l, c.bal0).value.0, Ask(v, me, l, q.bal0).value.0;
      AskSame(v, me, s0, t0, c.bal1);
      if Ask(v, me, s0, c.bal1).Ok? {
        var s1, t1 := Ask(v, me, s0, c.bal1).value.0, Ask(v, me, t0, q.bal1).value.0;
        AskSame(v, me, s1, t1, c.send0);
        if Ask(v, me, s1, c.send0).Ok? {
          var s2, t2 := Ask(v, me, s1, c.send0).value.0, Ask(v, me, t1, q.send0).value.0;
          AskSame(v, me, s2, t2, c.send1);
          if Ask(v, me, s2, c.send1).Ok? {
            UnlockAlike(Ask(v, me, s2, c.send1).value.0, Ask(v, me, t2, q.send1).value.0);
          }
        }
      }
    }
  }

  lemma ReserveAlike(v: Variant, s: Slots, t: Slots)
    requires Frozen(s) == Frozen(t)
    ensures Reserve(v, s) == Reserve(v, t)
  {
    hide GetReserves;
  }

  lemma SyncAlike(v: Variant, me: Address, s: Slots, c: Call)
    requires s.unlocked == 1 && c.Sync?
    ensures Alike(ExecSync(v, me, s, c), ExecSync(v, me, s, QuietCall(c)))
  {
    hide Ask, StoreReserves, Unlock, Reserve, Frozen;
    var l := s.(unlocked := 0);
    var q := QuietCall(c);
    AskSame(v, me, l, l, c.bal0);
    if Ask(v, me, l, c.bal0).Ok? {
      var (s0, b0) := Ask(v, me, l, c.bal0).value;
      var t0 := Ask(v, me, l, q.bal0).value.0;
      AskSame(v, me, s0, t0, c.bal1);
      if Ask(v, me, s0, c.bal1).Ok? {
        var (s1, b1) := Ask(v, me, s0, c.bal1).value;
        var t1 := Ask(v, me, t0, q.bal1).value.0;
        ReserveAlike(v, s1, t1);
        StoreAlike(s1, t1, b0, b1, Reserve(v, s1).ts);
      }
    }
  }

  // ----- the honest tokens are one case

  function Says(value: Word): External {
    External([], Returned(value))
  }

  function Pays(moved: Result<Ledger>): External {
    External([], if moved.Ok? then Returned(1) else Failed)
  }

  function After(moved: Result<Ledger>, before: Ledger): Ledger {
    if moved.Ok? then moved.value else before
  }

  /** The call that `a` makes, with the answers two honest ledgers give it. */
  function HonestCall(v: Variant, me: Address, w: World, a: Action): Call
    requires !a.TokensMove?
  {
    var b0, b1 := Get(w.led0, me), Get(w.led1, me);
    match a
    case Initialize(t0, t1) => Call.Initialize(t0, t1)
    case Mint(to, now) => Call.Mint(to, now, Says(b0), Says(b1))
    case Burn(to, now) =>
      var amounts := BurnAmounts(Get(w.pair.balanceOf, me), w.pair.totalSupply, b0, b1);
      var (amount0, amount1) := if amounts.Ok? then amounts.value else (0, 0);
      var moved0, moved1 := TokenTransfer(w.led0, me, to, amount0), TokenTransfer(w.led1, me, to, amount1);
      Call.Burn(to, now, Says(b0), Says(b1), Pays(moved0), Pays(moved1),
                Says(Get(After(moved0, w.led0), me)), Says(Get(After(moved1, w.led1), me)))
    case Swap(out0, out1, to, now) =>
      var moved0, moved1 := PayOut(w.led0, me, to, out0), PayOut(w.led1, me, to, out1);
      Call.Swap(out0, out1, to, now, Pays(moved0), Pays(moved1),
                Says(Get(After(moved0, w.led0), me)), Says(Get(After(moved1, w.led1), me)))
    case Skim(to) =>
      var r := Reserve(v, w.pair);
      Call.Skim(to, Says(b0), Says(b1), Pays(TokenTransfer(w.led0, me, to, WSub(b0, r.r0))),
                Pays(TokenTransfer(w.led1, me, to, WSub(b1, r.r1))))
    case Sync => Call.Sync(Says(b0), Says(b1))
    case Approve(caller, spender, value) => Call.Approve(caller, spender, value)
    case Transfer(caller, to, value) => Call.Transfer(caller, to, value)
    case TransferFrom(caller, from, to, value) => Call.TransferFrom(caller, from, to, value)
  }

  /** The pair's part of an honest-token reply. */
  function PairPart(reply: Reply): Outcome {
    match reply
    case Ok((w, data)) => Ok((w.pair, data))
    case Halted(why) => Halted(why)
  }

  /** A step over honest ledgers is the reentrant call with their answers: same verdict, data and storage. */
  lemma HonestStepIsACall(v: Variant, me: Address, w: World, a: Action)
    requires !a.TokensMove?
    ensures Exec(v, me, w.pair, HonestCall(v, me, w, a)) == PairPart(Attempt(v, me, w, a))
  {
    hide HonestCall, ExecMint, ExecBurn, ExecSwap, ExecSkim, ExecSync, MintCall, BurnCall, SwapCall, SkimCall, SyncCall,
      MoveShares, MoveSharesFrom, InitializeSlots;
    HonestKind(v, me, w, a);
    match a
    case Mint(to, now) => HonestMint(v, me, w, to, now);
    case Burn(to, now) => HonestBurn(v, me, w, to, now);
    case Swap(out0, out1, to, now) => HonestSwap(v, me, w, out0, out1, to, now);
    case Skim(to) => HonestSkim(v, me, w, to);
    case Sync => HonestSync(v, me, w);
    case _ =>
  }

  lemma HonestKind(v: Variant, me: Address, w: World, a: Action)
    requires !a.TokensMove?
    ensures var c := HonestCall(v, me, w, a);
      match a
      case Initialize(t0, t1) => c == Call.Initialize(t0, t1)
      case Mint(_, _) => c.Mint?
      case Burn(_, _) => c.Burn?
      case Swap(_, _, _, _) => c.Swap?
      case Skim(_) => c.Skim?
      case Sync => c.Sync?
      case Approve(caller, spender, value) => c == Call.Approve(caller, spender, value)
      case Transfer(caller, to, value) => c == Call.Transfer(caller, to, value)
      case TransferFrom(caller, from, to, value) => c == Call.TransferFrom(caller, from, to, value)
      case TokensMove(_, _) => true
  {
    hide GetReserves, WSub, BurnAmounts, TokenTransfer, PayOut;
  }

  lemma HonestMint(v: Variant, me: Address, w: World, to: Address, now: Word)
    ensures ExecMint(v, me, w.pair, HonestCall(v, me, w, Action.Mint(to, now))) == PairPart(MintCall(v, me, w, to, now))
  {
    QuietAsk(v, me);
    hide Ask, FinishMint, GetReserves;
  }

  lemma HonestBurn(v: Variant, me: Address, w: World, to: Address, now: Word)
    ensures ExecBurn(v, me, w.pair, HonestCall(v, me, w, Action.Burn(to, now))) == PairPart(BurnCall(me, w, to, now))
  {
    QuietAsk(v, me);
    hide Ask, BurnTail, StoreReserves, Destroy, BurnAmounts, TokenTransfer;
    var l := w.pair.(unlocked := 0);
    QuietBurnTail(v, me, Destroy(l, me, l.totalSupply, Get(l.balanceOf, me)), HonestCall(v, me, w, Action.Burn(to, now)));
  }

  lemma HonestSwap(v: Variant, me: Address, w: World, out0: Word, out1: Word, to: Address, now: Word)
    ensures ExecSwap(v, me, w.pair, HonestCall(v, me, w, Action.Swap(out0, out1, to, now)))
         == PairPart(SwapCall(v, me, w, out0, out1, to, now))
  {
    QuietAsk(v, me);
    hide Ask, AskIf, SwapTail, FinishSwap, GetReserves, TokenTransfer;
    QuietSwapTail(v, me, w.pair.(unlocked := 0), Reserve(v, w.pair), HonestCall(v, me, w, Action.Swap(out0, out1, to, now)));
  }

  lemma HonestSkim(v: Variant, me: Address, w: World, to: Address)
    ensures ExecSkim(v, me, w.pair, HonestCall(v, me, w, Action.Skim(to))) == PairPart(SkimCall(v, me, w, to))
  {
    QuietAsk(v, me);
    hide Ask, GetReserves, WSub, TokenTransfer;
  }

  lemma HonestSync(v: Variant, me: Address, w: World)
    ensures ExecSync(v, me, w.pair, HonestCall(v, me, w, Action.Sync)) == PairPart(SyncCall(v, me, w))
  {
    QuietAsk(v, me);
    hide Ask, Pack, GetReserves;
  }
}
