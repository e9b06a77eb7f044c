/** The stored supply against the sum of all LP balances. */
module PairSupply {
  import opened Words
  import opened PackedReserves
  import opened Ledgers
  import opened Sqrt
  import opened PairSpec
  import opened PairSafety

  /** How far the sum of the balances is ahead of the stored supply, modulo 2^256. */
  ghost function Gap(s: Slots): int {
    (Total(s.balanceOf) - s.totalSupply) % TWO_256
  }

  ghost predicate FirstMintRuns(v: Variant, me: Address, w: World, a: Action) {
    a.Mint? && w.pair.totalSupply == 0 && Attempt(v, me, w, a).Ok?
  }

  lemma Congruent(a: int, b: int, j: int)
    requires a == b + j * TWO_256
    ensures a % TWO_256 == b % TWO_256
  {
    ModShift(b, j);
  }

  lemma WAddCases(a: Word, b: Word)
    ensures WAdd(a, b) == a + b || WAdd(a, b) == a + b - TWO_256
    ensures a + b < TWO_256 ==> WAdd(a, b) == a + b
  {
  }

  lemma WSubCases(a: Word, b: Word)
    ensures WSub(a, b) == a - b || WSub(a, b) == a - b + TWO_256
  {
  }

  /** A credit raises the total by its value, give or take one wrap of the credited balance. */
  lemma CreditTotal(s: Slots, to: Address, value: Word) returns (j: int)
    ensures j == 0 || j == -1
    ensures Total(Credit(s, to, value).balanceOf) == Total(s.balanceOf) + value + j * TWO_256
    ensures Get(s.balanceOf, to) + value < TWO_256 ==> j == 0
    ensures Credit(s, to, value) == s.(balanceOf := Credit(s, to, value).balanceOf)
  {
    TotalUpdate(s.balanceOf, to, WAdd(Get(s.balanceOf, to), value));
    WAddCases(Get(s.balanceOf, to), value);
    hide WAdd;
    j := if WAdd(Get(s.balanceOf, to), value) == Get(s.balanceOf, to) + value then 0 else -1;
  }

  /** A move keeps the total, give or take one wrap of the credited balance; none while the total is a word. */
  lemma MoveTotal(s: Slots, from: Address, to: Address, value: Word) returns (j: int)
    requires MoveShares(s, from, to, value).Ok?
    ensures var s' := MoveShares(s, from, to, value).value;
      && s' == s.(balanceOf := s'.balanceOf)
      && Total(s'.balanceOf) == Total(s.balanceOf) + j * TWO_256
    ensures Total(s.balanceOf) < TWO_256 ==> j == 0
  {
    var debited := s.(balanceOf := s.balanceOf[from := Get(s.balanceOf, from) - value]);
    TotalUpdate(s.balanceOf, from, Get(s.balanceOf, from) - value);
    TotalBounds(debited.balanceOf, to, to);
    j := CreditTotal(debited, to, value);
    hide Credit, Total;
  }

  lemma MoveGap(s: Slots, from: Address, to: Address, value: Word)
    requires MoveShares(s, from, to, value).Ok?
    ensures var s' := MoveShares(s, from, to, value).value;
      Gap(s') == Gap(s) && s'.totalSupply == s.totalSupply
  {
    var j := MoveTotal(s, from, to, value);
    hide MoveShares, Total;
    var s' := MoveShares(s, from, to, value).value;
    Congruent(Total(s'.balanceOf) - s.totalSupply, Total(s.balanceOf) - s.totalSupply, j);
  }

  lemma LaterMintGap(s: Slots, r0: Word, r1: Word, amount0: Word, amount1: Word, to: Address)
    requires LaterMint(s, r0, r1, amount0, amount1).Ok?
    ensures var (minted, shares) := LaterMint(s, r0, r1, amount0, amount1).value;
      Gap(Credit(minted, to, shares)) == Gap(s)
  {
    hide WMul, Quotient;
    var (minted, shares) := LaterMint(s, r0, r1, amount0, amount1).value;
    var j := CreditTotal(minted, to, shares);
    WAddCases(s.totalSupply, shares);
    hide Credit, WAdd, LaterMint;
    var k := if minted.totalSupply == s.totalSupply + shares then 0 else 1;
    Congruent(Total(Credit(minted, to, shares).balanceOf) - minted.totalSupply, Total(s.balanceOf) - s.totalSupply, j + k);
  }

  /** The first mint overwrites the zero address' balance and credits everything else to `to`. */
  lemma FirstMintGap(v: Variant, s: Slots, amount0: Word, amount1: Word, to: Address)
    requires s.totalSupply == 0 && FirstMint(v, s, amount0, amount1).Ok?
    ensures var (minted, shares) := FirstMint(v, s, amount0, amount1).value;
      var root := FloorSqrt(WMul(amount0, amount1));
      && 1000 < root < TWO_128
      && Gap(Credit(minted, to, shares))
         == (Gap(s) - Get(s.balanceOf, ZERO_ADDRESS) + (if v.wholeFirstSupply then 0 else root - 1000)) % TWO_256
  {
    hide WMul, FloorSqrt, Total;
    var root := FloorSqrt(WMul(amount0, amount1));
    RootIsWord(WMul(amount0, amount1));
    var (minted, shares) := FirstMint(v, s, amount0, amount1).value;
    TotalUpdate(s.balanceOf, ZERO_ADDRESS, MINIMUM_LIQUIDITY);
    WAddExact(s.totalSupply, MINIMUM_LIQUIDITY);
    WAddExact(1000, shares);
    assert minted.totalSupply == if v.wholeFirstSupply then root else 1000;
    var j := CreditTotal(minted, to, shares);
    hide Credit, WAdd, FirstMint;
    var change := (if v.wholeFirstSupply then 0 else root - 1000) - Get(s.balanceOf, ZERO_ADDRESS);
    ShiftedGap(Total(s.balanceOf), change, Total(Credit(minted, to, shares).balanceOf) - minted.totalSupply, j);
  }

  lemma ShiftedGap(before: int, change: int, after: int, j: int)
    requires after == before + change + j * TWO_256
    ensures after % TWO_256 == (before % TWO_256 + change) % TWO_256
  {
    Congruent(after, before + change, j);
    Congruent(before % TWO_256 + change, before + change, -(before / TWO_256));
  }

  lemma DestroyGap(s: Slots, me: Address)
    ensures Gap(Destroy(s, me, s.totalSupply, Get(s.balanceOf, me))) == Gap(s)
  {
    var burned := Get(s.balanceOf, me);
    TotalUpdate(s.balanceOf, me, 0);
    WSubCases(s.totalSupply, burned);
    hide WSub;
    var k := if WSub(s.totalSupply, burned) == s.totalSupply - burned then 0 else -1;
    Congruent(Total(s.balanceOf[me := 0]) - WSub(s.totalSupply, burned), Total(s.balanceOf) - s.totalSupply, k);
  }

  // ----- every step, in any state

  lemma MintGap(v: Variant, me: Address, w: World, to: Address, now: Word)
    ensures MintCall(v, me, w, to, now).Ok? ==>
      var s' := MintCall(v, me, w, to, now).value.0.pair;
      var r := Reserve(v, w.pair);
      if w.pair.totalSupply != 0 then Gap(s') == Gap(w.pair)
      else
        Gap(s') == (Gap(w.pair) - Get(w.pair.balanceOf, ZERO_ADDRESS)
                    + (if v.wholeFirstSupply then 0
                       else FloorSqrt(WMul(WSub(Get(w.led0, me), r.r0), WSub(Get(w.led1, me), r.r1))) - 1000)) % TWO_256
  {
    hide FloorSqrt, GetReserves, Pack, WMul, WSub, FirstMint, LaterMint, Credit;
    if MintCall(v, me, w, to, now).Ok? {
      var s := w.pair.(unlocked := 0);
      var r := Reserve(v, w.pair);
      var amount0, amount1 := WSub(Get(w.led0, me), r.r0), WSub(Get(w.led1, me), r.r1);
      if s.totalSupply == 0 {
        FirstMintGap(v, s, amount0, amount1, to);
      } else {
        LaterMintGap(s, r.r0, r.r1, amount0, amount1, to);
      }
    }
  }

  /** Every step but a successful first mint leaves the gap alone, from any state whatever. */
  lemma StepGap(v: Variant, me: Address, w: World, a: Action)
    requires !FirstMintRuns(v, me, w, a)
    ensures Gap(Step(v, me, w, a).pair) == Gap(w.pair)
  {
    hide FloorSqrt, GetReserves, Pack, MintCall, FinishSwap, MoveShares, TokenTransfer, Destroy, Total, BurnAmounts;
    if Attempt(v, me, w, a).Ok? {
      match a
      case Mint(to, now) => MintGap(v, me, w, to, now);
      case Burn(to, now) => DestroyGap(w.pair.(unlocked := 0), me);
      case Transfer(caller, to, value) => MoveGap(w.pair, caller, to, value);
      case TransferFrom(caller, from, to, value) =>
        MoveGap(SpendAllowance(w.pair, from, caller, value).value, from, to, value);
      case Swap(out0, out1, to, now) => SwapFrame(v, me, w, out0, out1, to, now);
      case _ =>
    }
  }

  /** How often the first-mint branch runs to the end. */
  ghost function FirstMints(v: Variant, me: Address, w: World, actions: seq<Action>): nat
    decreases |actions|
  {
    if actions == [] then 0
    else (if FirstMintRuns(v, me, w, actions[0]) then 1 else 0) + FirstMints(v, me, Step(v, me, w, actions[0]), actions[1..])
  }

  ghost predicate NoFirstMint(v: Variant, me: Address, w: World, actions: seq<Action>) {
    FirstMints(v, me, w, actions) == 0
  }

  lemma {:induction false} RunGap(v: Variant, me: Address, w: World, actions: seq<Action>)
    requires NoFirstMint(v, me, w, actions)
    ensures Gap(Run(v, me, w, actions).pair) == Gap(w.pair)
    decreases |actions|
  {
    if actions != [] {
      StepGap(v, me, w, actions[0]);
      RunGap(v, me, Step(v, me, w, actions[0]), actions[1..]);
    }
  }

  /** floor(sqrt(amount0 * amount1)) for a pair whose whole balances are the first deposit. */
  ghost function FirstRoot(me: Address, w: World): nat {
    FloorSqrt(Times(Get(w.led0, me), Get(w.led1, me)))
  }

  /** As written, the first mint of a new pair opens a gap of floor(sqrt(amount0 * amount1)) - 1000. */
  lemma FreshFirstMintGap(me: Address, w: World, to: Address, now: Word)
    requires Created(w)
    ensures Gap(w.pair) == 0
    ensures var first := MintCall(AS_WRITTEN, me, w, to, now);
      first.Ok? ==> Gap(first.value.0.pair) == FirstRoot(me, w) - 1000 > 0
  {
    CreatedIsEmpty(w);
    hide *;
    if MintCall(AS_WRITTEN, me, w, to, now).Ok? {
      FreshAmounts(me, w, to, now);
      MintGap(AS_WRITTEN, me, w, to, now);
      SmallGap(FirstRoot(me, w) - 1000);
    }
  }

  lemma SmallGap(x: int)
    requires 0 <= x < TWO_128
    ensures (0 - 0 + x) % TWO_256 == x
  {
  }

  lemma CreatedIsEmpty(w: World)
    requires Created(w)
    ensures w.pair.totalSupply == 0 && Gap(w.pair) == 0 && Get(w.pair.balanceOf, ZERO_ADDRESS) == 0
    ensures Reserve(AS_WRITTEN, w.pair) == Reserves(0, 0, 0) && !AS_WRITTEN.wholeFirstSupply
  {
    GetReservesValue(false, 0);
    hide GetReserves;
  }

  lemma FreshAmounts(me: Address, w: World, to: Address, now: Word)
    requires Created(w)
    ensures MintCall(AS_WRITTEN, me, w, to, now).Ok? ==>
      && FloorSqrt(WMul(WSub(Get(w.led0, me), 0), WSub(Get(w.led1, me), 0))) == FirstRoot(me, w)
      && 1000 < FirstRoot(me, w) < TWO_128
  {
    FreshMintChecks(me, w, to, now);
    hide MintCall, FloorSqrt;
    if MintCall(AS_WRITTEN, me, w, to, now).Ok? {
      var b0, b1 := Get(w.led0, me), Get(w.led1, me);
      WSubExact(b0, 0);
      WSubExact(b1, 0);
      MulMono(b0, b1, TWO_128 - 1, TWO_128 - 1);
      assert (TWO_128 - 1) * (TWO_128 - 1) < TWO_256;
      TimesIsProduct(b0, b1);
      hide Times;
      RootIsWord(Times(b0, b1));
    }
  }

  lemma FreshMintChecks(me: Address, w: World, to: Address, now: Word)
    requires Created(w)
    ensures MintCall(AS_WRITTEN, me, w, to, now).Ok? ==>
      var b0, b1 := Get(w.led0, me), Get(w.led1, me);
      && b0 < TWO_128 && b1 < TWO_128
      && 1000 < FloorSqrt(WMul(WSub(b0, 0), WSub(b1, 0)))
  {
    hide GetReserves, Pack, FloorSqrt, WMul, WSub, WAdd;
    GetReservesValue(false, 0);
  }

  /** So, as written, the stored supply differs from the sum of the balances for good: it stays
      floor(sqrt(amount0 * amount1)) - 1000 behind for as long as the first-mint branch does not run again. */
  lemma AsWrittenGapStays(me: Address, w: World, to: Address, now: Word, actions: seq<Action>)
    requires Created(w)
    ensures var first := MintCall(AS_WRITTEN, me, w, to, now);
      first.Ok? && NoFirstMint(AS_WRITTEN, me, first.value.0, actions) ==>
        var end := Run(AS_WRITTEN, me, first.value.0, actions).pair;
        && Gap(end) == FirstRoot(me, w) - 1000
        && end.totalSupply != Total(end.balanceOf)
  {
    FreshFirstMintGap(me, w, to, now);
    hide MintCall, FirstRoot;
    var first := MintCall(AS_WRITTEN, me, w, to, now);
    if first.Ok? && NoFirstMint(AS_WRITTEN, me, first.value.0, actions) {
      RunGap(AS_WRITTEN, me, first.value.0, actions);
    }
  }

  /** Until then nothing has been issued at all, so supply and sum agree exactly. */
  lemma {:induction false} UnmintedIsEmpty(v: Variant, me: Address, w: World, actions: seq<Action>)
    requires w.pair.totalSupply == 0 && Total(w.pair.balanceOf) == 0 && NoFirstMint(v, me, w, actions)
    ensures var end := Run(v, me, w, actions).pair; end.totalSupply == 0 && Total(end.balanceOf) == 0
    decreases |actions|
  {
    if actions != [] {
      EmptyStep(v, me, w, actions[0]);
      hide FirstMintRuns, Step;
      UnmintedIsEmpty(v, me, Step(v, me, w, actions[0]), actions[1..]);
    }
  }

  lemma EmptyStep(v: Variant, me: Address, w: World, a: Action)
    requires w.pair.totalSupply == 0 && Total(w.pair.balanceOf) == 0 && !FirstMintRuns(v, me, w, a)
    ensures var s' := Step(v, me, w, a).pair; s'.totalSupply == 0 && Total(s'.balanceOf) == 0
  {
    TotalBounds(w.pair.balanceOf, me, me);
    hide FloorSqrt, GetReserves, Pack, MintCall, FinishSwap, MoveShares, TokenTransfer, Destroy, Total, BurnAmounts;
    if Attempt(v, me, w, a).Ok? {
      match a
      case Transfer(caller, to, value) => EmptyMove(w.pair, caller, to, value);
      case TransferFrom(caller, from, to, value) =>
        EmptyMove(SpendAllowance(w.pair, from, caller, value).value, from, to, value);
      case Swap(out0, out1, to, now) => SwapFrame(v, me, w, out0, out1, to, now);
      case _ =>
    }
  }

  lemma EmptyMove(s: Slots, from: Address, to: Address, value: Word)
    requires Total(s.balanceOf) == 0 && MoveShares(s, from, to, value).Ok?
    ensures var s' := MoveShares(s, from, to, value).value;
      Total(s'.balanceOf) == 0 && s'.totalSupply == s.totalSupply
  {
    var j := MoveTotal(s, from, to, value);
    hide MoveShares, Total;
  }

  // ----- the LP token's transfers, exactly

  /** While the balances sum below 2^256 a transfer succeeds exactly when the sender can pay, and moves exactly `value`. */
  lemma LpTransferExact(s: Slots, from: Address, to: Address, value: Word)
    requires Total(s.balanceOf) < TWO_256
    ensures var moved := MoveShares(s, from, to, value);
      && (moved.Ok? <==> value <= Get(s.balanceOf, from))
      && (moved.Ok? ==>
          && Moved(s.balanceOf, moved.value.balanceOf, from, to, value)
          && moved.value == s.(balanceOf := moved.value.balanceOf))
  {
    MoveSucceeds(s, from, to, value);
    hide MoveShares, Total, Get;
    if value <= Get(s.balanceOf, from) {
      var j := MoveTotal(s, from, to, value);
      MoveAccounts(s, from, to, value);
    }
  }

  lemma MoveSucceeds(s: Slots, from: Address, to: Address, value: Word)
    ensures MoveShares(s, from, to, value).Ok? <==> value <= Get(s.balanceOf, from)
  {
  }

  lemma MoveAccounts(s: Slots, from: Address, to: Address, value: Word)
    requires Total(s.balanceOf) < TWO_256 && value <= Get(s.balanceOf, from)
    ensures forall a: Address ::
      Get(MoveShares(s, from, to, value).value.balanceOf, a)
      == Get(s.balanceOf, a) - (if a == from then value else 0) + (if a == to then value else 0)
  {
    TotalBounds(s.balanceOf, from, to);
    var debited := s.balanceOf[from := Get(s.balanceOf, from) - value];
    WAddExact(Get(debited, to), value);
    hide WAdd, Total;
  }

  /** A transferFrom needs the balance and, unless it is unlimited, the allowance, which it uses up by exactly `value`. */
  lemma LpTransferFromExact(s: Slots, caller: Address, from: Address, to: Address, value: Word)
    requires Total(s.balanceOf) < TWO_256
    ensures var allowed := Get(s.allowance, (from, caller));
      var moved := MoveSharesFrom(s, caller, from, to, value);
      && (moved.Ok? <==> value <= Get(s.balanceOf, from) && (allowed == MAX_WORD || value <= allowed))
      && (moved.Ok? ==>
          && Moved(s.balanceOf, moved.value.balanceOf, from, to, value)
          && Get(moved.value.allowance, (from, caller)) == (if allowed == MAX_WORD then MAX_WORD else allowed - value)
          && (forall k :: k != (from, caller) ==> Get(moved.value.allowance, k) == Get(s.allowance, k))
          && moved.value == s.(balanceOf := moved.value.balanceOf, allowance := moved.value.allowance))
  {
    var spent := SpendAllowance(s, from, caller, value);
    if spent.Ok? { LpTransferExact(spent.value, from, to, value); }
    hide MoveShares, Moved;
  }

  // ----- with the whole first supply stored

  /** Supply is the sum of the balances, 1000 shares are out of reach, nobody may spend for the zero address. */
  ghost predicate SharesAddUp(s: Slots) {
    && Total(s.balanceOf) == s.totalSupply
    && (0 < s.totalSupply ==> 1000 <= Get(s.balanceOf, ZERO_ADDRESS))
    && forall spender: Address :: Get(s.allowance, (ZERO_ADDRESS, spender)) == 0
  }

  /** The zero address signs no call. */
  predicate Signed(a: Action) {
    match a
    case Approve(caller, _, _) => caller != ZERO_ADDRESS
    case Transfer(caller, _, _) => caller != ZERO_ADDRESS
    case TransferFrom(caller, _, _, _) => caller != ZERO_ADDRESS
    case _ => true
  }

  lemma MoveAddsUp(s: Slots, from: Address, to: Address, value: Word)
    requires SharesAddUp(s) && MoveShares(s, from, to, value).Ok?
    requires from == ZERO_ADDRESS ==> value == 0
    ensures SharesAddUp(MoveShares(s, from, to, value).value)
    ensures Get(s.balanceOf, ZERO_ADDRESS) <= Get(MoveShares(s, from, to, value).value.balanceOf, ZERO_ADDRESS)
  {
    LpTransferExact(s, from, to, value);
    hide MoveShares, Total;
  }

  lemma SpendAddsUp(s: Slots, owner: Address, spender: Address, value: Word)
    requires SharesAddUp(s) && SpendAllowance(s, owner, spender, value).Ok?
    ensures SharesAddUp(SpendAllowance(s, owner, spender, value).value)
    ensures owner == ZERO_ADDRESS ==> value == 0
    ensures SpendAllowance(s, owner, spender, value).value.balanceOf == s.balanceOf
  {
    assert Get(s.allowance, (ZERO_ADDRESS, spender)) == 0;
    hide Total;
    var s' := SpendAllowance(s, owner, spender, value).value;
    forall other: Address ensures Get(s'.allowance, (ZERO_ADDRESS, other)) == 0 {
      assert Get(s.allowance, (ZERO_ADDRESS, other)) == 0;
    }
  }

  lemma MintAddsUp(v: Variant, me: Address, w: World, to: Address, now: Word)
    requires v.wholeFirstSupply && Solvent(me, w) && Readable(v, me, w) && SharesAddUp(w.pair)
    ensures MintCall(v, me, w, to, now).Ok? ==>
      var s' := MintCall(v, me, w, to, now).value.0.pair;
      && SharesAddUp(s')
      && (0 < w.pair.totalSupply ==> Get(w.pair.balanceOf, ZERO_ADDRESS) <= Get(s'.balanceOf, ZERO_ADDRESS))
  {
    hide *;
    if MintCall(v, me, w, to, now).Ok? {
      MintExact(v, me, w, to, now);
      MintKeeps(v, me, w, to, now);
      SolventSupply(me, MintCall(v, me, w, to, now).value.0);
      MintCredits(v, me, w, to, now);
      var (w', paid) := MintCall(v, me, w, to, now).value;
      CreditsAddUp(v, w.pair, w'.pair, to, paid[0]);
    }
  }

  /** The LP table after a mint: the locked 1000 on the first one, then one credit. */
  ghost function Minted(s: Slots, to: Address, shares: Word): Ledger {
    var base := if s.totalSupply == 0 then s.balanceOf[ZERO_ADDRESS := MINIMUM_LIQUIDITY] else s.balanceOf;
    base[to := WAdd(Get(base, to), shares)]
  }

  lemma MintCredits(v: Variant, me: Address, w: World, to: Address, now: Word)
    ensures MintCall(v, me, w, to, now).Ok? ==>
      var (w', paid) := MintCall(v, me, w, to, now).value;
      && |paid| == 1
      && w'.pair.balanceOf == Minted(w.pair, to, paid[0]) && w'.pair.allowance == w.pair.allowance
  {
    MintParts(v, me, w, to, now);
    IssuedShape(v, w.pair.(unlocked := 0), Reserve(v, w.pair), Get(w.led0, me), Get(w.led1, me));
    hide MintCall, Issued, GetReserves, Pack, WAdd;
  }

  lemma CreditsAddUp(v: Variant, s: Slots, s': Slots, to: Address, shares: Word)
    requires SharesAddUp(s) && s'.balanceOf == Minted(s, to, shares) && s'.allowance == s.allowance
    requires s'.totalSupply == s.totalSupply + (if s.totalSupply == 0 then 1000 else 0) + shares < TWO_112
    ensures SharesAddUp(s')
    ensures 0 < s.totalSupply ==> Get(s.balanceOf, ZERO_ADDRESS) <= Get(s'.balanceOf, ZERO_ADDRESS)
  {
    MintedTotal(s, to, shares);
    TotalBounds(s.balanceOf, ZERO_ADDRESS, ZERO_ADDRESS);
    hide Total, Minted;
  }

  /** A mint adds its shares to the sum of the balances; a first one also puts 1000 in place of
      whatever the zero address held. */
  lemma MintedTotal(s: Slots, to: Address, shares: Word)
    requires Total(s.balanceOf) + 1000 + shares < TWO_256
    ensures Total(Minted(s, to, shares))
         == Total(s.balanceOf) + shares + (if s.totalSupply == 0 then 1000 - Get(s.balanceOf, ZERO_ADDRESS) else 0)
    ensures Get(Minted(s, to, shares), ZERO_ADDRESS) >= if s.totalSupply == 0 then 1000 else Get(s.balanceOf, ZERO_ADDRESS)
  {
    var base := if s.totalSupply == 0 then s.balanceOf[ZERO_ADDRESS := MINIMUM_LIQUIDITY] else s.balanceOf;
    TotalUpdate(s.balanceOf, ZERO_ADDRESS, MINIMUM_LIQUIDITY);
    TotalBounds(base, to, to);
    WAddExact(Get(base, to), shares);
    TotalUpdate(base, to, Get(base, to) + shares);
    hide Total, WAdd;
  }

  lemma BurnAddsUp(me: Address, w: World, to: Address, now: Word)
    requires me != ZERO_ADDRESS && SharesAddUp(w.pair)
    ensures Get(w.pair.balanceOf, me) <= w.pair.totalSupply
    ensures BurnCall(me, w, to, now).Ok? ==>
      var s' := BurnCall(me, w, to, now).value.0.pair;
      SharesAddUp(s') && Get(w.pair.balanceOf, ZERO_ADDRESS) == Get(s'.balanceOf, ZERO_ADDRESS)
  {
    var s := w.pair;
    var burned := Get(s.balanceOf, me);
    TotalUpdate(s.balanceOf, me, 0);
    TotalBounds(s.balanceOf, me, ZERO_ADDRESS);
    WSubExact(s.totalSupply, burned);
    hide Pack, BurnAmounts, TokenTransfer, Total, WSub;
    if BurnCall(me, w, to, now).Ok? {
      var s' := BurnCall(me, w, to, now).value.0.pair;
      assert s'.balanceOf == s.balanceOf[me := 0] && s'.allowance == s.allowance;
    }
  }

  /** Every step keeps the sum exact and the locked shares locked. */
  lemma StepSum(v: Variant, me: Address, w: World, a: Action)
    requires v.wholeFirstSupply && me != ZERO_ADDRESS
    requires Solvent(me, w) && InRange(v, me, w, a) && SharesAddUp(w.pair) && Signed(a)
    ensures var w' := Step(v, me, w, a);
      && SharesAddUp(w'.pair)
      && (0 < w.pair.totalSupply ==> Get(w.pair.balanceOf, ZERO_ADDRESS) <= Get(w'.pair.balanceOf, ZERO_ADDRESS))
  {
    hide Solvent, Readable, BalancesInRange, CheckFits, MintCall, BurnCall, SwapCall, SkimCall, SyncCall, MoveShares, Total, SharesAddUp, SpendAllowance;
    if Attempt(v, me, w, a).Ok? {
      match a
      case Mint(to, now) => MintAddsUp(v, me, w, to, now);
      case Burn(to, now) => BurnAddsUp(me, w, to, now);
      case Transfer(caller, to, value) => MoveAddsUp(w.pair, caller, to, value);
      case TransferFrom(caller, from, to, value) =>
        SpendAddsUp(w.pair, from, caller, value);
        MoveAddsUp(SpendAllowance(w.pair, from, caller, value).value, from, to, value);
      case Swap(out0, out1, to, now) =>
        SwapFrame(v, me, w, out0, out1, to, now);
        SumFrame(w.pair, Step(v, me, w, a).pair);
      case Approve(caller, spender, value) => ApproveAddsUp(w.pair, caller, spender, value);
      case Skim(_) => RestAddsUp(v, me, w, a);
      case Sync => RestAddsUp(v, me, w, a);
      case Initialize(_, _) => RestAddsUp(v, me, w, a);
      case TokensMove(_, _) =>
    }
  }

  /** The sum looks at the supply and the two tables only. */
  lemma SumFrame(s: Slots, s': Slots)
    requires SharesAddUp(s) && s'.totalSupply == s.totalSupply && s'.balanceOf == s.balanceOf && s'.allowance == s.allowance
    ensures SharesAddUp(s')
  {
  }

  lemma RestAddsUp(v: Variant, me: Address, w: World, a: Action)
    requires SharesAddUp(w.pair) && (a.Skim? || a.Sync? || a.Initialize?)
    ensures SharesAddUp(Step(v, me, w, a).pair) && Step(v, me, w, a).pair.balanceOf == w.pair.balanceOf
  {
    hide TokenTransfer, Pack, GetReserves, Total, SharesAddUp, WSub;
    SumFrame(w.pair, Step(v, me, w, a).pair);
  }

  lemma StepAddsUp(v: Variant, me: Address, w: World, a: Action)
    requires v.wholeFirstSupply && me != ZERO_ADDRESS
    requires Solvent(me, w) && InRange(v, me, w, a) && SharesAddUp(w.pair) && Signed(a)
    ensures HeldInRange(me, w)
    ensures SharesAddUp(Step(v, me, w, a).pair)
    ensures 0 < w.pair.totalSupply ==> 1000 <= Step(v, me, w, a).pair.totalSupply && !FirstMintRuns(v, me, w, a)
  {
    StepSum(v, me, w, a);
    SolventSupply(me, w);
    TotalBounds(w.pair.balanceOf, me, ZERO_ADDRESS);
    TotalBounds(Step(v, me, w, a).pair.balanceOf, ZERO_ADDRESS, ZERO_ADDRESS);
    hide Solvent, InRange, Step, Attempt, Total;
  }

  lemma ApproveAddsUp(s: Slots, caller: Address, spender: Address, value: Word)
    requires SharesAddUp(s) && caller != ZERO_ADDRESS
    ensures SharesAddUp(SetAllowance(s, caller, spender, value))
  {
    var s' := SetAllowance(s, caller, spender, value);
    forall other: Address ensures Get(s'.allowance, (ZERO_ADDRESS, other)) == 0 {
      assert Get(s.allowance, (ZERO_ADDRESS, other)) == 0;
    }
  }

  /** Run hypothesis with the repaired line: ranges at every state, and the zero address signs nothing. */
  ghost predicate SignedRun(v: Variant, me: Address, w: World, actions: seq<Action>)
    decreases |actions|
  {
    actions != [] ==>
      && InRange(v, me, w, actions[0]) && Signed(actions[0])
      && SignedRun(v, me, Step(v, me, w, actions[0]), actions[1..])
  }

  /** With the repaired line: supply is the sum of the balances in every state of every run, no
      burn exceeds it, and once positive it stays at least 1000, so the first mint runs at most once. */
  lemma {:induction false} RunAddsUp(v: Variant, me: Address, w: World, actions: seq<Action>)
    requires v.wholeFirstSupply && me != ZERO_ADDRESS
    requires Solvent(me, w) && SharesAddUp(w.pair) && SignedRun(v, me, w, actions)
    ensures Solvent(me, Run(v, me, w, actions)) && SharesAddUp(Run(v, me, w, actions).pair)
    ensures GoodRun(v, me, w, actions)
    ensures 0 < w.pair.totalSupply ==>
      && 1000 <= Run(v, me, w, actions).pair.totalSupply
      && NoFirstMint(v, me, w, actions) && StaysPositive(v, me, w, actions)
    decreases |actions|
  {
    TotalBounds(w.pair.balanceOf, ZERO_ADDRESS, ZERO_ADDRESS);
    if actions != [] {
      StepAddsUp(v, me, w, actions[0]);
      StepKeeps(v, me, w, actions[0]);
      hide Solvent, SharesAddUp, InRange, Step, Signed, HeldInRange, FirstMintRuns;
      RunAddsUp(v, me, Step(v, me, w, actions[0]), actions[1..]);
    }
  }

  /** From pair creation on, with the repaired line. */
  lemma ReachableAddsUp(v: Variant, me: Address, w: World, actions: seq<Action>)
    requires v.wholeFirstSupply && me != ZERO_ADDRESS
    requires Created(w) && SignedRun(v, me, w, actions)
    ensures var end := Run(v, me, w, actions);
      && Solvent(me, end)
      && Total(end.pair.balanceOf) == end.pair.totalSupply
      && (0 < end.pair.totalSupply ==> 1000 <= Get(end.pair.balanceOf, ZERO_ADDRESS) && 1000 <= end.pair.totalSupply)
  {
    CreatedReads(v, me, w);
    RunAddsUp(v, me, w, actions);
    var end := Run(v, me, w, actions);
    TotalBounds(end.pair.balanceOf, ZERO_ADDRESS, ZERO_ADDRESS);
  }

  /** With the repaired line, value per share never falls over any run that starts after the first mint. */
  lemma RepairedShareValue(v: Variant, me: Address, w: World, actions: seq<Action>)
    requires v.wholeFirstSupply && me != ZERO_ADDRESS && 0 < w.pair.totalSupply
    requires Solvent(me, w) && SharesAddUp(w.pair) && SignedRun(v, me, w, actions)
    ensures NotDiluted(w.pair, Run(v, me, w, actions).pair)
  {
    hide *;
    RunAddsUp(v, me, w, actions);
    ShareValueNeverFalls(v, me, w, actions);
  }
}
