/** Where products wrap after all: the right-hand side of swap's check under the 128-bit mask, and a burn
    of more than 2^144 + 2^32 shares. */
module PairWrap {
  import opened Words
  import opened PackedReserves
  import opened Ledgers
  import opened Sqrt
  import opened PairSpec
  import opened PairSafety
  import opened PairMask
  import opened PairTrades

  // ----- the swap check

  /** What is left of 1000000 * reserve0 * reserve1 in a word, over the reserves as they are read. */
  ghost function Residue(v: Variant, s: Slots): Word {
    var r := Reserve(v, s);
    Wrap(1000000 * Times(r.r0, r.r1))
  }

  ghost predicate SwapTime(me: Address, w: World, to: Address, now: Word) {
    w.pair.unlocked == 1 && now < TWO_32 && Outside(me, w, to)
  }

  /** Both reserves are there and are the balances, and the two supplies leave room for a deposit. */
  ghost predicate Synced(me: Address, w: World) {
    var f := Fields(w.pair.reserves);
    && 0 < f.r0 == Get(w.led0, me) && 0 < f.r1 == Get(w.led1, me)
    && Total(w.led0) < TWO_256 - TWO_112 && Total(w.led1) < TWO_256 - TWO_112
  }

  /** The swap is accepted and the product of the reserves it stores is at most k. */
  ghost predicate NotAbove(v: Variant, me: Address, w: World, out0: Word, out1: Word, to: Address, now: Word, k: nat) {
    var reply := SwapCall(v, me, w, out0, out1, to, now);
    reply.Ok?
    && var f' := Fields(reply.value.0.pair.reserves);
    Times(f'.r0, f'.r1) <= k
  }

  /** A deposit of (d0, d1) and a swap that is accepted but leaves no larger product than the reserves had. */
  ghost predicate FailsToGrow(v: Variant, me: Address, w: World, d0: Word, d1: Word, out0: Word, out1: Word, to: Address, now: Word) {
    && Get(w.led0, me) + d0 < TWO_112 && Get(w.led1, me) + d1 < TWO_112
    && var f := Fields(w.pair.reserves);
    NotAbove(v, me, Deposited(me, w, d0, d1), out0, out1, to, now, Times(f.r0, f.r1))
  }

  lemma DepositTotals(me: Address, w: World, d0: Word, d1: Word)
    requires Total(w.led0) < TWO_256 - TWO_112 && Total(w.led1) < TWO_256 - TWO_112
    requires Get(w.led0, me) + d0 < TWO_112 && Get(w.led1, me) + d1 < TWO_112
    ensures var w' := Deposited(me, w, d0, d1);
      && Total(w'.led0) < TWO_256 && Total(w'.led1) < TWO_256 && w'.pair == w.pair
      && Get(w'.led0, me) == Get(w.led0, me) + d0 && Get(w'.led1, me) == Get(w.led1, me) + d1
  {
    TotalUpdate(w.led0, me, Get(w.led0, me) + d0);
    TotalUpdate(w.led1, me, Get(w.led1, me) + d1);
    hide Total;
  }

  /** A swap out to someone else stores what its payouts leave. */
  lemma SwapStores(v: Variant, me: Address, w: World, out0: Word, out1: Word, to: Address, now: Word)
    requires BalancesInRange(me, w) && to != me
    ensures SwapCall(v, me, w, out0, out1, to, now).Ok? ==>
      var w' := SwapCall(v, me, w, out0, out1, to, now).value.0;
      && out0 <= Get(w.led0, me) && out1 <= Get(w.led1, me)
      && Get(w'.led0, me) == Get(w.led0, me) - out0 && Get(w'.led1, me) == Get(w.led1, me) - out1
      && Fields(w'.pair.reserves) == Reserves(Get(w'.led0, me), Get(w'.led1, me), now)
      && w'.pair.totalSupply == w.pair.totalSupply
  {
    ReadingBounds(v, w.pair);
    SwapShape(v, me, w, out0, out1, to, now);
    SwapBalances(v, me, w, out0, out1, to, now);
    hide SwapCall, GetReserves, Fields, FinishSwap, PayOut, AmountIn, FeeCheck, ExactDecode;
    if SwapCall(v, me, w, out0, out1, to, now).Ok? {
      PayOutExact(w.led0, me, to, out0);
      PayOutExact(w.led1, me, to, out1);
      var w' := SwapCall(v, me, w, out0, out1, to, now).value.0;
      SwapCheckExact(w.pair.(unlocked := 0), Reserve(v, w.pair), out0, out1, Get(w'.led0, me), Get(w'.led1, me), now);
    }
  }

  /** The most a check can reach without the product growing: something must come in of token0, and
      three thousandths of it are taken off. */
  lemma LeastLoss(r0: nat, r1: nat, x: nat, y: nat, d: nat)
    requires 0 < r0 && 0 < r1 && 0 < d && x <= r0 + d && x * y <= r0 * r1 && 3 * d <= 1000 * x
    ensures (1000 * x - 3 * d) * (1000 * y) + 3000 * (if r0 < r1 then r0 else r1) <= 1000000 * (r0 * r1)
  {
    LossTerms(x, y, d);
    if r1 <= y {
      MulMono(1, r1, d, y);
    } else {
      MulMono(r0, y, r0, r1 - 1);
      assert r0 * (r1 - 1) == r0 * r1 - r0;
      if x <= r0 {
        MulMono(x, y, r0, y);
        assert 0 <= d * y;
      } else {
        MulMono(x - r0, y, d, y);
        assert (x - r0) * y == x * y - r0 * y;
      }
    }
  }

  lemma LossTerms(x: nat, y: nat, d: nat)
    requires 3 * d <= 1000 * x
    ensures (1000 * x - 3 * d) * (1000 * y) == 1000000 * (x * y) - 3000 * (d * y)
  {
  }

  /** A check that does not wrap never lets it happen. */
  lemma FittingNeverFails(v: Variant, me: Address, w: World, d0: Word, d1: Word, out0: Word, out1: Word, to: Address, now: Word)
    requires CheckFits(v, w.pair)
    ensures !FailsToGrow(v, me, w, d0, d1, out0, out1, to, now)
  {
    if FailsToGrow(v, me, w, d0, d1, out0, out1, to, now) {
      var w' := Deposited(me, w, d0, d1);
      var f := Fields(w.pair.reserves);
      hide SwapCall, Fields, GetReserves, Times;
      SwapGrows(v, me, w', out0, out1, to, now);
      var f' := Fields(SwapCall(v, me, w', out0, out1, to, now).value.0.pair.reserves);
      TimesIsProduct(f.r0, f.r1);
      TimesIsProduct(f'.r0, f'.r1);
      assert false;
    }
  }

  lemma FailureParts(v: Variant, me: Address, w: World, d0: Word, d1: Word, out0: Word, out1: Word, to: Address, now: Word)
    requires FailsToGrow(v, me, w, d0, d1, out0, out1, to, now)
    ensures Get(w.led0, me) + d0 < TWO_112 && Get(w.led1, me) + d1 < TWO_112
    ensures var f := Fields(w.pair.reserves);
      NotAbove(v, me, Deposited(me, w, d0, d1), out0, out1, to, now, Times(f.r0, f.r1))
  {
    hide NotAbove, Deposited, Fields, Times, Get;
  }

  lemma SyncedTotals(me: Address, w: World)
    requires Synced(me, w)
    ensures Total(w.led0) < TWO_256 - TWO_112 && Total(w.led1) < TWO_256 - TWO_112
  {
  }

  lemma Outsider(me: Address, w: World, to: Address, now: Word)
    requires SwapTime(me, w, to, now)
    ensures to != me
  {
  }

  /** An accepted swap out to someone else, and what it stores. */
  lemma AcceptedAndStored(v: Variant, me: Address, w: World, out0: Word, out1: Word, to: Address, now: Word, k: nat)
    requires Get(w.led0, me) < TWO_112 && Get(w.led1, me) < TWO_112 && to != me
    requires Total(w.led0) < TWO_256 && Total(w.led1) < TWO_256
    requires NotAbove(v, me, w, out0, out1, to, now, k)
    ensures SwapAccepted(v, me, w, out0, out1, to, now)
    ensures out0 <= Get(w.led0, me) && out1 <= Get(w.led1, me)
    ensures Times(Get(w.led0, me) - out0, Get(w.led1, me) - out1) <= k
  {
    hide SwapCall, SwapAccepted, Fields, Total, Get, Times;
    SwapStores(v, me, w, out0, out1, to, now);
    SwapExact(v, me, w, out0, out1, to, now);
  }

  /** A swap that fails to grow the product needs a check that wrapped, to little enough. */
  lemma FailureNeedsResidue(v: Variant, me: Address, w: World, d0: Word, d1: Word, out0: Word, out1: Word, to: Address, now: Word)
    requires SwapTime(me, w, to, now) && Synced(me, w)
    ensures FailsToGrow(v, me, w, d0, d1, out0, out1, to, now) ==>
      var f := Fields(w.pair.reserves);
      && f.r0 + 1 < TWO_112
      && Residue(v, w.pair) + 3000 * (if f.r0 < f.r1 then f.r0 else f.r1) <= 1000000 * Times(f.r0, f.r1)
  {
    hide *;
    if FailsToGrow(v, me, w, d0, d1, out0, out1, to, now) {
      if CheckFits(v, w.pair) { FittingNeverFails(v, me, w, d0, d1, out0, out1, to, now); }
      FailureParts(v, me, w, d0, d1, out0, out1, to, now);
      Outsider(me, w, to, now);
      SyncedTotals(me, w);
      DepositTotals(me, w, d0, d1);
      var f := Fields(w.pair.reserves);
      AcceptedAndStored(v, me, Deposited(me, w, d0, d1), out0, out1, to, now, Times(f.r0, f.r1));
      WrappedFailure(v, me, w, Deposited(me, w, d0, d1), d0, d1, out0, out1, to, now);
    }
  }

  lemma WrappedFailure(v: Variant, me: Address, w: World, w': World, d0: Word, d1: Word, out0: Word, out1: Word, to: Address, now: Word)
    requires SwapTime(me, w, to, now) && Synced(me, w) && !CheckFits(v, w.pair)
    requires w'.pair == w.pair && Get(w'.led0, me) == Get(w.led0, me) + d0 < TWO_112 && Get(w'.led1, me) == Get(w.led1, me) + d1 < TWO_112
    requires SwapAccepted(v, me, w', out0, out1, to, now)
    requires var f := Fields(w.pair.reserves);
      Times(Get(w'.led0, me) - out0, Get(w'.led1, me) - out1) <= Times(f.r0, f.r1)
    ensures var f := Fields(w.pair.reserves);
      && f.r0 + 1 < TWO_112
      && Residue(v, w.pair) + 3000 * (if f.r0 < f.r1 then f.r0 else f.r1) <= 1000000 * Times(f.r0, f.r1)
  {
    ReadingBounds(v, w.pair);
    FittingDecode(v, w.pair);
    hide Fields, GetReserves, Times, Wrap, CheckFits, ExactDecode, Total;
    var f := Fields(w.pair.reserves);
    var x: nat, y: nat := Get(w'.led0, me) - out0, Get(w'.led1, me) - out1;
    assert Incoming(y, Reserve(v, w.pair).r1, out1) == 0;
    assert Incoming(x, f.r0, out0) == d0 && 0 < d0;
    TimesIsProduct(x, y);
    TimesIsProduct(f.r0, f.r1);
    TimesIsProduct(1000 * x - 3 * d0, 1000 * y);
    LeastLoss(f.r0, f.r1, x, y, d0);
  }

  /** A right decode always fits. */
  lemma FittingDecode(v: Variant, s: Slots)
    ensures ExactDecode(v, s) ==> CheckFits(v, s)
  {
    ReadingBounds(v, s);
    hide ExactDecode, GetReserves, Fields, Times;
    if ExactDecode(v, s) {
      var r := Reserve(v, s);
      ProductFits(r.r0, r.r1);
      TimesIsProduct(r.r0, r.r1);
    }
  }

  lemma OneInOneOut(v: Variant, me: Address, w: World, to: Address, now: Word)
    requires SwapTime(me, w, to, now)
    requires var f := Fields(w.pair.reserves);
      && 1 < f.r0 && 0 < f.r1 && Get(w.led0, me) == f.r0 + 1 && Get(w.led1, me) == f.r1
      && Residue(v, w.pair) + 3000 * f.r1 <= 1000000 * Times(f.r0, f.r1)
    ensures SwapAccepted(v, me, w, 1, 0, to, now)
  {
    ReadingBounds(v, w.pair);
    hide Fields, GetReserves, Times, Wrap, ExactDecode;
    var f := Fields(w.pair.reserves);
    TimesIsProduct(f.r0, f.r1);
    TimesIsProduct(1000 * f.r0 - 3, 1000 * f.r1);
    LossTerms(f.r0, f.r1, 1);
  }

  /** One unit of token0 in and one out: the product is what it was, and the check lets it pass when the
      residue is at most 1000000 * reserve0 * reserve1 - 3000 * reserve1. */
  lemma ResidueLetsFailure(v: Variant, me: Address, w: World, to: Address, now: Word)
    requires SwapTime(me, w, to, now) && Synced(me, w)
    requires var f := Fields(w.pair.reserves);
      f.r0 + 1 < TWO_112 && Residue(v, w.pair) + 3000 * f.r1 <= 1000000 * Times(f.r0, f.r1)
    ensures FailsToGrow(v, me, w, 1, 0, 1, 0, to, now)
  {
    FieldsBounds(w.pair.reserves);
    SmallReserveFits(v, me, w);
    DepositTotals(me, w, 1, 0);
    var w' := Deposited(me, w, 1, 0);
    hide Deposited, SwapCall, Fields, Total, Residue, Times, SwapAccepted;
    OneInOneOut(v, me, w', to, now);
    SwapExact(v, me, w', 1, 0, to, now);
    SwapStores(v, me, w', 1, 0, to, now);
  }

  /** With a single unit of token0 in reserve nothing wraps, and the residue is too large. */
  lemma SmallReserveFits(v: Variant, me: Address, w: World)
    requires Synced(me, w)
    requires var f := Fields(w.pair.reserves); Residue(v, w.pair) + 3000 * f.r1 <= 1000000 * Times(f.r0, f.r1)
    ensures 1 < Fields(w.pair.reserves).r0
  {
    ReadingBounds(v, w.pair);
    hide Fields, GetReserves, Total, ExactDecode;
    var f, r := Fields(w.pair.reserves), Reserve(v, w.pair);
    if f.r0 == 1 {
      TimesIsProduct(1, f.r1);
      TimesIsProduct(1, r.r1);
      hide Times;
    }
  }

  /** So, where reserve1 is no larger than reserve0, some deposit and swap fail to grow the product exactly when the
      residue is at most 1000000 * reserve0 * reserve1 - 3000 * reserve1 and there is room for a deposit;
      in general that is enough, and min(reserve0, reserve1) in its place is necessary. */
  lemma SomeSwapFailsIff(v: Variant, me: Address, w: World, to: Address, now: Word)
    requires SwapTime(me, w, to, now) && Synced(me, w)
    ensures var f := Fields(w.pair.reserves);
      var some := exists d0: Word, d1: Word, out0: Word, out1: Word :: FailsToGrow(v, me, w, d0, d1, out0, out1, to, now);
      var room, scaled, residue := f.r0 + 1 < TWO_112, 1000000 * Times(f.r0, f.r1), Residue(v, w.pair);
      && (room && residue + 3000 * f.r1 <= scaled ==> some)
      && (some ==> room && residue + 3000 * (if f.r0 < f.r1 then f.r0 else f.r1) <= scaled)
      && (f.r1 <= f.r0 ==> (some <==> room && residue + 3000 * f.r1 <= scaled))
  {
    var f := Fields(w.pair.reserves);
    hide FailsToGrow, Residue, Fields, Times, SwapTime, Synced;
    forall d0: Word, d1: Word, out0: Word, out1: Word
      ensures FailsToGrow(v, me, w, d0, d1, out0, out1, to, now) ==>
        && f.r0 + 1 < TWO_112
        && Residue(v, w.pair) + 3000 * (if f.r0 < f.r1 then f.r0 else f.r1) <= 1000000 * Times(f.r0, f.r1)
    {
      FailureNeedsResidue(v, me, w, d0, d1, out0, out1, to, now);
    }
    if f.r0 + 1 < TWO_112 && Residue(v, w.pair) + 3000 * f.r1 <= 1000000 * Times(f.r0, f.r1) {
      ResidueLetsFailure(v, me, w, to, now);
    }
  }

  /** The same residue decides whether one unit of token0 buys all of token1 but one unit. */
  lemma DrainIff(v: Variant, me: Address, w: World, to: Address, now: Word)
    requires SwapTime(me, w, to, now) && BalancesInRange(me, w) && Total(w.led0) < TWO_256 && Total(w.led1) < TWO_256
    requires var f := Fields(w.pair.reserves);
      0 < f.r0 && f.r0 + 1 == Get(w.led0, me) && 2 <= f.r1 == Get(w.led1, me)
    ensures var f := Fields(w.pair.reserves);
      var reply := SwapCall(v, me, w, 0, f.r1 - 1, to, now);
      && (reply.Ok? <==> Residue(v, w.pair) <= 1000 * (1000 * (f.r0 + 1) - 3))
      && (reply.Ok? ==>
          && Get(reply.value.0.led0, me) == f.r0 + 1 && Get(reply.value.0.led1, me) == 1
          && Fields(reply.value.0.pair.reserves) == Reserves(f.r0 + 1, 1, now)
          && reply.value.0.pair.totalSupply == w.pair.totalSupply)
  {
    ReadingBounds(v, w.pair);
    var f, r := Fields(w.pair.reserves), Reserve(v, w.pair);
    hide SwapCall, Fields, Total, GetReserves, Times, Wrap, ExactDecode;
    TimesIsProduct(1000 * (f.r0 + 1) - 3, 1000);
    SwapExact(v, me, w, 0, f.r1 - 1, to, now);
    SwapStores(v, me, w, 0, f.r1 - 1, to, now);
    assert Incoming(1, r.r1, f.r1 - 1) == 0 && Incoming(f.r0 + 1, f.r0, 0) == 1;
  }

  // ----- a run that drains token1

  const DRAIN0: Word := 4763953101398921946549342332420096
  const DRAIN1: Word := 1267650600228229401499998879794

  lemma DrainResidue(v: Variant, s: Slots)
    requires !v.narrowMask && Fields(s.reserves).r0 == DRAIN0 && Fields(s.reserves).r1 == DRAIN1
    ensures !CheckFits(v, s) && Residue(v, s) <= 1000 * (1000 * (DRAIN0 + 1) - 3)
  {
    GetReservesValue(v.narrowMask, s.reserves);
    hide GetReserves, Fields;
    var r := Reserve(v, s);
    TimesIsProduct(r.r0, r.r1);
    WrapIsRemainder(1000000 * Times(r.r0, r.r1));
    hide Times, Wrap;
  }

  lemma DrainRoot()
    ensures TWO_32 * TWO_32 <= FloorSqrt(Times(DRAIN0, DRAIN1))
  {
    TimesIsProduct(DRAIN0, DRAIN1);
    hide Times, FloorSqrt;
    RootAtLeast(DRAIN0 * DRAIN1, TWO_32 * TWO_32);
  }

  /** With the supply unchanged and next to no token1 left. */
  lemma DrainedShares(me: Address, w: World, w': World)
    requires 0 < w.pair.totalSupply == w'.pair.totalSupply
    requires var f, f' := Fields(w.pair.reserves), Fields(w'.pair.reserves);
      f.r0 == DRAIN0 && f.r1 == DRAIN1 && f'.r0 == DRAIN0 + 1 && f'.r1 == 1
    ensures !NotDiluted(w.pair, w'.pair)
    ensures TWO_32 * TWO_32 <= w.pair.totalSupply ==> !Solvent(me, w')
  {
    hide Fields;
    var t := w.pair.totalSupply;
    MulMono(1, 1, t, t);
    if TWO_32 * TWO_32 <= t { MulMono(TWO_32 * TWO_32, TWO_32 * TWO_32, t, t); }
    Diluted(w.pair, w'.pair);
  }

  /** A first deposit of those two amounts, one more unit of token0, and a swap for all of token1 but one
      unit: accepted under the 128-bit mask, from a solvent state. */
  lemma DrainRun(v: Variant, me: Address, w: World, u: Address, now1: Word, moved: Ledger, to: Address, now2: Word)
    requires !v.narrowMask && Created(w) && now1 < TWO_32 && now2 < TWO_32 && Outside(me, w, to)
    requires Get(w.led0, me) == DRAIN0 && Get(w.led1, me) == DRAIN1 && Get(moved, me) == DRAIN0 + 1
    requires Total(moved) < TWO_256 && Total(w.led1) < TWO_256
    ensures var w2 := Run(v, me, w, [Mint(u, now1), TokensMove(moved, w.led1)]);
      var reply := SwapCall(v, me, w2, 0, DRAIN1 - 1, to, now2);
      && Solvent(me, w2) && 0 < w2.pair.totalSupply
      && reply.Ok?
      && Get(reply.value.0.led0, me) == DRAIN0 + 1 && Get(reply.value.0.led1, me) == 1
      && !NotDiluted(w2.pair, reply.value.0.pair)
      && (v.wholeFirstSupply ==> !Solvent(me, reply.value.0))
  {
    DrainRoot();
    DrainStart(v, me, w, u, now1, moved);
    TwoSteps(v, me, w, Mint(u, now1), TokensMove(moved, w.led1));
    var w2 := Run(v, me, w, [Mint(u, now1), TokensMove(moved, w.led1)]);
    DrainResidue(v, w2.pair);
    hide Fields, Total, Run, SwapCall, Created, Residue, CheckFits, FloorSqrt, Times, Step;
    DrainIff(v, me, w2, to, now2);
    DrainedShares(me, w2, SwapCall(v, me, w2, 0, DRAIN1 - 1, to, now2).value.0);
  }

  lemma MintTokens(v: Variant, me: Address, w: World, to: Address, now: Word)
    ensures var reply := MintCall(v, me, w, to, now);
      reply.Ok? ==> reply.value.0.pair.token0 == w.pair.token0 && reply.value.0.pair.token1 == w.pair.token1
  {
    MintParts(v, me, w, to, now);
    IssuedShape(v, w.pair.(unlocked := 0), Reserve(v, w.pair), Get(w.led0, me), Get(w.led1, me));
    hide MintCall, Issued, GetReserves, Pack, WAdd;
  }

  lemma DrainStart(v: Variant, me: Address, w: World, u: Address, now: Word, moved: Ledger)
    requires !v.narrowMask && Created(w) && now < TWO_32
    requires Get(w.led0, me) == DRAIN0 && Get(w.led1, me) == DRAIN1 && Get(moved, me) == DRAIN0 + 1
    requires TWO_32 * TWO_32 <= FloorSqrt(Times(DRAIN0, DRAIN1))
    ensures var w2 := Step(v, me, Step(v, me, w, Mint(u, now)), TokensMove(moved, w.led1));
      && Solvent(me, w2) && w2.pair.unlocked == 1 && w2.led0 == moved && w2.led1 == w.led1
      && w2.pair.totalSupply == (if v.wholeFirstSupply then FloorSqrt(Times(DRAIN0, DRAIN1)) else 1000)
      && Fields(w2.pair.reserves) == Reserves(DRAIN0, DRAIN1, now)
      && w2.pair.token0 == w.pair.token0 && w2.pair.token1 == w.pair.token1
  {
    MintTokens(v, me, w, u, now);
    MintStep(v, me, w, u, now);
    NewPairMint(v, me, w, u, now);
    hide MintCall, Fields, FloorSqrt, Times;
    TokensArrive(v, me, Step(v, me, w, Mint(u, now)), moved, w.led1);
    hide Step, Solvent, Created;
    SolventAfterArrival(me, Step(v, me, w, Mint(u, now)), Step(v, me, Step(v, me, w, Mint(u, now)), TokensMove(moved, w.led1)));
  }

  // ----- a burn beyond the bound

  /** The bound on the shares the pair holds is the largest there is: with one share more, one stored share
      and both balances at 2^112 - 1, a burn of far more than the supply goes through, and the stored
      supply wraps below zero. */
  lemma HeldBoundIsSharp(me: Address, w: World, to: Address, now: Word)
    requires w.pair.unlocked == 1 && now < TWO_32 && w.pair.totalSupply == 1
    requires Get(w.led0, me) == TWO_112 - 1 && Get(w.led1, me) == TWO_112 - 1
    requires Total(w.led0) < TWO_256 && Total(w.led1) < TWO_256
    requires Fields(w.pair.reserves).r0 == TWO_112 - 1 && Fields(w.pair.reserves).r1 == TWO_112 - 1
    requires Get(w.pair.balanceOf, me) == TWO_144 + TWO_32 + 1
    ensures Solvent(me, w) && BalancesInRange(me, w)
    ensures var reply := BurnCall(me, w, to, now);
      && reply.Ok?
      && reply.value.1 == [TWO_112 - TWO_32 - 1, TWO_112 - TWO_32 - 1]
      && reply.value.0.pair.totalSupply == TWO_256 - TWO_144 - TWO_32
      && !Solvent(me, reply.value.0)
  {
    WrappedPayment();
    var paid: Word := TWO_112 - TWO_32 - 1;
    MulMono(1, 1, TWO_112 - 1, TWO_112 - 1);
    TransferSucceeds(w.led0, me, to, paid);
    TransferSucceeds(w.led1, me, to, paid);
    TransferStays(w.led0, me, to, paid);
    TransferStays(w.led1, me, to, paid);
    hide Fields, Total, TokenTransfer, WMul, Quotient, Pack, WSub;
    NegativeWord(1, TWO_144 + TWO_32 + 1);
    WideSupply(me, BurnCall(me, w, to, now).value.0);
  }

  lemma WrappedPayment()
    ensures Quotient(WMul(TWO_144 + TWO_32 + 1, TWO_112 - 1), 1) == TWO_112 - TWO_32 - 1
  {
    WMulIsModular(TWO_144 + TWO_32 + 1, TWO_112 - 1);
    QuotientIsDivision(TWO_112 - TWO_32 - 1, 1);
    hide WMul, Quotient;
    assert (TWO_144 + TWO_32 + 1) * (TWO_112 - 1) == TWO_256 + (TWO_112 - TWO_32 - 1);
  }
}
