/** What one trade or one round trip can get out of the pair. */
module PairTrades {
  import opened Words
  import opened PackedReserves
  import opened Ledgers
  import opened PairSpec
  import opened PairSafety

  /** The constant-product quote with the 0.3% fee: what `amountIn` buys, rounded down. */
  function Quote(amountIn: nat, reserveIn: nat, reserveOut: nat): nat
    requires 0 < amountIn
  {
    Quotient(997 * amountIn * reserveOut, 1000 * reserveIn + 997 * amountIn)
  }

  /** The adjusted-product inequality, solved for the output. */
  lemma ConstantProduct(reserveIn: nat, reserveOut: nat, amountIn: nat, out: nat)
    requires out <= reserveOut && 0 < amountIn
    ensures (1000 * (reserveIn + amountIn) - 3 * amountIn) * (1000 * (reserveOut - out)) >= 1000000 * (reserveIn * reserveOut)
       <==> out <= Quote(amountIn, reserveIn, reserveOut)
  {
    var d := 1000 * reserveIn + 997 * amountIn;
    DivAtMost(997 * amountIn * reserveOut, d, out);
    Commute(d, out);
    Expanded(reserveIn, reserveOut, amountIn, out, d);
    Scaled(d, reserveOut - out);
    assert 1000 * (reserveIn + amountIn) - 3 * amountIn == d;
    hide Quotient;
  }

  lemma Expanded(reserveIn: nat, reserveOut: nat, amountIn: nat, out: nat, d: nat)
    requires out <= reserveOut && d == 1000 * reserveIn + 997 * amountIn
    ensures d * (reserveOut - out) == 1000 * (reserveIn * reserveOut) + 997 * amountIn * reserveOut - d * out
  {
    assert d * (reserveOut - out) == d * reserveOut - d * out;
    assert d * reserveOut == 1000 * reserveIn * reserveOut + 997 * amountIn * reserveOut;
  }

  lemma Scaled(d: nat, left: nat)
    ensures d * (1000 * left) == 1000 * (d * left)
  {
  }

  /** The quote never empties the reserve it pays from. */
  lemma QuoteBelowReserve(amountIn: nat, reserveIn: nat, reserveOut: nat)
    requires 0 < amountIn && 0 < reserveIn
    ensures Quote(amountIn, reserveIn, reserveOut) < reserveOut || Quote(amountIn, reserveIn, reserveOut) == 0
  {
    var out := Quote(amountIn, reserveIn, reserveOut);
    var d := 1000 * reserveIn + 997 * amountIn;
    DivAtMost(997 * amountIn * reserveOut, d, out);
    assert reserveOut * d == 1000 * (reserveIn * reserveOut) + 997 * amountIn * reserveOut;
    hide Quote;
    if 0 < out {
      MulMono(1, 1, out, d);
      if 0 < reserveOut {
        MulMono(1, 1, reserveIn, reserveOut);
        Commute(out, d);
        Commute(reserveOut, d);
        if reserveOut <= out { MulMono(d, reserveOut, d, out); }
      }
    }
  }

  // ----- swap, exactly

  /** What the pair reads back of a token after paying `out` of it to `to`. */
  function Left(l: Ledger, me: Address, to: Address, out: Word): int {
    Get(l, me) - (if to == me then 0 else out)
  }

  /** What came in of a token: the excess of what is left over the reserve less the payout. */
  function Incoming(left: int, reserve: int, out: int): int {
    if left + out > reserve then left + out - reserve else 0
  }

  /** The whole of `swap`'s conditions, in plain integers and against the reserves as they are read. */
  ghost predicate SwapAccepted(v: Variant, me: Address, w: World, out0: Word, out1: Word, to: Address, now: Word) {
    var r := Reserve(v, w.pair);
    var left0, left1 := Left(w.led0, me, to, out0), Left(w.led1, me, to, out1);
    var in0, in1 := Incoming(left0, r.r0, out0), Incoming(left1, r.r1, out1);
    && w.pair.unlocked == 1 && now < TWO_32
    && (0 < out0 || 0 < out1) && out0 < r.r0 && out1 < r.r1
    && to != w.pair.token0 && to != w.pair.token1
    && 0 <= left0 && 0 <= left1 && out0 <= Get(w.led0, me) && out1 <= Get(w.led1, me)
    && (0 < in0 || 0 < in1)
    && FeeCheck(left0, in0, left1, in1, r.r0, r.r1)
  }

  lemma PayOutIff(l: Ledger, me: Address, to: Address, out: Word)
    requires Total(l) < TWO_256
    ensures var paid := PayOut(l, me, to, out);
      && (paid.Ok? <==> out <= Get(l, me))
      && (paid.Ok? ==> Get(paid.value, me) == Left(l, me, to, out) >= 0)
  {
    TransferSucceeds(l, me, to, out);
    TransferStays(l, me, to, out);
    hide TokenTransfer, Total;
  }

  lemma IncomingExact(left: Word, reserve: Word, out: Word)
    requires out < reserve
    ensures AmountIn(left, reserve, out) == Incoming(left, reserve, out) <= left
  {
    AmountInExact(left, reserve, out);
    hide AmountIn;
  }

  lemma SwapFinish(s: Slots, r: Reserves, out0: Word, out1: Word, left0: Word, left1: Word, now: Word)
    requires r.r0 < TWO_112 && r.r1 < TWO_128 && left0 < TWO_112 && left1 < TWO_112 && out0 < r.r0 && out1 < r.r1
    ensures var in0, in1 := Incoming(left0, r.r0, out0), Incoming(left1, r.r1, out1);
      FinishSwap(s, r, out0, out1, left0, left1, now).Ok? <==>
        (0 < in0 || 0 < in1) && now < TWO_32 && FeeCheck(left0, in0, left1, in1, r.r0, r.r1)
  {
    SwapCheckExact(s, r, out0, out1, left0, left1, now);
    IncomingExact(left0, r.r0, out0);
    IncomingExact(left1, r.r1, out1);
    hide FinishSwap, AmountIn, Incoming, FeeCheck, Fields;
  }

  /** `swap` without 256-bit words but for the residue in its check, for every pair of outputs, every
      recipient, the pair included, and whatever the reserves decode to. */
  lemma SwapExact(v: Variant, me: Address, w: World, out0: Word, out1: Word, to: Address, now: Word)
    requires BalancesInRange(me, w) && Total(w.led0) < TWO_256 && Total(w.led1) < TWO_256
    ensures SwapCall(v, me, w, out0, out1, to, now).Ok? <==> SwapAccepted(v, me, w, out0, out1, to, now)
  {
    ReadingBounds(v, w.pair);
    PayOutIff(w.led0, me, to, out0);
    PayOutIff(w.led1, me, to, out1);
    SwapParts(v, me, w, out0, out1, to, now);
    hide Fields, GetReserves, SwapCall, FinishSwap, PayOut, Left, Incoming, FeeCheck, Total, ExactDecode;
    var r := Reserve(v, w.pair);
    if out0 < r.r0 && out1 < r.r1 && out0 <= Get(w.led0, me) && out1 <= Get(w.led1, me) {
      LeftBelow(w.led0, me, to, out0);
      LeftBelow(w.led1, me, to, out1);
      SwapFinish(w.pair.(unlocked := 0), r, out0, out1, Left(w.led0, me, to, out0), Left(w.led1, me, to, out1), now);
    }
  }

  lemma LeftBelow(l: Ledger, me: Address, to: Address, out: Word)
    ensures Left(l, me, to, out) <= Get(l, me)
  {
  }

  // ----- selling one token for the other

  /** An honest recipient: neither token contract nor the pair itself. */
  ghost predicate Outside(me: Address, w: World, to: Address) {
    to != w.pair.token0 && to != w.pair.token1 && to != me
  }

  ghost predicate ReadyToSwap(v: Variant, me: Address, w: World, to: Address, now: Word) {
    && w.pair.unlocked == 1 && now < TWO_32
    && Readable(v, me, w) && Outside(me, w, to)
    && Total(w.led0) < TWO_256 && Total(w.led1) < TWO_256
  }

  lemma FeeCheckIsQuote(reserveIn: nat, reserveOut: nat, amountIn: nat, out: nat)
    requires out <= reserveOut && 0 < amountIn && reserveIn < TWO_112 && reserveOut < TWO_112
    ensures FeeCheck(reserveIn + amountIn, amountIn, reserveOut - out, 0, reserveIn, reserveOut) <==> out <= Quote(amountIn, reserveIn, reserveOut)
    ensures FeeCheck(reserveOut - out, 0, reserveIn + amountIn, amountIn, reserveOut, reserveIn) <==> out <= Quote(amountIn, reserveIn, reserveOut)
  {
    hide Quote, FeeCheck;
    FeeCheckIsProduct(reserveIn + amountIn, amountIn, reserveOut - out, 0, reserveIn, reserveOut);
    FeeCheckIsProduct(reserveOut - out, 0, reserveIn + amountIn, amountIn, reserveOut, reserveIn);
    ProductFits(reserveIn, reserveOut);
    ConstantProduct(reserveIn, reserveOut, amountIn, out);
    Commute(1000 * (reserveOut - out), 1000 * (reserveIn + amountIn) - 3 * amountIn);
    Commute(reserveOut, reserveIn);
  }

  /** Selling token0: accepted exactly up to the quote (and never against an empty reserve). */
  lemma SellToken0Iff(v: Variant, me: Address, w: World, out1: Word, to: Address, now: Word)
    requires ReadyToSwap(v, me, w, to, now) && 0 < out1
    requires var f := Fields(w.pair.reserves); f.r0 < Get(w.led0, me) && f.r1 == Get(w.led1, me)
    ensures var f := Fields(w.pair.reserves);
      SwapCall(v, me, w, 0, out1, to, now).Ok?
      <==> 0 < f.r0 && out1 <= Quote(Get(w.led0, me) - f.r0, f.r0, f.r1)
  {
    ReadyFacts(v, me, w, to, now);
    Sell0Check(v, me, w, out1, to, now);
    hide *;
    SwapExact(v, me, w, 0, out1, to, now);
  }

  lemma ReadyFacts(v: Variant, me: Address, w: World, to: Address, now: Word)
    requires ReadyToSwap(v, me, w, to, now)
    ensures BalancesInRange(me, w) && Total(w.led0) < TWO_256 && Total(w.led1) < TWO_256
  {
  }

  /** Against a non-empty reserve, the payout is below the other reserve and passes the fee check
      exactly when it is at most the quote. */
  lemma SaleIsQuote(reserveIn: nat, reserveOut: nat, balance: nat, out: nat)
    requires reserveIn < balance && 0 < out && reserveIn < TWO_112 && reserveOut < TWO_112
    ensures var quoted := 0 < reserveIn && out <= Quote(balance - reserveIn, reserveIn, reserveOut);
      && (0 < reserveIn && out < reserveOut && FeeCheck(balance, balance - reserveIn, reserveOut - out, 0, reserveIn, reserveOut)
          <==> quoted)
      && (0 < reserveIn && out < reserveOut && FeeCheck(reserveOut - out, 0, balance, balance - reserveIn, reserveOut, reserveIn)
          <==> quoted)
  {
    if out < reserveOut { FeeCheckIsQuote(reserveIn, reserveOut, balance - reserveIn, out); }
    if 0 < reserveIn { QuoteBelowReserve(balance - reserveIn, reserveIn, reserveOut); }
    hide Quote, FeeCheck;
  }

  /** A one-sided sale is decided by the two reserves and the fee check, that is by the quote. */
  lemma Sell0Check(v: Variant, me: Address, w: World, out1: Word, to: Address, now: Word)
    requires ReadyToSwap(v, me, w, to, now) && 0 < out1
    requires var f := Fields(w.pair.reserves); f.r0 < Get(w.led0, me) && f.r1 == Get(w.led1, me)
    ensures var f := Fields(w.pair.reserves);
      SwapAccepted(v, me, w, 0, out1, to, now) <==> 0 < f.r0 && out1 <= Quote(Get(w.led0, me) - f.r0, f.r0, f.r1)
  {
    ReadingBounds(v, w.pair);
    hide Fields, GetReserves, FeeCheck, Total, Quote;
    var f := Fields(w.pair.reserves);
    SaleIsQuote(f.r0, f.r1, Get(w.led0, me), out1);
  }

  lemma Sell1Check(v: Variant, me: Address, w: World, out0: Word, to: Address, now: Word)
    requires ReadyToSwap(v, me, w, to, now) && 0 < out0
    requires var f := Fields(w.pair.reserves); f.r1 < Get(w.led1, me) && f.r0 == Get(w.led0, me)
    ensures var f := Fields(w.pair.reserves);
      SwapAccepted(v, me, w, out0, 0, to, now) <==> 0 < f.r1 && out0 <= Quote(Get(w.led1, me) - f.r1, f.r1, f.r0)
  {
    ReadingBounds(v, w.pair);
    hide Fields, GetReserves, FeeCheck, Total, Quote;
    var f := Fields(w.pair.reserves);
    SaleIsQuote(f.r1, f.r0, Get(w.led1, me), out0);
  }

  /** Selling token1, symmetrically. */
  lemma SellToken1Iff(v: Variant, me: Address, w: World, out0: Word, to: Address, now: Word)
    requires ReadyToSwap(v, me, w, to, now) && 0 < out0
    requires var f := Fields(w.pair.reserves); f.r1 < Get(w.led1, me) && f.r0 == Get(w.led0, me)
    ensures var f := Fields(w.pair.reserves);
      SwapCall(v, me, w, out0, 0, to, now).Ok?
      <==> 0 < f.r1 && out0 <= Quote(Get(w.led1, me) - f.r1, f.r1, f.r0)
  {
    ReadyFacts(v, me, w, to, now);
    Sell1Check(v, me, w, out0, to, now);
    hide *;
    SwapExact(v, me, w, out0, 0, to, now);
  }

  lemma Commute(a: nat, b: nat)
    ensures a * b == b * a
  {
  }

  // ----- deposit and leave

  /** Shares bought at the floored rate redeem for at most the deposit. */
  lemma RedeemAtMostDeposit(supply: nat, r: nat, a: nat, shares: nat)
    requires 0 < supply && 0 < r && shares <= ShareOf(a, supply, r)
    ensures ShareOf(shares, r + a, supply + shares) <= a
  {
    var paid := ShareOf(shares, r + a, supply + shares);
    ShareLaw(a, supply, r, shares);
    ShareLaw(shares, r + a, supply + shares, paid);
    hide ShareOf;
    PaidAtMost(supply, r, a, shares, paid);
  }

  lemma PaidAtMost(supply: nat, r: nat, a: nat, shares: nat, paid: nat)
    requires 0 < supply && shares * r <= a * supply && paid * (supply + shares) <= shares * (r + a)
    ensures paid <= a
  {
    assert (a + 1) * (supply + shares) == a * supply + a * shares + supply + shares;
    assert shares * (r + a) == shares * r + shares * a;
    Commute(shares, a);
    if a < paid { MulMono(a + 1, supply + shares, paid, supply + shares); }
  }

  /** A mint to `u`, `u`'s transfer of what it minted to the pair, and the burn of that. */
  ghost function RoundTrip(v: Variant, me: Address, w: World, u: Address, now1: Word, to: Address, now2: Word): Reply {
    var (w1, minted) :- MintCall(v, me, w, u, now1);
    if |minted| != 1 then Halted(Trapped)
    else
      var (w2, _) :- Attempt(v, me, w1, Transfer(u, me, minted[0]));
      BurnCall(me, w2, to, now2)
  }

  /** A later mint to `u`, the transfer of exactly those shares to a pair holding no others, and
      the burn that follows pay out at most what the mint took in. */
  lemma DepositAndLeave(v: Variant, me: Address, w: World, u: Address, now1: Word, to: Address, now2: Word)
    requires Solvent(me, w) && Readable(v, me, w)
    requires 0 < w.pair.totalSupply && Get(w.pair.balanceOf, me) == 0
    ensures var left := RoundTrip(v, me, w, u, now1, to, now2);
      left.Ok? ==>
        var paid, f := left.value.1, Fields(w.pair.reserves);
        |paid| == 2 && paid[0] <= Get(w.led0, me) - f.r0 && paid[1] <= Get(w.led1, me) - f.r1
  {
    hide MintCall, BurnCall, Attempt, Solvent, Readable, Fields, ShareOf, SharesFor, Get, GetReserves, WSub, SwapCall;
    if RoundTrip(v, me, w, u, now1, to, now2).Ok? {
      MintExact(v, me, w, u, now1);
      NumbersAreSmall(v, me, w);
      MintThenSend(v, me, w, u, now1);
      var (w1, minted) := MintCall(v, me, w, u, now1).value;
      var w2 := Attempt(v, me, w1, Transfer(u, me, minted[0])).value.0;
      var f := Fields(w.pair.reserves);
      var supply := w.pair.totalSupply;
      SharesAtMost(supply, f, Get(w.led0, me) - f.r0, Get(w.led1, me) - f.r1);
      RedeemAtMostDeposit(supply, f.r0, Get(w.led0, me) - f.r0, minted[0]);
      RedeemAtMostDeposit(supply, f.r1, Get(w.led1, me) - f.r1, minted[0]);
      BurnPays(me, w2, to, now2);
    }
  }

  /** What any burn of at most the supply pays, whatever the reserves decode to. */
  lemma BurnPays(me: Address, w: World, to: Address, now: Word)
    requires 0 < w.pair.totalSupply < TWO_112 && Get(w.pair.balanceOf, me) <= w.pair.totalSupply
    requires Get(w.led0, me) < TWO_112 && Get(w.led1, me) < TWO_112
    ensures BurnCall(me, w, to, now).Ok? ==>
      var burned, supply := Get(w.pair.balanceOf, me), w.pair.totalSupply;
      BurnCall(me, w, to, now).value.1 == [ShareOf(burned, Get(w.led0, me), supply), ShareOf(burned, Get(w.led1, me), supply)]
  {
    hide ShareOf, BurnAmounts, TokenTransfer, Pack;
    BurnAmountsExact(Get(w.pair.balanceOf, me), w.pair.totalSupply, Get(w.led0, me), Get(w.led1, me));
  }

  /** The pair after the mint and the transfer: it holds exactly the new shares. */
  lemma MintThenSend(v: Variant, me: Address, w: World, u: Address, now: Word)
    requires Solvent(me, w) && Readable(v, me, w)
    requires 0 < w.pair.totalSupply && Get(w.pair.balanceOf, me) == 0
    ensures MintCall(v, me, w, u, now).Ok? ==>
      var (w1, minted) := MintCall(v, me, w, u, now).value;
      && |minted| == 1
      && (Attempt(v, me, w1, Transfer(u, me, minted[0])).Ok? ==>
          var w2 := Attempt(v, me, w1, Transfer(u, me, minted[0])).value.0;
          && Get(w2.pair.balanceOf, me) == minted[0]
          && w2.pair.totalSupply == w.pair.totalSupply + minted[0] < TWO_112
          && w2.led0 == w.led0 && w2.led1 == w.led1)
  {
    hide *;
    MintExact(v, me, w, u, now);
    MintKeeps(v, me, w, u, now);
    MintedBalance(v, me, w, u, now);
    if MintCall(v, me, w, u, now).Ok? {
      var (w1, minted) := MintCall(v, me, w, u, now).value;
      SolventSupply(me, w1);
      SharesArrive(v, me, w1, u, minted[0]);
    }
  }

  /** A later mint credits the recipient and nobody else. */
  lemma MintedBalance(v: Variant, me: Address, w: World, u: Address, now: Word)
    requires 0 < w.pair.totalSupply && Get(w.pair.balanceOf, me) == 0
    ensures MintCall(v, me, w, u, now).Ok? ==>
      var (w1, minted) := MintCall(v, me, w, u, now).value;
      && |minted| == 1
      && Get(w1.pair.balanceOf, me) == if u == me then minted[0] else 0
  {
    hide GetReserves, Pack, Quotient, WMul, WSub, FirstMint;
  }

  /** Shares sent to a pair that held none are all the shares it then holds. */
  lemma SharesArrive(v: Variant, me: Address, w: World, u: Address, shares: Word)
    requires u != me ==> Get(w.pair.balanceOf, me) == 0
    requires u == me ==> Get(w.pair.balanceOf, me) == shares
    ensures var sent := Attempt(v, me, w, Transfer(u, me, shares));
      sent.Ok? ==>
        var w' := sent.value.0;
        && Get(w'.pair.balanceOf, me) == shares
        && w'.pair.totalSupply == w.pair.totalSupply && w'.led0 == w.led0 && w'.led1 == w.led1
  {
  }
}
