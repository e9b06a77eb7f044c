/** Every reachable state, whichever supply line is used: the sum of the LP balances runs ahead of the
    stored supply by an exact amount, which keeps the pair's own shares in range. */
module PairReach {
  import opened Words
  import opened PackedReserves
  import opened Ledgers
  import opened Sqrt
  import opened PairSpec
  import opened PairSafety
  import opened PairSupply

  /** The shares credited beyond the stored supply. */
  ghost function Excess(s: Slots): int {
    Total(s.balanceOf) - s.totalSupply
  }

  /** A bound on the excess under which no credit of a solvent pair wraps. */
  ghost predicate ExcessInRange(s: Slots) {
    0 <= Excess(s) <= TWO_144 - TWO_112
  }

  /** What a first mint adds to the excess: the shares it credits but does not store, less the balance
      of the zero address that it overwrites. */
  ghost function Opened(v: Variant, me: Address, w: World): int {
    var r := Reserve(v, w.pair);
    var root := FloorSqrt(Times(WSub(Get(w.led0, me), r.r0), WSub(Get(w.led1, me), r.r1)));
    (if v.wholeFirstSupply then 0 else root - 1000) - Get(w.pair.balanceOf, ZERO_ADDRESS)
  }

  lemma SharesBelowTotal(me: Address, w: World)
    requires Solvent(me, w) && ExcessInRange(w.pair)
    ensures HeldInRange(me, w) && Total(w.pair.balanceOf) < TWO_144
  {
    SolventSupply(me, w);
    TotalBounds(w.pair.balanceOf, me, me);
    hide Total, Solvent;
  }

  /** In range, what a first mint opens is the shares it earns, all below 2^112. */
  lemma OpenedIsShares(v: Variant, me: Address, w: World)
    requires Solvent(me, w) && Readable(v, me, w)
    ensures var r := Reserve(v, w.pair);
      && r.r0 <= Get(w.led0, me) && r.r1 <= Get(w.led1, me)
      && var shares := SharesFor(0, r, Get(w.led0, me) - r.r0, Get(w.led1, me) - r.r1);
      && shares < TWO_112 - 1000
      && Opened(v, me, w) == (if v.wholeFirstSupply then 0 else shares) - Get(w.pair.balanceOf, ZERO_ADDRESS)
  {
    NumbersAreSmall(v, me, w);
    var r := Reserve(v, w.pair);
    SmallRoot(Get(w.led0, me) - r.r0, Get(w.led1, me) - r.r1);
    hide Solvent, Readable, FloorSqrt, Times, ShareOf, WSub, GetReserves, Fields, Reserve;
  }

  /** What a mint in range returns and adds to the supply, for the sum over the balances. */
  lemma MintOutcome(v: Variant, me: Address, w: World, to: Address, now: Word)
    requires Solvent(me, w) && Readable(v, me, w)
    ensures MintCall(v, me, w, to, now).Ok? ==>
      var (w', paid) := MintCall(v, me, w, to, now).value;
      && |paid| == 1 && paid[0] < TWO_112 && w'.pair.totalSupply < TWO_112
      && w'.pair.balanceOf == Minted(w.pair, to, paid[0])
      && (if w.pair.totalSupply != 0 then w'.pair.totalSupply == w.pair.totalSupply + paid[0]
          else 1000 + paid[0] - w'.pair.totalSupply == Opened(v, me, w) + Get(w.pair.balanceOf, ZERO_ADDRESS))
  {
    MintExact(v, me, w, to, now);
    MintKeeps(v, me, w, to, now);
    MintCredits(v, me, w, to, now);
    OpenedIsShares(v, me, w);
    hide MintCall, Solvent, Readable, Minted, SharesFor, Opened, Reserve, Fields, WSub;
    if MintCall(v, me, w, to, now).Ok? { SolventSupply(me, MintCall(v, me, w, to, now).value.0); }
  }

  lemma MintExcess(v: Variant, me: Address, w: World, to: Address, now: Word)
    requires Solvent(me, w) && Readable(v, me, w) && ExcessInRange(w.pair)
    ensures MintCall(v, me, w, to, now).Ok? ==>
      Excess(MintCall(v, me, w, to, now).value.0.pair)
      == Excess(w.pair) + (if w.pair.totalSupply == 0 then Opened(v, me, w) else 0)
  {
    SharesBelowTotal(me, w);
    MintOutcome(v, me, w, to, now);
    hide MintCall, Solvent, Readable, Total, Minted, Opened, Get;
    if MintCall(v, me, w, to, now).Ok? { MintedTotal(w.pair, to, MintCall(v, me, w, to, now).value.1[0]); }
  }

  /** A first mint leaves an excess of at most 2^112 more than before, and never a negative one. */
  lemma OpenedBounds(v: Variant, me: Address, w: World, to: Address, now: Word)
    requires Solvent(me, w) && Readable(v, me, w) && w.pair.totalSupply == 0
    ensures MintCall(v, me, w, to, now).Ok? ==> 0 <= Excess(w.pair) + Opened(v, me, w) <= Excess(w.pair) + TWO_112
  {
    MintExact(v, me, w, to, now);
    OpenedIsShares(v, me, w);
    TotalBounds(w.pair.balanceOf, ZERO_ADDRESS, ZERO_ADDRESS);
    hide MintCall, Solvent, Readable, Total, SharesFor, Opened, Reserve, Fields, WSub;
  }

  lemma SmallRoot(a: nat, b: nat)
    requires a < TWO_112 && b < TWO_112
    ensures FloorSqrt(Times(a, b)) < TWO_112
  {
    TimesIsProduct(a, b);
    FloorSqrtIsRoot(a * b);
    hide FloorSqrt, Times;
    SquareBound(FloorSqrt(a * b), a, b);
  }

  lemma BurnExcess(me: Address, w: World, to: Address, now: Word)
    requires Solvent(me, w) && BalancesInRange(me, w) && HeldInRange(me, w)
    ensures BurnCall(me, w, to, now).Ok? ==> Excess(BurnCall(me, w, to, now).value.0.pair) == Excess(w.pair)
  {
    BurnEffect(me, w, to, now);
    BurnFrame(me, w, to, now);
    TotalUpdate(w.pair.balanceOf, me, 0);
    hide BurnCall, Total, ShareOf, Fields;
  }

  lemma TransferFromExcess(s: Slots, caller: Address, from: Address, to: Address, value: Word)
    requires Total(s.balanceOf) < TWO_256
    ensures var moved := MoveSharesFrom(s, caller, from, to, value);
      moved.Ok? ==> Excess(moved.value) == Excess(s)
  {
    LpTransferFromExact(s, caller, from, to, value);
    hide MoveSharesFrom, Total;
  }

  lemma TransferExcess(s: Slots, from: Address, to: Address, value: Word)
    requires Total(s.balanceOf) < TWO_256
    ensures var moved := MoveShares(s, from, to, value);
      moved.Ok? ==> Excess(moved.value) == Excess(s)
  {
    LpTransferExact(s, from, to, value);
    hide MoveShares, Total;
  }

  /** In range, every step but a successful first mint leaves the excess alone, as an integer. */
  lemma StepExcess(v: Variant, me: Address, w: World, a: Action)
    requires Solvent(me, w) && InRange(v, me, w, a) && ExcessInRange(w.pair)
    ensures HeldInRange(me, w)
    ensures Excess(Step(v, me, w, a).pair)
         == Excess(w.pair) + (if FirstMintRuns(v, me, w, a) then Opened(v, me, w) else 0)
    ensures FirstMintRuns(v, me, w, a) ==> 0 <= Excess(w.pair) + Opened(v, me, w) <= Excess(w.pair) + TWO_112
  {
    SharesBelowTotal(me, w);
    hide Solvent, Readable, BalancesInRange, CheckFits, ExcessInRange, HeldInRange, Opened, GetReserves, Pack, MintCall, BurnCall, FinishSwap, MoveShares,
      MoveSharesFrom, TokenTransfer, SwapCall, Total;
    if Attempt(v, me, w, a).Ok? {
      match a
      case Mint(to, now) =>
        MintExcess(v, me, w, to, now);
        if w.pair.totalSupply == 0 { OpenedBounds(v, me, w, to, now); }
      case Burn(to, now) => BurnExcess(me, w, to, now);
      case Transfer(caller, to, value) => TransferExcess(w.pair, caller, to, value);
      case TransferFrom(caller, from, to, value) => TransferFromExcess(w.pair, caller, from, to, value);
      case Swap(out0, out1, to, now) => SwapFrame(v, me, w, out0, out1, to, now);
      case _ =>
    }
  }

  /** The ranges of each call before it is made, without the bound on held shares. */
  ghost predicate InRangeRun(v: Variant, me: Address, w: World, actions: seq<Action>)
    decreases |actions|
  {
    actions != [] ==> InRange(v, me, w, actions[0]) && InRangeRun(v, me, Step(v, me, w, actions[0]), actions[1..])
  }

  /** The pair's own shares stay in range by themselves while the first-mint branch has run fewer than
      2^32 times: each such run adds at most 2^112 to the excess, and nothing else changes it. */
  lemma {:induction false} RunIsGood(v: Variant, me: Address, w: World, actions: seq<Action>, c: nat)
    requires Solvent(me, w) && InRangeRun(v, me, w, actions)
    requires 0 <= Excess(w.pair) <= c * TWO_112 && c + FirstMints(v, me, w, actions) < TWO_32
    ensures GoodRun(v, me, w, actions)
    ensures var end := Run(v, me, w, actions);
      && Solvent(me, end)
      && 0 <= Excess(end.pair) <= (c + FirstMints(v, me, w, actions)) * TWO_112
      && (NoFirstMint(v, me, w, actions) ==> Excess(end.pair) == Excess(w.pair))
    decreases |actions|
  {
    if actions != [] {
      var a := actions[0];
      assert ExcessInRange(w.pair);
      StepExcess(v, me, w, a);
      StepKeeps(v, me, w, a);
      hide Solvent, InRange, Excess, ExcessInRange, HeldInRange, Step, FirstMintRuns, Opened;
      RunIsGood(v, me, Step(v, me, w, a), actions[1..], if FirstMintRuns(v, me, w, a) then c + 1 else c);
    }
  }

  lemma CreatedHasNoShares(me: Address, w: World)
    requires Created(w)
    ensures Solvent(me, w) && Excess(w.pair) == 0
  {
    CreatedReads(AS_WRITTEN, me, w);
  }

  /** From pair creation on, in both readings of both lines: while balances are in range and the
      first-mint branch runs fewer than 2^32 times, every state is solvent and nothing wraps. */
  lemma ReachableIsSolvent(v: Variant, me: Address, w: World, actions: seq<Action>, i: nat)
    requires Created(w) && InRangeRun(v, me, w, actions) && FirstMints(v, me, w, actions) < TWO_32 && i <= |actions|
    ensures Solvent(me, Run(v, me, w, actions[..i]))
    ensures i < |actions| ==> NothingWraps(v, me, Run(v, me, w, actions[..i]), actions[i])
  {
    CreatedHasNoShares(me, w);
    RunIsGood(v, me, w, actions, 0);
    hide *;
    RunIsSolvent(v, me, w, actions, i);
  }

  lemma {:induction false} GoodTail(v: Variant, me: Address, w: World, actions: seq<Action>, i: nat)
    requires GoodRun(v, me, w, actions) && i <= |actions|
    ensures var mid := Run(v, me, w, actions[..i]);
      GoodRun(v, me, mid, actions[i..]) && Run(v, me, mid, actions[i..]) == Run(v, me, w, actions)
    decreases i
  {
    if i == 0 {
      assert actions[0..] == actions;
    } else {
      hide Step, GoodStep;
      GoodTail(v, me, Step(v, me, w, actions[0]), actions[1..], i - 1);
      assert actions[..i][1..] == actions[1..][..i - 1];
      assert actions[1..][i - 1..] == actions[i..];
    }
  }

  /** And from any reachable state on, as long as the stored supply stays positive, value per share never falls. */
  lemma ReachableShareValue(v: Variant, me: Address, w: World, actions: seq<Action>, i: nat)
    requires Created(w) && InRangeRun(v, me, w, actions) && FirstMints(v, me, w, actions) < TWO_32 && i <= |actions|
    ensures var mid := Run(v, me, w, actions[..i]);
      StaysPositive(v, me, mid, actions[i..]) ==> NotDiluted(mid.pair, Run(v, me, w, actions).pair)
  {
    CreatedHasNoShares(me, w);
    RunIsGood(v, me, w, actions, 0);
    hide *;
    RunIsSolvent(v, me, w, actions, i);
    GoodTail(v, me, w, actions, i);
    var mid := Run(v, me, w, actions[..i]);
    if StaysPositive(v, me, mid, actions[i..]) { ShareValueNeverFalls(v, me, mid, actions[i..]); }
  }

  // ----- the supply line as written

  /** As written: from the first mint of a new pair on, the balances sum to the stored supply plus
      floor(sqrt(amount0 * amount1)) - 1000, as integers, until the first-mint branch runs again. */
  lemma AsWrittenSupply(me: Address, w: World, to: Address, now: Word, actions: seq<Action>)
    requires Created(w) && BalancesInRange(me, w)
    ensures var first := MintCall(AS_WRITTEN, me, w, to, now);
      first.Ok? && InRangeRun(AS_WRITTEN, me, first.value.0, actions) && NoFirstMint(AS_WRITTEN, me, first.value.0, actions) ==>
        var end := Run(AS_WRITTEN, me, first.value.0, actions).pair;
        Total(end.balanceOf) == end.totalSupply + FirstRoot(me, w) - 1000
  {
    CreatedHasNoShares(me, w);
    NewPairReadable(AS_WRITTEN, me, w);
    CreatedIsEmpty(w);
    OpenedOfNew(me, w);
    MintExcess(AS_WRITTEN, me, w, to, now);
    MintKeeps(AS_WRITTEN, me, w, to, now);
    OpenedBounds(AS_WRITTEN, me, w, to, now);
    hide MintCall, Solvent, Readable, InRangeRun, Opened, FirstRoot, Total, FirstMints, GetReserves;
    var first := MintCall(AS_WRITTEN, me, w, to, now);
    if first.Ok? && InRangeRun(AS_WRITTEN, me, first.value.0, actions) && NoFirstMint(AS_WRITTEN, me, first.value.0, actions) {
      RunIsGood(AS_WRITTEN, me, first.value.0, actions, 1);
    }
  }

  lemma OpenedOfNew(me: Address, w: World)
    requires Created(w)
    ensures Opened(AS_WRITTEN, me, w) == FirstRoot(me, w) - 1000
  {
    CreatedIsEmpty(w);
    WSubExact(Get(w.led0, me), 0);
    WSubExact(Get(w.led1, me), 0);
    hide GetReserves, FloorSqrt, Times, WSub;
  }

  /** Whoever burns exactly the stored supply takes both whole balances, however many other shares
      there are; those are then shares of a pair whose stored supply is zero. */
  lemma WholeSupplyBurnEmpties(me: Address, w: World, to: Address, now: Word)
    requires Solvent(me, w) && w.pair.unlocked == 1 && now < TWO_32
    requires BalancesInRange(me, w) && Total(w.led0) < TWO_256 && Total(w.led1) < TWO_256
    requires 0 < w.pair.totalSupply == Get(w.pair.balanceOf, me)
    ensures var reply := BurnCall(me, w, to, now);
      && reply.Ok?
      && reply.value.1 == [Get(w.led0, me), Get(w.led1, me)]
      && reply.value.0.pair.totalSupply == 0
      && Total(reply.value.0.pair.balanceOf) == Excess(w.pair)
  {
    SolventSupply(me, w);
    SolventHolds(me, w);
    SolventReserves(me, w);
    BurnExact(me, w, to, now);
    BurnEffect(me, w, to, now);
    BurnExcess(me, w, to, now);
    WholeShare(w.pair.totalSupply, Get(w.led0, me));
    WholeShare(w.pair.totalSupply, Get(w.led1, me));
    hide BurnCall, ShareOf, Total, Fields, Solvent;
  }

  /** A new pair after the first mint to `u`, as written. */
  lemma AfterFirstMint(me: Address, w: World, u: Address, now: Word)
    requires Created(w) && BalancesInRange(me, w) && now < TWO_32
    requires me != ZERO_ADDRESS && u != ZERO_ADDRESS && u != me && 2000 <= FirstRoot(me, w)
    ensures var minted := Step(AS_WRITTEN, me, w, Mint(u, now));
      && Solvent(me, minted) && minted.pair.unlocked == 1 && minted.led0 == w.led0 && minted.led1 == w.led1
      && minted.pair.totalSupply == 1000 && Get(minted.pair.balanceOf, me) == 0
      && Get(minted.pair.balanceOf, u) == FirstRoot(me, w) - 1000
  {
    NewPairMint(AS_WRITTEN, me, w, u, now);
    MintCredits(AS_WRITTEN, me, w, u, now);
    MintStep(AS_WRITTEN, me, w, u, now);
    SmallRoot(Get(w.led0, me), Get(w.led1, me));
    hide MintCall, FloorSqrt, Times, Fields, Step, Solvent, Readable;
    FirstCredit(w.pair, u, FirstRoot(me, w) - 1000);
    hide Minted, FirstRoot, Created;
  }

  lemma FirstCredit(s: Slots, u: Address, shares: Word)
    requires s.totalSupply == 0 && s.balanceOf == map[] && u != ZERO_ADDRESS
    ensures Get(Minted(s, u, shares), u) == shares
    ensures forall a :: a != u && a != ZERO_ADDRESS ==> Get(Minted(s, u, shares), a) == 0
  {
  }

  lemma SendToPair(v: Variant, me: Address, w: World, u: Address, value: Word)
    requires u != me && value <= Get(w.pair.balanceOf, u) && Get(w.pair.balanceOf, me) == 0
    ensures var sent := Step(v, me, w, Transfer(u, me, value));
      && sent == w.(pair := w.pair.(balanceOf := sent.pair.balanceOf))
      && Get(sent.pair.balanceOf, me) == value
      && Get(sent.pair.balanceOf, u) == Get(w.pair.balanceOf, u) - value
  {
  }

  lemma SolventAfterSend(me: Address, w: World, w': World)
    requires Solvent(me, w) && w' == w.(pair := w.pair.(balanceOf := w'.pair.balanceOf))
    ensures Solvent(me, w')
  {
  }

  /** So, as written, 1000 of the floor(sqrt(amount0 * amount1)) - 1000 shares that the first depositor
      of a new pair is credited with already redeem for everything the pair holds. */
  lemma FirstMintCanBeEmptied(me: Address, w: World, u: Address, now1: Word, to: Address, now2: Word)
    requires Created(w) && BalancesInRange(me, w) && now1 < TWO_32 && now2 < TWO_32
    requires Total(w.led0) < TWO_256 && Total(w.led1) < TWO_256
    requires me != ZERO_ADDRESS && u != ZERO_ADDRESS && u != me && 2000 <= FirstRoot(me, w)
    ensures var sent := Run(AS_WRITTEN, me, w, [Mint(u, now1), Transfer(u, me, 1000)]);
      var reply := BurnCall(me, sent, to, now2);
      && Get(sent.pair.balanceOf, u) == FirstRoot(me, w) - 2000
      && reply.Ok?
      && reply.value.1 == [Get(w.led0, me), Get(w.led1, me)]
      && reply.value.0.pair.totalSupply == 0
  {
    SameBalances(me, w, Run(AS_WRITTEN, me, w, [Mint(u, now1), Transfer(u, me, 1000)]));
    hide *;
    AfterFirstMint(me, w, u, now1);
    TwoSteps(AS_WRITTEN, me, w, Mint(u, now1), Transfer(u, me, 1000));
    var minted := Step(AS_WRITTEN, me, w, Mint(u, now1));
    var sent := Step(AS_WRITTEN, me, minted, Transfer(u, me, 1000));
    SendToPair(AS_WRITTEN, me, minted, u, 1000);
    SolventAfterSend(me, minted, sent);
    WholeSupplyBurnEmpties(me, sent, to, now2);
  }

  lemma SameBalances(me: Address, w: World, w': World)
    requires BalancesInRange(me, w)
    ensures w'.led0 == w.led0 && w'.led1 == w.led1 ==> BalancesInRange(me, w')
  {
  }
}
