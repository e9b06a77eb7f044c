/** Solvency of the pair and the value of a share, over every run with honest tokens. */
module PairSafety {
  import opened Words
  import opened PackedReserves
  import opened Ledgers
  import opened Sqrt
  import opened PairSpec

  /** The pair holds its reserves, and supply^2 is at most their product. */
  ghost predicate Solvent(me: Address, w: World) {
    var f := Fields(w.pair.reserves);
    && f.r0 <= Get(w.led0, me) && f.r1 <= Get(w.led1, me)
    && w.pair.totalSupply * w.pair.totalSupply <= f.r0 * f.r1
  }

  /** Token balances of at most 112 bits, as the packed slot has room for. */
  ghost predicate BalancesInRange(me: Address, w: World) {
    Get(w.led0, me) < TWO_112 && Get(w.led1, me) < TWO_112
  }

  /** The reserves read as they were stored: the mask is narrow, or reserve0 ends in 16 zero bits. */
  ghost predicate ExactDecode(v: Variant, s: Slots) {
    v.narrowMask || Fields(s.reserves).r0 % TWO_16 == 0
  }

  /** The right-hand side of the fee check, over the reserves as they are read, is a word. */
  ghost predicate CheckFits(v: Variant, s: Slots) {
    var r := Reserve(v, s);
    1000000 * Times(r.r0, r.r1) < TWO_256
  }

  ghost predicate Readable(v: Variant, me: Address, w: World) {
    BalancesInRange(me, w) && ExactDecode(v, w.pair)
  }

  /** What each call relies on: mint that the reserves read right, swap that its check does not wrap,
      those and the other two calls that store balances that the balances have 112 bits. */
  ghost predicate InRange(v: Variant, me: Address, w: World, a: Action) {
    match a
    case Mint(_, _) => Readable(v, me, w)
    case Burn(_, _) => BalancesInRange(me, w)
    case Swap(_, _, _, _) => BalancesInRange(me, w) && CheckFits(v, w.pair)
    case Sync => BalancesInRange(me, w)
    case _ => true
  }

  /** The shares the pair itself holds: up to here their product with a balance is a word. */
  ghost predicate HeldInRange(me: Address, w: World) {
    Get(w.pair.balanceOf, me) <= TWO_144 + TWO_32
  }

  ghost predicate GoodStep(v: Variant, me: Address, w: World, a: Action) {
    InRange(v, me, w, a) && (a.Burn? ==> HeldInRange(me, w))
  }

  /** The ranges of each call before it is made. */
  ghost predicate GoodRun(v: Variant, me: Address, w: World, actions: seq<Action>)
    decreases |actions|
  {
    actions != [] ==>
      GoodStep(v, me, w, actions[0]) && GoodRun(v, me, Step(v, me, w, actions[0]), actions[1..])
  }

  /** Value per share does not fall: k' / supply'^2 >= k / supply^2, cross-multiplied. */
  ghost predicate NotDiluted(s: Slots, s': Slots) {
    var f, f' := Fields(s.reserves), Fields(s'.reserves);
    (f.r0 * f.r1) * (s'.totalSupply * s'.totalSupply) <= (f'.r0 * f'.r1) * (s.totalSupply * s.totalSupply)
  }

  // ----- facts about single pieces

  lemma SquareBound(s: nat, p: nat, q: nat)
    requires s * s <= p * q && p < TWO_112 && q < TWO_112
    ensures s < TWO_112
  {
    if TWO_112 <= s {
      MulMono(TWO_112, TWO_112, s, s);
      MulMono(p, q, TWO_112 - 1, TWO_112 - 1);
      assert false;
    }
  }

  lemma PositiveProduct(p: nat, q: nat)
    requires 0 < p * q
    ensures 0 < p && 0 < q
  {
  }

  lemma PositiveFactors(s: nat, p: nat, q: nat)
    requires 0 < s && s * s <= p * q
    ensures 0 < p && 0 < q
  {
    MulMono(1, 1, s, s);
    PositiveProduct(p, q);
  }

  lemma WSubExact(a: Word, b: Word)
    requires b <= a
    ensures WSub(a, b) == a - b
  {
  }

  lemma NumbersAreSmall(v: Variant, me: Address, w: World)
    requires Solvent(me, w) && Readable(v, me, w)
    ensures w.pair.totalSupply < TWO_112
    ensures Reserve(v, w.pair) == Fields(w.pair.reserves)
    ensures var r := Reserve(v, w.pair);
      && r.r0 < TWO_112 && r.r1 < TWO_112
      && Get(w.led0, me) < TWO_112 && Get(w.led1, me) < TWO_112
      && WSub(Get(w.led0, me), r.r0) == Get(w.led0, me) - r.r0
      && WSub(Get(w.led1, me), r.r1) == Get(w.led1, me) - r.r1
      && (0 < w.pair.totalSupply ==> 0 < r.r0 && 0 < r.r1)
  {
    DecodeIsExact(v.narrowMask, w.pair.reserves);
    FieldsBounds(w.pair.reserves);
    var r := Reserve(v, w.pair);
    WSubExact(Get(w.led0, me), r.r0);
    WSubExact(Get(w.led1, me), r.r1);
    SquareBound(w.pair.totalSupply, r.r0, r.r1);
    if 0 < w.pair.totalSupply { PositiveFactors(w.pair.totalSupply, r.r0, r.r1); }
  }

  /** With the supply unchanged and the product no smaller, solvency and share value carry over. */
  lemma ProductGrowth(me: Address, w: World, w': World)
    requires Solvent(me, w) && w'.pair.totalSupply == w.pair.totalSupply
    requires var f, f' := Fields(w.pair.reserves), Fields(w'.pair.reserves);
      && f.r0 * f.r1 <= f'.r0 * f'.r1
      && f'.r0 == Get(w'.led0, me) && f'.r1 == Get(w'.led1, me)
    ensures Solvent(me, w') && NotDiluted(w.pair, w'.pair)
  {
    hide Fields;
    var f, f' := Fields(w.pair.reserves), Fields(w'.pair.reserves);
    var k := w.pair.totalSupply * w.pair.totalSupply;
    MulMono(f.r0 * f.r1, k, f'.r0 * f'.r1, k);
  }

  /** `liquidity` shares' part of a balance, rounded down. */
  function ShareOf(liquidity: nat, balance: nat, supply: nat): nat {
    if supply == 0 then 0 else Quotient(Times(liquidity, balance), supply)
  }

  /** `ShareOf` is the floor of liquidity * balance / supply. */
  lemma ShareLaw(liquidity: nat, balance: nat, supply: nat, q: nat)
    requires 0 < supply
    ensures q <= ShareOf(liquidity, balance, supply) <==> q * supply <= liquidity * balance
  {
    TimesIsProduct(liquidity, balance);
    DivAtMost(liquidity * balance, supply, q);
    hide Times, Quotient;
  }

  /** Where the product does not wrap, the contract's quotient is that share. */
  lemma ShareInWords(liquidity: Word, balance: Word, supply: Word)
    requires 0 < supply && liquidity * balance < TWO_256
    ensures Quotient(WMul(liquidity, balance), supply) == ShareOf(liquidity, balance, supply)
  {
    TimesIsProduct(liquidity, balance);
    hide Times, Quotient;
  }

  /** All the shares are worth the whole balance. */
  lemma WholeShare(supply: nat, b: nat)
    requires 0 < supply
    ensures ShareOf(supply, b, supply) == b
  {
    ShareLaw(supply, b, supply, b);
    ShareLaw(supply, b, supply, b + 1);
    hide ShareOf;
    assert (b + 1) * supply == b * supply + supply;
  }

  lemma SolventSupply(me: Address, w: World)
    requires Solvent(me, w)
    ensures w.pair.totalSupply < TWO_112
  {
    FieldsBounds(w.pair.reserves);
    hide Fields;
    var f := Fields(w.pair.reserves);
    SquareBound(w.pair.totalSupply, f.r0, f.r1);
  }

  // ----- mint

  /** The first mint's amounts, in plain integers. */
  lemma FirstMintExact(v: Variant, s: Slots, amount0: Word, amount1: Word)
    requires amount0 < TWO_112 && amount1 < TWO_112 && s.totalSupply == 0
    ensures var root := FloorSqrt(Times(amount0, amount1));
      var m := FirstMint(v, s, amount0, amount1);
      && root < TWO_128
      && (m.Ok? <==> root > 1000)
      && (m.Ok? ==>
          && m.value.1 == root - 1000
          && m.value.0.totalSupply == (if v.wholeFirstSupply then root else 1000)
          && m.value.0 == s.(totalSupply := m.value.0.totalSupply, balanceOf := s.balanceOf[ZERO_ADDRESS := 1000]))
  {
    hide FloorSqrt;
    ProductFits(amount0, amount1);
    TimesIsProduct(amount0, amount1);
    hide Times;
    RootIsWord(Times(amount0, amount1));
  }

  /** A later mint's amounts once its products are known not to wrap: the smaller of the two floored shares. */
  lemma LaterMintExact(s: Slots, r0: Word, r1: Word, amount0: Word, amount1: Word)
    requires 0 < s.totalSupply < TWO_112 && 0 < r0 && 0 < r1
    requires Quotient(WMul(amount0, s.totalSupply), r0) == ShareOf(amount0, s.totalSupply, r0) < TWO_256 - TWO_112
    requires Quotient(WMul(amount1, s.totalSupply), r1) == ShareOf(amount1, s.totalSupply, r1) < TWO_256 - TWO_112
    ensures var l0, l1 := ShareOf(amount0, s.totalSupply, r0), ShareOf(amount1, s.totalSupply, r1);
      var liquidity := if l0 < l1 then l0 else l1;
      var m := LaterMint(s, r0, r1, amount0, amount1);
      && (m.Ok? <==> 0 < liquidity)
      && (m.Ok? ==>
          && m.value.1 == liquidity
          && m.value.0 == s.(totalSupply := m.value.0.totalSupply)
          && m.value.0.totalSupply == s.totalSupply + liquidity)
  {
    hide Quotient, WMul, ShareOf;
  }

  lemma SharesAreWords(amount: Word, supply: Word, r: Word)
    requires amount < TWO_112 && supply < TWO_112 && 0 < r
    ensures Quotient(WMul(amount, supply), r) == ShareOf(amount, supply, r) < TWO_256 - TWO_112
  {
    ProductFits(amount, supply);
    ShareInWords(amount, supply, r);
    hide Quotient, WMul, ShareOf;
  }

  /** `mint` is that branch, a credit, a store of the balances, and the release of the lock. */
  lemma MintParts(v: Variant, me: Address, w: World, to: Address, now: Word)
    ensures var b0, b1 := Get(w.led0, me), Get(w.led1, me);
      var issued := Issued(v, w.pair.(unlocked := 0), Reserve(v, w.pair), b0, b1);
      var reply := MintCall(v, me, w, to, now);
      && (reply.Ok? <==> w.pair.unlocked == 1 && issued.Ok? && b0 < TWO_128 && b1 < TWO_128 && now < TWO_32)
      && (reply.Ok? ==>
          && reply.value.1 == [issued.value.1]
          && reply.value.0 == w.(pair := Credit(issued.value.0, to, issued.value.1).(reserves := Pack(b0, b1, now), unlocked := 1)))
  {
    hide GetReserves, Pack, FirstMint, LaterMint, WSub, WAdd;
  }

  /** Issuing touches the supply and, the first time, the zero address. */
  lemma IssuedShape(v: Variant, s: Slots, r: Reserves, b0: Word, b1: Word)
    ensures var issued := Issued(v, s, r, b0, b1);
      var base := if s.totalSupply == 0 then s.balanceOf[ZERO_ADDRESS := MINIMUM_LIQUIDITY] else s.balanceOf;
      issued.Ok? ==> issued.value.0 == s.(totalSupply := issued.value.0.totalSupply, balanceOf := base)
  {
    hide WSub, WMul, WAdd, Quotient, FloorSqrt;
  }

  /** The shares a deposit of (amount0, amount1) earns. */
  ghost function SharesFor(supply: nat, r: Reserves, amount0: nat, amount1: nat): int
  {
    if supply == 0 then FloorSqrt(Times(amount0, amount1)) - 1000
    else
      var l0, l1 := ShareOf(amount0, supply, r.r0), ShareOf(amount1, supply, r.r1);
      if l0 < l1 then l0 else l1
  }

  /** The shares issued on balances in range, in plain integers. */
  lemma IssuedExact(v: Variant, s: Slots, r: Reserves, b0: Word, b1: Word)
    requires r.r0 <= b0 < TWO_112 && r.r1 <= b1 < TWO_112 && s.totalSupply < TWO_112
    requires s.totalSupply != 0 ==> 0 < r.r0 && 0 < r.r1
    ensures var shares := SharesFor(s.totalSupply, r, b0 - r.r0, b1 - r.r1);
      var issued := Issued(v, s, r, b0, b1);
      && (issued.Ok? <==> 0 < shares)
      && (issued.Ok? ==>
          && issued.value.1 == shares
          && issued.value.0.totalSupply == (if s.totalSupply == 0 then (if v.wholeFirstSupply then shares + 1000 else 1000)
                                            else s.totalSupply + shares))
  {
    WSubExact(b0, r.r0);
    WSubExact(b1, r.r1);
    hide FloorSqrt, Times, ShareOf, FirstMint, LaterMint, WSub, WMul, Quotient;
    if s.totalSupply == 0 {
      FirstMintExact(v, s, b0 - r.r0, b1 - r.r1);
    } else {
      SharesAreWords(b0 - r.r0, s.totalSupply, r.r0);
      SharesAreWords(b1 - r.r1, s.totalSupply, r.r1);
      LaterMintExact(s, r.r0, r.r1, b0 - r.r0, b1 - r.r1);
    }
  }

  /** `mint` without 256-bit words: when it succeeds, what it returns, what it stores. */
  lemma MintExact(v: Variant, me: Address, w: World, to: Address, now: Word)
    requires Solvent(me, w) && Readable(v, me, w)
    ensures var r, b0, b1, supply := Reserve(v, w.pair), Get(w.led0, me), Get(w.led1, me), w.pair.totalSupply;
      && r.r0 <= b0 && r.r1 <= b1 && (supply != 0 ==> 0 < r.r0 && 0 < r.r1)
      && var shares := SharesFor(supply, r, b0 - r.r0, b1 - r.r1);
      var reply := MintCall(v, me, w, to, now);
      && (reply.Ok? <==> w.pair.unlocked == 1 && 0 < shares && now < TWO_32)
      && (reply.Ok? ==>
          var s' := reply.value.0.pair;
          && reply.value.1 == [shares]
          && s'.totalSupply == (if supply == 0 then (if v.wholeFirstSupply then shares + 1000 else 1000)
                                else supply + shares)
          && Fields(s'.reserves) == Reserves(b0, b1, now)
          && reply.value.0.led0 == w.led0 && reply.value.0.led1 == w.led1)
  {
    NumbersAreSmall(v, me, w);
    IssuedExact(v, w.pair.(unlocked := 0), Reserve(v, w.pair), Get(w.led0, me), Get(w.led1, me));
    MintParts(v, me, w, to, now);
    PackFits(Get(w.led0, me), Get(w.led1, me), now);
    hide SharesFor, Issued, Solvent, Readable, Pack, Fields, GetReserves, MintCall, Credit, WSub;
    var issued := Issued(v, w.pair.(unlocked := 0), Reserve(v, w.pair), Get(w.led0, me), Get(w.led1, me));
    if issued.Ok? { CreditFrame(issued.value.0, to, issued.value.1); }
  }

  lemma CreditFrame(s: Slots, to: Address, value: Word)
    ensures Credit(s, to, value) == s.(balanceOf := Credit(s, to, value).balanceOf)
  {
    hide WAdd;
  }

  lemma PackFits(b0: Word, b1: Word, now: Word)
    ensures b0 < TWO_112 && b1 < TWO_112 && now < TWO_32 ==> Fields(Pack(b0, b1, now)) == Reserves(b0, b1, now)
  {
    if b0 < TWO_112 && b1 < TWO_112 && now < TWO_32 { PackValue(b0, b1, now); }
    hide Pack, Fields;
  }

  lemma MintUnlocks(v: Variant, me: Address, w: World, to: Address, now: Word)
    ensures var reply := MintCall(v, me, w, to, now); reply.Ok? ==> reply.value.0.pair.unlocked == 1
  {
    MintParts(v, me, w, to, now);
    hide MintCall, Issued, GetReserves, Pack;
  }

  lemma MintStep(v: Variant, me: Address, w: World, to: Address, now: Word)
    ensures MintCall(v, me, w, to, now).Ok? ==> Step(v, me, w, Mint(to, now)) == MintCall(v, me, w, to, now).value.0
  {
    hide MintCall;
  }

  lemma ShareOfDeposit(supply: nat, r: nat, b: nat, liquidity: nat)
    requires 0 < r <= b && liquidity <= ShareOf(b - r, supply, r)
    ensures (supply + liquidity) * r <= b * supply
  {
    ShareLaw(b - r, supply, r, liquidity);
    hide ShareOf;
    assert (supply + liquidity) * r == supply * r + liquidity * r;
    assert (b - r) * supply == b * supply - r * supply;
  }

  /** From per-side bounds t r_i <= b_i s to the product form, and to t^2 <= b0 b1. */
  lemma Proportional(s: nat, t: nat, r0: nat, r1: nat, b0: nat, b1: nat)
    requires t * r0 <= b0 * s && t * r1 <= b1 * s
    ensures (r0 * r1) * (t * t) <= (b0 * b1) * (s * s)
    ensures 0 < s && s * s <= r0 * r1 ==> t * t <= b0 * b1
  {
    MulMono(t * r0, t * r1, b0 * s, b1 * s);
    MulSwap(t, r0, t, r1);
    MulSwap(b0, s, b1, s);
    if 0 < s && s * s <= r0 * r1 {
      MulMono(s * s, t * t, r0 * r1, t * t);
      MulMono(1, 1, s, s);
      MulCancel(s * s, t * t, b0 * b1);
    }
  }

  lemma SharesAtMost(supply: nat, r: Reserves, a0: nat, a1: nat)
    requires 0 < supply
    ensures SharesFor(supply, r, a0, a1) <= ShareOf(a0, supply, r.r0)
    ensures SharesFor(supply, r, a0, a1) <= ShareOf(a1, supply, r.r1)
  {
    hide ShareOf;
  }

  /** The supply t after a mint, against the reserves r and the balances b. */
  lemma MintedSupply(supply: nat, r: Reserves, b0: nat, b1: nat, t: nat)
    requires r.r0 <= b0 && r.r1 <= b1
    requires if supply == 0 then 0 < SharesFor(0, r, b0 - r.r0, b1 - r.r1) && t <= SharesFor(0, r, b0 - r.r0, b1 - r.r1) + 1000
             else 0 < r.r0 && 0 < r.r1 && supply <= t <= supply + SharesFor(supply, r, b0 - r.r0, b1 - r.r1)
    ensures supply * supply <= r.r0 * r.r1 ==> t * t <= b0 * b1
    ensures 0 < supply ==> (r.r0 * r.r1) * (t * t) <= (b0 * b1) * (supply * supply)
  {
    if supply == 0 {
      hide FloorSqrt;
      FirstSupplyBound(b0 - r.r0, b1 - r.r1, b0, b1, t);
    } else {
      SharesAtMost(supply, r, b0 - r.r0, b1 - r.r1);
      hide SharesFor, ShareOf;
      ShareOfDeposit(supply, r.r0, b0, t - supply);
      ShareOfDeposit(supply, r.r1, b1, t - supply);
      Proportional(supply, t, r.r0, r.r1, b0, b1);
    }
  }

  lemma MintKeeps(v: Variant, me: Address, w: World, to: Address, now: Word)
    requires Solvent(me, w) && Readable(v, me, w)
    ensures var reply := MintCall(v, me, w, to, now);
      reply.Ok? ==>
        && Solvent(me, reply.value.0)
        && (0 < w.pair.totalSupply ==> NotDiluted(w.pair, reply.value.0.pair))
  {
    MintExact(v, me, w, to, now);
    NumbersAreSmall(v, me, w);
    hide MintCall, SharesFor, Fields, GetReserves, Readable;
    if MintCall(v, me, w, to, now).Ok? {
      MintedSupply(w.pair.totalSupply, Reserve(v, w.pair), Get(w.led0, me), Get(w.led1, me),
                   MintCall(v, me, w, to, now).value.0.pair.totalSupply);
    }
  }

  lemma FirstSupplyBound(a0: nat, a1: nat, b0: nat, b1: nat, t: nat)
    requires a0 <= b0 && a1 <= b1 && t <= FloorSqrt(Times(a0, a1))
    ensures t * t <= b0 * b1
  {
    TimesIsProduct(a0, a1);
    FloorSqrtIsRoot(a0 * a1);
    hide Times, FloorSqrt;
    MulMono(t, t, FloorSqrt(a0 * a1), FloorSqrt(a0 * a1));
    MulMono(a0, a1, b0, b1);
  }

  // ----- burn

  lemma BurnAmountsExact(liquidity: Word, supply: Word, b0: Word, b1: Word)
    requires 0 < supply < TWO_112 && liquidity <= supply && b0 < TWO_112 && b1 < TWO_112
    ensures var a0, a1 := ShareOf(liquidity, b0, supply), ShareOf(liquidity, b1, supply);
      && a0 <= b0 && a1 <= b1
      && BurnAmounts(liquidity, supply, b0, b1) == (if a0 == 0 || a1 == 0 then Halted(Reverted) else Ok((a0, a1)))
  {
    ProductFits(liquidity, b0);
    ProductFits(liquidity, b1);
    ShareInWords(liquidity, b0, supply);
    ShareInWords(liquidity, b1, supply);
    ShareAtMost(liquidity, supply, b0);
    ShareAtMost(liquidity, supply, b1);
    hide Quotient, WMul, ShareOf;
  }

  lemma ShareAtMost(liquidity: nat, supply: nat, b: nat)
    requires 0 < supply && liquidity <= supply
    ensures ShareOf(liquidity, b, supply) <= b
  {
    var q := ShareOf(liquidity, b, supply);
    ShareLaw(liquidity, b, supply, q);
    hide ShareOf;
    MulMono(liquidity, b, supply, b);
    MulCancel(supply, q, b);
  }

  /** A pair that pays out on more shares than the supply holds less than the supply of that token. */
  lemma OverShare(liquidity: nat, supply: nat, b: nat)
    requires 0 < supply < liquidity && ShareOf(liquidity, b, supply) <= b
    ensures b < supply
  {
    ShareLaw(liquidity, b, supply, b + 1);
    hide ShareOf;
    assert (b + 1) * supply == b * supply + supply;
    MulMono(supply + 1, b, liquidity, b);
    assert (supply + 1) * b == b * supply + b;
  }

  lemma HeldProductFits(liquidity: Word, b: Word)
    requires liquidity <= TWO_144 + TWO_32 && b < TWO_112
    ensures WMul(liquidity, b) == liquidity * b < TWO_256
  {
    MulMono(liquidity, b, TWO_144 + TWO_32, TWO_112 - 1);
    assert (TWO_144 + TWO_32) * (TWO_112 - 1) < TWO_256;
    WMulExact(liquidity, b);
    hide WMul;
  }

  /** What a burn writes. */
  lemma BurnFrame(me: Address, w: World, to: Address, now: Word)
    ensures var reply := BurnCall(me, w, to, now);
      reply.Ok? ==>
        var s, s' := w.pair, reply.value.0.pair;
        s' == s.(unlocked := 1, balanceOf := s.balanceOf[me := 0], totalSupply := s'.totalSupply, reserves := s'.reserves)
  {
    hide BurnAmounts, TokenTransfer, Pack, WSub;
  }

  /** What the two transfers of a burn require of the amounts. */
  lemma BurnShape(me: Address, w: World, to: Address, now: Word)
    ensures BurnCall(me, w, to, now).Ok? ==>
      var supply, liquidity := w.pair.totalSupply, Get(w.pair.balanceOf, me);
      && 0 < supply && 0 < liquidity
      && Quotient(WMul(liquidity, Get(w.led0, me)), supply) <= Get(w.led0, me)
      && Quotient(WMul(liquidity, Get(w.led1, me)), supply) <= Get(w.led1, me)
  {
    hide Quotient, WMul, Pack;
  }

  /** In a solvent pair no burn on more shares than the stored supply goes through: one of the two
      payments would exceed the balance, because supply^2 <= reserve0 * reserve1. */
  lemma UncoveredBurnHalts(me: Address, w: World, to: Address, now: Word)
    requires Solvent(me, w) && BalancesInRange(me, w) && HeldInRange(me, w)
    ensures w.pair.totalSupply < Get(w.pair.balanceOf, me) ==> BurnCall(me, w, to, now).Halted?
  {
    BurnShape(me, w, to, now);
    hide BurnCall, ShareOf, WMul, Quotient, Fields;
    var supply, liquidity := w.pair.totalSupply, Get(w.pair.balanceOf, me);
    if supply < liquidity && BurnCall(me, w, to, now).Ok? {
      var f, b0, b1 := Fields(w.pair.reserves), Get(w.led0, me), Get(w.led1, me);
      HeldProductFits(liquidity, b0);
      HeldProductFits(liquidity, b1);
      ShareInWords(liquidity, b0, supply);
      ShareInWords(liquidity, b1, supply);
      OverShare(liquidity, supply, b0);
      OverShare(liquidity, supply, b1);
      MulMono(f.r0, f.r1, b0, b1);
      ProductBelowSquare(b0, b1, supply);
      assert false;
    }
  }

  lemma ProductBelowSquare(a: nat, b: nat, s: nat)
    requires a < s && b < s
    ensures a * b < s * s
  {
    MulMono(a, b, s - 1, s);
    assert (s - 1) * s == s * s - s;
  }

  /** `burn` without 256-bit words: when it succeeds. */
  lemma BurnExact(me: Address, w: World, to: Address, now: Word)
    requires Solvent(me, w) && BalancesInRange(me, w) && HeldInRange(me, w)
    requires Total(w.led0) < TWO_256 && Total(w.led1) < TWO_256
    ensures var supply, liquidity := w.pair.totalSupply, Get(w.pair.balanceOf, me);
      BurnCall(me, w, to, now).Ok? <==>
        && w.pair.unlocked == 1 && 0 < liquidity <= supply && now < TWO_32
        && 0 < ShareOf(liquidity, Get(w.led0, me), supply)
        && 0 < ShareOf(liquidity, Get(w.led1, me), supply)
  {
    UncoveredBurnHalts(me, w, to, now);
    SolventSupply(me, w);
    hide Solvent, ShareOf;
    var supply, liquidity := w.pair.totalSupply, Get(w.pair.balanceOf, me);
    if liquidity == 0 {
      NoSharesNoBurn(me, w, to, now);
    } else if liquidity <= supply {
      CoveredBurnExact(me, w, to, now);
    }
  }

  lemma NoSharesNoBurn(me: Address, w: World, to: Address, now: Word)
    requires Get(w.pair.balanceOf, me) == 0
    ensures BurnCall(me, w, to, now).Halted?
  {
  }

  lemma CoveredBurnExact(me: Address, w: World, to: Address, now: Word)
    requires 0 < Get(w.pair.balanceOf, me) <= w.pair.totalSupply < TWO_112
    requires Get(w.led0, me) < TWO_112 && Get(w.led1, me) < TWO_112
    requires Total(w.led0) < TWO_256 && Total(w.led1) < TWO_256
    ensures var supply, liquidity := w.pair.totalSupply, Get(w.pair.balanceOf, me);
      BurnCall(me, w, to, now).Ok? <==>
        && w.pair.unlocked == 1 && now < TWO_32
        && 0 < ShareOf(liquidity, Get(w.led0, me), supply)
        && 0 < ShareOf(liquidity, Get(w.led1, me), supply)
  {
    var supply, liquidity := w.pair.totalSupply, Get(w.pair.balanceOf, me);
    BurnAmountsExact(liquidity, supply, Get(w.led0, me), Get(w.led1, me));
    hide ShareOf, Pack, BurnAmounts, TokenTransfer, Total;
    var a0: Word := ShareOf(liquidity, Get(w.led0, me), supply);
    var a1: Word := ShareOf(liquidity, Get(w.led1, me), supply);
    TransferSucceeds(w.led0, me, to, a0);
    TransferSucceeds(w.led1, me, to, a1);
    TransferStays(w.led0, me, to, a0);
    TransferStays(w.led1, me, to, a1);
  }

  /** What a transfer out of the pair's own account leaves there. */
  lemma TransferStays(l: Ledger, me: Address, to: Address, value: Word)
    ensures TokenTransfer(l, me, to, value).Ok? ==>
      && value <= Get(l, me)
      && Get(TokenTransfer(l, me, to, value).value, me) == Get(l, me) - (if to == me then 0 else value)
  {
  }

  /** What a burn that succeeds pays, leaves and stores, in plain integers. */
  lemma BurnEffect(me: Address, w: World, to: Address, now: Word)
    requires Solvent(me, w) && BalancesInRange(me, w) && HeldInRange(me, w)
    ensures BurnCall(me, w, to, now).Ok? ==>
      var supply, liquidity := w.pair.totalSupply, Get(w.pair.balanceOf, me);
      var (w', paid) := BurnCall(me, w, to, now).value;
      && 0 < liquidity <= supply
      && paid == [ShareOf(liquidity, Get(w.led0, me), supply), ShareOf(liquidity, Get(w.led1, me), supply)]
      && w'.pair.totalSupply == supply - liquidity
      && Moved(w.led0, w'.led0, me, to, paid[0]) && Moved(w.led1, w'.led1, me, to, paid[1])
      && Fields(w'.pair.reserves) == Reserves(Get(w'.led0, me), Get(w'.led1, me), now)
  {
    UncoveredBurnHalts(me, w, to, now);
    SolventSupply(me, w);
    hide Solvent, ShareOf, Pack, Fields, BurnAmounts, TokenTransfer, Total;
    if BurnCall(me, w, to, now).Ok? {
      var supply, liquidity := w.pair.totalSupply, Get(w.pair.balanceOf, me);
      BurnAmountsExact(liquidity, supply, Get(w.led0, me), Get(w.led1, me));
      var amounts := BurnAmounts(liquidity, supply, Get(w.led0, me), Get(w.led1, me)).value;
      TransferMoves(w.led0, me, to, amounts.0);
      TransferMoves(w.led1, me, to, amounts.1);
      var w' := BurnCall(me, w, to, now).value.0;
      WSubExact(supply, liquidity);
      PackValue(Get(w'.led0, me), Get(w'.led1, me), now);
    }
  }

  /** What stays on one side is at least the remaining shares' part of the balance. */
  lemma RemainderCovers(supply: nat, liquidity: nat, b: nat, left: nat)
    requires 0 < supply && liquidity <= supply && b - ShareOf(liquidity, b, supply) <= left
    ensures (supply - liquidity) * b <= left * supply
  {
    var paid := ShareOf(liquidity, b, supply);
    ShareLaw(liquidity, b, supply, paid);
    ShareAtMost(liquidity, supply, b);
    hide ShareOf;
    assert (supply - liquidity) * b == supply * b - liquidity * b;
    MulMono(b - paid, supply, left, supply);
    assert (b - paid) * supply == b * supply - paid * supply;
  }

  /** A burn in numbers: t shares are left against the balances that stay. */
  lemma BurnedSupply(supply: nat, t: nat, r0: nat, r1: nat, b0: nat, b1: nat, left0: nat, left1: nat)
    requires 0 < supply && t <= supply && supply * supply <= r0 * r1 && r0 <= b0 && r1 <= b1
    requires b0 - ShareOf(supply - t, b0, supply) <= left0 && b1 - ShareOf(supply - t, b1, supply) <= left1
    ensures t * t <= left0 * left1
    ensures (r0 * r1) * (t * t) <= (left0 * left1) * (supply * supply)
  {
    RemainderCovers(supply, supply - t, b0, left0);
    RemainderCovers(supply, supply - t, b1, left1);
    hide ShareOf;
    MulMono(t, r0, t, b0);
    MulMono(t, r1, t, b1);
    Proportional(supply, t, r0, r1, left0, left1);
  }

  lemma BurnKeeps(me: Address, w: World, to: Address, now: Word)
    requires Solvent(me, w) && BalancesInRange(me, w) && HeldInRange(me, w)
    ensures var reply := BurnCall(me, w, to, now);
      reply.Ok? ==> Solvent(me, reply.value.0) && NotDiluted(w.pair, reply.value.0.pair)
  {
    BurnEffect(me, w, to, now);
    hide BurnCall, Fields, ShareOf;
    if BurnCall(me, w, to, now).Ok? {
      var f := Fields(w.pair.reserves);
      var w' := BurnCall(me, w, to, now).value.0;
      BurnedSupply(w.pair.totalSupply, w'.pair.totalSupply, f.r0, f.r1, Get(w.led0, me), Get(w.led1, me),
                   Get(w'.led0, me), Get(w'.led1, me));
    }
  }

  // ----- swap

  lemma AdjustedExact(balance: Word, amountIn: Word)
    requires balance < TWO_112 && amountIn <= balance
    ensures Adjusted(balance, amountIn) == 1000 * balance - 3 * amountIn
  {
    WMulExact(balance, 1000);
    WMulExact(amountIn, 3);
    hide WMul;
  }

  lemma AmountInExact(balance: Word, reserve: Word, out: Word)
    requires out < reserve
    ensures AmountIn(balance, reserve, out) == if balance + out > reserve then balance + out - reserve else 0
    ensures AmountIn(balance, reserve, out) <= balance
  {
  }

  /** Neither adjusted balance of `swap` wraps or underflows, nor does their product wrap. */
  ghost predicate SwapProductExact(b0: Word, in0: Word, b1: Word, in1: Word) {
    && Adjusted(b0, in0) == 1000 * b0 - 3 * in0
    && Adjusted(b1, in1) == 1000 * b1 - 3 * in1
    && WMul(Adjusted(b0, in0), Adjusted(b1, in1)) == Times(Adjusted(b0, in0), Adjusted(b1, in1))
  }

  lemma SwapProduct(b0: Word, in0: Word, b1: Word, in1: Word)
    requires in0 <= b0 < TWO_112 && in1 <= b1 < TWO_112
    ensures SwapProductExact(b0, in0, b1, in1)
  {
    AdjustedExact(b0, in0);
    AdjustedExact(b1, in1);
    hide Adjusted, WMul, Times;
    AdjustedProductFits(Adjusted(b0, in0), Adjusted(b1, in1));
    TimesIsProduct(Adjusted(b0, in0), Adjusted(b1, in1));
  }

  /** The fee check: the balances less three thousandths of what came in multiply at least to the
      product of the reserves, of which only 256 bits are left after scaling. */
  ghost predicate FeeCheck(left0: nat, in0: nat, left1: nat, in1: nat, r0: nat, r1: nat)
    requires in0 <= left0 && in1 <= left1
  {
    Wrap(1000000 * Times(r0, r1)) <= Times(1000 * left0 - 3 * in0, 1000 * left1 - 3 * in1)
  }

  lemma FeeCheckIsProduct(left0: nat, in0: nat, left1: nat, in1: nat, r0: nat, r1: nat)
    requires in0 <= left0 && in1 <= left1
    ensures FeeCheck(left0, in0, left1, in1, r0, r1)
        <==> 1000000 * (r0 * r1) % TWO_256 <= (1000 * left0 - 3 * in0) * (1000 * left1 - 3 * in1)
  {
    TimesIsProduct(1000 * left0 - 3 * in0, 1000 * left1 - 3 * in1);
    TimesIsProduct(r0, r1);
    WrapIsRemainder(1000000 * (r0 * r1));
    hide Times, Wrap;
  }

  /** What `get_reserves` returns, against the declared fields: only reserve1 can read high. */
  lemma ReadingBounds(v: Variant, s: Slots)
    ensures var f, r := Fields(s.reserves), Reserve(v, s);
      && f.r0 < TWO_112 && f.r1 < TWO_112
      && r.r0 == f.r0 && f.r1 <= r.r1 < TWO_128 && r.ts == f.ts < TWO_32
      && (ExactDecode(v, s) ==> r == f)
      && (!ExactDecode(v, s) ==> f.r1 + TWO_112 <= r.r1)
  {
    GetReservesValue(v.narrowMask, s.reserves);
    FieldsBounds(s.reserves);
    hide GetReserves;
  }

  /** `swap` on the balances its payouts leave: neither adjusted balance underflows, their product does
      not wrap, and the check is `FeeCheck`. */
  lemma SwapCheckExact(s: Slots, r: Reserves, out0: Word, out1: Word, bal0: Word, bal1: Word, now: Word)
    requires r.r0 < TWO_112 && r.r1 < TWO_128 && bal0 < TWO_112 && bal1 < TWO_112
    requires out0 < r.r0 && out1 < r.r1
    ensures var in0, in1 := AmountIn(bal0, r.r0, out0), AmountIn(bal1, r.r1, out1);
      && in0 <= bal0 && in1 <= bal1
      && (FinishSwap(s, r, out0, out1, bal0, bal1, now).Ok? <==>
          (0 < in0 || 0 < in1) && now < TWO_32 && FeeCheck(bal0, in0, bal1, in1, r.r0, r.r1))
    ensures var done := FinishSwap(s, r, out0, out1, bal0, bal1, now);
      done.Ok? ==> (
        && Fields(done.value.reserves) == Reserves(bal0, bal1, now)
        && done.value == s.(unlocked := 1, reserves := done.value.reserves))
  {
    FinishParts(s, r, out0, out1, bal0, bal1, now);
    PackFits(bal0, bal1, now);
    hide FinishSwap, Pack, Fields, AmountIn, Adjusted, WMul, Times, Wrap;
    var in0, in1 := AmountIn(bal0, r.r0, out0), AmountIn(bal1, r.r1, out1);
    AmountInExact(bal0, r.r0, out0);
    AmountInExact(bal1, r.r1, out1);
    SwapProduct(bal0, in0, bal1, in1);
    ScaledWraps(r.r0, r.r1);
  }

  /** Only the last of the three multiplications of the right-hand side can wrap. */
  lemma ScaledWraps(a: Word, b: Word)
    requires a < TWO_112 && b < TWO_128
    ensures WMul(WMul(WMul(a, b), 1000), 1000) == Wrap(1000000 * Times(a, b))
  {
    hide WMul, Wrap;
    MulMono(a, b, TWO_112, TWO_128);
    assert 1000 * (TWO_112 * TWO_128) < TWO_256;
    WMulExact(a, b);
    TimesIsProduct(a, b);
    ThousandTwice(a * b);
  }

  lemma ThousandTwice(k: Word)
    requires 1000 * k < TWO_256
    ensures WMul(WMul(k, 1000), 1000) == Wrap(1000000 * k)
  {
    hide Times, Wrap;
    TimesIsProduct(k, 1000);
    TimesIsProduct(1000 * k, 1000);
    ShortWrap(1000 * k);
  }

  lemma ShortWrap(n: nat)
    requires n < TWO_256
    ensures Wrap(n) == n
  {
  }

  /** The check and the store of `swap`. */
  lemma FinishParts(s: Slots, r: Reserves, out0: Word, out1: Word, bal0: Word, bal1: Word, now: Word)
    ensures var in0, in1 := AmountIn(bal0, r.r0, out0), AmountIn(bal1, r.r1, out1);
      var done := FinishSwap(s, r, out0, out1, bal0, bal1, now);
      && (done.Ok? <==>
          && (0 < in0 || 0 < in1) && bal0 < TWO_128 && bal1 < TWO_128 && now < TWO_32
          && WMul(WMul(WMul(r.r0, r.r1), 1000), 1000) <= WMul(Adjusted(bal0, in0), Adjusted(bal1, in1)))
      && (done.Ok? ==> done.value == s.(unlocked := 1, reserves := Pack(bal0, bal1, now)))
  {
    hide Pack, AmountIn, Adjusted, WMul;
  }

  lemma AdjustedProductFits(a: Word, b: Word)
    requires a <= 1000 * TWO_112 && b <= 1000 * TWO_112
    ensures WMul(a, b) == a * b
  {
    MulMono(a, b, 1000 * TWO_112, 1000 * TWO_112);
    WMulExact(a, b);
  }

  /** The fee-adjusted check forces the plain product of the balances strictly up. */
  lemma FeeGrowsProduct(k: nat, b0: nat, b1: nat, in0: nat, in1: nat)
    requires in0 <= b0 && in1 <= b1 && (0 < in0 || 0 < in1) && 0 < k
    requires (1000 * b0 - 3 * in0) * (1000 * b1 - 3 * in1) >= 1000000 * k
    ensures k < b0 * b1
  {
    var a0, a1 := 1000 * b0 - 3 * in0, 1000 * b1 - 3 * in1;
    PositiveProduct(a0, a1);
    var c0, c1 := 1000 * b0, 1000 * b1;
    assert c0 * c1 == 1000000 * (b0 * b1);
    if 0 < in0 {
      MulMono(a0 + 1, a1, c0, c1);
      assert (a0 + 1) * a1 == a0 * a1 + a1;
    } else {
      MulMono(a0, a1 + 1, c0, c1);
      assert a0 * (a1 + 1) == a0 * a1 + a0;
    }
  }

  /** While the right-hand side of its check does not wrap, a successful swap leaves the supply alone, stores
      the balances it leaves, and their product is strictly above that of the declared reserves, however
      high reserve1 reads. */
  lemma SwapGrows(v: Variant, me: Address, w: World, out0: Word, out1: Word, to: Address, now: Word)
    requires BalancesInRange(me, w) && CheckFits(v, w.pair)
    ensures SwapCall(v, me, w, out0, out1, to, now).Ok? ==>
      var w' := SwapCall(v, me, w, out0, out1, to, now).value.0;
      var f, f' := Fields(w.pair.reserves), Fields(w'.pair.reserves);
      && f' == Reserves(Get(w'.led0, me), Get(w'.led1, me), now)
      && w'.pair.totalSupply == w.pair.totalSupply
      && f.r0 * f.r1 < f'.r0 * f'.r1
  {
    ReadingBounds(v, w.pair);
    SwapShape(v, me, w, out0, out1, to, now);
    SwapBalances(v, me, w, out0, out1, to, now);
    hide SwapCall, GetReserves, Fields, FinishSwap, PayOut, AmountIn, FeeCheck, ExactDecode;
    if SwapCall(v, me, w, out0, out1, to, now).Ok? {
      var w' := SwapCall(v, me, w, out0, out1, to, now).value.0;
      var f, r := Fields(w.pair.reserves), Reserve(v, w.pair);
      var b0, b1 := Get(w'.led0, me), Get(w'.led1, me);
      SwapCheckExact(w.pair.(unlocked := 0), r, out0, out1, b0, b1, now);
      CheckGrows(r.r0, r.r1, b0, b1, AmountIn(b0, r.r0, out0), AmountIn(b1, r.r1, out1));
      MulMono(f.r0, f.r1, r.r0, r.r1);
    }
  }

  /** A check that does not wrap forces the product up. */
  lemma CheckGrows(r0: nat, r1: nat, b0: nat, b1: nat, in0: nat, in1: nat)
    requires in0 <= b0 && in1 <= b1 && (0 < in0 || 0 < in1) && 0 < r0 && 0 < r1
    requires 1000000 * Times(r0, r1) < TWO_256 && FeeCheck(b0, in0, b1, in1, r0, r1)
    ensures r0 * r1 < b0 * b1
  {
    TimesIsProduct(r0, r1);
    TimesIsProduct(1000 * b0 - 3 * in0, 1000 * b1 - 3 * in1);
    assert Wrap(1000000 * Times(r0, r1)) == 1000000 * Times(r0, r1);
    hide Times, Wrap;
    MulMono(1, 1, r0, r1);
    FeeGrowsProduct(r0 * r1, b0, b1, in0, in1);
  }

  /** What a swap writes. */
  lemma SwapFrame(v: Variant, me: Address, w: World, out0: Word, out1: Word, to: Address, now: Word)
    ensures SwapCall(v, me, w, out0, out1, to, now).Ok? ==>
      var s' := SwapCall(v, me, w, out0, out1, to, now).value.0.pair;
      w.pair.unlocked == 1 && s' == w.pair.(reserves := s'.reserves)
  {
    hide GetReserves, Pack, WMul, WSub, AmountIn, Adjusted, PayOut;
  }

  /** `swap` is its refusals, two payouts, and the check and store on the balances they leave. */
  lemma SwapParts(v: Variant, me: Address, w: World, out0: Word, out1: Word, to: Address, now: Word)
    ensures var r := Reserve(v, w.pair);
      var paid0, paid1 := PayOut(w.led0, me, to, out0), PayOut(w.led1, me, to, out1);
      var reply := SwapCall(v, me, w, out0, out1, to, now);
      && (reply.Ok? <==>
          && w.pair.unlocked == 1 && !SwapRefused(w.pair, r, out0, out1, to) && paid0.Ok? && paid1.Ok?
          && FinishSwap(w.pair.(unlocked := 0), r, out0, out1, Get(paid0.value, me), Get(paid1.value, me), now).Ok?)
      && (reply.Ok? ==>
          && reply.value.0.led0 == paid0.value && reply.value.0.led1 == paid1.value
          && FinishSwap(w.pair.(unlocked := 0), r, out0, out1, Get(paid0.value, me), Get(paid1.value, me), now)
             == Ok(reply.value.0.pair))
  {
    hide FinishSwap, GetReserves, PayOut;
  }

  /** The parts of a successful swap. */
  lemma SwapShape(v: Variant, me: Address, w: World, out0: Word, out1: Word, to: Address, now: Word)
    ensures SwapCall(v, me, w, out0, out1, to, now).Ok? ==>
      var w' := SwapCall(v, me, w, out0, out1, to, now).value.0;
      var r := Reserve(v, w.pair);
      && Reserve(v, w.pair) == GetReserves(v.narrowMask, w.pair.reserves)
      && out0 < r.r0 && out1 < r.r1
      && PayOut(w.led0, me, to, out0) == Ok(w'.led0) && PayOut(w.led1, me, to, out1) == Ok(w'.led1)
      && FinishSwap(w.pair.(unlocked := 0), r, out0, out1, Get(w'.led0, me), Get(w'.led1, me), now) == Ok(w'.pair)
  {
    SwapParts(v, me, w, out0, out1, to, now);
    hide SwapCall, FinishSwap, GetReserves, PayOut;
  }

  lemma SwapBalances(v: Variant, me: Address, w: World, out0: Word, out1: Word, to: Address, now: Word)
    requires BalancesInRange(me, w)
    ensures SwapCall(v, me, w, out0, out1, to, now).Ok? ==>
      var w' := SwapCall(v, me, w, out0, out1, to, now).value.0;
      Get(w'.led0, me) < TWO_112 && Get(w'.led1, me) < TWO_112
  {
    SwapShape(v, me, w, out0, out1, to, now);
    hide SwapCall, Fields, FinishSwap, GetReserves, PayOut;
    if SwapCall(v, me, w, out0, out1, to, now).Ok? {
      PayOutExact(w.led0, me, to, out0);
      PayOutExact(w.led1, me, to, out1);
    }
  }

  lemma PayOutExact(l: Ledger, me: Address, to: Address, out: Word)
    requires PayOut(l, me, to, out).Ok?
    ensures out <= Get(l, me)
    ensures Get(PayOut(l, me, to, out).value, me) == Get(l, me) - (if to == me then 0 else out)
  {
    if out > 0 { TransferConserves(l, me, to, out); }
  }

  lemma SwapKeeps(v: Variant, me: Address, w: World, out0: Word, out1: Word, to: Address, now: Word)
    requires Solvent(me, w) && BalancesInRange(me, w) && CheckFits(v, w.pair)
    ensures var reply := SwapCall(v, me, w, out0, out1, to, now);
      reply.Ok? ==> Solvent(me, reply.value.0) && NotDiluted(w.pair, reply.value.0.pair)
  {
    SwapGrows(v, me, w, out0, out1, to, now);
    hide SwapCall, Fields, GetReserves, Solvent, NotDiluted;
    var reply := SwapCall(v, me, w, out0, out1, to, now);
    if reply.Ok? { ProductGrowth(me, w, reply.value.0); }
  }

  // ----- skim and sync

  /** `skim` keeps solvency whatever it reads: a surplus that wraps is more than the pair can send. */
  lemma SkimKeeps(v: Variant, me: Address, w: World, to: Address)
    requires Solvent(me, w)
    ensures SkimCall(v, me, w, to).Ok? ==>
      var w' := SkimCall(v, me, w, to).value.0;
      && w'.pair == w.pair && Solvent(me, w')
      && (to != me ==> var r := Reserve(v, w.pair); Get(w'.led0, me) == r.r0 && Get(w'.led1, me) == r.r1)
  {
    ReadingBounds(v, w.pair);
    hide Fields, GetReserves, TokenTransfer, WSub, ExactDecode;
    var r := Reserve(v, w.pair);
    var b0, b1 := Get(w.led0, me), Get(w.led1, me);
    SurplusOrWrap(b0, r.r0);
    SurplusOrWrap(b1, r.r1);
    TransferStays(w.led0, me, to, WSub(b0, r.r0));
    TransferStays(w.led1, me, to, WSub(b1, r.r1));
  }

  lemma SurplusOrWrap(balance: Word, read: Word)
    ensures WSub(balance, read) <= balance ==> read <= balance && WSub(balance, read) == balance - read
  {
  }

  lemma SyncKeeps(v: Variant, me: Address, w: World)
    requires Solvent(me, w) && BalancesInRange(me, w)
    ensures SyncCall(v, me, w).Ok? <==> w.pair.unlocked == 1
    ensures SyncCall(v, me, w).Ok? ==>
      var w' := SyncCall(v, me, w).value.0;
      && Solvent(me, w') && NotDiluted(w.pair, w'.pair)
      && Fields(w'.pair.reserves) == Reserves(Get(w.led0, me), Get(w.led1, me), Fields(w.pair.reserves).ts)
  {
    ReadingBounds(v, w.pair);
    var f := Fields(w.pair.reserves);
    var b0, b1 := Get(w.led0, me), Get(w.led1, me);
    assert f.r0 <= b0 && f.r1 <= b1;
    hide Fields, GetReserves, Pack, Solvent, NotDiluted, ExactDecode;
    PackValue(b0, b1, f.ts);
    MulMono(f.r0, f.r1, b0, b1);
    if SyncCall(v, me, w).Ok? { ProductGrowth(me, w, SyncCall(v, me, w).value.0); }
  }

  // ----- every step, every run

  lemma StepKeeps(v: Variant, me: Address, w: World, a: Action)
    requires Solvent(me, w) && GoodStep(v, me, w, a)
    ensures Solvent(me, Step(v, me, w, a))
    ensures 0 < w.pair.totalSupply ==> NotDiluted(w.pair, Step(v, me, w, a).pair)
  {
    if Attempt(v, me, w, a).Ok? {
      match a
      case Mint(to, now) => MintKeeps(v, me, w, to, now);
      case Burn(to, now) => BurnKeeps(me, w, to, now);
      case Swap(out0, out1, to, now) => SwapKeeps(v, me, w, out0, out1, to, now);
      case Skim(to) => SkimKeeps(v, me, w, to);
      case Sync => SyncKeeps(v, me, w);
      case Initialize(_, _) =>
      case Approve(_, _, _) =>
      case Transfer(_, _, _) =>
      case TransferFrom(_, _, _, _) =>
      case TokensMove(_, _) =>
    }
  }

  lemma CreatedReads(v: Variant, me: Address, w: World)
    requires Created(w)
    ensures Solvent(me, w) && w.pair.totalSupply == 0 && w.pair.unlocked == 1
    ensures Reserve(v, w.pair) == Fields(w.pair.reserves) == Reserves(0, 0, 0)
  {
    DecodeIsExact(v.narrowMask, w.pair.reserves);
    hide GetReserves;
  }

  /** The first mint of a new pair. */
  lemma NewPairMint(v: Variant, me: Address, w: World, to: Address, now: Word)
    requires Created(w) && Get(w.led0, me) < TWO_112 && Get(w.led1, me) < TWO_112 && now < TWO_32
    requires 1000 < FloorSqrt(Times(Get(w.led0, me), Get(w.led1, me)))
    ensures var root := FloorSqrt(Times(Get(w.led0, me), Get(w.led1, me)));
      var reply, w' := MintCall(v, me, w, to, now), Step(v, me, w, Mint(to, now));
      && reply.Ok? && reply.value.1 == [root - 1000]
      && Solvent(me, w') && w'.pair.unlocked == 1 && w'.led0 == w.led0 && w'.led1 == w.led1
      && w'.pair.totalSupply == (if v.wholeFirstSupply then root else 1000)
      && Fields(w'.pair.reserves) == Reserves(Get(w.led0, me), Get(w.led1, me), now)
  {
    CreatedReads(v, me, w);
    NewPairReadable(v, me, w);
    MintStep(v, me, w, to, now);
    hide MintCall, FloorSqrt, Times, ShareOf, Fields, GetReserves, Step, Solvent, Readable, Created, Get;
    MintExact(v, me, w, to, now);
    MintKeeps(v, me, w, to, now);
    MintUnlocks(v, me, w, to, now);
  }

  lemma NewPairReadable(v: Variant, me: Address, w: World)
    requires Created(w) && Get(w.led0, me) < TWO_112 && Get(w.led1, me) < TWO_112
    ensures Readable(v, me, w) && HeldInRange(me, w)
  {
  }

  /** Good runs exist in both variants of the mask: an equal deposit of b > 1000 into a new pair mints
      b - 1000 shares, and the next mint is in range too exactly when b is a multiple of 2^16 or the mask is narrow. */
  lemma EqualDepositMints(v: Variant, me: Address, w: World, to: Address, now: Word, b: Word)
    requires Created(w) && 1000 < b < TWO_112 && now < TWO_32
    requires Get(w.led0, me) == b && Get(w.led1, me) == b
    ensures var reply := MintCall(v, me, w, to, now);
      && reply.Ok? && reply.value.1 == [b - 1000]
      && GoodRun(v, me, w, [Mint(to, now)])
      && (Readable(v, me, reply.value.0) <==> v.narrowMask || b % TWO_16 == 0)
  {
    TimesIsProduct(b, b);
    FloorSqrtUnique(b * b, b);
    NewPairMint(v, me, w, to, now);
    NewPairReadable(v, me, w);
    MintStep(v, me, w, to, now);
    hide MintCall, FloorSqrt, Times, Fields, Solvent, Step, Created, HeldInRange;
    assert GoodRun(v, me, Step(v, me, w, Mint(to, now)), []);
  }

  /** No product that the call `a` computes wraps modulo 2^256 (`Times` is the product), no amount of a
      mint is negative, and no divisor is zero while the supply is positive. */
  ghost predicate NothingWraps(v: Variant, me: Address, w: World, a: Action) {
    var r, f, supply, burned := Reserve(v, w.pair), Fields(w.pair.reserves), w.pair.totalSupply, Get(w.pair.balanceOf, me);
    var b0, b1 := Get(w.led0, me), Get(w.led1, me);
    && supply < TWO_112
    && (0 < supply ==> 0 < f.r0 && 0 < f.r1)
    && match a
       case Mint(_, _) =>
         && r == f && WSub(b0, r.r0) + r.r0 == b0 && WSub(b1, r.r1) + r.r1 == b1
         && WMul(WSub(b0, r.r0), WSub(b1, r.r1)) == Times(WSub(b0, r.r0), WSub(b1, r.r1))
         && WMul(WSub(b0, r.r0), supply) == Times(WSub(b0, r.r0), supply)
         && WMul(WSub(b1, r.r1), supply) == Times(WSub(b1, r.r1), supply)
       case Burn(_, _) => WMul(burned, b0) == Times(burned, b0) && WMul(burned, b1) == Times(burned, b1)
       case Swap(_, _, _, _) =>
         WMul(WMul(WMul(r.r0, r.r1), 1000), 1000) == 1000000 * Times(r.r0, r.r1) && SwapProductsExact(b0, b1)
       case _ => true
  }

  /** So for all that its payouts can leave of the two balances and all that can have come in. */
  ghost predicate SwapProductsExact(held0: Word, held1: Word) {
    forall b0: Word, in0: Word, b1: Word, in1: Word | in0 <= b0 <= held0 && in1 <= b1 <= held1 ::
      SwapProductExact(b0, in0, b1, in1)
  }

  lemma SwapProducts(held0: Word, held1: Word)
    requires held0 < TWO_112 && held1 < TWO_112
    ensures SwapProductsExact(held0, held1)
  {
    hide SwapProductExact;
    forall b0: Word, in0: Word, b1: Word, in1: Word | in0 <= b0 <= held0 && in1 <= b1 <= held1
      ensures SwapProductExact(b0, in0, b1, in1)
    {
      SwapProduct(b0, in0, b1, in1);
    }
  }

  lemma NoWrap(a: Word, b: Word)
    requires a < TWO_112 && b < TWO_112
    ensures WMul(a, b) == Times(a, b)
  {
    ProductFits(a, b);
    TimesIsProduct(a, b);
    hide WMul, Times;
  }

  lemma HeldNoWrap(a: Word, b: Word)
    requires a <= TWO_144 + TWO_32 && b < TWO_112
    ensures WMul(a, b) == Times(a, b)
  {
    HeldProductFits(a, b);
    TimesIsProduct(a, b);
    hide WMul, Times;
  }

  lemma SolventMeansExact(v: Variant, me: Address, w: World, a: Action)
    requires Solvent(me, w) && GoodStep(v, me, w, a)
    ensures NothingWraps(v, me, w, a)
  {
    SolventSupply(me, w);
    SolventReserves(me, w);
    ReadingBounds(v, w.pair);
    hide Solvent, Fields, GetReserves, WSub, WMul, Times, SwapProductsExact;
    var b0, b1 := Get(w.led0, me), Get(w.led1, me);
    match a
    case Mint(_, _) => MintNumbers(v, me, w);
    case Burn(_, _) =>
      HeldNoWrap(Get(w.pair.balanceOf, me), b0);
      HeldNoWrap(Get(w.pair.balanceOf, me), b1);
    case Swap(_, _, _, _) =>
      var r := Reserve(v, w.pair);
      ScaledWraps(r.r0, r.r1);
      SwapProducts(b0, b1);
    case _ =>
  }

  lemma SolventHolds(me: Address, w: World)
    requires Solvent(me, w)
    ensures var f := Fields(w.pair.reserves); f.r0 <= Get(w.led0, me) && f.r1 <= Get(w.led1, me)
  {
  }

  lemma SolventReserves(me: Address, w: World)
    requires Solvent(me, w)
    ensures var f := Fields(w.pair.reserves); 0 < w.pair.totalSupply ==> 0 < f.r0 && 0 < f.r1
  {
    hide Fields;
    var f := Fields(w.pair.reserves);
    if 0 < w.pair.totalSupply { PositiveFactors(w.pair.totalSupply, f.r0, f.r1); }
  }

  lemma MintNumbers(v: Variant, me: Address, w: World)
    requires Solvent(me, w) && Readable(v, me, w)
    ensures var r, supply := Reserve(v, w.pair), w.pair.totalSupply;
      var amount0, amount1 := WSub(Get(w.led0, me), r.r0), WSub(Get(w.led1, me), r.r1);
      && amount0 + r.r0 == Get(w.led0, me) && amount1 + r.r1 == Get(w.led1, me)
      && WMul(amount0, amount1) == Times(amount0, amount1)
      && WMul(amount0, supply) == Times(amount0, supply) && WMul(amount1, supply) == Times(amount1, supply)
  {
    NumbersAreSmall(v, me, w);
    hide Solvent, Fields, GetReserves, WSub, WMul, Times;
    var r, supply := Reserve(v, w.pair), w.pair.totalSupply;
    var amount0, amount1 := WSub(Get(w.led0, me), r.r0), WSub(Get(w.led1, me), r.r1);
    NoWrap(amount0, amount1);
    NoWrap(amount0, supply);
    NoWrap(amount1, supply);
  }

  lemma TwoSteps(v: Variant, me: Address, w: World, a: Action, b: Action)
    ensures Run(v, me, w, [a, b]) == Step(v, me, Step(v, me, w, a), b)
  {
    hide Step;
    assert [a, b][1..] == [b] && [b][1..] == [];
    assert Run(v, me, Step(v, me, w, a), [b]) == Step(v, me, Step(v, me, w, a), b);
  }

  /** Every state that a good run passes through is solvent, and nothing wraps in the step taken from it. */
  lemma {:induction false} RunIsSolvent(v: Variant, me: Address, w: World, actions: seq<Action>, i: nat)
    requires Solvent(me, w) && GoodRun(v, me, w, actions) && i <= |actions|
    ensures Solvent(me, Run(v, me, w, actions[..i]))
    ensures i < |actions| ==> NothingWraps(v, me, Run(v, me, w, actions[..i]), actions[i])
    decreases i
  {
    hide Step, GoodStep, Solvent, NothingWraps;
    if i < |actions| && i == 0 {
      SolventMeansExact(v, me, w, actions[0]);
    }
    if 0 < i {
      StepKeeps(v, me, w, actions[0]);
      RunIsSolvent(v, me, Step(v, me, w, actions[0]), actions[1..], i - 1);
      assert actions[..i][1..] == actions[1..][..i - 1];
    }
  }

  /** The supply is positive before every step of the run. */
  ghost predicate StaysPositive(v: Variant, me: Address, w: World, actions: seq<Action>)
    decreases |actions|
  {
    actions != [] ==>
      0 < w.pair.totalSupply && StaysPositive(v, me, Step(v, me, w, actions[0]), actions[1..])
  }

  lemma NotDilutedTrans(s: Slots, t: Slots, u: Slots)
    requires 0 < t.totalSupply && NotDiluted(s, t) && NotDiluted(t, u)
    ensures NotDiluted(s, u)
  {
    var fs, ft, fu := Fields(s.reserves), Fields(t.reserves), Fields(u.reserves);
    RatioTrans(fs.r0 * fs.r1, s.totalSupply * s.totalSupply,
               ft.r0 * ft.r1, t.totalSupply * t.totalSupply,
               fu.r0 * fu.r1, u.totalSupply * u.totalSupply);
  }

  lemma RatioTrans(a: nat, p: nat, b: nat, q: nat, c: nat, r: nat)
    requires 0 < q && a * q <= b * p && b * r <= c * q
    ensures a * r <= c * p
  {
    MulMono(a * q, r, b * p, r);
    MulMono(b * r, p, c * q, p);
    assert (a * q) * r == q * (a * r);
    assert (b * p) * r == (b * r) * p;
    assert (c * q) * p == q * (c * p);
    MulCancel(q, a * r, c * p);
  }

  /** Across any segment of a good run with positive supply, value per share never falls. */
  lemma {:induction false} ShareValueNeverFalls(v: Variant, me: Address, w: World, actions: seq<Action>)
    requires Solvent(me, w) && GoodRun(v, me, w, actions) && StaysPositive(v, me, w, actions)
    ensures NotDiluted(w.pair, Run(v, me, w, actions).pair)
    decreases |actions|
  {
    if actions != [] {
      StepKeeps(v, me, w, actions[0]);
      var next := Step(v, me, w, actions[0]);
      ShareValueNeverFalls(v, me, next, actions[1..]);
      if |actions| > 1 {
        NotDilutedTrans(w.pair, next.pair, Run(v, me, w, actions).pair);
      }
    }
  }

  // ----- runs of swaps

  ghost predicate OnlySwaps(actions: seq<Action>) {
    forall a <- actions :: a.Swap? || a.TokensMove?
  }

  ghost predicate SomeSwapSucceeds(v: Variant, me: Address, w: World, actions: seq<Action>)
    decreases |actions|
  {
    actions != [] &&
    ((actions[0].Swap? && Attempt(v, me, w, actions[0]).Ok?)
     || SomeSwapSucceeds(v, me, Step(v, me, w, actions[0]), actions[1..]))
  }

  /** Over a run of swaps the reserve product never falls, and rises once a swap succeeds; so the
      pair cannot end with both reserves no larger than at the start. */
  lemma {:induction false} SwapRunGrows(v: Variant, me: Address, w: World, actions: seq<Action>)
    requires OnlySwaps(actions) && GoodRun(v, me, w, actions)
    ensures var f, f' := Fields(w.pair.reserves), Fields(Run(v, me, w, actions).pair.reserves);
      && f.r0 * f.r1 <= f'.r0 * f'.r1
      && (SomeSwapSucceeds(v, me, w, actions) ==> f.r0 * f.r1 < f'.r0 * f'.r1 && !(f'.r0 <= f.r0 && f'.r1 <= f.r1))
    decreases |actions|
  {
    if actions != [] {
      var a := actions[0];
      SwapRunGrows(v, me, Step(v, me, w, a), actions[1..]);
      if a.Swap? && Attempt(v, me, w, a).Ok? {
        SwapGrows(v, me, w, a.out0, a.out1, a.to, a.now);
      }
      hide Fields, SwapCall, GoodRun;
      var f, f' := Fields(w.pair.reserves), Fields(Run(v, me, w, actions).pair.reserves);
      if f'.r0 <= f.r0 && f'.r1 <= f.r1 { MulMono(f'.r0, f'.r1, f.r0, f.r1); }
    }
  }
}
