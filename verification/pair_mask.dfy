/** The 128-bit mask of `get_reserves`: what skim and mint do when reserve0 does not end in 16 zero bits. */
module PairMask {
  import opened Words
  import opened PackedReserves
  import opened Ledgers
  import opened Sqrt
  import opened PairSpec
  import opened PairSafety

  // ----- skim

  /** In a solvent pair `skim` works exactly when the decode reads the declared fields. */
  lemma SkimWorksIff(v: Variant, me: Address, w: World, to: Address)
    requires Solvent(me, w) && w.pair.unlocked == 1
    requires Get(w.led0, me) < TWO_112 && Get(w.led1, me) < TWO_112
    requires Total(w.led0) < TWO_256 && Total(w.led1) < TWO_256
    ensures SkimCall(v, me, w, to).Ok? <==> ExactDecode(v, w.pair)
  {
    var f, r := Fields(w.pair.reserves), Reserve(v, w.pair);
    SolventHolds(me, w);
    hide Solvent, Fields, GetReserves, TokenTransfer, WSub;
    GetReservesValue(v.narrowMask, w.pair.reserves);
    var send0, send1 := WSub(Get(w.led0, me), r.r0), WSub(Get(w.led1, me), r.r1);
    WSubExact(Get(w.led0, me), f.r0);
    SurplusPayable(Get(w.led1, me), f.r1, r.r1, f.r0 % TWO_16, v.narrowMask);
    TransferSucceeds(w.led0, me, to, send0);
    TransferSucceeds(w.led1, me, to, send1);
  }

  lemma SurplusPayable(balance: Word, field: Word, read: Word, leak: nat, narrow: bool)
    requires field <= balance < TWO_112 && leak < TWO_16
    requires read == field + (if narrow then 0 else TWO_112 * leak)
    ensures WSub(balance, read) <= balance <==> narrow || leak == 0
  {
  }

  // ----- mint

  const TWO_127: nat := TWO_128 / 2

  /** What a later mint relies on besides the decode. */
  ghost predicate ReadyToMint(me: Address, w: World, now: Word) {
    && Solvent(me, w) && w.pair.unlocked == 1 && 0 < w.pair.totalSupply && now < TWO_32
    && Get(w.led0, me) < TWO_112 && Get(w.led1, me) < TWO_112
  }

  lemma NegativeTimes(x: nat, s: nat, p: nat)
    requires 0 < s && p == x * s && 0 < p < TWO_256 && x < TWO_256
    ensures (TWO_256 - x) * s % TWO_256 == TWO_256 - p
  {
    assert (TWO_256 - x) * s == TWO_256 * s - p;
    ModShift(TWO_256 - p, s - 1);
  }

  /** A reserve1 that reads 2^112 or more above its field makes the amount wrap to nearly 2^256. */
  lemma WrappedAmount(balance: Word, read: Word, supply: Word)
    requires balance < TWO_112 <= read < TWO_128 && 0 < supply < TWO_112
    ensures WMul(WSub(balance, read), supply) == TWO_256 - Times(read - balance, supply) >= TWO_256 - TWO_128 * TWO_112
  {
    var missing: nat := read - balance;
    NegativeWord(balance, read);
    hide WMul, WSub, Times;
    MissingBounds(missing, supply);
    NegativeTimes(missing, supply, missing * supply);
    WMulIsModular(TWO_256 - missing, supply);
    TimesIsProduct(missing, supply);
  }

  lemma NegativeWord(a: Word, b: Word)
    requires a < b
    ensures WSub(a, b) == TWO_256 - (b - a)
  {
  }

  lemma MissingBounds(missing: nat, supply: nat)
    requires 0 < missing < TWO_128 && 0 < supply < TWO_112
    ensures 0 < missing * supply <= TWO_128 * TWO_112 < TWO_256
  {
    MulMono(missing, supply, TWO_128, TWO_112);
    MulMono(1, 1, missing, supply);
  }

  /** So token1's share of a mint is beyond anything a deposit could earn. */
  lemma WrappedShare(balance: Word, read: Word, supply: Word)
    requires balance < TWO_112 <= read < TWO_128 && 0 < supply < TWO_112
    ensures Quotient(WMul(WSub(balance, read), supply), read) >= TWO_127
  {
    WrappedAmount(balance, read, supply);
    var product := WMul(WSub(balance, read), supply);
    DivAtMost(product, read, TWO_127);
    hide WMul, Quotient, WSub;
    MulMono(TWO_127, read, TWO_127, TWO_128);
    assert TWO_127 * TWO_128 <= TWO_256 - TWO_128 * TWO_112;
  }

  lemma ReadingIsWide(v: Variant, me: Address, w: World)
    requires !ExactDecode(v, w.pair) && Solvent(me, w)
    ensures var f, r := Fields(w.pair.reserves), Reserve(v, w.pair);
      && r.r0 == f.r0 && TWO_112 <= r.r1 < TWO_128
      && f.r0 <= Get(w.led0, me) && f.r1 <= Get(w.led1, me)
  {
    GetReservesValue(v.narrowMask, w.pair.reserves);
    hide GetReserves;
  }

  lemma IssuedOf(v: Variant, s: Slots, r: Reserves, b0: Word, b1: Word, l0: Word, l1: Word)
    requires 0 < s.totalSupply < TWO_112 && 0 < r.r0 && 0 < r.r1 && l0 < TWO_256 - TWO_112
    requires l0 == Quotient(WMul(WSub(b0, r.r0), s.totalSupply), r.r0)
    requires l1 == Quotient(WMul(WSub(b1, r.r1), s.totalSupply), r.r1)
    ensures var liquidity := if l0 < l1 then l0 else l1;
      var issued := Issued(v, s, r, b0, b1);
      && (issued.Ok? <==> 0 < liquidity)
      && (issued.Ok? ==> issued.value.1 == liquidity && issued.value.0.totalSupply == s.totalSupply + liquidity)
  {
    hide Quotient, WMul, WSub, FirstMint;
  }

  /** A later mint whose two shares are known, the supply plus the smaller of them still a word. */
  lemma MintOfShares(v: Variant, me: Address, w: World, to: Address, now: Word, r: Reserves, l0: Word, l1: Word)
    requires w.pair.unlocked == 1 && 0 < w.pair.totalSupply < TWO_112 && now < TWO_32
    requires Get(w.led0, me) < TWO_112 && Get(w.led1, me) < TWO_112
    requires r == Reserve(v, w.pair) && 0 < r.r0 && 0 < r.r1 && l0 < TWO_256 - TWO_112
    requires l0 == Quotient(WMul(WSub(Get(w.led0, me), r.r0), w.pair.totalSupply), r.r0)
    requires l1 == Quotient(WMul(WSub(Get(w.led1, me), r.r1), w.pair.totalSupply), r.r1)
    ensures var liquidity := if l0 < l1 then l0 else l1;
      var reply := MintCall(v, me, w, to, now);
      && (reply.Ok? <==> 0 < liquidity)
      && (reply.Ok? ==>
          && reply.value.1 == [liquidity]
          && reply.value.0.pair.totalSupply == w.pair.totalSupply + liquidity
          && Fields(reply.value.0.pair.reserves) == Reserves(Get(w.led0, me), Get(w.led1, me), now))
  {
    MintParts(v, me, w, to, now);
    PackFits(Get(w.led0, me), Get(w.led1, me), now);
    IssuedOf(v, w.pair.(unlocked := 0), r, Get(w.led0, me), Get(w.led1, me), l0, l1);
    hide MintCall, GetReserves, Pack, Fields, Quotient, WMul, WSub, WAdd, Issued;
  }

  /** When the decode is not exact, token1 no longer limits a later mint: it succeeds exactly when
      token0's share is positive, and credits at most that share. */
  lemma InexactMintIff(v: Variant, me: Address, w: World, to: Address, now: Word)
    requires !ExactDecode(v, w.pair) && ReadyToMint(me, w, now)
    ensures var f, supply := Fields(w.pair.reserves), w.pair.totalSupply;
      var reply := MintCall(v, me, w, to, now);
      && 0 < f.r0 <= Get(w.led0, me)
      && var share0 := ShareOf(Get(w.led0, me) - f.r0, supply, f.r0);
      && (reply.Ok? <==> 0 < share0)
      && (reply.Ok? ==>
          && |reply.value.1| == 1
          && 0 < reply.value.1[0] <= share0
          && (reply.value.1[0] == share0 || TWO_127 <= reply.value.1[0])
          && reply.value.0.pair.totalSupply == supply + reply.value.1[0]
          && Fields(reply.value.0.pair.reserves) == Reserves(Get(w.led0, me), Get(w.led1, me), now))
  {
    ReadingIsWide(v, me, w);
    SolventSupply(me, w);
    FieldsBounds(w.pair.reserves);
    var f, r, supply := Fields(w.pair.reserves), Reserve(v, w.pair), w.pair.totalSupply;
    PositiveFactors(supply, f.r0, f.r1);
    hide Solvent, Fields, GetReserves, MintCall, ShareOf, Quotient, WMul, WSub;
    WSubExact(Get(w.led0, me), f.r0);
    SharesAreWords(Get(w.led0, me) - f.r0, supply, f.r0);
    WrappedShare(Get(w.led1, me), r.r1, supply);
    var l0: Word := Quotient(WMul(WSub(Get(w.led0, me), r.r0), supply), r.r0);
    var l1: Word := Quotient(WMul(WSub(Get(w.led1, me), r.r1), supply), r.r1);
    MintOfShares(v, me, w, to, now, r, l0, l1);
  }

  /** Shares of either size outgrow a one-sided deposit. */
  lemma OneSideOutgrown(s: nat, l: nat, r0: nat, r1: nat, a: nat)
    requires 0 < l && 0 < r0 && 0 < r1 < TWO_112 && a < TWO_112 && s * s <= r0 * r1
    requires a * s < (l + 1) * r0 || TWO_127 <= l
    ensures (r0 + a) * (s * s) < r0 * ((s + l) * (s + l))
  {
    assert (s + l) * (s + l) == s * s + 2 * (s * l) + l * l;
    assert r0 * ((s + l) * (s + l)) == r0 * (s * s) + 2 * (r0 * (s * l)) + r0 * (l * l);
    assert (r0 + a) * (s * s) == r0 * (s * s) + a * (s * s);
    if TWO_127 <= l { LargeSharesOutgrow(s, l, r0, r1, a); } else { SmallSharesOutgrow(s, l, r0, a); }
  }

  lemma LargeSharesOutgrow(s: nat, l: nat, r0: nat, r1: nat, a: nat)
    requires 0 < r0 && r1 < TWO_112 && a < TWO_112 && s * s <= r0 * r1 && TWO_127 <= l
    ensures a * (s * s) < 2 * (r0 * (s * l)) + r0 * (l * l)
  {
    MulMono(a, s * s, TWO_112, r0 * r1);
    MulMono(r0, r1, r0, TWO_112);
    MulMono(TWO_127, TWO_127, l, l);
    MulMono(r0, TWO_127 * TWO_127, r0, l * l);
    assert TWO_112 * TWO_112 < TWO_127 * TWO_127;
    MulMono(r0, TWO_112 * TWO_112 + 1, r0, TWO_127 * TWO_127);
    assert TWO_112 * (r0 * TWO_112) == r0 * (TWO_112 * TWO_112);
    assert 0 <= r0 * (s * l);
  }

  lemma SmallSharesOutgrow(s: nat, l: nat, r0: nat, a: nat)
    requires 0 < l && 0 < r0 && a * s < (l + 1) * r0
    ensures a * (s * s) < 2 * (r0 * (s * l)) + r0 * (l * l)
  {
    MulMono(l + 1, r0, 2 * l, r0);
    MulMono(a * s, s, 2 * l * r0, s);
    assert a * (s * s) == (a * s) * s;
    assert 2 * l * r0 * s == 2 * (r0 * (s * l));
    MulMono(1, 1, l, l);
    MulMono(1, 1, r0, l * l);
  }

  lemma TimesCommon(a: nat, b: nat, k: nat)
    requires a < b && 0 < k
    ensures a * k < b * k
  {
    MulMono(a + 1, k, b, k);
    assert (a + 1) * k == a * k + k;
  }

  lemma OneSideDilutes(s: nat, l: nat, r0: nat, r1: nat, b: nat)
    requires 0 < s && s * s <= r0 * r1 && r1 < TWO_112 && r0 <= b < TWO_112
    requires 0 < l && (l == ShareOf(b - r0, s, r0) || TWO_127 <= l)
    ensures (b * r1) * (s * s) < (r0 * r1) * ((s + l) * (s + l))
  {
    var a := b - r0;
    PositiveFactors(s, r0, r1);
    ShareLaw(a, s, r0, l + 1);
    hide ShareOf;
    OneSideOutgrown(s, l, r0, r1, a);
    Dilution(r0, r1, a, s, s + l);
  }

  lemma Diluted(s: Slots, s': Slots)
    requires var f, f' := Fields(s.reserves), Fields(s'.reserves);
      (f'.r0 * f'.r1) * (s.totalSupply * s.totalSupply) < (f.r0 * f.r1) * (s'.totalSupply * s'.totalSupply)
    ensures !NotDiluted(s, s')
  {
    hide Fields;
  }

  lemma ReadyNumbers(me: Address, w: World, now: Word)
    requires ReadyToMint(me, w, now)
    ensures var f, supply := Fields(w.pair.reserves), w.pair.totalSupply;
      && 0 < supply && supply * supply <= f.r0 * f.r1
      && f.r0 <= Get(w.led0, me) < TWO_112 && f.r1 < TWO_112
  {
    FieldsBounds(w.pair.reserves);
    hide Fields;
  }

  lemma InexactOneSided(v: Variant, me: Address, w: World, to: Address, now: Word)
    requires !ExactDecode(v, w.pair) && ReadyToMint(me, w, now) && Fields(w.pair.reserves).r1 == Get(w.led1, me)
    ensures var reply := MintCall(v, me, w, to, now);
      reply.Ok? ==> !NotDiluted(w.pair, reply.value.0.pair)
  {
    hide *;
    InexactMintIff(v, me, w, to, now);
    ReadyNumbers(me, w, now);
    if MintCall(v, me, w, to, now).Ok? {
      var f := Fields(w.pair.reserves);
      var (w', minted) := MintCall(v, me, w, to, now).value;
      OneSideDilutes(w.pair.totalSupply, minted[0], f.r0, f.r1, Get(w.led0, me));
      Diluted(w.pair, w'.pair);
    }
  }

  lemma ExactOneSided(v: Variant, me: Address, w: World, to: Address, now: Word)
    requires ExactDecode(v, w.pair) && ReadyToMint(me, w, now) && Fields(w.pair.reserves).r1 == Get(w.led1, me)
    ensures MintCall(v, me, w, to, now).Halted?
    ensures 0 < Fields(w.pair.reserves).r0 <= Get(w.led0, me)
  {
    MintExact(v, me, w, to, now);
    NumbersAreSmall(v, me, w);
    NothingForNothing(w.pair.totalSupply, Reserve(v, w.pair).r1);
    hide Fields, MintCall, ShareOf, GetReserves;
  }

  /** A deposit of token0 alone into a pair with shares: accepted exactly when the decode is not exact
      and the deposit is worth a share, and then every holder is diluted. */
  lemma OneSidedMintIff(v: Variant, me: Address, w: World, to: Address, now: Word)
    requires ReadyToMint(me, w, now) && Fields(w.pair.reserves).r1 == Get(w.led1, me)
    ensures var f := Fields(w.pair.reserves);
      var reply := MintCall(v, me, w, to, now);
      && 0 < f.r0 <= Get(w.led0, me)
      && (reply.Ok? <==> !ExactDecode(v, w.pair) && 0 < ShareOf(Get(w.led0, me) - f.r0, w.pair.totalSupply, f.r0))
      && (reply.Ok? ==> !NotDiluted(w.pair, reply.value.0.pair))
  {
    hide *;
    if !ExactDecode(v, w.pair) {
      InexactMintIff(v, me, w, to, now);
      InexactOneSided(v, me, w, to, now);
    } else {
      ExactOneSided(v, me, w, to, now);
    }
  }

  lemma NothingForNothing(supply: nat, r: nat)
    ensures ShareOf(0, supply, r) == 0
  {
  }

  lemma Dilution(r0: nat, r1: nat, a: nat, s: nat, t: nat)
    requires 0 < r1 && (r0 + a) * (s * s) < r0 * (t * t)
    ensures ((r0 + a) * r1) * (s * s) < (r0 * r1) * (t * t)
  {
    TimesCommon((r0 + a) * (s * s), r0 * (t * t), r1);
    assert ((r0 + a) * r1) * (s * s) == ((r0 + a) * (s * s)) * r1;
    assert (r0 * r1) * (t * t) == (r0 * (t * t)) * r1;
  }

  /** The world after (d0, d1) has been sent to the pair. */
  ghost function Deposited(me: Address, w: World, d0: Word, d1: Word): World
    requires Get(w.led0, me) + d0 < TWO_112 && Get(w.led1, me) + d1 < TWO_112
  {
    w.(led0 := w.led0[me := Get(w.led0, me) + d0], led1 := w.led1[me := Get(w.led1, me) + d1])
  }

  /** The mint that follows a deposit of (d0, d1) is accepted and lowers the value of the existing shares. */
  ghost predicate Dilutes(v: Variant, me: Address, w: World, d0: Word, d1: Word, to: Address, now: Word) {
    && Get(w.led0, me) + d0 < TWO_112 && Get(w.led1, me) + d1 < TWO_112
    && var reply := MintCall(v, me, Deposited(me, w, d0, d1), to, now);
    reply.Ok? && !NotDiluted(w.pair, reply.value.0.pair)
  }

  lemma DepositKeeps(me: Address, w: World, d0: Word, d1: Word)
    requires Solvent(me, w) && Get(w.led0, me) + d0 < TWO_112 && Get(w.led1, me) + d1 < TWO_112
    ensures var w' := Deposited(me, w, d0, d1);
      && Solvent(me, w') && w'.pair == w.pair
      && Get(w'.led0, me) == Get(w.led0, me) + d0 && Get(w'.led1, me) == Get(w.led1, me) + d1
  {
    hide Fields;
  }

  lemma ExactNeverDilutes(v: Variant, me: Address, w: World, d0: Word, d1: Word, to: Address, now: Word)
    requires ExactDecode(v, w.pair) && ReadyToMint(me, w, now)
    ensures !Dilutes(v, me, w, d0, d1, to, now)
  {
    if Get(w.led0, me) + d0 < TWO_112 && Get(w.led1, me) + d1 < TWO_112 {
      DepositKeeps(me, w, d0, d1);
      hide Deposited, MintCall, NotDiluted, Solvent, Fields;
      MintKeeps(v, me, Deposited(me, w, d0, d1), to, now);
    }
  }

  lemma ShareMono(a: nat, b: nat, supply: nat, r: nat)
    requires a <= b && 0 < r && 0 < ShareOf(a, supply, r)
    ensures 0 < ShareOf(b, supply, r)
  {
    ShareLaw(a, supply, r, 1);
    ShareLaw(b, supply, r, 1);
    hide ShareOf;
    MulMono(a, supply, b, supply);
  }

  /** With a wrong decode the largest deposit of token0 dilutes if it is worth a share at all. */
  lemma InexactDilutes(v: Variant, me: Address, w: World, to: Address, now: Word)
    requires !ExactDecode(v, w.pair) && ReadyToMint(me, w, now)
    requires var f := Fields(w.pair.reserves); f.r0 == Get(w.led0, me) && f.r1 == Get(w.led1, me)
    ensures var f := Fields(w.pair.reserves);
      0 < ShareOf(TWO_112 - 1 - f.r0, w.pair.totalSupply, f.r0) ==> Dilutes(v, me, w, TWO_112 - 1 - f.r0, 0, to, now)
  {
    var b := Get(w.led0, me);
    DepositKeeps(me, w, TWO_112 - 1 - b, 0);
    hide Deposited, MintCall, NotDiluted, Solvent, Fields, ShareOf, ExactDecode;
    OneSidedMintIff(v, me, Deposited(me, w, TWO_112 - 1 - b, 0), to, now);
  }

  /** And otherwise no mint is accepted. */
  lemma WorthlessNeverDilutes(v: Variant, me: Address, w: World, d0: Word, d1: Word, to: Address, now: Word)
    requires !ExactDecode(v, w.pair) && ReadyToMint(me, w, now)
    requires var f := Fields(w.pair.reserves); f.r0 == Get(w.led0, me) && f.r1 == Get(w.led1, me)
    ensures var f := Fields(w.pair.reserves);
      Dilutes(v, me, w, d0, d1, to, now) ==> 0 < ShareOf(TWO_112 - 1 - f.r0, w.pair.totalSupply, f.r0)
  {
    var b, supply := Get(w.led0, me), w.pair.totalSupply;
    if Get(w.led0, me) + d0 < TWO_112 && Get(w.led1, me) + d1 < TWO_112 {
      DepositKeeps(me, w, d0, d1);
      hide Deposited, MintCall, NotDiluted, Solvent, Fields, ShareOf, ExactDecode;
      InexactMintIff(v, me, Deposited(me, w, d0, d1), to, now);
      if 0 < ShareOf(d0, supply, b) { ShareMono(d0, TWO_112 - 1 - b, supply, b); }
    }
  }

  /** So in a pair whose reserves are its balances, some deposit dilutes the holders exactly when the decode
      is wrong and the most token0 that there is room for is worth a share. */
  lemma SomeDepositDilutesIff(v: Variant, me: Address, w: World, to: Address, now: Word)
    requires ReadyToMint(me, w, now)
    requires var f := Fields(w.pair.reserves); f.r0 == Get(w.led0, me) && f.r1 == Get(w.led1, me)
    ensures var f := Fields(w.pair.reserves);
      (exists d0: Word, d1: Word :: Dilutes(v, me, w, d0, d1, to, now))
      <==> !ExactDecode(v, w.pair) && 0 < ShareOf(TWO_112 - 1 - f.r0, w.pair.totalSupply, f.r0)
  {
    FieldsBounds(w.pair.reserves);
    hide Dilutes, ExactDecode, ReadyToMint, Fields, ShareOf;
    var room: nat := TWO_112 - 1 - Fields(w.pair.reserves).r0;
    var worth := 0 < ShareOf(room, w.pair.totalSupply, Fields(w.pair.reserves).r0);
    forall d0: Word, d1: Word
      ensures Dilutes(v, me, w, d0, d1, to, now) ==> !ExactDecode(v, w.pair) && worth
    {
      if ExactDecode(v, w.pair) {
        ExactNeverDilutes(v, me, w, d0, d1, to, now);
      } else {
        WorthlessNeverDilutes(v, me, w, d0, d1, to, now);
      }
    }
    if !ExactDecode(v, w.pair) {
      InexactDilutes(v, me, w, to, now);
      assert worth ==> Dilutes(v, me, w, room, 0, to, now);
    }
  }

  /** The pair after an equal first deposit of b and a further b of token0 alone. */
  lemma AfterFirstDeposit(v: Variant, me: Address, w: World, u: Address, now1: Word, moved: Ledger, now2: Word, b: Word)
    requires !v.narrowMask && Created(w) && 1000 < b && 2 * b < TWO_112 && b % TWO_16 != 0 && now1 < TWO_32 && now2 < TWO_32
    requires Get(w.led0, me) == b && Get(w.led1, me) == b && Get(moved, me) == 2 * b
    ensures var w1 := Step(v, me, w, Mint(u, now1));
      var w2 := Step(v, me, w1, TokensMove(moved, w.led1));
      && w2.pair.totalSupply == (if v.wholeFirstSupply then b else 1000) < TWO_112
      && Fields(w2.pair.reserves) == Reserves(b, b, now1)
      && w2.led0 == moved && w2.led1 == w.led1
      && !ExactDecode(v, w2.pair) && ReadyToMint(me, w2, now2)
  {
    TimesIsProduct(b, b);
    FloorSqrtUnique(b * b, b);
    NewPairMint(v, me, w, u, now1);
    hide MintCall, Fields, FloorSqrt, Times;
    TokensArrive(v, me, Step(v, me, w, Mint(u, now1)), moved, w.led1);
    hide Step, Solvent, Created;
    var w2 := Step(v, me, Step(v, me, w, Mint(u, now1)), TokensMove(moved, w.led1));
    SolventAfterArrival(me, Step(v, me, w, Mint(u, now1)), w2);
  }

  lemma TokensArrive(v: Variant, me: Address, w: World, led0: Ledger, led1: Ledger)
    requires Get(w.led0, me) <= Get(led0, me) && Get(w.led1, me) <= Get(led1, me)
    ensures Step(v, me, w, TokensMove(led0, led1)) == w.(led0 := led0, led1 := led1)
  {
  }

  lemma SolventAfterArrival(me: Address, w: World, w': World)
    requires Solvent(me, w) && w' == w.(led0 := w'.led0, led1 := w'.led1)
    requires Get(w.led0, me) <= Get(w'.led0, me) && Get(w.led1, me) <= Get(w'.led1, me)
    ensures Solvent(me, w')
  {
  }

  /** Such a step is reachable under the 128-bit mask: deposit b > 1000 of both tokens, b no multiple of
      2^16, then b of token0 alone. The second mint is accepted and dilutes the first depositor; with the
      whole first supply stored it even leaves supply^2 above the product of the reserves. */
  lemma OneSidedDepositDilutes(v: Variant, me: Address, w: World, u: Address, now1: Word, moved: Ledger, to: Address, now2: Word, b: Word)
    requires !v.narrowMask && Created(w) && 1000 < b && 2 * b < TWO_112 && b % TWO_16 != 0 && now1 < TWO_32 && now2 < TWO_32
    requires Get(w.led0, me) == b && Get(w.led1, me) == b && Get(moved, me) == 2 * b
    ensures var w2 := Run(v, me, w, [Mint(u, now1), TokensMove(moved, w.led1)]);
      var w3 := Step(v, me, w2, Mint(to, now2));
      && MintCall(v, me, w2, to, now2).Ok?
      && !NotDiluted(w2.pair, w3.pair)
      && (v.wholeFirstSupply ==> !Solvent(me, w3))
  {
    hide *;
    AfterFirstDeposit(v, me, w, u, now1, moved, now2, b);
    TwoSteps(v, me, w, Mint(u, now1), TokensMove(moved, w.led1));
    var w2 := Run(v, me, w, [Mint(u, now1), TokensMove(moved, w.led1)]);
    OneSidedMintIff(v, me, w2, to, now2);
    InexactMintIff(v, me, w2, to, now2);
    WholeShare(b, w2.pair.totalSupply);
    MintStep(v, me, w2, to, now2);
    var liquidity := MintCall(v, me, w2, to, now2).value.1[0];
    SmallShare(liquidity, w2.pair.totalSupply);
    if v.wholeFirstSupply { DoubledSupply(me, Step(v, me, w2, Mint(to, now2)), b); }
  }

  lemma SmallShare(l: nat, share: nat)
    requires l <= share < TWO_112 && (l == share || TWO_127 <= l)
    ensures l == share
  {
  }

  lemma DoubledSupply(me: Address, w: World, b: Word)
    requires 0 < b && w.pair.totalSupply == 2 * b
    requires Fields(w.pair.reserves).r0 == 2 * b && Fields(w.pair.reserves).r1 == b
    ensures !Solvent(me, w)
  {
    hide Fields;
    assert (2 * b) * (2 * b) == 2 * ((2 * b) * b);
    MulMono(1, 1, 2 * b, b);
  }

  // ----- the first mint over left-over reserves

  /** The root that a first mint takes when reserve1 reads past the balance by `missing1`: that of
      the negative product, modulo 2^256. */
  ghost function WrappedRoot(amount0: nat, missing1: nat): nat {
    var product := Times(missing1, amount0);
    if 0 < product < TWO_256 then FloorSqrt(TWO_256 - product) else 0
  }

  lemma WrappedRootBounds(balance: Word, read: Word, amount0: Word)
    requires balance < TWO_112 <= read < TWO_128 && amount0 < TWO_112
    ensures FloorSqrt(WMul(amount0, WSub(balance, read))) == WrappedRoot(amount0, read - balance)
    ensures amount0 == 0 ==> WrappedRoot(amount0, read - balance) == 0
    ensures 0 < amount0 ==> TWO_127 <= WrappedRoot(amount0, read - balance) < TWO_128
  {
    WMulCommutes(amount0, WSub(balance, read));
    if amount0 == 0 {
      ZeroProduct(WSub(balance, read));
      TimesIsProduct(read - balance, 0);
      FloorSqrtUnique(0, 0);
      hide WMul, WSub, FloorSqrt, Times;
    } else {
      WrappedAmount(balance, read, amount0);
      hide WMul, WSub, FloorSqrt, Times;
      LargeRoot(WMul(WSub(balance, read), amount0));
    }
  }

  lemma LargeRoot(y: Word)
    requires TWO_256 - TWO_128 * TWO_112 <= y
    ensures TWO_127 <= FloorSqrt(y) < TWO_128
  {
    RootIsWord(y);
    hide FloorSqrt;
    assert TWO_127 * TWO_127 <= TWO_256 - TWO_128 * TWO_112;
    RootAtLeast(y, TWO_127);
  }

  lemma WMulCommutes(a: Word, b: Word)
    ensures WMul(a, b) == WMul(b, a)
  {
    WMulIsModular(a, b);
    WMulIsModular(b, a);
    hide WMul;
    assert a * b == b * a;
  }

  lemma ZeroProduct(a: Word)
    ensures WMul(a, 0) == 0
  {
    TimesIsProduct(a, 0);
    hide Times;
  }

  lemma RootAtLeast(y: nat, z: nat)
    requires z * z <= y
    ensures z <= FloorSqrt(y)
  {
    FloorSqrtIsRoot(y);
    hide FloorSqrt;
    var r := FloorSqrt(y);
    if r < z { MulMono(r + 1, r + 1, z, z); }
  }

  /** With no supply, reserves left over and a wrong decode, any deposit of token0 is a first mint of
      at least 2^127 shares, the 1000 locked ones included, whatever was paid of token1. */
  lemma InexactFirstMintIff(v: Variant, me: Address, w: World, to: Address, now: Word)
    requires !ExactDecode(v, w.pair) && Solvent(me, w) && BalancesInRange(me, w)
    requires w.pair.unlocked == 1 && w.pair.totalSupply == 0 && now < TWO_32
    ensures var f, r, b0, b1 := Fields(w.pair.reserves), Reserve(v, w.pair), Get(w.led0, me), Get(w.led1, me);
      var reply := MintCall(v, me, w, to, now);
      && f.r0 <= b0 && b1 < r.r1
      && var root := WrappedRoot(b0 - f.r0, r.r1 - b1);
      && (reply.Ok? <==> f.r0 < b0)
      && (reply.Ok? ==>
          && TWO_127 <= root < TWO_128
          && reply.value.1 == [root - 1000]
          && reply.value.0.pair.totalSupply == (if v.wholeFirstSupply then root else 1000)
          && (v.wholeFirstSupply ==> !Solvent(me, reply.value.0)))
  {
    hide MintCall, Solvent, Fields, GetReserves, Pack, WSub, WMul, FloorSqrt, WrappedRoot, Credit, Issued, ExactDecode;
    ReadingIsWide(v, me, w);
    MintParts(v, me, w, to, now);
    var r, b0, b1 := Reserve(v, w.pair), Get(w.led0, me), Get(w.led1, me);
    WSubExact(b0, r.r0);
    WrappedRootBounds(b1, r.r1, b0 - r.r0);
    FirstIssue(v, w.pair.(unlocked := 0), r, b0, b1, WrappedRoot(b0 - r.r0, r.r1 - b1));
    if MintCall(v, me, w, to, now).Ok? {
      var issued := Issued(v, w.pair.(unlocked := 0), r, b0, b1).value;
      CreditFrame(issued.0, to, issued.1);
      if v.wholeFirstSupply { WideSupply(me, MintCall(v, me, w, to, now).value.0); }
    }
  }

  lemma FirstIssue(v: Variant, s: Slots, r: Reserves, b0: Word, b1: Word, root: nat)
    requires s.totalSupply == 0 && root == FloorSqrt(WMul(WSub(b0, r.r0), WSub(b1, r.r1))) < TWO_128
    ensures var issued := Issued(v, s, r, b0, b1);
      && (issued.Ok? <==> 1000 < root)
      && (issued.Ok? ==>
          && issued.value.1 == root - 1000
          && issued.value.0.totalSupply == if v.wholeFirstSupply then root else 1000)
  {
    hide WMul, WSub, FloorSqrt;
  }

  lemma WideSupply(me: Address, w: World)
    requires TWO_112 <= w.pair.totalSupply
    ensures !Solvent(me, w)
  {
    if Solvent(me, w) { SolventSupply(me, w); }
    hide Solvent;
  }

  /** Reserves are left over without a supply in a new pair that is synced before its first mint. */
  lemma FirstMintAfterSync(v: Variant, me: Address, w: World, moved: Ledger, to: Address, now: Word)
    requires !v.narrowMask && Created(w) && BalancesInRange(me, w) && now < TWO_32
    requires Get(w.led0, me) % TWO_16 != 0 && Get(w.led0, me) < Get(moved, me) < TWO_112
    ensures var w2 := Run(v, me, w, [Sync, TokensMove(moved, w.led1)]);
      var reply := MintCall(v, me, w2, to, now);
      && Solvent(me, w2) && w2.pair.totalSupply == 0
      && reply.Ok? && |reply.value.1| == 1 && TWO_127 - 1000 <= reply.value.1[0]
      && (v.wholeFirstSupply ==> !Solvent(me, reply.value.0))
  {
    CreatedReads(v, me, w);
    TwoSteps(v, me, w, Sync, TokensMove(moved, w.led1));
    AfterSync(v, me, w);
    var w1 := Step(v, me, w, Sync);
    TokensArrive(v, me, w1, moved, w.led1);
    SolventAfterArrival(me, w1, w1.(led0 := moved, led1 := w.led1));
    hide Solvent, Fields, Step, Created, MintCall, WrappedRoot, Run;
    var w2 := Step(v, me, w1, TokensMove(moved, w.led1));
    InexactFirstMintIff(v, me, w2, to, now);
  }

  lemma AfterSync(v: Variant, me: Address, w: World)
    requires Created(w) && BalancesInRange(me, w)
    ensures var w1 := Step(v, me, w, Sync);
      && Solvent(me, w1) && w1.pair.unlocked == 1 && w1.pair.totalSupply == 0 && w1.led0 == w.led0 && w1.led1 == w.led1
      && Fields(w1.pair.reserves) == Reserves(Get(w.led0, me), Get(w.led1, me), 0)
  {
    CreatedReads(v, me, w);
    SyncKeeps(v, me, w);
    SyncFrame(v, me, w);
    hide SyncCall, Fields, Solvent, NotDiluted;
  }

  lemma SyncFrame(v: Variant, me: Address, w: World)
    ensures SyncCall(v, me, w).Ok? ==>
      var w' := SyncCall(v, me, w).value.0;
      && w'.led0 == w.led0 && w'.led1 == w.led1 && w.pair.unlocked == 1
      && w'.pair == w.pair.(reserves := w'.pair.reserves)
  {
    hide GetReserves, Pack;
  }
}
