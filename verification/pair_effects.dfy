/** What each call does to every account, table and slot, and when it traps, said without the functions that do it. */
module PairEffects {
  import opened Words
  import opened PackedReserves
  import opened Ledgers
  import opened Sqrt
  import opened PairSpec
  import opened PairSafety
  import opened PairSupply
  import opened PairTrades

  /** Everything of `s` but the slots that the call may change, given in `s'`. */
  ghost predicate SameBut(s: Slots, s': Slots, tables: bool, reserves: bool) {
    && s'.factory == s.factory && s'.token0 == s.token0 && s'.token1 == s.token1 && s'.unlocked == s.unlocked
    && (!tables ==> s'.balanceOf == s.balanceOf && s'.totalSupply == s.totalSupply)
    && (!reserves ==> s'.reserves == s.reserves)
  }

  /** Every LP balance after a mint of `shares` to `to`: the first one also sets the zero address to 1000. */
  ghost predicate Credited(before: Ledger, after: Ledger, first: bool, to: Address, shares: Word) {
    forall a: Address ::
      var had := if first && a == 0 then 1000 else Get(before, a);
      Get(after, a) == (if a == to then (had + shares) % TWO_256 else had)
  }

  /** Every LP balance after a burn: the pair's own are gone. */
  ghost predicate Burnt(before: Ledger, after: Ledger, me: Address) {
    forall a: Address :: Get(after, a) == if a == me then 0 else Get(before, a)
  }

  /** Every LP balance after a debit and then a credit. */
  ghost predicate Shifted(before: Ledger, after: Ledger, from: Address, to: Address, value: Word) {
    forall a: Address ::
      var had := Get(before, a) - (if a == from then value else 0);
      Get(after, a) == if a == to then (had + value) % TWO_256 else had
  }

  ghost predicate OneAllowance(before: map<(Address, Address), Word>, after: map<(Address, Address), Word>, owner: Address, spender: Address, value: Word) {
    forall o: Address, p: Address :: Get(after, (o, p)) == if o == owner && p == spender then value else Get(before, (o, p))
  }

  /** The three reserve fields hold the pair's balances and `ts`, when the balances have 112 bits. */
  ghost predicate Records(me: Address, w: World, ts: Word) {
    var b0, b1 := Get(w.led0, me), Get(w.led1, me);
    b0 < TWO_112 && b1 < TWO_112 ==> Fields(w.pair.reserves) == Reserves(b0, b1, ts)
  }

  /** What a call that completes has done, by account and slot. */
  ghost predicate Effect(v: Variant, me: Address, w: World, a: Action, w': World, data: seq<Word>) {
    var s, s', r := w.pair, w'.pair, Reserve(v, w.pair);
    var kept := w'.led0 == w.led0 && w'.led1 == w.led1;
    match a
    case Initialize(t0, t1) =>
      kept && s.unlocked == 1 && s.token0 == 0 && s' == s.(token0 := t0, token1 := t1) && data == []
    case Mint(to, now) => |data| == 1 &&
      var shares: int := data[0];
      var grown := if s.totalSupply != 0 then shares else if v.wholeFirstSupply then 1000 + shares else 1000;
      && kept && s.unlocked == 1 && SameBut(s, s', true, true) && s'.allowance == s.allowance
      && Credited(s.balanceOf, s'.balanceOf, s.totalSupply == 0, to, data[0])
      && s'.totalSupply == (s.totalSupply + grown) % TWO_256 && Records(me, w', now)
    case Burn(to, now) =>
      && s.unlocked == 1 && SameBut(s, s', true, true) && s'.allowance == s.allowance && Burnt(s.balanceOf, s'.balanceOf, me)
      && s'.totalSupply == (s.totalSupply - Get(s.balanceOf, me)) % TWO_256 && Records(me, w', now)
      && |data| == 2 && Moved(w.led0, w'.led0, me, to, data[0]) && Moved(w.led1, w'.led1, me, to, data[1])
    case Swap(out0, out1, to, now) =>
      && s.unlocked == 1 && SameBut(s, s', false, true) && s'.allowance == s.allowance && data == []
      && (out0 > 0 || out1 > 0) && out0 < r.r0 && out1 < r.r1 && to != s.token0 && to != s.token1 && Records(me, w', now)
      && Moved(w.led0, w'.led0, me, to, out0) && Moved(w.led1, w'.led1, me, to, out1)
    case Skim(to) =>
      && s.unlocked == 1 && s' == s && data == []
      && r.r0 <= Get(w.led0, me) && r.r1 <= Get(w.led1, me)
      && Moved(w.led0, w'.led0, me, to, Get(w.led0, me) - r.r0) && Moved(w.led1, w'.led1, me, to, Get(w.led1, me) - r.r1)
    case Sync =>
      && kept && s.unlocked == 1 && SameBut(s, s', false, true) && s'.allowance == s.allowance && data == []
      && Records(me, w', s.reserves % TWO_32)
    case Approve(caller, spender, value) =>
      && kept && SameBut(s, s', false, false) && data == [1]
      && OneAllowance(s.allowance, s'.allowance, caller, spender, value)
    case Transfer(caller, to, value) =>
      && kept && SameBut(s, s', true, false) && s'.totalSupply == s.totalSupply && s'.allowance == s.allowance && data == [1]
      && value <= Get(s.balanceOf, caller) && Shifted(s.balanceOf, s'.balanceOf, caller, to, value)
    case TransferFrom(caller, from, to, value) =>
      var allowed := Get(s.allowance, (from, caller));
      && kept && SameBut(s, s', true, false) && s'.totalSupply == s.totalSupply && data == [1]
      && value <= Get(s.balanceOf, from) && Shifted(s.balanceOf, s'.balanceOf, from, to, value)
      && (if allowed == TWO_256 - 1 then s'.allowance == s.allowance
          else value <= allowed && OneAllowance(s.allowance, s'.allowance, from, caller, allowed - value))
    case TokensMove(led0, led1) =>
      && s' == s && data == [] && w'.led0 == led0 && w'.led1 == led1
      && Get(w.led0, me) <= Get(led0, me) && Get(w.led1, me) <= Get(led1, me)
  }

  // ----- call by call

  lemma MintDoes(v: Variant, me: Address, w: World, to: Address, now: Word)
    ensures var reply := MintCall(v, me, w, to, now);
      reply.Ok? ==> Effect(v, me, w, Mint(to, now), reply.value.0, reply.value.1)
  {
    hide MintCall, Issued, GetReserves, Pack, Records, Fields;
    MintParts(v, me, w, to, now);
    var s := w.pair.(unlocked := 0);
    IssuedShape(v, s, Reserve(v, w.pair), Get(w.led0, me), Get(w.led1, me));
    IssuedSupply(v, s, Reserve(v, w.pair), Get(w.led0, me), Get(w.led1, me));
    var reply := MintCall(v, me, w, to, now);
    if reply.Ok? { PackRecords(me, reply.value.0, now); }
  }

  lemma IssuedSupply(v: Variant, s: Slots, r: Reserves, b0: Word, b1: Word)
    ensures var issued := Issued(v, s, r, b0, b1);
      issued.Ok? ==>
        var shares: int := issued.value.1;
        var grown := if s.totalSupply != 0 then shares else if v.wholeFirstSupply then 1000 + shares else 1000;
        issued.value.0.totalSupply == (s.totalSupply + grown) % TWO_256
  {
    hide WSub, WMul, Quotient, FloorSqrt;
  }

  lemma PackRecords(me: Address, w: World, now: Word)
    ensures var b0, b1 := Get(w.led0, me), Get(w.led1, me);
      b0 < TWO_128 && b1 < TWO_128 && now < TWO_32 && w.pair.reserves == Pack(b0, b1, now) ==> Records(me, w, now)
  {
    PackFits(Get(w.led0, me), Get(w.led1, me), now);
    hide Pack, Fields;
  }

  lemma BurnDoes(v: Variant, me: Address, w: World, to: Address, now: Word)
    ensures var reply := BurnCall(me, w, to, now);
      reply.Ok? ==> Effect(v, me, w, Burn(to, now), reply.value.0, reply.value.1)
  {
    BurnFrame(me, w, to, now);
    BurnMoves(me, w, to, now);
    BurnStores(me, w, to, now);
    hide BurnCall, GetReserves, Moved, Records;
  }

  lemma BurnStores(me: Address, w: World, to: Address, now: Word)
    ensures var reply := BurnCall(me, w, to, now);
      reply.Ok? ==>
        && reply.value.0.pair.totalSupply == (w.pair.totalSupply - Get(w.pair.balanceOf, me)) % TWO_256
        && Records(me, reply.value.0, now)
  {
    hide BurnAmounts, TokenTransfer, Pack, Records;
    var reply := BurnCall(me, w, to, now);
    if reply.Ok? { PackRecords(me, reply.value.0, now); }
  }

  /** The amounts a burn returns are what both tokens move from the pair to the recipient. */
  lemma BurnMoves(me: Address, w: World, to: Address, now: Word)
    ensures var reply := BurnCall(me, w, to, now);
      reply.Ok? ==>
        var (w', paid) := reply.value;
        && w.pair.unlocked == 1 && |paid| == 2
        && Moved(w.led0, w'.led0, me, to, paid[0]) && Moved(w.led1, w'.led1, me, to, paid[1])
  {
    hide BurnAmounts, TokenTransfer, Pack, WSub, Moved;
    var amounts := BurnAmounts(Get(w.pair.balanceOf, me), w.pair.totalSupply, Get(w.led0, me), Get(w.led1, me));
    if amounts.Ok? {
      TransferMoves(w.led0, me, to, amounts.value.0);
      TransferMoves(w.led1, me, to, amounts.value.1);
    }
  }

  lemma PayOutMoves(l: Ledger, me: Address, to: Address, out: Word)
    ensures var paid := PayOut(l, me, to, out);
      paid.Ok? ==> out <= Get(l, me) && Moved(l, paid.value, me, to, out)
  {
    TransferMoves(l, me, to, out);
    hide TokenTransfer, Total;
  }

  lemma SwapDoes(v: Variant, me: Address, w: World, out0: Word, out1: Word, to: Address, now: Word)
    ensures var reply := SwapCall(v, me, w, out0, out1, to, now);
      reply.Ok? ==> Effect(v, me, w, Swap(out0, out1, to, now), reply.value.0, reply.value.1)
  {
    SwapFrame(v, me, w, out0, out1, to, now);
    SwapParts(v, me, w, out0, out1, to, now);
    SwapData(v, me, w, out0, out1, to, now);
    PayOutMoves(w.led0, me, to, out0);
    PayOutMoves(w.led1, me, to, out1);
    var reply := SwapCall(v, me, w, out0, out1, to, now);
    if reply.Ok? {
      SwapRecords(w.pair.(unlocked := 0), Reserve(v, w.pair), out0, out1, me, reply.value.0, now);
    }
    hide SwapCall, GetReserves, FinishSwap, PayOut, Moved, Records;
  }

  lemma SwapRecords(s: Slots, r: Reserves, out0: Word, out1: Word, me: Address, w: World, now: Word)
    ensures FinishSwap(s, r, out0, out1, Get(w.led0, me), Get(w.led1, me), now) == Ok(w.pair) ==> Records(me, w, now)
  {
    PackRecords(me, w, now);
    hide AmountIn, Adjusted, WMul, Pack, Records;
  }

  lemma SwapData(v: Variant, me: Address, w: World, out0: Word, out1: Word, to: Address, now: Word)
    ensures var reply := SwapCall(v, me, w, out0, out1, to, now); reply.Ok? ==> reply.value.1 == []
  {
    hide GetReserves, FinishSwap, PayOut;
  }

  lemma SkimDoes(v: Variant, me: Address, w: World, to: Address)
    ensures var reply := SkimCall(v, me, w, to);
      reply.Ok? ==> Effect(v, me, w, Skim(to), reply.value.0, reply.value.1)
  {
    hide GetReserves, TokenTransfer, WSub, Moved;
    var r := Reserve(v, w.pair);
    var b0, b1 := Get(w.led0, me), Get(w.led1, me);
    SurplusOrWrap(b0, r.r0);
    SurplusOrWrap(b1, r.r1);
    TransferMoves(w.led0, me, to, WSub(b0, r.r0));
    TransferMoves(w.led1, me, to, WSub(b1, r.r1));
  }

  lemma SyncDoes(v: Variant, me: Address, w: World)
    ensures var reply := SyncCall(v, me, w);
      reply.Ok? ==> Effect(v, me, w, Sync, reply.value.0, reply.value.1)
  {
    hide Pack, Records;
    var reply := SyncCall(v, me, w);
    if reply.Ok? { PackRecords(me, reply.value.0, w.pair.reserves % TWO_32); }
    hide GetReserves;
  }

  lemma MoveDoes(s: Slots, from: Address, to: Address, value: Word)
    ensures var moved := MoveShares(s, from, to, value);
      && (moved.Ok? <==> value <= Get(s.balanceOf, from))
      && (moved.Halted? ==> moved.why == Reverted)
      && (moved.Ok? ==>
          Shifted(s.balanceOf, moved.value.balanceOf, from, to, value) && moved.value == s.(balanceOf := moved.value.balanceOf))
  {
  }

  lemma TransferFromDoes(v: Variant, me: Address, w: World, caller: Address, from: Address, to: Address, value: Word)
    ensures var moved := MoveSharesFrom(w.pair, caller, from, to, value);
      moved.Ok? ==> Effect(v, me, w, TransferFrom(caller, from, to, value), w.(pair := moved.value), [1])
  {
    var spent := SpendAllowance(w.pair, from, caller, value);
    if spent.Ok? { MoveDoes(spent.value, from, to, value); }
    hide MoveShares, Shifted, GetReserves;
  }

  /** Every call that completes, whatever the state it is made in: who has been paid and credited, account by
      account, what is returned, and that nothing else has changed. */
  lemma CallEffect(v: Variant, me: Address, w: World, a: Action)
    ensures var reply := Attempt(v, me, w, a);
      reply.Ok? ==> Effect(v, me, w, a, reply.value.0, reply.value.1)
  {
    hide MintCall, BurnCall, SwapCall, SkimCall, SyncCall, MoveShares, MoveSharesFrom, GetReserves, Moved, Shifted;
    match a
    case Initialize(_, _) =>
    case Mint(to, now) => MintDoes(v, me, w, to, now);
    case Burn(to, now) => BurnDoes(v, me, w, to, now);
    case Swap(out0, out1, to, now) => SwapDoes(v, me, w, out0, out1, to, now);
    case Skim(to) => SkimDoes(v, me, w, to);
    case Sync => SyncDoes(v, me, w);
    case Approve(_, _, _) =>
    case Transfer(caller, to, value) => MoveDoes(w.pair, caller, to, value);
    case TransferFrom(caller, from, to, value) => TransferFromDoes(v, me, w, caller, from, to, value);
    case TokensMove(_, _) =>
  }

  // ----- traps

  predicate Traps(r: Reply) {
    r.Halted? && r.why == Trapped
  }

  /** In range a call panics, rather than reverts, for two reasons only: a time of more than 32 bits, when the same
      call would succeed otherwise, and a burn of shares of a pair whose stored supply is zero. */
  lemma TrapsIff(v: Variant, me: Address, w: World, a: Action)
    requires Solvent(me, w) && GoodStep(v, me, w, a)
    ensures Traps(Attempt(v, me, w, a)) <==>
      || ((a.Mint? || a.Burn? || a.Swap?) && TWO_32 <= a.now && Attempt(v, me, w, a.(now := 0)).Ok?)
      || (a.Burn? && w.pair.unlocked == 1 && w.pair.totalSupply == 0 && 0 < Get(w.pair.balanceOf, me))
  {
    hide MintCall, BurnCall, SwapCall, SkimCall, SyncCall, MoveShares, MoveSharesFrom, GetReserves, Fields, NotDiluted;
    match a
    case Initialize(_, _) =>
    case Mint(to, now) => MintTraps(v, me, w, to, now);
    case Burn(to, now) => BurnTraps(me, w, to, now);
    case Swap(out0, out1, to, now) => SwapTraps(v, me, w, out0, out1, to, now);
    case Skim(to) => SkimReverts(v, me, w, to);
    case Sync => SyncReverts(v, me, w);
    case Approve(_, _, _) =>
    case Transfer(caller, to, value) => MoveDoes(w.pair, caller, to, value);
    case TransferFrom(caller, from, to, value) => MoveFromReverts(w.pair, caller, from, to, value);
    case TokensMove(_, _) =>
  }

  lemma MintTraps(v: Variant, me: Address, w: World, to: Address, now: Word)
    requires Solvent(me, w) && Readable(v, me, w)
    ensures Traps(MintCall(v, me, w, to, now)) <==> TWO_32 <= now && MintCall(v, me, w, to, 0).Ok?
  {
    hide Issued, GetReserves, Pack, Fields, Solvent, ExactDecode, SharesFor, Credit, MintCall;
    MintExact(v, me, w, to, now);
    var s := w.pair.(unlocked := 0);
    IssuedReverts(v, s, Reserve(v, w.pair), Get(w.led0, me), Get(w.led1, me));
    StoringTraps(v, me, w, to, now);
  }

  /** A mint traps while issuing or because the time does not fit. */
  lemma StoringTraps(v: Variant, me: Address, w: World, to: Address, now: Word)
    requires BalancesInRange(me, w)
    ensures var issued := Issued(v, w.pair.(unlocked := 0), Reserve(v, w.pair), Get(w.led0, me), Get(w.led1, me));
      && (Traps(MintCall(v, me, w, to, now)) <==>
          w.pair.unlocked == 1 && if issued.Ok? then TWO_32 <= now else issued.why == Trapped)
      && (MintCall(v, me, w, to, 0).Ok? <==> w.pair.unlocked == 1 && issued.Ok?)
  {
    hide Issued, GetReserves, Pack, Credit;
  }

  lemma IssuedReverts(v: Variant, s: Slots, r: Reserves, b0: Word, b1: Word)
    requires s.totalSupply != 0 ==> 0 < r.r0 && 0 < r.r1
    ensures var issued := Issued(v, s, r, b0, b1); issued.Halted? ==> issued.why == Reverted
  {
    hide WSub, WMul, WAdd, Quotient, FloorSqrt;
  }

  lemma BurnTraps(me: Address, w: World, to: Address, now: Word)
    requires BalancesInRange(me, w)
    ensures Traps(BurnCall(me, w, to, now)) <==>
      || (TWO_32 <= now && BurnCall(me, w, to, 0).Ok?)
      || (w.pair.unlocked == 1 && w.pair.totalSupply == 0 && 0 < Get(w.pair.balanceOf, me))
  {
    var amounts := BurnAmounts(Get(w.pair.balanceOf, me), w.pair.totalSupply, Get(w.led0, me), Get(w.led1, me));
    BurnAmountsTrap(Get(w.pair.balanceOf, me), w.pair.totalSupply, Get(w.led0, me), Get(w.led1, me));
    if amounts.Ok? {
      TransferMoves(w.led0, me, to, amounts.value.0);
      TransferMoves(w.led1, me, to, amounts.value.1);
    }
    hide BurnAmounts, TokenTransfer, Pack, WSub, Total;
  }

  lemma BurnAmountsTrap(liquidity: Word, supply: Word, b0: Word, b1: Word)
    ensures var amounts := BurnAmounts(liquidity, supply, b0, b1);
      amounts.Halted? ==> (amounts.why == Trapped <==> supply == 0)
    ensures supply == 0 ==> BurnAmounts(liquidity, supply, b0, b1).Halted?
  {
    hide Quotient, WMul;
  }

  lemma SwapTraps(v: Variant, me: Address, w: World, out0: Word, out1: Word, to: Address, now: Word)
    requires BalancesInRange(me, w)
    ensures Traps(SwapCall(v, me, w, out0, out1, to, now)) <==> TWO_32 <= now && SwapCall(v, me, w, out0, out1, to, 0).Ok?
  {
    hide PayOut, FinishSwap, GetReserves;
    PayOutReverts(w.led0, me, to, out0);
    PayOutReverts(w.led1, me, to, out1);
    var paid0, paid1 := PayOut(w.led0, me, to, out0), PayOut(w.led1, me, to, out1);
    if paid0.Ok? && paid1.Ok? {
      FinishTraps(w.pair.(unlocked := 0), Reserve(v, w.pair), out0, out1, Get(paid0.value, me), Get(paid1.value, me), now);
    }
  }

  lemma PayOutReverts(l: Ledger, me: Address, to: Address, out: Word)
    ensures var paid := PayOut(l, me, to, out);
      if paid.Halted? then paid.why == Reverted else Get(paid.value, me) <= Get(l, me)
  {
    PayOutMoves(l, me, to, out);
    hide TokenTransfer, Total;
  }

  lemma FinishTraps(s: Slots, r: Reserves, out0: Word, out1: Word, b0: Word, b1: Word, now: Word)
    requires b0 < TWO_128 && b1 < TWO_128
    ensures var done := FinishSwap(s, r, out0, out1, b0, b1, now);
      done.Halted? ==> (done.why == Trapped <==> TWO_32 <= now && FinishSwap(s, r, out0, out1, b0, b1, 0).Ok?)
    ensures FinishSwap(s, r, out0, out1, b0, b1, now).Ok? ==> now < TWO_32
  {
    hide AmountIn, Adjusted, WMul, Pack;
  }

  lemma SkimReverts(v: Variant, me: Address, w: World, to: Address)
    ensures !Traps(SkimCall(v, me, w, to))
  {
    hide GetReserves, TokenTransfer, WSub;
  }

  lemma SyncReverts(v: Variant, me: Address, w: World)
    requires BalancesInRange(me, w)
    ensures !Traps(SyncCall(v, me, w))
  {
    hide Pack;
  }

  lemma MoveFromReverts(s: Slots, caller: Address, from: Address, to: Address, value: Word)
    ensures var moved := MoveSharesFrom(s, caller, from, to, value); moved.Halted? ==> moved.why == Reverted
  {
  }

  /** Outside the range, a later mint divides by the reserves it reads. */
  lemma ZeroReserveTraps(v: Variant, me: Address, w: World, to: Address, now: Word)
    requires w.pair.unlocked == 1 && w.pair.totalSupply != 0
    ensures Reserve(v, w.pair).r0 == 0 || Reserve(v, w.pair).r1 == 0 ==> Traps(MintCall(v, me, w, to, now))
  {
    hide GetReserves, WSub, WMul, Quotient, FirstMint;
  }
}
