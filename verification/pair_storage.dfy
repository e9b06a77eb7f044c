/** What each call of the pair writes to the flat store, and whole runs on the 32-byte cells. */
module PairStorage {
  import opened Words
  import opened PackedReserves
  import opened Ledgers
  import opened Sqrt
  import opened Layout
  import opened ContractStorage
  import opened PairSpec
  import opened PairSafety

  function SetUnlocked(value: Word): Write { Write(Scalar(7), value) }
  function SetSupply(s: Slots): Write { Write(Scalar(8), s.totalSupply) }
  function SetReserves(s: Slots): Write { Write(Scalar(3), s.reserves) }
  function SetBalance(owner: Address, value: Word): Write { Write(Keyed(SLOT_BALANCE_OF, owner), value) }
  function SetAllowance(owner: Address, spender: Address, value: Word): Write {
    Write(KeyedTwice(SLOT_ALLOWANCE, owner, spender), value)
  }

  function Locked(body: seq<Write>): seq<Write> {
    [SetUnlocked(0)] + body + [SetUnlocked(1)]
  }

  function Moves(s: Slots, s': Slots, from: Address, to: Address, value: Word): seq<Write> {
    [SetBalance(from, WSub(Get(s.balanceOf, from), value)), SetBalance(to, Get(s'.balanceOf, to))]
  }

  /** The writes of a call from `s` that completes in `s'`, in the code's order. */
  ghost function CallWrites(me: Address, s: Slots, s': Slots, a: Action): seq<Write> {
    match a
    case Initialize(t0, t1) => Locked([Write(Scalar(1), t0), Write(Scalar(2), t1)])
    case Mint(to, _) =>
      Locked((if s.totalSupply == 0 then [SetSupply(s'), SetBalance(ZERO_ADDRESS, MINIMUM_LIQUIDITY)] else [SetSupply(s')])
             + [SetBalance(to, Get(s'.balanceOf, to)), SetReserves(s')])
    case Burn(_, _) => Locked([SetBalance(me, 0), SetSupply(s'), SetReserves(s')])
    case Swap(_, _, _, _) => Locked([SetReserves(s')])
    case Skim(_) => Locked([])
    case Sync => Locked([SetReserves(s')])
    case Approve(caller, spender, value) => [SetAllowance(caller, spender, value)]
    case Transfer(caller, to, value) => Moves(s, s', caller, to, value)
    case TransferFrom(caller, from, to, value) =>
      (if Get(s.allowance, (from, caller)) == MAX_WORD then []
       else [SetAllowance(from, caller, Get(s'.allowance, (from, caller)))])
      + Moves(s, s', from, to, value)
    case TokensMove(_, _) => []
  }

  /** The host keeps no write of a call that halts. */
  ghost function StepWrites(v: Variant, me: Address, w: World, a: Action): seq<Write> {
    if Attempt(v, me, w, a).Halted? then [] else CallWrites(me, w.pair, Step(v, me, w, a).pair, a)
  }

  ghost function RunWrites(v: Variant, me: Address, w: World, actions: seq<Action>): seq<Write>
    decreases |actions|
  {
    if actions == [] then [] else StepWrites(v, me, w, actions[0]) + RunWrites(v, me, Step(v, me, w, actions[0]), actions[1..])
  }

  ghost predicate AllWritable(writes: seq<Write>) {
    forall x <- writes :: Writable(x.entry, x.value)
  }

  lemma {:induction false} UpdateAllConcat(s: Slots, first: seq<Write>, rest: seq<Write>)
    requires AllWritable(first) && AllWritable(rest)
    ensures AllWritable(first + rest)
    ensures UpdateAll(s, first + rest) == UpdateAll(UpdateAll(s, first), rest)
    decreases |first|
  {
    if first == [] {
      assert first + rest == rest;
    } else {
      assert (first + rest)[1..] == first[1..] + rest;
      UpdateAllConcat(Update(s, first[0].entry, first[0].value), first[1..], rest);
    }
  }

  lemma OneUpdate(s: Slots, a: Write)
    requires Writable(a.entry, a.value)
    ensures UpdateAll(s, [a]) == Update(s, a.entry, a.value)
  {
    hide Update;
    assert [a][1..] == [];
  }

  lemma TwoUpdates(s: Slots, a: Write, b: Write)
    requires Writable(a.entry, a.value) && Writable(b.entry, b.value)
    ensures UpdateAll(s, [a, b]) == Update(Update(s, a.entry, a.value), b.entry, b.value)
  {
    assert [a, b][1..] == [b];
    assert UpdateAll(s, [a, b]) == UpdateAll(Update(s, a.entry, a.value), [b]);
    OneUpdate(Update(s, a.entry, a.value), b);
  }

  lemma LockedUpdates(s: Slots, body: seq<Write>)
    requires AllWritable(body)
    ensures AllWritable(Locked(body))
    ensures UpdateAll(s, Locked(body)) == UpdateAll(s.(unlocked := 0), body).(unlocked := 1)
  {
    OneUpdate(s, SetUnlocked(0));
    UpdateAllConcat(s, [SetUnlocked(0)], body);
    UpdateAllConcat(s, [SetUnlocked(0)] + body, [SetUnlocked(1)]);
    OneUpdate(UpdateAll(s.(unlocked := 0), body), SetUnlocked(1));
    hide UpdateAll;
  }

  lemma LockedOne(s: Slots, a: Write)
    requires Writable(a.entry, a.value)
    ensures AllWritable(Locked([a]))
    ensures UpdateAll(s, Locked([a])) == Update(s.(unlocked := 0), a.entry, a.value).(unlocked := 1)
  {
    LockedUpdates(s, [a]);
    OneUpdate(s.(unlocked := 0), a);
    hide UpdateAll, Update;
  }

  // ----- branch by branch

  /** A call's writes take its first state to its last. */
  ghost predicate Writes(s: Slots, writes: seq<Write>, s': Slots) {
    AllWritable(writes) && UpdateAll(s, writes) == s'
  }

  lemma InitializeWrites(me: Address, w: World, t0: Address, t1: Address)
    ensures var reply := InitializeCall(w, t0, t1);
      reply.Ok? ==> Writes(w.pair, CallWrites(me, w.pair, reply.value.0.pair, Initialize(t0, t1)), reply.value.0.pair)
  {
    var body := [Write(Scalar(1), t0), Write(Scalar(2), t1)];
    LockedUpdates(w.pair, body);
    TwoUpdates(w.pair.(unlocked := 0), body[0], body[1]);
    hide UpdateAll;
  }

  /** The supply a mint stores, after which it credits `to`. */
  lemma MintShape(v: Variant, me: Address, w: World, to: Address, now: Word)
    ensures var reply := MintCall(v, me, w, to, now);
      reply.Ok? ==>
        var s, s' := w.pair, reply.value.0.pair;
        var base := if s.totalSupply == 0 then s.balanceOf[ZERO_ADDRESS := MINIMUM_LIQUIDITY] else s.balanceOf;
        s' == s.(unlocked := 1, totalSupply := s'.totalSupply, reserves := s'.reserves,
                 balanceOf := base[to := Get(s'.balanceOf, to)])
  {
    hide GetReserves, Pack, Quotient, FloorSqrt, WMul, WSub, WAdd;
  }

  lemma MintWrites(v: Variant, me: Address, w: World, to: Address, now: Word)
    ensures var reply := MintCall(v, me, w, to, now);
      reply.Ok? ==> Writes(w.pair, CallWrites(me, w.pair, reply.value.0.pair, Mint(to, now)), reply.value.0.pair)
  {
    MintShape(v, me, w, to, now);
    hide MintCall, Get;
    if MintCall(v, me, w, to, now).Ok? {
      var s, s' := w.pair, MintCall(v, me, w, to, now).value.0.pair;
      var supply, credit, reserves := SetSupply(s'), SetBalance(to, Get(s'.balanceOf, to)), SetReserves(s');
      var minimum := SetBalance(ZERO_ADDRESS, MINIMUM_LIQUIDITY);
      var first := if s.totalSupply == 0 then [supply, minimum] else [supply];
      var locked := s.(unlocked := 0);
      if s.totalSupply == 0 { TwoUpdates(locked, supply, minimum); } else { OneUpdate(locked, supply); }
      TwoUpdates(UpdateAll(locked, first), credit, reserves);
      UpdateAllConcat(locked, first, [credit, reserves]);
      LockedUpdates(s, first + [credit, reserves]);
      hide UpdateAll;
    }
  }

  lemma BurnWrites(me: Address, w: World, to: Address, now: Word)
    ensures var reply := BurnCall(me, w, to, now);
      reply.Ok? ==> Writes(w.pair, CallWrites(me, w.pair, reply.value.0.pair, Burn(to, now)), reply.value.0.pair)
  {
    BurnFrame(me, w, to, now);
    hide BurnCall;
    if BurnCall(me, w, to, now).Ok? {
      var s, s' := w.pair, BurnCall(me, w, to, now).value.0.pair;
      var locked := s.(unlocked := 0);
      OneUpdate(locked, SetBalance(me, 0));
      TwoUpdates(Update(locked, Keyed(SLOT_BALANCE_OF, me), 0), SetSupply(s'), SetReserves(s'));
      UpdateAllConcat(locked, [SetBalance(me, 0)], [SetSupply(s'), SetReserves(s')]);
      assert [SetBalance(me, 0)] + [SetSupply(s'), SetReserves(s')] == [SetBalance(me, 0), SetSupply(s'), SetReserves(s')];
      LockedUpdates(s, [SetBalance(me, 0), SetSupply(s'), SetReserves(s')]);
      hide UpdateAll;
    }
  }

  lemma MovesUpdate(s: Slots, from: Address, to: Address, value: Word)
    ensures var moved := MoveShares(s, from, to, value);
      moved.Ok? ==> Writes(s, Moves(s, moved.value, from, to, value), moved.value)
  {
    var moved := MoveShares(s, from, to, value);
    if moved.Ok? {
      assert WSub(Get(s.balanceOf, from), value) == Get(s.balanceOf, from) - value;
      var w := Moves(s, moved.value, from, to, value);
      TwoUpdates(s, w[0], w[1]);
      hide UpdateAll, WAdd, WSub;
    }
  }

  lemma TransferFromWrites(me: Address, s: Slots, caller: Address, from: Address, to: Address, value: Word)
    ensures var moved := MoveSharesFrom(s, caller, from, to, value);
      moved.Ok? ==> Writes(s, CallWrites(me, s, moved.value, TransferFrom(caller, from, to, value)), moved.value)
  {
    var moved := MoveSharesFrom(s, caller, from, to, value);
    if moved.Ok? {
      var spent := SpendAllowance(s, from, caller, value).value;
      MovesUpdate(spent, from, to, value);
      hide MoveShares, WSub;
      MovesKeepAllowance(spent, from, to, value);
      var moves := Moves(spent, moved.value, from, to, value);
      if Get(s.allowance, (from, caller)) == MAX_WORD {
        assert [] + moves == moves;
      } else {
        var spend := SetAllowance(from, caller, Get(moved.value.allowance, (from, caller)));
        OneUpdate(s, spend);
        UpdateAllConcat(s, [spend], moves);
        hide UpdateAll;
      }
    }
  }

  lemma MovesKeepAllowance(s: Slots, from: Address, to: Address, value: Word)
    ensures var moved := MoveShares(s, from, to, value); moved.Ok? ==> moved.value.allowance == s.allowance
  {
  }

  lemma SwapWrites(v: Variant, me: Address, w: World, out0: Word, out1: Word, to: Address, now: Word)
    ensures var reply := SwapCall(v, me, w, out0, out1, to, now);
      reply.Ok? ==> Writes(w.pair, CallWrites(me, w.pair, reply.value.0.pair, Swap(out0, out1, to, now)), reply.value.0.pair)
  {
    SwapFrame(v, me, w, out0, out1, to, now);
    hide SwapCall, UpdateAll;
    if SwapCall(v, me, w, out0, out1, to, now).Ok? {
      LockedOne(w.pair, SetReserves(SwapCall(v, me, w, out0, out1, to, now).value.0.pair));
    }
  }

  lemma SkimWrites(v: Variant, me: Address, w: World, to: Address)
    ensures var reply := SkimCall(v, me, w, to);
      reply.Ok? ==> Writes(w.pair, CallWrites(me, w.pair, reply.value.0.pair, Skim(to)), reply.value.0.pair)
  {
    hide GetReserves, TokenTransfer, WSub;
    LockedUpdates(w.pair, []);
  }

  lemma SyncWrites(v: Variant, me: Address, w: World)
    ensures var reply := SyncCall(v, me, w);
      reply.Ok? ==> Writes(w.pair, CallWrites(me, w.pair, reply.value.0.pair, Sync), reply.value.0.pair)
  {
    hide GetReserves, Pack, UpdateAll;
    if SyncCall(v, me, w).Ok? { LockedOne(w.pair, SetReserves(SyncCall(v, me, w).value.0.pair)); }
  }

  lemma CallIsItsWrites(v: Variant, me: Address, w: World, a: Action)
    ensures var reply := Attempt(v, me, w, a);
      reply.Ok? ==> Writes(w.pair, CallWrites(me, w.pair, reply.value.0.pair, a), reply.value.0.pair)
  {
    hide InitializeCall, MintCall, BurnCall, SwapCall, SkimCall, SyncCall, MoveShares, MoveSharesFrom;
    match a
    case Initialize(t0, t1) => InitializeWrites(me, w, t0, t1);
    case Mint(to, now) => MintWrites(v, me, w, to, now);
    case Burn(to, now) => BurnWrites(me, w, to, now);
    case Swap(out0, out1, to, now) => SwapWrites(v, me, w, out0, out1, to, now);
    case Skim(to) => SkimWrites(v, me, w, to);
    case Sync => SyncWrites(v, me, w);
    case Approve(caller, spender, value) => OneUpdate(w.pair, SetAllowance(caller, spender, value));
    case Transfer(caller, to, value) => MovesUpdate(w.pair, caller, to, value);
    case TransferFrom(caller, from, to, value) => TransferFromWrites(me, w.pair, caller, from, to, value);
    case TokensMove(_, _) =>
  }

  /** Every step is exactly its writes, and a step that halts writes nothing. */
  lemma StepIsItsWrites(v: Variant, me: Address, w: World, a: Action)
    ensures Writes(w.pair, StepWrites(v, me, w, a), Step(v, me, w, a).pair)
  {
    CallIsItsWrites(v, me, w, a);
    hide Attempt, CallWrites;
  }

  /** Over any run of calls the pair's 32-byte cells hold its abstract storage. */
  lemma {:induction false} RunRefines(hash: Hash, touched: set<Entry>, cells: Cells, v: Variant, me: Address, w: World, actions: seq<Action>)
    requires GoodHash(hash, touched) && forall e <- touched :: PairEntry(e)
    requires forall x <- RunWrites(v, me, w, actions) :: x.entry in touched
    requires Represents(hash, touched, cells, w.pair)
    ensures Represents(hash, touched, PutAll(hash, cells, RunWrites(v, me, w, actions)), Run(v, me, w, actions).pair)
    decreases |actions|
  {
    if actions != [] {
      hide StepWrites, Step, GoodHash, PairEntry, PutAll, Represents, UpdateAll, Writable;
      var next := Step(v, me, w, actions[0]);
      var first, rest := StepWrites(v, me, w, actions[0]), RunWrites(v, me, next, actions[1..]);
      assert forall x <- first :: x in first + rest;
      assert forall x <- rest :: x in first + rest;
      StepIsItsWrites(v, me, w, actions[0]);
      WritesRefine(hash, touched, cells, w.pair, first);
      RunRefines(hash, touched, PutAll(hash, cells, first), v, me, next, actions[1..]);
      PutAllConcat(hash, cells, first, rest);
    } else {
      assert RunWrites(v, me, w, actions) == [];
    }
  }
}
