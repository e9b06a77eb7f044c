/** The factory's registry of pairs. */
module FactorySpec {
  import opened Words
  import opened Ledgers
  import opened PairSpec
  import PairReentrancy

  /** The factory's storage: the array is its length slot and its element cells. */
  datatype Registry = Registry(
    feeTo: Address,
    feeToSetter: Address,
    getPair: map<(Address, Address), Address>,
    length: Word,
    elements: map<Word, Address>,
    codeHash: Word)

  /** The factory at address `self` and every pair contract on the chain, by address. */
  datatype Chain = Chain(self: Address, registry: Registry, pairs: map<Address, Slots>)

  function Lookup<K>(m: map<K, Address>, k: K): Address {
    if k in m then m[k] else ZERO_ADDRESS
  }

  function SortTokens(a: Address, b: Address): (Address, Address) {
    if a < b then (a, b) else (b, a)
  }

  function PushPair(r: Registry, pair: Address): Registry {
    r.(elements := r.elements[r.length := pair], length := WAdd(r.length, 1))
  }

  function SetPairs(r: Registry, t0: Address, t1: Address, pair: Address): Registry {
    r.(getPair := r.getPair[(t0, t1) := pair][(t1, t0) := pair])
  }

  /** `createPair`; `instantiated` is the address the host gives the new contract, if it makes one. */
  function CreatePair(c: Chain, tokenA: Address, tokenB: Address, instantiated: Result<Address>): Result<(Chain, Address)> {
    if tokenA == tokenB then Halted(Reverted)
    else
      var (t0, t1) := SortTokens(tokenA, tokenB);
      if t0 == ZERO_ADDRESS then Halted(Reverted)
      else if Lookup(c.registry.getPair, (t0, t1)) != ZERO_ADDRESS then Halted(Reverted)
      else if c.registry.codeHash == 0 || instantiated.Halted? then Halted(Reverted)
      else
        var pair := instantiated.value;
        var initialized := InitializeSlots(Deployed(c.self), t0, t1);
        if initialized.Halted? then Halted(Reverted)
        else
          Ok((c.(registry := PushPair(SetPairs(c.registry, t0, t1, pair), pair),
                 pairs := c.pairs[pair := initialized.value]), pair))
  }

  datatype Event =
    | Create(tokenA: Address, tokenB: Address, instantiated: Result<Address>)
      // any call, with arbitrary tokens, to any pair on the chain
    | PairCall(pair: Address, call: PairReentrancy.Call)
      // someone other than the factory deploys a pair contract
    | DeployElsewhere(pair: Address, caller: Address)
    | SetFeeTo(caller: Address, feeTo: Address)
    | SetFeeToSetter(caller: Address, setter: Address)

  ghost function StepChain(c: Chain, e: Event): Chain {
    match e
    case Create(tokenA, tokenB, instantiated) =>
      var made := CreatePair(c, tokenA, tokenB, instantiated);
      if made.Ok? then made.value.0 else c
    case PairCall(pair, call) =>
      if pair !in c.pairs then c
      else
        var done := PairReentrancy.Exec(AS_WRITTEN, pair, c.pairs[pair], call);
        if done.Ok? then c.(pairs := c.pairs[pair := done.value.0]) else c
    case DeployElsewhere(pair, caller) => c.(pairs := c.pairs[pair := Deployed(caller)])
    case SetFeeTo(caller, feeTo) =>
      if caller != c.registry.feeToSetter then c else c.(registry := c.registry.(feeTo := feeTo))
    case SetFeeToSetter(caller, setter) =>
      if caller != c.registry.feeToSetter then c else c.(registry := c.registry.(feeToSetter := setter))
  }

  /** The host never reuses an address nor hands out the zero address. */
  ghost predicate Fresh(c: Chain, e: Event) {
    match e
    case Create(_, _, Ok(pair)) => pair != ZERO_ADDRESS && pair !in c.pairs
    case DeployElsewhere(pair, _) => pair != ZERO_ADDRESS && pair !in c.pairs
    case _ => true
  }

  /** One successful createPair. */
  datatype Creation = Creation(t0: Address, t1: Address, pair: Address)

  function NewCreations(c: Chain, e: Event): seq<Creation> {
    if e.Create? && CreatePair(c, e.tokenA, e.tokenB, e.instantiated).Ok? then
      var (t0, t1) := SortTokens(e.tokenA, e.tokenB);
      [Creation(t0, t1, CreatePair(c, e.tokenA, e.tokenB, e.instantiated).value.1)]
    else []
  }

  ghost function RunChain(c: Chain, events: seq<Event>): Chain
    decreases |events|
  {
    if events == [] then c else RunChain(StepChain(c, events[0]), events[1..])
  }

  ghost function Creations(c: Chain, events: seq<Event>): seq<Creation>
    decreases |events|
  {
    if events == [] then [] else NewCreations(c, events[0]) + Creations(StepChain(c, events[0]), events[1..])
  }

  ghost predicate FreshRun(c: Chain, events: seq<Event>)
    decreases |events|
  {
    events != [] ==> Fresh(c, events[0]) && FreshRun(StepChain(c, events[0]), events[1..])
  }

  /** What createPair leaves at the new address is a state the pair's own run theorems start from. */
  lemma NewPairIsCreated(c: Chain, tokenA: Address, tokenB: Address, instantiated: Result<Address>, led0: Ledger, led1: Ledger)
    ensures var made := CreatePair(c, tokenA, tokenB, instantiated);
      made.Ok? ==>
        && made.value.1 in made.value.0.pairs
        && var w := World(made.value.0.pairs[made.value.1], led0, led1);
        && Created(w) && w.pair.factory == c.self && w.pair.token0 < w.pair.token1 && w.pair.unlocked == 1
  {
  }

  /** When createPair succeeds, and everything it does, on any chain. */
  lemma CreateExact(c: Chain, tokenA: Address, tokenB: Address, instantiated: Result<Address>)
    ensures var made := CreatePair(c, tokenA, tokenB, instantiated);
      var (lo, hi) := if tokenA < tokenB then (tokenA, tokenB) else (tokenB, tokenA);
      var r := c.registry;
      && (made.Halted? ==> made.why == Reverted)
      && (made.Ok? <==> tokenA != tokenB && tokenA != 0 && tokenB != 0 && Lookup(r.getPair, (lo, hi)) == 0
                        && r.codeHash != 0 && instantiated.Ok?)
      && (made.Ok? ==>
          var (c', pair) := made.value;
          var r' := c'.registry;
          && Ok(pair) == instantiated && c'.self == c.self
          && r'.feeTo == r.feeTo && r'.feeToSetter == r.feeToSetter && r'.codeHash == r.codeHash
          && (forall a: Address, b: Address :: Lookup(r'.getPair, (a, b)) ==
                if (a == tokenA && b == tokenB) || (a == tokenB && b == tokenA) then pair else Lookup(r.getPair, (a, b)))
          && r'.length == (r.length + 1) % TWO_256
          && (forall i: Word :: Lookup(r'.elements, i) == if i == r.length then pair else Lookup(r.elements, i))
          && c'.pairs == c.pairs[pair := Slots(c.self, lo, hi, 0, 1, 0, map[], map[])])
  {
  }

  // ----- the invariant

  /** `(a, b)` is the unordered pair of tokens of `x`. */
  predicate Of(x: Creation, a: Address, b: Address) {
    (a == x.t0 && b == x.t1) || (a == x.t1 && b == x.t0)
  }

  ghost predicate WellFormedLog(log: seq<Creation>) {
    && (forall x <- log :: ZERO_ADDRESS < x.t0 < x.t1 && x.pair != ZERO_ADDRESS)
    && (forall i, j :: 0 <= i < j < |log| ==>
          log[i].pair != log[j].pair && (log[i].t0, log[i].t1) != (log[j].t0, log[j].t1))
  }

  /** allPairs lists exactly the created addresses, in creation order. */
  ghost predicate ArrayAgrees(r: Registry, log: seq<Creation>) {
    && r.length == |log|
    && (forall i: Word :: i < |log| ==> Lookup(r.elements, i) == log[i].pair)
    && (forall i: Word :: |log| <= i ==> Lookup(r.elements, i) == ZERO_ADDRESS)
  }

  /** The pair created for `a` and `b` in either order, or zero. */
  function Find(log: seq<Creation>, a: Address, b: Address): Address {
    if log == [] then ZERO_ADDRESS
    else if Of(log[|log| - 1], a, b) then log[|log| - 1].pair
    else Find(log[..|log| - 1], a, b)
  }

  /** getPair answers exactly what the creations say. */
  ghost predicate MapAgrees(r: Registry, log: seq<Creation>) {
    forall a: Address, b: Address :: Lookup(r.getPair, (a, b)) == Find(log, a, b)
  }

  /** Every created pair still names the two sorted tokens it was created for. */
  ghost predicate PairsAgree(c: Chain, log: seq<Creation>) {
    forall x <- log ::
      x.pair in c.pairs && c.pairs[x.pair].token0 == x.t0 && c.pairs[x.pair].token1 == x.t1
      && c.pairs[x.pair].factory == c.self
  }

  ghost predicate Agrees(c: Chain, log: seq<Creation>) {
    && WellFormedLog(log) && ArrayAgrees(c.registry, log) && MapAgrees(c.registry, log) && PairsAgree(c, log)
  }

  ghost predicate EmptyRegistry(r: Registry) {
    r.getPair == map[] && r.length == 0 && r.elements == map[]
  }

  // ----- the array cannot overflow

  lemma {:induction false} Pigeonhole(n: nat, s: set<nat>)
    requires forall x <- s :: x < n
    ensures |s| <= n
  {
    if n == 0 {
      assert s == {};
    } else {
      var rest := s - {n - 1};
      Pigeonhole(n - 1, rest);
    }
  }

  lemma {:induction false} DistinctSize(log: seq<Creation>) returns (addresses: set<nat>)
    requires WellFormedLog(log)
    ensures |addresses| == |log|
    ensures forall a <- addresses :: exists x <- log :: a == x.pair
  {
    addresses := {};
    if log != [] {
      var front, last := log[..|log| - 1], log[|log| - 1];
      var before := DistinctSize(front);
      assert last.pair !in before;
      addresses := before + {last.pair};
      forall a <- addresses ensures exists x <- log :: a == x.pair {
        if a in before {
          var x :| x in front && a == x.pair;
          assert x in log;
        } else {
          assert last in log;
        }
      }
    }
  }

  /** There are fewer creations than addresses, so the length slot never wraps. */
  lemma LogIsShort(log: seq<Creation>)
    requires WellFormedLog(log)
    ensures |log| < TWO_160
  {
    var addresses := DistinctSize(log);
    var zero: nat := 0;
    assert zero !in addresses;
    Pigeonhole(TWO_160, addresses + {zero});
  }

  // ----- every step, every run

  lemma CreateAgrees(c: Chain, log: seq<Creation>, tokenA: Address, tokenB: Address, instantiated: Result<Address>)
    requires Agrees(c, log) && Fresh(c, Create(tokenA, tokenB, instantiated))
    requires CreatePair(c, tokenA, tokenB, instantiated).Ok?
    ensures var (t0, t1) := SortTokens(tokenA, tokenB);
      var (c', pair) := CreatePair(c, tokenA, tokenB, instantiated).value;
      Agrees(c', log + [Creation(t0, t1, pair)])
  {
    var (t0, t1) := SortTokens(tokenA, tokenB);
    var (c', pair) := CreatePair(c, tokenA, tokenB, instantiated).value;
    var x := Creation(t0, t1, pair);
    forall i | 0 <= i < |log|
      ensures log[i].pair != pair && (log[i].t0, log[i].t1) != (t0, t1)
    {
      FindEach(log, i);
    }
    assert WellFormedLog(log + [x]);
    LogIsShort(log);
    SetAgrees(c.registry, log, x);
    PushAgrees(SetPairs(c.registry, t0, t1, pair), log, x);
    assert PairsAgree(c', log + [x]);
    hide WellFormedLog, ArrayAgrees, SetPairs, PushPair, MapAgrees, PairsAgree;
    FramedMap(SetPairs(c.registry, t0, t1, pair), c'.registry, log + [x]);
  }

  lemma PushAgrees(r: Registry, log: seq<Creation>, x: Creation)
    requires ArrayAgrees(r, log) && |log| < TWO_160
    ensures ArrayAgrees(PushPair(r, x.pair), log + [x])
    ensures PushPair(r, x.pair).getPair == r.getPair
  {
    WAddExact(|log|, 1);
    hide WAdd;
    var r' := PushPair(r, x.pair);
    forall i: Word
      ensures i < |log| + 1 ==> Lookup(r'.elements, i) == (log + [x])[i].pair
      ensures |log| + 1 <= i ==> Lookup(r'.elements, i) == ZERO_ADDRESS
    {
      if i == r.length {
        assert Lookup(r'.elements, i) == x.pair;
      } else {
        assert Lookup(r'.elements, i) == Lookup(r.elements, i);
      }
    }
  }

  lemma FramedMap(r: Registry, r': Registry, log: seq<Creation>)
    requires MapAgrees(r, log) && r'.getPair == r.getPair
    ensures MapAgrees(r', log)
  {
  }

  lemma SetAgrees(r: Registry, log: seq<Creation>, x: Creation)
    requires MapAgrees(r, log)
    ensures MapAgrees(SetPairs(r, x.t0, x.t1, x.pair), log + [x])
    ensures SetPairs(r, x.t0, x.t1, x.pair).elements == r.elements && SetPairs(r, x.t0, x.t1, x.pair).length == r.length
  {
    assert (log + [x])[..|log|] == log;
  }

  /** A look-up in the creations is symmetric and non-zero exactly for the token pairs among them. */
  lemma {:induction false} FindExact(log: seq<Creation>, a: Address, b: Address)
    requires forall x <- log :: x.pair != ZERO_ADDRESS
    ensures Find(log, a, b) == Find(log, b, a)
    ensures Find(log, a, b) != ZERO_ADDRESS <==> exists i :: 0 <= i < |log| && Of(log[i], a, b)
    ensures Find(log, a, b) != ZERO_ADDRESS ==> exists i :: 0 <= i < |log| && Of(log[i], a, b) && log[i].pair == Find(log, a, b)
  {
    if log != [] {
      FindExact(log[..|log| - 1], a, b);
    }
  }

  lemma {:induction false} FindEach(log: seq<Creation>, i: nat)
    requires WellFormedLog(log) && i < |log|
    ensures Find(log, log[i].t0, log[i].t1) == log[i].pair
  {
    if i < |log| - 1 {
      assert !Of(log[|log| - 1], log[i].t0, log[i].t1);
      FindEach(log[..|log| - 1], i);
    }
  }

  /** `pair` is the pair created for the unordered tokens a and b, or zero when none was. */
  ghost predicate Answers(log: seq<Creation>, a: Address, b: Address, pair: Address) {
    && (pair != ZERO_ADDRESS <==> exists x <- log :: Of(x, a, b))
    && (forall x <- log :: Of(x, a, b) ==> pair == x.pair)
  }

  lemma FindAnswers(log: seq<Creation>, a: Address, b: Address)
    requires WellFormedLog(log)
    ensures Answers(log, a, b, Find(log, a, b)) && Answers(log, b, a, Find(log, a, b))
  {
    FindExact(log, a, b);
    hide Find;
    forall x <- log | Of(x, a, b)
      ensures Find(log, a, b) == x.pair != ZERO_ADDRESS
    {
      var i :| 0 <= i < |log| && log[i] == x;
      FindEach(log, i);
    }
    if Find(log, a, b) != ZERO_ADDRESS {
      var i :| 0 <= i < |log| && Of(log[i], a, b);
      assert log[i] in log;
    }
  }

  lemma StepAgrees(c: Chain, log: seq<Creation>, e: Event)
    requires Agrees(c, log) && Fresh(c, e)
    ensures Agrees(StepChain(c, e), log + NewCreations(c, e))
  {
    match e
    case Create(tokenA, tokenB, instantiated) =>
      if CreatePair(c, tokenA, tokenB, instantiated).Ok? {
        CreateAgrees(c, log, tokenA, tokenB, instantiated);
      } else {
        assert log + [] == log;
      }
    case PairCall(pair, call) =>
      assert log + [] == log;
      hide PairReentrancy.Exec;
      if pair in c.pairs && PairReentrancy.Exec(AS_WRITTEN, pair, c.pairs[pair], call).Ok? {
        if c.pairs[pair].token0 != ZERO_ADDRESS {
          PairReentrancy.CallKeepsTokens(AS_WRITTEN, pair, c.pairs[pair], call);
        }
      }
    case _ =>
      assert log + [] == log;
  }

  /** Over any run from an empty registry: getPair is symmetric and answers exactly for the pairs
      created, allPairs lists each created address once in creation order, and every such pair
      still names its two sorted tokens. */
  lemma {:induction false} RunAgrees(c: Chain, log: seq<Creation>, events: seq<Event>)
    requires Agrees(c, log) && FreshRun(c, events)
    ensures Agrees(RunChain(c, events), log + Creations(c, events))
    decreases |events|
  {
    hide Agrees, StepChain, NewCreations, Fresh;
    if events == [] {
      assert log + [] == log;
    } else {
      StepAgrees(c, log, events[0]);
      var next, made := StepChain(c, events[0]), NewCreations(c, events[0]);
      RunAgrees(next, log + made, events[1..]);
      var rest := Creations(next, events[1..]);
      assert (log + made) + rest == log + (made + rest);
    }
  }

  lemma RegistryIsExact(c: Chain, events: seq<Event>)
    requires EmptyRegistry(c.registry) && FreshRun(c, events)
    ensures Agrees(RunChain(c, events), Creations(c, events))
    ensures var end, log := RunChain(c, events), Creations(c, events);
      && end.registry.length == |log| < TWO_160
      && forall i :: 0 <= i < |log| ==>
        && Lookup(end.registry.elements, i) == log[i].pair
        && Lookup(end.registry.getPair, (log[i].t0, log[i].t1)) == log[i].pair
        && log[i].pair in end.pairs
        && end.pairs[log[i].pair].token0 == log[i].t0 < log[i].t1 == end.pairs[log[i].pair].token1
  {
    assert Agrees(c, []);
    RunAgrees(c, [], events);
    assert [] + Creations(c, events) == Creations(c, events);
    var end, log := RunChain(c, events), Creations(c, events);
    hide RunChain, Creations, FreshRun;
    LogIsShort(log);
    hide Agrees;
    forall i | 0 <= i < |log|
      ensures && Lookup(end.registry.elements, i) == log[i].pair
              && Lookup(end.registry.getPair, (log[i].t0, log[i].t1)) == log[i].pair
              && log[i].pair in end.pairs
              && end.pairs[log[i].pair].token0 == log[i].t0 < log[i].t1 == end.pairs[log[i].pair].token1
    {
      Listed(end, log, i);
    }
  }

  /** What agreement says of one creation. */
  lemma Listed(c: Chain, log: seq<Creation>, i: nat)
    requires Agrees(c, log) && i < |log|
    ensures |log| < TWO_160 && c.registry.length == |log|
    ensures Lookup(c.registry.elements, i) == log[i].pair
    ensures Lookup(c.registry.getPair, (log[i].t0, log[i].t1)) == log[i].pair
    ensures log[i].pair in c.pairs
    ensures c.pairs[log[i].pair].token0 == log[i].t0 < log[i].t1 == c.pairs[log[i].pair].token1
  {
    LogIsShort(log);
    FindEach(log, i);
    assert log[i] in log;
    hide Find;
  }

  /** getPair is symmetric, and non-zero exactly for the unordered token pairs created. */
  lemma GetPairIsExact(c: Chain, events: seq<Event>, a: Address, b: Address)
    requires EmptyRegistry(c.registry) && FreshRun(c, events)
    ensures var end, log := RunChain(c, events).registry, Creations(c, events);
      && Lookup(end.getPair, (a, b)) == Lookup(end.getPair, (b, a))
      && (Lookup(end.getPair, (a, b)) != ZERO_ADDRESS <==> exists i :: 0 <= i < |log| && Of(log[i], a, b))
  {
    RegistryIsExact(c, events);
    hide RunChain, Creations, FreshRun, Find;
    FindExact(Creations(c, events), a, b);
  }

  /** Indices are stable: a longer run only appends to allPairs and keeps every getPair answer. */
  lemma {:induction false} EntriesAreStable(c: Chain, log: seq<Creation>, before: seq<Event>, after: seq<Event>)
    requires Agrees(c, log) && FreshRun(c, before + after)
    ensures var mid, end := RunChain(c, before).registry, RunChain(c, before + after).registry;
      && mid.length <= end.length
      && (forall i: Word :: i < mid.length ==> Lookup(end.elements, i) == Lookup(mid.elements, i))
      && (forall a: Address, b: Address :: Lookup(mid.getPair, (a, b)) != ZERO_ADDRESS ==>
            Lookup(end.getPair, (a, b)) == Lookup(mid.getPair, (a, b)))
    decreases |before|
  {
    hide Agrees, StepChain, NewCreations, Fresh, Lookup;
    if before == [] {
      assert before + after == after;
      RunAgrees(c, log, after);
      Extends(c, RunChain(c, after), log, Creations(c, after));
    } else {
      StepAgrees(c, log, before[0]);
      assert (before + after)[1..] == before[1..] + after;
      EntriesAreStable(StepChain(c, before[0]), log + NewCreations(c, before[0]), before[1..], after);
    }
  }

  lemma Extends(c: Chain, d: Chain, log: seq<Creation>, more: seq<Creation>)
    requires Agrees(c, log) && Agrees(d, log + more)
    ensures c.registry.length <= d.registry.length
    ensures forall i: Word :: i < c.registry.length ==> Lookup(d.registry.elements, i) == Lookup(c.registry.elements, i)
    ensures forall a: Address, b: Address :: Lookup(c.registry.getPair, (a, b)) != ZERO_ADDRESS ==>
      Lookup(d.registry.getPair, (a, b)) == Lookup(c.registry.getPair, (a, b))
  {
    forall a: Address, b: Address | Lookup(c.registry.getPair, (a, b)) != ZERO_ADDRESS
      ensures Lookup(d.registry.getPair, (a, b)) == Lookup(c.registry.getPair, (a, b))
    {
      FindExact(log, a, b);
      var i :| 0 <= i < |log| && Of(log[i], a, b) && log[i].pair == Find(log, a, b);
      assert (log + more)[i] == log[i];
      FindEach(log + more, i);
      FindExact(log + more, a, b);
    }
  }
}
