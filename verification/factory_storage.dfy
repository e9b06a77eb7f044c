/** The factory's registry in the flat store, over single calls and over whole runs. */
module FactoryStorage {
  import opened Words
  import opened Bytes
  import opened Layout
  import opened ContractStorage
  import opened PairSpec
  import opened FactorySpec

  const SLOT_CODE_HASH: Slot := 4

  function RegistryEntry(r: Registry, e: Entry): Word {
    match e
    case Scalar(slot) =>
      if slot == 0 then r.feeTo else if slot == 1 then r.feeToSetter else if slot == 3 then r.length
      else if slot == 4 then r.codeHash else 0
    case KeyedTwice(_, t0, t1) => FactorySpec.Lookup(r.getPair, (t0, t1))
    case Element(_, index) => FactorySpec.Lookup(r.elements, index)
    case Keyed(_, _) => 0
  }

  /** The cells hold the registry, as far as the touched entries go. */
  ghost predicate Shows(views: map<Entry, Word>, r: Registry) {
    forall e <- views :: FactoryEntry(e) && views[e] == RegistryEntry(r, e)
  }

  /** Where the factory's data lies, key by key. */
  lemma FactoryCellsHold(store: Store, r: Registry, a: Address, b: Address, index: Word)
    requires Shows(store.Views(), r)
    requires {Scalar(0), Scalar(1), Scalar(3), Scalar(4), KeyedTwice(2, a, b), Element(3, index)} <= store.touched
    ensures FromBytes(ReadCell(store.cells, Numbered(0))) == r.feeTo
    ensures FromBytes(ReadCell(store.cells, Numbered(1))) == r.feeToSetter
    ensures FromBytes(ReadCell(store.cells, Numbered(3))) == r.length
    ensures FromBytes(ReadCell(store.cells, Numbered(4))) == r.codeHash
    ensures FromBytes(ReadCell(store.cells, store.hash(OuterBytes(a, store.hash(MappingBytes(b, 3))))))
         == FactorySpec.Lookup(r.getPair, (a, b))
    ensures FromBytes(ReadCell(store.cells, store.hash(ElementBytes(3, index)))) == FactorySpec.Lookup(r.elements, index)
  {
    hide Shows, SlotKey, Numbered, FromBytes, ReadCell, MappingBytes, OuterBytes, ElementBytes, MappingKey2, ArraySlot, FactorySpec.Lookup;
    SmallSlot(0);
    SmallSlot(1);
    SmallSlot(3);
    SmallSlot(4);
    TableCells(store.hash, a, b, index);
    ShownEntry(store, r, Scalar(0));
    ShownEntry(store, r, Scalar(1));
    ShownEntry(store, r, Scalar(3));
    ShownEntry(store, r, Scalar(4));
    ShownEntry(store, r, KeyedTwice(2, a, b));
    ShownEntry(store, r, Element(3, index));
  }

  /** The four writes of a createPair that completes, in the code's order. */
  function CreateWrites(r: Registry, t0: Address, t1: Address, pair: Address): seq<Write> {
    [Write(KeyedTwice(SLOT_GET_PAIR, t0, t1), pair), Write(KeyedTwice(SLOT_GET_PAIR, t1, t0), pair),
     Write(Element(SLOT_ALL_PAIRS, r.length), pair), Write(Scalar(SLOT_ALL_PAIRS), WAdd(r.length, 1))]
  }

  lemma CreateShows(views: map<Entry, Word>, r: Registry, t0: Address, t1: Address, pair: Address)
    requires Shows(views, r) && r.length < TWO_160
    ensures Shows(
      views[KeyedTwice(SLOT_GET_PAIR, t0, t1) := pair][KeyedTwice(SLOT_GET_PAIR, t1, t0) := pair]
           [Element(SLOT_ALL_PAIRS, r.length) := pair][Scalar(SLOT_ALL_PAIRS) := WAdd(r.length, 1)],
      PushPair(SetPairs(r, t0, t1, pair), pair))
  {
    hide WAdd;
    var r' := PushPair(SetPairs(r, t0, t1, pair), pair);
    var views' := views[KeyedTwice(SLOT_GET_PAIR, t0, t1) := pair][KeyedTwice(SLOT_GET_PAIR, t1, t0) := pair]
                       [Element(SLOT_ALL_PAIRS, r.length) := pair][Scalar(SLOT_ALL_PAIRS) := WAdd(r.length, 1)];
    forall e <- views' ensures FactoryEntry(e) && views'[e] == RegistryEntry(r', e) {
    }
  }

  /** The entries that createPair reads or writes. */
  ghost predicate Touches(touched: set<Entry>, r: Registry, tokenA: Address, tokenB: Address) {
    && KeyedTwice(SLOT_GET_PAIR, tokenA, tokenB) in touched && KeyedTwice(SLOT_GET_PAIR, tokenB, tokenA) in touched
    && Scalar(SLOT_CODE_HASH) in touched && Scalar(SLOT_ALL_PAIRS) in touched
    && Element(SLOT_ALL_PAIRS, r.length) in touched
  }

  lemma ViewsAt(store: Store, e: Entry)
    requires e in store.touched
    ensures e in store.Views() && store.Views()[e] == View(store.hash, store.cells, e)
  {
  }

  lemma ShownEntry(store: Store, r: Registry, e: Entry)
    requires Shows(store.Views(), r) && e in store.touched
    ensures View(store.hash, store.cells, e) == RegistryEntry(r, e)
  {
    ViewsAt(store, e);
    hide View, RegistryEntry;
  }

  /** The last three statements of `createPair`: both map entries and the push. */
  method Record(store: Store, ghost r: Registry, t0: Address, t1: Address, pair: Address)
    requires store.Valid() && Touches(store.touched, r, t0, t1)
    requires Shows(store.Views(), r) && r.length < TWO_160
    modifies store
    ensures Shows(store.Views(), PushPair(SetPairs(r, t0, t1, pair), pair))
  {
    hide View, Shows, RegistryEntry, PushPair, SetPairs, WAdd;
    CreateShows(store.Views(), r, t0, t1, pair);
    ViewsAt(store, Scalar(SLOT_ALL_PAIRS));
    ShownEntry(store, r, Scalar(SLOT_ALL_PAIRS));
    LengthEntry(r);
    store.SetPair(t0, t1, pair);
    store.SetPair(t1, t0, pair);
    ViewsAt(store, Scalar(SLOT_ALL_PAIRS));
    store.AllPairsPush(pair);
  }

  lemma LengthEntry(r: Registry)
    ensures RegistryEntry(r, Scalar(SLOT_ALL_PAIRS)) == r.length
    ensures RegistryEntry(r, Scalar(SLOT_CODE_HASH)) == r.codeHash
  {
  }

  lemma PairEntryValue(r: Registry, t0: Address, t1: Address)
    ensures RegistryEntry(r, KeyedTwice(SLOT_GET_PAIR, t0, t1)) % TWO_160 == FactorySpec.Lookup(r.getPair, (t0, t1))
  {
  }

  /** What is left of createPair's function once its guards have passed. */
  lemma CreateCompletes(c: Chain, tokenA: Address, tokenB: Address, instantiated: Result<Address>)
    requires tokenA != tokenB && SortTokens(tokenA, tokenB).0 != ZERO_ADDRESS && c.registry.codeHash != 0 && instantiated.Ok?
    requires FactorySpec.Lookup(c.registry.getPair, SortTokens(tokenA, tokenB)) == ZERO_ADDRESS
    ensures var (t0, t1) := SortTokens(tokenA, tokenB);
      var made := FactorySpec.CreatePair(c, tokenA, tokenB, instantiated);
      && made.Ok? && made.value.1 == instantiated.value
      && made.value.0.registry == PushPair(SetPairs(c.registry, t0, t1, instantiated.value), instantiated.value)
  {
    hide PushPair, SetPairs;
  }

  /** `createPair` on the 32-byte cells, through the contract's own accessors: it answers as the registry's
      function does, and the cells then hold that function's new registry, or have not changed. */
  method CreatePair(store: Store, ghost c: Chain, tokenA: Address, tokenB: Address, instantiated: Result<Address>)
    returns (r: Result<Address>)
    requires store.Valid() && Touches(store.touched, c.registry, tokenA, tokenB)
    requires Shows(store.Views(), c.registry) && c.registry.length < TWO_160
    modifies store
    ensures match FactorySpec.CreatePair(c, tokenA, tokenB, instantiated)
      case Ok((after, pair)) => r == Ok(pair) && Shows(store.Views(), after.registry)
      case Halted(why) => r == Halted(why) && store.cells == old(store.cells)
  {
    if tokenA == tokenB { return Halted(Reverted); }
    var (token0, token1) := SortTokens(tokenA, tokenB);
    if token0 == ZERO_ADDRESS { return Halted(Reverted); }
    hide View, Shows, RegistryEntry, PushPair, SetPairs;
    ShownEntry(store, c.registry, KeyedTwice(SLOT_GET_PAIR, token0, token1));
    PairEntryValue(c.registry, token0, token1);
    var existing := store.GetPairInternal(token0, token1);
    if existing != ZERO_ADDRESS { return Halted(Reverted); }
    ShownEntry(store, c.registry, Scalar(SLOT_CODE_HASH));
    LengthEntry(c.registry);
    var codeHash := store.StorageGetU256(SLOT_CODE_HASH);
    if codeHash == 0 { return Halted(Reverted); }
    // instantiate and initialize run on the host: what they leave is NewPairIsCreated
    if instantiated.Halted? { return Halted(Reverted); }
    CreateCompletes(c, tokenA, tokenB, instantiated);
    hide FactorySpec.CreatePair;
    Record(store, c.registry, token0, token1, instantiated.value);
    r := Ok(instantiated.value);
  }

  // ----- whole runs on the cells

  /** What the factory writes in one event; the host keeps nothing of a call that reverts. */
  ghost function EventWrites(c: Chain, e: Event): seq<Write> {
    match e
    case Create(tokenA, tokenB, instantiated) =>
      var made := FactorySpec.CreatePair(c, tokenA, tokenB, instantiated);
      var (t0, t1) := SortTokens(tokenA, tokenB);
      if made.Ok? then CreateWrites(c.registry, t0, t1, made.value.1) else []
    case SetFeeTo(caller, feeTo) =>
      if caller == c.registry.feeToSetter then [Write(Scalar(0), feeTo)] else []
    case SetFeeToSetter(caller, setter) =>
      if caller == c.registry.feeToSetter then [Write(Scalar(1), setter)] else []
    case _ => []
  }

  ghost function RunEventWrites(c: Chain, events: seq<Event>): seq<Write>
    decreases |events|
  {
    if events == [] then [] else EventWrites(c, events[0]) + RunEventWrites(StepChain(c, events[0]), events[1..])
  }

  ghost predicate Holds(hash: Hash, touched: set<Entry>, cells: Cells, r: Registry) {
    forall e <- touched :: View(hash, cells, e) == RegistryEntry(r, e)
  }

  lemma OneWrite(a: Write, e: Entry, initial: Word)
    ensures LastWrite([a], e, initial) == if a.entry == e then a.value else initial
  {
  }

  lemma FourWrites(a: Write, b: Write, c: Write, d: Write, e: Entry, initial: Word)
    ensures LastWrite([a, b, c, d], e, initial)
         == if d.entry == e then d.value else if c.entry == e then c.value
            else if b.entry == e then b.value else if a.entry == e then a.value else initial
  {
    assert [a, b, c, d][1..] == [b, c, d] && [b, c, d][1..] == [c, d] && [c, d][1..] == [d];
    var x := if a.entry == e then a.value else initial;
    var y := if b.entry == e then b.value else x;
    var z := if c.entry == e then c.value else y;
    assert LastWrite([a, b, c, d], e, initial) == LastWrite([b, c, d], e, x);
    assert LastWrite([b, c, d], e, x) == LastWrite([c, d], e, y);
    assert LastWrite([c, d], e, y) == LastWrite([d], e, z);
    OneWrite(d, e, z);
  }

  lemma CreateEntry(r: Registry, t0: Address, t1: Address, pair: Address, e: Entry)
    requires FactoryEntry(e)
    ensures LastWrite(CreateWrites(r, t0, t1, pair), e, RegistryEntry(r, e))
         == RegistryEntry(PushPair(SetPairs(r, t0, t1, pair), pair), e)
  {
    var w := CreateWrites(r, t0, t1, pair);
    FourWrites(w[0], w[1], w[2], w[3], e, RegistryEntry(r, e));
    hide LastWrite, WAdd;
  }

  /** Last writes are exactly the new registry, entry by entry. */
  lemma EventEntry(c: Chain, event: Event, e: Entry)
    requires FactoryEntry(e)
    ensures LastWrite(EventWrites(c, event), e, RegistryEntry(c.registry, e)) == RegistryEntry(StepChain(c, event).registry, e)
  {
    match event
    case Create(tokenA, tokenB, instantiated) =>
      var made := FactorySpec.CreatePair(c, tokenA, tokenB, instantiated);
      var (t0, t1) := SortTokens(tokenA, tokenB);
      if made.Ok? { CreateEntry(c.registry, t0, t1, made.value.1, e); }
    case SetFeeTo(caller, feeTo) => OneWrite(Write(Scalar(0), feeTo), e, RegistryEntry(c.registry, e));
    case SetFeeToSetter(caller, setter) => OneWrite(Write(Scalar(1), setter), e, RegistryEntry(c.registry, e));
    case _ =>
  }

  lemma EventHolds(hash: Hash, touched: set<Entry>, cells: Cells, c: Chain, event: Event)
    requires GoodHash(hash, touched) && forall e <- touched :: FactoryEntry(e)
    requires forall x <- EventWrites(c, event) :: x.entry in touched
    requires Holds(hash, touched, cells, c.registry)
    ensures Holds(hash, touched, PutAll(hash, cells, EventWrites(c, event)), StepChain(c, event).registry)
  {
    hide View, LastWrite, EventWrites, StepChain, RegistryEntry, GoodHash, FactoryEntry, PutAll;
    forall e <- touched
      ensures View(hash, PutAll(hash, cells, EventWrites(c, event)), e) == RegistryEntry(StepChain(c, event).registry, e)
    {
      ReadsLastWrite(hash, touched, cells, EventWrites(c, event), e);
      EventEntry(c, event, e);
    }
  }

  /** Over any run of events the factory's 32-byte cells hold its registry. */
  lemma {:induction false} RunHolds(hash: Hash, touched: set<Entry>, cells: Cells, c: Chain, events: seq<Event>)
    requires GoodHash(hash, touched) && forall e <- touched :: FactoryEntry(e)
    requires forall x <- RunEventWrites(c, events) :: x.entry in touched
    requires Holds(hash, touched, cells, c.registry)
    ensures Holds(hash, touched, PutAll(hash, cells, RunEventWrites(c, events)), RunChain(c, events).registry)
    decreases |events|
  {
    if events != [] {
      hide View, EventWrites, StepChain, RegistryEntry, GoodHash, FactoryEntry, PutAll, Holds;
      var first, rest := EventWrites(c, events[0]), RunEventWrites(StepChain(c, events[0]), events[1..]);
      assert forall x <- first :: x in first + rest;
      assert forall x <- rest :: x in first + rest;
      EventHolds(hash, touched, cells, c, events[0]);
      RunHolds(hash, touched, PutAll(hash, cells, first), StepChain(c, events[0]), events[1..]);
      PutAllConcat(hash, cells, first, rest);
    } else {
      assert RunEventWrites(c, events) == [];
    }
  }
}
