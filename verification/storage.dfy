/** The storage accessors of both contracts over the flat store, and the abstract state they implement. */
module ContractStorage {
  import opened Words
  import opened Ledgers
  import opened Bytes
  import opened Layout
  import opened PairSpec

  const SLOT_BALANCE_OF: Slot := 9
  const SLOT_ALLOWANCE: Slot := 10
  const SLOT_GET_PAIR: Slot := 2
  const SLOT_ALL_PAIRS: Slot := 3

  /** One contract's storage. `touched` is the finite set of entries it ever uses. */
  class Store {
    const hash: Hash
    ghost const touched: set<Entry>
    var cells: Cells

    constructor (hash: Hash, ghost touched: set<Entry>)
      ensures this.hash == hash && this.touched == touched && cells == map[]
    {
      this.hash, this.touched, this.cells := hash, touched, map[];
    }

    ghost predicate Valid() {
      GoodHash(hash, touched) && OneContract(touched)
    }

    /** What every touched entry currently reads as. */
    ghost function Views(): map<Entry, Word>
      reads this
    {
      map e | e in touched :: View(hash, cells, e)
    }

    /** One hashed or scalar write is one map update. */
    lemma OneWrite(before: Cells, e: Entry, value: Word)
      requires Valid() && e in touched
      ensures (map f | f in touched :: View(hash, Put(hash, before, e, value), f))
           == (map f | f in touched :: View(hash, before, f))[e := value]
    {
      hide View, Put, GoodHash, OneContract;
      forall f | f in touched
        ensures View(hash, Put(hash, before, e, value), f) == if f == e then value else View(hash, before, f)
      {
        PutView(hash, touched, before, e, value, f);
      }
    }

    method StorageGetU256(slot: Slot) returns (value: Word)
      ensures value == View(hash, cells, Scalar(slot))
    {
      var out := ReadCell(cells, SlotKey(slot));
      value := WordOf(out);
    }

    method StorageSetU256(slot: Slot, value: Word)
      requires Valid() && Scalar(slot) in touched
      modifies this
      ensures Views() == old(Views())[Scalar(slot) := value]
    {
      OneWrite(cells, Scalar(slot), value);
      cells := WriteCell(cells, SlotKey(slot), ToBytes(value, 32));
    }

    method GetBalance(owner: Address) returns (value: Word)
      ensures value == View(hash, cells, Keyed(SLOT_BALANCE_OF, owner))
    {
      var out := ReadCell(cells, MappingKey1(hash, SLOT_BALANCE_OF, owner));
      value := WordOf(out);
    }

    method SetBalance(owner: Address, value: Word)
      requires Valid() && Keyed(SLOT_BALANCE_OF, owner) in touched
      modifies this
      ensures Views() == old(Views())[Keyed(SLOT_BALANCE_OF, owner) := value]
    {
      OneWrite(cells, Keyed(SLOT_BALANCE_OF, owner), value);
      cells := WriteCell(cells, MappingKey1(hash, SLOT_BALANCE_OF, owner), ToBytes(value, 32));
    }

    method GetAllowance(owner: Address, spender: Address) returns (value: Word)
      ensures value == View(hash, cells, KeyedTwice(SLOT_ALLOWANCE, owner, spender))
    {
      var out := ReadCell(cells, MappingKey2(hash, SLOT_ALLOWANCE, owner, spender));
      value := WordOf(out);
    }

    method SetAllowance(owner: Address, spender: Address, value: Word)
      requires Valid() && KeyedTwice(SLOT_ALLOWANCE, owner, spender) in touched
      modifies this
      ensures Views() == old(Views())[KeyedTwice(SLOT_ALLOWANCE, owner, spender) := value]
    {
      OneWrite(cells, KeyedTwice(SLOT_ALLOWANCE, owner, spender), value);
      cells := WriteCell(cells, MappingKey2(hash, SLOT_ALLOWANCE, owner, spender), ToBytes(value, 32));
    }

    /** Only bytes 12..32 of the cell are read back. */
    method GetPairInternal(token0: Address, token1: Address) returns (pair: Address)
      ensures pair == View(hash, cells, KeyedTwice(SLOT_GET_PAIR, token0, token1)) % TWO_160
    {
      var out := ReadCell(cells, MappingKey2(hash, SLOT_GET_PAIR, token0, token1));
      pair := AddressOf(out);
    }

    method SetPair(token0: Address, token1: Address, pair: Address)
      requires Valid() && KeyedTwice(SLOT_GET_PAIR, token0, token1) in touched
      modifies this
      ensures Views() == old(Views())[KeyedTwice(SLOT_GET_PAIR, token0, token1) := pair]
    {
      OneWrite(cells, KeyedTwice(SLOT_GET_PAIR, token0, token1), pair);
      AddressCell(pair);
      cells := WriteCell(cells, MappingKey2(hash, SLOT_GET_PAIR, token0, token1), Zeros(12) + ToBytes(pair, 20));
    }

    method AllPairsGet(index: Word) returns (pair: Address)
      ensures pair == View(hash, cells, Element(SLOT_ALL_PAIRS, index)) % TWO_160
    {
      var out := ReadCell(cells, ArraySlot(hash, SLOT_ALL_PAIRS, index));
      pair := AddressOf(out);
    }

    method AllPairsPush(pair: Address)
      requires Valid() && Scalar(SLOT_ALL_PAIRS) in touched
      requires Element(SLOT_ALL_PAIRS, View(hash, cells, Scalar(SLOT_ALL_PAIRS))) in touched
      modifies this
      ensures var len := old(View(hash, cells, Scalar(SLOT_ALL_PAIRS)));
        Views() == old(Views())[Element(SLOT_ALL_PAIRS, len) := pair][Scalar(SLOT_ALL_PAIRS) := WAdd(len, 1)]
    {
      hide View, WriteCell, ReadCell, ToBytes, Zeros, WAdd;
      var len := StorageGetU256(SLOT_ALL_PAIRS);
      OneWrite(cells, Element(SLOT_ALL_PAIRS, len), pair);
      AddressCell(pair);
      cells := WriteCell(cells, ArraySlot(hash, SLOT_ALL_PAIRS, len), Zeros(12) + ToBytes(pair, 20));
      StorageSetU256(SLOT_ALL_PAIRS, WAdd(len, 1));
    }
  }

  // ----- words and addresses in a cell

  function WordOf(cell: Bytes32): Word {
    Widths();
    FromBytesBound(cell);
    FromBytes(cell)
  }

  /** `addr.copy_from_slice(&out[12..32])` */
  function AddressOf(cell: Bytes32): (a: Address)
    ensures a == FromBytes(cell) % TWO_160
  {
    Widths();
    FromBytesBound(cell[12..]);
    LowBytes(cell[..12], cell[12..]);
    assert cell == cell[..12] + cell[12..];
    LowRemainder(FromBytes(cell[..12]), FromBytes(cell[12..]));
    FromBytes(cell[12..])
  }

  lemma LowRemainder(high: nat, low: nat)
    requires low < TWO_160
    ensures (high * TWO_160 + low) % TWO_160 == low
  {
  }

  /** An address right-aligned in a cell is the cell of that number. */
  lemma AddressCell(a: Address)
    ensures Zeros(12) + ToBytes(a, 20) == ToBytes(a, 32)
  {
    Widths();
    WordRoundTrip(a, 20);
    LeadingZeros(12, ToBytes(a, 20));
    BytesRoundTrip(Zeros(12) + ToBytes(a, 20));
  }

  /** The four hashed tables of the two contracts: balances at slot 9, allowances at 10 (and 11 inside), getPair
      at 2 (and 3 inside), allPairs at 3. */
  lemma TableCells(hash: Hash, a: Address, b: Address, index: Word)
    ensures Key(hash, Keyed(SLOT_BALANCE_OF, a)) == hash(MappingBytes(a, 9))
    ensures Key(hash, KeyedTwice(SLOT_ALLOWANCE, a, b)) == hash(OuterBytes(a, hash(MappingBytes(b, 11))))
    ensures Key(hash, KeyedTwice(SLOT_GET_PAIR, a, b)) == hash(OuterBytes(a, hash(MappingBytes(b, 3))))
    ensures Key(hash, Element(SLOT_ALL_PAIRS, index)) == hash(ElementBytes(3, index))
  {
    KeyBytes(hash, 9, a, b, index);
    KeyBytes(hash, 10, a, b, index);
    KeyBytes(hash, 2, a, b, index);
    KeyBytes(hash, 3, a, b, index);
    hide Key, MappingBytes, OuterBytes, ElementBytes;
  }

  // ----- the pair's abstract storage

  /** What the pair's abstract storage holds at an entry; the price and kLast slots stay zero. */
  function Lookup(s: Slots, e: Entry): Word {
    match e
    case Scalar(slot) =>
      if slot == 0 then s.factory else if slot == 1 then s.token0 else if slot == 2 then s.token1
      else if slot == 3 then s.reserves else if slot == 7 then s.unlocked
      else if slot == 8 then s.totalSupply else 0
    case Keyed(_, owner) => Get(s.balanceOf, owner)
    case KeyedTwice(_, owner, spender) => Get(s.allowance, (owner, spender))
    case Element(_, _) => 0
  }

  predicate Writable(e: Entry, value: Word) {
    && PairEntry(e)
    && (e.Scalar? ==> e.slot in {0, 1, 2, 3, 7, 8} && (e.slot <= 2 ==> value < TWO_160))
  }

  function Update(s: Slots, e: Entry, value: Word): Slots
    requires Writable(e, value)
  {
    match e
    case Scalar(slot) =>
      if slot == 0 then s.(factory := value) else if slot == 1 then s.(token0 := value)
      else if slot == 2 then s.(token1 := value) else if slot == 3 then s.(reserves := value)
      else if slot == 7 then s.(unlocked := value) else s.(totalSupply := value)
    case Keyed(_, owner) => s.(balanceOf := s.balanceOf[owner := value])
    case KeyedTwice(_, owner, spender) => s.(allowance := s.allowance[(owner, spender) := value])
  }

  function UpdateAll(s: Slots, writes: seq<Write>): Slots
    requires forall w <- writes :: Writable(w.entry, w.value)
    decreases |writes|
  {
    if writes == [] then s else UpdateAll(Update(s, writes[0].entry, writes[0].value), writes[1..])
  }

  /** The flat cells hold the abstract storage, as far as the touched entries go. */
  ghost predicate Represents(hash: Hash, touched: set<Entry>, cells: Cells, s: Slots) {
    forall e <- touched :: View(hash, cells, e) == Lookup(s, e)
  }

  /** The key of a scalar slot below 256: its number in the last byte. */
  function Numbered(slot: Byte): Bytes32 {
    Zeros(31) + [slot]
  }

  lemma SmallSlot(slot: nat)
    requires slot < 256
    ensures SlotKey(slot) == Numbered(slot)
  {
    assert ToBytes(slot, 4) == Zeros(3) + [slot];
  }

  /** Where the pair's data lies, key by key. */
  lemma PairCellsHold(hash: Hash, touched: set<Entry>, cells: Cells, s: Slots, a: Address, b: Address)
    requires Represents(hash, touched, cells, s)
    requires {Scalar(0), Scalar(1), Scalar(2), Scalar(3), Scalar(7), Scalar(8), Keyed(9, a), KeyedTwice(10, a, b)} <= touched
    ensures FromBytes(ReadCell(cells, Numbered(0))) == s.factory
    ensures FromBytes(ReadCell(cells, Numbered(1))) == s.token0
    ensures FromBytes(ReadCell(cells, Numbered(2))) == s.token1
    ensures FromBytes(ReadCell(cells, Numbered(3))) == s.reserves
    ensures FromBytes(ReadCell(cells, Numbered(7))) == s.unlocked
    ensures FromBytes(ReadCell(cells, Numbered(8))) == s.totalSupply
    ensures FromBytes(ReadCell(cells, hash(MappingBytes(a, 9)))) == Get(s.balanceOf, a)
    ensures FromBytes(ReadCell(cells, hash(OuterBytes(a, hash(MappingBytes(b, 11)))))) == Get(s.allowance, (a, b))
  {
    hide SlotKey, Numbered, FromBytes, ReadCell, MappingBytes, OuterBytes, MappingKey1, MappingKey2;
    SmallSlot(0);
    SmallSlot(1);
    SmallSlot(2);
    SmallSlot(3);
    SmallSlot(7);
    SmallSlot(8);
    TableCells(hash, a, b, 0);
  }

  lemma UpdateLookup(s: Slots, e: Entry, value: Word, f: Entry)
    requires Writable(e, value) && PairEntry(f)
    ensures Lookup(Update(s, e, value), f) == if f == e then value else Lookup(s, f)
  {
  }

  /** The flat store follows the abstract storage through any sequence of the pair's writes. */
  lemma {:induction false} WritesRefine(hash: Hash, touched: set<Entry>, cells: Cells, s: Slots, writes: seq<Write>)
    requires GoodHash(hash, touched) && OneContract(touched) && forall e <- touched :: PairEntry(e)
    requires forall w <- writes :: w.entry in touched && Writable(w.entry, w.value)
    requires Represents(hash, touched, cells, s)
    ensures Represents(hash, touched, PutAll(hash, cells, writes), UpdateAll(s, writes))
    decreases |writes|
  {
    if writes != [] {
      var e, value := writes[0].entry, writes[0].value;
      forall f <- touched
        ensures View(hash, Put(hash, cells, e, value), f) == Lookup(Update(s, e, value), f)
      {
        PutView(hash, touched, cells, e, value, f);
        UpdateLookup(s, e, value, f);
      }
      hide View, Put, Lookup, Update, GoodHash;
      WritesRefine(hash, touched, Put(hash, cells, e, value), Update(s, e, value), writes[1..]);
    }
  }

  /** The two writes of `deploy` into an empty store leave a deployed pair. */
  lemma DeployRefines(hash: Hash, touched: set<Entry>, caller: Address)
    requires GoodHash(hash, touched) && OneContract(touched) && forall e <- touched :: PairEntry(e)
    requires Scalar(0) in touched && Scalar(7) in touched
    ensures Represents(hash, touched, PutAll(hash, map[], [Write(Scalar(0), caller), Write(Scalar(7), 1)]), Deployed(caller))
  {
    var blank := Deployed(0).(unlocked := 0);
    var writes := [Write(Scalar(0), caller), Write(Scalar(7), 1)];
    assert Zeros(32) + [] == Zeros(32);
    LeadingZeros(32, []);
    assert Represents(hash, touched, map[], blank);
    WritesRefine(hash, touched, map[], blank, writes);
    var named := Update(blank, Scalar(0), caller);
    assert writes[1..] == [Write(Scalar(7), 1)] && writes[1..][1..] == [];
    assert UpdateAll(named, writes[1..]) == UpdateAll(Update(named, Scalar(7), 1), []);
    assert Update(named, Scalar(7), 1) == Deployed(caller);
  }
}
