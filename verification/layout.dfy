/** The flat 32-byte store under both contracts: scalar slots, hashed mapping keys and array elements. */
module Layout {
  import opened Words
  import opened Bytes

  type Cells = map<Bytes32, Bytes32>
  type Hash = seq<Byte> -> Bytes32

  // ----- the places a contract can store at

  type Slot = x: nat | x < TWO_32

  datatype Entry =
    | Scalar(slot: Slot)
    | Keyed(base: Slot, key: Address)
    | KeyedTwice(base: Slot, key1: Address, key2: Address)
    | Element(base: Slot, index: Word)

  /** Bytes 12..32 hold the address, bytes 44..48 the slot number. */
  function SlotInput(key: Address, slot: nat): seq<Byte> {
    Zeros(12) + ToBytes(key, 20) + (Zeros(12) + ToBytes(slot, 4) + Zeros(16))
  }

  function OuterInput(key: Address, inner: Bytes32): seq<Byte> {
    Zeros(12) + ToBytes(key, 20) + inner
  }

  function ElementInput(base: Slot, index: Word): seq<Byte> {
    Zeros(28) + ToBytes(base, 4) + ToBytes(index, 32)
  }

  /** `storage_get_u256` and `storage_set_u256` address slot n by the 32-byte big-endian n. */
  function SlotKey(slot: Slot): Bytes32 {
    Zeros(28) + ToBytes(slot, 4)
  }

  function MappingKey1(hash: Hash, base: Slot, key: Address): Bytes32 {
    hash(SlotInput(key, base))
  }

  /** `mapping_key_2`: the second key is hashed with `base + 1` (in u32), the first with that hash. */
  function InnerInput(base: Slot, key2: Address): seq<Byte> {
    SlotInput(key2, (base + 1) % TWO_32)
  }

  function MappingKey2(hash: Hash, base: Slot, key1: Address, key2: Address): Bytes32 {
    hash(OuterInput(key1, hash(InnerInput(base, key2))))
  }

  function ArraySlot(hash: Hash, base: Slot, index: Word): Bytes32 {
    hash(ElementInput(base, index))
  }

  function Key(hash: Hash, e: Entry): Bytes32 {
    match e
    case Scalar(slot) => SlotKey(slot)
    case Keyed(base, key) => MappingKey1(hash, base, key)
    case KeyedTwice(base, key1, key2) => MappingKey2(hash, base, key1, key2)
    case Element(base, index) => ArraySlot(hash, base, index)
  }

  /** Everything hashed on the way to an entry's key. */
  function Inputs(hash: Hash, e: Entry): set<seq<Byte>> {
    match e
    case Scalar(_) => {}
    case Keyed(base, key) => {SlotInput(key, base)}
    case KeyedTwice(base, key1, key2) =>
      {InnerInput(base, key2), OuterInput(key1, hash(InnerInput(base, key2)))}
    case Element(base, index) => {ElementInput(base, index)}
  }

  predicate PairEntry(e: Entry) {
    e.Scalar? || (e.Keyed? && e.base == 9) || (e.KeyedTwice? && e.base == 10)
  }

  predicate FactoryEntry(e: Entry) {
    e.Scalar? || (e.KeyedTwice? && e.base == 2) || (e.Element? && e.base == 3 && e.index < TWO_160)
  }

  /** The finite hypothesis on the hash: on what the touched entries feed it, no two inputs
      collide and every value is at least 2^160, hence above every slot number and array index. */
  ghost predicate GoodHash(hash: Hash, touched: set<Entry>) {
    && (forall e, f, p, q | e in touched && f in touched && p in Inputs(hash, e) && q in Inputs(hash, f) ::
          hash(p) == hash(q) ==> p == q)
    && (forall e, p :: e in touched && p in Inputs(hash, e) ==> TWO_160 <= FromBytes(hash(p)))
  }

  ghost predicate OneContract(touched: set<Entry>) {
    (forall e <- touched :: PairEntry(e)) || (forall e <- touched :: FactoryEntry(e))
  }

  // ----- what is hashed, byte by byte

  /** The 64 bytes hashed for a mapping entry: the key in 12..32, the slot number in 44..48, else zero. */
  function MappingBytes(key: Address, slot: nat): (s: seq<Byte>)
    ensures |s| == 64
  {
    seq(64, i requires 0 <= i < 64 =>
      if 12 <= i < 32 then Digit(key, 31 - i) else if 44 <= i < 48 then Digit(slot, 47 - i) else 0)
  }

  /** The 64 bytes of the second hash of a nested mapping: the key in 12..32, the inner hash in 32..64. */
  function OuterBytes(key: Address, inner: Bytes32): (s: seq<Byte>)
    ensures |s| == 64
  {
    seq(64, i requires 0 <= i < 64 => if i < 12 then 0 else if i < 32 then Digit(key, 31 - i) else inner[i - 32])
  }

  /** The 64 bytes hashed for an array element: the slot number in 28..32, the index in 32..64. */
  function ElementBytes(base: nat, index: nat): (s: seq<Byte>)
    ensures |s| == 64
  {
    seq(64, i requires 0 <= i < 64 => if i < 28 then 0 else if i < 32 then Digit(base, 31 - i) else Digit(index, 63 - i))
  }

  lemma SlotInputBytes(key: Address, slot: nat)
    ensures SlotInput(key, slot) == MappingBytes(key, slot)
  {
    DigitsOf(key, 20);
    DigitsOf(slot, 4);
    hide ToBytes, Digit;
  }

  lemma OuterInputBytes(key: Address, inner: Bytes32)
    ensures OuterInput(key, inner) == OuterBytes(key, inner)
  {
    DigitsOf(key, 20);
    hide ToBytes, Digit;
  }

  lemma ElementInputBytes(base: Slot, index: Word)
    ensures ElementInput(base, index) == ElementBytes(base, index)
  {
    DigitsOf(base, 4);
    DigitsOf(index, 32);
    hide ToBytes, Digit;
  }

  lemma DigitsOf(w: nat, n: nat)
    ensures forall i :: 0 <= i < n ==> ToBytes(w, n)[i] == Digit(w, n - 1 - i)
  {
    forall i | 0 <= i < n ensures ToBytes(w, n)[i] == Digit(w, n - 1 - i) { ToBytesAt(w, n, i); }
  }

  /** The cell of every kind of entry, from the bytes alone. */
  lemma KeyBytes(hash: Hash, base: Slot, key: Address, key2: Address, index: Word)
    ensures Key(hash, Scalar(base)) == seq(32, i requires 0 <= i < 32 => if i < 28 then 0 else Digit(base, 31 - i))
    ensures Key(hash, Keyed(base, key)) == hash(MappingBytes(key, base))
    ensures Key(hash, KeyedTwice(base, key, key2)) == hash(OuterBytes(key, hash(MappingBytes(key2, (base + 1) % TWO_32))))
    ensures Key(hash, Element(base, index)) == hash(ElementBytes(base, index))
  {
    SlotInputBytes(key, base);
    SlotInputBytes(key2, (base + 1) % TWO_32);
    OuterInputBytes(key, hash(SlotInput(key2, (base + 1) % TWO_32)));
    ElementInputBytes(base, index);
    ScalarBytes(base);
    hide SlotInput, OuterInput, ElementInput, SlotKey, MappingBytes, OuterBytes, ElementBytes, Digit;
  }

  lemma ScalarBytes(slot: Slot)
    ensures SlotKey(slot) == seq(32, i requires 0 <= i < 32 => if i < 28 then 0 else Digit(slot, 31 - i))
  {
    DigitsOf(slot, 4);
    hide ToBytes, Digit;
  }

  // ----- inputs and keys tell entries apart

  /** The second half of a mapping input is the slot number times 2^128. */
  lemma SlotWord(slot: nat)
    requires slot < TWO_32
    ensures FromBytes(Zeros(12) + ToBytes(slot, 4) + Zeros(16)) == slot * TWO_128 < TWO_160
  {
    Widths();
    WordRoundTrip(slot, 4);
    LeadingZeros(12, ToBytes(slot, 4));
    TrailingZeros(Zeros(12) + ToBytes(slot, 4), 16);
  }

  lemma SameHalves(a: seq<Byte>, b: seq<Byte>, c: seq<Byte>, d: seq<Byte>)
    requires a + b == c + d && |a| == |c|
    ensures a == c && b == d
  {
    assert a == (a + b)[..|a|] && c == (c + d)[..|c|];
    assert b == (a + b)[|a|..] && d == (c + d)[|c|..];
  }

  lemma SameAddress(a: Address, b: Address)
    requires Zeros(12) + ToBytes(a, 20) == Zeros(12) + ToBytes(b, 20)
    ensures a == b
  {
    Widths();
    SameHalves(Zeros(12), ToBytes(a, 20), Zeros(12), ToBytes(b, 20));
    EncodeInjective(a, b, 20);
  }

  lemma SlotInputInjective(a: Address, s: nat, b: Address, t: nat)
    requires s < TWO_32 && t < TWO_32 && SlotInput(a, s) == SlotInput(b, t)
    ensures a == b && s == t
  {
    SameHalves(Zeros(12) + ToBytes(a, 20), Zeros(12) + ToBytes(s, 4) + Zeros(16),
               Zeros(12) + ToBytes(b, 20), Zeros(12) + ToBytes(t, 4) + Zeros(16));
    SameAddress(a, b);
    SlotWord(s);
    SlotWord(t);
  }

  lemma OuterInputInjective(a: Address, h: Bytes32, b: Address, g: Bytes32)
    requires OuterInput(a, h) == OuterInput(b, g)
    ensures a == b && h == g
  {
    SameHalves(Zeros(12) + ToBytes(a, 20), h, Zeros(12) + ToBytes(b, 20), g);
    SameAddress(a, b);
  }

  lemma ElementInputInjective(base: Slot, i: Word, j: Word)
    requires ElementInput(base, i) == ElementInput(base, j)
    ensures i == j
  {
    Widths();
    SameHalves(Zeros(28) + ToBytes(base, 4), ToBytes(i, 32), Zeros(28) + ToBytes(base, 4), ToBytes(j, 32));
    EncodeInjective(i, j, 32);
  }

  /** A mapping input never equals an outer input whose inner hash is at least 2^160. */
  lemma SlotIsNotOuter(a: Address, slot: nat, b: Address, h: Bytes32)
    requires slot < TWO_32 && TWO_160 <= FromBytes(h)
    ensures SlotInput(a, slot) != OuterInput(b, h)
  {
    SlotWord(slot);
    if SlotInput(a, slot) == OuterInput(b, h) {
      SameHalves(Zeros(12) + ToBytes(a, 20), Zeros(12) + ToBytes(slot, 4) + Zeros(16),
                 Zeros(12) + ToBytes(b, 20), h);
    }
  }

  /** An array input equals an outer input exactly when address and base agree and the index is the inner hash. */
  lemma ElementMeetsOuter(base: Slot, index: Word, b: Address, h: Bytes32)
    ensures ElementInput(base, index) == OuterInput(b, h) <==> b == base && ToBytes(index, 32) == h
  {
    Widths();
    LeadingZeros(28, ToBytes(base, 4));
    LeadingZeros(12, ToBytes(b, 20));
    WordRoundTrip(base, 4);
    WordRoundTrip(b, 20);
    BytesRoundTrip(Zeros(28) + ToBytes(base, 4));
    BytesRoundTrip(Zeros(12) + ToBytes(b, 20));
    if ElementInput(base, index) == OuterInput(b, h) {
      SameHalves(Zeros(28) + ToBytes(base, 4), ToBytes(index, 32), Zeros(12) + ToBytes(b, 20), h);
    }
  }

  /** Why the index bound is needed: allPairs at index H(inner) sits in the cell of getPair(address 3, .). */
  lemma ArrayRunsIntoGetPair(hash: Hash, key2: Address)
    ensures exists index: Word :: Key(hash, Element(3, index)) == Key(hash, KeyedTwice(2, 3, key2))
  {
    Widths();
    var h := hash(InnerInput(2, key2));
    FromBytesBound(h);
    BytesRoundTrip(h);
    var index: Word := FromBytes(h);
    ElementMeetsOuter(3, index, 3, h);
    assert Key(hash, Element(3, index)) == Key(hash, KeyedTwice(2, 3, key2));
  }

  ghost function FinalInput(hash: Hash, e: Entry): seq<Byte>
    requires !e.Scalar?
  {
    match e
    case Keyed(base, key) => SlotInput(key, base)
    case KeyedTwice(base, key1, key2) => OuterInput(key1, hash(InnerInput(base, key2)))
    case Element(base, index) => ElementInput(base, index)
  }

  lemma FinalInputsDiffer(hash: Hash, touched: set<Entry>, e: Entry, f: Entry)
    requires GoodHash(hash, touched) && OneContract(touched) && e in touched && f in touched
    requires !e.Scalar? && !f.Scalar? && FinalInput(hash, e) == FinalInput(hash, f)
    ensures e == f
  {
    match (e, f)
    case (Keyed(b, k), Keyed(c, l)) => SlotInputInjective(k, b, l, c);
    case (KeyedTwice(b, k1, k2), KeyedTwice(c, l1, l2)) =>
      var p, q := InnerInput(b, k2), InnerInput(c, l2);
      OuterInputInjective(k1, hash(p), l1, hash(q));
      assert p in Inputs(hash, e) && q in Inputs(hash, f);
      SlotInputInjective(k2, (b + 1) % TWO_32, l2, (c + 1) % TWO_32);
    case (Element(b, i), Element(c, j)) => ElementInputInjective(b, i, j);
    case (Keyed(b, k), KeyedTwice(c, l1, l2)) => KeyedIsNotTwice(hash, touched, e, f);
    case (KeyedTwice(_, _, _), Keyed(_, _)) => KeyedIsNotTwice(hash, touched, f, e);
    case (Element(_, _), KeyedTwice(_, _, _)) => ElementIsNotTwice(hash, touched, e, f);
    case (KeyedTwice(_, _, _), Element(_, _)) => ElementIsNotTwice(hash, touched, f, e);
    case (_, _) =>
  }

  lemma KeyedIsNotTwice(hash: Hash, touched: set<Entry>, e: Entry, f: Entry)
    requires GoodHash(hash, touched) && f in touched && e.Keyed? && f.KeyedTwice?
    ensures FinalInput(hash, e) != FinalInput(hash, f)
  {
    assert InnerInput(f.base, f.key2) in Inputs(hash, f);
    SlotIsNotOuter(e.key, e.base, f.key1, hash(InnerInput(f.base, f.key2)));
  }

  lemma ElementIsNotTwice(hash: Hash, touched: set<Entry>, e: Entry, f: Entry)
    requires GoodHash(hash, touched) && f in touched && e.Element? && e.index < TWO_160 && f.KeyedTwice?
    ensures FinalInput(hash, e) != FinalInput(hash, f)
  {
    assert InnerInput(f.base, f.key2) in Inputs(hash, f);
    Widths();
    WordRoundTrip(e.index, 32);
    ElementMeetsOuter(e.base, e.index, f.key1, hash(InnerInput(f.base, f.key2)));
  }

  lemma SlotKeyValue(slot: Slot)
    ensures FromBytes(SlotKey(slot)) == slot
  {
    Widths();
    WordRoundTrip(slot, 4);
    LeadingZeros(28, ToBytes(slot, 4));
  }

  /** Different touched entries of one contract live in different cells. */
  lemma KeysDiffer(hash: Hash, touched: set<Entry>, e: Entry, f: Entry)
    requires GoodHash(hash, touched) && OneContract(touched) && e in touched && f in touched
    ensures Key(hash, e) == Key(hash, f) <==> e == f
  {
    if e.Scalar? { SlotKeyValue(e.slot); } else { assert FinalInput(hash, e) in Inputs(hash, e); }
    if f.Scalar? { SlotKeyValue(f.slot); } else { assert FinalInput(hash, f) in Inputs(hash, f); }
    if Key(hash, e) == Key(hash, f) && !e.Scalar? && !f.Scalar? {
      FinalInputsDiffer(hash, touched, e, f);
    }
  }

  // ----- reading and writing cells

  /** `get_storage_or_zero` */
  function ReadCell(cells: Cells, key: Bytes32): Bytes32 {
    if key in cells then cells[key] else Zeros(32)
  }

  /** `set_storage_or_clear` */
  function WriteCell(cells: Cells, key: Bytes32, value: Bytes32): Cells {
    if value == Zeros(32) then cells - {key} else cells[key := value]
  }

  function View(hash: Hash, cells: Cells, e: Entry): Word {
    Widths();
    FromBytesBound(ReadCell(cells, Key(hash, e)));
    FromBytes(ReadCell(cells, Key(hash, e)))
  }

  function Put(hash: Hash, cells: Cells, e: Entry, value: Word): Cells {
    WriteCell(cells, Key(hash, e), ToBytes(value, 32))
  }

  /** Writing one entry changes that entry, to exactly the value written, and no other touched entry. */
  lemma PutView(hash: Hash, touched: set<Entry>, cells: Cells, e: Entry, value: Word, f: Entry)
    requires GoodHash(hash, touched) && OneContract(touched) && e in touched && f in touched
    ensures View(hash, Put(hash, cells, e, value), f) == if f == e then value else View(hash, cells, f)
  {
    KeysDiffer(hash, touched, e, f);
    WordBytes(value);
    hide Key, GoodHash, FromBytes, ToBytes, ReadCell, WriteCell;
    CellWrite(cells, Key(hash, e), ToBytes(value, 32), Key(hash, f));
  }

  lemma WordBytes(value: Word)
    ensures FromBytes(ToBytes(value, 32)) == value
  {
    Widths();
    WordRoundTrip(value, 32);
  }

  /** An all-zero value is not stored, and reads back all the same. */
  lemma CellWrite(cells: Cells, key: Bytes32, value: Bytes32, k: Bytes32)
    ensures ReadCell(WriteCell(cells, key, value), k) == if k == key then value else ReadCell(cells, k)
  {
  }

  datatype Write = Write(entry: Entry, value: Word)

  function PutAll(hash: Hash, cells: Cells, writes: seq<Write>): Cells
    decreases |writes|
  {
    if writes == [] then cells
    else PutAll(hash, Put(hash, cells, writes[0].entry, writes[0].value), writes[1..])
  }

  lemma {:induction false} PutAllConcat(hash: Hash, cells: Cells, first: seq<Write>, rest: seq<Write>)
    ensures PutAll(hash, cells, first + rest) == PutAll(hash, PutAll(hash, cells, first), rest)
    decreases |first|
  {
    hide Put;
    if first == [] {
      assert first + rest == rest;
    } else {
      assert (first + rest)[1..] == first[1..] + rest;
      PutAllConcat(hash, Put(hash, cells, first[0].entry, first[0].value), first[1..], rest);
    }
  }

  /** The value a plain variable would hold after the writes. */
  function LastWrite(writes: seq<Write>, e: Entry, initial: Word): Word
    decreases |writes|
  {
    if writes == [] then initial
    else LastWrite(writes[1..], e, if writes[0].entry == e then writes[0].value else initial)
  }

  /** After any sequence of writes every touched entry reads as its last write. */
  lemma {:induction false} ReadsLastWrite(hash: Hash, touched: set<Entry>, cells: Cells, writes: seq<Write>, e: Entry)
    requires GoodHash(hash, touched) && OneContract(touched) && e in touched
    requires forall w <- writes :: w.entry in touched
    ensures View(hash, PutAll(hash, cells, writes), e) == LastWrite(writes, e, View(hash, cells, e))
    decreases |writes|
  {
    if writes != [] {
      PutView(hash, touched, cells, writes[0].entry, writes[0].value, e);
      hide View, Put, GoodHash;
      ReadsLastWrite(hash, touched, Put(hash, cells, writes[0].entry, writes[0].value), writes[1..], e);
    }
  }
}
