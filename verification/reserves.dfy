/** The packed reserves slot: uint112 reserve0 | uint112 reserve1 | uint32 timestamp. */
module PackedReserves {
  import opened Words
  import opened Bits

  datatype Reserves = Reserves(r0: Word, r1: Word, ts: Word)

  /** `set_reserves`: the arguments are u128, so a field may be wider than its 112 bits. */
  function Pack(r0: nat, r1: nat, ts: nat): Word
    requires r0 < TWO_128 && r1 < TWO_128 && ts < TWO_32
  {
    PowerWidths();
    OrWidth((r0 * TWO_144) % TWO_256, r1 * TWO_32, 256);
    OrWidth(BitOr((r0 * TWO_144) % TWO_256, r1 * TWO_32), ts, 256);
    BitOr(BitOr((r0 * TWO_144) % TWO_256, r1 * TWO_32), ts)
  }

  /** `get_reserves`: `narrow` selects a 112-bit mask for reserve1 instead of the 128-bit one in the code. */
  function GetReserves(narrow: bool, packed: Word): (r: Reserves)
    ensures r.r0 == packed / TWO_144 % TWO_128
    ensures r.r1 == packed / TWO_32 % (if narrow then TWO_112 else TWO_128)
    ensures r.ts == packed % TWO_32
  {
    MaskValue(packed / TWO_144, 128);
    MaskValue(packed / TWO_32, 128);
    MaskValue(packed / TWO_32, 112);
    MaskValue(packed, 32);
    Reserves(
      BitAnd(packed / TWO_144, TWO_128 - 1),
      BitAnd(packed / TWO_32, (if narrow then TWO_112 else TWO_128) - 1),
      BitAnd(packed, TWO_32 - 1))
  }

  /** The three fields the layout declares, by plain arithmetic. */
  function Fields(packed: Word): Reserves {
    Reserves(packed / TWO_144, packed / TWO_32 % TWO_112, packed % TWO_32)
  }

  lemma MaskValue(a: nat, k: nat)
    requires k in {32, 112, 128}
    ensures k == 32 ==> BitAnd(a, TWO_32 - 1) == a % TWO_32
    ensures k == 112 ==> BitAnd(a, TWO_112 - 1) == a % TWO_112
    ensures k == 128 ==> BitAnd(a, TWO_128 - 1) == a % TWO_128
  {
    PowerWidths();
    AndMask(a, k);
  }

  lemma GetReservesValue(narrow: bool, packed: Word)
    ensures var r := GetReserves(narrow, packed); var f := Fields(packed);
      && r.r0 == f.r0 && r.ts == f.ts
      && r.r1 == f.r1 + (if narrow then 0 else TWO_112 * (f.r0 % TWO_16))
  {
    hide GetReserves;
    WideRemainder(packed);
    TopField(packed);
  }

  lemma TopField(p: Word)
    ensures p / TWO_144 % TWO_128 == p / TWO_144
  {
  }

  lemma WideRemainder(p: nat)
    ensures p / TWO_32 % TWO_128 == p / TWO_32 % TWO_112 + TWO_112 * (p / TWO_144 % TWO_16)
  {
    var q := p / TWO_32;
    assert q / TWO_112 == p / TWO_144;
    assert q == q / TWO_112 * TWO_112 + q % TWO_112;
  }

  /** The decode reads the declared fields exactly when the mask is 112 bits wide or reserve0 ends in 16 zero bits. */
  lemma DecodeIsExact(narrow: bool, packed: Word)
    ensures GetReserves(narrow, packed) == Fields(packed) <==> narrow || Fields(packed).r0 % TWO_16 == 0
  {
    GetReservesValue(narrow, packed);
  }

  lemma PackValue(r0: nat, r1: nat, ts: nat)
    requires r0 < TWO_112 && r1 < TWO_112 && ts < TWO_32
    ensures Pack(r0, r1, ts) == r0 * TWO_144 + r1 * TWO_32 + ts
    ensures Fields(Pack(r0, r1, ts)) == Reserves(r0, r1, ts)
  {
    PackIsSum(r0, r1, ts);
    var p := Pack(r0, r1, ts);
    assert p / TWO_32 == r0 * TWO_112 + r1;
    assert p / TWO_144 == r0;
  }

  /** `set_reserves` takes 128-bit numbers and checks nothing: what it stores is what it was given
      exactly when both reserves fit the 112 bits of their fields. */
  lemma StoredExactlyIff(r0: nat, r1: nat, ts: nat)
    requires r0 < TWO_128 && r1 < TWO_128 && ts < TWO_32
    ensures Fields(Pack(r0, r1, ts)) == Reserves(r0, r1, ts) <==> r0 < TWO_112 && r1 < TWO_112
  {
    if r0 < TWO_112 && r1 < TWO_112 { PackValue(r0, r1, ts); }
    FieldsBounds(Pack(r0, r1, ts));
    hide Pack, Fields;
  }

  lemma FieldsBounds(p: Word)
    ensures var f := Fields(p); f.r0 < TWO_112 && f.r1 < TWO_112 && f.ts < TWO_32
  {
  }

  lemma PackIsSum(r0: nat, r1: nat, ts: nat)
    requires r0 < TWO_112 && r1 < TWO_112 && ts < TWO_32
    ensures Pack(r0, r1, ts) == r0 * TWO_144 + r1 * TWO_32 + ts
  {
    var high := r0 * TWO_112 + r1;
    HighField(r0, r1);
    LowField(high, ts);
    assert (r0 * TWO_144) % TWO_256 == r0 * TWO_144;
    hide BitOr;
  }

  lemma HighField(r0: nat, r1: nat)
    requires r1 < TWO_112
    ensures BitOr(r0 * TWO_144, r1 * TWO_32) == (r0 * TWO_112 + r1) * TWO_32
  {
    hide Pow2, BitOr;
    PowerWidths();
    OrOfDisjoint(r0, r1 * TWO_32, 144);
  }

  lemma LowField(high: nat, ts: nat)
    requires ts < TWO_32
    ensures BitOr(high * TWO_32, ts) == high * TWO_32 + ts
  {
    hide Pow2, BitOr;
    PowerWidths();
    OrOfDisjoint(high, ts, 32);
  }

  /** What `get_reserves` returns after `set_reserves`: 16 bits of reserve0 leak into reserve1 under the wide mask. */
  lemma RoundTrip(narrow: bool, r0: nat, r1: nat, ts: nat)
    requires r0 < TWO_112 && r1 < TWO_112 && ts < TWO_32
    ensures GetReserves(narrow, Pack(r0, r1, ts))
         == Reserves(r0, r1 + (if narrow then 0 else TWO_112 * (r0 % TWO_16)), ts)
    ensures GetReserves(narrow, Pack(r0, r1, ts)) == Reserves(r0, r1, ts) <==> narrow || r0 % TWO_16 == 0
  {
    PackValue(r0, r1, ts);
    GetReservesValue(narrow, Pack(r0, r1, ts));
  }
}
