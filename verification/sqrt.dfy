/** The Babylonian integer square root on 256-bit words. */
module Sqrt {
  import opened Words
  import opened Bits

  ghost predicate IsFloorRoot(y: nat, z: nat) {
    z * z <= y < (z + 1) * (z + 1)
  }

  /** The reference: the greatest z with z * z <= y, found by counting up (`Times` is the product). */
  ghost function FloorSqrt(y: nat): nat {
    if y == 0 then 0
    else
      var r := FloorSqrt(y - 1);
      if Times(r + 1, r + 1) <= y then r + 1 else r
  }

  lemma {:induction false} FloorSqrtIsRoot(y: nat)
    ensures IsFloorRoot(y, FloorSqrt(y))
  {
    if y != 0 {
      FloorSqrtIsRoot(y - 1);
      var r := FloorSqrt(y - 1);
      TimesIsProduct(r + 1, r + 1);
      hide Times;
    }
  }

  lemma RootIsWord(y: Word)
    ensures FloorSqrt(y) < TWO_128
  {
    FloorSqrtIsRoot(y);
    RootIsHalfWidth(y, FloorSqrt(y));
  }

  lemma FloorSqrtUnique(y: nat, z: nat)
    ensures IsFloorRoot(y, z) <==> z == FloorSqrt(y)
  {
    FloorSqrtIsRoot(y);
    var s := FloorSqrt(y);
    if s < z { MulMono(s + 1, s + 1, z, z); }
    if z < s { MulMono(z + 1, z + 1, s, s); }
  }

  function BitLength(n: nat): nat {
    if n == 0 then 0 else 1 + BitLength(n / 2)
  }

  lemma {:induction false} BitLengthMono(a: nat, b: nat)
    requires a <= b
    ensures BitLength(a) <= BitLength(b)
  {
    if a != 0 { BitLengthMono(a / 2, b / 2); }
  }

  lemma {:induction false} BitLengthBound(n: nat, k: nat)
    requires n < Pow2(k)
    ensures BitLength(n) <= k
  {
    if n != 0 { BitLengthBound(n / 2, k - 1); }
  }

  lemma WordBitLength(y: Word)
    ensures BitLength(y) <= 256
  {
    PowerWidths();
    BitLengthBound(y, 256);
  }

  function Newton(y: nat, x: nat): nat
    requires 0 < x
  {
    (Quotient(y, x) + x) / 2
  }

  /** One Newton step from any positive x never falls below the root. */
  lemma StepStaysAbove(y: nat, s: nat, x: nat)
    requires 0 < x && s * s <= y
    ensures s <= Newton(y, x)
  {
    if x < 2 * s {
      var q: nat := 2 * s - x;
      SquareGap(s, x);
      DivAtMost(y, x, q);
    }
  }

  /** s^2 exceeds x (2s - x) by the square of s - x. */
  lemma SquareGap(s: int, x: int)
    ensures (2 * s - x) * x <= s * s
  {
    var d := s - x;
    assert (s + d) * (s - d) == s * s - d * d;
    assert d * d >= 0;
  }

  /** Above the root, one step at least halves the distance to it. */
  lemma StepHalves(y: nat, s: nat, x: nat)
    requires s < x && y < (s + 1) * (s + 1)
    ensures Newton(y, x) - s <= (x - s) / 2
    ensures Quotient(y, x) <= s
  {
    if s < Quotient(y, x) {
      DivAtMost(y, x, s + 1);
      MulMono(s + 1, s + 1, s + 1, x);
    }
  }

  /** The first guess y/2 + 1 lies above the root by less than y/2. */
  lemma FirstGuess(y: nat, s: nat)
    requires 3 < y && s == FloorSqrt(y)
    ensures 2 <= s <= y / 2 + 1 < y
    ensures BitLength(y / 2 + 1 - s) + 1 <= BitLength(y)
  {
    FloorSqrtIsRoot(y);
    if s < 2 { MulMono(s + 1, s + 1, 2, 2); }
    assert s * s <= y;
    assert (s - 2) * s >= 0;
    BitLengthMono(y / 2 + 1 - s, y / 2);
  }

  /** What one pass of the loop does: no overflow, never below the root, distance to it at least halved. */
  lemma LoopPass(y: nat, s: nat, x: nat)
    requires y < TWO_256 && 2 <= s <= x < TWO_256 - TWO_128
    requires s == FloorSqrt(y)
    ensures Quotient(y, x) + x < TWO_256
    ensures s <= Newton(y, x) < TWO_256 - TWO_128
    ensures s < x ==> Newton(y, x) < x && BitLength(Newton(y, x) - s) < BitLength(x - s)
  {
    FloorSqrtIsRoot(y);
    StepStaysAbove(y, s, x);
    RootIsHalfWidth(y, s);
    if s < x {
      StepHalves(y, s, x);
      BitLengthMono(Newton(y, x) - s, (x - s) / 2);
    } else {
      AtRoot(y, s);
    }
  }

  lemma RootIsHalfWidth(y: nat, s: nat)
    requires y < TWO_256 && s * s <= y
    ensures s < TWO_128
  {
    if TWO_128 <= s { MulMono(TWO_128, TWO_128, s, s); }
  }

  /** At the root the quotient is at most two above it. */
  lemma AtRoot(y: nat, s: nat)
    requires 2 <= s && IsFloorRoot(y, s)
    ensures s <= Quotient(y, s) <= s + 2
  {
    DivAtMost(y, s, s);
    assert (s + 3) * s == s * s + 3 * s;
    assert (s + 1) * (s + 1) == s * s + 2 * s + 1;
    DivAtMost(y, s, s + 3);
  }

  /** The loop of `sqrt_u256`, with every word addition written as the wrapping one. */
  method SqrtU256(y: Word) returns (z: Word, ghost iterations: nat)
    ensures z == FloorSqrt(y)
    ensures iterations <= BitLength(y)
  {
    hide FloorSqrt, BitLength, Quotient;
    iterations := 0;
    ghost var s := FloorSqrt(y);
    if y > 3 {
      FirstGuess(y, s);
      z := y;
      var x: Word := WAdd(y / 2, 1);
      while x < z
        invariant s <= x < TWO_256 - TWO_128 && s <= z
        invariant x < z || z == s
        invariant x < z ==> iterations + BitLength(x - s) + 1 <= BitLength(y)
        invariant iterations <= BitLength(y)
        decreases z
      {
        ghost var next := Newton(y, x);
        LoopPass(y, s, x);
        var quotient: Word := Quotient(y, x);
        WAddExact(quotient, x);
        z := x;
        x := WAdd(quotient, x) / 2;
        assert x == next;
        iterations := iterations + 1;
      }
    } else if y != 0 {
      z := 1;
      FloorSqrtUnique(y, 1);
    } else {
      z := 0;
      FloorSqrtUnique(y, 0);
    }
  }
}
