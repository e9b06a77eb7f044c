/** 256-bit words, 20-byte addresses, and the two ways a contract call can stop early. */
module Words {

  const TWO_16: nat := 0x1_0000
  const TWO_32: nat := 0x1_0000_0000
  const TWO_112: nat := 0x1_0000_0000_0000_0000_0000_0000_0000
  const TWO_128: nat := 0x1_0000_0000_0000_0000_0000_0000_0000_0000
  const TWO_144: nat := 0x1_0000_0000_0000_0000_0000_0000_0000_0000_0000
  const TWO_160: nat := 0x1_0000_0000_0000_0000_0000_0000_0000_0000_0000_0000
  const TWO_256: nat := 0x1_0000_0000_0000_0000_0000_0000_0000_0000_0000_0000_0000_0000_0000_0000_0000_0000

  type Word = x: nat | x < TWO_256
  type Address = x: nat | x < TWO_160

  /** `Reverted` is a REVERT return, `Trapped` a panic; the host rolls storage back on both. */
  datatype Halt = Reverted | Trapped

  datatype Result<+T> = Ok(value: T) | Halted(why: Halt) {
    predicate IsFailure() { Halted? }
    function PropagateFailure<U>(): Result<U>
      requires Halted?
    {
      Halted(why)
    }
    function Extract(): T
      requires Ok?
    {
      value
    }
  }

  // ----- wrapping operators of the 256-bit word type

  function WAdd(a: Word, b: Word): Word { (a + b) % TWO_256 }

  function WSub(a: Word, b: Word): Word { (a - b) % TWO_256 }

  function WMul(a: Word, b: Word): Word { Wrap(Times(a, b)) }

  // Product, remainder and quotient are spelled out by recursion, so that a proof sees of their
  // nonlinear laws only what it asks for; the three lemmas below say they are `*`, `%` and `/`.

  function Times(a: nat, b: nat): nat {
    if a == 0 then 0 else b + Times(a - 1, b)
  }

  /** What is left of a number in 256 bits. */
  function Wrap(n: nat): Word {
    if n < TWO_256 then n else Wrap(n - TWO_256)
  }

  /** Unsigned division; a zero divisor traps, so callers test for it first. */
  function Quotient(n: nat, d: nat): (q: nat)
    requires 0 < d
    ensures q <= n
  {
    if n < d then 0 else 1 + Quotient(n - d, d)
  }

  lemma {:induction false} TimesIsProduct(a: nat, b: nat)
    ensures Times(a, b) == a * b
  {
    if a != 0 { TimesIsProduct(a - 1, b); }
  }

  lemma {:induction false} WrapIsRemainder(n: nat)
    ensures Wrap(n) == n % TWO_256
  {
    if TWO_256 <= n {
      WrapIsRemainder(n - TWO_256);
      ModShift(n - TWO_256, 1);
    }
  }

  lemma QuotientIsDivision(n: nat, d: nat)
    requires 0 < d
    ensures Quotient(n, d) == n / d
  {
    var q, r := n / d, n % d;
    assert n == q * d + r;
    DivAtMost(n, d, q);
    DivAtMost(n, d, q + 1);
    assert (q + 1) * d == q * d + d;
  }

  /** Multiplication of two words is the product modulo 2^256. */
  lemma WMulIsModular(a: Word, b: Word)
    ensures WMul(a, b) == (a * b) % TWO_256
  {
    TimesIsProduct(a, b);
    WrapIsRemainder(a * b);
  }

  lemma WAddExact(a: Word, b: Word)
    requires a + b < TWO_256
    ensures WAdd(a, b) == a + b
  {
  }

  // ----- nonlinear facts, one at a time

  lemma MulMono(a: nat, b: nat, c: nat, d: nat)
    requires a <= c && b <= d
    ensures a * b <= c * d
  {
    assert a * b <= a * d;
    assert a * d <= c * d;
  }

  lemma MulCancel(k: nat, a: nat, b: nat)
    requires 0 < k && k * a <= k * b
    ensures a <= b
  {
    if b < a {
      MulMono(k, b + 1, k, a);
      assert false;
    }
  }

  lemma MulSwap(a: nat, b: nat, c: nat, d: nat)
    ensures (a * b) * (c * d) == (a * c) * (b * d)
  {
    assert (a * b) * (c * d) == a * (b * (c * d));
    assert b * (c * d) == c * (b * d);
    assert a * (c * (b * d)) == (a * c) * (b * d);
  }

  lemma {:induction false} DivFloor(n: nat, d: nat)
    requires 0 < d
    ensures Quotient(n, d) * d <= n < Quotient(n, d) * d + d
  {
    if d <= n {
      DivFloor(n - d, d);
      assert Quotient(n, d) * d == Quotient(n - d, d) * d + d;
    }
  }

  lemma DivAtMost(n: nat, d: nat, q: nat)
    requires 0 < d
    ensures q <= Quotient(n, d) <==> q * d <= n
  {
    DivFloor(n, d);
    var floor := Quotient(n, d);
    hide Quotient;
    if q <= floor {
      MulMono(q, d, floor, d);
    } else {
      MulMono(floor + 1, d, q, d);
      assert (floor + 1) * d == floor * d + d;
    }
  }

  /** The product of two numbers below 2^112, even scaled by a million, fits a word. */
  lemma ProductFits(a: nat, b: nat)
    requires a < TWO_112 && b < TWO_112
    ensures 1000000 * (a * b) < TWO_256
    ensures WMul(a, b) == a * b
  {
    MulMono(a, b, TWO_112, TWO_112);
    assert 1000000 * (TWO_112 * TWO_112) < TWO_256;
    WMulExact(a, b);
  }

  lemma WMulExact(a: Word, b: Word)
    requires a * b < TWO_256
    ensures WMul(a, b) == a * b
  {
    TimesIsProduct(a, b);
    hide Times;
  }

  lemma ModShift(x: int, j: int)
    ensures (x + j * TWO_256) % TWO_256 == x % TWO_256
  {
  }
}
