/** Byte strings as big-endian numbers. */
module Bytes {
  import opened Words

  type Byte = x: nat | x < 256
  type Bytes32 = s: seq<Byte> | |s| == 32 witness seq(32, _ => 0)

  function Zeros(n: nat): seq<Byte> { seq(n, _ => 0) }

  function ToBytes(w: nat, n: nat): (s: seq<Byte>)
    ensures |s| == n
  {
    if n == 0 then [] else ToBytes(w / 256, n - 1) + [w % 256]
  }

  function FromBytes(s: seq<Byte>): nat {
    if s == [] then 0 else FromBytes(s[..|s| - 1]) * 256 + s[|s| - 1]
  }

  function Pow256(n: nat): (p: nat)
    ensures 0 < p
  {
    if n == 0 then 1 else 256 * Pow256(n - 1)
  }

  /** The base-256 digit of w at weight 256^k. */
  function Digit(w: nat, k: nat): Byte {
    if k == 0 then w % 256 else Digit(w / 256, k - 1)
  }

  /** Most significant byte first: place i of an n-byte form holds the digit of weight 256^(n - 1 - i). */
  lemma {:induction false} ToBytesAt(w: nat, n: nat, i: nat)
    requires i < n
    ensures ToBytes(w, n)[i] == Digit(w, n - 1 - i)
  {
    if i < n - 1 { ToBytesAt(w / 256, n - 1, i); }
  }

  lemma {:induction false} FromBytesBound(s: seq<Byte>)
    ensures FromBytes(s) < Pow256(|s|)
  {
    if s != [] { FromBytesBound(s[..|s| - 1]); }
  }

  /** Decoding undoes encoding for every number that fits, and encoding undoes decoding for every string. */
  lemma {:induction false} WordRoundTrip(w: nat, n: nat)
    requires w < Pow256(n)
    ensures FromBytes(ToBytes(w, n)) == w
  {
    if n != 0 {
      WordRoundTrip(w / 256, n - 1);
      assert ToBytes(w, n)[..n - 1] == ToBytes(w / 256, n - 1);
    }
  }

  lemma {:induction false} BytesRoundTrip(s: seq<Byte>)
    ensures ToBytes(FromBytes(s), |s|) == s
  {
    if s != [] {
      var front, last := s[..|s| - 1], s[|s| - 1];
      BytesRoundTrip(front);
      assert FromBytes(s) / 256 == FromBytes(front) && FromBytes(s) % 256 == last;
      assert s == front + [last];
    }
  }

  lemma {:induction false} Pow256Add(a: nat, b: nat)
    ensures Pow256(a + b) == Pow256(a) * Pow256(b)
  {
    if a != 0 {
      Pow256Add(a - 1, b);
      assert Pow256(a + b) == 256 * (Pow256(a - 1) * Pow256(b));
    }
  }

  lemma Widths()
    ensures Pow256(4) == TWO_32 && Pow256(16) == TWO_128 && Pow256(20) == TWO_160 && Pow256(32) == TWO_256
  {
    assert Pow256(2) == TWO_16;
    Pow256Add(2, 2);
    Pow256Add(4, 4);
    Pow256Add(8, 8);
    Pow256Add(16, 4);
    Pow256Add(16, 16);
  }

  lemma EncodeInjective(a: nat, b: nat, n: nat)
    requires a < Pow256(n) && b < Pow256(n) && ToBytes(a, n) == ToBytes(b, n)
    ensures a == b
  {
    WordRoundTrip(a, n);
    WordRoundTrip(b, n);
  }

  lemma {:induction false} LeadingZeros(n: nat, s: seq<Byte>)
    ensures FromBytes(Zeros(n) + s) == FromBytes(s)
    decreases |s|, n
  {
    if s != [] {
      LeadingZeros(n, s[..|s| - 1]);
      assert (Zeros(n) + s)[..n + |s| - 1] == Zeros(n) + s[..|s| - 1];
    } else if n != 0 {
      LeadingZeros(n - 1, []);
      assert (Zeros(n) + s)[..n - 1] == Zeros(n - 1) + [];
    }
  }

  lemma {:induction false} TrailingZeros(s: seq<Byte>, n: nat)
    ensures FromBytes(s + Zeros(n)) == FromBytes(s) * Pow256(n)
  {
    if n == 0 {
      assert s + Zeros(0) == s;
    } else {
      TrailingZeros(s, n - 1);
      assert (s + Zeros(n))[..|s| + n - 1] == s + Zeros(n - 1);
      ShiftOnce(FromBytes(s), Pow256(n - 1), 0);
    }
  }

  lemma {:induction false} LowBytes(high: seq<Byte>, low: seq<Byte>)
    ensures FromBytes(high + low) == FromBytes(high) * Pow256(|low|) + FromBytes(low)
  {
    if low == [] {
      assert high + low == high;
    } else {
      LowBytes(high, low[..|low| - 1]);
      assert (high + low)[..|high| + |low| - 1] == high + low[..|low| - 1];
      ShiftOnce(FromBytes(high), Pow256(|low| - 1), FromBytes(low[..|low| - 1]));
    }
  }

  lemma ShiftOnce(h: nat, p: nat, l: nat)
    ensures (h * p + l) * 256 == h * (256 * p) + l * 256
  {
  }
}
