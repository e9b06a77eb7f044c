/** Bitwise `|` and `&` on naturals, defined bit by bit, and when they are plain arithmetic. */
module Bits {
  import opened Words

  function Pow2(k: nat): (p: nat)
    ensures 0 < p
  {
    if k == 0 then 1 else 2 * Pow2(k - 1)
  }

  function BitOr(a: nat, b: nat): nat {
    if a == 0 && b == 0 then 0
    else 2 * BitOr(a / 2, b / 2) + (if a % 2 == 1 || b % 2 == 1 then 1 else 0)
  }

  function BitAnd(a: nat, b: nat): nat {
    if a == 0 && b == 0 then 0
    else 2 * BitAnd(a / 2, b / 2) + (if a % 2 == 1 && b % 2 == 1 then 1 else 0)
  }

  lemma {:induction false} Pow2Add(a: nat, b: nat)
    ensures Pow2(a + b) == Pow2(a) * Pow2(b)
  {
    if a != 0 {
      Pow2Add(a - 1, b);
      assert Pow2(a + b) == 2 * (Pow2(a - 1) * Pow2(b));
    }
  }

  lemma Power16()
    ensures Pow2(16) == TWO_16
  {
    assert Pow2(4) == 16;
    Pow2Add(4, 4);
    Pow2Add(8, 8);
  }

  lemma Power32()
    ensures Pow2(32) == TWO_32
  {
    Power16();
    Pow2Add(16, 16);
    hide Pow2;
  }

  lemma Power128()
    ensures Pow2(128) == TWO_128
  {
    Power32();
    Pow2Add(32, 32);
    Pow2Add(64, 64);
    hide Pow2;
  }

  lemma Power112()
    ensures Pow2(112) == TWO_112
  {
    Power16();
    Power128();
    Pow2Add(112, 16);
    hide Pow2;
  }

  lemma Power144()
    ensures Pow2(144) == TWO_144
  {
    Power16();
    Power128();
    Pow2Add(128, 16);
    hide Pow2;
  }

  lemma Power256()
    ensures Pow2(256) == TWO_256
  {
    Power128();
    Pow2Add(128, 128);
    hide Pow2;
  }

  lemma PowerWidths()
    ensures Pow2(16) == TWO_16 && Pow2(32) == TWO_32 && Pow2(112) == TWO_112
    ensures Pow2(128) == TWO_128 && Pow2(144) == TWO_144 && Pow2(256) == TWO_256
  {
    hide Pow2;
    Power16();
    Power32();
    Power112();
    Power128();
    Power144();
    Power256();
  }

  lemma {:induction false} OrWithZero(a: nat)
    ensures BitOr(a, 0) == a
  {
    if a != 0 { OrWithZero(a / 2); }
  }

  /** Fields that do not overlap are joined by `|` exactly as by `+`. */
  lemma {:induction false} OrOfDisjoint(h: nat, l: nat, k: nat)
    requires l < Pow2(k)
    ensures BitOr(h * Pow2(k), l) == h * Pow2(k) + l
  {
    if k == 0 {
      OrWithZero(h);
    } else {
      var p := Pow2(k - 1);
      assert h * Pow2(k) == 2 * (h * p);
      OrOfDisjoint(h, l / 2, k - 1);
    }
  }

  lemma {:induction false} OrWidth(a: nat, b: nat, k: nat)
    requires a < Pow2(k) && b < Pow2(k)
    ensures BitOr(a, b) < Pow2(k)
  {
    if k != 0 { OrWidth(a / 2, b / 2, k - 1); }
  }

  /** Masking with k one-bits is the remainder modulo 2^k. */
  lemma {:induction false} AndMask(a: nat, k: nat)
    ensures BitAnd(a, Pow2(k) - 1) == a % Pow2(k)
  {
    if k == 0 {
      AndWithZero(a);
    } else {
      var p := Pow2(k - 1);
      AndMask(a / 2, k - 1);
      assert (Pow2(k) - 1) / 2 == p - 1 && (Pow2(k) - 1) % 2 == 1;
      HalveMod(a, p);
    }
  }

  lemma {:induction false} AndWithZero(a: nat)
    ensures BitAnd(a, 0) == 0
  {
    if a != 0 { AndWithZero(a / 2); }
  }

  lemma HalveMod(a: nat, p: nat)
    requires 0 < p
    ensures a % (2 * p) == 2 * ((a / 2) % p) + a % 2
  {
    var q, r := a / 2 / p, a / 2 % p;
    assert a / 2 == q * p + r;
    assert a == q * (2 * p) + (2 * r + a % 2);
    ModUnique(a, 2 * p, q, 2 * r + a % 2);
  }

  lemma ModUnique(a: nat, m: nat, q: nat, r: nat)
    requires r < m && a == q * m + r
    ensures a / m == q && a % m == r
  {
    var q', r' := a / m, a % m;
    assert a == q' * m + r';
    assert (q - q') * m == r' - r;
    if q < q' {
      MultipleAtLeast(q' - q, m);
    } else if q' < q {
      MultipleAtLeast(q - q', m);
    }
  }

  lemma MultipleAtLeast(k: nat, m: nat)
    requires 1 <= k
    ensures m <= k * m
  {
    assert k * m == (k - 1) * m + m;
  }
}
