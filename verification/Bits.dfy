/**
 The bit operations of the source, defined bit by bit on natural numbers, and the arithmetic they
 stand for.
 */
module Bits {
  import opened Prelude

  function Pow2(n: nat): (p: nat)
    ensures p >= 1
  {
    if n == 0 then 1 else 2 * Pow2(n - 1)
  }

  /** The operators & and | of the source. */
  function And(x: nat, y: nat): nat {
    if x == 0 || y == 0 then 0
    else 2 * And(x / 2, y / 2) + if x % 2 == 1 && y % 2 == 1 then 1 else 0
  }

  function Or(x: nat, y: nat): nat
    decreases x + y
  {
    if x == 0 then y else if y == 0 then x
    else 2 * Or(x / 2, y / 2) + if x % 2 == 1 || y % 2 == 1 then 1 else 0
  }

  /** x << n and x >> n on uint64. */
  function Shl(x: Word, n: nat): Word {
    Wrap(x * Pow2(n))
  }

  function Shr(x: nat, n: nat): nat {
    if n == 0 then x else Shr(x / 2, n - 1)
  }

  lemma {:induction false} AndMask(x: nat, n: nat)
    ensures And(x, Pow2(n) - 1) == x % Pow2(n)
  {
    if n > 0 && x > 0 {
      AndMask(x / 2, n - 1);
      hide And;
      MaskStep(x, Pow2(n - 1));
    } else if x == 0 {
      ModOf(Pow2(n), 0, 0);
    }
  }

  lemma MaskStep(x: nat, h: nat)
    requires h >= 1 && And(x / 2, h - 1) == x / 2 % h
    ensures And(x, 2 * h - 1) == x % (2 * h)
  {
    hide And;
    AndOdd(x, h);
    HalfMod(x, h);
  }

  lemma AndOdd(x: nat, h: nat)
    requires h >= 1
    ensures And(x, 2 * h - 1) == 2 * And(x / 2, h - 1) + x % 2
  {
    assert (2 * h - 1) / 2 == h - 1 && (2 * h - 1) % 2 == 1;
  }

  lemma HalfMod(x: nat, p: nat)
    requires p >= 1
    ensures x % (2 * p) == 2 * (x / 2 % p) + x % 2
  {
    var q, r := x / 2 / p, x / 2 % p;
    assert x == (2 * p) * q + (2 * r + x % 2);
    ModOf(2 * p, q, 2 * r + x % 2);
  }

  lemma Grows(m: nat, k: int)
    ensures (k >= 1 ==> m * k >= m) && (k <= -1 ==> m * k + m <= 0)
  {
  }

  lemma ModOf(m: nat, q: nat, r: nat)
    requires r < m
    ensures (m * q + r) % m == r && (m * q + r) / m == q
  {
    var d, e := (m * q + r) / m, (m * q + r) % m;
    var k := d - q;
    assert m * k + e == r by { assert m * d + e == m * q + r; }
    Grows(m, k);
  }

  lemma {:induction false} OrDisjoint(p: nat, low: nat, n: nat)
    requires low < Pow2(n)
    ensures Or(p * Pow2(n), low) == p * Pow2(n) + low
  {
    if n > 0 && p > 0 && low > 0 {
      var h := Pow2(n - 1);
      assert p * Pow2(n) == 2 * (p * h);
      OrDisjoint(p, low / 2, n - 1);
    }
  }

  lemma Powers()
    ensures Pow2(8) == 256 && Pow2(40) == 0x100_0000_0000 && Pow2(48) == 0x1_0000_0000_0000 && Pow2(64) == U64
  {
    assert Pow2(8) == 256;
    assert Pow2(16) == 0x1_0000;
    assert Pow2(24) == 0x100_0000;
    assert Pow2(32) == U32;
    assert Pow2(40) == 0x100_0000_0000;
    assert Pow2(48) == 0x1_0000_0000_0000;
    assert Pow2(56) == 0x100_0000_0000_0000;
  }

  lemma {:induction false} ShrMask(n: nat, k: nat)
    ensures Shr(Pow2(n + k) - 1, k) == Pow2(n) - 1
  {
    if k > 0 { ShrMask(n, k - 1); }
  }

  lemma ModAdd(m: nat, q: nat, r: nat)
    requires m > 0
    ensures (m * q + r) % m == r % m
  {
    ModOf(m, q + r / m, r % m);
    assert m * (q + r / m) + r % m == m * q + r;
  }

  lemma {:induction false} OrSymmetric(x: nat, y: nat)
    ensures Or(x, y) == Or(y, x)
    decreases x + y
  {
    if x != 0 && y != 0 { OrSymmetric(x / 2, y / 2); }
  }

  lemma {:induction false} Pow2Grows(m: nat, n: nat)
    requires m <= n
    ensures Pow2(m) <= Pow2(n)
    decreases n
  {
    if m < n { Pow2Grows(m, n - 1); }
  }

  lemma Pow2By7(n: nat)
    ensures Pow2(n + 7) == 128 * Pow2(n)
  {
    assert Pow2(n + 7) == 2 * Pow2(n + 6);
    assert Pow2(n + 5) == 2 * Pow2(n + 4);
    assert Pow2(n + 3) == 2 * Pow2(n + 2);
    assert Pow2(n + 1) == 2 * Pow2(n);
  }

  /** One more group of seven bits, shifted by fewer than 57. */
  lemma LowGroup(acc: nat, c: nat, u: nat)
    requires acc < u && c < 128 && 128 * u <= U63
    ensures Wrap(c * u) == c * u && (acc + u * c) % U64 == c * u + acc < 128 * u
  {
    Bounded(c, 128, u);
    var x := c * u;
    assert u * c == x && x + u <= U63;
    Small(x);
    Small(acc + x);
  }

  /** The tenth group is shifted by 63: one bit of it has room. */
  lemma TopGroup(acc: nat, c: nat)
    requires acc < U63 && c < 128
    ensures Wrap(c * U63) == (c % 2) * U63 && (acc + U63 * c) % U64 == (c % 2) * U63 + acc < U64
  {
    var q, p := c / 2, c % 2;
    assert c == 2 * q + p;
    ModOf(U64, q, p * U63);
    ModOf(U64, q, p * U63 + acc);
  }

  lemma Small(x: nat)
    requires x < U64
    ensures x % U64 == x
  {
  }

  lemma Bounded(c: nat, m: nat, u: nat)
    requires c < m
    ensures c * u + u <= m * u && u * c == c * u
  {
    assert (c + 1) * u == c * u + u;
  }

  lemma Pow2Half()
    ensures Pow2(63) == U63
  {
    Powers();
    assert Pow2(64) == 2 * Pow2(63);
  }

  lemma ShiftIn(acc: nat, k: nat, c: nat, p: nat)
    requires acc < Pow2(7 * k) && c < U64 && Shl(c, 7 * k) == p * Pow2(7 * k)
    ensures Or(acc, Shl(c, 7 * k)) == p * Pow2(7 * k) + acc
  {
    hide Or, Shl;
    OrSymmetric(acc, p * Pow2(7 * k));
    OrDisjoint(p, acc, 7 * k);
  }

  lemma LowBits(b: nat)
    ensures And(b, 127) == b % 128
  {
    assert Pow2(7) == 128;
    AndMask(b, 7);
  }

  /** A right shift is a division. */
  lemma {:induction false} ShrIsDiv(x: nat, n: nat)
    ensures Shr(x, n) == x / Pow2(n)
  {
    if n > 0 {
      ShrIsDiv(x / 2, n - 1);
      HalfDiv(x, Pow2(n - 1));
    }
  }

  lemma HalfDiv(x: nat, p: nat)
    requires p >= 1
    ensures x / 2 / p == x / (2 * p)
  {
    var q, r := x / 2 / p, x / 2 % p;
    assert x == (2 * p) * q + (2 * r + x % 2);
    ModOf(2 * p, q, 2 * r + x % 2);
  }

  /** v & 0x7F | 0x80 and v >> 7. */
  lemma MoreFollows(v: nat)
    ensures Or(And(v, 127), 128) == v % 128 + 128 && Shr(v, 7) == v / 128
  {
    assert Pow2(7) == 128;
    hide And, Or, Shr, Pow2;
    LowBits(v);
    OrDisjoint(1, v % 128, 7);
    OrSymmetric(v % 128, 128);
    ShrIsDiv(v, 7);
  }

  /** acc | (b & 0x7F) << 7k on a uint64 adds the group, modulo 2^64. */
  lemma GroupIsAdded(acc: nat, k: nat, b: nat)
    requires k <= 9 && acc < Pow2(7 * k) && b < 256
    ensures And(b, 127) < 128
    ensures Or(acc, Shl(And(b, 127), 7 * k)) == (acc + Pow2(7 * k) * (b % 128)) % U64 < Pow2(7 * k + 7)
  {
    hide And, Or, Pow2, Wrap;
    var c, u := b % 128, Pow2(7 * k);
    LowBits(b);
    Pow2By7(7 * k);
    Pow2Half();
    if k == 9 {
      TopGroup(acc, c);
      ShiftIn(acc, k, c, c % 2);
    } else {
      Pow2Grows(7 * k + 7, 63);
      LowGroup(acc, c, u);
      ShiftIn(acc, k, c, c);
    }
  }
}
