/**
 Request ids: two bytes of member id, five of start time in milliseconds, one of counter.
 */
module IdGen {
  import opened Prelude
  import opened Bits

  const TsLen: nat := 40
  const CntLen: nat := 8
  const SuffixLen: nat := 48
  const Span: nat := 0x1_0000_0000_0000

  function Lowbit(x: Word, n: nat): nat
    requires n <= 64
  {
    And(x, Shr(U64 - 1, 64 - n))
  }

  /** lowbit keeps the n low bits. */
  lemma LowbitIsMod(x: Word, n: nat)
    requires n <= 64
    ensures Lowbit(x, n) == x % Pow2(n)
  {
    hide And, Shr, Pow2;
    Powers();
    AndMask(x, n);
    ShrMask(n, 64 - n);
  }

  class Generator {
    const prefix: Word
    var suffix: Word

    /** NewGenerator; nanos is now.UnixNano(). */
    constructor (memberID: nat, nanos: int)
      requires memberID < 0x1_0000
      ensures prefix == memberID * Span && suffix == Start(Wrap(nanos) / 1_000_000)
    {
      LowbitIsMod(Wrap(nanos) / 1_000_000, TsLen);
      Powers();
      prefix := Shl(memberID, SuffixLen);
      suffix := Shl(Lowbit(Wrap(nanos) / 1_000_000, TsLen), CntLen);
    }

    method Next() returns (id: nat)
      requires prefix % Span == 0
      modifies `suffix
      ensures suffix == Wrap(old(suffix) + 1) && id == IdOf(prefix / Span, old(suffix), 1)
    {
      suffix := Wrap(suffix + 1);
      LowbitIsMod(suffix, SuffixLen);
      Powers();
      OrDisjoint(prefix / Span, Lowbit(suffix, SuffixLen), SuffixLen);
      WrapThenMod(old(suffix) + 1);
      id := Or(prefix, Lowbit(suffix, SuffixLen));
    }
  }

  /** The suffix a generator started at a given millisecond begins with. */
  function Start(millis: nat): (s: Word) {
    millis % 0x100_0000_0000 * 256
  }

  /** The i-th id after the suffix was s. */
  function IdOf(member: nat, s: nat, i: nat): nat {
    member * Span + (s + i) % Span
  }

  lemma WrapThenMod(x: nat)
    ensures Wrap(x) % Span == x % Span
  {
    assert x == U64 * (x / U64) + Wrap(x);
    assert U64 == 0x1_0000 * Span;
    ModAdd(Span, 0x1_0000 * (x / U64), Wrap(x));
  }

  lemma NextIterates(member: nat, s: Word, i: nat)
    ensures IdOf(member, Wrap(s + 1), i) == IdOf(member, s, i + 1)
  {
    var q: nat, w: nat := (s + 1) / U64, Wrap(s + 1);
    assert s + 1 + i == U64 * q + (w + i);
    ModAdd(Span, 0x1_0000 * q, w + i);
  }

  /** What n calls of Next in a row return, from suffix s on. */
  function Drawn(member: nat, s: Word, n: nat): (ids: seq<nat>)
    ensures |ids| == n
    decreases n
  {
    if n == 0 then [] else [IdOf(member, s, 1)] + Drawn(member, Wrap(s + 1), n - 1)
  }

  /** The i-th of them in closed form, although the suffix wraps around at 64 bits and the id at 48. */
  lemma {:induction false} DrawnAt(member: nat, s: Word, n: nat, i: nat)
    requires i < n
    ensures Drawn(member, s, n)[i] == IdOf(member, s, i + 1)
    decreases n
  {
    if i > 0 {
      DrawnAt(member, Wrap(s + 1), n - 1, i - 1);
      NextIterates(member, s, i);
    }
  }

  /** Two numbers agree modulo m exactly when m divides their distance. */
  lemma SameModulo(m: nat, a: nat, b: nat)
    requires m > 0 && a <= b
    ensures a % m == b % m <==> (b - a) % m == 0
  {
    var d := b - a;
    var x, y := a % m, d % m;
    assert a + d == m * (a / m + d / m) + (x + y);
    ModAdd(m, a / m + d / m, x + y);
    SumModulo(m, x, y);
  }

  lemma SumModulo(m: nat, x: nat, y: nat)
    requires x < m && y < m
    ensures (x + y) % m == x <==> y == 0
  {
    if x + y < m { ModOf(m, 0, x + y); } else { ModOf(m, 1, x + y - m); }
  }

  lemma SameIdExactly(member: nat, s: nat, i: nat, j: nat)
    requires i <= j
    ensures IdOf(member, s, i) == IdOf(member, s, j) <==> (j - i) % Span == 0
  {
    SameModulo(Span, s + i, s + j);
  }

  /** Ids of different members never meet, whenever and however often they are drawn. */
  lemma MembersNeverCollide(a: nat, b: nat, s: nat, t: nat, i: nat, j: nat)
    ensures a != b ==> IdOf(a, s, i) != IdOf(b, t, j)
  {
    if a < b { assert b * Span >= a * Span + Span; } else if b < a { assert a * Span >= b * Span + Span; }
  }

  /** The layout of an id: two bytes of member, five of start time in milliseconds, one of counter. */
  lemma IdLayout(member: nat, millis: nat, i: nat)
    requires i < 256
    ensures var id := IdOf(member, Start(millis), i);
      id / Span == member && id % Span / 256 == millis % 0x100_0000_0000 && id % 256 == i
  {
    var ts := millis % 0x100_0000_0000;
    assert Start(millis) + i == ts * 256 + i < Span;
    ModOf(Span, member, ts * 256 + i);
  }

  predicate NoRepeats(ids: seq<nat>) {
    forall i, j | 0 <= i < j < |ids| :: ids[i] != ids[j]
  }

  /** n calls to Next give distinct ids exactly when n <= 2^48. */
  lemma DistinctExactly(member: nat, s: Word, n: nat)
    ensures NoRepeats(Drawn(member, s, n)) <==> n <= Span
  {
    hide Drawn, IdOf;
    var ids := Drawn(member, s, n);
    if n <= Span {
      forall i, j | 0 <= i < j < n ensures ids[i] != ids[j] {
        DrawnAt(member, s, n, i);
        DrawnAt(member, s, n, j);
        SameIdExactly(member, s, i + 1, j + 1);
      }
    } else {
      DrawnAt(member, s, n, 0);
      DrawnAt(member, s, n, Span);
      SameIdExactly(member, s, 1, Span + 1);
      assert ids[0] == ids[Span];
    }
  }

  predicate Disjoint(a: seq<nat>, b: seq<nat>) {
    forall i, j | 0 <= i < |a| && 0 <= j < |b| :: a[i] != b[j]
  }

  /** How far a restart d milliseconds later moves the suffix, seen through 48 bits. */
  function Shift(d: nat): nat {
    256 * d % Span
  }

  lemma StartMod(millis: nat)
    ensures Start(millis) % Span == 256 * millis % Span
  {
    var w := 0x100_0000_0000;
    var q, r := millis / w, millis % w;
    assert 256 * millis == Span * q + 256 * r;
    ModAdd(Span, q, 256 * r);
  }

  lemma ModCongruent(m: nat, a: nat, b: nat, i: nat)
    requires m > 0 && a % m == b % m
    ensures (a + i) % m == (b + i) % m
  {
    assert a + i == m * (a / m) + (a % m + i);
    assert b + i == m * (b / m) + (b % m + i);
    ModAdd(m, a / m, a % m + i);
    ModAdd(m, b / m, b % m + i);
  }

  /** The ids after a restart are those the old generator would draw Shift(d) calls later. */
  lemma RestartedId(member: nat, millis: nat, d: nat, j: nat)
    ensures IdOf(member, Start(millis + d), j) == IdOf(member, Start(millis), Shift(d) + j)
  {
    StartMod(millis);
    StartMod(millis + d);
    ModCongruent(Span, Start(millis + d), 256 * millis + 256 * d, j);
    ModCongruent(Span, Start(millis), 256 * millis, Shift(d) + j);
    ModCongruent(Span, Shift(d), 256 * d, 256 * millis + j);
  }

  lemma RestartMeetsExactly(member: nat, millis: nat, d: nat, n: nat, m: nat, i: nat, j: nat)
    requires i < n && j < m
    ensures Drawn(member, Start(millis), n)[i] == Drawn(member, Start(millis + d), m)[j] <==>
            (if i <= Shift(d) + j then (Shift(d) + j - i) % Span == 0 else (i - Shift(d) - j) % Span == 0)
  {
    DrawnAt(member, Start(millis), n, i);
    DrawnAt(member, Start(millis + d), m, j);
    RestartedId(member, millis, d, j + 1);
    if i <= Shift(d) + j {
      SameIdExactly(member, Start(millis), i + 1, Shift(d) + j + 1);
    } else {
      SameIdExactly(member, Start(millis), Shift(d) + j + 1, i + 1);
    }
  }

  /**
   A generator of the same member restarted d milliseconds later repeats none of the n ids issued
   before, in its own first m, exactly when the old ids end before the new start and the new ones
   end before the suffix comes round to the old start.
   */
  lemma RestartDisjointExactly(member: nat, millis: nat, d: nat, n: nat, m: nat)
    requires 1 <= n && 1 <= m
    ensures Disjoint(Drawn(member, Start(millis), n), Drawn(member, Start(millis + d), m)) <==>
            n <= Shift(d) && Shift(d) + m <= Span
  {
    hide Drawn;
    var a, b, k := Drawn(member, Start(millis), n), Drawn(member, Start(millis + d), m), Shift(d);
    hide Start, Shift;
    if n > k {
      RestartMeetsExactly(member, millis, d, n, m, k, 0);
      assert a[k] == b[0];
    } else if k + m > Span {
      RestartMeetsExactly(member, millis, d, n, m, 0, Span - k);
      assert a[0] == b[Span - k];
    } else {
      forall i, j | 0 <= i < n && 0 <= j < m ensures a[i] != b[j] {
        RestartMeetsExactly(member, millis, d, n, m, i, j);
      }
    }
  }

  /** The bound in plain milliseconds. */
  lemma RestartDisjoint(member: nat, millis: nat, d: nat, n: nat, m: nat)
    requires n <= 256 * d && 256 * d + m <= Span
    ensures Disjoint(Drawn(member, Start(millis), n), Drawn(member, Start(millis + d), m))
  {
    hide Drawn, Start;
    if n >= 1 && m >= 1 { RestartDisjointExactly(member, millis, d, n, m); }
  }
}
