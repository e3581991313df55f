/** Shared vocabulary: failure types and the machine words of the source. */
module Prelude {

  datatype Option<+T> = None | Some(value: T)

  datatype Result<+T, +E> = Ok(value: T) | Err(error: E)

  /** One past the largest uint64, and one past the largest non-negative int64. */
  const U64: nat := 0x1_0000_0000_0000_0000
  const U63: nat := 0x8000_0000_0000_0000
  const U32: nat := 0x1_0000_0000
  const U31: nat := 0x8000_0000

  type Word = x: int | 0 <= x < 0x1_0000_0000_0000_0000
  type Enum = x: int | -0x8000_0000 <= x < 0x8000_0000

  /** uint64 arithmetic wraps around. */
  function Wrap(x: int): (w: Word) {
    x % U64
  }

  function Min(a: int, b: int): int {
    if a > b then b else a
  }

  function Max(a: int, b: int): int {
    if a > b then a else b
  }

  lemma Assoc<T>(a: seq<T>, b: seq<T>, c: seq<T>)
    ensures (a + b) + c == a + (b + c)
  {
  }

  lemma TakeSplit<T>(s: seq<T>, k: nat, m: nat)
    requires k + m <= |s|
    ensures s[..k + m] == s[..k] + s[k..][..m]
  {
  }

  lemma TakeTake<T>(s: seq<T>, k: nat, n: nat)
    requires k <= n <= |s|
    ensures s[..n] == s[..k] + s[k..n]
  {
  }

  lemma TakeDrop<T>(a: seq<T>, b: seq<T>)
    ensures (a + b)[..|a|] == a && (a + b)[|a|..] == b
  {
  }

  lemma TakeAppend<T>(a: seq<T>, b: seq<T>, n: nat)
    requires n <= |b|
    ensures (a + b)[..|a| + n] == a + b[..n]
  {
  }

  lemma MoveBoundary<T>(s: seq<T>, n: nat, k: nat, rest: seq<T>)
    requires n <= k <= |s|
    ensures s[..k] + rest == s[..n] + (s[n..k] + rest)
  {
    TakeTake(s, n, k);
    Assoc(s[..n], s[n..k], rest);
  }

  lemma DropAppend<T>(a: seq<T>, b: seq<T>, n: nat)
    requires n <= |a|
    ensures (a + b)[n..] == a[n..] + b && (a + b)[..n] == a[..n]
  {
  }

  lemma DropTake<T>(s: seq<T>, n: nat, k: nat)
    requires n <= k <= |s|
    ensures s[..k][n..] == s[n..][..k - n]
  {
  }

  lemma SliceBehind<T>(a: seq<T>, b: seq<T>, lo: nat, hi: nat)
    requires lo <= hi <= |b|
    ensures (a + b)[|a| + lo..|a| + hi] == b[lo..hi]
  {
  }

  lemma SliceBefore<T>(s: seq<T>, n: nat, b: seq<T>, lo: nat, hi: nat)
    requires lo <= hi <= n <= |s|
    ensures (s[..n] + b)[lo..hi] == s[lo..hi]
  {
  }
}
