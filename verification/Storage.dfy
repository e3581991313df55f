/**
 MemoryStorage: the persisted tail of the raft log behind a dummy entry, and the size limit on
 ranges of entries. The first half specifies every operation on plain sequences; the class keeps
 the entries in a growable array, as Go slices do, and also accounts for every slice handed out.
 */
module Storage {
  import opened Prelude
  import opened RaftPb
  import Wire

  datatype StorageError = Compacted | Unavailable | SnapOutOfDate

  predicate Contiguous(es: seq<Entry>, first: nat) {
    forall i :: 0 <= i < |es| ==> es[i].index == first + i
  }

  /** Entry 0 is a dummy that carries the index and term the log starts after. */
  predicate ValidEnts(ents: seq<Entry>) {
    |ents| >= 1 && Contiguous(ents, ents[0].index)
  }

  function LastIndex(ents: seq<Entry>): int
    requires ents != []
  {
    ents[0].index + |ents| - 1
  }

  function Dummy(index: Word, term: Word): Entry {
    NoEntry.(index := index, term := term)
  }

  // -------------------------------------------------------------- limitSize

  function TotalSize(es: seq<Entry>): nat {
    if es == [] then 0 else TotalSize(es[..|es| - 1]) + EntrySize(es[|es| - 1])
  }

  /** The loop of limitSize, with the first k entries, of the given size, already accepted. */
  function LimitFrom(es: seq<Entry>, maxSize: nat, k: nat, size: nat): (n: nat)
    requires k <= |es|
    ensures k <= n <= |es|
    decreases |es| - k
  {
    if k == |es| || size + EntrySize(es[k]) > maxSize then k
    else LimitFrom(es, maxSize, k + 1, size + EntrySize(es[k]))
  }

  function LimitSize(es: seq<Entry>, maxSize: nat): (r: seq<Entry>)
    ensures r <= es && (es != [] ==> r != [])
  {
    if es == [] then [] else es[..LimitFrom(es, maxSize, 1, EntrySize(es[0]))]
  }

  /** n is how many entries fit: at least one, and no more than the size limit allows. */
  ghost predicate IsLimit(es: seq<Entry>, maxSize: nat, n: nat) {
    && n <= |es| && (es != [] ==> n >= 1)
    && (n > 1 ==> TotalSize(es[..n]) <= maxSize)
    && (n < |es| ==> n >= 1 && TotalSize(es[..n + 1]) > maxSize)
  }

  lemma TotalSizeStep(es: seq<Entry>, n: nat)
    requires n < |es|
    ensures TotalSize(es[..n + 1]) == TotalSize(es[..n]) + EntrySize(es[n])
  {
    assert es[..n + 1][..n] == es[..n];
  }

  lemma {:induction false} TotalSizeMonotone(es: seq<Entry>, m: nat, n: nat)
    requires m <= n <= |es|
    ensures TotalSize(es[..m]) <= TotalSize(es[..n])
  {
    if m < n {
      TotalSizeMonotone(es, m, n - 1);
      TotalSizeStep(es, n - 1);
    }
  }

  lemma {:induction false} LimitFromIsLimit(es: seq<Entry>, maxSize: nat, k: nat)
    requires 1 <= k <= |es| && (k > 1 ==> TotalSize(es[..k]) <= maxSize)
    ensures IsLimit(es, maxSize, LimitFrom(es, maxSize, k, TotalSize(es[..k])))
    decreases |es| - k
  {
    if k < |es| {
      TotalSizeStep(es, k);
      if TotalSize(es[..k]) + EntrySize(es[k]) <= maxSize { LimitFromIsLimit(es, maxSize, k + 1); }
    }
  }

  lemma LimitUnique(es: seq<Entry>, maxSize: nat, m: nat, n: nat)
    requires IsLimit(es, maxSize, m) && IsLimit(es, maxSize, n)
    ensures m == n
  {
    if m < n { TotalSizeMonotone(es, m + 1, n); }
    if n < m { TotalSizeMonotone(es, n + 1, m); }
  }

  /** limitSize returns exactly the longest non-empty prefix within the limit. */
  lemma LimitSizeExact(es: seq<Entry>, maxSize: nat, r: seq<Entry>)
    ensures r == LimitSize(es, maxSize) <==> r <= es && IsLimit(es, maxSize, |r|)
  {
    if es != [] {
      assert es[..1] == [es[0]] && es[..1][..0] == [];
      assert TotalSize(es[..1]) == EntrySize(es[0]);
      LimitFromIsLimit(es, maxSize, 1);
      if r <= es && IsLimit(es, maxSize, |r|) { LimitUnique(es, maxSize, |r|, |LimitSize(es, maxSize)|); }
    }
  }

  /** A limit that already cuts a prefix short cuts the longer sequence at the same place. */
  lemma LimitOfPrefix(a: seq<Entry>, b: seq<Entry>, maxSize: nat)
    requires |LimitSize(a, maxSize)| < |a|
    ensures LimitSize(a + b, maxSize) == LimitSize(a, maxSize)
  {
    var r := LimitSize(a, maxSize);
    LimitSizeExact(a, maxSize, r);
    assert (a + b)[..|r|] == a[..|r|] && (a + b)[..|r| + 1] == a[..|r| + 1];
    LimitSizeExact(a + b, maxSize, r);
  }

  method LimitSizeLoop(ents: seq<Entry>, maxSize: nat) returns (r: seq<Entry>)
    ensures r == LimitSize(ents, maxSize)
  {
    if |ents| == 0 { return ents; }
    var size := EntrySize(ents[0]);
    var limit := 1;
    while limit < |ents|
      invariant 1 <= limit <= |ents| && 0 <= size
      invariant LimitFrom(ents, maxSize, limit, size) == LimitFrom(ents, maxSize, 1, EntrySize(ents[0]))
    {
      size := size + EntrySize(ents[limit]);
      if size > maxSize { break; }
      limit := limit + 1;
    }
    return ents[..limit];
  }

  // ------------------------------------------------------- storage operations

  /**
   What Term answers without a panic: int(i - offset) is negative from 2^63 on, and then neither
   the check for the end of the log nor the slice that holds it works.
   */
  predicate Askable(ents: seq<Entry>, i: nat)
    requires ents != []
  {
    i <= LastIndex(ents) || i - ents[0].index < U63
  }

  function StTerm(ents: seq<Entry>, i: nat): Result<Word, StorageError>
    requires ValidEnts(ents) && Askable(ents, i)
  {
    var offset := ents[0].index;
    if i < offset then Err(Compacted)
    else if i - offset >= |ents| then Err(Unavailable)
    else Ok(ents[i - offset].term)
  }

  /** What Entries answers without a panic, with ErrCompacted or ErrUnavailable if not with entries. */
  predicate Readable(ents: seq<Entry>, lo: nat, hi: nat)
    requires ents != []
  {
    lo <= ents[0].index || (hi <= LastIndex(ents) + 1 && (lo <= hi || |ents| == 1))
  }

  function StEntries(ents: seq<Entry>, lo: nat, hi: nat, maxSize: nat): Result<seq<Entry>, StorageError>
    requires ValidEnts(ents) && Readable(ents, lo, hi)
  {
    var offset := ents[0].index;
    if lo <= offset then Err(Compacted)
    else if |ents| == 1 then Err(Unavailable)
    else Ok(LimitSize(ents[lo - offset..hi - offset], maxSize))
  }

  /** A batch joins the log without a gap. */
  predicate Appendable(ents: seq<Entry>, batch: seq<Entry>) {
    ValidEnts(ents) && (batch != [] ==> Contiguous(batch, batch[0].index) && batch[0].index <= LastIndex(ents) + 1)
  }

  /** What is left of a batch once the entries that are already compacted are dropped. */
  function Uncompacted(ents: seq<Entry>, batch: seq<Entry>): (b: seq<Entry>)
    requires Appendable(ents, batch)
    ensures b != [] ==> Contiguous(b, b[0].index) && ents[0].index < b[0].index <= LastIndex(ents) + 1
  {
    var first := ents[0].index + 1;
    if batch == [] || batch[0].index + |batch| - 1 < first then []
    else if first > batch[0].index then batch[first - batch[0].index..]
    else batch
  }

  function StAppend(ents: seq<Entry>, batch: seq<Entry>): (r: seq<Entry>)
    requires Appendable(ents, batch)
    ensures ValidEnts(r) && r[0] == ents[0]
  {
    var b := Uncompacted(ents, batch);
    if b == [] then ents else ents[..b[0].index - ents[0].index] + b
  }

  function StCompact(ents: seq<Entry>, i: nat): (r: Result<seq<Entry>, StorageError>)
    requires ValidEnts(ents) && i <= LastIndex(ents)
    ensures r.Ok? ==> ValidEnts(r.value) && LastIndex(r.value) == LastIndex(ents)
  {
    var offset := ents[0].index;
    if i <= offset then Err(Compacted)
    else
      var k := i - offset;
      Ok([Dummy(ents[k].index, ents[k].term)] + ents[k + 1..])
  }

  function StCreateSnapshot(
    ents: seq<Entry>, snap: Snapshot, i: Word, cs: Option<ConfState>, data: Option<seq<Wire.Byte>>)
    : (r: Result<Snapshot, StorageError>)
    requires ValidEnts(ents) && (i <= snap.metadata.index || ents[0].index <= i <= LastIndex(ents))
    ensures r.Ok? ==> ents[0].index <= i <= LastIndex(ents)
    ensures r.Ok? ==> r.value.metadata.index == i && Ok(r.value.metadata.term) == StTerm(ents, i)
  {
    if i <= snap.metadata.index then Err(SnapOutOfDate)
    else
      var term := ents[i - ents[0].index].term;
      var md := snap.metadata.(index := i, term := term);
      var md' := if cs.Some? then md.(confState := cs.value) else md;
      Ok(snap.(metadata := md', data := data))
  }

  function StApplySnapshot(ents: seq<Entry>, snap: Snapshot, s: Snapshot): (r: Result<seq<Entry>, StorageError>)
    ensures r.Ok? ==> ValidEnts(r.value)
  {
    if snap.metadata.index >= s.metadata.index then Err(SnapOutOfDate)
    else Ok([Dummy(s.metadata.index, s.metadata.term)])
  }

  /** Two storages give the same answers about everything above index i, for every size limit. */
  ghost predicate SameAnswersAbove(a: seq<Entry>, b: seq<Entry>, i: nat)
    requires ValidEnts(a) && ValidEnts(b)
  {
    && LastIndex(a) == LastIndex(b)
    && (forall j | j >= i && Askable(a, j) :: Askable(b, j) && StTerm(a, j) == StTerm(b, j))
    && (forall lo, hi, maxSize: nat | i < lo < hi <= LastIndex(a) + 1 ::
          StEntries(a, lo, hi, maxSize) == StEntries(b, lo, hi, maxSize))
  }

  /** b is what compacting a at i leaves. */
  ghost predicate TailAt(a: seq<Entry>, b: seq<Entry>, i: nat) {
    && ValidEnts(a) && ValidEnts(b) && a[0].index <= i == b[0].index && i <= LastIndex(a)
    && b[0].term == a[i - a[0].index].term && b[1..] == a[i - a[0].index + 1..]
  }

  lemma SameTailSameRange(a: seq<Entry>, b: seq<Entry>, i: nat, lo: nat, hi: nat)
    requires TailAt(a, b, i) && i < lo < hi <= LastIndex(a) + 1
    ensures |b| == |a| - (i - a[0].index) && a[lo - a[0].index..hi - a[0].index] == b[lo - i..hi - i]
  {
    var k := i - a[0].index;
    assert |b[1..]| == |a[k + 1..]|;
    forall j | lo - i <= j < hi - i ensures b[j] == a[k + j] {
      assert b[j] == b[1..][j - 1];
    }
  }

  lemma SameTailSameTerm(a: seq<Entry>, b: seq<Entry>, i: nat, j: nat)
    requires TailAt(a, b, i) && j >= i && Askable(a, j)
    ensures Askable(b, j) && StTerm(a, j) == StTerm(b, j)
  {
    var k := i - a[0].index;
    assert |b[1..]| == |a[k + 1..]|;
    if i < j < i + |b| { assert b[j - i] == b[1..][j - i - 1]; }
  }

  lemma SameTailSameAnswers(a: seq<Entry>, b: seq<Entry>, i: nat)
    requires TailAt(a, b, i)
    ensures SameAnswersAbove(a, b, i)
  {
    hide LimitSize;
    assert |b[1..]| == |a[i - a[0].index + 1..]|;
    forall j | j >= i && Askable(a, j) ensures Askable(b, j) && StTerm(a, j) == StTerm(b, j) {
      SameTailSameTerm(a, b, i, j);
    }
    forall lo, hi, maxSize: nat | i < lo < hi <= LastIndex(a) + 1
      ensures StEntries(a, lo, hi, maxSize) == StEntries(b, lo, hi, maxSize)
    {
      SameTailSameRange(a, b, i, lo, hi);
    }
  }

  /** The entry that a log holds at an index, if any. */
  function Held(ents: seq<Entry>, i: nat): Option<Entry>
    requires ValidEnts(ents)
  {
    if ents[0].index < i <= LastIndex(ents) then Some(ents[i - ents[0].index]) else None
  }

  /**
   Append, index by index: a batch that reaches past the dummy entry decides everything from its
   first index on, also what is no longer there, and leaves everything below alone.
   */
  lemma AppendExactly(ents: seq<Entry>, batch: seq<Entry>, i: nat)
    requires Appendable(ents, batch)
    ensures var r := StAppend(ents, batch);
      if batch == [] || batch[0].index + |batch| - 1 <= ents[0].index then r == ents
      else Held(r, i) == if i < batch[0].index || i <= ents[0].index then Held(ents, i)
                         else if i < batch[0].index + |batch| then Some(batch[i - batch[0].index])
                         else None
  {
    var b := Uncompacted(ents, batch);
    if batch != [] && batch[0].index + |batch| - 1 > ents[0].index {
      UncompactedAt(ents, batch, i);
      hide Uncompacted;
      HeldAfter(ents, b, i);
    }
  }

  /** What is left of a batch differs from it only where the log is compacted. */
  lemma UncompactedAt(ents: seq<Entry>, batch: seq<Entry>, i: nat)
    requires Appendable(ents, batch) && batch != [] && batch[0].index + |batch| - 1 > ents[0].index
    ensures var b := Uncompacted(ents, batch);
      && b != [] && b[0].index == Max(batch[0].index, ents[0].index + 1)
      && b[0].index + |b| == batch[0].index + |batch|
      && (b[0].index <= i < b[0].index + |b| ==> b[i - b[0].index] == batch[i - batch[0].index])
  {
  }

  lemma HeldAfter(ents: seq<Entry>, b: seq<Entry>, i: nat)
    requires ValidEnts(ents) && b != [] && Contiguous(b, b[0].index)
    requires ents[0].index < b[0].index <= LastIndex(ents) + 1
    ensures var r := ents[..b[0].index - ents[0].index] + b;
      && ValidEnts(r)
      && Held(r, i) == if i < b[0].index then Held(ents, i)
                       else if i < b[0].index + |b| then Some(b[i - b[0].index]) else None
  {
    var k := b[0].index - ents[0].index;
    var r := ents[..k] + b;
    assert r[0] == ents[0] && |r| == k + |b|;
    if ents[0].index < i < b[0].index + |b| {
      var j := i - ents[0].index;
      assert r[j] == if j < k then ents[j] else b[j - k];
    }
  }

  /** Term, by the entries' own indices. */
  lemma TermExactly(ents: seq<Entry>, i: nat)
    requires ValidEnts(ents) && Askable(ents, i)
    ensures StTerm(ents, i) == Err(Compacted) <==> i < ents[0].index
    ensures StTerm(ents, i) == Err(Unavailable) <==> i > ents[|ents| - 1].index
    ensures forall e | e in ents && e.index == i :: StTerm(ents, i) == Ok(e.term)
  {
  }

  /** es is the range of a log from lo on: as many entries as fit into the limit, but at least one. */
  ghost predicate LimitedFrom(ents: seq<Entry>, lo: nat, hi: nat, maxSize: nat, es: seq<Entry>)
    requires ValidEnts(ents)
  {
    && lo + |es| <= hi && (lo < hi ==> es != [])
    && (forall j | 0 <= j < |es| :: Held(ents, lo + j) == Some(es[j]))
    && (|es| > 1 ==> TotalSize(es) <= maxSize)
    && (lo + |es| < hi ==>
          Held(ents, lo + |es|).Some? && TotalSize(es) + EntrySize(Held(ents, lo + |es|).value) > maxSize)
  }

  lemma HeldInRange(ents: seq<Entry>, lo: nat, hi: nat, j: nat)
    requires ValidEnts(ents) && ents[0].index < lo && lo + j < hi <= LastIndex(ents) + 1
    ensures Held(ents, lo + j) == Some(ents[lo - ents[0].index..hi - ents[0].index][j])
  {
    hide Contiguous;
  }

  lemma LimitIsLimited(ents: seq<Entry>, lo: nat, hi: nat, maxSize: nat)
    requires ValidEnts(ents) && ents[0].index < lo <= hi <= LastIndex(ents) + 1
    ensures LimitedFrom(ents, lo, hi, maxSize, LimitSize(ents[lo - ents[0].index..hi - ents[0].index], maxSize))
  {
    hide Contiguous, LimitSize, Held, TotalSize;
    var es := ents[lo - ents[0].index..hi - ents[0].index];
    var r := LimitSize(es, maxSize);
    LimitSizeExact(es, maxSize, r);
    assert r == es[..|r|];
    forall j | 0 <= j < |r| ensures Held(ents, lo + j) == Some(r[j]) {
      HeldInRange(ents, lo, hi, j);
    }
    if |r| < |es| {
      HeldInRange(ents, lo, hi, |r|);
      TotalSizeStep(es, |r|);
    }
  }

  /** Entries: its two errors, and otherwise the entries from lo on, as many as the limit allows. */
  lemma EntriesExactly(ents: seq<Entry>, lo: nat, hi: nat, maxSize: nat)
    requires ValidEnts(ents) && Readable(ents, lo, hi)
    ensures var r := StEntries(ents, lo, hi, maxSize);
      && (r == Err(Compacted) <==> lo <= ents[0].index)
      && (r == Err(Unavailable) <==> lo > ents[0].index && |ents| == 1)
      && (r.Ok? <==> lo > ents[0].index && |ents| > 1)
      && (r.Ok? ==> LimitedFrom(ents, lo, hi, maxSize, r.value))
  {
    hide LimitedFrom, LimitSize, Contiguous;
    if lo > ents[0].index && |ents| > 1 { LimitIsLimited(ents, lo, hi, maxSize); }
  }

  /** Compact, index by index: the dummy entry keeps index and term of entry i and nothing else. */
  lemma CompactExactly(ents: seq<Entry>, i: nat, j: nat)
    requires ValidEnts(ents) && i <= LastIndex(ents)
    ensures var r := StCompact(ents, i);
      && (r == Err(Compacted) <==> i <= ents[0].index) && (r.Ok? <==> i > ents[0].index)
      && (r.Ok? ==>
            && Held(ents, i).Some? && r.value[0] == NoEntry.(index := i, term := Held(ents, i).value.term)
            && Held(r.value, j) == if j <= i then None else Held(ents, j))
  {
  }

  /** CreateSnapshot: out of date, or the snapshot at i, with the ConfState kept unless one is given. */
  lemma CreateSnapshotExactly(
    ents: seq<Entry>, snap: Snapshot, i: Word, cs: Option<ConfState>, data: Option<seq<Wire.Byte>>)
    requires ValidEnts(ents) && (i <= snap.metadata.index || ents[0].index <= i <= LastIndex(ents))
    ensures var r := StCreateSnapshot(ents, snap, i, cs, data);
      && (r == Err(SnapOutOfDate) <==> i <= snap.metadata.index) && (r.Ok? <==> i > snap.metadata.index)
      && (r.Ok? ==>
            var md := r.value.metadata;
            && r.value.data == data && r.value.unrecognized == snap.unrecognized
            && md.index == i && md.unrecognized == snap.metadata.unrecognized
            && md.confState == (match cs case Some(c) => c case None => snap.metadata.confState)
            && forall e | e in ents && e.index == i :: md.term == e.term)
  {
  }

  /** ApplySnapshot: out of date exactly when it is not newer; otherwise only its index and term remain. */
  lemma ApplySnapshotExactly(ents: seq<Entry>, snap: Snapshot, s: Snapshot)
    ensures var r := StApplySnapshot(ents, snap, s);
      && (r == Err(SnapOutOfDate) <==> s.metadata.index <= snap.metadata.index)
      && (s.metadata.index > snap.metadata.index ==>
            r == Ok([NoEntry.(index := s.metadata.index, term := s.metadata.term)]))
  {
  }

  /** Compact(i) forgets entries up to i and nothing else. */
  lemma CompactKeepsAnswers(ents: seq<Entry>, i: nat)
    requires ValidEnts(ents) && ents[0].index < i <= LastIndex(ents)
    ensures StCompact(ents, i).Ok? && SameAnswersAbove(ents, StCompact(ents, i).value, i)
  {
    SameTailSameAnswers(ents, StCompact(ents, i).value, i);
  }

  /** Shipping a snapshot taken at i and the entries after i makes a faithful copy of the source. */
  lemma SnapshotPlusTailCopies(
    src: seq<Entry>, srcSnap: Snapshot, i: Word, cs: Option<ConfState>, data: Option<seq<Wire.Byte>>,
    dst: seq<Entry>, dstSnap: Snapshot)
    requires ValidEnts(src) && src[0].index <= i <= LastIndex(src)
    requires srcSnap.metadata.index < i && dstSnap.metadata.index < i
    ensures var s := StCreateSnapshot(src, srcSnap, i, cs, data);
      s.Ok? &&
      var applied := StApplySnapshot(dst, dstSnap, s.value);
      applied.Ok? &&
      var tail := src[i - src[0].index + 1..];
      Appendable(applied.value, tail) && SameAnswersAbove(src, StAppend(applied.value, tail), i)
  {
    var s := StCreateSnapshot(src, srcSnap, i, cs, data).value;
    var applied := StApplySnapshot(dst, dstSnap, s).value;
    var tail := src[i - src[0].index + 1..];
    SameTailSameAnswers(src, StAppend(applied, tail), i);
  }

  // ---------------------------------------------------------- MemoryStorage

  /** A slice handed out to a reader: where it points, and what was in it. */
  datatype Reader = Reader(arr: array<Entry>, off: nat, seen: seq<Entry>)

  /** Every reader still sees what it saw, and those of arr see nothing from index end on. */
  ghost predicate Intact(readers: seq<Reader>, arr: array<Entry>, end: nat)
    reads set r | r in readers :: r.arr
  {
    forall r | r in readers ::
      && r.off + |r.seen| <= r.arr.Length
      && r.arr[r.off..r.off + |r.seen|] == r.seen
      && (r.arr == arr ==> r.off + |r.seen| <= end)
  }

  lemma PrefixValid(ents: seq<Entry>, k: nat)
    requires ValidEnts(ents) && 1 <= k <= |ents|
    ensures ValidEnts(ents[..k])
  {
  }

  lemma RangeOfUsed(arr: array<Entry>, len: nat, from: nat, to: nat)
    requires from <= to <= len <= arr.Length
    ensures arr[from..to] == arr[..len][from..to]
  {
  }

  lemma RangeOfRange(arr: array<Entry>, from: nat, to: nat, n: nat)
    requires from + n <= to <= arr.Length
    ensures arr[from..from + n] == arr[from..to][..n]
  {
  }

  class MemoryStorage {
    var arr: array<Entry>
    var len: nat
    var snapshot: Snapshot
    ghost var readers: seq<Reader>

    /**
     Besides the shape of the log: every slice handed out still shows what its reader saw, and
     lies inside the used part of the array, so that appending in place cannot reach it.
     */
    ghost predicate Valid()
      reads this, arr, set r | r in readers :: r.arr
    {
      1 <= len <= arr.Length && ValidEnts(arr[..len]) && Intact(readers, arr, len)
    }

    ghost function Ents(): seq<Entry>
      requires len <= arr.Length
      reads this, arr
    {
      arr[..len]
    }

    constructor ()
      ensures Valid() && fresh(arr) && readers == []
      ensures Ents() == [NoEntry] && snapshot == NoSnapshot
    {
      arr := new Entry[1](_ => NoEntry);
      len := 1;
      snapshot := NoSnapshot;
      readers := [];
    }

    /** Entries returns a slice of the backing array: the reader is recorded, nothing is copied. */
    method Entries(lo: nat, hi: nat, maxSize: nat) returns (r: Result<seq<Entry>, StorageError>)
      requires Valid() && Readable(Ents(), lo, hi)
      modifies `readers
      ensures Valid() && r == StEntries(Ents(), lo, hi, maxSize)
      ensures readers == if r.Ok? then old(readers) + [Reader(arr, lo - Ents()[0].index, r.value)] else old(readers)
    {
      hide LimitSize, Contiguous;
      var offset := arr[0].index;
      assert offset == Ents()[0].index;
      if lo <= offset { return Err(Compacted); }
      if len == 1 { return Err(Unavailable); }
      var from, to := lo - offset, hi - offset;
      var range := arr[from..to];
      RangeOfUsed(arr, len, from, to);
      var limited := LimitSizeLoop(range, maxSize);
      RangeOfRange(arr, from, to, |limited|);
      assert limited == range[..|limited|];
      HandOut(from, from + |limited|);
      r := Ok(limited);
    }

    /** A slice of the used part of the array gets a reader. */
    method HandOut(from: nat, to: nat)
      requires Valid() && from <= to <= len
      modifies `readers
      ensures Valid() && readers == old(readers) + [Reader(arr, from, arr[from..to])]
    {
      hide ValidEnts;
      readers := readers + [Reader(arr, from, arr[from..to])];
    }

    method Term(i: nat) returns (r: Result<Word, StorageError>)
      requires Valid() && Askable(Ents(), i)
      ensures r == StTerm(Ents(), i)
    {
      var offset := arr[0].index;
      if i < offset { return Err(Compacted); }
      if i - offset >= len { return Err(Unavailable); }
      r := Ok(arr[i - offset].term);
    }

    method Last() returns (i: int)
      requires Valid()
      ensures i == LastIndex(Ents())
    {
      i := arr[0].index + len - 1;
    }

    /** append([]pb.Entry{}, ms.ents[:k]...): a private copy of the first k entries, with some capacity. */
    method CopyPrefix(k: nat, room: nat)
      requires Valid() && 1 <= k <= len
      modifies `arr, `len
      ensures Valid() && readers == old(readers) && snapshot == old(snapshot)
      ensures fresh(arr) && arr.Length >= room && len == k && Ents() == old(Ents())[..k]
    {
      PrefixValid(Ents(), k);
      hide ValidEnts;
      var copy := CopyOf(k, room);
      arr, len := copy, k;
    }

    method CopyOf(k: nat, room: nat) returns (copy: array<Entry>)
      requires k <= len <= arr.Length
      ensures fresh(copy) && copy.Length >= k + room && copy[..k] == Ents()[..k]
    {
      var spare: nat :| spare >= 0;
      copy := new Entry[k + room + spare](_ => NoEntry);
      forall i | 0 <= i < k {
        copy[i] := arr[i];
      }
    }

    /** Go's append: in place while the capacity lasts, into a fresh and larger array otherwise. */
    method Extend(xs: seq<Entry>)
      requires Valid() && xs != [] && Contiguous(xs, LastIndex(Ents()) + 1)
      modifies `arr, `len, arr
      ensures Valid() && readers == old(readers) && snapshot == old(snapshot)
      ensures Ents() == old(Ents()) + xs
      ensures arr == old(arr) || fresh(arr)
    {
      ghost var was := Ents();
      if len + |xs| > arr.Length {
        CopyPrefix(len, len + |xs|);
        assert Ents() == was;
      }
      WriteTail(xs);
    }

    method WriteTail(xs: seq<Entry>)
      requires Valid() && Contiguous(xs, LastIndex(Ents()) + 1) && len + |xs| <= arr.Length
      modifies `len, arr
      ensures Valid() && Ents() == old(Ents()) + xs
    {
      ghost var was := Ents();
      forall i | 0 <= i < |xs| {
        arr[len + i] := xs[i];
      }
      len := len + |xs|;
      assert arr[..len] == was + xs;
    }

    method Append(batch: seq<Entry>)
      requires Valid() && Appendable(Ents(), batch)
      modifies `arr, `len, arr
      ensures Valid() && readers == old(readers) && snapshot == old(snapshot)
      ensures Ents() == StAppend(old(Ents()), batch)
      ensures arr == old(arr) || fresh(arr)
    {
      if |batch| == 0 { return; }
      var first := arr[0].index + 1;
      var last := batch[0].index + |batch| - 1;
      if last < first { return; }
      var entries := if first > batch[0].index then batch[first - batch[0].index..] else batch;
      assert entries == Uncompacted(Ents(), batch);
      hide Contiguous, Uncompacted;
      Overwrite(entries);
    }

    /** The switch of Append: cut the log where the new entries start, in a copy, then extend it. */
    method Overwrite(entries: seq<Entry>)
      requires Valid() && entries != [] && Contiguous(entries, entries[0].index)
      requires Ents()[0].index < entries[0].index <= LastIndex(Ents()) + 1
      modifies `arr, `len, arr
      ensures Valid() && readers == old(readers) && snapshot == old(snapshot)
      ensures Ents() == old(Ents())[..entries[0].index - old(Ents())[0].index] + entries
      ensures arr == old(arr) || fresh(arr)
    {
      hide Contiguous;
      ghost var was := Ents();
      var offset := entries[0].index - arr[0].index;
      if len > offset {
        CopyPrefix(offset, 0);
      } else {
        assert was[..offset] == was;
      }
      Extend(entries);
    }

    method Compact(i: nat) returns (r: Option<StorageError>)
      requires Valid() && i <= LastIndex(Ents())
      modifies `arr, `len
      ensures Valid() && readers == old(readers) && snapshot == old(snapshot)
      ensures match StCompact(old(Ents()), i)
              case Ok(es) => r == None && Ents() == es && fresh(arr)
              case Err(e) => r == Some(e) && unchanged(this)
    {
      var offset := arr[0].index;
      if i <= offset { return Some(Compacted); }
      ghost var es := StCompact(Ents(), i).value;
      assert ValidEnts(es);
      hide ValidEnts;
      var ents := CopyFrom(i - offset);
      arr, len := ents, ents.Length;
      r := None;
    }

    /** The array that Compact replaces the old one by: a dummy, then what follows entry k. */
    method CopyFrom(k: nat) returns (ents: array<Entry>)
      requires Valid() && k < len
      ensures fresh(ents) && ents.Length == len - k
      ensures ents[..] == [Dummy(arr[k].index, arr[k].term)] + Ents()[k + 1..]
    {
      hide Contiguous, Intact;
      var dummy := Dummy(arr[k].index, arr[k].term);
      ents := new Entry[len - k](_ => dummy);
      forall j | 1 <= j < len - k {
        ents[j] := arr[k + j];
      }
    }

    method CreateSnapshot(i: Word, cs: Option<ConfState>, data: Option<seq<Wire.Byte>>)
      returns (r: Result<Snapshot, StorageError>)
      requires Valid() && (i <= snapshot.metadata.index || Ents()[0].index <= i <= LastIndex(Ents()))
      modifies `snapshot
      ensures Valid() && r == StCreateSnapshot(Ents(), old(snapshot), i, cs, data)
      ensures snapshot == if r.Ok? then r.value else old(snapshot)
    {
      if i <= snapshot.metadata.index { return Err(SnapOutOfDate); }
      var md := snapshot.metadata.(index := i, term := arr[i - arr[0].index].term);
      if cs.Some? { md := md.(confState := cs.value); }
      snapshot := snapshot.(metadata := md, data := data);
      r := Ok(snapshot);
    }

    method ApplySnapshot(s: Snapshot) returns (r: Option<StorageError>)
      requires Valid()
      modifies `arr, `len, `snapshot
      ensures Valid() && readers == old(readers)
      ensures match StApplySnapshot(old(Ents()), old(snapshot), s)
              case Ok(es) => r == None && Ents() == es && snapshot == s && fresh(arr)
              case Err(e) => r == Some(e) && unchanged(this)
    {
      if snapshot.metadata.index >= s.metadata.index { return Some(SnapOutOfDate); }
      snapshot := s;
      arr := new Entry[1](_ => Dummy(s.metadata.index, s.metadata.term));
      len := 1;
      r := None;
    }

    /**
     Any run of operations, stopping where one would panic or where a batch breaks what Append asks
     of its caller, contiguous entries: the state is the specified one, and no reader ever sees an
     element of its slice change.
     */
    method Run(ops: seq<StorageOp>)
      requires Valid()
      modifies this, arr
      ensures Valid() && Disk(Ents(), snapshot) == RunAll(old(Disk(Ents(), snapshot)), ops)
      ensures |old(readers)| <= |readers| && readers[..|old(readers)|] == old(readers)
      ensures forall r | r in old(readers) :: r.arr[r.off..r.off + |r.seen|] == r.seen
    {
      hide Effect, Runnable;
      ghost var start := Disk(Ents(), snapshot);
      assert ops[0..] == ops;
      var n, ok := 0, true;
      while n < |ops| && ok
        invariant Valid() && (arr == old(arr) || fresh(arr)) && n <= |ops|
        invariant |old(readers)| <= |readers| && readers[..|old(readers)|] == old(readers)
        invariant RunAll(start, ops) == if ok then RunAll(Disk(Ents(), snapshot), ops[n..]) else Disk(Ents(), snapshot)
        decreases |ops| - n, ok
      {
        assert ops[n..][0] == ops[n] && ops[n..][1..] == ops[n + 1..];
        ok := Apply(ops[n]);
        if ok { n := n + 1; }
      }
      assert forall r | r in old(readers) :: r in readers[..|old(readers)|];
    }

    method Apply(op: StorageOp) returns (ok: bool)
      requires Valid()
      modifies this, arr
      ensures Valid() && (arr == old(arr) || fresh(arr))
      ensures ok == Runnable(old(Disk(Ents(), snapshot)), op)
      ensures Disk(Ents(), snapshot)
           == if ok then Effect(old(Disk(Ents(), snapshot)), op) else old(Disk(Ents(), snapshot))
      ensures |old(readers)| <= |readers| && readers[..|old(readers)|] == old(readers)
      ensures ok && op.DoEntries? && old(StEntries(Ents(), op.lo, op.hi, op.maxSize)).Ok? ==>
        |readers| == |old(readers)| + 1
    {
      hide StEntries, Readable, StAppend, StCompact, StCreateSnapshot, StApplySnapshot;
      var last := Last();
      match op
      case DoEntries(lo, hi, maxSize) =>
        ok := Readable(arr[..len], lo, hi);
        if ok { var _ := Entries(lo, hi, maxSize); }
      case DoAppend(batch) =>
        ok := batch == [] || (Contiguous(batch, batch[0].index) && batch[0].index <= last + 1);
        if ok { Append(batch); }
      case DoCompact(i) =>
        ok := i <= last;
        if ok { var _ := Compact(i); }
      case DoCreate(i, cs, data) =>
        ok := i <= snapshot.metadata.index || arr[0].index <= i <= last;
        if ok { var _ := CreateSnapshot(i, cs, data); }
      case DoApply(s) =>
        ok := true;
        var _ := ApplySnapshot(s);
    }
  }

  datatype StorageOp =
    | DoEntries(lo: nat, hi: nat, maxSize: nat)
    | DoAppend(batch: seq<Entry>)
    | DoCompact(at: nat)
    | DoCreate(index: Word, cs: Option<ConfState>, data: Option<seq<Wire.Byte>>)
    | DoApply(s: Snapshot)

  datatype Disk = Disk(ents: seq<Entry>, snap: Snapshot)

  predicate Runnable(d: Disk, op: StorageOp) {
    ValidEnts(d.ents) &&
    match op
    case DoEntries(lo, hi, _) => Readable(d.ents, lo, hi)
    case DoAppend(batch) => Appendable(d.ents, batch)
    case DoCompact(i) => i <= LastIndex(d.ents)
    case DoCreate(i, _, _) => i <= d.snap.metadata.index || d.ents[0].index <= i <= LastIndex(d.ents)
    case DoApply(_) => true
  }

  /** An operation that returns an error changes nothing. */
  function Effect(d: Disk, op: StorageOp): Disk
    requires Runnable(d, op)
  {
    match op
    case DoEntries(_, _, _) => d
    case DoAppend(batch) => d.(ents := StAppend(d.ents, batch))
    case DoCompact(i) => (match StCompact(d.ents, i) case Ok(es) => d.(ents := es) case Err(_) => d)
    case DoCreate(i, cs, data) =>
      (match StCreateSnapshot(d.ents, d.snap, i, cs, data) case Ok(s) => d.(snap := s) case Err(_) => d)
    case DoApply(s) => (match StApplySnapshot(d.ents, d.snap, s) case Ok(es) => Disk(es, s) case Err(_) => d)
  }

  function RunAll(d: Disk, ops: seq<StorageOp>): Disk
    decreases |ops|
  {
    if ops == [] || !Runnable(d, ops[0]) then d else RunAll(Effect(d, ops[0]), ops[1..])
  }
}
