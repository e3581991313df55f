/**
 raftLog and unstable as objects: the source's methods, step by step, each proved to do what the
 specification in RaftLog says, panics excluded by precondition or shown unreachable.
 */
module RaftLogObject {
  import opened Prelude
  import opened RaftPb
  import opened Storage
  import R = RaftLog

  lemma RangeOfPart(arr: array<Entry>, from: nat, len: nat, lo: nat, hi: nat)
    requires from + len <= arr.Length && lo <= hi <= len
    ensures arr[from..from + len][lo..hi] == arr[from + lo..from + hi]
  {
    var a, b := arr[from..from + len][lo..hi], arr[from + lo..from + hi];
    forall j | 0 <= j < hi - lo ensures a[j] == b[j] {
      assert arr[from..from + len][lo + j] == arr[from + lo + j];
    }
  }

  /** The unstable tail as a Go slice: entries is arr[from..from + len]. */
  class Unstable {
    var snapshot: Option<Snapshot>
    var offset: nat
    var arr: array<Entry>
    var from: nat
    var len: nat
    ghost var readers: seq<Reader>

    /** Every batch handed out still shows what its reader saw, and none reaches past the entries. */
    ghost predicate Valid()
      reads this, set r | r in readers :: r.arr
    {
      from + len <= arr.Length && Intact(readers, arr, from + len)
    }

    ghost predicate SnapshotBelow()
      reads this
    {
      snapshot.Some? ==> snapshot.value.metadata.index < offset
    }

    function Entries(): seq<Entry>
      requires from + len <= arr.Length
      reads this, arr
    {
      arr[from..from + len]
    }

    ghost function Val(): R.Tail
      requires from + len <= arr.Length
      reads this, arr
    {
      R.Tail(snapshot, Entries(), offset)
    }

    constructor (offset: nat)
      ensures Valid() && fresh(arr) && readers == [] && Val() == R.Tail(None, [], offset)
    {
      snapshot, this.offset := None, offset;
      arr, from, len := new Entry[0](_ => NoEntry), 0, 0;
      readers := [];
    }

    method MaybeLastIndex() returns (r: Option<int>)
      requires Valid()
      ensures r == R.MaybeLastIndex(Val())
    {
      if len != 0 { return Some(offset + len - 1); }
      if snapshot.Some? { return Some(snapshot.value.metadata.index); }
      r := None;
    }

    method MaybeTerm(i: nat) returns (r: Option<Word>)
      requires Valid() && SnapshotBelow()
      ensures r == R.MaybeTerm(Val(), i)
    {
      if i < offset {
        if snapshot.None? { return None; }
        if snapshot.value.metadata.index == i { return Some(snapshot.value.metadata.term); }
        return None;
      }
      var last := MaybeLastIndex();
      if last.None? || i > last.value { return None; }
      assert Entries()[i - offset] == arr[from + (i - offset)];
      r := Some(arr[from + (i - offset)].term);
    }

    /** A fresh array with the same entries and room for more. */
    method Move(room: nat)
      requires Valid()
      modifies `arr, `from
      ensures Valid() && Entries() == old(Entries()) && fresh(arr) && from == 0 && arr.Length >= len + room
    {
      var spare: nat :| spare >= 0;
      var copy := new Entry[len + room + spare](_ => NoEntry);
      forall j | 0 <= j < len {
        copy[j] := arr[from + j];
      }
      assert copy[0..0 + len] == Entries();
      arr, from := copy, 0;
    }

    /** shrinkEntriesArray: forget the array when the entries use less than half of it. */
    method Shrink()
      requires Valid()
      modifies `arr, `from
      ensures Valid() && Entries() == old(Entries()) && (arr == old(arr) || fresh(arr))
    {
      if len == 0 {
        arr, from := new Entry[0](_ => NoEntry), 0;
      } else if len * 2 < arr.Length - from {
        Move(0);
      }
    }

    method StableTo(i: nat, t: Word)
      requires Valid() && SnapshotBelow()
      modifies this
      ensures Valid() && Val() == R.StableTail(old(Val()), i, t)
      ensures readers == old(readers) && (arr == old(arr) || fresh(arr))
    {
      hide R.MaybeTerm;
      var gt := MaybeTerm(i);
      if gt.None? { return; }
      if gt.value == t && i >= offset {
        R.TermMeansEntry(Val(), i);
        Forget(i + 1 - offset);
      }
    }

    /** Drop the first k entries, and perhaps the array. */
    method Forget(k: nat)
      requires Valid() && k <= len
      modifies `arr, `from, `len, `offset
      ensures Valid() && Entries() == old(Entries())[k..] && offset == old(offset) + k
      ensures arr == old(arr) || fresh(arr)
    {
      Advance(k);
      Shrink();
    }

    method Advance(k: nat)
      requires Valid() && k <= len
      modifies `from, `len, `offset
      ensures Valid() && Entries() == old(Entries())[k..] && offset == old(offset) + k
    {
      RangeOfPart(arr, from, len, k, len);
      from, len, offset := from + k, len - k, offset + k;
    }

    /** Go's append: behind the entries while the capacity lasts, into a larger array otherwise. */
    method Grow(xs: seq<Entry>)
      requires Valid()
      modifies `arr, `from, `len, arr
      ensures Valid() && Entries() == old(Entries()) + xs && (arr == old(arr) || fresh(arr))
    {
      ghost var was := Entries();
      if from + len + |xs| > arr.Length { Move(|xs|); }
      WriteBehind(xs);
    }

    method WriteBehind(xs: seq<Entry>)
      requires Valid() && from + len + |xs| <= arr.Length
      modifies `len, arr
      ensures Valid() && Entries() == old(Entries()) + xs
    {
      ghost var was := Entries();
      forall j | 0 <= j < |xs| {
        arr[from + len + j] := xs[j];
      }
      assert Intact(readers, arr, from + len);
      len := len + |xs|;
      assert arr[from..from + len] == was + xs;
    }

    /** Replace the entries by others; the array of the old ones is left to its readers. */
    method Replace(xs: seq<Entry>)
      requires Valid()
      modifies `arr, `from, `len
      ensures Valid() && Entries() == xs && fresh(arr)
    {
      var spare: nat :| spare >= 0;
      var copy := new Entry[|xs| + spare](j => if 0 <= j < |xs| then xs[j] else NoEntry);
      assert copy[0..0 + |xs|] == xs;
      arr, from, len := copy, 0, |xs|;
    }

    /**
     The three branches. Where the entries are cut short they are copied first, since appending
     behind what is left would write over what readers of the rest still see.
     */
    method TruncateAndAppend(ents: seq<Entry>)
      requires Valid() && ents != [] && ents[0].index <= offset + len
      modifies this, arr
      ensures Valid() && Val() == R.TruncateAndAppend(old(Val()), ents)
      ensures readers == old(readers) && (arr == old(arr) || fresh(arr))
    {
      var after := ents[0].index;
      if after == offset + len {
        Grow(ents);
      } else if after <= offset {
        offset := after;
        Replace(ents);
      } else {
        var kept := Entries()[..after - offset];
        Replace(kept);
        Grow(ents);
      }
    }

    /** Hand out a part of the array within the entries. */
    method HandOut(a: nat, b: nat) returns (r: seq<Entry>)
      requires Valid() && from <= a <= b <= from + len
      modifies `readers
      ensures Valid() && r == arr[a..b] && readers == old(readers) + [Reader(arr, a, r)]
    {
      r := arr[a..b];
      readers := readers + [Reader(arr, a, r)];
    }

    /** slice: a part of the entries, not a copy of it. */
    method Slice(lo: nat, hi: nat) returns (r: seq<Entry>)
      requires Valid() && offset <= lo <= hi <= offset + len
      modifies `readers
      ensures Valid() && r == Entries()[lo - offset..hi - offset]
      ensures readers == old(readers) + [Reader(arr, from + (lo - offset), r)]
    {
      hide Intact;
      RangeOfPart(arr, from, len, lo - offset, hi - offset);
      r := HandOut(from + (lo - offset), from + (hi - offset));
    }

    /**
     Any run of operations on the tail, stopping where one would panic: the state is the specified
     one, and no batch that was ever handed out changes.
     */
    method Run(ops: seq<TailOp>)
      requires Valid()
      modifies this, arr
      ensures Valid() && Val() == TailRun(old(Val()), ops)
      ensures |old(readers)| <= |readers| && readers[..|old(readers)|] == old(readers)
      ensures forall r | r in old(readers) :: r.arr[r.off..r.off + |r.seen|] == r.seen
    {
      hide TailEffect, TailRunnable;
      ghost var start := Val();
      assert ops[0..] == ops;
      var n, ok := 0, true;
      while n < |ops| && ok
        invariant Valid() && (arr == old(arr) || fresh(arr)) && n <= |ops|
        invariant |old(readers)| <= |readers| && readers[..|old(readers)|] == old(readers)
        invariant TailRun(start, ops) == if ok then TailRun(Val(), ops[n..]) else Val()
        decreases |ops| - n, ok
      {
        assert ops[n..][0] == ops[n] && ops[n..][1..] == ops[n + 1..];
        ok := Apply(ops[n]);
        if ok { n := n + 1; }
      }
      assert forall r | r in old(readers) :: r in readers[..|old(readers)|];
    }

    method Apply(op: TailOp) returns (ok: bool)
      requires Valid()
      modifies this, arr
      ensures Valid() && (arr == old(arr) || fresh(arr))
      ensures ok == TailRunnable(old(Val()), op) && Val() == if ok then TailEffect(old(Val()), op) else old(Val())
      ensures |old(readers)| <= |readers| && readers[..|old(readers)|] == old(readers)
      ensures ok && op.DoSlice? ==> |readers| == |old(readers)| + 1
    {
      match op
      case DoTruncate(ents) =>
        ok := ents != [] && ents[0].index <= offset + len;
        if ok { TruncateAndAppend(ents); }
      case DoStable(i, t) =>
        ok := snapshot.Some? ==> snapshot.value.metadata.index < offset;
        if ok { StableTo(i, t); }
      case DoSlice(lo, hi) =>
        ok := offset <= lo <= hi <= offset + len;
        if ok { var _ := Slice(lo, hi); }
    }
  }

  datatype TailOp = DoTruncate(ents: seq<Entry>) | DoStable(i: nat, t: Word) | DoSlice(lo: nat, hi: nat)

  predicate TailRunnable(u: R.Tail, op: TailOp) {
    match op
    case DoTruncate(ents) => ents != [] && ents[0].index <= u.offset + |u.entries|
    case DoStable(_, _) => u.snapshot.Some? ==> u.snapshot.value.metadata.index < u.offset
    case DoSlice(lo, hi) => u.offset <= lo <= hi <= u.offset + |u.entries|
  }

  function TailEffect(u: R.Tail, op: TailOp): R.Tail
    requires TailRunnable(u, op)
  {
    match op
    case DoTruncate(ents) => R.TruncateAndAppend(u, ents)
    case DoStable(i, t) => R.StableTail(u, i, t)
    case DoSlice(_, _) => u
  }

  function TailRun(u: R.Tail, ops: seq<TailOp>): R.Tail
    decreases |ops|
  {
    if ops == [] || !TailRunnable(u, ops[0]) then u else TailRun(TailEffect(u, ops[0]), ops[1..])
  }

  class RaftLog {
    const storage: MemoryStorage
    const unstable: Unstable
    const maxNextEntsSize: nat
    var committed: nat
    var applied: nat

    /** The arrays of both tiers, and those still seen by readers. */
    ghost function Arrays(): set<array<Entry>>
      reads this, storage, unstable
    {
      {storage.arr, unstable.arr} + (set r | r in storage.readers :: r.arr) + (set r | r in unstable.readers :: r.arr)
    }

    ghost function Val(): R.Log
      requires storage.len <= storage.arr.Length && unstable.from + unstable.len <= unstable.arr.Length
      reads this, storage, storage.arr, unstable, unstable.arr
    {
      R.Log(storage.Ents(), unstable.Val(), committed, applied)
    }

    /** The tiers share no array, not even with each other's readers. */
    ghost predicate Apart()
      reads this, storage, unstable
    {
      && unstable.arr != storage.arr
      && (forall r | r in storage.readers :: r.arr != unstable.arr)
      && (forall r | r in unstable.readers :: r.arr != storage.arr)
    }

    ghost predicate Valid()
      reads this, storage, unstable, Arrays()
    {
      storage.Valid() && unstable.Valid() && Apart() && R.ValidLog(Val())
    }

    /** newLogWithSize. */
    constructor (storage: MemoryStorage, maxNextEntsSize: nat)
      requires storage.Valid()
      ensures Valid() && this.storage == storage && fresh(unstable) && fresh(unstable.arr) && unstable.readers == []
      ensures this.maxNextEntsSize == maxNextEntsSize
      ensures Val() == R.NewLog(storage.Ents())
    {
      this.storage := storage;
      this.maxNextEntsSize := maxNextEntsSize;
      committed := storage.arr[0].index;
      applied := storage.arr[0].index;
      unstable := new Unstable(storage.arr[0].index + storage.len);
      new;
      assert storage.Ents()[0] == storage.arr[0];
    }

    method FirstIndex() returns (i: nat)
      requires Valid()
      ensures i == R.FirstIndex(Val())
    {
      if unstable.snapshot.Some? { return unstable.snapshot.value.metadata.index + 1; }
      i := storage.arr[0].index + 1;
    }

    method LastIndex() returns (i: int)
      requires Valid()
      ensures i == R.LastOf(Val())
    {
      var u := unstable.MaybeLastIndex();
      if u.Some? { return u.value; }
      i := storage.Last();
    }

    /** append: the caller's run must not reach into what is committed, and must leave no gap. */
    method Append(ents: seq<Entry>) returns (last: int)
      requires Valid() && R.Fits(Val(), ents) && R.AppendGuard(Val(), ents)
      requires ents != [] ==> ents[0].index != 0
      modifies unstable, unstable.arr
      ensures Valid() && Val() == R.Append(old(Val()), ents) && last == R.LastOf(Val())
      ensures R.View(Val()) == if ents == [] then old(R.View(Val()))
                               else old(R.View(Val()))[..ents[0].index - R.Base(Val())] + ents
      ensures unstable.readers == old(unstable.readers) && (unstable.arr == old(unstable.arr) || fresh(unstable.arr))
    {
      hide R.View, R.ValidLog, R.Joined, R.Fits, R.AppendGuard, R.TruncateAndAppend, R.LastOf, R.Base, ValidEnts;
      ghost var l := Val();
      R.AppendView(l, ents);
      R.FitsTail(l, ents);
      if |ents| != 0 { Put(ents); }
      assert Val() == R.Append(l, ents);
      last := LastIndex();
    }

    /** An assignment to committed, which has to stay within the log. */
    method Commit(i: nat)
      requires Valid() && R.Base(Val()) <= i <= R.LastOf(Val())
      modifies `committed
      ensures Valid() && Val() == old(Val()).(committed := i)
    {
      committed := i;
    }

    /** truncateAndAppend on the tail leaves the storage and all readers alone. */
    method Put(ents: seq<Entry>)
      requires storage.Valid() && unstable.Valid() && Apart()
      requires ents != [] && ents[0].index <= unstable.offset + unstable.len
      modifies unstable, unstable.arr
      ensures storage.Valid() && unstable.Valid() && Apart() && Val() == R.Append(old(Val()), ents)
      ensures unstable.readers == old(unstable.readers) && (unstable.arr == old(unstable.arr) || fresh(unstable.arr))
    {
      hide Contiguous, R.TruncateAndAppend;
      unstable.TruncateAndAppend(ents);
    }

    /** The log is still one log, and the same, exactly when the acknowledgement finds what it has to. */
    method StableTo(i: nat, t: Word)
      requires Valid()
      modifies unstable
      ensures storage.Valid() && unstable.Valid() && Apart() && Val() == R.StableTo(old(Val()), i, t)
      ensures Valid() && R.View(Val()) == old(R.View(Val())) <==> old(R.AckKeeps(Val(), i, t))
    {
      hide R.View, R.AckKeeps, Contiguous, Intact;
      ghost var l := Val();
      R.AckKeepsLogExactly(l, i, t);
      unstable.StableTo(i, t);
      assert Val() == R.StableTo(l, i, t);
      if R.Joined(Val()) && R.View(Val()) == R.View(l) { R.SameViewValid(l, Val()); }
    }

    /** term never reports an error: inside the log it is the entry's term, outside it is 0. */
    method Term(i: nat) returns (r: Result<Word, StorageError>)
      requires Valid()
      ensures r == Ok(if R.Base(Val()) <= i <= R.LastOf(Val()) then R.At(Val(), i).term else 0)
    {
      R.TermAgrees(Val(), i);
      hide R.View, R.TermOf, R.ValidLog, R.Joined, R.At, R.LastOf, ValidEnts;
      var first := FirstIndex();
      var last := LastIndex();
      if i < first - 1 || i > last { return Ok(0); }
      r := TermInside(i);
    }

    /** The tail is asked first. */
    method TermInside(i: nat) returns (r: Result<Word, StorageError>)
      requires Valid() && R.FirstIndex(Val()) - 1 <= i <= R.LastOf(Val())
      ensures r == R.TermOf(Val(), i)
    {
      R.TermInside(Val(), i);
      hide R.View, R.TermOf, R.MaybeTerm, R.LastOf, Contiguous;
      var t := unstable.MaybeTerm(i);
      if t.Some? { return Ok(t.value); }
      r := storage.Term(i);
    }

    /** slice: both tiers, cut short by storage or not, give limitSize of one range of the log. */
    method Slice(lo: nat, hi: nat, maxSize: nat) returns (r: Result<seq<Entry>, StorageError>)
      requires Valid() && lo <= hi && (R.FirstIndex(Val()) <= lo ==> hi <= R.LastOf(Val()) + 1)
      modifies storage`readers, unstable`readers
      ensures Valid() && Val() == old(Val())
      ensures r == if lo < R.FirstIndex(Val()) then Err(Compacted)
                   else Ok(LimitSize(R.Range(Val(), lo, hi), maxSize))
    {
      hide LimitSize, R.View, R.Range, R.SliceOf, Intact;
      ghost var l := Val();
      var first := FirstIndex();
      if lo < first { return Err(Compacted); }
      R.SliceAgrees(l, lo, hi, maxSize);
      var ents := Gather(lo, hi, maxSize);
      r := Ok(ents);
    }

    /** The stored part of a slice. */
    method StoredPart(lo: nat, cut: nat, maxSize: nat) returns (ents: seq<Entry>)
      requires Valid() && R.FirstIndex(Val()) <= lo < cut <= unstable.offset
      modifies storage`readers
      ensures Valid() && Val() == old(Val()) && unstable.snapshot.None? && Readable(storage.Ents(), lo, cut)
      ensures Ok(ents) == StEntries(storage.Ents(), lo, cut, maxSize)
    {
      hide R.View, R.Range, LimitSize, Contiguous, Intact;
      R.StoredPart(Val(), lo, cut, maxSize);
      var stored := storage.Entries(lo, cut, maxSize);
      if stored.Err? { assert false; }
      ents := stored.value;
    }

    /** The unstable part of a slice, if any. */
    method TailPart(lo: nat, hi: nat) returns (ents: seq<Entry>)
      requires Valid() && lo <= hi <= R.LastOf(Val()) + 1
      modifies unstable`readers
      ensures Valid() && Val() == old(Val()) && ents == R.TailOf(Val(), lo, hi)
    {
      hide R.View, Contiguous;
      if hi <= unstable.offset { return []; }
      ents := unstable.Slice(Max(lo, unstable.offset), hi);
    }

    /** The body of slice once its bounds are checked. */
    method Gather(lo: nat, hi: nat, maxSize: nat) returns (r: seq<Entry>)
      requires Valid() && R.FirstIndex(Val()) <= lo <= hi <= R.LastOf(Val()) + 1
      modifies storage`readers, unstable`readers
      ensures Valid() && Val() == old(Val()) && Ok(r) == R.SliceOf(Val(), lo, hi, maxSize)
    {
      hide LimitSize, R.View, StEntries, R.TailOf, Contiguous, Readable, R.Joined, ValidEnts, R.LastOf, R.FirstIndex;
      if lo == hi { return []; }
      var cut, ents: seq<Entry> := Min(hi, unstable.offset), [];
      if lo < unstable.offset {
        ents := StoredPart(lo, cut, maxSize);
        if |ents| < cut - lo { return ents; }
      }
      hide R.SliceOf;
      R.SliceWhole(Val(), lo, hi, maxSize, ents);
      var tail := TailPart(lo, hi);
      r := LimitSizeLoop(ents + tail, maxSize);
    }

    method HasNextEnts() returns (b: bool)
      requires Valid()
      ensures b == R.HasNextEnts(Val())
    {
      var first := FirstIndex();
      b := Wrap(committed + 1) > Max(Wrap(applied + 1), Wrap(first));
    }

    method NextEnts() returns (ents: seq<Entry>)
      requires Valid()
      modifies storage`readers, unstable`readers
      ensures Valid() && Val() == old(Val())
      ensures Ok(ents) == R.NextEnts(Val(), maxNextEntsSize)
    {
      hide R.View, R.SliceOf, Contiguous, Intact;
      var first := FirstIndex();
      var off := Max(Wrap(applied + 1), Wrap(first));
      if Wrap(committed + 1) > off {
        R.NextInRange(Val());
        ents := Gather(off, Wrap(committed + 1), maxNextEntsSize);
      } else {
        ents := [];
      }
    }

    /** unstableEntries: the batch to persist, shared with the tail. */
    method UnstableEntries() returns (ents: seq<Entry>)
      requires Valid()
      modifies unstable`readers
      ensures Valid() && Val() == old(Val()) && ents == unstable.Entries()
    {
      hide R.View, R.ValidLog, Contiguous, Intact, ValidEnts;
      if unstable.len == 0 { return []; }
      ents := unstable.HandOut(unstable.from, unstable.from + unstable.len);
    }
  }
}
