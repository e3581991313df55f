/**
 The raft log in two tiers: a stable storage and, in front of it, the unstable tail that shadows it
 from its offset on. View is the one log they stand for; every operation is proved against it.
 */
module RaftLog {
  import opened Prelude
  import opened RaftPb
  import opened Storage

  /** The unstable tail: entries[i] has index offset + i. */
  datatype Tail = Tail(snapshot: Option<Snapshot>, entries: seq<Entry>, offset: nat)

  datatype Log = Log(stored: seq<Entry>, tail: Tail, committed: nat, applied: nat)

  // -------------------------------------------------------------- the tail

  function MaybeFirstIndex(u: Tail): Option<nat> {
    if u.snapshot.Some? then Some(u.snapshot.value.metadata.index + 1) else None
  }

  function MaybeLastIndex(u: Tail): Option<int> {
    if u.entries != [] then Some(u.offset + |u.entries| - 1)
    else if u.snapshot.Some? then Some(u.snapshot.value.metadata.index)
    else None
  }

  function MaybeTerm(u: Tail, i: nat): Option<Word>
    requires u.entries == [] ==> u.snapshot.Some? ==> u.snapshot.value.metadata.index < u.offset
  {
    if i < u.offset then
      if u.snapshot.Some? && u.snapshot.value.metadata.index == i then Some(u.snapshot.value.metadata.term)
      else None
    else
      match MaybeLastIndex(u)
      case None => None
      case Some(last) => if i > last then None else Some(u.entries[i - u.offset].term)
  }

  lemma TermMeansEntry(u: Tail, i: nat)
    requires u.entries == [] ==> u.snapshot.Some? ==> u.snapshot.value.metadata.index < u.offset
    requires MaybeTerm(u, i).Some? && i >= u.offset
    ensures i - u.offset < |u.entries|
  {
  }

  function StableTail(u: Tail, i: nat, t: Word): Tail
    requires u.entries == [] ==> u.snapshot.Some? ==> u.snapshot.value.metadata.index < u.offset
  {
    if MaybeTerm(u, i) == Some(t) && i >= u.offset then
      u.(entries := u.entries[i + 1 - u.offset..], offset := i + 1)
    else u
  }

  function TruncateAndAppend(u: Tail, ents: seq<Entry>): Tail
    requires ents != [] && ents[0].index <= u.offset + |u.entries|
  {
    var after := ents[0].index;
    if after == u.offset + |u.entries| then u.(entries := u.entries + ents)
    else if after <= u.offset then u.(offset := after, entries := ents)
    else u.(entries := u.entries[..after - u.offset] + ents)
  }

  // --------------------------------------------------------------- the log

  function Base(l: Log): nat
    requires l.stored != []
  {
    if l.tail.snapshot.Some? then l.tail.snapshot.value.metadata.index else l.stored[0].index
  }

  function FirstIndex(l: Log): nat
    requires l.stored != []
  {
    match MaybeFirstIndex(l.tail) case Some(i) => i case None => l.stored[0].index + 1
  }

  function LastOf(l: Log): int
    requires l.stored != []
  {
    match MaybeLastIndex(l.tail) case Some(i) => i case None => LastIndex(l.stored)
  }

  /**
   The tail continues what it shadows without a gap. A pending snapshot replaces the storage, and
   the tail then starts right behind it.
   */
  ghost predicate Joined(l: Log) {
    && ValidEnts(l.stored) && Contiguous(l.tail.entries, l.tail.offset)
    && if l.tail.snapshot.Some? then l.tail.offset == l.tail.snapshot.value.metadata.index + 1
       else
         && l.stored[0].index < l.tail.offset <= LastIndex(l.stored) + 1
         && (l.tail.entries == [] ==> l.tail.offset == LastIndex(l.stored) + 1)
  }

  ghost predicate ValidLog(l: Log) {
    Joined(l) && Base(l) <= l.committed <= LastOf(l)
  }

  /** The log both tiers stand for, behind its dummy entry. */
  ghost function View(l: Log): (v: seq<Entry>)
    requires Joined(l)
    ensures ValidEnts(v) && v[0].index == Base(l) && LastIndex(v) == LastOf(l)
  {
    (match l.tail.snapshot
     case Some(s) => [Dummy(s.metadata.index, s.metadata.term)]
     case None => l.stored[..l.tail.offset - l.stored[0].index]) + l.tail.entries
  }

  ghost function At(l: Log, i: nat): Entry
    requires Joined(l) && Base(l) <= i <= LastOf(l)
  {
    View(l)[i - Base(l)]
  }

  /** newLogWithSize over a storage. */
  function NewLog(stored: seq<Entry>): (l: Log)
    requires ValidEnts(stored)
    ensures ValidLog(l) && View(l) == stored
    ensures l.committed == l.applied == Base(l) == stored[0].index
  {
    Log(stored, Tail(None, [], LastIndex(stored) + 1), stored[0].index, stored[0].index)
  }

  /**
   Of a new log nothing counts as committed or applied: nothing is next, and whatever follows the
   dummy entry may still be overwritten.
   */
  lemma NewLogIsUncommitted(stored: seq<Entry>, ents: seq<Entry>)
    requires ValidEnts(stored) && ents != [] && stored[0].index < ents[0].index
    ensures var l := NewLog(stored);
      && l.applied == l.committed == stored[0].index && !HasNextEnts(l)
      && FirstIndex(l) == l.committed + 1 && AppendGuard(l, ents)
  {
  }

  // ----------------------------------------------------------------- append

  /** What append demands of its caller: a contiguous run that leaves no gap. */
  ghost predicate Fits(l: Log, ents: seq<Entry>) {
    Joined(l) && (ents != [] ==> Contiguous(ents, ents[0].index) && ents[0].index <= LastOf(l) + 1)
  }

  /** The check that keeps append from panicking. ents[0].Index - 1 wraps around at 0. */
  predicate AppendGuard(l: Log, ents: seq<Entry>) {
    ents == [] || Wrap(ents[0].index - 1) >= l.committed
  }

  function Append(l: Log, ents: seq<Entry>): Log
    requires ents != [] ==> ents[0].index <= l.tail.offset + |l.tail.entries|
  {
    if ents == [] then l else l.(tail := TruncateAndAppend(l.tail, ents))
  }

  lemma FitsTail(l: Log, ents: seq<Entry>)
    requires Fits(l, ents)
    ensures ents != [] ==> ents[0].index <= l.tail.offset + |l.tail.entries|
    ensures Append(l, ents).stored == l.stored != [] && Base(Append(l, ents)) == Base(l)
  {
    hide View;
  }

  /** The part of the log in front of the tail. */
  ghost function Front(l: Log): (f: seq<Entry>)
    requires Joined(l)
    ensures View(l) == f + l.tail.entries && |f| == l.tail.offset - Base(l)
  {
    View(l)[..l.tail.offset - Base(l)]
  }

  lemma AppendJoined(l: Log, ents: seq<Entry>)
    requires ValidLog(l) && Fits(l, ents) && AppendGuard(l, ents) && ents != [] && ents[0].index != 0
    ensures ValidLog(Append(l, ents)) && Base(Append(l, ents)) == Base(l) < ents[0].index
  {
    hide View;
    assert ents[0].index > l.committed;
  }

  lemma AppendBehindTail(l: Log, ents: seq<Entry>)
    requires Joined(l) && ents != [] && ents[0].index == l.tail.offset + |l.tail.entries|
    requires Joined(Append(l, ents))
    ensures View(Append(l, ents)) == View(l) + ents
  {
    Assoc(Front(l), l.tail.entries, ents);
  }

  lemma AppendInsideTail(l: Log, ents: seq<Entry>)
    requires Joined(l) && ents != []
    requires l.tail.offset < ents[0].index < l.tail.offset + |l.tail.entries|
    requires Joined(Append(l, ents))
    ensures View(Append(l, ents)) == View(l)[..ents[0].index - Base(l)] + ents
  {
    hide Contiguous, Joined;
    var f, whole, n := Front(l), l.tail.entries, ents[0].index - l.tail.offset;
    var before, after := View(l), View(Append(l, ents));
    assert before == f + whole && after == f + (whole[..n] + ents);
    hide *;
    TakeAppend(f, whole, n);
    Assoc(f, whole[..n], ents);
  }

  lemma AppendBeforeTail(l: Log, ents: seq<Entry>)
    requires Joined(l) && ents != []
    requires Base(l) < ents[0].index <= l.tail.offset && ents[0].index < l.tail.offset + |l.tail.entries|
    requires Joined(Append(l, ents))
    ensures View(Append(l, ents)) == View(l)[..ents[0].index - Base(l)] + ents
  {
    hide Contiguous;
    var k := ents[0].index - Base(l);
    DropAppend(Front(l), l.tail.entries, k);
    assert Front(l)[..k] + ents == View(Append(l, ents));
  }

  lemma AppendOverTail(l: Log, ents: seq<Entry>)
    requires Joined(l) && ents != []
    requires Base(l) < ents[0].index < l.tail.offset + |l.tail.entries|
    requires Joined(Append(l, ents))
    ensures View(Append(l, ents)) == View(l)[..ents[0].index - Base(l)] + ents
  {
    hide *;
    if ents[0].index > l.tail.offset { AppendInsideTail(l, ents); } else { AppendBeforeTail(l, ents); }
  }

  /** The log is cut before the first new index and continued with the new entries. */
  lemma AppendView(l: Log, ents: seq<Entry>)
    requires ValidLog(l) && Fits(l, ents) && AppendGuard(l, ents)
    requires ents != [] ==> ents[0].index != 0
    ensures ValidLog(Append(l, ents))
    ensures View(Append(l, ents)) == if ents == [] then View(l) else View(l)[..ents[0].index - Base(l)] + ents
  {
    hide View, TruncateAndAppend;
    if ents != [] {
      AppendJoined(l, ents);
      if ents[0].index == l.tail.offset + |l.tail.entries| {
        AppendBehindTail(l, ents);
        assert View(l)[..|View(l)|] == View(l);
      } else {
        AppendOverTail(l, ents);
      }
    }
  }

  /** No append that passes its guard changes or drops an entry at or below committed. */
  lemma AppendKeepsCommitted(l: Log, ents: seq<Entry>, i: nat)
    requires ValidLog(l) && Fits(l, ents) && AppendGuard(l, ents)
    requires ents != [] ==> ents[0].index != 0
    requires Base(l) <= i <= l.committed
    ensures var l' := Append(l, ents); Joined(l') && Base(l') == Base(l) && i <= LastOf(l') && At(l', i) == At(l, i)
  {
    hide View, Contiguous;
    if ents != [] { AppendJoined(l, ents); }
    AppendView(l, ents);
  }

  /** With a first index of 0 the guard wraps around, lets everything through, and the log is torn. */
  lemma AppendAtIndexZero(l: Log, ents: seq<Entry>)
    requires ValidLog(l) && Fits(l, ents) && ents != [] && ents[0].index == 0
    ensures AppendGuard(l, ents) && !Joined(Append(l, ents))
  {
    var v := View(l);
    assert v[|v| - 1].index == LastOf(l);
  }

  /** So append keeps the log whole exactly when the first index is not 0. */
  lemma AppendSafeExactly(l: Log, ents: seq<Entry>)
    requires ValidLog(l) && Fits(l, ents) && ents != [] && AppendGuard(l, ents)
    ensures ValidLog(Append(l, ents)) <==> ents[0].index != 0
  {
    if ents[0].index == 0 { AppendAtIndexZero(l, ents); } else { AppendView(l, ents); }
  }

  lemma AppendTearsAFreshLog()
    ensures var l := NewLog([NoEntry]); var bad := [NoEntry];
      Fits(l, bad) && AppendGuard(l, bad) && !ValidLog(Append(l, bad))
  {
  }

  // -------------------------------------------------------- acknowledgement

  function StableTo(l: Log, i: nat, t: Word): Log
    requires l.tail.entries == [] ==> l.tail.snapshot.Some? ==> l.tail.snapshot.value.metadata.index < l.tail.offset
  {
    l.(tail := StableTail(l.tail, i, t))
  }

  /** The acknowledged entry is no longer the one in the tail: overwritten, truncated away or already stable. */
  ghost predicate Stale(l: Log, i: nat, t: Word)
    requires Joined(l)
  {
    i < l.tail.offset || i > LastOf(l) || At(l, i).term != t
  }

  lemma StaleAckIsIgnored(l: Log, i: nat, t: Word)
    requires Joined(l)
    ensures Stale(l, i, t) ==> StableTo(l, i, t) == l
    ensures !Stale(l, i, t) ==> StableTo(l, i, t).tail.offset == i + 1
  {
    var v := View(l);
    if l.tail.offset <= i <= LastOf(l) { assert v[i - Base(l)] == l.tail.entries[i - l.tail.offset]; }
  }

  /** The stored entries that an acknowledgement of i uncovers are those the tail holds. */
  ghost predicate StoredAgrees(l: Log, i: nat)
    requires Joined(l) && l.tail.snapshot.None? && l.tail.offset <= i <= LastOf(l)
  {
    var first := l.stored[0].index;
    i <= LastIndex(l.stored) &&
    l.stored[l.tail.offset - first..i + 1 - first] == l.tail.entries[..i + 1 - l.tail.offset]
  }

  lemma SameMiddle(front: seq<Entry>, a: seq<Entry>, whole: seq<Entry>, rest: seq<Entry>, n: nat)
    requires |a| == n <= |whole| && rest == whole[n..]
    ensures a == whole[..n] ==> front + (a + rest) == front + whole
    ensures front + (a + rest) == front + whole ==> a == whole[..n]
  {
    if front + (a + rest) == front + whole {
      forall k | 0 <= k < n ensures a[k] == whole[k] {
        assert (front + (a + rest))[|front| + k] == (front + whole)[|front| + k];
      }
    }
  }

  /** Storage reaches the acknowledged index, and no further if the tail is then empty. */
  ghost predicate Reaches(l: Log, i: nat)
    requires Joined(l)
  {
    l.tail.snapshot.None? && i <= LastIndex(l.stored) && (i == LastOf(l) ==> LastIndex(l.stored) == i)
  }

  /** An acknowledgement leaves the two tiers joined exactly when it is stale or storage reaches it. */
  lemma AckJoinedExactly(l: Log, i: nat, t: Word)
    requires Joined(l)
    ensures Joined(StableTo(l, i, t)) <==> Stale(l, i, t) || Reaches(l, i)
    ensures !Stale(l, i, t) && Reaches(l, i) ==> LastOf(StableTo(l, i, t)) == LastOf(l)
  {
    StaleAckIsIgnored(l, i, t);
    hide View, At;
  }

  /** An acknowledgement moves the boundary: storage now speaks for the acknowledged entries. */
  lemma AckView(l: Log, i: nat, t: Word)
    requires Joined(l) && !Stale(l, i, t) && Reaches(l, i)
    ensures l.tail.offset <= i < l.tail.offset + |l.tail.entries| && Joined(StableTo(l, i, t))
    ensures View(StableTo(l, i, t)) == l.stored[..i + 1 - l.stored[0].index] + l.tail.entries[i + 1 - l.tail.offset..]
  {
    AckJoinedExactly(l, i, t);
    AckShape(l, i, t);
    hide At, Contiguous, Stale, StableTo, View;
    WithoutSnapshot(StableTo(l, i, t));
  }

  lemma AckShape(l: Log, i: nat, t: Word)
    requires Joined(l) && !Stale(l, i, t)
    ensures l.tail.offset <= i < l.tail.offset + |l.tail.entries|
    ensures var u := l.tail;
      StableTo(l, i, t) == l.(tail := Tail(u.snapshot, u.entries[i + 1 - u.offset..], i + 1))
  {
    StaleAckIsIgnored(l, i, t);
    hide View, At, Contiguous;
  }

  lemma WithoutSnapshot(l: Log)
    requires Joined(l) && l.tail.snapshot.None?
    ensures 0 <= l.tail.offset - l.stored[0].index <= |l.stored|
    ensures Front(l) == l.stored[..l.tail.offset - l.stored[0].index] && View(l) == Front(l) + l.tail.entries
  {
  }

  lemma FreshAckKeepsLogExactly(l: Log, i: nat, t: Word)
    requires Joined(l) && !Stale(l, i, t) && Reaches(l, i)
    ensures Joined(StableTo(l, i, t))
    ensures View(StableTo(l, i, t)) == View(l) <==> StoredAgrees(l, i)
  {
    hide View, At, Contiguous, StableTail;
    AckView(l, i, t);
    WithoutSnapshot(l);
    var s, off, whole, n := l.stored, l.tail.offset, l.tail.entries, i + 1 - l.tail.offset;
    var m, k, f := off - s[0].index, i + 1 - s[0].index, Front(l);
    assert StoredAgrees(l, i) <==> s[m..k] == whole[..n];
    var before, after := View(l), View(StableTo(l, i, t));
    assert f == s[..m] && before == f + whole && after == s[..k] + whole[n..];
    hide *;
    MoveBoundary(s, m, k, whole[n..]);
    SameMiddle(f, s[m..k], whole, whole[n..], n);
  }

  /**
   What an acknowledgement has to find: it is stale, or storage reaches it and holds, from the
   offset up to it, the entries of the tail.
   */
  ghost predicate AckKeeps(l: Log, i: nat, t: Word)
    requires Joined(l)
  {
    Stale(l, i, t) || (Reaches(l, i) && StoredAgrees(l, i))
  }

  /** An acknowledgement leaves one log, and the same log, exactly then. */
  lemma AckKeepsLogExactly(l: Log, i: nat, t: Word)
    requires Joined(l)
    ensures Joined(StableTo(l, i, t)) && View(StableTo(l, i, t)) == View(l) <==> AckKeeps(l, i, t)
  {
    hide View, Contiguous, StableTo, At, StoredAgrees, Joined;
    AckJoinedExactly(l, i, t);
    if Stale(l, i, t) {
      StaleAckIsIgnored(l, i, t);
    } else if Reaches(l, i) {
      FreshAckKeepsLogExactly(l, i, t);
    }
  }

  lemma SameViewValid(l: Log, l': Log)
    requires ValidLog(l) && Joined(l') && View(l') == View(l) && l'.committed == l.committed
    ensures ValidLog(l')
  {
    hide View;
    var v := View(l);
    assert v[0].index == Base(l) == Base(l');
  }

  /** As in the runs: the acknowledged entry is the last one storage has. */
  lemma AckOfLastStored(l: Log, i: nat, t: Word)
    requires Joined(l) && l.tail.snapshot.None? && (!Stale(l, i, t) ==> LastIndex(l.stored) == i)
    ensures Joined(StableTo(l, i, t)) && LastOf(StableTo(l, i, t)) == LastOf(l)
    ensures View(StableTo(l, i, t)) == View(l) <==> Stale(l, i, t) || StoredAgrees(l, i)
  {
    AckJoinedExactly(l, i, t);
    AckKeepsLogExactly(l, i, t);
    if Stale(l, i, t) { StaleAckIsIgnored(l, i, t); }
  }

  /**
   Storage still has b behind the acknowledged a, although the log ended at a: the tail becomes
   empty, and b is back in the log.
   */
  lemma AckBringsBackAnOldEntry(a: Entry, b: Entry)
    requires a.index == 1 && b.index == 2
    ensures var l := Log([NoEntry, a, b], Tail(None, [a], 1), 0, 0);
      && ValidLog(l) && LastOf(l) == 1 && !Stale(l, 1, a.term) && StoredAgrees(l, 1) && !Reaches(l, 1)
      && !Joined(StableTo(l, 1, a.term)) && LastOf(StableTo(l, 1, a.term)) == 2
  {
    var l := Log([NoEntry, a, b], Tail(None, [a], 1), 0, 0);
    assert l.stored[..1] == [NoEntry];
    assert View(l) == [NoEntry, a];
    AckJoinedExactly(l, 1, a.term);
  }

  /** Acknowledged before it was written, the entry is in neither tier. */
  lemma AckBeforeWriteLosesTheEntry(a: Entry)
    requires a.index == 1
    ensures var l := Log([NoEntry], Tail(None, [a], 1), 0, 0);
      && ValidLog(l) && LastOf(l) == 1 && !Stale(l, 1, a.term)
      && !Joined(StableTo(l, 1, a.term)) && LastOf(StableTo(l, 1, a.term)) == 0
  {
    var l := Log([NoEntry], Tail(None, [a], 1), 0, 0);
    assert View(l) == [NoEntry, a];
    AckJoinedExactly(l, 1, a.term);
  }

  // -------------------------------------------------------------- reading it

  /** The entries of the log from lo up to, but not including, hi. */
  ghost function Range(l: Log, lo: int, hi: int): (r: seq<Entry>)
    requires Joined(l) && Base(l) <= lo <= hi <= LastOf(l) + 1
    ensures |r| == hi - lo
  {
    View(l)[lo - Base(l)..hi - Base(l)]
  }

  lemma RangeSplits(l: Log, lo: int, cut: int, hi: int)
    requires Joined(l) && Base(l) <= lo <= cut <= hi <= LastOf(l) + 1
    ensures Range(l, lo, cut) + Range(l, cut, hi) == Range(l, lo, hi)
  {
    hide View;
  }

  function TermOf(l: Log, i: nat): Result<Word, StorageError>
    requires Joined(l)
  {
    if i < FirstIndex(l) - 1 || i > LastOf(l) then Ok(0)
    else match MaybeTerm(l.tail, i)
      case Some(t) => Ok(t)
      case None => StTerm(l.stored, i)
  }

  /** term agrees with the log, dummy index included, and never fails. */
  lemma TermAgrees(l: Log, i: nat)
    requires Joined(l)
    ensures TermOf(l, i) == Ok(if Base(l) <= i <= LastOf(l) then At(l, i).term else 0)
  {
    var v := View(l);
    if l.tail.offset <= i <= LastOf(l) { assert v[i - Base(l)] == l.tail.entries[i - l.tail.offset]; }
  }

  /** Inside the log, the term comes from the tail if it knows one, and otherwise storage has it. */
  lemma TermInside(l: Log, i: nat)
    requires Joined(l) && FirstIndex(l) - 1 <= i <= LastOf(l)
    ensures match MaybeTerm(l.tail, i)
            case Some(t) => TermOf(l, i) == Ok(t)
            case None => Askable(l.stored, i) && TermOf(l, i) == StTerm(l.stored, i)
  {
    hide View;
  }

  function SliceOf(l: Log, lo: nat, hi: nat, maxSize: nat): Result<seq<Entry>, StorageError>
    requires Joined(l) && lo <= hi && (FirstIndex(l) <= lo ==> hi <= LastOf(l) + 1)
  {
    if lo < FirstIndex(l) then Err(Compacted)
    else if lo == hi then Ok([])
    else
      var cut, tailPart := Min(hi, l.tail.offset), TailOf(l, lo, hi);
      if lo < l.tail.offset then
        match StEntries(l.stored, lo, cut, maxSize)
        case Err(e) => Err(e)
        case Ok(storedEnts) =>
          if |storedEnts| < cut - lo then Ok(storedEnts) else Ok(LimitSize(storedEnts + tailPart, maxSize))
      else Ok(LimitSize(tailPart, maxSize))
  }

  /** The part of a range that the tail holds. */
  function TailOf(l: Log, lo: nat, hi: nat): seq<Entry>
    requires lo <= hi <= l.tail.offset + |l.tail.entries| || hi <= l.tail.offset
  {
    if hi > l.tail.offset
    then l.tail.entries[Max(lo, l.tail.offset) - l.tail.offset..hi - l.tail.offset] else []
  }

  lemma SliceInTail(l: Log, lo: nat, hi: nat)
    requires Joined(l) && FirstIndex(l) <= lo <= hi <= LastOf(l) + 1 && l.tail.offset <= lo
    ensures l.tail.entries[lo - l.tail.offset..hi - l.tail.offset] == Range(l, lo, hi)
  {
    hide View, Contiguous;
    SliceBehind(Front(l), l.tail.entries, lo - l.tail.offset, hi - l.tail.offset);
  }

  lemma SliceInStored(l: Log, lo: nat, hi: nat)
    requires Joined(l) && FirstIndex(l) <= lo <= hi <= l.tail.offset && lo < l.tail.offset
    ensures l.tail.snapshot.None? && hi <= LastIndex(l.stored) + 1
    ensures l.stored[lo - l.stored[0].index..hi - l.stored[0].index] == Range(l, lo, hi)
  {
    hide Contiguous;
    var first := l.stored[0].index;
    SliceBefore(l.stored, l.tail.offset - first, l.tail.entries, lo - first, hi - first);
  }

  /** A range whose stored part, if any, was not cut short. */
  lemma SliceWhole(l: Log, lo: nat, hi: nat, maxSize: nat, stored: seq<Entry>)
    requires Joined(l) && FirstIndex(l) <= lo < hi <= LastOf(l) + 1
    requires if lo < l.tail.offset
             then Ok(stored) == StEntries(l.stored, lo, Min(hi, l.tail.offset), maxSize)
                  && |stored| >= Min(hi, l.tail.offset) - lo
             else stored == []
    ensures SliceOf(l, lo, hi, maxSize) == Ok(LimitSize(stored + TailOf(l, lo, hi), maxSize))
  {
    hide View, LimitSize, StEntries, TailOf;
    if lo >= l.tail.offset { assert [] + TailOf(l, lo, hi) == TailOf(l, lo, hi); }
  }

  lemma StoredPart(l: Log, lo: nat, cut: nat, maxSize: nat)
    requires Joined(l) && FirstIndex(l) <= lo < cut <= l.tail.offset
    ensures l.tail.snapshot.None? && Readable(l.stored, lo, cut)
    ensures StEntries(l.stored, lo, cut, maxSize) == Ok(LimitSize(Range(l, lo, cut), maxSize))
  {
    hide LimitSize, Range, Contiguous;
    SliceInStored(l, lo, cut);
  }

  /** Limiting a first part and, only if it stays whole, the whole: the same as limiting the whole. */
  lemma LimitInParts(a: seq<Entry>, b: seq<Entry>, maxSize: nat)
    ensures var r := LimitSize(a, maxSize);
      LimitSize(a + b, maxSize) == if |r| < |a| then r else LimitSize(r + b, maxSize)
  {
    if |LimitSize(a, maxSize)| < |a| { LimitOfPrefix(a, b, maxSize); } else { assert LimitSize(a, maxSize) == a; }
  }

  lemma SliceShort(l: Log, lo: nat, hi: nat, maxSize: nat, stored: seq<Entry>)
    requires Joined(l) && FirstIndex(l) <= lo < hi <= LastOf(l) + 1 && lo < l.tail.offset
    requires Ok(stored) == StEntries(l.stored, lo, Min(hi, l.tail.offset), maxSize)
    requires |stored| < Min(hi, l.tail.offset) - lo
    ensures SliceOf(l, lo, hi, maxSize) == Ok(stored)
  {
    hide View, LimitSize, StEntries, TailOf;
  }

  lemma TailBehind(l: Log, lo: nat, hi: nat)
    requires Joined(l) && FirstIndex(l) <= lo <= hi <= LastOf(l) + 1 && lo <= l.tail.offset
    ensures TailOf(l, lo, hi) == Range(l, Min(hi, l.tail.offset), hi)
  {
    hide Range;
    if hi > l.tail.offset { SliceInTail(l, l.tail.offset, hi); }
  }

  lemma SliceAcross(l: Log, lo: nat, hi: nat, maxSize: nat)
    requires Joined(l) && FirstIndex(l) <= lo < hi <= LastOf(l) + 1 && lo < l.tail.offset
    ensures SliceOf(l, lo, hi, maxSize) == Ok(LimitSize(Range(l, lo, hi), maxSize))
  {
    var cut := Min(hi, l.tail.offset);
    assert Base(l) <= lo < cut <= hi;
    hide *;
    StoredPart(l, lo, cut, maxSize);
    TailBehind(l, lo, hi);
    RangeSplits(l, lo, cut, hi);
    var r := LimitSize(Range(l, lo, cut), maxSize);
    LimitInParts(Range(l, lo, cut), Range(l, cut, hi), maxSize);
    if |r| < cut - lo {
      SliceShort(l, lo, hi, maxSize, r);
    } else {
      SliceWhole(l, lo, hi, maxSize, r);
    }
  }

  /** slice returns exactly limitSize of the requested range of the log, however the tiers divide it. */
  lemma SliceAgrees(l: Log, lo: nat, hi: nat, maxSize: nat)
    requires Joined(l) && FirstIndex(l) <= lo <= hi <= LastOf(l) + 1
    ensures SliceOf(l, lo, hi, maxSize) == Ok(LimitSize(Range(l, lo, hi), maxSize))
  {
    hide Range, Contiguous, StEntries;
    if lo == hi {
      assert Range(l, lo, hi) == [];
    } else if lo < l.tail.offset {
      SliceAcross(l, lo, hi, maxSize);
    } else {
      SliceInTail(l, lo, hi);
    }
  }

  /** Where nextEnts starts. Both additions wrap around. */
  function NextFrom(l: Log): nat
    requires l.stored != []
  {
    Max(Wrap(l.applied + 1), Wrap(FirstIndex(l)))
  }

  function HasNextEnts(l: Log): bool
    requires l.stored != []
  {
    Wrap(l.committed + 1) > NextFrom(l)
  }

  /** The last index of a log is that of an entry, so it is a uint64, and so is the commit index. */
  lemma CommittedIsWord(l: Log)
    requires ValidLog(l)
    ensures l.committed <= LastOf(l) < U64 && Base(l) < U64
  {
    var v := View(l);
    assert v[|v| - 1].index == LastOf(l);
  }

  /** If anything is next, nothing has wrapped around except perhaps applied + 1. */
  lemma NextInRange(l: Log)
    requires ValidLog(l) && HasNextEnts(l)
    ensures l.committed + 1 < U64 && FirstIndex(l) <= NextFrom(l) <= l.committed <= LastOf(l)
  {
    CommittedIsWord(l);
    hide View, Joined, Wrap;
    WrapUp(l.committed);
    WrapUp(FirstIndex(l) - 1);
  }

  function NextEnts(l: Log, maxSize: nat): Result<seq<Entry>, StorageError>
    requires ValidLog(l)
  {
    if HasNextEnts(l) then
      NextInRange(l);
      SliceOf(l, NextFrom(l), Wrap(l.committed + 1), maxSize)
    else Ok([])
  }

  /** The committed entries that are not applied yet. */
  ghost function Pending(l: Log): (es: seq<Entry>)
    requires ValidLog(l) && HasNextEnts(l)
    ensures FirstIndex(l) <= NextFrom(l) <= l.committed <= LastOf(l)
    ensures es == Range(l, NextFrom(l), l.committed + 1) && es != []
  {
    NextInRange(l);
    Range(l, NextFrom(l), l.committed + 1)
  }

  lemma NextIsSlice(l: Log, maxSize: nat, lo: nat, hi: nat)
    requires ValidLog(l) && HasNextEnts(l) && lo == NextFrom(l) && hi == l.committed + 1
    ensures Joined(l) && FirstIndex(l) <= lo < hi <= LastOf(l) + 1
    ensures NextEnts(l, maxSize) == SliceOf(l, lo, hi, maxSize)
  {
    NextInRange(l);
    WrapUp(l.committed);
    hide View, SliceOf, NextFrom, Joined, FirstIndex, LastOf, Base, Wrap;
  }

  lemma SliceIsLimit(l: Log, lo: nat, hi: nat, maxSize: nat, r: Result<seq<Entry>, StorageError>, es: seq<Entry>)
    requires Joined(l) && FirstIndex(l) <= lo <= hi <= LastOf(l) + 1
    requires r == SliceOf(l, lo, hi, maxSize) && es == Range(l, lo, hi)
    ensures r == Ok(LimitSize(es, maxSize))
  {
    hide *;
    SliceAgrees(l, lo, hi, maxSize);
  }

  lemma NextEntsAgrees(l: Log, maxSize: nat)
    requires ValidLog(l) && HasNextEnts(l)
    ensures NextEnts(l, maxSize) == Ok(LimitSize(Pending(l), maxSize))
  {
    assert l.stored != [];
    hide *;
    var lo, hi, es := NextFrom(l), l.committed + 1, Pending(l);
    NextIsSlice(l, maxSize, lo, hi);
    SliceIsLimit(l, lo, hi, maxSize, NextEnts(l, maxSize), es);
  }

  lemma RangeContiguous(l: Log, lo: nat, hi: nat, es: seq<Entry>)
    requires Joined(l) && Base(l) <= lo <= hi <= LastOf(l) + 1 && es <= Range(l, lo, hi)
    ensures Contiguous(es, lo)
  {
    var v := View(l);
    hide View;
    forall i | 0 <= i < |es| ensures es[i].index == lo + i {
      assert es[i] == v[lo - Base(l) + i];
    }
  }

  /**
   hasNextEnts is exact: whatever the size limit, even 0, nextEnts is then a non-empty contiguous
   run from NextFrom, within committed; otherwise it is empty.
   */
  lemma HasNextEntsExactly(l: Log, maxSize: nat)
    requires ValidLog(l)
    ensures NextEnts(l, maxSize).Ok?
    ensures var es := NextEnts(l, maxSize).value;
      && (HasNextEnts(l) <==> es != [])
      && (es != [] ==> Contiguous(es, NextFrom(l)) && es <= Pending(l))
  {
    assert l.stored != [];
    hide LimitSize, Range, SliceOf, NextFrom, Contiguous, Joined;
    if HasNextEnts(l) {
      NextEntsAgrees(l, maxSize);
      RangeContiguous(l, NextFrom(l), l.committed + 1, LimitSize(Pending(l), maxSize));
    }
  }

  /**
   A committed entry that is not yet applied is next exactly as long as the commit index is not the
   last uint64: max(applied + 1, firstIndex) is then where nextEnts starts.
   */
  lemma NextIsIntendedExactly(l: Log)
    requires ValidLog(l) && l.applied <= l.committed
    ensures HasNextEnts(l) <==> Max(l.applied + 1, FirstIndex(l)) <= l.committed && l.committed != U64 - 1
    ensures HasNextEnts(l) ==> NextFrom(l) == Max(l.applied + 1, FirstIndex(l))
  {
    CommittedIsWord(l);
    hide View, Joined, Wrap;
    WrapUp(l.committed);
    WrapUp(l.applied);
    WrapUp(FirstIndex(l) - 1);
  }

  /** At the last index there is, a committed entry that is not applied is never next. */
  lemma LastEntryIsNeverNext(e: Entry)
    requires e.index == U64 - 1
    ensures var l := Append(NewLog([Dummy(U64 - 2, 1)]), [e]).(committed := U64 - 1);
      ValidLog(l) && l.applied + 1 == l.committed == LastOf(l) && !HasNextEnts(l)
  {
    var l := Append(NewLog([Dummy(U64 - 2, 1)]), [e]).(committed := U64 - 1);
    assert l == Log([Dummy(U64 - 2, 1)], Tail(None, [e], U64 - 1), U64 - 1, U64 - 2);
    NextIsIntendedExactly(l);
  }

  lemma WrapUp(x: nat)
    requires x < U64
    ensures Wrap(x + 1) == if x == U64 - 1 then 0 else x + 1
  {
  }
}
