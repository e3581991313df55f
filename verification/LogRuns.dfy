/**
 Runs of the two-tier log. Appends interleave with the persistence of one outstanding batch (taken
 from the tail, written to storage, acknowledged by the index and term of its last entry), with
 commits and with compaction.
 */
module LogRuns {
  import opened Prelude
  import opened RaftPb
  import opened Storage
  import opened RaftLog

  /** The outstanding batch, and the log as it was when the batch was taken. */
  datatype Batch = Batch(ents: seq<Entry>, written: bool, view: seq<Entry>)

  datatype State = State(log: Log, pending: Option<Batch>)

  datatype Op = Extend(ents: seq<Entry>) | Take | Write | Ack | Trim(at: nat) | Advance(at: nat)

  function Last(es: seq<Entry>): Entry
    requires es != []
  {
    es[|es| - 1]
  }

  /** When the code does not panic, and the environment plays by the rules. */
  ghost predicate Enabled(s: State, op: Op) {
    ValidLog(s.log) && s.log.tail.snapshot.None? &&
    match op
    case Extend(ents) => Fits(s.log, ents) && AppendGuard(s.log, ents) && (ents != [] ==> ents[0].index != 0)
    case Take => s.pending.None? && s.log.tail.entries != []
    case Write => s.pending.Some? && !s.pending.value.written
    case Ack => s.pending.Some? && s.pending.value.written && s.pending.value.ents != []
    case Trim(i) => i <= s.log.committed && i < s.log.tail.offset
    case Advance(i) => s.log.committed <= i <= LastOf(s.log)
  }

  // ------------------------------------------------------------- invariants

  predicate Covers(v: seq<Entry>, i: int) {
    v != [] && v[0].index < i <= LastIndex(v)
  }

  function Get(v: seq<Entry>, i: int): Entry
    requires Covers(v, i)
  {
    v[i - v[0].index]
  }

  /** Log Matching, section 5.3 of the Raft paper: same index and term, same log up to there. */
  ghost predicate LogMatching(v: seq<Entry>, w: seq<Entry>) {
    forall i, j | Covers(v, i) && Covers(w, i) && Covers(v, j) && Covers(w, j) && j <= i ::
      Get(v, i).term == Get(w, i).term ==> Get(v, j) == Get(w, j)
  }

  /** Storage holds every entry of v below index end that it has not compacted away. */
  ghost predicate Holds(stored: seq<Entry>, v: seq<Entry>, end: nat) {
    forall i | Covers(stored, i) && i < end :: Covers(v, i) && Get(stored, i) == Get(v, i)
  }

  /** The batch is the end of the log it was taken from. */
  ghost predicate EndOf(b: Batch) {
    && ValidEnts(b.view) && b.ents != [] && Contiguous(b.ents, b.ents[0].index)
    && b.view[0].index < b.ents[0].index && LastIndex(b.view) == Last(b.ents).index
    && forall i | b.ents[0].index <= i <= Last(b.ents).index :: Get(b.view, i) == b.ents[i - b.ents[0].index]
  }

  /** Storage holds the batch's log: up to the batch before it is written, all of it afterwards. */
  ghost predicate Tracks(l: Log, b: Batch) {
    && Joined(l) && l.tail.entries != [] && EndOf(b) && l.tail.offset <= b.ents[0].index
    && if b.written then LastIndex(l.stored) == Last(b.ents).index && Holds(l.stored, b.view, Last(b.ents).index + 1)
       else LastIndex(l.stored) + 1 >= b.ents[0].index && Holds(l.stored, b.view, b.ents[0].index)
  }

  ghost predicate Inv(s: State) {
    && ValidLog(s.log) && s.log.tail.snapshot.None?
    && (s.pending.Some? ==> Tracks(s.log, s.pending.value))
  }

  /** MemoryStorage.Append never finds a gap before a batch, whatever has happened since it was taken. */
  lemma BatchCanBeWritten(s: State)
    requires Inv(s) && s.pending.Some? && !s.pending.value.written
    ensures Appendable(s.log.stored, s.pending.value.ents)
  {
  }

  ghost function Next(s: State, op: Op): State
    requires Inv(s) && Enabled(s, op)
  {
    match op
    case Extend(ents) => s.(log := Append(s.log, ents))
    case Take => s.(pending := Some(Batch(s.log.tail.entries, false, View(s.log))))
    case Write =>
      BatchCanBeWritten(s);
      s.(log := s.log.(stored := StAppend(s.log.stored, s.pending.value.ents)),
         pending := Some(s.pending.value.(written := true)))
    case Ack =>
      var e := Last(s.pending.value.ents);
      State(StableTo(s.log, e.index, e.term), None)
    case Trim(i) =>
      (match StCompact(s.log.stored, i)
       case Ok(es) => s.(log := s.log.(stored := es))
       case Err(_) => s)
    case Advance(i) => s.(log := s.log.(committed := i))
  }

  /** What Log Matching says about a step: the log a batch was taken from and the current one match. */
  ghost predicate Matches(s: State, op: Op)
    requires Inv(s)
  {
    op.Ack? && s.pending.Some? ==> LogMatching(s.pending.value.view, View(s.log))
  }

  /** l' is the same log as l, except that up to its base it may have forgotten all but the last term. */
  ghost predicate SameLog(l: Log, l': Log)
    requires Joined(l) && Joined(l')
  {
    && Base(l) <= Base(l') && LastOf(l') == LastOf(l)
    && Base(l') <= LastOf(l) && At(l', Base(l')).term == At(l, Base(l')).term
    && forall i | Base(l') < i <= LastOf(l) :: At(l', i) == At(l, i)
  }

  // ------------------------------------------------------------------ steps

  lemma TakeStep(s: State)
    requires Inv(s) && Enabled(s, Take)
    ensures Inv(Next(s, Take)) && SameLog(s.log, Next(s, Take).log)
  {
    var l, b := s.log, Next(s, Take).pending.value;
    forall i | Covers(l.stored, i) && i < b.ents[0].index
      ensures Covers(b.view, i) && Get(l.stored, i) == Get(b.view, i)
    {
    }
  }

  lemma AppendStep(s: State, ents: seq<Entry>)
    requires Inv(s) && Enabled(s, Extend(ents))
    ensures Inv(Next(s, Extend(ents)))
  {
    hide View, EndOf, Holds;
    if ents != [] { AppendJoined(s.log, ents); }
  }

  /** Once a batch is written, storage holds the log it was taken from to the end. */
  lemma WriteHolds(stored: seq<Entry>, b: Batch)
    requires EndOf(b) && Appendable(stored, b.ents) && stored[0].index < b.ents[0].index
    requires Holds(stored, b.view, b.ents[0].index)
    ensures var stored' := StAppend(stored, b.ents);
      && stored' == stored[..b.ents[0].index - stored[0].index] + b.ents
      && LastIndex(stored') == Last(b.ents).index && Holds(stored', b.view, Last(b.ents).index + 1)
    ensures EndOf(b.(written := true))
  {
    var k := b.ents[0].index - stored[0].index;
    var stored' := stored[..k] + b.ents;
    assert StAppend(stored, b.ents) == stored';
    forall i | Covers(stored', i) ensures Covers(b.view, i) && Get(stored', i) == Get(b.view, i) {
      if i < b.ents[0].index {
        assert Covers(stored, i) && Get(stored, i) == Get(b.view, i);
      } else {
        assert Get(b.view, i) == b.ents[i - b.ents[0].index];
      }
    }
  }

  /** What lies before the tail's offset is not touched by new entries behind it. */
  lemma WriteView(l: Log, stored': seq<Entry>, k: nat)
    requires Joined(l) && l.tail.snapshot.None? && l.tail.entries != [] && ValidEnts(stored')
    requires l.tail.offset - l.stored[0].index <= k <= |l.stored| && k <= |stored'| && stored'[..k] == l.stored[..k]
    ensures Joined(l.(stored := stored')) && View(l.(stored := stored')) == View(l)
  {
    var n := l.tail.offset - l.stored[0].index;
    assert l.stored[..n] == l.stored[..k][..n] && stored'[..n] == stored'[..k][..n];
    assert l.stored[0] == l.stored[..k][0] && stored'[0] == stored'[..k][0];
  }

  /** Writing a batch never shows through the tail, however the log has changed since it was taken. */
  lemma WriteStep(s: State)
    requires Inv(s) && Enabled(s, Write)
    ensures Inv(Next(s, Write)) && View(Next(s, Write).log) == View(s.log)
  {
    hide View, Holds, EndOf, StAppend;
    BatchCanBeWritten(s);
    var l, b := s.log, s.pending.value;
    BatchShape(s);
    WriteHolds(l.stored, b);
    var k := b.ents[0].index - l.stored[0].index;
    TakeDrop(l.stored[..k], b.ents);
    WriteView(l, StAppend(l.stored, b.ents), k);
  }

  lemma BatchShape(s: State)
    requires Inv(s) && s.pending.Some?
    ensures var b := s.pending.value; EndOf(b) && b.ents != [] && s.log.tail.offset <= b.ents[0].index
  {
  }

  lemma TrimHolds(stored: seq<Entry>, i: nat, v: seq<Entry>, end: nat)
    requires ValidEnts(stored) && stored[0].index < i <= LastIndex(stored) && Holds(stored, v, end)
    ensures Holds(StCompact(stored, i).value, v, end)
  {
    var stored' := StCompact(stored, i).value;
    assert forall j | Covers(stored', j) :: Covers(stored, j) && Get(stored', j) == Get(stored, j);
  }

  lemma TrimView(l: Log, i: nat)
    requires Joined(l) && l.tail.snapshot.None? && l.stored[0].index < i < l.tail.offset
    ensures StCompact(l.stored, i).Ok?
    ensures var l' := l.(stored := StCompact(l.stored, i).value); var k := i - l.stored[0].index;
      Joined(l') && Base(l') == i && View(l') == [Dummy(i, View(l)[k].term)] + View(l)[k + 1..]
  {
    var k, n := i - l.stored[0].index, l.tail.offset - l.stored[0].index;
    var stored' := StCompact(l.stored, i).value;
    assert stored'[..n - k] == [stored'[0]] + l.stored[..n][k + 1..];
    assert View(l)[k + 1..] == l.stored[..n][k + 1..] + l.tail.entries;
  }

  lemma TrimmedViewIsSameLog(l: Log, l': Log, k: nat, d: Entry)
    requires Joined(l) && Joined(l') && k < |View(l)| && Base(l') == Base(l) + k && d.term == View(l)[k].term
    requires View(l') == [d] + View(l)[k + 1..]
    ensures SameLog(l, l')
  {
    hide View, Joined, Contiguous;
    ViewBounds(l);
    ViewBounds(l');
  }

  lemma ViewBounds(l: Log)
    requires Joined(l)
    ensures l.stored != [] && |View(l)| == LastOf(l) - Base(l) + 1
  {
  }

  lemma TrimStep(s: State, i: nat)
    requires Inv(s) && Enabled(s, Trim(i))
    ensures Inv(Next(s, Trim(i))) && SameLog(s.log, Next(s, Trim(i)).log)
    ensures Base(Next(s, Trim(i)).log) == Max(Base(s.log), i)
  {
    hide View, Holds, EndOf, Contiguous;
    var l, l' := s.log, Next(s, Trim(i)).log;
    if i > l.stored[0].index {
      TrimView(l, i);
      ViewBounds(l);
      var k := i - l.stored[0].index;
      TrimmedViewIsSameLog(l, l', k, Dummy(i, View(l)[k].term));
      if s.pending.Some? {
        var b := s.pending.value;
        BatchShape(s);
        TrimHolds(l.stored, i, b.view, if b.written then Last(b.ents).index + 1 else b.ents[0].index);
      }
    } else {
      SameViewSameLog(l, l');
    }
  }

  /** Under Log Matching, whatever an acknowledgement uncovers in storage is what the tail holds. */
  lemma MatchingBatchAgrees(s: State)
    requires Inv(s) && Enabled(s, Ack) && Matches(s, Ack)
    requires var e := Last(s.pending.value.ents); !Stale(s.log, e.index, e.term)
    ensures var e := Last(s.pending.value.ents);
      LastIndex(s.log.stored) == e.index && StoredAgrees(s.log, e.index)
  {
    var l, e := s.log, Last(s.pending.value.ents);
    var first, off := l.stored[0].index, l.tail.offset;
    var theirs := l.stored[off - first..e.index + 1 - first];
    forall k | 0 <= k < |theirs| ensures theirs[k] == l.tail.entries[k] {
      MatchingAt(s, k);
    }
  }

  lemma MatchingAt(s: State, k: nat)
    requires Inv(s) && Enabled(s, Ack) && Matches(s, Ack)
    requires var e := Last(s.pending.value.ents); !Stale(s.log, e.index, e.term) && s.log.tail.offset + k <= e.index
    ensures k < |s.log.tail.entries| && s.log.tail.offset + k - s.log.stored[0].index < |s.log.stored|
    ensures s.log.stored[s.log.tail.offset + k - s.log.stored[0].index] == s.log.tail.entries[k]
  {
    var l, b := s.log, s.pending.value;
    var v, e, i := View(l), Last(b.ents), l.tail.offset + k;
    TailInView(l, k);
    TailInView(l, e.index - l.tail.offset);
    hide View, Contiguous;
    assert Covers(l.stored, i) && Get(l.stored, i) == Get(b.view, i);
    assert Get(b.view, e.index) == e;
  }

  /** The tail's entries are those of the log from the offset on. */
  lemma TailInView(l: Log, k: nat)
    requires Joined(l) && k < |l.tail.entries|
    ensures Covers(View(l), l.tail.offset + k) && Get(View(l), l.tail.offset + k) == l.tail.entries[k]
    ensures Base(l) <= l.tail.offset + k <= LastOf(l) && At(l, l.tail.offset + k) == l.tail.entries[k]
  {
  }

  /** An acknowledgement keeps the log whole; with Log Matching it does not change it at all. */
  lemma AckStep(s: State)
    requires Inv(s) && Enabled(s, Ack)
    ensures Inv(Next(s, Ack))
    ensures Matches(s, Ack) ==> View(Next(s, Ack).log) == View(s.log)
  {
    var l, e := s.log, Last(s.pending.value.ents);
    hide View, StableTo, StoredAgrees, Holds;
    AckOfLastStored(l, e.index, e.term);
    if !Stale(l, e.index, e.term) && Matches(s, Ack) { MatchingBatchAgrees(s); }
  }

  lemma AdvanceStep(s: State, i: nat)
    requires Inv(s) && Enabled(s, Advance(i))
    ensures Inv(Next(s, Advance(i))) && View(Next(s, Advance(i)).log) == View(s.log)
    ensures Next(s, Advance(i)).log.committed == i
  {
  }

  // ------------------------------------------------------------------- runs

  /** Every step keeps the two tiers one contiguous log. */
  lemma StepKeepsInv(s: State, op: Op)
    requires Inv(s) && Enabled(s, op)
    ensures Inv(Next(s, op))
  {
    hide View, Tracks, StAppend, StableTo, StCompact, Append;
    match op
    case Extend(ents) => AppendStep(s, ents);
    case Take => TakeStep(s);
    case Write => WriteStep(s);
    case Ack => AckStep(s);
    case Trim(i) => TrimStep(s, i);
    case Advance(i) => AdvanceStep(s, i);
  }

  lemma SameViewSameLog(l: Log, l': Log)
    requires Joined(l) && Joined(l') && View(l) == View(l')
    ensures SameLog(l, l')
  {
  }

  /** Only an append changes the log; persistence, acknowledgement and commits never do. */
  lemma StepKeepsLog(s: State, op: Op)
    requires Inv(s) && Enabled(s, op) && Matches(s, op) && !op.Extend?
    ensures Inv(Next(s, op)) && SameLog(s.log, Next(s, op).log)
  {
    hide View, Tracks, StAppend, StableTo, StCompact, SameLog;
    StepKeepsInv(s, op);
    match op
    case Take => TakeStep(s);
    case Write => WriteStep(s); SameViewSameLog(s.log, Next(s, op).log);
    case Ack => AckStep(s); SameViewSameLog(s.log, Next(s, op).log);
    case Trim(i) => TrimStep(s, i);
    case Advance(i) => AdvanceStep(s, i); SameViewSameLog(s.log, Next(s, op).log);
  }

  /** l' still has everything that l had committed, apart from what was compacted away. */
  ghost predicate KeepsCommitted(l: Log, l': Log)
    requires ValidLog(l) && ValidLog(l')
  {
    && Base(l) <= Base(l') && l.committed <= l'.committed
    && forall i | Base(l') < i <= l.committed :: At(l', i) == At(l, i)
  }

  lemma StepKeepsCommitted(s: State, op: Op)
    requires Inv(s) && Enabled(s, op) && Matches(s, op)
    ensures Inv(Next(s, op)) && KeepsCommitted(s.log, Next(s, op).log)
  {
    StepKeepsInv(s, op);
    hide View, Tracks, StAppend, StableTo, StCompact, Append;
    var l, l' := s.log, Next(s, op).log;
    match op
    case Extend(ents) =>
      if ents != [] { AppendJoined(l, ents); }
      forall i | Base(l') < i <= l.committed ensures At(l', i) == At(l, i) {
        AppendKeepsCommitted(l, ents, i);
      }
    case _ =>
      StepKeepsLog(s, op);
  }

  /** Every operation of the run is enabled when its turn comes. */
  ghost predicate LegalRun(s: State, ops: seq<Op>)
    requires Inv(s)
    decreases |ops|
  {
    ops == [] ||
    (Enabled(s, ops[0]) && (StepKeepsInv(s, ops[0]); LegalRun(Next(s, ops[0]), ops[1..])))
  }

  ghost function RunOf(s: State, ops: seq<Op>): State
    requires Inv(s) && LegalRun(s, ops)
    decreases |ops|
  {
    if ops == [] then s else (StepKeepsInv(s, ops[0]); RunOf(Next(s, ops[0]), ops[1..]))
  }

  /** Log Matching holds at every acknowledgement of the run. */
  ghost predicate MatchingRun(s: State, ops: seq<Op>)
    requires Inv(s) && LegalRun(s, ops)
    decreases |ops|
  {
    ops == [] ||
    (Matches(s, ops[0]) && (StepKeepsInv(s, ops[0]); MatchingRun(Next(s, ops[0]), ops[1..])))
  }

  /**
   Storage and tail stay one contiguous log with firstIndex - 1 <= committed <= lastIndex over any
   run, Log Matching or not.
   */
  lemma {:induction false} RunKeepsInv(s: State, ops: seq<Op>)
    requires Inv(s) && LegalRun(s, ops)
    ensures Inv(RunOf(s, ops))
    decreases |ops|
  {
    if ops != [] {
      StepKeepsInv(s, ops[0]);
      hide Inv, Enabled, Next;
      RunKeepsInv(Next(s, ops[0]), ops[1..]);
    }
  }

  lemma KeepsCommittedTransitive(a: Log, b: Log, c: Log)
    requires ValidLog(a) && ValidLog(b) && ValidLog(c) && KeepsCommitted(a, b) && KeepsCommitted(b, c)
    ensures KeepsCommitted(a, c)
  {
    hide View, Joined;
  }

  /**
   Over any run under Log Matching, no entry that was ever committed changes or disappears other
   than by compaction.
   */
  lemma {:induction false} RunKeepsCommitted(s: State, ops: seq<Op>)
    requires Inv(s) && LegalRun(s, ops) && MatchingRun(s, ops)
    ensures Inv(RunOf(s, ops)) && KeepsCommitted(s.log, RunOf(s, ops).log)
    decreases |ops|
  {
    hide View, KeepsCommitted, Enabled, Matches;
    if ops == [] {
      SameCommitted(s.log);
    } else {
      var s' := Next(s, ops[0]);
      StepKeepsCommitted(s, ops[0]);
      RunKeepsCommitted(s', ops[1..]);
      KeepsCommittedTransitive(s.log, s'.log, RunOf(s, ops).log);
    }
  }

  lemma SameCommitted(l: Log)
    requires ValidLog(l)
    ensures KeepsCommitted(l, l)
  {
  }

  lemma SameLogTransitive(a: Log, b: Log, c: Log)
    requires Joined(a) && Joined(b) && Joined(c) && SameLog(a, b) && SameLog(b, c)
    ensures SameLog(a, c)
  {
    hide View, Joined;
  }

  /** A run without appends, however persistence, acknowledgement and compaction interleave, shows one log. */
  lemma {:induction false} PersistenceIsInvisible(s: State, ops: seq<Op>)
    requires Inv(s) && LegalRun(s, ops) && MatchingRun(s, ops) && (forall i | 0 <= i < |ops| :: !ops[i].Extend?)
    ensures Inv(RunOf(s, ops)) && SameLog(s.log, RunOf(s, ops).log)
    decreases |ops|
  {
    hide View, SameLog, Enabled, Matches;
    if ops == [] {
      SameViewSameLog(s.log, s.log);
    } else {
      var s' := Next(s, ops[0]);
      StepKeepsLog(s, ops[0]);
      PersistenceIsInvisible(s', ops[1..]);
      SameLogTransitive(s.log, s'.log, RunOf(s, ops).log);
    }
  }

  // ---------------------------------------------------------- the ideal log

  /** A log without tiers: cut before the first new index and continue with the new entries. */
  function Extended(v: seq<Entry>, ents: seq<Entry>): (r: seq<Entry>)
    requires v != []
    ensures r != []
  {
    if ents == [] || !(v[0].index <= ents[0].index <= LastIndex(v) + 1) then v
    else v[..ents[0].index - v[0].index] + ents
  }

  /** Only the appends of a run count; persistence, acknowledgement, commits and compaction do not. */
  function Ideal(v: seq<Entry>, ops: seq<Op>): seq<Entry>
    requires v != []
    decreases |ops|
  {
    if ops == [] then v
    else Ideal(if ops[0].Extend? then Extended(v, ops[0].ents) else v, ops[1..])
  }

  /** w is v, apart from entries up to its own base, of which the last term is kept. */
  ghost predicate EndsLike(w: seq<Entry>, v: seq<Entry>) {
    && ValidEnts(w) && ValidEnts(v) && v[0].index <= w[0].index && LastIndex(v) == LastIndex(w)
    && v[w[0].index - v[0].index].term == w[0].term
    && w[1..] == v[w[0].index - v[0].index + 1..]
  }

  lemma BothExtended(w: seq<Entry>, v: seq<Entry>, ents: seq<Entry>)
    requires EndsLike(w, v) && ents != [] && Contiguous(ents, ents[0].index)
    requires w[0].index < ents[0].index <= LastIndex(w) + 1
    ensures EndsLike(Extended(w, ents), Extended(v, ents))
  {
    ExtendedContiguous(w, ents);
    ExtendedContiguous(v, ents);
    var k, d := ents[0].index - w[0].index, w[0].index - v[0].index;
    hide Contiguous;
    DropTake(w, 1, k);
    DropTake(v, d + 1, k + d);
    DropAppend(w[..k], ents, 1);
    DropAppend(v[..k + d], ents, d + 1);
  }

  lemma ExtendedContiguous(w: seq<Entry>, ents: seq<Entry>)
    requires ValidEnts(w) && ents != [] && Contiguous(ents, ents[0].index)
    requires w[0].index < ents[0].index <= LastIndex(w) + 1
    ensures var r := Extended(w, ents); ValidEnts(r) && r[0] == w[0] && LastIndex(r) == LastIndex(ents)
  {
  }

  /** The two tiers show v, apart from what they have compacted away. */
  ghost predicate Shows(l: Log, v: seq<Entry>)
    requires Joined(l)
  {
    EndsLike(View(l), v)
  }

  lemma ShowsItself(l: Log)
    requires Joined(l)
    ensures Shows(l, View(l))
  {
  }

  lemma SameLogShows(l: Log, l': Log, v: seq<Entry>)
    requires Joined(l) && Joined(l') && Shows(l, v) && SameLog(l, l')
    ensures Shows(l', v)
  {
    hide View, Contiguous;
    var w, w', d := View(l), View(l'), Base(l) - v[0].index;
    forall j | 1 <= j < |w'| ensures w'[j] == v[Base(l') - v[0].index + j] {
      assert At(l', Base(l') + j) == At(l, Base(l') + j);
      assert w[1..][Base(l') - Base(l) + j - 1] == v[d + 1..][Base(l') - Base(l) + j - 1];
    }
    if Base(l') > Base(l) { assert w[1..][Base(l') - Base(l) - 1] == v[d + 1..][Base(l') - Base(l) - 1]; }
  }

  lemma AppendShows(l: Log, v: seq<Entry>, ents: seq<Entry>)
    requires ValidLog(l) && Shows(l, v) && Fits(l, ents) && AppendGuard(l, ents)
    requires ents != [] ==> ents[0].index != 0
    ensures ValidLog(Append(l, ents)) && Shows(Append(l, ents), Extended(v, ents))
  {
    hide View, Append, EndsLike, Contiguous, AppendGuard;
    AppendView(l, ents);
    if ents != [] {
      AppendJoined(l, ents);
      hide Joined, LastOf, Base;
      BothExtended(View(l), v, ents);
    }
  }

  /**
   After any run under Log Matching the two tiers show exactly the log that its appends alone give,
   apart from what compaction forgot.
   */
  lemma {:induction false} RunShowsIdeal(s: State, ops: seq<Op>, v: seq<Entry>)
    requires Inv(s) && LegalRun(s, ops) && MatchingRun(s, ops) && v != [] && Shows(s.log, v)
    ensures Inv(RunOf(s, ops)) && Shows(RunOf(s, ops).log, Ideal(v, ops))
    decreases |ops|
  {
    hide View, Shows, SameLog, Extended, Matches, Append;
    if ops != [] {
      var s' := Next(s, ops[0]);
      StepKeepsInv(s, ops[0]);
      if ops[0].Extend? {
        AppendShows(s.log, v, ops[0].ents);
      } else {
        StepKeepsLog(s, ops[0]);
        SameLogShows(s.log, s'.log, v);
      }
      RunShowsIdeal(s', ops[1..], if ops[0].Extend? then Extended(v, ops[0].ents) else v);
    }
  }

  /** Compacting is safe for the two tiers exactly below the tail's offset. */
  lemma TrimJoinedExactly(l: Log, i: nat)
    requires Joined(l) && l.tail.snapshot.None? && l.stored[0].index < i <= LastIndex(l.stored)
    ensures StCompact(l.stored, i).Ok?
    ensures Joined(l.(stored := StCompact(l.stored, i).value)) <==> i < l.tail.offset
  {
  }

  /** Runs start from a new log over any storage. */
  ghost function NewState(stored: seq<Entry>): (s: State)
    requires ValidEnts(stored)
    ensures Inv(s) && View(s.log) == stored
  {
    State(NewLog(stored), None)
  }

  /** A log over any storage, and any run of it under Log Matching: what it shows is the ideal log. */
  lemma NewLogShowsIdeal(stored: seq<Entry>, ops: seq<Op>)
    requires ValidEnts(stored) && LegalRun(NewState(stored), ops) && MatchingRun(NewState(stored), ops)
    ensures var l := RunOf(NewState(stored), ops).log; Joined(l) && Shows(l, Ideal(stored, ops))
  {
    hide NewState, LegalRun, MatchingRun, RunOf;
    ShowsItself(NewState(stored).log);
    RunShowsIdeal(NewState(stored), ops, stored);
  }

  /** Entry a was written to storage while the tail had already replaced it by b. */
  function Rewritten(a: Entry, b: Entry): State {
    State(Log([NoEntry, a], Tail(None, [b], 1), 0, 0), Some(Batch([a], true, [NoEntry, a])))
  }

  /** The states on the way there. */
  function Added(a: Entry): State {
    State(Log([NoEntry], Tail(None, [a], 1), 0, 0), None)
  }

  function TakenThen(a: Entry, b: Entry): State {
    State(Log([NoEntry], Tail(None, [b], 1), 0, 0), Some(Batch([a], false, [NoEntry, a])))
  }

  lemma AddedView(a: Entry)
    requires a.index == 1
    ensures Inv(Added(a)) && View(Added(a).log) == [NoEntry, a]
  {
  }

  lemma TakenThenInv(a: Entry, b: Entry)
    requires a.index == 1 == b.index
    ensures Inv(TakenThen(a, b))
  {
    assert Get([NoEntry, a], 1) == a;
  }

  lemma RewrittenIsReached(a: Entry, b: Entry)
    requires a.index == 1 == b.index
    ensures var s0, s1, s2, s3 := NewState([NoEntry]), Added(a), TakenThen(a, a), TakenThen(a, b);
      && Inv(s0) && Enabled(s0, Extend([a])) && s1 == Next(s0, Extend([a]))
      && Inv(s1) && Enabled(s1, Take) && s2 == Next(s1, Take)
      && Inv(s2) && Enabled(s2, Extend([b])) && s3 == Next(s2, Extend([b]))
      && Inv(s3) && Enabled(s3, Write) && Next(s3, Write) == Rewritten(a, b)
  {
    AddedView(a);
    TakenThenInv(a, a);
    TakenThenInv(a, b);
    hide View, Tracks;
    assert StAppend([NoEntry], [a]) == [NoEntry, a];
  }

  /**
   Without Log Matching the guard of stableTo is not enough: it compares index and term only, so
   an acknowledgement of an entry rewritten with other data under the same term changes the log.
   */
  lemma AckNeedsLogMatching(a: Entry, b: Entry)
    requires a.index == 1 && a.data.None? && b == a.(data := Some([]))
    ensures var s := Rewritten(a, b);
      Inv(s) && Enabled(s, Ack) && !Matches(s, Ack) && View(Next(s, Ack).log) != View(s.log)
  {
    var s := Rewritten(a, b);
    assert View(s.log) == [NoEntry, b];
    assert Get(View(s.log), 1) == b && Get(s.pending.value.view, 1) == a;
    assert View(Next(s, Ack).log) == [NoEntry, a];
  }
}
