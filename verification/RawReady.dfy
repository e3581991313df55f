/** What a node offers its application: HasReady announces it, newReady builds it. */
module RawReady {
  import opened Prelude
  import opened RaftPb
  import opened Storage
  import opened Wire
  import R = RaftLog
  import E = Election
  import B = Bootstrap

  datatype SoftState = SoftState(lead: Word, role: E.Role)

  datatype ReadState = ReadState(index: Word, requestCtx: Option<seq<Byte>>)

  datatype Ready = Ready(
    softState: Option<SoftState>, hardState: HardState, readStates: seq<ReadState>, entries: seq<Entry>,
    snapshot: Snapshot, committedEntries: seq<Entry>, messages: seq<Message>, mustSync: bool)

  /** A RawNode: the node, its log, what waits to be sent, and what was offered last. */
  datatype Raw = Raw(
    node: E.Node, log: R.Log, maxSize: nat, msgs: seq<Message>, readStates: seq<ReadState>,
    prevSoft: SoftState, prevHard: HardState)

  function SoftOf(n: E.Node): SoftState {
    SoftState(n.lead, n.role)
  }

  function HardOf(n: E.Node, committed: Word): HardState {
    NoHardState.(term := n.term, vote := n.vote, commit := committed)
  }

  predicate HardStateEqual(a: HardState, b: HardState) {
    a.term == b.term && a.vote == b.vote && a.commit == b.commit
  }

  predicate EmptyHardState(h: HardState) {
    HardStateEqual(h, NoHardState)
  }

  predicate EmptySnap(s: Snapshot) {
    s.metadata.index == 0
  }

  predicate MustSync(h: HardState, prev: HardState, entries: nat) {
    entries != 0 || h.vote != prev.vote || h.term != prev.term
  }

  predicate HasReady(s: Raw)
    requires s.log.stored != [] && s.log.committed < U64
  {
    || SoftOf(s.node) != s.prevSoft
    || (var h := HardOf(s.node, s.log.committed); !EmptyHardState(h) && !HardStateEqual(h, s.prevHard))
    || (s.log.tail.snapshot.Some? && !EmptySnap(s.log.tail.snapshot.value))
    || s.msgs != [] || s.log.tail.entries != [] || R.HasNextEnts(s.log)
    || s.readStates != []
  }

  /** nextEnts panics when slice fails, which it does not do on a valid log. */
  ghost function NewReady(s: Raw): Ready
    requires R.ValidLog(s.log)
  {
    R.CommittedIsWord(s.log);
    var h := HardOf(s.node, s.log.committed);
    R.HasNextEntsExactly(s.log, s.maxSize);
    Ready(
      if SoftOf(s.node) != s.prevSoft then Some(SoftOf(s.node)) else None,
      if HardStateEqual(h, s.prevHard) then NoHardState else h,
      s.readStates,
      s.log.tail.entries,
      match s.log.tail.snapshot case Some(snap) => snap case None => NoSnapshot,
      R.NextEnts(s.log, s.maxSize).value,
      s.msgs,
      MustSync(h, s.prevHard, |s.log.tail.entries|))
  }

  /** Some part of a Ready other than MustSync is non-empty. */
  predicate NonEmpty(rd: Ready) {
    || rd.softState.Some? || !EmptyHardState(rd.hardState) || !EmptySnap(rd.snapshot)
    || rd.entries != [] || rd.committedEntries != [] || rd.messages != [] || rd.readStates != []
  }

  /** HasReady announces a Ready exactly when there is something in it. */
  lemma HasReadyExactly(s: Raw)
    requires R.ValidLog(s.log)
    ensures s.log.committed < U64
    ensures HasReady(s) <==> NonEmpty(NewReady(s))
  {
    R.CommittedIsWord(s.log);
    hide R.View, R.SliceOf, R.NextEnts, Contiguous;
    R.HasNextEntsExactly(s.log, s.maxSize);
  }

  function Accept(s: Raw, rd: Ready): Raw {
    s.(prevSoft := if rd.softState.Some? then rd.softState.value else s.prevSoft,
       readStates := if rd.readStates != [] then [] else s.readStates,
       msgs := [])
  }

  /**
   Accepting a Ready takes the soft state, the messages and the read states off the next one, and
   nothing else: the entries and the hard state are offered again and again, since nothing in the
   node records that they were handled.
   */
  lemma AcceptedOnce(s: Raw)
    requires R.ValidLog(s.log)
    ensures s.log.committed < U64
    ensures var rd := NewReady(s); var s' := Accept(s, rd);
      && NewReady(s') == rd.(softState := None, readStates := [], messages := [])
      && (HasReady(s') <==>
            !EmptyHardState(rd.hardState) || !EmptySnap(rd.snapshot) || rd.entries != [] || rd.committedEntries != [])
  {
    R.CommittedIsWord(s.log);
    hide R.View, R.SliceOf, R.NextEnts, Contiguous;
    R.HasNextEntsExactly(s.log, s.maxSize);
    HasReadyExactly(Accept(s, NewReady(s)));
  }

  /** HasReady, field by field. */
  lemma HasReadyWhen(s: Raw)
    requires R.ValidLog(s.log)
    ensures s.log.committed < U64
    ensures var n, p, c := s.node, s.prevHard, s.log.committed;
      HasReady(s) <==>
        || n.lead != s.prevSoft.lead || n.role != s.prevSoft.role
        || ((n.term != 0 || n.vote != 0 || c != 0) && (n.term != p.term || n.vote != p.vote || c != p.commit))
        || (s.log.tail.snapshot.Some? && s.log.tail.snapshot.value.metadata.index != 0)
        || |s.msgs| > 0 || |s.log.tail.entries| > 0 || |s.readStates| > 0 || R.HasNextEnts(s.log)
  {
    R.CommittedIsWord(s.log);
    hide R.View, R.HasNextEnts, R.ValidLog;
  }

  /**
   Every part of a Ready is the node's own: leader and role if one of them changed, term, vote and
   commit index if one of them changed, and everything that waits to be persisted, applied or sent.
   */
  lemma ReadyCarries(s: Raw)
    requires R.ValidLog(s.log)
    ensures s.log.committed < U64
    ensures var n, rd := s.node, NewReady(s);
      && (rd.softState.Some? <==> n.lead != s.prevSoft.lead || n.role != s.prevSoft.role)
      && (rd.softState.Some? ==> rd.softState.value.lead == n.lead && rd.softState.value.role == n.role)
    ensures var n, p, h := s.node, s.prevHard, NewReady(s).hardState;
      if n.term != p.term || n.vote != p.vote || s.log.committed != p.commit
      then h.term == n.term && h.vote == n.vote && h.commit == s.log.committed && h.unrecognized == []
      else h.term == 0 && h.vote == 0 && h.commit == 0 && h.unrecognized == []
    ensures var rd := NewReady(s);
      && rd.entries == s.log.tail.entries && rd.messages == s.msgs && rd.readStates == s.readStates
      && rd.snapshot == (match s.log.tail.snapshot case Some(snap) => snap case None => NoSnapshot)
      && (rd.committedEntries != [] <==> R.HasNextEnts(s.log))
      && (rd.committedEntries != [] ==> rd.committedEntries <= R.Pending(s.log))
  {
    R.CommittedIsWord(s.log);
    R.HasNextEntsExactly(s.log, s.maxSize);
    hide R.View, R.SliceOf, R.NextEnts, R.HasNextEnts, R.Pending, Contiguous;
  }

  /**
   What has to reach the disk before messages go out is in the Ready, and it says so exactly: a new
   term or vote comes with the whole hard state, whatever else comes along; and if nothing has to be
   synced, the hard state, if it comes at all, has moved its commit index only.
   */
  lemma SyncedExactly(s: Raw)
    requires R.ValidLog(s.log)
    ensures var n, p, rd := s.node, s.prevHard, NewReady(s);
      rd.mustSync <==> s.log.tail.entries != [] || n.term != p.term || n.vote != p.vote
    ensures var n, p, h := s.node, s.prevHard, NewReady(s).hardState;
      n.term != p.term || n.vote != p.vote ==> h.term == n.term && h.vote == n.vote && h.commit == s.log.committed
    ensures var rd := NewReady(s); var h := rd.hardState;
      !rd.mustSync && (h.term != 0 || h.vote != 0 || h.commit != 0) ==>
        h.term == s.prevHard.term && h.vote == s.prevHard.vote && h.commit != s.prevHard.commit
  {
    R.CommittedIsWord(s.log);
    hide R.View, R.SliceOf, R.NextEnts, Contiguous;
  }

  /** b can come after a: a later term, or the same term with the same vote and no lower commit index. */
  predicate Follows(a: HardState, b: HardState) {
    a.term < b.term || (a.term == b.term && a.vote == b.vote && a.commit <= b.commit)
  }

  /** The node can have come to be what it is from h. */
  predicate Precedes(h: HardState, n: E.Node, committed: nat) {
    h.term < n.term || (h.term == n.term && h.vote == n.vote && h.commit <= committed)
  }

  /** h is the node's term, vote and commit index. */
  predicate IsCurrent(h: HardState, n: E.Node, committed: nat) {
    h.term == n.term && h.vote == n.vote && h.commit == committed
  }

  /** An application saves the hard state of a Ready unless it is empty. */
  function Saved(disk: HardState, rd: Ready): HardState {
    if EmptyHardState(rd.hardState) then disk else rd.hardState
  }

  /**
   Although the node never learns what was saved, and goes on comparing with the hard state it
   started from, a Ready that is handled leaves the disk with the node's current hard state.
   */
  lemma HandledReadyIsSaved(s: Raw, disk: HardState)
    requires R.ValidLog(s.log)
    ensures Follows(s.prevHard, disk) && Precedes(disk, s.node, s.log.committed) ==>
      IsCurrent(Saved(disk, NewReady(s)), s.node, s.log.committed)
  {
    R.CommittedIsWord(s.log);
    hide R.View, R.SliceOf, R.NextEnts, Contiguous;
  }

  /** What preceded a node precedes it over every run in which no term wraps around. */
  lemma HardStatesFollow(n: E.Node, ops: seq<E.Op>, h: HardState, committed: nat, committed': nat)
    requires E.Legal(n, ops) && E.NeverWraps(n, ops) && committed <= committed'
    ensures Precedes(h, n, committed) ==> Precedes(h, E.Run(n, ops), committed')
  {
    E.RunTermVote(n, ops);
  }

  // ------------------------------------------------------ a node and its disk

  datatype Kept = Kept(raw: Raw, disk: HardState)

  /** The node acts, its log changes, or the application handles a Ready and saves what it carries. */
  datatype Event = Acts(op: E.Op) | LogBecomes(log: R.Log) | Handles

  /** No term wraps around, and the commit index does not fall. */
  ghost predicate Possible(k: Kept, e: Event) {
    match e
    case Acts(op) => E.Enabled(k.raw.node, op) && !E.WrapsTerm(k.raw.node, op)
    case LogBecomes(log) => R.ValidLog(log) && k.raw.log.committed <= log.committed
    case Handles => true
  }

  ghost function After(k: Kept, e: Event): Kept
    requires R.ValidLog(k.raw.log) && Possible(k, e)
  {
    match e
    case Acts(op) => k.(raw := k.raw.(node := E.Next(k.raw.node, op)))
    case LogBecomes(log) => k.(raw := k.raw.(log := log))
    case Handles => var rd := NewReady(k.raw); Kept(Accept(k.raw, rd), Saved(k.disk, rd))
  }

  /** What is on the disk lies between what the node started from and what it is now. */
  ghost predicate Behind(k: Kept) {
    && R.ValidLog(k.raw.log)
    && Follows(k.raw.prevHard, k.disk) && Precedes(k.disk, k.raw.node, k.raw.log.committed)
  }

  lemma EventKeepsBehind(k: Kept, e: Event)
    requires Behind(k) && Possible(k, e)
    ensures Behind(After(k, e))
    ensures e.Handles? ==> IsCurrent(After(k, e).disk, After(k, e).raw.node, After(k, e).raw.log.committed)
  {
    hide R.ValidLog, NewReady, E.Next, E.Enabled, E.WrapsTerm;
    match e
    case Acts(op) => E.StepTermVote(k.raw.node, op);
    case LogBecomes(log) =>
    case Handles => HandledReadyIsSaved(k.raw, k.disk);
  }

  ghost predicate PossibleRun(k: Kept, es: seq<Event>)
    requires Behind(k)
    decreases |es|
  {
    es == [] || (Possible(k, es[0]) && (EventKeepsBehind(k, es[0]); PossibleRun(After(k, es[0]), es[1..])))
  }

  ghost function RunOf(k: Kept, es: seq<Event>): Kept
    requires Behind(k) && PossibleRun(k, es)
    decreases |es|
  {
    if es == [] then k else (EventKeepsBehind(k, es[0]); RunOf(After(k, es[0]), es[1..]))
  }

  /**
   Over every run of node operations, changes of the log and handled Readies, the disk never falls
   behind by more than the Readies not handled yet: right after one is handled it holds the node's
   current hard state.
   */
  lemma {:induction false} DiskFollows(k: Kept, es: seq<Event>)
    requires Behind(k) && PossibleRun(k, es)
    ensures Behind(RunOf(k, es))
    ensures var k' := RunOf(k, es);
      es != [] && es[|es| - 1].Handles? ==> IsCurrent(k'.disk, k'.raw.node, k'.raw.log.committed)
    decreases |es|
  {
    if es != [] {
      hide Behind, After, Possible;
      EventKeepsBehind(k, es[0]);
      var k' := After(k, es[0]);
      DiskFollows(k', es[1..]);
      if |es| == 1 { assert RunOf(k', es[1..]) == k'; } else { assert es[1..][|es| - 2] == es[|es| - 1]; }
    }
  }

  /** A new node whose disk holds what it started from begins such runs. */
  lemma NewNodeIsBehind(raw: Raw)
    requires R.ValidLog(raw.log) && IsCurrent(raw.prevHard, raw.node, raw.log.committed)
    ensures Behind(Kept(raw, raw.prevHard))
  {
  }

  /**
   A node that has just been bootstrapped offers all its entries for persisting, the hard state
   they give, and a first part of them, never empty, for applying.
   */
  lemma BootstrapIsOffered(s: Raw, stored: seq<Entry>, peers: seq<B.Peer>, members: B.CC.Changed)
    requires ValidEnts(stored) && LastIndex(stored) == 0 && peers != [] && |peers| < U63
    requires B.Booted(stored, peers, s.log, members, s.node.maxInflight)
    requires s.node.term == 1 && s.node.vote == 0 && s.prevHard == NoHardState
    ensures R.ValidLog(s.log) && HasReady(s)
    ensures var rd, ents := NewReady(s), B.JoinEntries(peers, 1);
      && rd.entries == ents && rd.mustSync && rd.hardState == NoHardState.(term := 1, commit := |peers|)
      && rd.committedEntries != [] && rd.committedEntries <= ents
  {
    hide R.View, R.SliceOf, R.NextEnts, R.Joined, Contiguous;
    hide B.JoinEntries, B.Members, B.Replay, B.Announces, B.JustJoined, B.PeerIds;
    R.HasNextEntsExactly(s.log, s.maxSize);
    R.NextIsIntendedExactly(s.log);
    var ents := B.JoinEntries(peers, 1);
    assert (stored + ents)[1..|peers| + 1] == ents;
  }
}
