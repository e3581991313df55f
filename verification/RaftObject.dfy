/**
 raft and RawNode as objects: fields changed step by step, over the log and tracker objects. Every
 method is proved to do what the state machines of Election, Bootstrap and Ready say.
 */
module RaftObject {
  import opened Prelude
  import opened RaftPb
  import opened Storage
  import opened Tracker
  import opened Quorum
  import opened RaftLogObject
  import opened RawReady
  import opened Bootstrap
  import CC = ConfChange
  import E = Election
  import R = RaftLog
  import WireBuffer

  class Raft {
    const id: Word
    const base: int
    const log: RaftLog
    const prs: ProgressTracker
    var term: Word
    var vote: Word
    var lead: Word
    var role: E.Role
    var isLearner: bool
    var elapsed: int
    var timeout: int
    var msgs: seq<Message>
    var readStates: seq<ReadState>

    ghost predicate Valid()
      reads this, log, log.storage, log.unstable, log.Arrays()
    {
      log.Valid() && base >= 1
    }

    ghost function Val(): E.Node
      requires Valid()
      reads this, prs, log, log.storage, log.unstable, log.Arrays()
    {
      E.Node(id, term, vote, lead, role, isLearner, elapsed, timeout, base, R.LastOf(log.Val()),
             prs.config, prs.progress, prs.votes, prs.maxInflight)
    }

    /** newRaft over a storage without a hard state. */
    constructor (id: Word, storage: MemoryStorage, maxNextEntsSize: nat, maxInflight: int, base: int, draw: int)
      requires id != E.NoNode && storage.Valid() && base >= 1 && 0 <= draw < base
      ensures Valid() && fresh(prs) && fresh(log) && fresh(log.unstable) && fresh(log.unstable.arr)
      ensures log.storage == storage
      ensures log.Val() == R.NewLog(storage.Ents()) && log.maxNextEntsSize == maxNextEntsSize
      ensures msgs == [] && readStates == []
      ensures Val() == E.Node(id, 0, 0, 0, E.Follower, false, 0, base + draw, base, LastIndex(storage.Ents()),
                              EmptyConfig, map[], map[], maxInflight)
      ensures E.Blank(Val())
    {
      hide R.ValidLog, R.LastOf, R.NewLog, Intact, ValidEnts;
      this.id, this.base := id, base;
      log := new RaftLog(storage, maxNextEntsSize);
      prs := new ProgressTracker(maxInflight);
      term, vote, lead, role, isLearner, elapsed, timeout := 0, 0, 0, E.Follower, false, 0, 0;
      msgs, readStates := [], [];
      new;
      BecomeFollower(term, E.NoNode, draw);
    }

    method Reset(term: Word, draw: int)
      requires Valid() && 0 <= draw < base
      modifies this, prs
      ensures Valid() && Val() == E.Reset(old(Val()), term, draw)
      ensures msgs == old(msgs) && readStates == old(readStates)
    {
      hide ResetProgress, R.ValidLog, R.LastOf, Intact, ValidEnts;
      ResetClock(term, draw);
      ResetPeers();
    }

    /** The first half of reset: term, vote, leader and clock. */
    method ResetClock(term: Word, draw: int)
      requires Valid()
      modifies this
      ensures Valid() && msgs == old(msgs) && readStates == old(readStates)
      ensures Val() == old(Val()).(term := term, vote := if old(this.term) != term then E.NoNode else old(vote),
                                   lead := E.NoNode, elapsed := 0, timeout := base + draw)
    {
      hide R.ValidLog, R.LastOf, Intact, ValidEnts;
      if this.term != term {
        this.term := term;
        vote := E.NoNode;
      }
      lead := E.NoNode;
      elapsed := 0;
      timeout := base + draw;
    }

    /** The second half: votes and progress. */
    method ResetPeers()
      requires Valid()
      modifies prs
      ensures Valid()
      ensures Val() == old(Val()).(votes := map[],
                                   progress := ResetProgress(old(prs.progress), old(Val()).last, id, prs.maxInflight))
    {
      hide ResetProgress, R.ValidLog, R.LastOf, Intact, ValidEnts;
      var last := log.LastIndex();
      prs.ResetVotes();
      prs.ResetAll(last, id);
    }

    method BecomeFollower(term: Word, lead: Word, draw: int)
      requires Valid() && 0 <= draw < base
      modifies this, prs
      ensures Valid() && Val() == E.BecomeFollower(old(Val()), term, lead, draw)
      ensures msgs == old(msgs) && readStates == old(readStates)
    {
      hide R.ValidLog, R.LastOf, Intact, ValidEnts;
      Reset(term, draw);
      this.lead := lead;
      role := E.Follower;
    }

    method BecomeCandidate(draw: int)
      requires Valid() && 0 <= draw < base && role != E.Leader
      modifies this, prs
      ensures Valid() && Val() == E.BecomeCandidate(old(Val()), draw)
      ensures msgs == old(msgs) && readStates == old(readStates)
    {
      hide R.ValidLog, R.LastOf, Intact, ValidEnts;
      Reset(Wrap(term + 1), draw);
      vote := id;
      role := E.Candidate;
    }

    method Poll(id: Word, v: bool) returns (granted: int, rejected: int, result: VoteResult)
      requires Valid()
      modifies prs
      ensures Valid() && Val() == old(Val().(votes := Record(Val().votes, id, v)))
      ensures granted == |Voted(prs.progress, prs.votes, true)| && rejected == |Voted(prs.progress, prs.votes, false)|
      ensures result == Outcome(prs.config, prs.votes)
    {
      hide R.ValidLog, R.LastOf, Intact, ValidEnts, Voted, Outcome, Record;
      prs.RecordVote(id, v);
      granted, rejected, result := prs.TallyVotes();
    }

    /** campaign; won says whether the node's own vote decides the election. */
    method Campaign(draw: int) returns (won: bool)
      requires Valid() && 0 <= draw < base && role != E.Leader
      modifies this, prs
      ensures Valid() && Val() == E.Campaign(old(Val()), draw)
      ensures won <==> Outcome(prs.config, prs.votes) == VoteWon
      ensures old(id in VoterIds(prs.config)) ==> (won <==> VoterIds(prs.config) == {id})
      ensures msgs == old(msgs) && readStates == old(readStates)
    {
      hide Outcome, VoterIds, E.BecomeCandidate;
      ghost var was := Val();
      if id in VoterIds(prs.config) { E.OwnVoteWinsExactly(Val(), draw); }
      BecomeCandidate(draw);
      assert Val().config == was.config by { E.CampaignKeeps(was, draw); }
      var _, _, res := Poll(id, true);
      won := res == VoteWon;
    }

    method Promotable() returns (ok: bool)
      requires Valid()
      ensures ok == E.Promotable(Val())
    {
      ok := id in prs.progress && !prs.progress[id].isLearner;
    }

    method Step(m: Message, draw: int)
      requires Valid() && 0 <= draw < base
      modifies this, prs
      ensures Valid() && Val() == E.Receive(old(Val()), m, draw)
      ensures msgs == old(msgs) && readStates == old(readStates)
    {
      hide E.Campaign, R.ValidLog, R.LastOf, Intact, ValidEnts;
      if m.typ == MsgHup {
        if role != E.Leader {
          var ok := Promotable();
          if !ok { return; }
          var _ := Campaign(draw);
        }
      }
    }

    method TickElection(draw: int)
      requires Valid() && 0 <= draw < base
      modifies this, prs
      ensures Valid() && Val() == E.Tick(old(Val()), draw)
      ensures msgs == old(msgs) && readStates == old(readStates)
    {
      hide E.Receive, R.ValidLog, R.LastOf, Intact, ValidEnts;
      elapsed := elapsed + 1;
      var ok := Promotable();
      if ok && elapsed >= timeout {
        elapsed := 0;
        Step(NoMessage.(typ := MsgHup, from := id), draw);
      }
    }

    /** advanceTicks; the draws are those a tick would use if it started a campaign. */
    method AdvanceTicks(draws: seq<int>)
      requires Valid() && E.Draws(base, draws)
      modifies this, prs
      ensures Valid() && Val() == E.Ticks(old(Val()), draws)
      ensures old(E.Running(Val()) && elapsed == 0) && |draws| <= base - 1 ==> Val() == old(Val()).(elapsed := |draws|)
    {
      hide E.Tick;
      ghost var was := Val();
      assert draws[0..] == draws;
      for i := 0 to |draws|
        invariant Valid() && E.Ticks(was, draws) == E.Ticks(Val(), draws[i..])
      {
        assert draws[i..][0] == draws[i] && draws[i..][1..] == draws[i + 1..];
        TickElection(draws[i]);
      }
      if E.Running(was) && was.elapsed == 0 && |draws| <= base - 1 { E.FastForwardIsQuiet(was, draws); }
    }

    /** applyConfChange; a change that Simple refuses panics. Only a leader would do more. */
    method ApplyConfChange(ccs: seq<CC.Change>) returns (cs: ConfState)
      requires Valid() && prs.config.incoming.Some? && role != E.Leader
      requires CC.Simple(E.ChangerOf(Val()), ccs).Ok?
      modifies this, prs
      ensures Valid() && Val() == E.Switch(old(Val()), CC.Simple(E.ChangerOf(old(Val())), ccs).value)
      ensures Describes(cs, prs.config)
      ensures msgs == old(msgs) && readStates == old(readStates)
    {
      hide CC.Simple, R.ValidLog, R.LastOf, Intact, ValidEnts, Describes, E.Switch;
      var last := log.LastIndex();
      var r := CC.Simple(CC.Changer(prs.config, prs.progress, last, prs.maxInflight), ccs);
      cs := SwitchToConfig(r.value);
    }

    method SwitchToConfig(c: CC.Changed) returns (cs: ConfState)
      requires Valid() && role != E.Leader
      modifies this, prs
      ensures Valid() && Val() == E.Switch(old(Val()), c) && Describes(cs, prs.config)
      ensures msgs == old(msgs) && readStates == old(readStates)
    {
      hide R.ValidLog, R.LastOf, Intact, ValidEnts, Describes;
      prs.config := c.config;
      prs.progress := c.progress;
      isLearner := id in prs.progress && prs.progress[id].isLearner;
      cs := prs.ConfState();
    }
  }

  datatype BootError = NoPeers | NonEmptyStorage

  class RawNode {
    const raft: Raft
    var prevSoft: SoftState
    var prevHard: HardState

    ghost predicate Valid()
      reads this, raft, raft.log, raft.log.storage, raft.log.unstable, raft.log.Arrays()
    {
      raft.Valid()
    }

    ghost function Val(): Raw
      requires Valid()
      reads this, raft, raft.prs, raft.log, raft.log.storage, raft.log.unstable, raft.log.Arrays()
    {
      Raw(raft.Val(), raft.log.Val(), raft.log.maxNextEntsSize, raft.msgs, raft.readStates, prevSoft, prevHard)
    }

    /** NewRawNode. */
    constructor (raft: Raft)
      requires raft.Valid()
      ensures Valid() && this.raft == raft && raft.log.committed < U64
      ensures prevSoft.lead == raft.lead && prevSoft.role == raft.role
      ensures IsCurrent(prevHard, raft.Val(), raft.log.committed) && prevHard.unrecognized == []
    {
      R.CommittedIsWord(raft.log.Val());
      this.raft := raft;
      prevSoft := SoftState(raft.lead, raft.role);
      prevHard := HardState(raft.term, raft.vote, raft.log.committed, []);
    }

    method HasReady() returns (ok: bool)
      requires Valid()
      ensures Valid() && Val().log.committed < U64 && ok == RawReady.HasReady(Val())
      ensures ok <==> NonEmpty(NewReady(Val()))
    {
      HasReadyExactly(Val());
      hide R.View, NewReady, NonEmpty, R.Joined, Contiguous;
      if SoftState(raft.lead, raft.role) != prevSoft { return true; }
      var h := HardState(raft.term, raft.vote, raft.log.committed, []);
      if !EmptyHardState(h) && !HardStateEqual(h, prevHard) { return true; }
      var u := raft.log.unstable;
      if u.snapshot.Some? && !EmptySnap(u.snapshot.value) { return true; }
      var next := raft.log.HasNextEnts();
      if |raft.msgs| > 0 || u.len > 0 || next { return true; }
      ok := |raft.readStates| != 0;
    }

    /** newReady. Reading committed entries out of the storage is all that is recorded. */
    method ReadyWithoutAccept() returns (rd: Ready)
      requires Valid()
      modifies raft.log.storage`readers, raft.log.unstable`readers
      ensures Valid() && Val() == old(Val()) && rd == NewReady(Val())
    {
      ghost var s := Val();
      R.CommittedIsWord(s.log);
      hide R.View, R.Joined, Contiguous, R.NextEnts;
      var ents := raft.log.UnstableEntries();
      var committed := raft.log.NextEnts();
      rd := Ready(None, NoHardState, [], ents, NoSnapshot, committed, raft.msgs, false);
      var soft := SoftState(raft.lead, raft.role);
      if soft != prevSoft { rd := rd.(softState := Some(soft)); }
      var h := HardState(raft.term, raft.vote, raft.log.committed, []);
      if !HardStateEqual(h, prevHard) { rd := rd.(hardState := h); }
      var u := raft.log.unstable;
      if u.snapshot.Some? { rd := rd.(snapshot := u.snapshot.value); }
      if |raft.readStates| != 0 { rd := rd.(readStates := raft.readStates); }
      rd := rd.(mustSync := MustSync(h, prevHard, |rd.entries|));
    }

    method AcceptReady(rd: Ready)
      requires Valid()
      modifies this, raft
      ensures Valid() && Val() == Accept(old(Val()), rd)
    {
      hide R.ValidLog, R.LastOf, Intact, ValidEnts;
      if rd.softState.Some? { prevSoft := rd.softState.value; }
      if |rd.readStates| != 0 { raft.readStates := []; }
      raft.msgs := [];
    }

    method TakeReady() returns (rd: Ready)
      requires Valid()
      modifies this, raft, raft.log.storage`readers, raft.log.unstable`readers
      ensures Valid() && rd == NewReady(old(Val())) && Val() == Accept(old(Val()), rd)
    {
      hide NewReady;
      rd := ReadyWithoutAccept();
      AcceptReady(rd);
    }

    /** The first loop of Bootstrap. */
    method Entries(peers: seq<Peer>) returns (ents: seq<Entry>)
      requires |peers| < U64 && Marshals(peers)
      ensures ents == JoinEntries(peers, 1)
    {
      hide EncodeConfChange;
      ents := [];
      for i := 0 to |peers|
        invariant |ents| == i && forall j | 0 <= j < i :: ents[j] == JoinEntry(peers[j], j + 1)
      {
        var data := WireBuffer.MarshalConfChange(JoinOf(peers[i]));
        ents := ents + [Entry(1, i + 1, EntryConfChange, Some(data[..]), [])];
      }
    }

    /** The second loop of Bootstrap. */
    method ApplyAll(peers: seq<Peer>)
      requires Valid() && raft.role != E.Leader
      requires ApplyPeers(Membership(), peers, raft.Val().last, raft.prs.maxInflight).Some?
      modifies raft, raft.prs
      ensures Valid() && raft.msgs == old(raft.msgs) && raft.readStates == old(raft.readStates)
      ensures Some(Membership()) == old(ApplyPeers(Membership(), peers, raft.Val().last, raft.prs.maxInflight))
      ensures raft.Val() == old(raft.Val()).(config := Membership().config, progress := Membership().progress,
                                             isLearner := raft.isLearner)
      ensures peers != [] ==>
        (raft.isLearner <==> raft.id in raft.prs.progress && raft.prs.progress[raft.id].isLearner)
    {
      hide CC.Simple;
      ghost var last, was := raft.Val().last, Membership();
      assert peers[0..] == peers;
      for i := 0 to |peers|
        invariant Valid() && raft.msgs == old(raft.msgs) && raft.readStates == old(raft.readStates)
        invariant ApplyPeers(was, peers, last, raft.prs.maxInflight)
               == ApplyPeers(Membership(), peers[i..], last, raft.prs.maxInflight)
        invariant raft.Val() == old(raft.Val()).(config := Membership().config, progress := Membership().progress,
                                                 isLearner := raft.isLearner)
        invariant i > 0 ==>
          (raft.isLearner <==> raft.id in raft.prs.progress && raft.prs.progress[raft.id].isLearner)
      {
        assert peers[i..][0] == peers[i] && peers[i..][1..] == peers[i + 1..];
        var _ := raft.ApplyConfChange(AsV2(JoinOf(peers[i])));
      }
    }

    /** append and commit the entries of the peers. */
    method Install(ents: seq<Entry>, ghost peers: seq<Peer>)
      requires Valid() && peers != [] && |peers| < U64 && ents == JoinEntries(peers, 1)
      requires raft.log.Val() == R.NewLog(raft.log.storage.Ents()) && LastIndex(raft.log.storage.Ents()) == 0
      modifies raft.log, raft.log.unstable, raft.log.unstable.arr
      ensures Valid() && raft.Val() == old(raft.Val()).(last := |peers|)
      ensures raft.log.Val() == R.Append(old(raft.log.Val()), ents).(committed := |peers|)
      ensures R.View(raft.log.Val()) == raft.log.storage.Ents() + ents
    {
      hide R.View, R.ValidLog, R.Append, R.NewLog, R.Fits, R.AppendGuard, R.LastOf, Contiguous, ValidEnts, JoinEntries;
      BootstrapLog(raft.log.storage.Ents(), peers);
      var _ := raft.log.Append(ents);
      raft.log.Commit(|ents|);
    }

    /** Bootstrap once its checks have passed: a follower at term 1, then the log, then the members. */
    method Begin(peers: seq<Peer>, draw: int)
      requires Valid() && 0 <= draw < raft.base && |peers| < U64 && Marshals(peers)
      requires raft.log.Val() == R.NewLog(raft.log.storage.Ents()) && Membership() == NoMembers
      requires LastIndex(raft.log.storage.Ents()) == 0 && peers != [] && peers[0].id != 0
      modifies raft, raft.prs, raft.log, raft.log.unstable, raft.log.unstable.arr
      ensures Valid()
      ensures Booted(raft.log.storage.Ents(), peers, raft.log.Val(), Membership(), raft.prs.maxInflight)
      ensures StartedAt(old(raft.term), old(raft.vote), draw)
      ensures raft.msgs == old(raft.msgs) && raft.readStates == old(raft.readStates)
    {
      hide R.View, R.ValidLog, R.Append, R.NewLog, R.LastOf, Intact, ValidEnts, Storage.LastIndex;
      hide JoinEntries, Marshals, PeerIds, Members, Replay, ApplyPeers, Booted;
      raft.BecomeFollower(1, E.NoNode, draw);
      assert Membership() == NoMembers;
      var ents := Entries(peers);
      Install(ents, peers);
      BootstrapMembers(peers, raft.prs.maxInflight);
      ApplyAll(peers);
      BootsWhole(raft.log.storage.Ents(), peers, Membership(), raft.prs.maxInflight);
      NobodyLearns(raft.log.storage.Ents(), peers, raft.log.Val(), Membership(), raft.prs.maxInflight);
    }

    /** A follower at term 1 whose clock has just been reset; it keeps no vote of another term. */
    ghost predicate StartedAt(oldTerm: Word, oldVote: Word, draw: int)
      reads raft, raft.prs
    {
      && raft.term == 1 && raft.role == E.Follower && raft.lead == E.NoNode && raft.elapsed == 0
      && raft.timeout == raft.base + draw && raft.vote == (if oldTerm != 1 then E.NoNode else oldVote)
      && raft.prs.votes == map[] && !raft.isLearner
    }

    /**
     Bootstrap of a node as NewRawNode leaves it. It would panic on a first peer without an id.
     Otherwise log and membership agree: replaying the entries it wrote gives the members it applied.
     */
    method Bootstrap(peers: seq<Peer>, draw: int) returns (r: Option<BootError>)
      requires Valid() && 0 <= draw < raft.base && |peers| < U64 && Marshals(peers)
      requires peers != [] && LastIndex(raft.log.storage.Ents()) == 0 ==>
        raft.log.Val() == R.NewLog(raft.log.storage.Ents()) && Membership() == NoMembers && peers[0].id != 0
      modifies this, raft, raft.prs, raft.log, raft.log.unstable, raft.log.unstable.arr
      ensures Valid()
      ensures r == if peers == [] then Some(NoPeers)
                   else if LastIndex(raft.log.storage.Ents()) != 0 then Some(NonEmptyStorage) else None
      ensures r.Some? ==> Val() == old(Val())
      ensures r.None? ==>
        && Booted(raft.log.storage.Ents(), peers, raft.log.Val(), Membership(), raft.prs.maxInflight)
        && StartedAt(old(raft.term), old(raft.vote), draw)
        && prevHard == NoHardState && prevSoft == old(prevSoft)
        && raft.msgs == old(raft.msgs) && raft.readStates == old(raft.readStates)
    {
      if |peers| == 0 { return Some(NoPeers); }
      var last := raft.log.storage.Last();
      if last != 0 { return Some(NonEmptyStorage); }
      hide R.NewLog, R.Joined, Marshals, Booted, StartedAt;
      prevHard := NoHardState;
      Begin(peers, draw);
      r := None;
    }

    ghost function Membership(): CC.Changed
      reads raft, raft.prs
    {
      CC.Changed(raft.prs.config, raft.prs.progress)
    }
  }

  /** What StartNode leaves on an empty storage: every entry of the peers is offered for persisting. */
  ghost predicate Started(rn: RawNode, peers: seq<Peer>)
    requires rn.Valid() && rn.raft.log.committed < U64 && peers != [] && |peers| < U64
    reads rn, rn.raft, rn.raft.prs, rn.raft.log, rn.raft.log.storage, rn.raft.log.unstable, rn.raft.log.Arrays()
  {
    var rd, ents := NewReady(rn.Val()), JoinEntries(peers, 1);
    && Booted(rn.raft.log.storage.Ents(), peers, rn.raft.log.Val(), rn.Membership(), rn.raft.prs.maxInflight)
    && RawReady.HasReady(rn.Val())
    && rd.entries == ents && rd.mustSync && rd.hardState == NoHardState.(term := 1, commit := |peers|)
    && rd.committedEntries != [] && rd.committedEntries <= ents
    && (rn.raft.id in PeerIds(peers) ==> E.Running(rn.raft.Val()) && rn.raft.elapsed == 0)
  }

  /**
   StartNode up to its goroutine. It ignores the error of Bootstrap: on a storage that is not empty
   it starts a node that has no members, has nothing ready and never campaigns.
   */
  method StartNode(
    id: Word, storage: MemoryStorage, maxNextEntsSize: nat, maxInflight: int, base: int, peers: seq<Peer>,
    draw0: int, draw1: int)
    returns (rn: RawNode)
    requires id != E.NoNode && storage.Valid() && 0 <= draw0 < base && 0 <= draw1 < base
    requires peers != [] && |peers| < U63 && Marshals(peers)
    requires LastIndex(storage.Ents()) == 0 ==> peers[0].id != 0
    ensures rn.Valid() && rn.raft.id == id && rn.raft.log.storage == storage && rn.raft.log.committed < U64
    ensures LastIndex(storage.Ents()) == 0 ==> Started(rn, peers)
    ensures LastIndex(storage.Ents()) != 0 ==>
      && rn.raft.log.Val() == R.NewLog(storage.Ents()) && rn.Membership() == NoMembers
      && !RawReady.HasReady(rn.Val()) && !E.Promotable(rn.raft.Val())
  {
    hide R.View, R.Joined, R.Append, Contiguous, JoinEntries, Marshals, PeerIds, Replay, NewReady, Booted;
    ghost var stored := storage.Ents();
    rn := NewNode(id, storage, maxNextEntsSize, maxInflight, base, draw0);
    var err := rn.Bootstrap(peers, draw1);
    R.CommittedIsWord(rn.raft.log.Val());
    if err.None? {
      BootstrapIsOffered(rn.Val(), stored, peers, rn.Membership());
      if id in PeerIds(peers) { MemberRuns(rn.raft.Val(), stored, peers, rn.raft.log.Val()); }
    } else {
      NothingReady(rn.Val(), stored);
    }
  }

  /** NewRawNode with the raft it makes. */
  method NewNode(id: Word, storage: MemoryStorage, maxNextEntsSize: nat, maxInflight: int, base: int, draw: int)
    returns (rn: RawNode)
    requires id != E.NoNode && storage.Valid() && 0 <= draw < base
    ensures fresh(rn) && fresh(rn.raft) && fresh(rn.raft.prs) && fresh(rn.raft.log)
    ensures fresh(rn.raft.log.unstable) && fresh(rn.raft.log.unstable.arr)
    ensures rn.Valid() && rn.raft.log.storage == storage && rn.raft.log.Val() == R.NewLog(storage.Ents())
    ensures rn.raft.id == id && rn.raft.base == base && rn.raft.prs.maxInflight == maxInflight
    ensures rn.Membership() == NoMembers && rn.raft.term == 0 && rn.raft.msgs == [] && rn.raft.readStates == []
    ensures rn.raft.log.committed < U64 && rn.prevSoft.lead == rn.raft.lead && rn.prevSoft.role == rn.raft.role
    ensures IsCurrent(rn.prevHard, rn.raft.Val(), rn.raft.log.committed)
  {
    hide R.View, R.ValidLog, R.NewLog, R.LastOf, ValidEnts, Intact;
    var raft := new Raft(id, storage, maxNextEntsSize, maxInflight, base, draw);
    rn := new RawNode(raft);
  }

  lemma NothingReady(s: Raw, stored: seq<Entry>)
    requires ValidEnts(stored) && s.log == R.NewLog(stored) && s.log.committed < U64
    requires s.msgs == [] && s.readStates == []
    requires s.prevSoft.lead == s.node.lead && s.prevSoft.role == s.node.role
    requires IsCurrent(s.prevHard, s.node, s.log.committed)
    ensures !RawReady.HasReady(s)
  {
    hide R.View;
    R.NextIsIntendedExactly(s.log);
  }

  /** A member is ready to campaign once its timeout has passed. */
  lemma MemberRuns(n: E.Node, stored: seq<Entry>, peers: seq<Peer>, l: R.Log)
    requires ValidEnts(stored) && peers != [] && |peers| < U64 && n.id in PeerIds(peers)
    requires Booted(stored, peers, l, CC.Changed(n.config, n.progress), n.maxInflight)
    requires n.role == E.Follower && n.elapsed == 0 && 1 <= n.base <= n.timeout < 2 * n.base
    ensures E.Running(n)
  {
  }
}
