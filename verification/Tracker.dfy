/**
 The active configuration and the progress of every tracked peer. A nil Go map is None.
 Fields of Progress that no running code assigns are left out.
 */
module Tracker {
  import opened Prelude
  import opened Quorum
  import RaftPb

  datatype Config = Config(
    incoming: Option<set<Word>>, outgoing: Option<set<Word>>,
    learners: Option<set<Word>>, learnersNext: Option<set<Word>>, autoLeave: bool)

  datatype Progress = Progress(matched: int, next: int, recentActive: bool, maxInflight: int, isLearner: bool)

  type ProgressMap = map<Word, Progress>

  function Ids(m: Option<set<Word>>): set<Word> {
    if m.Some? then m.value else {}
  }

  /** JointConfig.IDs. */
  function VoterIds(c: Config): set<Word> {
    Ids(c.incoming) + Ids(c.outgoing)
  }

  function Outcome(c: Config, votes: Votes): VoteResult {
    JointResult(Ids(c.incoming), Ids(c.outgoing), votes)
  }

  const EmptyConfig := Config(Some({}), None, None, None, false)

  /** cs is the ConfState of c. */
  ghost predicate Describes(cs: RaftPb.ConfState, c: Config) {
    && Lists(cs.voters, Ids(c.incoming)) && Lists(cs.votersOutgoing, Ids(c.outgoing))
    && Lists(cs.learners, Ids(c.learners)) && Lists(cs.learnersNext, Ids(c.learnersNext))
    && cs.autoLeave == c.autoLeave && cs.unrecognized == []
  }

  /** A configuration has one ConfState. */
  lemma ConfStateIsUnique(a: RaftPb.ConfState, b: RaftPb.ConfState, c: Config)
    requires Describes(a, c) && Describes(b, c)
    ensures a == b
  {
    ListIsUnique(a.voters, b.voters, Ids(c.incoming));
    ListIsUnique(a.votersOutgoing, b.votersOutgoing, Ids(c.outgoing));
    ListIsUnique(a.learners, b.learners, Ids(c.learners));
    ListIsUnique(a.learnersNext, b.learnersNext, Ids(c.learnersNext));
  }

  /** The non-learners that voted v, among those whose progress is tracked. */
  function Voted(prs: ProgressMap, votes: Votes, v: bool): set<Word> {
    set id | id in prs && !prs[id].isLearner && id in votes && votes[id] == v
  }

  /** The same, among those already visited. */
  ghost function VotedIn(prs: ProgressMap, seen: set<Word>, votes: Votes, v: bool): set<Word> {
    set id | id in seen && id in prs && !prs[id].isLearner && id in votes && votes[id] == v
  }

  ghost predicate Counted(
    prs: ProgressMap, seen: set<Word>, todo: set<Word>, votes: Votes, granted: int, rejected: int)
  {
    Parted(prs.Keys, seen, todo)
    && granted == |VotedIn(prs, seen, votes, true)| && rejected == |VotedIn(prs, seen, votes, false)|
  }

  lemma VotedOne(prs: ProgressMap, seen: set<Word>, votes: Votes, id: Word, v: bool)
    requires id !in seen && id in prs
    ensures |VotedIn(prs, seen + {id}, votes, v)|
         == |VotedIn(prs, seen, votes, v)| + if !prs[id].isLearner && id in votes && votes[id] == v then 1 else 0
  {
    var was, now := VotedIn(prs, seen, votes, v), VotedIn(prs, seen + {id}, votes, v);
    if !prs[id].isLearner && id in votes && votes[id] == v {
      assert now == was + {id};
    } else {
      assert now == was;
    }
  }

  lemma CountedNone(prs: ProgressMap, votes: Votes)
    ensures Counted(prs, {}, prs.Keys, votes, 0, 0)
  {
    PartEnds(prs.Keys, {});
  }

  lemma CountedOne(
    prs: ProgressMap, seen: set<Word>, todo: set<Word>, votes: Votes, granted: int, rejected: int, id: Word)
    requires Counted(prs, seen, todo, votes, granted, rejected) && id in todo
    ensures id in prs
    ensures var counts := !prs[id].isLearner && id in votes;
      Counted(prs, seen + {id}, todo - {id}, votes,
              if counts && votes[id] then granted + 1 else granted,
              if counts && !votes[id] then rejected + 1 else rejected)
  {
    hide VotedIn, Parted;
    PartOne(prs.Keys, seen, todo, id);
    VotedOne(prs, seen, votes, id, true);
    VotedOne(prs, seen, votes, id, false);
  }

  lemma CountedAll(prs: ProgressMap, seen: set<Word>, votes: Votes, granted: int, rejected: int)
    requires Counted(prs, seen, {}, votes, granted, rejected)
    ensures granted == |Voted(prs, votes, true)| && rejected == |Voted(prs, votes, false)|
  {
    PartEnds(prs.Keys, seen);
    assert VotedIn(prs, prs.Keys, votes, true) == Voted(prs, votes, true);
    assert VotedIn(prs, prs.Keys, votes, false) == Voted(prs, votes, false);
  }

  /** What raft.reset makes of every progress. */
  function ResetOne(pr: Progress, id: Word, lastIndex: int, self: Word, maxInflight: int): Progress {
    Progress(if id == self then lastIndex else 0, lastIndex + 1, false, maxInflight, pr.isLearner)
  }

  function ResetProgress(prs: ProgressMap, lastIndex: int, self: Word, maxInflight: int): ProgressMap {
    map id | id in prs :: ResetOne(prs[id], id, lastIndex, self, maxInflight)
  }

  /** The progress after the first i ids have been visited. */
  ghost predicate ResetSome(
    was: ProgressMap, now: ProgressMap, ids: seq<Word>, i: nat, lastIndex: int, self: Word, maxInflight: int)
  {
    && i <= |ids| && now.Keys == was.Keys && (forall id :: id in was <==> id in ids)
    && forall id | id in was ::
         now[id] == if id in ids[..i] then ResetOne(was[id], id, lastIndex, self, maxInflight) else was[id]
  }

  lemma ResetNone(was: ProgressMap, ids: seq<Word>, lastIndex: int, self: Word, maxInflight: int)
    requires forall id :: id in was <==> id in ids
    ensures ResetSome(was, was, ids, 0, lastIndex, self, maxInflight)
  {
  }

  lemma ResetNext(
    was: ProgressMap, now: ProgressMap, ids: seq<Word>, i: nat, lastIndex: int, self: Word, maxInflight: int)
    requires i < |ids| && ResetSome(was, now, ids, i, lastIndex, self, maxInflight)
    ensures ids[i] in now
    ensures var id := ids[i];
      var now' := now[id := ResetOne(now[id], id, lastIndex, self, maxInflight)];
      ResetSome(was, now', ids, i + 1, lastIndex, self, maxInflight)
  {
    assert ids[i] in ids && ids[..i + 1] == ids[..i] + [ids[i]];
  }

  class ProgressTracker {
    var config: Config
    var progress: ProgressMap
    var votes: Votes
    const maxInflight: int

    /** MakeProgressTracker. */
    constructor (maxInflight: int)
      ensures config == EmptyConfig && progress == map[] && votes == map[]
      ensures this.maxInflight == maxInflight
    {
      config, progress, votes := EmptyConfig, map[], map[];
      this.maxInflight := maxInflight;
    }

    /** The ids in the order Visit calls its function: each once, filled in from the back. */
    method VisitOrder() returns (ids: array<Word>)
      ensures fresh(ids) && ids.Length == |progress| && forall id :: id in progress <==> id in ids[..]
    {
      var n, todo := |progress|, progress.Keys;
      ids := new Word[n];
      assert ids[n..] == [];
      while todo != {}
        invariant n == |todo| <= ids.Length && todo <= progress.Keys
        invariant forall id :: id in progress && id !in todo <==> id in ids[n..]
        decreases todo
      {
        var id :| id in todo;
        todo, n := todo - {id}, n - 1;
        ids[n] := id;
        assert ids[n..] == [id] + ids[n + 1..];
      }
      assert ids[0..] == ids[..];
    }

    /** The function that raft.reset passes to Visit, called for every tracked peer. */
    method ResetAll(lastIndex: int, self: Word)
      modifies `progress
      ensures progress == ResetProgress(old(progress), lastIndex, self, maxInflight)
    {
      ghost var was := progress;
      var buf := VisitOrder();
      var ids := buf[..];
      ResetNone(was, ids, lastIndex, self, maxInflight);
      for i := 0 to |ids|
        invariant ResetSome(was, progress, ids, i, lastIndex, self, maxInflight)
      {
        hide ResetSome;
        var id := ids[i];
        ResetNext(was, progress, ids, i, lastIndex, self, maxInflight);
        var pr := Progress(0, lastIndex + 1, false, maxInflight, progress[id].isLearner);
        if id == self { pr := pr.(matched := lastIndex); }
        progress := progress[id := pr];
      }
      assert ids[..|ids|] == ids;
    }

    method ConfState() returns (cs: RaftPb.ConfState)
      ensures Describes(cs, config)
    {
      var voters := Slice(Ids(config.incoming));
      var outgoing := Slice(Ids(config.outgoing));
      var learners := Slice(Ids(config.learners));
      var next := Slice(Ids(config.learnersNext));
      cs := RaftPb.ConfState(voters, learners, outgoing, next, config.autoLeave, []);
    }

    method ResetVotes()
      modifies `votes
      ensures votes == map[]
    {
      votes := map[];
    }

    /** The first vote of a peer counts; later ones are ignored. */
    method RecordVote(id: Word, v: bool)
      modifies `votes
      ensures votes == Record(old(votes), id, v)
    {
      if id !in votes {
        votes := votes[id := v];
      }
    }

    method TallyVotes() returns (granted: int, rejected: int, result: VoteResult)
      ensures granted == |Voted(progress, votes, true)| && rejected == |Voted(progress, votes, false)|
      ensures result == Outcome(config, votes)
    {
      granted, rejected := 0, 0;
      var todo := progress.Keys;
      ghost var seen: set<Word> := {};
      CountedNone(progress, votes);
      hide Counted;
      while todo != {}
        invariant Counted(progress, seen, todo, votes, granted, rejected)
        decreases todo
      {
        var id :| id in todo;
        CountedOne(progress, seen, todo, votes, granted, rejected, id);
        todo, seen := todo - {id}, seen + {id};
        if progress[id].isLearner { continue; }
        if id !in votes { continue; }
        if votes[id] {
          granted := granted + 1;
        } else {
          rejected := rejected + 1;
        }
      }
      CountedAll(progress, seen, votes, granted, rejected);
      var r1 := MajorityVoteResult(Ids(config.incoming), votes);
      var r2 := MajorityVoteResult(Ids(config.outgoing), votes);
      result := if r1 == r2 then r1
                else if r1 == VoteLost || r2 == VoteLost then VoteLost
                else VotePending;
    }
  }

  function Record(votes: Votes, id: Word, v: bool): Votes {
    if id in votes then votes else votes[id := v]
  }

  datatype Ballot = Ballot(id: Word, v: bool)

  function RecordAll(votes: Votes, ballots: seq<Ballot>): Votes
    decreases |ballots|
  {
    if ballots == [] then votes
    else RecordAll(Record(votes, ballots[0].id, ballots[0].v), ballots[1..])
  }

  /** The first ballot of a peer, if there is one. */
  function FirstBallot(ballots: seq<Ballot>, id: Word): Option<bool> {
    if ballots == [] then None
    else if ballots[0].id == id then Some(ballots[0].v)
    else FirstBallot(ballots[1..], id)
  }

  /** Whatever ballots come in, a peer's vote is the one it already had, or else its first, yes or no. */
  lemma {:induction false} FirstBallotCounts(votes: Votes, ballots: seq<Ballot>, id: Word)
    ensures var votes' := RecordAll(votes, ballots);
      if id in votes then id in votes' && votes'[id] == votes[id]
      else match FirstBallot(ballots, id)
        case None => id !in votes'
        case Some(v) => id in votes' && votes'[id] == v
    decreases |ballots|
  {
    if ballots != [] { FirstBallotCounts(Record(votes, ballots[0].id, ballots[0].v), ballots[1..], id); }
  }

  lemma {:induction false} RecordAllExtends(votes: Votes, ballots: seq<Ballot>)
    ensures Extends(votes, RecordAll(votes, ballots))
    decreases |ballots|
  {
    if ballots != [] { RecordAllExtends(Record(votes, ballots[0].id, ballots[0].v), ballots[1..]); }
  }

  /**
   Between two ResetVotes, under one configuration: once TallyVotes reports Won or Lost, no run of
   further ballots, repeated and contradictory ones included, changes it.
   */
  lemma OutcomeIsFinal(c: Config, votes: Votes, ballots: seq<Ballot>)
    requires Outcome(c, votes) != VotePending
    ensures Outcome(c, RecordAll(votes, ballots)) == Outcome(c, votes)
  {
    RecordAllExtends(votes, ballots);
    DecidedStaysDecided(Ids(c.incoming), Ids(c.outgoing), votes, RecordAll(votes, ballots));
  }

  /** The tracked peers are exactly the voters of a simple configuration, and none is a learner. */
  ghost predicate VotersOnly(c: Config, prs: ProgressMap) {
    && c.incoming.Some? && c.outgoing.None? && c.learners.None? && c.learnersNext.None? && !c.autoLeave
    && prs.Keys == c.incoming.value
    && forall id | id in prs :: !prs[id].isLearner
  }

  /** Then the informational counts of TallyVotes decide the election. */
  lemma CountsDecide(c: Config, prs: ProgressMap, votes: Votes)
    requires VotersOnly(c, prs) && c.incoming.value != {}
    ensures var n := |c.incoming.value|;
      && (Outcome(c, votes) == VoteWon <==> |Voted(prs, votes, true)| >= n / 2 + 1)
      && (Outcome(c, votes) == VoteLost <==> n - |Voted(prs, votes, false)| < n / 2 + 1)
  {
    var v := c.incoming.value;
    assert Voted(prs, votes, true) == Yes(v, votes) && Voted(prs, votes, false) == No(v, votes);
    hide Yes, No, Missing, Voted;
    Split(v, votes);
    HalfEmptyJointIsSimple(v, votes);
  }
}
