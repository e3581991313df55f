/** The single-step membership change: Changer.Simple on values. */
module ConfChange {
  import opened Prelude
  import opened Quorum
  import opened Tracker
  import RaftPb

  datatype Change = Change(typ: Enum, nodeID: Word)

  datatype ChangeError = BadConfig | InJoint | UnexpectedType | NoVoters | TooManyVoters

  datatype Changer = Changer(config: Config, progress: ProgressMap, lastIndex: int, maxInflight: int)

  datatype Changed = Changed(config: Config, progress: ProgressMap)

  predicate Joint(c: Config) {
    Ids(c.outgoing) != {}
  }

  /** A staged learner is an outgoing voter and not yet marked as a learner. */
  predicate StagedFine(next: set<Word>, out: set<Word>, prs: ProgressMap)
    requires next <= prs.Keys
  {
    forall id | id in next :: id in out && !prs[id].isLearner
  }

  /** A learner is no voter and is marked as a learner. */
  predicate LearnersFine(learners: set<Word>, in_: set<Word>, out: set<Word>, prs: ProgressMap)
    requires learners <= prs.Keys
  {
    forall id | id in learners :: id !in out && id !in in_ && prs[id].isLearner
  }

  /** checkInvariants finds nothing to complain about. */
  predicate Consistent(c: Config, prs: ProgressMap) {
    && VoterIds(c) <= prs.Keys && Ids(c.learners) <= prs.Keys && Ids(c.learnersNext) <= prs.Keys
    && StagedFine(Ids(c.learnersNext), Ids(c.outgoing), prs)
    && LearnersFine(Ids(c.learners), Ids(c.incoming), Ids(c.outgoing), prs)
    && (!Joint(c) ==> c.outgoing.None? && c.learnersNext.None? && !c.autoLeave)
  }

  /** What checkInvariants complains about, one complaint after the other. */
  lemma InconsistentExactly(c: Config, prs: ProgressMap)
    ensures !Consistent(c, prs) <==>
      || (exists id | id in Ids(c.incoming) || id in Ids(c.outgoing) :: id !in prs)
      || (exists id | id in Ids(c.learners) || id in Ids(c.learnersNext) :: id !in prs)
      || (exists id | id in Ids(c.learnersNext) :: id !in Ids(c.outgoing) || (id in prs && prs[id].isLearner))
      || (exists id | id in Ids(c.learners) ::
            id in Ids(c.outgoing) || id in Ids(c.incoming) || (id in prs && !prs[id].isLearner))
      || (Ids(c.outgoing) == {} && (c.outgoing.Some? || c.learnersNext.Some? || c.autoLeave))
  {
  }

  /** Config.Clone, which does not copy AutoLeave. */
  function Clone(c: Config): Config {
    c.(autoLeave := false)
  }

  function NilAwareDelete(m: Option<set<Word>>, id: Word): Option<set<Word>> {
    if m.None? || m.value - {id} == {} then None else Some(m.value - {id})
  }

  function NewProgress(ch: Changer): Progress {
    Progress(0, ch.lastIndex, true, ch.maxInflight, false)
  }

  function MakeVoter(ch: Changer, c: Changed, id: Word): Changed
    requires c.config.incoming.Some?
  {
    var voters := Some(c.config.incoming.value + {id});
    if id !in c.progress then
      Changed(c.config.(incoming := voters), c.progress[id := NewProgress(ch)])
    else
      Changed(c.config.(incoming := voters,
                        learners := NilAwareDelete(c.config.learners, id),
                        learnersNext := NilAwareDelete(c.config.learnersNext, id)),
              c.progress[id := c.progress[id].(isLearner := false)])
  }

  function ApplyOne(ch: Changer, c: Changed, cc: Change): (r: Result<Changed, ChangeError>)
    requires c.config.incoming.Some?
    ensures r.Ok? ==> r.value.config.incoming.Some?
  {
    if cc.nodeID == 0 then Ok(c)
    else if cc.typ == RaftPb.ConfChangeAddNode then Ok(MakeVoter(ch, c, cc.nodeID))
    else if cc.typ == RaftPb.ConfChangeUpdateNode then Ok(c)
    else Err(UnexpectedType)
  }

  function ApplyAll(ch: Changer, c: Changed, ccs: seq<Change>): (r: Result<Changed, ChangeError>)
    requires c.config.incoming.Some?
    ensures r.Ok? ==> r.value.config.incoming.Some? && r.value.config.incoming.value != {}
    decreases |ccs|
  {
    if ccs == [] then
      if c.config.incoming.value == {} then Err(NoVoters) else Ok(c)
    else match ApplyOne(ch, c, ccs[0])
      case Err(e) => Err(e)
      case Ok(c') => ApplyAll(ch, c', ccs[1..])
  }

  function SymDiff(l: set<Word>, r: set<Word>): nat {
    |l - r| + |r - l|
  }

  /** Changer.Simple. Writing to a nil incoming map panics. */
  function Simple(ch: Changer, ccs: seq<Change>): Result<Changed, ChangeError>
    requires ch.config.incoming.Some?
  {
    var c := Clone(ch.config);
    if !Consistent(c, ch.progress) then Err(BadConfig)
    else if Joint(c) then Err(InJoint)
    else match ApplyAll(ch, Changed(c, ch.progress), ccs)
      case Err(e) => Err(e)
      case Ok(c') =>
        if SymDiff(ch.config.incoming.value, c'.config.incoming.value) > 1 then Err(TooManyVoters)
        else if !Consistent(c'.config, c'.progress) then Err(BadConfig)
        else Ok(c')
  }

  // ------------------------------------------------------- what it amounts to

  predicate Unsupported(cc: Change) {
    cc.nodeID != 0 && cc.typ != RaftPb.ConfChangeAddNode && cc.typ != RaftPb.ConfChangeUpdateNode
  }

  /** Of the change types only 0, adding a voter, and 2, updating one, are supported. */
  lemma SupportedTypes(cc: Change)
    ensures Unsupported(cc) <==> cc.nodeID != 0 && cc.typ !in {0, 2}
    ensures Added([cc]) == if cc.nodeID != 0 && cc.typ == 0 then {cc.nodeID} else {}
  {
    assert [cc][0] == cc;
  }

  /** The ids that a list of changes asks to make voters. */
  function Added(ccs: seq<Change>): set<Word> {
    set i | 0 <= i < |ccs| && ccs[i].nodeID != 0 && ccs[i].typ == RaftPb.ConfChangeAddNode :: ccs[i].nodeID
  }

  lemma AddedStep(ccs: seq<Change>)
    requires ccs != []
    ensures var cc := ccs[0];
      Added(ccs) == (if cc.nodeID != 0 && cc.typ == RaftPb.ConfChangeAddNode then {cc.nodeID} else {}) + Added(ccs[1..])
  {
    forall id | id in Added(ccs[1..]) ensures id in Added(ccs) {
      var i :| 0 <= i < |ccs[1..]| && ccs[1..][i].nodeID != 0 && ccs[1..][i].typ == RaftPb.ConfChangeAddNode
               && ccs[1..][i].nodeID == id;
      assert ccs[i + 1] == ccs[1..][i];
    }
    var one := if ccs[0].nodeID != 0 && ccs[0].typ == RaftPb.ConfChangeAddNode then {ccs[0].nodeID} else {};
    forall id | id in Added(ccs) ensures id in one + Added(ccs[1..]) {
      var i :| 0 <= i < |ccs| && ccs[i].nodeID != 0 && ccs[i].typ == RaftPb.ConfChangeAddNode && ccs[i].nodeID == id;
      if i > 0 { assert ccs[1..][i - 1] == ccs[i]; }
    }
  }

  /** Adding a set of voters at once: what any supported list of changes comes down to. */
  ghost predicate Enlarged(ch: Changer, from: Changed, to: Changed, added: set<Word>)
    requires from.config.incoming.Some?
  {
    && to.config.incoming == Some(from.config.incoming.value + added)
    && to.config.outgoing == from.config.outgoing && to.config.autoLeave == from.config.autoLeave
    && Ids(to.config.learners) == Ids(from.config.learners) - added
    && Ids(to.config.learnersNext) == Ids(from.config.learnersNext) - added
    && (from.config.learners.None? ==> to.config.learners.None?)
    && (from.config.learnersNext.None? ==> to.config.learnersNext.None?)
    && to.progress.Keys == from.progress.Keys + added
    && forall id | id in to.progress ::
         to.progress[id] == if id !in added then from.progress[id]
                            else if id in from.progress then from.progress[id].(isLearner := false)
                            else NewProgress(ch)
  }

  lemma MakeVoterEnlarges(ch: Changer, c: Changed, id: Word)
    requires c.config.incoming.Some? && Ids(c.config.learners) + Ids(c.config.learnersNext) <= c.progress.Keys
    ensures Enlarged(ch, c, MakeVoter(ch, c, id), {id})
  {
  }

  lemma EnlargedTwice(ch: Changer, a: Changed, b: Changed, c: Changed, x: set<Word>, y: set<Word>)
    requires a.config.incoming.Some? && b.config.incoming.Some?
    requires Enlarged(ch, a, b, x) && Enlarged(ch, b, c, y)
    ensures Enlarged(ch, a, c, x + y)
  {
    assert a.config.incoming.value + x + y == a.config.incoming.value + (x + y);
    assert a.progress.Keys + x + y == a.progress.Keys + (x + y);
    assert Ids(a.config.learners) - x - y == Ids(a.config.learners) - (x + y);
    assert Ids(a.config.learnersNext) - x - y == Ids(a.config.learnersNext) - (x + y);
    forall id | id in c.progress
      ensures c.progress[id] == if id !in x + y then a.progress[id]
                                else if id in a.progress then a.progress[id].(isLearner := false)
                                else NewProgress(ch)
    {
      if id in b.progress { assert b.progress[id] == b.progress[id]; }
    }
  }

  lemma EnlargedByNone(ch: Changer, c: Changed)
    requires c.config.incoming.Some?
    ensures Enlarged(ch, c, c, {})
  {
    assert c.config.incoming.value + {} == c.config.incoming.value;
    assert c.progress.Keys + {} == c.progress.Keys;
  }

  ghost predicate Supported(ccs: seq<Change>) {
    forall i | 0 <= i < |ccs| :: !Unsupported(ccs[i])
  }

  lemma {:induction false} ApplyAllEnlarges(ch: Changer, c: Changed, ccs: seq<Change>)
    requires c.config.incoming.Some? && Ids(c.config.learners) + Ids(c.config.learnersNext) <= c.progress.Keys
    ensures ApplyAll(ch, c, ccs).Ok? <==> Supported(ccs) && c.config.incoming.value + Added(ccs) != {}
    ensures ApplyAll(ch, c, ccs).Ok? ==> Enlarged(ch, c, ApplyAll(ch, c, ccs).value, Added(ccs))
    decreases |ccs|
  {
    hide Enlarged, MakeVoter;
    if ccs == [] {
      EnlargedByNone(ch, c);
      assert c.config.incoming.value + Added(ccs) == c.config.incoming.value;
    } else {
      AddedStep(ccs);
      var cc := ccs[0];
      if Unsupported(cc) {
        assert !Supported(ccs);
      } else {
        var c' := ApplyOne(ch, c, cc).value;
        var one := if cc.nodeID != 0 && cc.typ == RaftPb.ConfChangeAddNode then {cc.nodeID} else {};
        ApplyOneEnlarges(ch, c, cc);
        ApplyAllEnlarges(ch, c', ccs[1..]);
        assert Supported(ccs) <==> Supported(ccs[1..]) by {
          assert forall i | 0 <= i < |ccs[1..]| :: ccs[1..][i] == ccs[i + 1];
        }
        assert c.config.incoming.value + one + Added(ccs[1..]) == c.config.incoming.value + Added(ccs);
        if ApplyAll(ch, c, ccs).Ok? {
          EnlargedTwice(ch, c, c', ApplyAll(ch, c, ccs).value, one, Added(ccs[1..]));
        }
      }
    }
  }

  lemma ApplyOneEnlarges(ch: Changer, c: Changed, cc: Change)
    requires c.config.incoming.Some? && Ids(c.config.learners) + Ids(c.config.learnersNext) <= c.progress.Keys
    requires !Unsupported(cc)
    ensures var c' := ApplyOne(ch, c, cc).value;
      var one := if cc.nodeID != 0 && cc.typ == RaftPb.ConfChangeAddNode then {cc.nodeID} else {};
      && Enlarged(ch, c, c', one) && c'.config.incoming.value == c.config.incoming.value + one
      && Ids(c'.config.learners) + Ids(c'.config.learnersNext) <= c'.progress.Keys
  {
    if cc.nodeID != 0 && cc.typ == RaftPb.ConfChangeAddNode {
      MakeVoterEnlarges(ch, c, cc.nodeID);
    } else {
      EnlargedByNone(ch, c);
      assert c.config.incoming.value + {} == c.config.incoming.value;
    }
  }

  /** Enlarging a consistent simple configuration leaves a consistent simple configuration. */
  lemma EnlargedConsistent(ch: Changer, a: Changed, b: Changed, added: set<Word>)
    requires a.config.incoming.Some? && Consistent(a.config, a.progress) && !Joint(a.config)
    requires Enlarged(ch, a, b, added)
    ensures Consistent(b.config, b.progress) && !Joint(b.config)
    ensures b.config.incoming == Some(a.config.incoming.value + added)
  {
  }

  lemma GrowthSymDiff(voters: set<Word>, added: set<Word>)
    ensures SymDiff(voters, voters + added) == |added - voters|
  {
    assert voters - (voters + added) == {} && (voters + added) - voters == added - voters;
  }

  /**
   When Simple fails and what it yields otherwise, for every tracker and every list of changes. On
   a consistent simple configuration it fails exactly when a change with a node id has an
   unsupported type, when no voter would remain, or when more than one voter would be new.
   Otherwise the result is the enlarged configuration, consistent again. The check on the way in
   sees a clone, so a stray AutoLeave goes unnoticed.
   */
  lemma SimpleExactly(ch: Changer, ccs: seq<Change>)
    requires ch.config.incoming.Some?
    ensures var voters := ch.config.incoming.value;
      Simple(ch, ccs).Ok? <==>
        && Consistent(Clone(ch.config), ch.progress) && !Joint(ch.config)
        && Supported(ccs) && voters + Added(ccs) != {} && |Added(ccs) - voters| <= 1
    ensures Simple(ch, ccs).Ok? ==>
      var r := Simple(ch, ccs).value;
      && Enlarged(ch, Changed(Clone(ch.config), ch.progress), r, Added(ccs))
      && Consistent(r.config, r.progress) && !Joint(r.config)
  {
    var a, added, voters := Changed(Clone(ch.config), ch.progress), Added(ccs), ch.config.incoming.value;
    if Consistent(a.config, a.progress) && !Joint(a.config) {
      ApplyAllEnlarges(ch, a, ccs);
      hide Enlarged, Consistent, ApplyAll, Supported, Added, Joint;
      var r := ApplyAll(ch, a, ccs);
      if r.Ok? {
        EnlargedConsistent(ch, a, r.value, added);
        GrowthSymDiff(voters, added);
      }
    }
  }

  lemma {:induction false} ApplyAllFails(ch: Changer, c: Changed, ccs: seq<Change>)
    requires c.config.incoming.Some? && ApplyAll(ch, c, ccs).Err?
    ensures ApplyAll(ch, c, ccs).error == if Supported(ccs) then NoVoters else UnexpectedType
    decreases |ccs|
  {
    hide MakeVoter;
    if ccs != [] && !Unsupported(ccs[0]) {
      ApplyAllFails(ch, ApplyOne(ch, c, ccs[0]).value, ccs[1..]);
      assert Supported(ccs) <==> Supported(ccs[1..]) by {
        assert forall i | 0 <= i < |ccs[1..]| :: ccs[1..][i] == ccs[i + 1];
      }
    }
  }

  /** Which error Simple reports, in the order of its checks. */
  lemma SimpleFailsWith(ch: Changer, ccs: seq<Change>)
    requires ch.config.incoming.Some? && Simple(ch, ccs).Err?
    ensures Simple(ch, ccs).error ==
      if !Consistent(Clone(ch.config), ch.progress) then BadConfig
      else if Joint(ch.config) then InJoint
      else if !Supported(ccs) then UnexpectedType
      else if ch.config.incoming.value + Added(ccs) == {} then NoVoters
      else TooManyVoters
  {
    SimpleExactly(ch, ccs);
    var a := Changed(Clone(ch.config), ch.progress);
    if Consistent(a.config, a.progress) && !Joint(a.config) {
      ApplyAllEnlarges(ch, a, ccs);
      hide Enlarged, Consistent, ApplyAll, Supported, Added, Joint;
      var r := ApplyAll(ch, a, ccs);
      if r.Err? {
        ApplyAllFails(ch, a, ccs);
      } else {
        EnlargedConsistent(ch, a, r.value, Added(ccs));
      }
    }
  }

  /** Promoting the last learner leaves no learner map behind. */
  lemma PromotionClearsLearners(ch: Changer, id: Word)
    requires ch.config.incoming.Some? && id != 0 && id in ch.progress
    requires Simple(ch, [Change(RaftPb.ConfChangeAddNode, id)]).Ok?
    ensures var l := Simple(ch, [Change(RaftPb.ConfChangeAddNode, id)]).value.config.learners;
      l == if Ids(ch.config.learners) - {id} == {} then None else Some(Ids(ch.config.learners) - {id})
  {
    var ccs, a := [Change(RaftPb.ConfChangeAddNode, id)], Changed(Clone(ch.config), ch.progress);
    hide Consistent;
    assert ccs[1..] == [];
    assert ApplyOne(ch, a, ccs[0]) == Ok(MakeVoter(ch, a, id));
    assert ApplyAll(ch, a, ccs) == ApplyAll(ch, MakeVoter(ch, a, id), []);
  }

  /** A new voter starts with nothing acknowledged and next at the last index; nobody else's record moves. */
  lemma NewVotersStartFresh(ch: Changer, ccs: seq<Change>, id: Word)
    requires ch.config.incoming.Some? && Simple(ch, ccs).Ok? && id in Simple(ch, ccs).value.progress
    ensures var pr := Simple(ch, ccs).value.progress[id];
      if id in ch.progress then
        var was := ch.progress[id];
        && pr.matched == was.matched && pr.next == was.next && pr.recentActive == was.recentActive
        && pr.maxInflight == was.maxInflight && (pr.isLearner <==> was.isLearner && id !in Added(ccs))
      else
        && id in Added(ccs) && pr.matched == 0 && pr.next == ch.lastIndex && pr.recentActive && !pr.isLearner
        && pr.maxInflight == ch.maxInflight
  {
    hide Simple;
    SimpleExactly(ch, ccs);
  }

  /** An inconsistent configuration that Simple takes nevertheless: AutoLeave without a joint configuration. */
  lemma StrayAutoLeaveIsAccepted(prs: Progress, lastIndex: int, maxInflight: int)
    requires !prs.isLearner
    ensures var c := EmptyConfig.(incoming := Some({1}), autoLeave := true);
      var ch := Changer(c, map[1 := prs], lastIndex, maxInflight);
      !Joint(c) && !Consistent(c, ch.progress) && Simple(ch, []).Ok? && !Simple(ch, []).value.config.autoLeave
  {
    var c := EmptyConfig.(incoming := Some({1}), autoLeave := true);
    var ch := Changer(c, map[1 := prs], lastIndex, maxInflight);
    SimpleExactly(ch, []);
    assert Added([]) == {} && {} - {1} == {} && |Added([]) - {1}| == 0;
  }

  /**
   The single-voter rule is safe: a set of voters that elects a leader under the old configuration
   and one that does so under the new share a voter who belongs to both.
   */
  lemma SimpleKeepsQuorumsOverlapping(ch: Changer, ccs: seq<Change>, v: Votes, w: Votes) returns (id: Word)
    requires ch.config.incoming.Some? && ch.config.incoming.value != {} && Simple(ch, ccs).Ok?
    requires Outcome(ch.config, v) == VoteWon && Outcome(Simple(ch, ccs).value.config, w) == VoteWon
    ensures id in ch.config.incoming.value && id in Ids(Simple(ch, ccs).value.config.incoming)
    ensures id in v && v[id] && id in w && w[id]
  {
    hide ApplyAll, Consistent, MajorityResult;
    var r := Simple(ch, ccs).value.config;
    id := WinnersOverlap(ch.config.incoming.value, r.incoming.value, v, w);
  }

  // ------------------------------------------------------------------- runs

  /** applyConfChange with everything else in between: a change, or a reset of every progress. */
  datatype Event = Apply(ccs: seq<Change>, lastIndex: int) | Reset(lastIndex: int, self: Word)

  /** One event; a failing change panics, which ends the run. */
  function After(c: Changed, e: Event, maxInflight: int): Result<Changed, ChangeError>
    requires c.config.incoming.Some?
  {
    match e
    case Apply(ccs, lastIndex) => Simple(Changer(c.config, c.progress, lastIndex, maxInflight), ccs)
    case Reset(lastIndex, self) => Ok(c.(progress := ResetProgress(c.progress, lastIndex, self, maxInflight)))
  }

  lemma EventKeepsVotersOnly(c: Changed, e: Event, maxInflight: int)
    requires VotersOnly(c.config, c.progress) && After(c, e, maxInflight).Ok?
    ensures var c' := After(c, e, maxInflight).value; VotersOnly(c'.config, c'.progress)
  {
    match e
    case Apply(ccs, lastIndex) =>
      var ch := Changer(c.config, c.progress, lastIndex, maxInflight);
      SimpleExactly(ch, ccs);
    case Reset(lastIndex, self) =>
      assert ResetProgress(c.progress, lastIndex, self, maxInflight).Keys == c.progress.Keys;
  }

  ghost predicate Reachable(c: Changed, events: seq<Event>, maxInflight: int)
    decreases |events|
  {
    if events == [] then c == Changed(EmptyConfig, map[])
    else exists b: Changed ::
      && Reachable(b, events[..|events| - 1], maxInflight) && b.config.incoming.Some?
      && After(b, events[|events| - 1], maxInflight) == Ok(c)
  }

  /**
   After any run of successful changes from MakeProgressTracker, resets in between included, the
   progress map tracks exactly the voters and no learner.
   */
  lemma {:induction false} RunKeepsVotersOnly(c: Changed, events: seq<Event>, maxInflight: int)
    requires Reachable(c, events, maxInflight)
    ensures VotersOnly(c.config, c.progress)
    decreases |events|
  {
    if events != [] {
      var b: Changed :| Reachable(b, events[..|events| - 1], maxInflight) && b.config.incoming.Some?
        && After(b, events[|events| - 1], maxInflight) == Ok(c);
      RunKeepsVotersOnly(b, events[..|events| - 1], maxInflight);
      EventKeepsVotersOnly(b, events[|events| - 1], maxInflight);
    }
  }

  /** So after any such run TallyVotes' granted and rejected counts decide every election. */
  lemma ReachableCountsDecide(c: Changed, events: seq<Event>, maxInflight: int, votes: Votes)
    requires Reachable(c, events, maxInflight) && Ids(c.config.incoming) != {}
    ensures var n := |c.progress|;
      && (Outcome(c.config, votes) == VoteWon <==> |Voted(c.progress, votes, true)| >= n / 2 + 1)
      && (Outcome(c.config, votes) == VoteLost <==> n - |Voted(c.progress, votes, false)| < n / 2 + 1)
  {
    RunKeepsVotersOnly(c, events, maxInflight);
    CountsDecide(c.config, c.progress, votes);
    assert |c.progress| == |c.progress.Keys|;
  }
}
