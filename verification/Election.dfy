/**
 The election state machine of one node: terms, votes and randomised timeouts. The random draw of
 every reset is a parameter, so that each result holds for all of them. Pre-vote is off.
 */
module Election {
  import opened Prelude
  import opened Quorum
  import opened Tracker
  import opened ConfChange
  import RaftPb

  datatype Role = Follower | Candidate | Leader

  /** base is electionTimeout and timeout its randomised form; last is the last index of the log. */
  datatype Node = Node(
    id: Word, term: Word, vote: Word, lead: Word, role: Role, isLearner: bool,
    elapsed: int, timeout: int, base: int, last: int,
    config: Config, progress: ProgressMap, votes: Votes, maxInflight: int)

  const NoNode: Word := 0

  function Reset(n: Node, term: Word, draw: int): Node {
    n.(term := term, vote := if n.term != term then NoNode else n.vote, lead := NoNode,
       elapsed := 0, timeout := n.base + draw, votes := map[],
       progress := ResetProgress(n.progress, n.last, n.id, n.maxInflight))
  }

  function BecomeFollower(n: Node, term: Word, lead: Word, draw: int): Node {
    Reset(n, term, draw).(lead := lead, role := Follower)
  }

  /** The next term wraps around; a leader that gets here panics. */
  function BecomeCandidate(n: Node, draw: int): Node
    requires n.role != Leader
  {
    Reset(n, Wrap(n.term + 1), draw).(vote := n.id, role := Candidate)
  }

  function Campaign(n: Node, draw: int): Node
    requires n.role != Leader
  {
    var c := BecomeCandidate(n, draw);
    c.(votes := Record(c.votes, n.id, true))
  }

  lemma CampaignKeeps(n: Node, draw: int)
    requires n.role != Leader
    ensures BecomeCandidate(n, draw).config == n.config && BecomeCandidate(n, draw).votes == map[]
  {
  }

  predicate Promotable(n: Node) {
    n.id in n.progress && !n.progress[n.id].isLearner
  }

  /** Step: only MsgHup has an effect. */
  function Receive(n: Node, m: RaftPb.Message, draw: int): Node {
    if m.typ == RaftPb.MsgHup && n.role != Leader && Promotable(n) then Campaign(n, draw) else n
  }

  function Hup(n: Node): RaftPb.Message {
    RaftPb.NoMessage.(typ := RaftPb.MsgHup, from := n.id)
  }

  predicate Due(n: Node) {
    Promotable(n) && n.elapsed + 1 >= n.timeout
  }

  function Tick(n: Node, draw: int): Node {
    if Due(n) then Receive(n.(elapsed := 0), Hup(n), draw) else n.(elapsed := n.elapsed + 1)
  }

  function ChangerOf(n: Node): Changer {
    Changer(n.config, n.progress, n.last, n.maxInflight)
  }

  /** switchToConfig for a node that is not the leader. */
  function Switch(n: Node, c: Changed): Node {
    n.(config := c.config, progress := c.progress,
       isLearner := n.id in c.progress && c.progress[n.id].isLearner)
  }

  // ----------------------------------------------------- what they leave

  /** Every tracked peer starts again behind the log, only the node itself with all of it. */
  ghost predicate PeersRestart(n: Node, n': Node) {
    && n'.progress.Keys == n.progress.Keys
    && forall id | id in n.progress ::
         var pr := n'.progress[id];
         && pr.matched == (if id == n.id then n.last else 0) && pr.next == n.last + 1
         && !pr.recentActive && pr.maxInflight == n.maxInflight && pr.isLearner == n.progress[id].isLearner
  }

  ghost predicate SameElsewhere(n: Node, n': Node) {
    && n'.id == n.id && n'.isLearner == n.isLearner && n'.base == n.base && n'.last == n.last
    && n'.config == n.config && n'.maxInflight == n.maxInflight
  }

  lemma CampaignLeaves(n: Node, draw: int)
    requires n.role != Leader
    ensures var n' := Campaign(n, draw);
      && n'.term == (n.term + 1) % U64 && n'.vote == n.id && n'.lead == 0 && n'.role == Candidate
      && n'.elapsed == 0 && n'.timeout == n.base + draw && n'.votes == map[n.id := true]
      && PeersRestart(n, n') && SameElsewhere(n, n')
  {
  }

  lemma FollowerLeaves(n: Node, term: Word, lead: Word, draw: int)
    ensures var n' := BecomeFollower(n, term, lead, draw);
      && n'.term == term && n'.lead == lead && n'.role == Follower
      && n'.vote == (if term == n.term then n.vote else 0)
      && n'.elapsed == 0 && n'.timeout == n.base + draw && n'.votes == map[]
      && PeersRestart(n, n') && SameElsewhere(n, n')
  {
  }

  /** A message other than MsgHup, or to a leader or a node that may not campaign, changes nothing. */
  lemma OnlyHupMatters(n: Node, m: RaftPb.Message, draw: int)
    ensures m.typ != 0 || n.role == Leader || n.id !in n.progress || n.progress[n.id].isLearner ==>
      Receive(n, m, draw) == n
    ensures m.typ == 0 && n.role != Leader && n.id in n.progress && !n.progress[n.id].isLearner ==>
      Receive(n, m, draw).role == Candidate && Receive(n, m, draw).term == (n.term + 1) % U64
  {
  }

  /** A leader's clock goes round without a campaign. */
  lemma LeaderTicks(n: Node, draw: int)
    requires n.role == Leader && n.id in n.progress && !n.progress[n.id].isLearner
    ensures Tick(n, draw) == n.(elapsed := if n.elapsed + 1 >= n.timeout then 0 else n.elapsed + 1)
  {
  }

  /** A node is a learner exactly when it is tracked as one; the rest of it does not move. */
  lemma SwitchLeaves(n: Node, c: Changed)
    ensures var n' := Switch(n, c);
      && n'.config == c.config && n'.progress == c.progress
      && (n'.isLearner <==> n.id in c.progress && c.progress[n.id].isLearner)
      && n' == n.(config := c.config, progress := c.progress, isLearner := n'.isLearner)
  {
  }

  // ------------------------------------------------------------------- runs

  datatype Op =
    | Ticked(draw: int)
    | Stepped(m: RaftPb.Message, draw: int)
    | Followed(term: Word, lead: Word, draw: int)
    | Configured(ccs: seq<Change>)
    | Logged(last: int)

  /** What keeps the call from panicking, and for becomeFollower a term that is not in the past. */
  predicate Enabled(n: Node, op: Op) {
    match op
    case Ticked(draw) => 0 <= draw < n.base
    case Stepped(_, draw) => 0 <= draw < n.base
    case Followed(term, _, draw) => 0 <= draw < n.base && term >= n.term
    case Configured(ccs) => n.config.incoming.Some? && Simple(ChangerOf(n), ccs).Ok?
    case Logged(_) => true
  }

  function Next(n: Node, op: Op): Node
    requires Enabled(n, op)
  {
    match op
    case Ticked(draw) => Tick(n, draw)
    case Stepped(m, draw) => Receive(n, m, draw)
    case Followed(term, lead, draw) => BecomeFollower(n, term, lead, draw)
    case Configured(ccs) => Switch(n, Simple(ChangerOf(n), ccs).value)
    case Logged(last) => n.(last := last)
  }

  /** The operation starts a campaign. */
  predicate Campaigns(n: Node, op: Op) {
    n.role != Leader &&
    match op
    case Ticked(_) => Due(n)
    case Stepped(m, _) => m.typ == RaftPb.MsgHup && Promotable(n)
    case _ => false
  }

  /** Growth of the log changes what the next reset starts from, and nothing else. */
  lemma LoggedLeaves(n: Node, last: int, draw: int)
    requires n.role != Leader && n.id in n.progress
    ensures var n' := Next(n, Logged(last));
      n'.(last := n.last) == n && Campaign(n', draw).progress[n.id].matched == last
  {
  }

  /** A campaign in the last term a uint64 can hold. */
  predicate WrapsTerm(n: Node, op: Op) {
    Campaigns(n, op) && n.term == U64 - 1
  }

  /** The term falls exactly when a campaign wraps it around, and the vote changes only with the term. */
  lemma StepTermVote(n: Node, op: Op)
    requires Enabled(n, op)
    ensures Next(n, op).term >= n.term <==> !WrapsTerm(n, op)
    ensures WrapsTerm(n, op) ==> Next(n, op).term == 0
    ensures Campaigns(n, op) ==> Next(n, op).term != n.term && Next(n, op).vote == n.id
    ensures Next(n, op).term == n.term ==> Next(n, op).vote == n.vote
  {
    hide Simple, ResetProgress;
  }

  ghost predicate Legal(n: Node, ops: seq<Op>)
    decreases |ops|
  {
    ops == [] || (Enabled(n, ops[0]) && Legal(Next(n, ops[0]), ops[1..]))
  }

  function Run(n: Node, ops: seq<Op>): Node
    requires Legal(n, ops)
    decreases |ops|
  {
    if ops == [] then n else Run(Next(n, ops[0]), ops[1..])
  }

  ghost predicate NeverWraps(n: Node, ops: seq<Op>)
    requires Legal(n, ops)
    decreases |ops|
  {
    ops == [] || (!WrapsTerm(n, ops[0]) && NeverWraps(Next(n, ops[0]), ops[1..]))
  }

  ghost predicate TermNeverFalls(n: Node, ops: seq<Op>)
    requires Legal(n, ops)
    decreases |ops|
  {
    ops == [] || (Next(n, ops[0]).term >= n.term && TermNeverFalls(Next(n, ops[0]), ops[1..]))
  }

  /**
   Over every run, the term never falls and the vote never changes within a term, exactly as long
   as no campaign starts in the last term there is.
   */
  lemma {:induction false} RunTermVote(n: Node, ops: seq<Op>)
    requires Legal(n, ops)
    ensures TermNeverFalls(n, ops) <==> NeverWraps(n, ops)
    ensures NeverWraps(n, ops) ==>
      var n' := Run(n, ops); n'.term >= n.term && (n'.term == n.term ==> n'.vote == n.vote)
    decreases |ops|
  {
    if ops != [] {
      hide Next, Enabled;
      StepTermVote(n, ops[0]);
      RunTermVote(Next(n, ops[0]), ops[1..]);
    }
  }

  /** Past the last term the promise breaks: a vote already given is forgotten within its term. */
  lemma WrapForgetsVote(n: Node)
    requires Promotable(n) && n.role != Leader && n.term == U64 - 1 && n.vote != NoNode && n.base >= 1
    ensures var ops := [Stepped(Hup(n), 0), Followed(U64 - 1, NoNode, 0)];
      && Legal(n, ops) && !NeverWraps(n, ops)
      && Run(n, ops).term == n.term && Run(n, ops).vote == NoNode
  {
    var ops := [Stepped(Hup(n), 0), Followed(U64 - 1, NoNode, 0)];
    var n1 := Campaign(n, 0);
    var n2 := BecomeFollower(n1, U64 - 1, NoNode, 0);
    var rest := ops[1..];
    assert rest == [Followed(U64 - 1, NoNode, 0)] && rest[1..] == [];
    assert Next(n, ops[0]) == n1 && Next(n1, rest[0]) == n2;
    assert Legal(n2, rest[1..]) && Run(n2, rest[1..]) == n2;
    assert Legal(n1, rest) && Run(n1, rest) == n2;
  }

  // ------------------------------------------------------------ who can win

  lemma OwnVoteInHalf(c: set<Word>, id: Word)
    ensures MajorityResult(c, map[id := true]) == VoteWon <==> c <= {id}
  {
    var votes: Votes := map[id := true];
    if c != {} {
      if id in c {
        assert Yes(c, votes) == {id};
        if !(c <= {id}) {
          var other :| other in c && other != id;
          SubsetSize({id, other}, c);
        } else {
          assert c == {id};
        }
      } else {
        assert Yes(c, votes) == {};
        var some :| some in c;
        assert !(c <= {id});
      }
    }
  }

  lemma WonByOwnVote(c: Config, id: Word)
    requires id in VoterIds(c)
    ensures Outcome(c, map[id := true]) == VoteWon <==> VoterIds(c) == {id}
  {
    hide MajorityResult;
    OwnVoteInHalf(Ids(c.incoming), id);
    OwnVoteInHalf(Ids(c.outgoing), id);
  }

  /** A voter's campaign is won by its own vote exactly when it is the only voter, joint or not. */
  lemma OwnVoteWinsExactly(n: Node, draw: int)
    requires n.role != Leader && n.id in VoterIds(n.config)
    ensures Outcome(n.config, Campaign(n, draw).votes) == VoteWon <==> VoterIds(n.config) == {n.id}
  {
    hide MajorityResult, ResetProgress, Outcome, VoterIds;
    WonByOwnVote(n.config, n.id);
  }

  /** The tracked peers are the voters, and a candidate is one of them. */
  ghost predicate Tracking(n: Node) {
    VotersOnly(n.config, n.progress) && (n.role == Candidate ==> n.id in n.progress)
  }

  lemma StepKeepsTracking(n: Node, op: Op)
    requires Tracking(n) && Enabled(n, op)
    ensures Tracking(Next(n, op))
  {
    hide Simple;
    if op.Configured? {
      hide *;
      ConfiguredKeepsTracking(n, op.ccs);
    } else {
      EventKeepsVotersOnly(Changed(n.config, n.progress), Event.Reset(n.last, n.id), n.maxInflight);
    }
  }

  lemma ConfiguredKeepsTracking(n: Node, ccs: seq<Change>)
    requires Tracking(n) && Enabled(n, Configured(ccs))
    ensures Tracking(Next(n, Configured(ccs)))
  {
    hide Simple, Consistent, Added, Supported;
    SimpleExactly(ChangerOf(n), ccs);
    EventKeepsVotersOnly(Changed(n.config, n.progress), Event.Apply(ccs, n.last), n.maxInflight);
  }

  /** A node votes for itself or for nobody, a candidate always for itself, and nobody leads. */
  predicate SelfVoting(n: Node) {
    && n.role != Leader && n.vote in {NoNode, n.id}
    && (n.role == Candidate ==> n.vote == n.id && n.votes == map[n.id := true])
  }

  lemma StepKeepsSelfVoting(n: Node, op: Op)
    requires SelfVoting(n) && Enabled(n, op)
    ensures SelfVoting(Next(n, op)) && Next(n, op).id == n.id
  {
    hide Simple, ResetProgress;
  }

  lemma {:induction false} RunKeepsSelfVoting(n: Node, ops: seq<Op>)
    requires SelfVoting(n) && Tracking(n) && Legal(n, ops)
    ensures SelfVoting(Run(n, ops)) && Tracking(Run(n, ops)) && Run(n, ops).id == n.id
    decreases |ops|
  {
    if ops != [] {
      hide SelfVoting, Tracking, Next, Enabled;
      StepKeepsSelfVoting(n, ops[0]);
      StepKeepsTracking(n, ops[0]);
      RunKeepsSelfVoting(Next(n, ops[0]), ops[1..]);
    }
  }

  /** The node newRaft makes. */
  predicate Blank(n: Node) {
    n.config == EmptyConfig && n.progress == map[] && n.role == Follower && n.vote == NoNode
  }

  /**
   In every run of a new node, whatever its membership has become since: it has voted for nobody
   but itself, and as a candidate it has won exactly when it is the only voter.
   */
  lemma CandidateHasWonExactly(n: Node, ops: seq<Op>)
    requires Blank(n) && Legal(n, ops)
    ensures var n' := Run(n, ops); n'.id == n.id && n'.vote in {NoNode, n.id}
    ensures var n' := Run(n, ops);
      n'.role == Candidate ==>
        n'.vote == n.id && (Outcome(n'.config, n'.votes) == VoteWon <==> Ids(n'.config.incoming) == {n.id})
  {
    RunKeepsSelfVoting(n, ops);
    hide Outcome, Run;
    var n' := Run(n, ops);
    if n'.role == Candidate { WonByOwnVote(n'.config, n'.id); }
  }

  // ------------------------------------------------------------------ ticks

  predicate Draws(base: int, draws: seq<int>) {
    forall i | 0 <= i < |draws| :: 0 <= draws[i] < base
  }

  function Ticks(n: Node, draws: seq<int>): Node
    decreases |draws|
  {
    if draws == [] then n else Ticks(Tick(n, draws[0]), draws[1..])
  }

  /** How many of the ticks start a campaign. */
  function CampaignsIn(n: Node, draws: seq<int>): nat
    decreases |draws|
  {
    if draws == [] then 0
    else (if Campaigns(n, Ticked(draws[0])) then 1 else 0) + CampaignsIn(Tick(n, draws[0]), draws[1..])
  }

  /** A node that may campaign, some ticks into a timeout that a reset could have drawn. */
  ghost predicate Running(n: Node) {
    && Promotable(n) && n.role != Leader
    && 0 <= n.elapsed < n.timeout && n.base <= n.timeout < 2 * n.base
  }

  lemma TickRuns(n: Node, draw: int)
    requires Running(n) && 0 <= draw < n.base
    ensures var n' := Tick(n, draw);
      && Running(n') && n'.base == n.base
      && (Campaigns(n, Ticked(draw)) <==> n.elapsed + 1 == n.timeout)
      && (if n.elapsed + 1 == n.timeout
          then n'.elapsed == 0 && n'.timeout == n.base + draw && n'.term == Wrap(n.term + 1)
               && n'.role == Candidate && n'.votes == map[n.id := true] && n'.config == n.config && n'.id == n.id
          else n' == n.(elapsed := n.elapsed + 1))
  {
  }

  lemma OneMore(c: nat, t: int)
    ensures (c + 1) * t == c * t + t
  {
  }

  lemma {:induction false} TickBounds(n: Node, draws: seq<int>)
    requires Running(n) && Draws(n.base, draws)
    ensures var c := CampaignsIn(n, draws);
      && (c >= 1 ==> n.elapsed + |draws| >= n.timeout + (c - 1) * n.base)
      && n.elapsed + |draws| < n.timeout + c * (2 * n.base - 1)
    decreases |draws|
  {
    assert n.elapsed < n.timeout && 1 <= n.base <= n.timeout < 2 * n.base;
    if draws != [] {
      TickRuns(n, draws[0]);
      var n' := Tick(n, draws[0]);
      assert Draws(n.base, draws[1..]);
      assert n.base <= n'.timeout < 2 * n.base;
      hide Tick, Running, Campaigns, Draws;
      var c' := CampaignsIn(n', draws[1..]);
      TickBounds(n', draws[1..]);
      OneMore(c', 2 * n.base - 1);
      if c' >= 1 { OneMore(c' - 1, n.base); }
    }
  }

  lemma {:induction false} TicksTerm(n: Node, draws: seq<int>)
    requires Running(n) && Draws(n.base, draws)
    ensures Ticks(n, draws).term == Wrap(n.term + CampaignsIn(n, draws))
    decreases |draws|
  {
    if draws != [] {
      assert Draws(n.base, draws[1..]);
      var n', one := Tick(n, draws[0]), if Campaigns(n, Ticked(draws[0])) then 1 else 0;
      assert Ticks(n, draws) == Ticks(n', draws[1..]);
      assert CampaignsIn(n, draws) == one + CampaignsIn(n', draws[1..]);
      hide *;
      TickTerm(n, draws[0]);
      TicksTerm(n', draws[1..]);
      WrapTwice(n.term, one, CampaignsIn(n', draws[1..]));
    }
  }

  lemma TickTerm(n: Node, draw: int)
    requires Running(n) && 0 <= draw < n.base
    ensures Running(Tick(n, draw)) && Tick(n, draw).base == n.base
    ensures Tick(n, draw).term == Wrap(n.term + if Campaigns(n, Ticked(draw)) then 1 else 0)
  {
    TickRuns(n, draw);
  }

  lemma {:induction false} TicksRole(n: Node, draws: seq<int>)
    requires Running(n) && Draws(n.base, draws)
    ensures var n' := Ticks(n, draws);
      && n'.config == n.config && n'.id == n.id
      && (if CampaignsIn(n, draws) == 0 then n' == n.(elapsed := n.elapsed + |draws|)
          else n'.role == Candidate && n'.votes == map[n.id := true])
    decreases |draws|
  {
    if draws != [] {
      TickRuns(n, draws[0]);
      assert Draws(n.base, draws[1..]);
      hide Tick, Running, Campaigns, Draws, Wrap;
      TicksRole(Tick(n, draws[0]), draws[1..]);
    }
  }

  /** Ticks do what their campaigns do: raise the term, and leave a candidate with its own vote. */
  lemma TicksAddTerms(n: Node, draws: seq<int>)
    requires Running(n) && Draws(n.base, draws)
    ensures var c := CampaignsIn(n, draws); var n' := Ticks(n, draws);
      && n'.term == Wrap(n.term + c) && n'.config == n.config && n'.id == n.id
      && (if c == 0 then n' == n.(elapsed := n.elapsed + |draws|)
          else n'.role == Candidate && n'.votes == map[n.id := true])
  {
    hide *;
    TicksTerm(n, draws);
    TicksRole(n, draws);
  }

  lemma WrapTwice(x: Word, a: nat, b: nat)
    ensures Wrap(Wrap(x + a) + b) == Wrap(x + (a + b))
  {
  }

  /** c timeouts, each from T to 2T - 1 ticks, fit into k ticks, and c + 1 do not. */
  predicate Paced(t: int, k: nat, c: nat) {
    c * t <= k < (c + 1) * (2 * t - 1)
  }

  lemma PacedFrom(f: int, t: int, k: nat, c: nat)
    requires t <= f <= 2 * t - 1
    requires (c >= 1 ==> k >= f + (c - 1) * t) && k < f + c * (2 * t - 1)
    ensures Paced(t, k, c)
  {
    OneMore(c, 2 * t - 1);
    if c >= 1 { OneMore(c - 1, t); }
  }

  lemma CampaignsArePaced(n: Node, draws: seq<int>)
    requires Running(n) && n.elapsed == 0 && Draws(n.base, draws)
    ensures Paced(n.base, |draws|, CampaignsIn(n, draws))
  {
    assert n.base <= n.timeout <= 2 * n.base - 1;
    hide *;
    TickBounds(n, draws);
    PacedFrom(n.timeout, n.base, |draws|, CampaignsIn(n, draws));
  }

  /**
   From a reset on, k ticks cause c campaigns with c * T <= k < (c + 1) * (2T - 1), whatever
   timeouts are drawn, and raise the term by c.
   */
  lemma ElectionPace(n: Node, draws: seq<int>)
    requires Running(n) && n.elapsed == 0 && Draws(n.base, draws)
    ensures var c := CampaignsIn(n, draws);
      Paced(n.base, |draws|, c) && Ticks(n, draws).term == Wrap(n.term + c)
  {
    hide *;
    CampaignsArePaced(n, draws);
    TicksAddTerms(n, draws);
  }

  /** Fast-forwarding T - 1 ticks after a reset never starts an election: only the clock moves. */
  lemma FastForwardIsQuiet(n: Node, draws: seq<int>)
    requires Running(n) && n.elapsed == 0 && Draws(n.base, draws) && |draws| <= n.base - 1
    ensures Ticks(n, draws) == n.(elapsed := |draws|)
  {
    hide *;
    CampaignsArePaced(n, draws);
    TicksAddTerms(n, draws);
    NoneFits(n.base, |draws|, CampaignsIn(n, draws));
  }

  lemma NoneFits(t: int, k: nat, c: nat)
    requires Paced(t, k, c) && k < t
    ensures c == 0
  {
    Multiple(c, t);
  }

  lemma Multiple(c: nat, t: int)
    ensures c >= 1 && t >= 0 ==> c * t >= t
  {
  }

  lemma SomeFits(t: int, k: nat, c: nat)
    requires Paced(t, k, c) && k >= 2 * t - 1
    ensures c >= 1
  {
  }

  lemma CampaignsInTime(n: Node, draws: seq<int>)
    requires Running(n) && n.elapsed == 0 && Draws(n.base, draws) && |draws| >= 2 * n.base - 1
    ensures CampaignsIn(n, draws) >= 1
  {
    hide *;
    CampaignsArePaced(n, draws);
    SomeFits(n.base, |draws|, CampaignsIn(n, draws));
  }

  /** A lone voter is elected within 2T - 1 ticks of a reset; with other voters, its own vote never suffices. */
  lemma LoneVoterWinsInTime(n: Node, draws: seq<int>)
    requires Running(n) && n.elapsed == 0 && Draws(n.base, draws) && n.id in VoterIds(n.config)
    requires |draws| >= 2 * n.base - 1
    ensures var n' := Ticks(n, draws);
      n'.role == Candidate && (Outcome(n'.config, n'.votes) == VoteWon <==> VoterIds(n.config) == {n.id})
  {
    CampaignsInTime(n, draws);
    TicksAddTerms(n, draws);
    WonByOwnVote(n.config, n.id);
  }

  // --------------------------------------------------- the pace is exact

  function Zeros(k: nat): seq<int> {
    seq(k, _ => 0)
  }

  /** The first of c timeouts out of k ticks. */
  function FirstTimeout(t: int, k: nat, c: nat): int {
    if c == 0 then 2 * t - 1 else Min(2 * t - 1, k - (c - 1) * t)
  }

  lemma FirstTimeoutFits(t: int, k: nat, c: nat)
    requires t >= 1 && Paced(t, k, c)
    ensures var f := FirstTimeout(t, k, c);
      && t <= f <= 2 * t - 1
      && (c == 0 ==> k < f)
      && (c >= 1 ==> f <= k && Paced(t, k - f, c - 1))
  {
    if c >= 1 {
      OneMore(c - 1, t);
      OneMore(c, 2 * t - 1);
      OneMore(c - 1, 2 * t - 1);
      Larger(c - 1, t, 2 * t - 1);
    }
  }

  lemma Larger(c: nat, a: int, b: int)
    requires a <= b
    ensures c * a <= c * b
  {
  }

  /** Draws that make exactly c of k ticks campaign, given that the first timeout is FirstTimeout. */
  ghost function Schedule(t: int, k: nat, c: nat): (draws: seq<int>)
    requires t >= 1 && Paced(t, k, c)
    ensures |draws| == k
    decreases c
  {
    FirstTimeoutFits(t, k, c);
    var f := FirstTimeout(t, k, c);
    if c == 0 then Zeros(k)
    else
      FirstTimeoutFits(t, k - f, c - 1);
      Zeros(f - 1) + ([FirstTimeout(t, k - f, c - 1) - t] + Schedule(t, k - f, c - 1))
  }

  lemma {:induction false} TicksThenTicks(n: Node, a: seq<int>, b: seq<int>)
    ensures CampaignsIn(n, a + b) == CampaignsIn(n, a) + CampaignsIn(Ticks(n, a), b)
    decreases |a|
  {
    if a == [] {
      assert a + b == b;
    } else {
      hide Tick, Campaigns;
      assert (a + b)[1..] == a[1..] + b;
      TicksThenTicks(Tick(n, a[0]), a[1..], b);
    }
  }

  lemma {:induction false} QuietTicks(n: Node, k: nat)
    requires Running(n) && n.elapsed + k < n.timeout
    ensures CampaignsIn(n, Zeros(k)) == 0 && Ticks(n, Zeros(k)) == n.(elapsed := n.elapsed + k)
    decreases k
  {
    if k > 0 {
      assert Zeros(k)[1..] == Zeros(k - 1);
      QuietTicks(n.(elapsed := n.elapsed + 1), k - 1);
    }
  }

  /** Ticks up to and including the one that is due. */
  lemma OneCampaign(n: Node, draw: int, rest: seq<int>)
    requires Running(n) && n.elapsed == 0 && 0 <= draw < n.base
    ensures var n' := Tick(n.(elapsed := n.timeout - 1), draw);
      && Running(n') && n'.elapsed == 0 && n'.timeout == n.base + draw && n'.base == n.base
      && CampaignsIn(n, Zeros(n.timeout - 1) + ([draw] + rest)) == 1 + CampaignsIn(n', rest)
  {
    var n1 := n.(elapsed := n.timeout - 1);
    assert Running(n1);
    QuietTicks(n, n.timeout - 1);
    hide Tick, Campaigns, Running, Zeros;
    TicksThenTicks(n, Zeros(n.timeout - 1), [draw] + rest);
    TickRuns(n1, draw);
    assert ([draw] + rest)[1..] == rest;
  }

  lemma {:induction false} ScheduleWorks(n: Node, k: nat, c: nat)
    requires n.base >= 1 && Paced(n.base, k, c)
    requires Running(n) && n.elapsed == 0 && n.timeout == FirstTimeout(n.base, k, c)
    ensures Draws(n.base, Schedule(n.base, k, c)) && CampaignsIn(n, Schedule(n.base, k, c)) == c
    decreases c
  {
    hide CampaignsIn, Tick, Running, FirstTimeout, Paced;
    var t, f := n.base, n.timeout;
    FirstTimeoutFits(t, k, c);
    if c == 0 {
      QuietTicks(n, k);
    } else {
      FirstTimeoutFits(t, k - f, c - 1);
      var draw, rest := FirstTimeout(t, k - f, c - 1) - t, Schedule(t, k - f, c - 1);
      OneCampaign(n, draw, rest);
      ScheduleWorks(Tick(n.(elapsed := f - 1), draw), k - f, c - 1);
    }
  }

  /** Every pace within those bounds occurs: the bounds cannot be narrowed. */
  lemma ElectionPaceIsExact(n: Node, k: nat, c: nat) returns (draw: int, draws: seq<int>)
    requires Promotable(n) && n.role != Leader && n.base >= 1
    requires Paced(n.base, k, c)
    ensures 0 <= draw < n.base && Draws(n.base, draws) && |draws| == k
    ensures CampaignsIn(Reset(n, n.term, draw), draws) == c
  {
    FirstTimeoutFits(n.base, k, c);
    draw, draws := FirstTimeout(n.base, k, c) - n.base, Schedule(n.base, k, c);
    ScheduleWorks(Reset(n, n.term, draw), k, c);
  }
}
