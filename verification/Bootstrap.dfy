/**
 What a first start leaves behind: the initial members as committed log entries and, at the same
 time, as the applied configuration; replaying the entries gives that configuration again.
 */
module Bootstrap {
  import opened Prelude
  import opened Wire
  import opened RaftPb
  import opened RaftPbRoundTrip
  import opened RaftPbBytes
  import opened Tracker
  import opened Storage
  import CC = ConfChange
  import R = RaftLog

  datatype Peer = Peer(id: Word, context: Option<seq<Byte>>)

  /** The change that the log entry of a peer carries. */
  function JoinOf(p: Peer): ConfChange {
    NoConfChange.(typ := ConfChangeAddNode, nodeID := p.id, context := p.context)
  }

  function JoinEntry(p: Peer, index: Word): Entry {
    Entry(1, index, EntryConfChange, Some(EncodeConfChange(JoinOf(p))), [])
  }

  /** The entries of the peers, the first with the given index. */
  function JoinEntries(peers: seq<Peer>, first: nat): (es: seq<Entry>)
    requires first + |peers| <= U64
    ensures |es| == |peers| && forall i | 0 <= i < |es| :: es[i] == JoinEntry(peers[i], first + i)
  {
    seq(|peers|, i requires 0 <= i < |peers| => JoinEntry(peers[i], first + i))
  }

  /** ConfChange.AsV2, as far as Simple looks at it. */
  function AsV2(c: ConfChange): seq<CC.Change> {
    [CC.Change(c.typ, c.nodeID)]
  }

  lemma AsV2Exactly(c: ConfChange)
    ensures |AsV2(c)| == 1 && AsV2(c)[0].typ == c.typ && AsV2(c)[0].nodeID == c.nodeID
  {
  }

  const NoMembers := CC.Changed(EmptyConfig, map[])

  function Change(c: CC.Changed, cc: ConfChange, last: int, maxInflight: int): Result<CC.Changed, CC.ChangeError>
    requires c.config.incoming.Some?
  {
    CC.Simple(CC.Changer(c.config, c.progress, last, maxInflight), AsV2(cc))
  }

  /** The second loop of Bootstrap. */
  function ApplyPeers(c: CC.Changed, peers: seq<Peer>, last: int, maxInflight: int): Option<CC.Changed>
    decreases |peers|
  {
    if peers == [] then Some(c)
    else if c.config.incoming.None? then None
    else match Change(c, JoinOf(peers[0]), last, maxInflight)
      case Err(_) => None
      case Ok(c') => ApplyPeers(c', peers[1..], last, maxInflight)
  }

  /** A node that starts from the log alone: decode every committed change and apply it. */
  function Replay(c: CC.Changed, ents: seq<Entry>, last: int, maxInflight: int): Option<CC.Changed>
    decreases |ents|
  {
    if ents == [] then Some(c)
    else if c.config.incoming.None? || ents[0].typ != EntryConfChange || ents[0].data.None? then None
    else match Decode(ConfChangeSchema, NoConfChange, ents[0].data.value)
      case Err(_) => None
      case Ok(cc) =>
        match Change(c, cc, last, maxInflight)
        case Err(_) => None
        case Ok(c') => Replay(c', ents[1..], last, maxInflight)
  }

  /** A Go slice has no more than 2^63 - 1 bytes. */
  predicate Marshals(peers: seq<Peer>) {
    forall p | p in peers :: ConfChangeSize(JoinOf(p)) < U63
  }

  lemma JoinDecodes(p: Peer)
    requires ConfChangeSize(JoinOf(p)) < U63
    ensures Decode(ConfChangeSchema, NoConfChange, EncodeConfChange(JoinOf(p))) == Ok(JoinOf(p))
  {
    assert SerAll(FNil) == [] && WfFields(FNil) && UnknownTo(ConfChangeSchema, FNil);
    ConfChangeRoundTrip(JoinOf(p));
  }

  /** Whatever it starts from, replaying the entries does what applying the peers did, panics included. */
  lemma {:induction false} ReplayIsApply(c: CC.Changed, peers: seq<Peer>, first: nat, last: int, maxInflight: int)
    requires Marshals(peers) && first + |peers| <= U64
    ensures Replay(c, JoinEntries(peers, first), last, maxInflight) == ApplyPeers(c, peers, last, maxInflight)
    decreases |peers|
  {
    hide Decode, EncodeConfChange, CC.Simple;
    var ents := JoinEntries(peers, first);
    if peers != [] && c.config.incoming.Some? {
      assert ents[0] == JoinEntry(peers[0], first);
      JoinDecodes(peers[0]);
      assert ents[1..] == JoinEntries(peers[1..], first + 1);
      var r := Change(c, JoinOf(peers[0]), last, maxInflight);
      if r.Ok? { ReplayIsApply(r.value, peers[1..], first + 1, last, maxInflight); }
    }
  }

  /** The whole change that Bootstrap writes for a peer without a context and with a small id. */
  lemma JoinBytes(id: Word)
    requires id < 128
    ensures EncodeConfChange(JoinOf(Peer(id, None))) == [0x08, 0, 0x10, 0, 0x18, id]
  {
    var c := JoinOf(Peer(id, None));
    ConfChangeBytes(c);
    assert Varint(0) == [0] && Varint(id) == [id];
    var ps: seq<seq<Byte>> := [[0x08], [0], [0x10], [0], [0x18], [id]] + [] + [[]];
    assert ps == [[0x08], [0], [0x10], [0], [0x18], [id], []];
    assert EncodeConfChange(c) == Flat(ps);
    FlatJoins(ps[..2], ps[2..]);
    FlatJoins(ps[2..][..2], ps[2..][2..]);
    FlatTwo([0x08], [0]);
    FlatTwo([0x10], [0]);
    FlatThree([0x18], [id], []);
    assert ps == ps[..2] + ps[2..] && ps[..2] == [[0x08], [0]];
    assert ps[2..] == ps[2..][..2] + ps[2..][2..] && ps[2..][..2] == [[0x10], [0]];
    assert ps[2..][2..] == [[0x18], [id], []];
  }

  // -------------------------------------------------- what the members become

  /** Peers without an id are passed over. */
  function PeerIds(peers: seq<Peer>): set<Word> {
    set p | p in peers && p.id != 0 :: p.id
  }

  /** A simple configuration whose voters were all added at the same last index. */
  function Members(ids: set<Word>, last: int, maxInflight: int): CC.Changed {
    CC.Changed(EmptyConfig.(incoming := Some(ids)),
               map id | id in ids :: Progress(0, last, true, maxInflight, false))
  }

  lemma NoMembersYet(last: int, maxInflight: int)
    ensures NoMembers == Members({}, last, maxInflight)
  {
  }

  lemma EnlargedMembers(ch: CC.Changer, ids: set<Word>, c: CC.Changed, added: set<Word>)
    requires CC.Enlarged(ch, Members(ids, ch.lastIndex, ch.maxInflight), c, added)
    ensures c == Members(ids + added, ch.lastIndex, ch.maxInflight)
  {
    assert c.progress == Members(ids + added, ch.lastIndex, ch.maxInflight).progress;
  }

  lemma OneMember(ids: set<Word>, p: Peer, last: int, maxInflight: int)
    ensures var r := Change(Members(ids, last, maxInflight), JoinOf(p), last, maxInflight);
      if ids == {} && p.id == 0 then r.Err?
      else r == Ok(Members(ids + PeerIds([p]), last, maxInflight))
  {
    var c := Members(ids, last, maxInflight);
    var ch, ccs := CC.Changer(c.config, c.progress, last, maxInflight), AsV2(JoinOf(p));
    var added := if p.id == 0 then {} else {p.id};
    assert CC.Added(ccs) == added by { assert ccs[0].nodeID == p.id; }
    assert PeerIds([p]) == added by { assert p in [p]; }
    assert CC.Consistent(c.config, c.progress) && CC.Supported(ccs);
    hide CC.Simple, CC.Enlarged, CC.Consistent, CC.Added, PeerIds;
    CC.SimpleExactly(ch, ccs);
    if CC.Simple(ch, ccs).Ok? { EnlargedMembers(ch, ids, CC.Simple(ch, ccs).value, added); }
    AtMostOne(ids, p.id);
  }

  lemma AtMostOne(ids: set<Word>, id: Word)
    ensures |{id} - ids| <= 1 && |{} - ids| <= 1
  {
    assert {id} - ids == {id} || {id} - ids == {};
  }

  lemma PeerIdsStep(peers: seq<Peer>)
    requires peers != []
    ensures PeerIds(peers) == PeerIds([peers[0]]) + PeerIds(peers[1..])
  {
    assert peers == [peers[0]] + peers[1..];
  }

  lemma {:induction false} ApplyPeersExactly(ids: set<Word>, peers: seq<Peer>, last: int, maxInflight: int)
    ensures ApplyPeers(Members(ids, last, maxInflight), peers, last, maxInflight)
         == if ids == {} && peers != [] && peers[0].id == 0 then None
            else Some(Members(ids + PeerIds(peers), last, maxInflight))
    decreases |peers|
  {
    if peers == [] {
      assert ids + PeerIds(peers) == ids;
    } else {
      OneMember(ids, peers[0], last, maxInflight);
      PeerIdsStep(peers);
      var more := ids + PeerIds([peers[0]]);
      assert more + PeerIds(peers[1..]) == ids + PeerIds(peers);
      if !(ids == {} && peers[0].id == 0) {
        assert more != {} by { if ids == {} { assert peers[0] in [peers[0]]; } }
        hide Change, Members, PeerIds;
        ApplyPeersExactly(more, peers[1..], last, maxInflight);
      }
    }
  }

  /**
   Applying the initial peers to an empty configuration panics exactly when the first of them has
   no id. Otherwise the voters are exactly the ids given, repeated ones once, each with the same
   new progress; and the log entries decode and replay to the same voters and progress.
   */
  lemma BootstrapMembers(peers: seq<Peer>, maxInflight: int)
    requires peers != [] && |peers| < U64 && Marshals(peers)
    ensures var n := |peers|; var r := ApplyPeers(NoMembers, peers, n, maxInflight);
      && (r.None? <==> peers[0].id == 0)
      && (r.Some? ==> r.value == Members(PeerIds(peers), n, maxInflight))
      && Replay(NoMembers, JoinEntries(peers, 1), n, maxInflight) == r
  {
    hide ApplyPeers, Replay, PeerIds;
    var n := |peers|;
    NoMembersYet(n, maxInflight);
    hide Members;
    ApplyPeersExactly({}, peers, n, maxInflight);
    assert {} + PeerIds(peers) == PeerIds(peers);
    ReplayIsApply(NoMembers, peers, 1, n, maxInflight);
  }

  // -------------------------------------------------------- what the log becomes

  /** Appending the entries to a new log over an empty storage, then committing all of them. */
  lemma BootstrapLog(stored: seq<Entry>, peers: seq<Peer>)
    requires ValidEnts(stored) && LastIndex(stored) == 0 && peers != [] && |peers| < U64
    ensures var l, ents := R.NewLog(stored), JoinEntries(peers, 1);
      && R.Fits(l, ents) && R.AppendGuard(l, ents) && ents[0].index == 1
      && var l' := R.Append(l, ents).(committed := |peers|);
         && l'.tail.entries == ents && l'.tail.snapshot.None?
         && R.ValidLog(l') && R.View(l') == stored + ents && R.LastOf(l') == |peers| && l'.applied == 0
  {
    hide EncodeConfChange, JoinEntries;
    var l, ents := R.NewLog(stored), JoinEntries(peers, 1);
    R.AppendView(l, ents);
    assert stored[..1] == stored;
  }

  /** e is the entry that announces p: of term 1, and decoding to the addition of p with its context. */
  ghost predicate Announces(e: Entry, p: Peer, index: nat) {
    && e.term == 1 && e.index == index && e.typ == 1 && e.unrecognized == [] && e.data.Some?
    && Decode(ConfChangeSchema, NoConfChange, e.data.value)
       == Ok(ConfChange(0, 0, p.id, p.context, []))
  }

  /** Exactly the peers with an id are voters, each with nothing acknowledged and next at last. */
  ghost predicate JustJoined(members: CC.Changed, peers: seq<Peer>, last: int, maxInflight: int) {
    var c := members.config;
    && c.incoming.Some? && c.outgoing.None? && c.learners.None? && c.learnersNext.None? && !c.autoLeave
    && (forall id :: id in c.incoming.value <==> id != 0 && exists p | p in peers :: p.id == id)
    && members.progress.Keys == c.incoming.value
    && forall id | id in members.progress :: members.progress[id] == Progress(0, last, true, maxInflight, false)
  }

  lemma MembersJustJoined(peers: seq<Peer>, last: int, maxInflight: int)
    ensures JustJoined(Members(PeerIds(peers), last, maxInflight), peers, last, maxInflight)
  {
  }

  lemma JoinAnnounces(p: Peer, index: Word)
    requires ConfChangeSize(JoinOf(p)) < U63
    ensures Announces(JoinEntry(p, index), p, index)
  {
    hide Decode, EncodeConfChange;
    JoinDecodes(p);
  }

  /**
   What Bootstrap leaves: the entries of the peers behind the stored ones, all committed and none
   applied; the peers as members; and entries that replay to exactly these members.
   */
  ghost predicate Booted(stored: seq<Entry>, peers: seq<Peer>, l: R.Log, members: CC.Changed, maxInflight: int)
    requires ValidEnts(stored) && peers != [] && |peers| < U64
  {
    var ents, n := JoinEntries(peers, 1), |peers|;
    && l.stored == stored && l.tail.entries == ents && l.tail.snapshot.None?
    && R.ValidLog(l) && R.View(l) == stored + ents && R.LastOf(l) == l.committed == n && l.applied == 0
    && (forall i | 0 <= i < n :: Announces(l.tail.entries[i], peers[i], i + 1))
    && members == Members(PeerIds(peers), n, maxInflight) && JustJoined(members, peers, n, maxInflight)
    && Replay(NoMembers, ents, n, maxInflight) == Some(members)
  }

  lemma NobodyLearns(stored: seq<Entry>, peers: seq<Peer>, l: R.Log, members: CC.Changed, maxInflight: int)
    requires ValidEnts(stored) && peers != [] && |peers| < U64 && Booted(stored, peers, l, members, maxInflight)
    ensures forall id | id in members.progress :: !members.progress[id].isLearner
  {
  }

  lemma BootsWhole(stored: seq<Entry>, peers: seq<Peer>, members: CC.Changed, maxInflight: int)
    requires ValidEnts(stored) && LastIndex(stored) == 0 && peers != [] && |peers| < U64 && Marshals(peers)
    requires ApplyPeers(NoMembers, peers, |peers|, maxInflight) == Some(members)
    ensures var l := R.Append(R.NewLog(stored), JoinEntries(peers, 1)).(committed := |peers|);
      Booted(stored, peers, l, members, maxInflight)
  {
    hide ApplyPeers, Replay, PeerIds, Members, R.View, R.Joined, Announces, JustJoined;
    BootstrapLog(stored, peers);
    BootstrapMembers(peers, maxInflight);
    MembersJustJoined(peers, |peers|, maxInflight);
    forall i | 0 <= i < |peers| ensures Announces(JoinEntries(peers, 1)[i], peers[i], i + 1) {
      JoinAnnounces(peers[i], 1 + i);
    }
  }
}
