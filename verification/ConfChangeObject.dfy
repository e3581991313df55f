/**
 Changer.Simple as the source runs it: on maps and Progress records that are shared by reference.
 The methods below have no modifies clause unless they change a map of their own, so that the
 tracker a Changer was given cannot be altered.
 */
module ConfChangeObject {
  import opened Prelude
  import opened Quorum
  import opened Tracker
  import opened ConfChange
  import RaftPb

  /** A Go map[uint64]struct{}; nil is null. */
  class IdMap {
    var ids: set<Word>

    constructor (ids: set<Word>)
      ensures this.ids == ids
    {
      this.ids := ids;
    }
  }

  /** A *Progress. */
  class Peer {
    var p: Progress

    constructor (p: Progress)
      ensures this.p == p
    {
      this.p := p;
    }
  }

  class PeerMap {
    var m: map<Word, Peer>

    constructor ()
      ensures m == map[]
    {
      m := map[];
    }
  }

  datatype Maps = Maps(incoming: IdMap?, outgoing: IdMap?, learners: IdMap?, learnersNext: IdMap?, autoLeave: bool)

  ghost function IdsOf(m: IdMap?): Option<set<Word>>
    reads m
  {
    if m == null then None else Some(m.ids)
  }

  ghost function ConfigOf(c: Maps): Config
    reads c.incoming, c.outgoing, c.learners, c.learnersNext
  {
    Config(IdsOf(c.incoming), IdsOf(c.outgoing), IdsOf(c.learners), IdsOf(c.learnersNext), c.autoLeave)
  }

  ghost function ProgressOf(pm: PeerMap): ProgressMap
    reads pm, pm.m.Values
  {
    map id | id in pm.m :: pm.m[id].p
  }

  /** No two ids share a record. */
  ghost predicate Unshared(pm: PeerMap)
    reads pm
  {
    forall i, j | i in pm.m && j in pm.m && pm.m[i] == pm.m[j] :: i == j
  }

  /** The four maps of a configuration are different objects. */
  ghost predicate Separate(c: Maps) {
    && (c.incoming != null ==> c.incoming != c.outgoing && c.incoming != c.learners && c.incoming != c.learnersNext)
    && (c.learners != null ==> c.learners != c.outgoing && c.learners != c.learnersNext)
    && (c.learnersNext != null ==> c.learnersNext != c.outgoing)
  }

  method CloneIds(m: IdMap?) returns (r: IdMap?)
    ensures r == null <==> m == null
    ensures r != null ==> fresh(r) && r.ids == m.ids
  {
    if m == null { return null; }
    var mm := new IdMap({});
    var todo := m.ids;
    while todo != {}
      invariant mm.ids + todo == m.ids && todo <= m.ids && fresh(mm)
      decreases todo
    {
      var k :| k in todo;
      mm.ids := mm.ids + {k};
      todo := todo - {k};
    }
    r := mm;
  }

  /** Config.Clone. */
  method CloneConfig(c: Maps) returns (r: Maps)
    ensures ConfigOf(r) == Clone(ConfigOf(c)) && Separate(r)
    ensures r.incoming != null ==> fresh(r.incoming)
    ensures r.outgoing != null ==> fresh(r.outgoing)
    ensures r.learners != null ==> fresh(r.learners)
    ensures r.learnersNext != null ==> fresh(r.learnersNext)
  {
    var a := CloneIds(c.incoming);
    var b := CloneIds(c.outgoing);
    var l := CloneIds(c.learners);
    var n := CloneIds(c.learnersNext);
    r := Maps(a, b, l, n, false);
  }

  /** The copying loop of checkAndCopy: fresh records, one for each id. */
  method CopyProgress(pm: PeerMap) returns (r: PeerMap)
    ensures fresh(r) && fresh(r.m.Values) && Unshared(r) && ProgressOf(r) == ProgressOf(pm)
  {
    r := new PeerMap();
    var todo := pm.m.Keys;
    while todo != {}
      invariant fresh(r) && todo <= pm.m.Keys && r.m.Keys == pm.m.Keys - todo
      invariant forall id | id in r.m :: fresh(r.m[id]) && r.m[id].p == pm.m[id].p
      invariant Unshared(r)
      decreases todo
    {
      var id :| id in todo;
      var ppr := new Peer(pm.m[id].p);
      r.m := r.m[id := ppr];
      todo := todo - {id};
    }
  }

  /** Delete from a map; an empty map becomes nil. */
  method DeleteId(m: IdMap?, id: Word) returns (r: IdMap?)
    modifies m
    ensures IdsOf(r) == NilAwareDelete(old(IdsOf(m)), id) && (r == m || r == null)
  {
    if m == null { return null; }
    m.ids := m.ids - {id};
    r := if m.ids == {} then null else m;
  }

  /** initProgress for a voter. */
  method InitProgress(ghost ch: Changer, lastIndex: int, maxInflight: int, cfg: Maps, prs: PeerMap, id: Word)
    requires ch.lastIndex == lastIndex && ch.maxInflight == maxInflight
    requires cfg.incoming != null && Separate(cfg) && Unshared(prs) && id !in prs.m
    modifies cfg.incoming, prs
    ensures Changed(ConfigOf(cfg), ProgressOf(prs)) == MakeVoter(ch, old(Changed(ConfigOf(cfg), ProgressOf(prs))), id)
    ensures Unshared(prs) && fresh(prs.m.Values - old(prs.m.Values))
  {
    ghost var was := ProgressOf(prs);
    cfg.incoming.ids := cfg.incoming.ids + {id};
    var pr := new Peer(Progress(0, lastIndex, true, maxInflight, false));
    prs.m := prs.m[id := pr];
    assert ProgressOf(prs) == was[id := NewProgress(ch)];
  }

  /** The record of id is changed in place. */
  method ClearLearner(prs: PeerMap, id: Word)
    requires Unshared(prs) && id in prs.m
    modifies prs.m[id]
    ensures ProgressOf(prs) == old(ProgressOf(prs)[id := ProgressOf(prs)[id].(isLearner := false)])
  {
    ghost var was := ProgressOf(prs);
    var pr := prs.m[id];
    pr.p := pr.p.(isLearner := false);
    assert ProgressOf(prs) == was[id := was[id].(isLearner := false)];
  }

  /** The three id maps of a configuration are changed in place. */
  method Promote(cfg: Maps, id: Word) returns (r: Maps)
    requires cfg.incoming != null && Separate(cfg)
    modifies cfg.incoming, cfg.learners, cfg.learnersNext
    ensures ConfigOf(r) == old(var c := ConfigOf(cfg);
      c.(incoming := Some(c.incoming.value + {id}),
         learners := NilAwareDelete(c.learners, id), learnersNext := NilAwareDelete(c.learnersNext, id)))
    ensures Shrunk(cfg, r)
  {
    var l := DeleteId(cfg.learners, id);
    var n := DeleteId(cfg.learnersNext, id);
    cfg.incoming.ids := cfg.incoming.ids + {id};
    r := cfg.(learners := l, learnersNext := n);
  }

  method AddVoter(ghost ch: Changer, lastIndex: int, maxInflight: int, cfg: Maps, prs: PeerMap, id: Word)
    returns (r: Maps)
    requires ch.lastIndex == lastIndex && ch.maxInflight == maxInflight
    requires cfg.incoming != null && Separate(cfg) && Unshared(prs)
    modifies cfg.incoming, cfg.learners, cfg.learnersNext, prs, prs.m.Values
    ensures Changed(ConfigOf(r), ProgressOf(prs)) == MakeVoter(ch, old(Changed(ConfigOf(cfg), ProgressOf(prs))), id)
    ensures Shrunk(cfg, r) && Unshared(prs) && fresh(prs.m.Values - old(prs.m.Values))
  {
    if id !in prs.m {
      InitProgress(ch, lastIndex, maxInflight, cfg, prs, id);
      return cfg;
    }
    ClearLearner(prs, id);
    r := Promote(cfg, id);
  }

  /** r has the maps of cfg, except that a learner map may have become nil. */
  ghost predicate Shrunk(cfg: Maps, r: Maps) {
    && r.incoming == cfg.incoming && r.outgoing == cfg.outgoing && r.autoLeave == cfg.autoLeave
    && (r.learners == cfg.learners || r.learners == null)
    && (r.learnersNext == cfg.learnersNext || r.learnersNext == null)
  }

  /** The loop of apply. */
  method ApplyChanges(ghost ch: Changer, lastIndex: int, maxInflight: int, cfg: Maps, prs: PeerMap, ccs: seq<Change>)
    returns (r: Result<Maps, ChangeError>)
    requires ch.lastIndex == lastIndex && ch.maxInflight == maxInflight
    requires cfg.incoming != null && Separate(cfg) && Unshared(prs)
    modifies cfg.incoming, cfg.learners, cfg.learnersNext, prs, prs.m.Values
    ensures match ApplyAll(ch, old(Changed(ConfigOf(cfg), ProgressOf(prs))), ccs)
            case Err(e) => r == Err(e)
            case Ok(c) => r.Ok? && Shrunk(cfg, r.value) && c == Changed(ConfigOf(r.value), ProgressOf(prs))
  {
    var now := cfg;
    ghost var start := Changed(ConfigOf(cfg), ProgressOf(prs));
    assert ccs[0..] == ccs;
    for i := 0 to |ccs|
      invariant Shrunk(cfg, now) && Separate(now) && Unshared(prs) && fresh(prs.m.Values - old(prs.m.Values))
      invariant ApplyAll(ch, start, ccs) == ApplyAll(ch, Changed(ConfigOf(now), ProgressOf(prs)), ccs[i..])
    {
      var cc := ccs[i];
      assert ccs[i..][0] == cc && ccs[i..][1..] == ccs[i + 1..];
      if cc.nodeID == 0 { continue; }
      if cc.typ == RaftPb.ConfChangeAddNode {
        now := AddVoter(ch, lastIndex, maxInflight, now, prs, cc.nodeID);
      } else if cc.typ != RaftPb.ConfChangeUpdateNode {
        return Err(UnexpectedType);
      }
    }
    if now.incoming.ids == {} { return Err(NoVoters); }
    r := Ok(now);
  }

  /** Every id of the map has a progress. */
  method Tracked(ids: set<Word>, prs: PeerMap) returns (ok: bool)
    ensures ok <==> ids <= prs.m.Keys
  {
    var todo := ids;
    while todo != {}
      invariant todo <= ids && ids - todo <= prs.m.Keys
      decreases todo
    {
      var id :| id in todo;
      if id !in prs.m { return false; }
      todo := todo - {id};
    }
    assert ids - {} == ids;
    ok := true;
  }

  method Contents(m: IdMap?) returns (ids: set<Word>)
    ensures ids == Ids(IdsOf(m))
  {
    ids := if m == null then {} else m.ids;
  }

  method StagedOk(next: set<Word>, out: set<Word>, prs: PeerMap) returns (ok: bool)
    requires next <= prs.m.Keys && ProgressOf(prs).Keys == prs.m.Keys
    ensures ok == StagedFine(next, out, ProgressOf(prs))
  {
    var todo := next;
    while todo != {}
      invariant todo <= next
      invariant forall id | id in next && id !in todo :: id in out && !ProgressOf(prs)[id].isLearner
      decreases todo
    {
      var id :| id in todo;
      if id !in out || prs.m[id].p.isLearner { return false; }
      todo := todo - {id};
    }
    ok := true;
  }

  method LearnersOk(learners: set<Word>, in_: set<Word>, out: set<Word>, prs: PeerMap) returns (ok: bool)
    requires learners <= prs.m.Keys && ProgressOf(prs).Keys == prs.m.Keys
    ensures ok == LearnersFine(learners, in_, out, ProgressOf(prs))
  {
    var todo := learners;
    while todo != {}
      invariant todo <= learners
      invariant forall id | id in learners && id !in todo :: id !in out && id !in in_ && ProgressOf(prs)[id].isLearner
      decreases todo
    {
      var id :| id in todo;
      if id in out || id in in_ || !prs.m[id].p.isLearner { return false; }
      todo := todo - {id};
    }
    ok := true;
  }

  /** The three loops that look for a progress of every id. */
  method AllTracked(voters: set<Word>, learners: set<Word>, next: set<Word>, prs: PeerMap) returns (ok: bool)
    ensures ok <==> voters <= prs.m.Keys && learners <= prs.m.Keys && next <= prs.m.Keys
  {
    ok := Tracked(voters, prs);
    if !ok { return; }
    ok := Tracked(learners, prs);
    if !ok { return; }
    ok := Tracked(next, prs);
  }

  /** The two loops over learners. */
  method RolesOk(learners: set<Word>, next: set<Word>, in_: set<Word>, out: set<Word>, prs: PeerMap) returns (ok: bool)
    requires ProgressOf(prs).Keys == prs.m.Keys
    requires learners <= prs.m.Keys && next <= prs.m.Keys
    ensures ok <==> StagedFine(next, out, ProgressOf(prs)) && LearnersFine(learners, in_, out, ProgressOf(prs))
  {
    hide StagedFine, LearnersFine;
    ok := StagedOk(next, out, prs);
    if !ok { return; }
    ok := LearnersOk(learners, in_, out, prs);
  }

  method CheckInvariants(cfg: Maps, prs: PeerMap) returns (ok: bool)
    ensures ok == Consistent(ConfigOf(cfg), ProgressOf(prs))
  {
    hide StagedFine, LearnersFine;
    assert ProgressOf(prs).Keys == prs.m.Keys;
    var in_ := if cfg.incoming == null then {} else cfg.incoming.ids;
    var out := if cfg.outgoing == null then {} else cfg.outgoing.ids;
    var learners := if cfg.learners == null then {} else cfg.learners.ids;
    var next := if cfg.learnersNext == null then {} else cfg.learnersNext.ids;
    ok := AllTracked(in_ + out, learners, next, prs);
    if !ok { return; }
    ok := RolesOk(learners, next, in_, out, prs);
    if !ok { return; }
    ok := out != {} || (cfg.outgoing == null && cfg.learnersNext == null && !cfg.autoLeave);
  }

  /** symdiff: count what is in l but not in r, then what is in r but not in l. */
  method CountSymDiff(l: set<Word>, r: set<Word>) returns (n: int)
    ensures n == SymDiff(l, r)
  {
    var a := CountMissingFrom(l, r);
    var b := CountMissingFrom(r, l);
    n := a + b;
  }

  method CountMissingFrom(l: set<Word>, r: set<Word>) returns (n: int)
    ensures n == |l - r|
  {
    n := 0;
    var todo := l;
    ghost var seen: set<Word> := {};
    PartEnds(l, {});
    assert {} - r == {};
    while todo != {}
      invariant Parted(l, seen, todo) && n == |seen - r|
      decreases todo
    {
      hide Parted;
      var id :| id in todo;
      PartOne(l, seen, todo, id);
      assert (seen + {id}) - r == if id in r then seen - r else (seen - r) + {id};
      if id !in r { n := n + 1; }
      todo, seen := todo - {id}, seen + {id};
    }
    PartEnds(l, seen);
  }

  datatype Outcomes = Outcomes(cfg: Maps, prs: PeerMap)

  /** The maps and records of a configuration are all newly made. */
  twostate predicate AllFresh(new c: Maps, new prs: PeerMap)
    reads prs
  {
    && (c.incoming != null ==> fresh(c.incoming)) && (c.outgoing != null ==> fresh(c.outgoing))
    && (c.learners != null ==> fresh(c.learners)) && (c.learnersNext != null ==> fresh(c.learnersNext))
    && fresh(prs) && fresh(prs.m.Values)
  }

  method CheckAndCopy(cfg: Maps, progress: PeerMap) returns (ok: bool, c: Maps, prs: PeerMap)
    ensures AllFresh(c, prs) && Separate(c) && Unshared(prs) && (cfg.incoming != null ==> c.incoming != null)
    ensures Changed(ConfigOf(c), ProgressOf(prs)) == old(Changed(Clone(ConfigOf(cfg)), ProgressOf(progress)))
    ensures ok == old(Consistent(Clone(ConfigOf(cfg)), ProgressOf(progress)))
  {
    hide Consistent;
    c := CloneConfig(cfg);
    prs := CopyProgress(progress);
    ok := CheckInvariants(c, prs);
  }

  /** The part of Simple that works on the copies. */
  method SimpleOnCopy(ghost ch: Changer, lastIndex: int, maxInflight: int, voters: set<Word>,
                      cfg: Maps, prs: PeerMap, ccs: seq<Change>)
    returns (r: Result<Maps, ChangeError>)
    requires ch.lastIndex == lastIndex && ch.maxInflight == maxInflight
    requires cfg.incoming != null && Separate(cfg) && Unshared(prs)
    requires ch.config.incoming == Some(voters)
    requires ConfigOf(cfg) == Clone(ch.config) && ProgressOf(prs) == ch.progress
    requires Consistent(Clone(ch.config), ch.progress)
    modifies cfg.incoming, cfg.learners, cfg.learnersNext, prs, prs.m.Values
    ensures match Simple(ch, ccs)
            case Err(e) => r == Err(e)
            case Ok(c) => r.Ok? && c == Changed(ConfigOf(r.value), ProgressOf(prs))
  {
    hide Consistent, ApplyAll, SymDiff;
    var outgoing := Contents(cfg.outgoing);
    if outgoing != {} { return Err(InJoint); }
    var applied := ApplyChanges(ch, lastIndex, maxInflight, cfg, prs, ccs);
    if applied.Err? { return Err(applied.error); }
    var n := CountSymDiff(voters, applied.value.incoming.ids);
    if n > 1 { return Err(TooManyVoters); }
    var ok := CheckInvariants(applied.value, prs);
    if !ok { return Err(BadConfig); }
    r := applied;
  }

  /** Changer.Simple: no modifies clause, so nothing of the tracker it was given changes. */
  method SimpleChange(cfg: Maps, progress: PeerMap, lastIndex: int, maxInflight: int, ccs: seq<Change>)
    returns (r: Result<Outcomes, ChangeError>)
    requires cfg.incoming != null
    ensures match old(Simple(Changer(ConfigOf(cfg), ProgressOf(progress), lastIndex, maxInflight), ccs))
            case Err(e) => r == Err(e)
            case Ok(c) => r.Ok? && fresh(r.value.prs) && c == Changed(ConfigOf(r.value.cfg), ProgressOf(r.value.prs))
  {
    hide Consistent, Simple;
    ghost var ch := Changer(ConfigOf(cfg), ProgressOf(progress), lastIndex, maxInflight);
    var ok, c, prs := CheckAndCopy(cfg, progress);
    if !ok {
      InconsistentFails(ch, ccs);
      return Err(BadConfig);
    }
    var m := SimpleOnCopy(ch, lastIndex, maxInflight, cfg.incoming.ids, c, prs, ccs);
    r := if m.Err? then Err(m.error) else Ok(Outcomes(m.value, prs));
  }

  lemma InconsistentFails(ch: Changer, ccs: seq<Change>)
    requires ch.config.incoming.Some? && !Consistent(Clone(ch.config), ch.progress)
    ensures Simple(ch, ccs) == Err(BadConfig)
  {
  }
}
