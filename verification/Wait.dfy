/**
 The two wait lists: one that hands a result to the request waiting for it, and one that wakes
 everyone whose logical deadline has passed. A channel is known by the order of its creation.
 */
module Wait {
  import opened Prelude
  import IdGen

  // -------------------------------------------------------- results by id

  /** A channel with room for one value. */
  datatype Chan<X> = Chan(buf: seq<X>, closed: bool)

  datatype Registry<X> = Registry(m: map<Word, nat>, chans: seq<Chan<X>>)

  datatype Call<X> = Register(id: Word) | Trigger(id: Word, x: X)

  ghost predicate Settled<X>(s: Registry<X>) {
    && (forall id | id in s.m :: s.m[id] < |s.chans| && s.chans[s.m[id]] == Chan([], false))
    && (forall id, jd | id in s.m && jd in s.m && s.m[id] == s.m[jd] :: id == jd)
  }

  /** Registering an id that is still waiting panics. */
  ghost function Next<X>(s: Registry<X>, call: Call<X>): (r: Option<Registry<X>>)
    requires Settled(s)
    ensures r.Some? ==> Settled(r.value)
  {
    match call
    case Register(id) =>
      if id in s.m then None else Some(Registry(s.m[id := |s.chans|], s.chans + [Chan([], false)]))
    case Trigger(id, x) =>
      if id !in s.m then Some(s) else Some(Registry(s.m - {id}, s.chans[s.m[id] := Chan([x], true)]))
  }

  class List<X(0)> {
    var m: map<Word, nat>
    var chans: seq<Chan<X>>

    ghost function Val(): Registry<X>
      reads this
    {
      Registry(m, chans)
    }

    constructor ()
      ensures Val() == Registry(map[], [])
    {
      m, chans := map[], [];
    }

    method Register(id: Word) returns (ch: nat)
      requires Settled(Val()) && id !in m
      modifies this
      ensures Some(Val()) == Next(old(Val()), Call.Register(id)) && ch == old(|chans|)
    {
      ch := |chans|;
      chans := chans + [Chan([], false)];
      m := m[id := ch];
    }

    /** The send finds room and the close finds an open channel. */
    method Trigger(id: Word, x: X)
      requires Settled(Val())
      modifies this
      ensures Some(Val()) == Next(old(Val()), Call.Trigger(id, x))
    {
      if id in m {
        var ch := m[id];
        m := m - {id};
        assert chans[ch].buf == [] && !chans[ch].closed;
        assert chans[ch].buf + [x] == [x];
        chans := chans[ch := Chan(chans[ch].buf + [x], true)];
      }
    }
  }

  /** The state after a run of calls; None once a call has panicked. */
  ghost function After<X>(calls: seq<Call<X>>): (r: Option<Registry<X>>)
    ensures r.Some? ==> Settled(r.value)
  {
    if calls == [] then Some(Registry(map[], []))
    else
      match After(calls[..|calls| - 1])
      case None => None
      case Some(s) => Next(s, calls[|calls| - 1])
  }

  /** The last call about id registered it. */
  predicate Waiting<X>(calls: seq<Call<X>>, id: Word) {
    calls != [] &&
    var last := calls[|calls| - 1];
    if last.id == id then last.Register? else Waiting(calls[..|calls| - 1], id)
  }

  predicate DuplicateAt<X>(calls: seq<Call<X>>, p: nat)
    requires p < |calls|
  {
    calls[p].Register? && Waiting(calls[..p], calls[p].id)
  }

  lemma {:induction false} MapIsWaiting<X>(calls: seq<Call<X>>, id: Word)
    requires After(calls).Some?
    ensures id in After(calls).value.m <==> Waiting(calls, id)
  {
    if calls != [] { MapIsWaiting(calls[..|calls| - 1], id); }
  }

  /** A run panics exactly when it registers an id that is still waiting. */
  lemma {:induction false} PanicsExactly<X>(calls: seq<Call<X>>)
    ensures After(calls).None? <==> exists p | 0 <= p < |calls| :: DuplicateAt(calls, p)
  {
    if calls != [] {
      var init, last := calls[..|calls| - 1], calls[|calls| - 1];
      PanicsExactly(init);
      forall p | 0 <= p < |init| ensures DuplicateAt(init, p) <==> DuplicateAt(calls, p) {
        assert init[..p] == calls[..p];
      }
      assert DuplicateAt(calls, |calls| - 1) <==> last.Register? && Waiting(init, last.id);
      if After(init).Some? { MapIsWaiting(init, last.id); }
    }
  }

  function Registered<X>(calls: seq<Call<X>>): seq<nat> {
    if calls == [] then []
    else
      var last := calls[|calls| - 1];
      Registered(calls[..|calls| - 1]) + if last.Register? then [last.id] else []
  }

  lemma {:induction false} WaitingWasRegistered<X>(calls: seq<Call<X>>, id: Word)
    requires Waiting(calls, id)
    ensures id in Registered(calls)
  {
    if calls[|calls| - 1].id != id { WaitingWasRegistered(calls[..|calls| - 1], id); }
  }

  lemma {:induction false} FreshIdsNeverPanic<X>(calls: seq<Call<X>>)
    requires IdGen.NoRepeats(Registered(calls))
    ensures After(calls).Some?
  {
    if calls != [] {
      var init, last, ids := calls[..|calls| - 1], calls[|calls| - 1], Registered(calls);
      assert forall i | 0 <= i < |Registered(init)| :: ids[i] == Registered(init)[i];
      FreshIdsNeverPanic(init);
      MapIsWaiting(init, last.id);
      if last.Register? {
        assert forall i | 0 <= i < |Registered(init)| :: ids[i] != ids[|ids| - 1];
        assert last.id !in Registered(init);
        if Waiting(init, last.id) { WaitingWasRegistered(init, last.id); }
      }
    }
  }

  /** The ids are taken from a pool, at positions that differ: in any order, and leaving out any. */
  ghost predicate TakenFrom(ids: seq<nat>, pool: seq<nat>, at: seq<nat>) {
    && |at| == |ids| && IdGen.NoRepeats(at)
    && forall i | 0 <= i < |ids| :: at[i] < |pool| && ids[i] == pool[at[i]]
  }

  lemma TakenIdsNeverPanic<X>(calls: seq<Call<X>>, pool: seq<nat>, at: seq<nat>)
    requires TakenFrom(Registered(calls), pool, at) && IdGen.NoRepeats(pool)
    ensures After(calls).Some?
  {
    var ids := Registered(calls);
    forall i, j | 0 <= i < j < |ids| ensures ids[i] != ids[j] {
      assert at[i] != at[j];
      if at[i] < at[j] { assert pool[at[i]] != pool[at[j]]; } else { assert pool[at[j]] != pool[at[i]]; }
    }
    FreshIdsNeverPanic(calls);
  }

  /**
   Registering ids out of the first n <= 2^48 that a generator draws never finds a duplicate: in
   whatever order, with ids that are drawn and never registered, and with any triggers in between.
   */
  lemma DrawnIdsNeverPanic<X>(calls: seq<Call<X>>, member: nat, s: Word, n: nat, at: seq<nat>)
    requires n <= IdGen.Span && TakenFrom(Registered(calls), IdGen.Drawn(member, s, n), at)
    ensures After(calls).Some?
  {
    IdGen.DistinctExactly(member, s, n);
    TakenIdsNeverPanic(calls, IdGen.Drawn(member, s, n), at);
  }

  lemma JoinedPool(a: seq<nat>, b: seq<nat>)
    requires IdGen.NoRepeats(a) && IdGen.NoRepeats(b) && IdGen.Disjoint(a, b)
    ensures IdGen.NoRepeats(a + b)
  {
    var pool := a + b;
    forall i, j | 0 <= i < j < |pool| ensures pool[i] != pool[j] {
      if i < |a| <= j { assert a[i] != b[j - |a|]; }
    }
  }

  /** Nor do ids out of n drawn before and m drawn after a restart d milliseconds later, within its bounds. */
  lemma RestartedIdsNeverPanic<X>(calls: seq<Call<X>>, member: nat, millis: nat, d: nat, n: nat, m: nat, at: seq<nat>)
    requires n <= 256 * d && 256 * d + m <= IdGen.Span
    requires TakenFrom(Registered(calls),
                       IdGen.Drawn(member, IdGen.Start(millis), n)
                       + IdGen.Drawn(member, IdGen.Start(millis + d), m), at)
    ensures After(calls).Some?
  {
    hide IdGen.Drawn, IdGen.Start;
    var a, b := IdGen.Drawn(member, IdGen.Start(millis), n), IdGen.Drawn(member, IdGen.Start(millis + d), m);
    IdGen.DistinctExactly(member, IdGen.Start(millis), n);
    IdGen.DistinctExactly(member, IdGen.Start(millis + d), m);
    IdGen.RestartDisjoint(member, millis, d, n, m);
    JoinedPool(a, b);
    TakenIdsNeverPanic(calls, a + b, at);
  }

  /** The value of the first trigger for id from position p on. */
  function Delivery<X>(calls: seq<Call<X>>, p: nat, id: Word): Option<X>
    requires p <= |calls|
    decreases |calls| - p
  {
    if p == |calls| then None
    else if calls[p].Trigger? && calls[p].id == id then Some(calls[p].x)
    else Delivery(calls, p + 1, id)
  }

  lemma {:induction false} DeliveryStep<X>(calls: seq<Call<X>>, p: nat, id: Word)
    requires p < |calls|
    ensures var init, last := calls[..|calls| - 1], calls[|calls| - 1];
      Delivery(calls, p, id) == if Delivery(init, p, id).Some? then Delivery(init, p, id)
                                else if last.Trigger? && last.id == id then Some(last.x) else None
    decreases |calls| - p
  {
    if p < |calls| - 1 { DeliveryStep(calls, p + 1, id); }
  }

  /** The channel that the registration at position p returned. */
  ghost function ChannelOf<X>(calls: seq<Call<X>>, p: nat): nat
    requires p < |calls| && After(calls[..p]).Some?
  {
    |After(calls[..p]).value.chans|
  }

  lemma {:induction false} PrefixRuns<X>(calls: seq<Call<X>>, p: nat)
    requires p <= |calls| && After(calls).Some?
    ensures After(calls[..p]).Some?
  {
    if p == |calls| {
      assert calls[..p] == calls;
    } else {
      var init := calls[..|calls| - 1];
      assert init[..p] == calls[..p];
      PrefixRuns(init, p);
    }
  }

  /** What the state says about the channel ch that waits for id, given what was delivered. */
  ghost predicate ChannelShows<X>(s: Registry<X>, ch: nat, id: Word, got: Option<X>) {
    && ch < |s.chans|
    && match got
       case None => s.chans[ch] == Chan([], false) && id in s.m && s.m[id] == ch
       case Some(x) => s.chans[ch] == Chan([x], true) && forall jd | jd in s.m :: s.m[jd] != ch
  }

  lemma ShowsStep<X>(s: Registry<X>, call: Call<X>, ch: nat, id: Word, got: Option<X>)
    requires Settled(s) && Next(s, call).Some? && ChannelShows(s, ch, id, got)
    ensures ChannelShows(Next(s, call).value, ch, id,
              if got.Some? then got else if call.Trigger? && call.id == id then Some(call.x) else None)
  {
  }

  lemma {:induction false} ShowsDelivery<X>(calls: seq<Call<X>>, p: nat)
    requires p < |calls| && After(calls).Some? && calls[p].Register?
    ensures After(calls[..p]).Some?
    ensures ChannelShows(After(calls).value, ChannelOf(calls, p), calls[p].id, Delivery(calls, p + 1, calls[p].id))
  {
    PrefixRuns(calls, p);
    var init := calls[..|calls| - 1];
    assert init[..p] == calls[..p];
    if p < |calls| - 1 {
      ShowsDelivery(init, p);
      DeliveryStep(calls, p + 1, calls[p].id);
      ShowsStep(After(init).value, calls[|calls| - 1], ChannelOf(calls, p), calls[p].id,
                Delivery(init, p + 1, calls[p].id));
    }
  }

  /**
   In every run, a waiter's channel is open and empty until the first trigger for its id after the
   registration; from then on it is closed and holds exactly that trigger's value.
   */
  lemma DeliveredExactly<X>(calls: seq<Call<X>>, p: nat)
    requires p < |calls| && After(calls).Some? && calls[p].Register?
    ensures After(calls[..p]).Some? && ChannelOf(calls, p) < |After(calls).value.chans|
    ensures After(calls).value.chans[ChannelOf(calls, p)]
         == match Delivery(calls, p + 1, calls[p].id)
            case None => Chan([], false)
            case Some(x) => Chan([x], true)
  {
    ShowsDelivery(calls, p);
  }

  // -------------------------------------------------------- deadlines

  /** closes[c] says how often channel c has been closed; channel 0 is closed from the start. */
  datatype Times = Times(last: Word, m: map<Word, nat>, closes: seq<nat>)

  datatype Op = Await(deadline: Word) | Fire(deadline: Word)

  const NewTimes := Times(0, map[], [1])

  ghost predicate Sound(s: Times) {
    && |s.closes| > 0 && s.closes[0] == 1
    && (forall c | 0 <= c < |s.closes| :: s.closes[c] <= 1)
    && (forall t | t in s.m :: t > s.last && s.m[t] < |s.closes| && s.closes[s.m[t]] == 0)
    && (forall t, u | t in s.m && u in s.m && s.m[t] == s.m[u] :: t == u)
  }

  /** The channel Wait returns. */
  function Awaited(s: Times, x: Word): nat {
    if s.last >= x then 0 else if x in s.m then s.m[x] else |s.closes|
  }

  predicate Hit(s: Times, d: Word, c: nat) {
    exists t | t in s.m :: t <= d && s.m[t] == c
  }

  ghost function AfterWait(s: Times, x: Word): Times {
    if s.last >= x || x in s.m then s else s.(m := s.m[x := |s.closes|], closes := s.closes + [0])
  }

  ghost function AfterTrigger(s: Times, d: Word): Times {
    Times(d, map t | t in s.m && t > d :: s.m[t],
          seq(|s.closes|, c requires 0 <= c < |s.closes| => s.closes[c] + if Hit(s, d, c) then 1 else 0))
  }

  ghost function Step(s: Times, op: Op): Times {
    match op
    case Await(x) => AfterWait(s, x)
    case Fire(d) => AfterTrigger(s, d)
  }

  lemma StepSound(s: Times, op: Op)
    requires Sound(s)
    ensures Sound(Step(s, op))
  {
    if op.Fire? {
      var s' := Step(s, op);
      forall c | 0 <= c < |s.closes| ensures s'.closes[c] <= 1 && (c == 0 ==> s'.closes[c] == 1) {
        if Hit(s, op.deadline, c) { assert s.closes[c] == 0; }
      }
      forall t | t in s'.m ensures s'.m[t] < |s'.closes| && s'.closes[s'.m[t]] == 0 {
        assert !Hit(s, op.deadline, s.m[t]);
      }
    }
  }

  lemma WaitSound(s: Times, x: Word)
    requires Sound(s)
    ensures Sound(AfterWait(s, x)) && (x in s.m ==> s.m[x] < |s.closes|)
  {
    StepSound(s, Await(x));
  }

  /** A due deadline that the loop has already looked at holds channel c. */
  ghost predicate Done(s: Times, d: Word, todo: set<Word>, c: nat) {
    exists t | t in s.m :: t <= d && s.m[t] == c && t !in todo
  }

  /** How far the loop of Trigger got: what it still has to look at, and what it has closed. */
  ghost predicate Fired(s: Times, d: Word, todo: set<Word>, m: map<Word, nat>, closes: seq<nat>) {
    && todo <= s.m.Keys && |closes| == |s.closes|
    && m == (map t | t in s.m && (t > d || t in todo) :: s.m[t])
    && forall c | 0 <= c < |closes| ::
         closes[c] == s.closes[c] + if Done(s, d, todo, c) then 1 else 0
  }

  lemma FiredNone(s: Times, d: Word)
    ensures Fired(s, d, s.m.Keys, s.m, s.closes)
  {
  }

  lemma FiredOne(s: Times, d: Word, todo: set<Word>, m: map<Word, nat>, closes: seq<nat>, t: Word)
    requires Sound(s) && Fired(s, d, todo, m, closes) && t in todo
    ensures t in m && m[t] == s.m[t] < |closes|
    ensures t <= d ==> closes[m[t]] == 0
    ensures t <= d ==> Fired(s, d, todo - {t}, m - {t}, closes[m[t] := closes[m[t]] + 1])
    ensures t > d ==> Fired(s, d, todo - {t}, m, closes)
  {
    assert t in s.m && s.closes[s.m[t]] == 0;
    if t <= d { FiredDue(s, d, todo, m, closes, t); } else { FiredLater(s, d, todo, m, closes, t); }
  }

  lemma FiredLater(s: Times, d: Word, todo: set<Word>, m: map<Word, nat>, closes: seq<nat>, t: Word)
    requires Fired(s, d, todo, m, closes) && t in todo && t > d
    ensures Fired(s, d, todo - {t}, m, closes)
  {
  }

  lemma FiredDue(s: Times, d: Word, todo: set<Word>, m: map<Word, nat>, closes: seq<nat>, t: Word)
    requires Sound(s) && Fired(s, d, todo, m, closes) && t in todo && t <= d
    ensures t in m && m[t] == s.m[t] < |closes| && closes[m[t]] == s.closes[m[t]]
    ensures Fired(s, d, todo - {t}, m - {t}, closes[m[t] := closes[m[t]] + 1])
  {
    var left := todo - {t};
    forall c | 0 <= c < |closes| && c != m[t]
      ensures Done(s, d, left, c) <==> Done(s, d, todo, c)
    {
    }
  }

  lemma FiredAll(s: Times, d: Word, m: map<Word, nat>, closes: seq<nat>)
    requires Fired(s, d, {}, m, closes)
    ensures Times(d, m, closes) == AfterTrigger(s, d)
  {
    var s' := AfterTrigger(s, d);
    assert m == s'.m;
    forall c | 0 <= c < |closes| ensures closes[c] == s'.closes[c] {
      if Hit(s, d, c) { var t :| t in s.m && t <= d && s.m[t] == c; assert t !in {}; }
    }
    assert closes == s'.closes;
  }

  class TimeList {
    var last: Word
    var m: map<Word, nat>
    var closes: seq<nat>

    ghost function Val(): Times
      reads this
    {
      Times(last, m, closes)
    }

    constructor ()
      ensures Val() == NewTimes && Sound(Val())
    {
      last, m, closes := 0, map[], [1];
    }

    method Wait(deadline: Word) returns (ch: nat)
      requires Sound(Val())
      modifies this
      ensures Sound(Val()) && Val() == AfterWait(old(Val()), deadline) && ch == Awaited(old(Val()), deadline)
    {
      hide Sound, AfterTrigger;
      WaitSound(Val(), deadline);
      if last >= deadline { return 0; }
      if deadline !in m {
        closes := closes + [0];
        m := m[deadline := |closes| - 1];
      }
      ch := m[deadline];
    }

    /** Every channel that the loop closes is open until then. */
    method Trigger(deadline: Word)
      requires Sound(Val())
      modifies this
      ensures Sound(Val()) && Val() == AfterTrigger(old(Val()), deadline)
    {
      hide Fired, AfterTrigger, Sound;
      ghost var s := Val();
      StepSound(s, Fire(deadline));
      FiredNone(s, deadline);
      last := deadline;
      var todo := m.Keys;
      while todo != {}
        invariant Fired(s, deadline, todo, m, closes) && last == deadline
        decreases todo
      {
        var t :| t in todo;
        FiredOne(s, deadline, todo, m, closes, t);
        todo := todo - {t};
        if t <= deadline {
          var ch := m[t];
          m := m - {t};
          assert closes[ch] == 0;
          closes := closes[ch := closes[ch] + 1];
        }
      }
      FiredAll(s, deadline, m, closes);
    }
  }

  ghost function Run(ops: seq<Op>): (s: Times)
    ensures Sound(s)
  {
    if ops == [] then NewTimes
    else
      var s := Run(ops[..|ops| - 1]);
      StepSound(s, ops[|ops| - 1]);
      Step(s, ops[|ops| - 1])
  }

  /** The deadline of the last trigger, 0 if there was none. */
  function LastFired(ops: seq<Op>): Word {
    if ops == [] then 0
    else
      var op := ops[|ops| - 1];
      if op.Fire? then op.deadline else LastFired(ops[..|ops| - 1])
  }

  lemma {:induction false} LastIsLastFired(ops: seq<Op>)
    ensures Run(ops).last == LastFired(ops)
  {
    if ops != [] { LastIsLastFired(ops[..|ops| - 1]); }
  }

  /** Some trigger from position p on reaches x. */
  ghost predicate FiredSince(ops: seq<Op>, p: nat, x: Word) {
    exists q | p <= q < |ops| :: ops[q].Fire? && ops[q].deadline >= x
  }

  lemma FiredSinceStep(ops: seq<Op>, p: nat, x: Word)
    requires p < |ops|
    ensures var op := ops[|ops| - 1];
      FiredSince(ops, p, x) <==> FiredSince(ops[..|ops| - 1], p, x) || (op.Fire? && op.deadline >= x)
  {
    var init := ops[..|ops| - 1];
    assert forall q | 0 <= q < |init| :: init[q] == ops[q];
    if FiredSince(init, p, x) {
      var q :| p <= q < |init| && init[q].Fire? && init[q].deadline >= x;
      assert ops[q].Fire? && ops[q].deadline >= x;
    }
    if FiredSince(ops, p, x) {
      var q :| p <= q < |ops| && ops[q].Fire? && ops[q].deadline >= x;
      if q < |init| { assert init[q].Fire? && init[q].deadline >= x; }
    }
  }

  /** A channel that waits for x is either closed and out of the map, or open and in it under x. */
  ghost predicate Shows(s: Times, ch: nat, x: Word, closed: bool) {
    && ch < |s.closes|
    && if closed then s.closes[ch] == 1 && forall t | t in s.m :: s.m[t] != ch
       else s.closes[ch] == 0 && x in s.m && s.m[x] == ch
  }

  lemma ShowsAfterStep(s: Times, op: Op, ch: nat, x: Word, closed: bool)
    requires Sound(s) && Shows(s, ch, x, closed)
    ensures Shows(Step(s, op), ch, x, closed || (op.Fire? && op.deadline >= x))
  {
    if op.Fire? {
      if closed { assert !Hit(s, op.deadline, ch); }
      else if op.deadline >= x { assert Hit(s, op.deadline, ch); }
      else { assert !Hit(s, op.deadline, ch); }
    }
  }

  lemma ShowsAtAwait(s: Times, x: Word)
    requires Sound(s)
    ensures Shows(Step(s, Await(x)), Awaited(s, x), x, s.last >= x)
  {
  }

  lemma {:induction false} ShowsInRun(ops: seq<Op>, p: nat)
    requires p < |ops| && ops[p].Await?
    ensures var x := ops[p].deadline;
      Shows(Run(ops), Awaited(Run(ops[..p]), x), x, LastFired(ops[..p]) >= x || FiredSince(ops, p + 1, x))
    decreases |ops|
  {
    hide Shows, Step, Sound, Awaited;
    var init, x := ops[..|ops| - 1], ops[p].deadline;
    LastIsLastFired(ops[..p]);
    if p == |ops| - 1 {
      assert ops[..p] == init;
      ShowsAtAwait(Run(init), x);
    } else {
      assert init[..p] == ops[..p];
      ShowsInRun(init, p);
      FiredSinceStep(ops, p + 1, x);
      var closed := LastFired(ops[..p]) >= x || FiredSince(init, p + 1, x);
      ShowsAfterStep(Run(init), ops[|ops| - 1], Awaited(Run(ops[..p]), x), x, closed);
    }
  }

  /**
   In every run, the channel that a Wait for deadline x returned is closed exactly when the last
   trigger before it had reached x or some later trigger reaches x, and it is closed once.
   */
  lemma ClosedExactly(ops: seq<Op>, p: nat)
    requires p < |ops| && ops[p].Await?
    ensures var x := ops[p].deadline; var ch := Awaited(Run(ops[..p]), x);
      && ch < |Run(ops).closes|
      && Run(ops).closes[ch] == if LastFired(ops[..p]) >= x || FiredSince(ops, p + 1, x) then 1 else 0
  {
    ShowsInRun(ops, p);
  }
}
