/** Vote tallying over simple and joint majorities. */
module Quorum {
  import opened Prelude

  datatype VoteResult = VotePending | VoteLost | VoteWon

  type Votes = map<Word, bool>

  function Yes(c: set<Word>, votes: Votes): set<Word> {
    set id | id in c && id in votes && votes[id]
  }

  function No(c: set<Word>, votes: Votes): set<Word> {
    set id | id in c && id in votes && !votes[id]
  }

  function Missing(c: set<Word>, votes: Votes): set<Word> {
    c - votes.Keys
  }

  /** MajorityConfig.VoteResult; by convention the empty configuration wins. */
  function MajorityResult(c: set<Word>, votes: Votes): VoteResult {
    if c == {} then VoteWon
    else
      var q := |c| / 2 + 1;
      if |Yes(c, votes)| >= q then VoteWon
      else if |Yes(c, votes)| + |Missing(c, votes)| >= q then VotePending
      else VoteLost
  }

  lemma CountYes(seen: set<Word>, id: Word, votes: Votes)
    requires id !in seen
    ensures |Yes(seen + {id}, votes)| == |Yes(seen, votes)| + if id in votes && votes[id] then 1 else 0
  {
    var y := Yes(seen, votes);
    if id in votes && votes[id] {
      assert Yes(seen + {id}, votes) == y + {id};
    } else {
      assert Yes(seen + {id}, votes) == y;
    }
  }

  lemma CountNo(seen: set<Word>, id: Word, votes: Votes)
    requires id !in seen
    ensures |No(seen + {id}, votes)| == |No(seen, votes)| + if id in votes && !votes[id] then 1 else 0
  {
    var n := No(seen, votes);
    if id in votes && !votes[id] {
      assert No(seen + {id}, votes) == n + {id};
    } else {
      assert No(seen + {id}, votes) == n;
    }
  }

  lemma CountMissing(seen: set<Word>, id: Word, votes: Votes)
    requires id !in seen
    ensures |Missing(seen + {id}, votes)| == |Missing(seen, votes)| + if id in votes then 0 else 1
  {
    var m := Missing(seen, votes);
    if id in votes {
      assert Missing(seen + {id}, votes) == m;
    } else {
      assert Missing(seen + {id}, votes) == m + {id};
    }
  }

  /** The counters say how the voters seen so far voted. */
  ghost predicate Tallied(seen: set<Word>, votes: Votes, no: int, yes: int, missing: int) {
    yes == |Yes(seen, votes)| && no == |No(seen, votes)| && missing == |Missing(seen, votes)|
  }

  lemma TallyNone(votes: Votes)
    ensures Tallied({}, votes, 0, 0, 0)
  {
  }

  lemma TallyOne(seen: set<Word>, votes: Votes, no: int, yes: int, missing: int, id: Word)
    requires Tallied(seen, votes, no, yes, missing) && id !in seen
    ensures Tallied(seen + {id}, votes,
                    if id in votes && !votes[id] then no + 1 else no,
                    if id in votes && votes[id] then yes + 1 else yes,
                    if id in votes then missing else missing + 1)
  {
    hide Yes, No, Missing;
    CountYes(seen, id, votes);
    CountNo(seen, id, votes);
    CountMissing(seen, id, votes);
  }

  /** A loop over a map visits every key once: seen and todo part c. */
  ghost predicate Parted(c: set<Word>, seen: set<Word>, todo: set<Word>) {
    seen + todo == c && seen !! todo
  }

  lemma PartOne(c: set<Word>, seen: set<Word>, todo: set<Word>, id: Word)
    requires Parted(c, seen, todo) && id in todo
    ensures id in c && id !in seen && Parted(c, seen + {id}, todo - {id})
  {
  }

  lemma PartEnds(c: set<Word>, seen: set<Word>)
    ensures Parted(c, {}, c) && (Parted(c, seen, {}) ==> seen == c)
  {
    assert {} + c == c && seen + {} == seen;
  }

  method MajorityVoteResult(c: set<Word>, votes: Votes) returns (r: VoteResult)
    ensures r == MajorityResult(c, votes)
  {
    if |c| == 0 { return VoteWon; }
    var no, yes, missing, todo := 0, 0, 0, c;
    ghost var seen: set<Word> := {};
    TallyNone(votes);
    PartEnds(c, {});
    while todo != {}
      invariant Parted(c, seen, todo) && Tallied(seen, votes, no, yes, missing)
      decreases todo
    {
      hide Parted, Tallied;
      var id :| id in todo;
      PartOne(c, seen, todo, id);
      TallyOne(seen, votes, no, yes, missing, id);
      todo, seen := todo - {id}, seen + {id};
      if id !in votes {
        missing := missing + 1;
      } else if votes[id] {
        yes := yes + 1;
      } else {
        no := no + 1;
      }
    }
    PartEnds(c, seen);
    var q := |c| / 2 + 1;
    if yes >= q { return VoteWon; }
    if yes + missing >= q { return VotePending; }
    r := VoteLost;
  }

  // ------------------------------------------------------------ listing voters

  /** Strictly ascending, so without repetition. */
  ghost predicate Ascending(sl: seq<Word>) {
    forall i, j | 0 <= i < j < |sl| :: sl[i] < sl[j]
  }

  /** sl lists exactly the ids of c, in ascending order. */
  ghost predicate Lists(sl: seq<Word>, c: set<Word>) {
    Ascending(sl) && forall id :: id in c <==> id in sl
  }

  /** There is one such list. */
  lemma {:induction false} ListIsUnique(a: seq<Word>, b: seq<Word>, c: set<Word>)
    requires Lists(a, c) && Lists(b, c)
    ensures a == b
    decreases |a|
  {
    if a == [] {
      if b != [] { ListedIsThere(b, c); }
    } else {
      assert a[0] in b && b != [];
      assert b[0] in a;
      ListTail(a, c);
      ListTail(b, c);
      ListIsUnique(a[1..], b[1..], c - {a[0]});
    }
  }

  lemma ListedIsThere(a: seq<Word>, c: set<Word>)
    requires Lists(a, c) && a != []
    ensures c != {}
  {
    assert a[0] in c;
  }

  lemma ListTail(a: seq<Word>, c: set<Word>)
    requires Lists(a, c) && a != []
    ensures Lists(a[1..], c - {a[0]})
  {
    assert a == [a[0]] + a[1..];
  }

  /** Where id belongs in an ascending list that does not have it. */
  method Insert(sl: seq<Word>, id: Word) returns (r: seq<Word>)
    requires Ascending(sl) && id !in sl
    ensures Ascending(r) && forall x :: x in r <==> x == id || x in sl
  {
    var k := 0;
    while k < |sl| && sl[k] < id
      invariant 0 <= k <= |sl| && forall i | 0 <= i < k :: sl[i] < id
    {
      k := k + 1;
    }
    assert k < |sl| ==> sl[k] in sl;
    hide Ascending;
    r := sl[..k] + [id] + sl[k..];
    InsertedThere(sl, k, id);
    InsertedInOrder(sl, k, id);
  }

  lemma InsertedThere(sl: seq<Word>, k: nat, id: Word)
    requires k <= |sl|
    ensures forall x :: x in sl[..k] + [id] + sl[k..] <==> x == id || x in sl
  {
    assert sl == sl[..k] + sl[k..];
  }

  lemma InsertedInOrder(sl: seq<Word>, k: nat, id: Word)
    requires Ascending(sl) && k <= |sl| && (k < |sl| ==> id < sl[k]) && forall i | 0 <= i < k :: sl[i] < id
    ensures Ascending(sl[..k] + [id] + sl[k..])
  {
    var r := sl[..k] + [id] + sl[k..];
    forall i, j | 0 <= i < j < |r| ensures r[i] < r[j] {
      assert r[i] == if i < k then sl[i] else if i == k then id else sl[i - 1];
      assert r[j] == if j < k then sl[j] else if j == k then id else sl[j - 1];
    }
  }

  /** MajorityConfig.Slice: collected from the map in any order, then sorted. */
  method Slice(c: set<Word>) returns (sl: seq<Word>)
    ensures Lists(sl, c)
  {
    sl := [];
    var todo := c;
    while todo != {}
      invariant todo <= c && Lists(sl, c - todo)
      decreases todo
    {
      var id :| id in todo;
      sl := Insert(sl, id);
      todo := todo - {id};
    }
  }

  /** JointConfig.VoteResult: both halves have to agree to win. */
  function JointResult(c0: set<Word>, c1: set<Word>, votes: Votes): VoteResult {
    var r1, r2 := MajorityResult(c0, votes), MajorityResult(c1, votes);
    if r1 == r2 then r1
    else if r1 == VoteLost || r2 == VoteLost then VoteLost
    else VotePending
  }

  /** With an empty second half a joint configuration is a simple one. */
  lemma HalfEmptyJointIsSimple(c: set<Word>, votes: Votes)
    ensures JointResult(c, {}, votes) == MajorityResult(c, votes)
  {
  }

  // ---------------------------------------------------------- exact verdicts

  ghost predicate Extends(votes: Votes, more: Votes) {
    forall id | id in votes :: id in more && more[id] == votes[id]
  }

  /** full adds a vote for everyone of ids who has not voted yet. */
  ghost predicate Completes(votes: Votes, full: Votes, ids: set<Word>) {
    Extends(votes, full) && ids <= full.Keys
  }

  function Fill(votes: Votes, ids: set<Word>, v: bool): Votes {
    (map id | id in ids :: v) + votes
  }

  lemma SubsetSize(a: set<Word>, b: set<Word>)
    requires a <= b
    ensures |a| <= |b|
  {
    assert b == a + (b - a);
  }

  lemma Split(c: set<Word>, votes: Votes)
    ensures |Yes(c, votes)| + |No(c, votes)| + |Missing(c, votes)| == |c|
  {
    assert c == Yes(c, votes) + No(c, votes) + Missing(c, votes);
  }

  /** A completion decides a half, and only between the bounds the votes already set. */
  lemma CompletedSets(c: set<Word>, votes: Votes, full: Votes)
    requires Completes(votes, full, c)
    ensures Missing(c, full) == {}
    ensures |Yes(c, votes)| <= |Yes(c, full)| <= |Yes(c, votes)| + |Missing(c, votes)|
  {
    SubsetSize(Yes(c, votes), Yes(c, full));
    SubsetSize(Yes(c, full), Yes(c, votes) + Missing(c, votes));
    assert Yes(c, votes) * Missing(c, votes) == {};
  }

  lemma CompletedMajority(c: set<Word>, votes: Votes, full: Votes)
    requires Completes(votes, full, c)
    ensures MajorityResult(c, full) != VotePending
    ensures MajorityResult(c, votes) == VoteWon ==> MajorityResult(c, full) == VoteWon
    ensures MajorityResult(c, votes) == VoteLost ==> MajorityResult(c, full) == VoteLost
  {
    hide Yes, Missing, Completes;
    CompletedSets(c, votes, full);
  }

  lemma FilledYes(c: set<Word>, ids: set<Word>, votes: Votes)
    requires c <= ids
    ensures |Yes(c, Fill(votes, ids, true))| == |Yes(c, votes)| + |Missing(c, votes)|
  {
    var y, m := Yes(c, votes), Missing(c, votes);
    assert Yes(c, Fill(votes, ids, true)) == y + m by {
      assert forall id | id in c :: id in Fill(votes, ids, true);
    }
    hide Yes, Missing, Fill;
    assert y !! m;
  }

  lemma FilledNo(c: set<Word>, ids: set<Word>, votes: Votes)
    requires c <= ids
    ensures Yes(c, Fill(votes, ids, false)) == Yes(c, votes) && Missing(c, Fill(votes, ids, false)) == {}
  {
  }

  lemma FilledMajority(c: set<Word>, ids: set<Word>, votes: Votes)
    requires c <= ids
    ensures MajorityResult(c, votes) != VoteLost ==> MajorityResult(c, Fill(votes, ids, true)) == VoteWon
    ensures MajorityResult(c, votes) != VoteWon ==> MajorityResult(c, Fill(votes, ids, false)) == VoteLost
  {
    hide Yes, Missing, Fill;
    FilledYes(c, ids, votes);
    FilledNo(c, ids, votes);
  }

  /**
   The verdict on a joint configuration is exact: Won or Lost when every way to complete the votes
   ends that way, Pending when some completion wins and some completion loses.
   */
  lemma JointVerdictExact(c0: set<Word>, c1: set<Word>, votes: Votes)
    ensures JointResult(c0, c1, votes) == VoteWon
       <==> forall full | Completes(votes, full, c0 + c1) :: JointResult(c0, c1, full) == VoteWon
    ensures JointResult(c0, c1, votes) == VoteLost
       <==> forall full | Completes(votes, full, c0 + c1) :: JointResult(c0, c1, full) == VoteLost
    ensures JointResult(c0, c1, votes) == VotePending
       <==> (exists full :: Completes(votes, full, c0 + c1) && JointResult(c0, c1, full) == VoteWon)
            && exists full :: Completes(votes, full, c0 + c1) && JointResult(c0, c1, full) == VoteLost
  {
    hide MajorityResult;
    var ids := c0 + c1;
    var t, f := Fill(votes, ids, true), Fill(votes, ids, false);
    assert Completes(votes, t, ids) && Completes(votes, f, ids);
    FilledMajority(c0, ids, votes);
    FilledMajority(c1, ids, votes);
    CompletedMajority(c0, votes, t);
    CompletedMajority(c0, votes, f);
    CompletedMajority(c1, votes, t);
    CompletedMajority(c1, votes, f);
    forall full | Completes(votes, full, ids)
      ensures JointResult(c0, c1, votes) == VoteWon ==> JointResult(c0, c1, full) == VoteWon
      ensures JointResult(c0, c1, votes) == VoteLost ==> JointResult(c0, c1, full) == VoteLost
    {
      CompletedMajority(c0, votes, full);
      CompletedMajority(c1, votes, full);
    }
  }

  /** Once decided, a result never changes as further votes come in. */
  lemma DecidedStaysDecided(c0: set<Word>, c1: set<Word>, votes: Votes, more: Votes)
    requires Extends(votes, more) && JointResult(c0, c1, votes) != VotePending
    ensures JointResult(c0, c1, more) == JointResult(c0, c1, votes)
  {
    hide JointResult;
    JointVerdictExact(c0, c1, votes);
    JointVerdictExact(c0, c1, more);
    assert forall full | Completes(more, full, c0 + c1) :: Completes(votes, full, c0 + c1);
  }

  // ---------------------------------------------------------------- overlap

  lemma DisjointSizes(a: set<Word>, b: set<Word>, y: set<Word>, z: set<Word>)
    requires y <= a && z <= b && y * z == {}
    ensures 2 * (|y| + |z|) <= |a| + |b| + |a - b| + |b - a|
  {
    SubsetSize(y + z, a + b);
    assert |y + z| == |y| + |z|;
    assert a + b == a + (b - a) && a + b == b + (a - b);
  }

  /** Configurations that differ in at most one voter never elect by disjoint sets of voters. */
  lemma WinnersOverlap(a: set<Word>, b: set<Word>, v: Votes, w: Votes) returns (id: Word)
    requires a != {} && b != {} && |a - b| + |b - a| <= 1
    requires MajorityResult(a, v) == VoteWon && MajorityResult(b, w) == VoteWon
    ensures id in a && id in b && id in v && v[id] && id in w && w[id]
  {
    var y, z := Yes(a, v), Yes(b, w);
    if y * z == {} {
      DisjointSizes(a, b, y, z);
      assert false;
    }
    id :| id in y * z;
  }

  /** Any winners under a and under b have a yes-voter in common. */
  ghost predicate WinnersMeet(a: set<Word>, b: set<Word>) {
    forall v: Votes, w: Votes | MajorityResult(a, v) == VoteWon && MajorityResult(b, w) == VoteWon ::
      Yes(a, v) * Yes(b, w) != {}
  }

  lemma {:induction false} PickSome(s: set<Word>, n: nat) returns (t: set<Word>)
    requires n <= |s|
    ensures t <= s && |t| == n
    decreases n
  {
    if n == 0 {
      t := {};
    } else {
      var x :| x in s;
      assert s == (s - {x}) + {x};
      var u := PickSome(s - {x}, n - 1);
      t := u + {x};
    }
  }

  /** Everyone of y votes yes, nobody else votes. */
  function YesFrom(y: set<Word>): Votes {
    map id | id in y :: true
  }

  lemma QuorumWins(a: set<Word>, y: set<Word>)
    requires y <= a && |y| >= |a| / 2 + 1
    ensures MajorityResult(a, YesFrom(y)) == VoteWon && Yes(a, YesFrom(y)) == y
  {
    assert Yes(a, YesFrom(y)) == y;
  }

  /** If two majorities fit side by side into all voters, two winners need not meet. */
  lemma DisjointWinners(a: set<Word>, b: set<Word>) returns (v: Votes, w: Votes)
    requires a != {} && b != {} && |a| / 2 + 1 + |b| / 2 + 1 <= |a + b|
    ensures MajorityResult(a, v) == VoteWon && MajorityResult(b, w) == VoteWon && Yes(a, v) * Yes(b, w) == {}
  {
    var y := PickApart(a, b, |a| / 2 + 1);
    var z := PickSome(b - y, |b| / 2 + 1);
    QuorumWins(a, y);
    QuorumWins(b, z);
    v, w := YesFrom(y), YesFrom(z);
    assert y * z == {};
  }

  /** n voters of a, taken from outside b as far as possible. */
  lemma PickApart(a: set<Word>, b: set<Word>, n: nat) returns (y: set<Word>)
    requires n <= |a|
    ensures y <= a && |y| == n && |b - y| >= Min(|b|, |a + b| - n)
  {
    assert a == (a - b) + (a * b) && a + b == (a - b) + b;
    if n <= |a - b| {
      y := PickSome(a - b, n);
      assert b - y == b;
    } else {
      var more := PickSome(a * b, n - |a - b|);
      y := (a - b) + more;
      assert b - y == b - more && b == (b - more) + more;
    }
  }

  /** When winners under two configurations always meet: the one-voter rule is one way to ensure it. */
  lemma WinnersMeetExactly(a: set<Word>, b: set<Word>)
    requires a != {} && b != {}
    ensures WinnersMeet(a, b) <==> |a| / 2 + 1 + |b| / 2 + 1 > |a + b|
  {
    if |a| / 2 + 1 + |b| / 2 + 1 > |a + b| {
      forall v: Votes, w: Votes | MajorityResult(a, v) == VoteWon && MajorityResult(b, w) == VoteWon
        ensures Yes(a, v) * Yes(b, w) != {}
      {
        QuorumsMeet(a, b, Yes(a, v), Yes(b, w));
      }
    } else {
      var v, w := DisjointWinners(a, b);
      assert Yes(a, v) * Yes(b, w) == {};
    }
  }

  lemma QuorumsMeet(a: set<Word>, b: set<Word>, y: set<Word>, z: set<Word>)
    requires y <= a && z <= b && |y| + |z| > |a + b|
    ensures y * z != {}
  {
    SubsetSize(y + z, a + b);
    assert y + z == y + (z - y) && z == (z - y) + (y * z);
  }

  /** Two wins under one joint configuration share a yes-voter in each non-empty half. */
  lemma JointWinnersOverlap(c0: set<Word>, c1: set<Word>, v: Votes, w: Votes)
    requires JointResult(c0, c1, v) == VoteWon && JointResult(c0, c1, w) == VoteWon
    ensures c0 != {} ==> exists id :: id in c0 && id in v && v[id] && id in w && w[id]
    ensures c1 != {} ==> exists id :: id in c1 && id in v && v[id] && id in w && w[id]
  {
    assert c0 - c0 == {} && c1 - c1 == {};
    if c0 != {} { var id := WinnersOverlap(c0, c0, v, w); }
    if c1 != {} { var id := WinnersOverlap(c1, c1, v, w); }
  }
}
