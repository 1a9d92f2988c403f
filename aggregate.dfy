/** Grouping the resolved records by user and the per-user statistics
    (src/lib.rs:201-230). The floating-point win rate and average are not
    part of the model; the exact integers they are computed from are. */
module Aggregate {
  import opened Types

  /** The distinct users of some records. */
  function UsersOf(recs: seq<Record>): set<User> {
    set k | 0 <= k < |recs| :: recs[k].user
  }

  /** The records of one user, in their original order. */
  function RecordsOf(recs: seq<Record>, u: User): (g: seq<Record>)
    ensures |g| <= |recs|
    ensures forall k :: 0 <= k < |g| ==> g[k].user == u
  {
    if recs == [] then []
    else
      var last := recs[|recs| - 1];
      RecordsOf(recs[..|recs| - 1], u) + (if last.user == u then [last] else [])
  }

  lemma {:induction false} RecordsOfAbsent(recs: seq<Record>, u: User)
    requires u !in UsersOf(recs)
    ensures RecordsOf(recs, u) == []
  {
    if recs != [] {
      var init := recs[..|recs| - 1];
      assert u !in UsersOf(init) by {
        forall k | 0 <= k < |init| ensures init[k].user != u {
          assert init[k] == recs[k];
        }
      }
      RecordsOfAbsent(init, u);
      assert recs[|recs| - 1].user != u;
    }
  }

  /** `groups.entry(&msg.user).or_default().push(msg)` over all records
      (src/lib.rs:202-206): one group per distinct user, holding that user's
      records in order. */
  method GroupRecords(recs: seq<Record>) returns (groups: map<User, seq<Record>>)
    ensures groups.Keys == UsersOf(recs)
    ensures forall u :: u in groups ==> groups[u] == RecordsOf(recs, u)
  {
    groups := map[];
    for i := 0 to |recs|
      invariant groups.Keys == UsersOf(recs[..i])
      invariant forall u :: u in groups ==> groups[u] == RecordsOf(recs[..i], u)
    {
      var r := recs[i];
      var group := if r.user in groups then groups[r.user] else [];
      assert recs[..i + 1][..i] == recs[..i] && recs[..i + 1][i] == r;
      if r.user !in groups {
        RecordsOfAbsent(recs[..i], r.user);
      }
      groups := groups[r.user := group + [r]];
      assert UsersOf(recs[..i + 1]) == UsersOf(recs[..i]) + {r.user} by {
        forall v | v in UsersOf(recs[..i + 1]) ensures v in UsersOf(recs[..i]) + {r.user} {
          var k :| 0 <= k < i + 1 && recs[..i + 1][k].user == v;
          if k < i { assert recs[..i][k].user == v; }
        }
        forall v | v in UsersOf(recs[..i]) ensures v in UsersOf(recs[..i + 1]) {
          var k :| 0 <= k < i && recs[..i][k].user == v;
          assert recs[..i + 1][k].user == v;
        }
      }
    }
    assert recs[..|recs|] == recs;
  }

  /** Every group is non-empty, so `games >= 1` and the `games > 0` branch
      of the win rate is always the one taken (src/lib.rs:216-220). */
  lemma {:induction false} GroupNonEmpty(recs: seq<Record>, u: User)
    requires u in UsersOf(recs)
    ensures |RecordsOf(recs, u)| >= 1
  {
    var init, last := recs[..|recs| - 1], recs[|recs| - 1];
    if last.user != u {
      assert u in UsersOf(init) by {
        var k :| 0 <= k < |recs| && recs[k].user == u;
        assert k < |init| && init[k].user == u;
      }
      GroupNonEmpty(init, u);
    }
  }

  /** A record is in the group of `u` exactly when it is one of the records
      and its user is `u`: each record sits in exactly one group. */
  lemma {:induction false} RecordsOfMembers(recs: seq<Record>, u: User, x: Record)
    ensures x in RecordsOf(recs, u) <==> x in recs && x.user == u
  {
    if recs != [] {
      var init, last := recs[..|recs| - 1], recs[|recs| - 1];
      RecordsOfMembers(init, u, x);
      assert recs == init + [last];
    }
  }

  /** Every record of `u` is kept, as often as it occurs, and no other. */
  lemma {:induction false} RecordsOfCounts(recs: seq<Record>, u: User, x: Record)
    ensures multiset(RecordsOf(recs, u))[x] == if x.user == u then multiset(recs)[x] else 0
  {
    if recs != [] {
      var init, last := recs[..|recs| - 1], recs[|recs| - 1];
      RecordsOfCounts(init, u, x);
      assert recs == init + [last];
    }
  }

  /** The group of a concatenation is the concatenation of the groups, so a
      group keeps the records in their original order. */
  lemma {:induction false} RecordsOfAppend(a: seq<Record>, b: seq<Record>, u: User)
    ensures RecordsOf(a + b, u) == RecordsOf(a, u) + RecordsOf(b, u)
  {
    if b == [] {
      assert a + b == a;
    } else {
      var init, last := b[..|b| - 1], b[|b| - 1];
      assert (a + b)[..|a + b| - 1] == a + init && (a + b)[|a + b| - 1] == last;
      RecordsOfAppend(a, init, u);
    }
  }

  // ---------------------------------------------------------------------
  // Statistics of a group

  /** A user's line of the leaderboard, before floating point: the number of
      games, the number of games with a score, and the sum of those scores
      (the average is `total / wins`, undefined when `wins` is zero). */
  datatype UserStats = UserStats(user: User, games: nat, wins: nat, total: int)

  /** The number of records with a score. */
  function Wins(g: seq<Record>): (n: nat)
    ensures n <= |g|
    ensures n == 0 <==> forall k :: 0 <= k < |g| ==> g[k].score.None?
  {
    if g == [] then 0 else (if g[0].score.Some? then 1 else 0) + Wins(g[1..])
  }

  /** The sum of the scores (`sum::<i32>()` over the scores present): zero
      without a score, and with one-digit scores at most 9 per win. */
  function Total(g: seq<Record>): (t: int)
    ensures Wins(g) == 0 ==> t == 0
    ensures (forall k :: 0 <= k < |g| && g[k].score.Some? ==> 0 <= g[k].score.value <= 9) ==>
      0 <= t <= 9 * Wins(g)
  {
    if g == [] then 0 else (if g[0].score.Some? then g[0].score.value else 0) + Total(g[1..])
  }

  /** The sum over a concatenation is the sum of the sums. */
  lemma {:induction false} TotalAppend(a: seq<Record>, b: seq<Record>)
    ensures Total(a + b) == Total(a) + Total(b)
  {
    if a == [] {
      assert a + b == b;
    } else {
      assert (a + b)[0] == a[0] && (a + b)[1..] == a[1..] + b;
      TotalAppend(a[1..], b);
    }
  }

  /** The statistics of one group (src/lib.rs:210-228). */
  function StatsOf(u: User, g: seq<Record>): (s: UserStats)
    ensures s.user == u && s.games == |g| && s.wins <= s.games
  {
    UserStats(u, |g|, Wins(g), Total(g))
  }

  /** Scores 3, 5 and a failure: three games, two wins, average 8 / 2 = 4. */
  lemma StatsExample(u: User, g: seq<Record>)
    requires g == [Record(Some(3), u), Record(Some(5), u), Record(None, u)]
    ensures StatsOf(u, g) == UserStats(u, 3, 2, 8)
  {
    var g1, g2 := g[1..], g[2..];
    assert g1 == [Record(Some(5), u), Record(None, u)] && g1[1..] == g2;
    assert g2 == [Record(None, u)] && g2[1..] == [];
    assert Wins(g2) == 0 && Total(g2) == 0;
    assert Wins(g1) == 1 && Total(g1) == 5;
  }

  // ---------------------------------------------------------------------
  // Statistics of all groups

  function StatsUsers(stats: seq<UserStats>): set<User> {
    set i | 0 <= i < |stats| :: stats[i].user
  }

  predicate DistinctUsers(stats: seq<UserStats>) {
    forall i, j :: 0 <= i < j < |stats| ==> stats[i].user != stats[j].user
  }

  /** Each line holds the statistics of its user's group. */
  predicate Describes(stats: seq<UserStats>, groups: map<User, seq<Record>>) {
    forall i :: 0 <= i < |stats| ==>
      stats[i].user in groups && stats[i] == StatsOf(stats[i].user, groups[stats[i].user])
  }

  lemma DescribesSnoc(stats: seq<UserStats>, groups: map<User, seq<Record>>, u: User)
    requires Describes(stats, groups) && u in groups
    ensures Describes(stats + [StatsOf(u, groups[u])], groups)
  {
    var s := stats + [StatsOf(u, groups[u])];
    forall i | 0 <= i < |s| ensures s[i].user in groups && s[i] == StatsOf(s[i].user, groups[s[i].user]) {
      if i < |stats| { assert s[i] == stats[i]; }
    }
  }

  /** `groups.into_iter().map(...)` (src/lib.rs:208-230): one line of
      statistics per group, in an unspecified order (each step takes any key
      not yet visited, as hash-map iteration does). */
  method ComputeStats(groups: map<User, seq<Record>>) returns (stats: seq<UserStats>)
    ensures |stats| == |groups.Keys|
    ensures StatsUsers(stats) == groups.Keys && DistinctUsers(stats)
    ensures Describes(stats, groups)
  {
    stats := [];
    var remaining := groups.Keys;
    while remaining != {}
      invariant remaining <= groups.Keys
      invariant StatsUsers(stats) == groups.Keys - remaining
      invariant |stats| + |remaining| == |groups.Keys|
      invariant DistinctUsers(stats)
      invariant Describes(stats, groups)
      decreases remaining
    {
      var u :| u in remaining;
      StatsSnoc(stats, StatsOf(u, groups[u]));
      DescribesSnoc(stats, groups, u);
      stats := stats + [StatsOf(u, groups[u])];
      remaining := remaining - {u};
    }
  }

  /** Appending a line for a new user keeps the users distinct. */
  lemma StatsSnoc(stats: seq<UserStats>, x: UserStats)
    requires DistinctUsers(stats) && x.user !in StatsUsers(stats)
    ensures StatsUsers(stats + [x]) == StatsUsers(stats) + {x.user}
    ensures DistinctUsers(stats + [x])
  {
    var s := stats + [x];
    assert s[|stats|] == x;
    forall v | v in StatsUsers(s) ensures v in StatsUsers(stats) + {x.user} {
      var i :| 0 <= i < |s| && s[i].user == v;
      if i < |stats| { assert stats[i] == s[i]; }
    }
    forall v | v in StatsUsers(stats) ensures v in StatsUsers(s) {
      var i :| 0 <= i < |stats| && stats[i].user == v;
      assert s[i] == stats[i];
    }
  }

  /** However the groups are visited, the same lines come out: the
      statistics depend on the records alone. */
  lemma StatsIndependentOfOrder(groups: map<User, seq<Record>>, s1: seq<UserStats>, s2: seq<UserStats>)
    requires StatsUsers(s1) == groups.Keys && StatsUsers(s2) == groups.Keys
    requires Describes(s1, groups) && Describes(s2, groups)
    ensures forall x :: x in s1 <==> x in s2
  {
    forall x | x in s1 ensures x in s2 {
      var i :| 0 <= i < |s1| && s1[i] == x;
      assert x.user in StatsUsers(s2);
      var j :| 0 <= j < |s2| && s2[j].user == x.user;
    }
    forall x | x in s2 ensures x in s1 {
      var j :| 0 <= j < |s2| && s2[j] == x;
      assert x.user in StatsUsers(s1);
      var i :| 0 <= i < |s1| && s1[i].user == x.user;
    }
  }

  // ---------------------------------------------------------------------
  // No game is lost or counted twice

  function SumGames(stats: seq<UserStats>): nat {
    if stats == [] then 0 else stats[0].games + SumGames(stats[1..])
  }

  /** The number of records whose user is in `users`. */
  function CountIn(recs: seq<Record>, users: set<User>): nat {
    if recs == [] then 0
    else CountIn(recs[..|recs| - 1], users) + (if recs[|recs| - 1].user in users then 1 else 0)
  }

  lemma {:induction false} CountInSingle(recs: seq<Record>, u: User)
    ensures |RecordsOf(recs, u)| == CountIn(recs, {u})
  {
    if recs != [] { CountInSingle(recs[..|recs| - 1], u); }
  }

  lemma {:induction false} CountInUnion(recs: seq<Record>, a: set<User>, b: set<User>)
    requires a !! b
    ensures CountIn(recs, a + b) == CountIn(recs, a) + CountIn(recs, b)
  {
    if recs != [] { CountInUnion(recs[..|recs| - 1], a, b); }
  }

  lemma {:induction false} CountInAll(recs: seq<Record>, users: set<User>)
    requires UsersOf(recs) <= users
    ensures CountIn(recs, users) == |recs|
  {
    if recs != [] {
      var init := recs[..|recs| - 1];
      assert UsersOf(init) <= users by {
        forall v | v in UsersOf(init) ensures v in users {
          var k :| 0 <= k < |init| && init[k].user == v;
          assert recs[k].user == v;
        }
      }
      CountInAll(init, users);
    }
  }

  lemma {:induction false} SumGamesCountIn(recs: seq<Record>, stats: seq<UserStats>)
    requires DistinctUsers(stats)
    requires forall i :: 0 <= i < |stats| ==> stats[i].games == |RecordsOf(recs, stats[i].user)|
    ensures SumGames(stats) == CountIn(recs, StatsUsers(stats))
  {
    if stats == [] {
      assert StatsUsers(stats) == {};
      CountInZero(recs);
    } else {
      var u, rest := stats[0].user, stats[1..];
      assert DistinctUsers(rest) by {
        forall i, j | 0 <= i < j < |rest| ensures rest[i].user != rest[j].user {
          assert rest[i] == stats[i + 1] && rest[j] == stats[j + 1];
        }
      }
      forall i | 0 <= i < |rest| ensures rest[i].games == |RecordsOf(recs, rest[i].user)| {
        assert rest[i] == stats[i + 1];
      }
      SumGamesCountIn(recs, rest);
      assert StatsUsers(stats) == {u} + StatsUsers(rest) by {
        forall v | v in StatsUsers(stats) ensures v in {u} + StatsUsers(rest) {
          var i :| 0 <= i < |stats| && stats[i].user == v;
          if i > 0 { assert rest[i - 1].user == v; }
        }
        forall v | v in StatsUsers(rest) ensures v in StatsUsers(stats) {
          var i :| 0 <= i < |rest| && rest[i].user == v;
          assert stats[i + 1].user == v;
        }
      }
      assert u !in StatsUsers(rest) by {
        forall i | 0 <= i < |rest| ensures rest[i].user != u {
          assert rest[i] == stats[i + 1];
        }
      }
      CountInUnion(recs, {u}, StatsUsers(rest));
      CountInSingle(recs, u);
    }
  }

  lemma {:induction false} CountInZero(recs: seq<Record>)
    ensures CountIn(recs, {}) == 0
  {
    if recs != [] { CountInZero(recs[..|recs| - 1]); }
  }

  /** Conservation: over any listing of the groups of `recs`, one line per
      user, the games add up to the number of records. */
  lemma GamesConserved(recs: seq<Record>, stats: seq<UserStats>)
    requires StatsUsers(stats) == UsersOf(recs) && DistinctUsers(stats)
    requires forall i :: 0 <= i < |stats| ==> stats[i].games == |RecordsOf(recs, stats[i].user)|
    ensures SumGames(stats) == |recs|
  {
    SumGamesCountIn(recs, stats);
    CountInAll(recs, UsersOf(recs));
  }
}
