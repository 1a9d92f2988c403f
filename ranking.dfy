/** The ordering of the leaderboard: the statistics sorted by win rate, best
    first, by a stable sort (`sorted_by(|a, b| b.winrate.partial_cmp(&a.winrate))`,
    src/lib.rs:232-234). The win rate `wins / games` (0 when there are no
    games, src/lib.rs:216-220) is compared exactly, as a fraction, instead
    of as a 64-bit float. */
module Ranking {
  import opened Types
  import opened Aggregate

  /** The win rate as a fraction `RateNum / RateDen` with a positive
      denominator: `wins / games`, or `0 / 1` without games. */
  function RateNum(s: UserStats): nat { if s.games > 0 then s.wins else 0 }

  function RateDen(s: UserStats): (d: nat)
    ensures d > 0
  {
    if s.games > 0 then s.games else 1
  }

  /** `a`'s win rate is at least `b`'s. */
  predicate AtLeast(a: UserStats, b: UserStats) {
    RateNum(a) * RateDen(b) >= RateNum(b) * RateDen(a)
  }

  lemma MulMono(x: int, y: int, k: int)
    requires x >= y && k > 0
    ensures x * k >= y * k
  {
  }

  lemma MulCancel(x: int, y: int, k: int)
    requires x * k >= y * k && k > 0
    ensures x >= y
  {
    if x < y {
      MulMono(y, x + 1, k);
    }
  }

  /** Win rates are totally preordered: comparing two is always possible and
      the comparison is transitive. */
  lemma AtLeastTotal(a: UserStats, b: UserStats)
    ensures AtLeast(a, b) || AtLeast(b, a)
  {
  }

  lemma AtLeastTransitive(a: UserStats, b: UserStats, c: UserStats)
    requires AtLeast(a, b) && AtLeast(b, c)
    ensures AtLeast(a, c)
  {
    var na, nb, nc := RateNum(a), RateNum(b), RateNum(c);
    var da, db, dc := RateDen(a), RateDen(b), RateDen(c);
    MulMono(na * db, nb * da, dc);
    MulMono(nb * dc, nc * db, da);
    assert na * db * dc == (na * dc) * db;
    assert nb * da * dc == nb * dc * da;
    assert nc * db * da == (nc * da) * db;
    MulCancel(na * dc, nc * da, db);
  }

  /** Best first: every entry's win rate is at least that of every later one. */
  predicate Ranked(s: seq<UserStats>) {
    forall i, j :: 0 <= i < j < |s| ==> AtLeast(s[i], s[j])
  }

  /** Inserts `x` into a ranked list after every entry whose rate is at
      least `x`'s, which keeps ties in arrival order. */
  function Insert(s: seq<UserStats>, x: UserStats): (r: seq<UserStats>)
    ensures multiset(r) == multiset(s) + multiset{x}
    ensures |r| == |s| + 1
  {
    if s == [] then [x]
    else if !AtLeast(s[0], x) then [x] + s
    else
      assert s == [s[0]] + s[1..];
      [s[0]] + Insert(s[1..], x)
  }

  /** Every entry of `Insert(s, x)` is `x` or an entry of `s`. */
  lemma InsertMember(s: seq<UserStats>, x: UserStats, y: UserStats)
    requires y in Insert(s, x)
    ensures y == x || y in s
  {
    assert y in multiset(Insert(s, x));
  }

  lemma RankedCons(h: UserStats, t: seq<UserStats>)
    requires Ranked(t) && forall j :: 0 <= j < |t| ==> AtLeast(h, t[j])
    ensures Ranked([h] + t)
  {
    var r := [h] + t;
    forall i, j | 0 <= i < j < |r| ensures AtLeast(r[i], r[j]) {
      if i == 0 { assert r[j] == t[j - 1]; }
      else { assert r[i] == t[i - 1] && r[j] == t[j - 1]; }
    }
  }

  lemma DistinctCons(h: UserStats, t: seq<UserStats>)
    requires DistinctUsers(t) && forall j :: 0 <= j < |t| ==> t[j].user != h.user
    ensures DistinctUsers([h] + t)
  {
    var r := [h] + t;
    forall i, j | 0 <= i < j < |r| ensures r[i].user != r[j].user {
      if i == 0 { assert r[j] == t[j - 1]; }
      else { assert r[i] == t[i - 1] && r[j] == t[j - 1]; }
    }
  }

  lemma {:induction false} InsertRanked(s: seq<UserStats>, x: UserStats)
    requires Ranked(s)
    ensures Ranked(Insert(s, x))
  {
    if s == [] {
    } else if !AtLeast(s[0], x) {
      AtLeastTotal(s[0], x);
      forall j | 0 <= j < |s| ensures AtLeast(x, s[j]) {
        if j > 0 { AtLeastTransitive(x, s[0], s[j]); }
      }
      RankedCons(x, s);
    } else {
      var rest := s[1..];
      assert Ranked(rest) by {
        forall i, j | 0 <= i < j < |rest| ensures AtLeast(rest[i], rest[j]) {
          assert rest[i] == s[i + 1] && rest[j] == s[j + 1];
        }
      }
      InsertRanked(rest, x);
      var tail := Insert(rest, x);
      forall j | 0 <= j < |tail| ensures AtLeast(s[0], tail[j]) {
        InsertMember(rest, x, tail[j]);
        if tail[j] != x {
          var k :| 0 <= k < |rest| && rest[k] == tail[j];
          assert s[k + 1] == tail[j];
        }
      }
      RankedCons(s[0], tail);
    }
  }

  /** The stable sort, entry by entry in input order. */
  function Rank(s: seq<UserStats>): (r: seq<UserStats>)
    ensures multiset(r) == multiset(s)
    ensures |r| == |s|
  {
    if s == [] then []
    else
      assert s == s[..|s| - 1] + [s[|s| - 1]];
      Insert(Rank(s[..|s| - 1]), s[|s| - 1])
  }

  /** The ranking is best first and holds exactly the entries it was given. */
  lemma {:induction false} RankRanked(s: seq<UserStats>)
    ensures Ranked(Rank(s))
  {
    if s != [] {
      RankRanked(s[..|s| - 1]);
      InsertRanked(Rank(s[..|s| - 1]), s[|s| - 1]);
    }
  }

  /** Ranking loses and adds no game. */
  lemma {:induction false} InsertSumGames(s: seq<UserStats>, x: UserStats)
    ensures SumGames(Insert(s, x)) == SumGames(s) + x.games
  {
    if s != [] && AtLeast(s[0], x) {
      InsertSumGames(s[1..], x);
      assert ([s[0]] + Insert(s[1..], x))[1..] == Insert(s[1..], x);
    } else if s != [] {
      assert ([x] + s)[1..] == s;
    }
  }

  lemma {:induction false} SumGamesSnoc(s: seq<UserStats>, x: UserStats)
    ensures SumGames(s + [x]) == SumGames(s) + x.games
  {
    if s != [] {
      assert (s + [x])[1..] == s[1..] + [x];
      SumGamesSnoc(s[1..], x);
    }
  }

  lemma {:induction false} RankSumGames(s: seq<UserStats>)
    ensures SumGames(Rank(s)) == SumGames(s)
  {
    if s != [] {
      var init, last := s[..|s| - 1], s[|s| - 1];
      calc {
        SumGames(Rank(s));
        SumGames(Insert(Rank(init), last));
        { InsertSumGames(Rank(init), last); }
        SumGames(Rank(init)) + last.games;
        { RankSumGames(init); }
        SumGames(init) + last.games;
        { SumGamesSnoc(init, last); }
        SumGames(init + [last]);
        { assert init + [last] == s; }
        SumGames(s);
      }
    }
  }

  /** Ranking keeps one line per user: entries are only moved, never merged
      or copied. */
  lemma RankUsers(s: seq<UserStats>)
    ensures StatsUsers(Rank(s)) == StatsUsers(s)
  {
    var r := Rank(s);
    forall u | u in StatsUsers(r) ensures u in StatsUsers(s) {
      var i :| 0 <= i < |r| && r[i].user == u;
      assert r[i] in multiset(s);
      var j :| 0 <= j < |s| && s[j] == r[i];
    }
    forall u | u in StatsUsers(s) ensures u in StatsUsers(r) {
      var i :| 0 <= i < |s| && s[i].user == u;
      assert s[i] in multiset(r);
      var j :| 0 <= j < |r| && r[j] == s[i];
    }
  }

  lemma {:induction false} InsertDistinct(s: seq<UserStats>, x: UserStats)
    requires DistinctUsers(s) && x.user !in StatsUsers(s)
    ensures DistinctUsers(Insert(s, x))
  {
    if s == [] {
    } else if !AtLeast(s[0], x) {
      DistinctCons(x, s);
    } else {
      var rest := s[1..];
      assert DistinctUsers(rest) by {
        forall i, j | 0 <= i < j < |rest| ensures rest[i].user != rest[j].user {
          assert rest[i] == s[i + 1] && rest[j] == s[j + 1];
        }
      }
      assert x.user !in StatsUsers(rest) by {
        forall i | 0 <= i < |rest| ensures rest[i].user != x.user {
          assert rest[i] == s[i + 1];
        }
      }
      InsertDistinct(rest, x);
      var tail := Insert(rest, x);
      forall j | 0 <= j < |tail| ensures tail[j].user != s[0].user {
        InsertMember(rest, x, tail[j]);
        if tail[j] != x {
          var k :| 0 <= k < |rest| && rest[k] == tail[j];
          assert s[k + 1] == tail[j];
        } else {
          assert s[0].user in StatsUsers(s);
        }
      }
      DistinctCons(s[0], tail);
    }
  }

  lemma {:induction false} RankDistinct(s: seq<UserStats>)
    requires DistinctUsers(s)
    ensures DistinctUsers(Rank(s))
  {
    if s != [] {
      var init, last := s[..|s| - 1], s[|s| - 1];
      assert DistinctUsers(init) by {
        forall i, j | 0 <= i < j < |init| ensures init[i].user != init[j].user {
          assert init[i] == s[i] && init[j] == s[j];
        }
      }
      RankDistinct(init);
      RankUsers(init);
      assert last.user !in StatsUsers(init) by {
        forall i | 0 <= i < |init| ensures init[i].user != last.user {
          assert init[i] == s[i];
        }
      }
      InsertDistinct(Rank(init), last);
    }
  }

  lemma InsertInFront(a: UserStats, b: UserStats)
    requires !AtLeast(a, b)
    ensures Insert([a], b) == [b, a]
  {
  }

  lemma InsertAtEnd(b: UserStats, a: UserStats, c: UserStats)
    requires AtLeast(b, c) && AtLeast(a, c)
    ensures Insert([b, a], c) == [b, a, c]
  {
    assert [b, a][1..] == [a] && [a][1..] == [];
    assert Insert([a], c) == [a] + Insert([], c) == [a, c];
    assert Insert([b, a], c) == [b] + Insert([a], c);
  }

  /** Three players at 1/2, 2/3 and 1/2 come out as 2/3, then the two at 1/2
      in their original order. */
  lemma RankExample(a: UserStats, b: UserStats, c: UserStats)
    requires a.games == 2 && a.wins == 1 && b.games == 3 && b.wins == 2
    requires c.games == 4 && c.wins == 2
    ensures Rank([a, b, c]) == [b, a, c]
  {
    assert !AtLeast(a, b) && AtLeast(b, c) && AtLeast(a, c);
    assert [a, b, c][..2] == [a, b] && [a, b][..1] == [a] && [a][..0] == [];
    assert Rank([a]) == [a];
    InsertInFront(a, b);
    InsertAtEnd(b, a, c);
  }
}
