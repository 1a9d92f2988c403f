/** The `leaderboard` command (src/lib.rs:128-266) from parsed dates and a
    channel's messages to the ranked statistics: the window, the collection
    of records from bot messages, the resolution of names to ids, the
    grouping, the statistics and the ranking. */
module Leaderboard {
  import opened Types
  import opened Identity
  import opened Window
  import opened LineParser
  import opened Aggregate
  import opened Ranking

  /** The records of one stream item: those of a bot message; none for a
      human message or a retrieval error (src/lib.rs:150-167). */
  function ItemRecords(item: Fetch): seq<Record> {
    if item.Fetched? && item.msg.bot then ParseMessage(item.msg.content) else []
  }

  /** The records of all items, in stream order (src/lib.rs:149-178). */
  function CollectRecords(items: seq<Fetch>): (r: seq<Record>)
    ensures items == [] ==> r == []
  {
    if items == [] then [] else ItemRecords(items[0]) + CollectRecords(items[1..])
  }

  lemma {:induction false} CollectRecordsAppend(a: seq<Fetch>, b: seq<Fetch>)
    ensures CollectRecords(a + b) == CollectRecords(a) + CollectRecords(b)
  {
    if a == [] {
      assert a + b == b;
    } else {
      assert (a + b)[0] == a[0] && (a + b)[1..] == a[1..] + b;
      CollectRecordsAppend(a[1..], b);
    }
  }

  lemma CollectSkip(m: Fetch, b: seq<Fetch>)
    requires !(m.Fetched? && m.msg.bot)
    ensures CollectRecords([m] + b) == CollectRecords(b)
  {
    assert ([m] + b)[0] == m && ([m] + b)[1..] == b;
  }

  /** A bot message contributes the records parsed from its content. */
  lemma CollectBot(m: Message)
    requires m.bot
    ensures CollectRecords([Fetched(m)]) == ParseMessage(m.content)
  {
    assert [Fetched(m)][1..] == [];
  }

  /** Removing a human message or a retrieval error from the stream changes
      nothing: only bot messages are read. */
  lemma CollectIgnoresOthers(a: seq<Fetch>, m: Fetch, b: seq<Fetch>)
    requires !(m.Fetched? && m.msg.bot)
    ensures CollectRecords(a + [m] + b) == CollectRecords(a + b)
  {
    assert a + [m] + b == a + ([m] + b);
    CollectRecordsAppend(a, [m] + b);
    CollectSkip(m, b);
    CollectRecordsAppend(a, b);
  }

  /** Every collected record is read from some bot message of the stream. */
  lemma {:induction false} CollectedFromBots(items: seq<Fetch>, x: Record)
    requires x in CollectRecords(items)
    ensures exists k :: (0 <= k < |items| && items[k].Fetched? && items[k].msg.bot
      && x in ParseMessage(items[k].msg.content))
  {
    if x in ItemRecords(items[0]) {
      assert items[0].Fetched? && items[0].msg.bot;
    } else {
      CollectedFromBots(items[1..], x);
      var k :| 0 <= k < |items[1..]| && items[1..][k].Fetched? && items[1..][k].msg.bot
        && x in ParseMessage(items[1..][k].msg.content);
      assert items[k + 1] == items[1..][k];
    }
  }

  /** The resolved games of the window (src/lib.rs:147-199). */
  function Games(items: seq<Fetch>, from: int, to: int, members: seq<Member>): seq<Record> {
    ResolveAll(members, CollectRecords(MessagesFromDates(items, from, to)))
  }

  /** The leaderboard: the date check, then one line of statistics per
      player of the window, best win rate first. Every game of the window
      is counted once, in the line of its player; with any guild member at
      all, every player is an id. */
  /** A bot message of the stream whose time lies in the window. */
  predicate WindowBot(it: Fetch, from: int, to: int) {
    it.Fetched? && it.msg.bot && from + Day <= it.msg.timestamp <= to + Day
  }

  /** Every game is the resolution of a record parsed from a bot message of
      the stream whose time lies in the window. */
  lemma GamesFromWindow(items: seq<Fetch>, from: int, to: int, members: seq<Member>, g: Record)
    requires g in Games(items, from, to, members)
    ensures exists it, x ::
      it in items && WindowBot(it, from, to) && x in ParseMessage(it.msg.content)
      && g == ResolveRecord(members, x)
  {
    var window := MessagesFromDates(items, from, to);
    var recs := CollectRecords(window);
    var k :| 0 <= k < |recs| && ResolveAll(members, recs)[k] == g;
    var x := recs[k];
    var m := BotOf(window, x);
    WindowSubsequence(items, from, to);
    SubsequenceMember(window, items, window[m]);
    assert WindowBot(window[m], from, to);
    assert x in ParseMessage(window[m].msg.content) && g == ResolveRecord(members, x);
  }

  /** The position of a bot message of the stream that holds `x`. */
  lemma BotOf(items: seq<Fetch>, x: Record) returns (m: int)
    requires x in CollectRecords(items)
    ensures 0 <= m < |items| && items[m].Fetched? && items[m].msg.bot
    ensures x in ParseMessage(items[m].msg.content)
  {
    CollectedFromBots(items, x);
    m :| 0 <= m < |items| && items[m].Fetched? && items[m].msg.bot
      && x in ParseMessage(items[m].msg.content);
  }

  method Leaderboard(items: seq<Fetch>, from: Option<int>, to: Option<int>, members: seq<Member>)
    returns (r: Result<seq<UserStats>, DateError>)
    ensures ParseDates(from, to).Err? ==> r == Err(ParseDates(from, to).error)
    ensures ParseDates(from, to).Ok? ==> r.Ok?
    ensures r.Ok? ==>
      var recs := Games(items, from.value, to.value, members);
      Ranked(r.value) && DistinctUsers(r.value)
      && StatsUsers(r.value) == UsersOf(recs)
      && SumGames(r.value) == |recs|
      && (forall i :: 0 <= i < |r.value| ==>
            r.value[i] == StatsOf(r.value[i].user, RecordsOf(recs, r.value[i].user)))
    ensures r.Ok? && members != [] ==> forall i :: 0 <= i < |r.value| ==> r.value[i].user.Id?
  {
    var dates := ParseDates(from, to);
    if dates.Err? {
      return Err(dates.error);
    }
    var (f, t) := dates.value;
    var window := MessagesFromDates(items, f, t);
    var games := CollectRecords(window);
    var resolved := ResolveAll(members, games);
    var groups := GroupRecords(resolved);
    var stats := ComputeStats(groups);
    GamesConserved(resolved, stats);
    var rows := Rank(stats);
    RankRanked(stats);
    RankDistinct(stats);
    RankUsers(stats);
    RankSumGames(stats);
    forall i | 0 <= i < |rows|
      ensures rows[i] == StatsOf(rows[i].user, RecordsOf(resolved, rows[i].user))
    {
      assert rows[i] in multiset(stats);
      var j :| 0 <= j < |stats| && stats[j] == rows[i];
    }
    if members != [] {
      ResolveAllIds(members, games);
      forall i | 0 <= i < |rows| ensures rows[i].user.Id? {
        assert rows[i].user in StatsUsers(rows);
        var k :| 0 <= k < |resolved| && resolved[k].user == rows[i].user;
      }
    }
    r := Ok(rows);
  }
}
