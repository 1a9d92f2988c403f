# Wordle leaderboard bot: a verified model of its core

The bot reads a chat channel's history between two dates and finds the result
tables that another bot posts there. Each table line has the form
`3/6: <@123>, Bob`: a score digit (or `X` for a failed game), the delimiter
`/6: `, then the players. The bot turns every line into score records. It
resolves player names to guild member ids, groups the records by player and
computes each player's games, wins and score total. It then ranks the players
by win rate and bounds the size of the report it sends back.

The model covers the whole of `src/lib.rs` except the I/O and what "## Left out" lists. It has
these modules:

- `Types`: the records, users, guild members and messages passed between
  stages.
- `UserIds`: the user id text format and its round trip.
- `LineParser`: `parse_line` and the `str::lines` split of a message.
- `Identity`: `determine_user` and the resolution of name records to ids.
- `Window`: the date order check of `parse_dates` and the message window of
  `get_messages_from_dates`.
- `Aggregate`: grouping (a loop updating a map), per-player statistics (a loop
  over the map's keys in an unspecified order) and conservation of games.
- `Ranking`: the stable sort by win rate.
- `Report`: the bound on the report's size, as written and as intended.
- `Leaderboard`: collection of records from bot messages, and the whole
  command from parsed dates to the ranked statistics.

Three behaviours of the code are worth noting:

- **Unknown names.** `determine_user` uses `find_or_first`
  (src/lib.rs:85). When no member answers to a name, it returns the
  *first* member, not nothing. So with a non-empty member list every record
  ends up an id record (`Identity.ResolveAllIds`). A name record survives
  only when the member list is empty.
- **Upper bound of the window.** The upper bound is inclusive: `timestamp <=
  to + 1 day` (src/lib.rs:116).
- **Score digits.** The score character is any digit `0`-`9` or `X`
  (src/lib.rs:46).

## Model

| member | source | states |
|---|---|---|
| UserIds.ParseUserId | src/lib.rs:64 | A token is an id only when it is an optional '+' followed by digits whose value is a non-zero 64-bit unsigned integer |
| UserIds.Decimal | src/lib.rs:24 | The id rendering is a non-empty digit string with no leading zero |
| UserIds.DigitsValueDecimal | src/lib.rs:24 | Reading back the decimal rendering of any number gives that number |
| UserIds.ParseUserIdDecimal | src/lib.rs:64 | Every valid id survives rendering then parsing, with or without a leading '+' |
| UserIds.Mention | src/lib.rs:22-27 | An id is shown as `<@`, then digits that read back as the id, then `>`; a name is shown as `@` followed by the name |
| LineParser.Split | src/lib.rs:59 | `split` yields at least one piece, even for an empty block (the exact count is proved in `SplitRoundTrip`) |
| LineParser.SplitRoundTrip | src/lib.rs:59 | Splitting on commas and whitespace loses nothing: no piece holds a separator, and the pieces joined by the separators rebuild the block |
| LineParser.SplitWithoutSeparator | src/lib.rs:59 | A separator-free text is one piece |
| LineParser.SplitAfterRun | src/lib.rs:59 | A separator closes the current piece and starts a new one |
| LineParser.NonEmpty | src/lib.rs:60 | Every kept piece is a non-empty piece of the split |
| LineParser.NonEmptyCounts | src/lib.rs:60 | The filter keeps every non-empty piece as often as it occurs, and no empty piece |
| LineParser.NonEmptyAppend | src/lib.rs:60 | The filter works piece by piece, so the kept pieces stay in split order |
| LineParser.Tokens | src/lib.rs:58-60 | Every token is non-empty and separator-free |
| LineParser.TrimStart | src/lib.rs:62 | Only trimmable characters are dropped from the front, and the result does not start with one |
| LineParser.TrimEnd | src/lib.rs:62 | Only trimmable characters are dropped from the back, and the result does not end with one |
| LineParser.Trim | src/lib.rs:62 | `trim_matches` keeps a contiguous piece of the token, cuts only trimmable characters off either end, and leaves clean ends |
| LineParser.ToUser | src/lib.rs:61-75 | A token gives a non-zero 64-bit id, or else a name that does not read as an id and has no trimmable character at either end |
| LineParser.TrimWrapped | src/lib.rs:62 | A clean text wrapped in trimmable characters trims back to the text |
| LineParser.ToUserIdIff | src/lib.rs:61-70 | A token gives the id `n` exactly when it is a text with clean ends that parses as `n`, wrapped in trimmable characters |
| LineParser.CoreToUserName | src/lib.rs:61-75 | A token wrapping a clean text that does not parse as an id gives a name record holding that text |
| LineParser.TrimAllTrimmed | src/lib.rs:62-74 | A token made only of trimmable characters gives a name record with the empty name, and is not dropped |
| LineParser.ToUserWord | src/lib.rs:62-74 | A clean word that does not start like an id names itself |
| LineParser.FindMatch | src/lib.rs:46-48 | The regex match is the leftmost position holding a digit or 'X' followed by "/6: ", and there is none when no position qualifies |
| LineParser.ScoreOf | src/lib.rs:49-54 | 'X' is a failed game (no score); a digit is a score from 0 to 9 |
| LineParser.UpToNewline | src/lib.rs:46 | The users capture runs to the first newline, since `.` does not match one |
| LineParser.RecordsFor | src/lib.rs:58-76 | One record per token, in order, each with the line's score and the user its token names |
| LineParser.ParseLine | src/lib.rs:44-80 | A line with no match gives no records; all records of a line share one score, which is absent or between 0 and 9 |
| LineParser.ParseLineTokens | src/lib.rs:48-76 | For a line whose leftmost match is at `i`: exactly one record per token of the users block, in order, carrying that match's score |
| LineParser.TwoTokens | src/lib.rs:58-60 | "a, b" splits into the two tokens a and b |
| LineParser.TwoTokenLine | src/lib.rs:44-80 | A score line with two tokens gives two records with that score |
| LineParser.ParseLineExample | src/lib.rs:44-80 | "3/6: <@123>, Bob" gives [(3, id 123), (3, name Bob)] |
| LineParser.ParseLineFailedExample | src/lib.rs:50-51 | "X/6: Alice" gives one failed game for the name Alice |
| LineParser.SingleTokenLine | src/lib.rs:44-80 | A score line with one separator-free token gives one record |
| LineParser.MentionIdToken | src/lib.rs:24 | An id's mention is one clean token that names that id |
| LineParser.MentionIdRoundTrip | src/lib.rs:22-27 | The report's mention of an id, after a score, parses back to that id with that score |
| LineParser.MentionTextToken | src/lib.rs:25 | The mention of a clean non-id name is one token that names that name |
| LineParser.MentionTextRoundTrip | src/lib.rs:22-27 | A name's mention, after a score, parses back to that name |
| LineParser.Lines | src/lib.rs:162 | `str::lines` yields lines without newlines |
| LineParser.StripCarriageReturn | src/lib.rs:162 | A final carriage return is dropped and nothing else changes; a line without one is unchanged |
| LineParser.SingleLine | src/lib.rs:162 | A text without a newline is one line |
| LineParser.ParseLinesAppend | src/lib.rs:162-165 | Lines are parsed independently and their records concatenated, without deduplication |
| LineParser.ParseLines | src/lib.rs:162-165 | A single line gives its own records, and every record comes from one of the lines |
| LineParser.ParseMessageFirstLine | src/lib.rs:160-165 | A message's first line, read without a final carriage return, contributes its records ahead of the records of the rest |
| LineParser.ParseMessageOneLine | src/lib.rs:160-165 | A message without a newline is parsed as one whole line, a final carriage return included |
| Identity.FindMember | src/lib.rs:85 | The search finds the first member whose name or nickname equals the text, or reports that none does |
| Identity.DetermineUser | src/lib.rs:82-87 | `find_or_first`: nothing only for an empty member list; otherwise the first matching member's id, or the first member's id when none matches |
| Identity.DetermineUserFound | src/lib.rs:82-87 | When some member answers to the name, the first such member's id |
| Identity.DetermineUserFallback | src/lib.rs:82-87 | When no member answers, the first member's id |
| Identity.DetermineUserMember | src/lib.rs:82-87 | Every answer is the id of a listed member |
| Identity.ResolveAll | src/lib.rs:188-199 | Same length, order and scores; id records unchanged; a name record becomes `Id(x)` exactly when the resolver returns `x`, and is otherwise unchanged |
| Identity.ResolveRecord | src/lib.rs:191-197 | Resolving a record keeps its score and leaves an id record alone; a name record becomes `Id(x)` exactly when the resolver returns `x`, and is otherwise unchanged |
| Identity.ResolveAllIds | src/lib.rs:188-199 | With any member at all, every resolved record is an id record |
| Identity.ResolveAllNoMembers | src/lib.rs:188-199 | With no members, resolution changes nothing |
| Identity.ResolveAllAppend | src/lib.rs:188-199 | Resolution distributes over concatenation |
| Identity.DetermineUserExample | src/lib.rs:82-87 | A member 5 named "Bob" resolves "Bob" to 5 |
| Identity.DetermineUserUnknownExample | src/lib.rs:82-87 | The same list resolves an unknown "Zara" to 5 |
| Window.ParseDates | src/lib.rs:89-102 | The dates are accepted exactly when both parsed and `from` is strictly before `to`; otherwise the error is, in this order, an unparsable `from`, an unparsable `to`, or `from` not prior to `to` with both dates |
| Window.ParseDatesInverted | src/lib.rs:97-99 | A range from today to yesterday is refused |
| Window.KeepUpTo | src/lib.rs:114-118 | The filter keeps no message later than the upper bound |
| Window.KeepUpToCounts | src/lib.rs:114-118 | Every retrieval error and every message at or before the upper bound is kept, as often as it occurs, and nothing else |
| Window.KeepUpToSubsequence | src/lib.rs:114-118 | The kept items stay in stream order |
| Window.TakeFrom | src/lib.rs:119-122 | Take-while keeps the longest prefix with no message before the lower bound; what stops it is such a message |
| Window.MessagesFromDates | src/lib.rs:104-125 | Every message of the window lies between `from` + 1 day and `to` + 1 day, both inclusive |
| Window.WindowSubsequence | src/lib.rs:104-125 | The window is a subsequence of the stream: nothing is added or reordered |
| Window.WindowIsRangeFilter | src/lib.rs:104-125 | On a newest-first stream the window's messages are exactly the stream's messages in the date range |
| Window.WindowExample | src/lib.rs:104-125 | Messages at days 5, 4 and 1 with the range day 2 to day 4 keep days 5 and 4 (the one-day shift and the inclusive bound) |
| Aggregate.RecordsOf | src/lib.rs:204-205 | A group holds only its user's records, and no more records than there are |
| Aggregate.RecordsOfCounts | src/lib.rs:202-206 | A group holds every record of its user as often as it occurs, and no other |
| Aggregate.RecordsOfAppend | src/lib.rs:202-206 | The group of a concatenation is the concatenation of the groups, so records keep their original order |
| Aggregate.GroupRecords | src/lib.rs:202-206 | The groups' keys are the distinct users of the records, and each group is exactly its user's records in order |
| Aggregate.GroupNonEmpty | src/lib.rs:202-220 | Every group holds at least one game, so the zero-games win rate branch is never taken |
| Aggregate.RecordsOfMembers | src/lib.rs:202-206 | A record lies in the group of `u` exactly when it is a record whose user is `u`, so each record lies in exactly one group |
| Aggregate.Wins | src/lib.rs:212-213 | Wins count the records with a score: no more than the games, and zero exactly when every game failed |
| Aggregate.StatsOf | src/lib.rs:210-228 | A player's line has its group's size as games and at most that many wins |
| Aggregate.Total | src/lib.rs:213 | The score total is zero when no game has a score, and lies between 0 and 9 per win when every score is one digit |
| Aggregate.TotalAppend | src/lib.rs:213 | The total of a concatenation is the sum of the totals |
| Aggregate.StatsExample | src/lib.rs:210-228 | Scores 3, 5 and a failure give 3 games, 2 wins and a score total of 8 |
| Aggregate.ComputeStats | src/lib.rs:208-230 | One line per group, in any order: the lines' users are exactly the groups' keys, all distinct, and each line holds its group's statistics |
| Aggregate.StatsIndependentOfOrder | src/lib.rs:208-230 | Any two visiting orders of the groups produce the same lines |
| Aggregate.GamesConserved | src/lib.rs:202-230 | The games of all lines add up to the number of records: no game is lost or counted twice |
| Ranking.AtLeastTotal | src/lib.rs:234 | Any two win rates compare |
| Ranking.AtLeastTransitive | src/lib.rs:234 | The win-rate comparison is transitive |
| Ranking.Insert | src/lib.rs:234 | Insertion adds exactly the new line |
| Ranking.InsertRanked | src/lib.rs:234 | Insertion into a best-first list keeps it best first |
| Ranking.Rank | src/lib.rs:232-234 | The sort is a permutation of the lines |
| Ranking.RankRanked | src/lib.rs:232-234 | The sorted lines are in non-increasing win rate order |
| Ranking.RankSumGames | src/lib.rs:232-234 | Sorting loses and adds no game |
| Ranking.RankUsers | src/lib.rs:232-234 | Sorting keeps the same set of players |
| Ranking.RankDistinct | src/lib.rs:232-234 | Sorting keeps one line per player |
| Ranking.RankExample | src/lib.rs:232-234 | Win rates 1/2, 2/3 and 1/2 sort as 2/3, then the two halves in their original order |
| Report.BoundOutputAsWritten | src/lib.rs:256-259 | A report of at most 1950 bytes is unchanged; a longer one cut on a character boundary becomes its first 1950 bytes plus the marker; a longer one cut inside a character panics |
| Report.PanicExample | src/lib.rs:256-259 | A 1951-byte report ending in "é" makes the bound panic |
| Report.BoundOutput | src/lib.rs:256-259 | A longer report is cut at the last character boundary at or before byte 1950 and marked, so it is never more than 1966 bytes; it agrees with the code wherever the code does not panic |
| Leaderboard.CollectRecords | src/lib.rs:149-178 | An empty stream gives no records |
| Leaderboard.CollectRecordsAppend | src/lib.rs:149-178 | The records of a stream are those of its parts, in order |
| Leaderboard.CollectBot | src/lib.rs:150-168 | A bot message contributes exactly the records parsed from its content |
| Leaderboard.CollectIgnoresOthers | src/lib.rs:151-158 | Human messages and retrieval errors contribute nothing |
| Leaderboard.CollectedFromBots | src/lib.rs:155-167 | Every collected record comes from the parse of some bot message of the stream |
| Leaderboard.GamesFromWindow | src/lib.rs:147-199 | Every game is the resolution of a record parsed from a bot message of the stream whose time lies in the window |
| Leaderboard.Leaderboard | src/lib.rs:128-234 | The date errors pass through. Otherwise the lines are best first, one per player of the window's resolved games, and each line holds that player's statistics. The games add up to the window's records, and with any guild member every player is an id |

## Left out

- Date text parsing (`chrono_english::parse_date_string` relative to `now`) and the defaults "sunday" and "today" are left out. `Window.ParseDates` takes the two dates already parsed, as seconds since the epoch, with `None` for a text the parser rejected.
- `checked_add_days(Days::new(1))` is modelled as adding 86400 seconds. Its `unwrap` panic at the end of the calendar range is not modelled.
- Async streams, the channel and guild member fetches, `ctx.send`, `ctx.defer`, `dbg!` and the allowed-mentions setting are left out. They are I/O: the message stream is a parameter (`seq<Fetch>`) and so is the member list.
- The "Must be run in a server" error for a missing guild is left out. It depends only on the invocation context.
- The floating-point win rate and average are left out. The model keeps the exact integers they come from (games, wins, score total). The sort compares win rates exactly as fractions, and an average with no wins (NaN in the code) is not represented.
- Report formatting (`format!` of rows, percentages and dates) is left out. So is the `Mention` function's use in the row text. Its parse-back is proved instead (`LineParser.MentionIdRoundTrip`, `LineParser.MentionTextRoundTrip`).
- The `as i32` casts of games and wins, and the i32 score sum, are left out. Integers are unbounded in the model; scores are single digits, so the sum cannot overflow at any realistic size.
- UserIds.ParseUserId: the id parser of the chat library is not part of this model. It is modelled as the `NonZeroU64` string parse that library delegates to.
- Hash-map iteration order is not modelled. `Aggregate.ComputeStats` picks any unvisited key at each step, and `Aggregate.StatsIndependentOfOrder` shows the resulting lines do not depend on that choice. Only the order of ties in the ranking depends on it.
- Ranking.Rank: stability is built into the definition (a tie goes after the lines already placed), and `Ranking.RankExample` shows it on one input. No general stability lemma is proved.
- Report.BoundOutput and Report.BoundOutputAsWritten work on the report's UTF-8 bytes. Well-formedness of the rest of the text is not modelled.

## Findings

| source | as written | input that shows it | evidently intended | confidence | as-written member | corrected member |
|---|---|---|---|---|---|---|
| src/lib.rs:256-259 | `output.truncate(1950)` panics when byte 1950 is inside a multi-byte character, and the report holds such characters (the trophy, the dash in every row, any non-ASCII player name) | a report of 1951 bytes whose last character "é" (0xC3 0xA9) occupies bytes 1949-1950 | cut at the last character boundary at or before byte 1950, then append the marker, so the report is always sent | high; not executed | Report.PanicExample | Report.BoundOutput |
