/** The values the leaderboard pipeline passes between its stages (src/lib.rs). */
module Types {

  datatype Option<+T> = None | Some(value: T)

  datatype Result<+T, +E> = Ok(value: T) | Err(error: E)

  /** A player reference: a platform user id, or the raw name text when the
      token did not parse as an id (enum `User`). Equality is by variant and
      payload, so `Id(5)` and `Text("5")` are different keys. */
  datatype User = Id(id: nat) | Text(name: string)

  /** One parsed result (struct `LeaderboardMessageData`): `None` is a failed
      game (an 'X'), `Some(d)` the digit read from the line. */
  datatype Record = Record(score: Option<int>, user: User)

  /** A guild member as the resolver sees it: its id, its user name and its
      optional server nickname. */
  datatype Member = Member(id: nat, name: string, nick: Option<string>)

  /** A channel message: whether a bot wrote it, its text and its timestamp
      in seconds since the epoch. */
  datatype Message = Message(bot: bool, content: string, timestamp: int)

  /** One item of the message stream: a message, or a retrieval error. */
  datatype Fetch = Fetched(msg: Message) | FetchFailed
}
