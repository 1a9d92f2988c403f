/** The identity resolver `determine_user` (src/lib.rs:82-87) and the
    resolution step of `leaderboard` that upgrades name records to id records
    (src/lib.rs:188-199). */
module Identity {
  import opened Types

  /** A member answers to a name when the name is its user name or its
      nickname. */
  predicate Answers(m: Member, name: string) {
    m.name == name || m.nick == Some(name)
  }

  /** The position of the first member that answers to `name`, if any
      (`Iterator::find`). */
  function FindMember(members: seq<Member>, name: string): (r: Option<nat>)
    ensures r.None? ==> forall k :: 0 <= k < |members| ==> !Answers(members[k], name)
    ensures r.Some? ==> r.value < |members| && Answers(members[r.value], name)
    ensures r.Some? ==> forall k :: 0 <= k < r.value ==> !Answers(members[k], name)
  {
    if members == [] then None
    else if Answers(members[0], name) then Some(0)
    else match FindMember(members[1..], name)
      case None => None
      case Some(k) => Some(k + 1)
  }

  /** `find_or_first`: the first member that answers to the name and, when
      none does, the first member of all; nothing only for an empty list. */
  function DetermineUser(members: seq<Member>, name: string): (r: Option<nat>)
    ensures r.None? <==> members == []
    ensures FindMember(members, name).Some? ==> r == Some(members[FindMember(members, name).value].id)
    ensures FindMember(members, name).None? && members != [] ==> r == Some(members[0].id)
  {
    if members == [] then None
    else if Answers(members[0], name) then Some(members[0].id)
    else match FindMember(members[1..], name)
      case Some(k) => Some(members[k + 1].id)
      case None => Some(members[0].id)
  }

  /** When some member answers to the name, the first such member's id. */
  lemma DetermineUserFound(members: seq<Member>, name: string, k: nat)
    requires k < |members| && Answers(members[k], name)
    requires forall j :: 0 <= j < k ==> !Answers(members[j], name)
    ensures DetermineUser(members, name) == Some(members[k].id)
  {
    var f := FindMember(members, name);
    assert f.Some? by { assert Answers(members[k], name); }
  }

  /** When no member answers to the name, the first member's id: an unknown
      name is attributed to whoever is listed first. */
  lemma DetermineUserFallback(members: seq<Member>, name: string)
    requires members != []
    requires forall k :: 0 <= k < |members| ==> !Answers(members[k], name)
    ensures DetermineUser(members, name) == Some(members[0].id)
  {
  }

  /** Every answer is the id of some listed member. */
  lemma DetermineUserMember(members: seq<Member>, name: string)
    ensures DetermineUser(members, name).Some? ==>
      exists k :: 0 <= k < |members| && members[k].id == DetermineUser(members, name).value
  {
    if members != [] {
      var r := DetermineUser(members, name);
      if !Answers(members[0], name) {
        var f := FindMember(members[1..], name);
        if f.Some? {
          assert members[1..][f.value] == members[f.value + 1];
          assert members[f.value + 1].id == r.value;
        } else {
          assert members[0].id == r.value;
        }
      } else {
        assert members[0].id == r.value;
      }
    }
  }

  /** Resolution of one record: a name record becomes an id record when the
      resolver returns an id; id records are left alone (src/lib.rs:191-197). */
  function ResolveRecord(members: seq<Member>, rec: Record): (r: Record)
    ensures r.score == rec.score
    ensures rec.user.Id? ==> r == rec
    ensures rec.user.Text? ==>
      (r.user.Id? <==> DetermineUser(members, rec.user.name).Some?)
      && (r.user.Id? ==> DetermineUser(members, rec.user.name) == Some(r.user.id))
      && (r.user.Text? ==> r == rec)
  {
    match rec.user
    case Id(_) => rec
    case Text(name) =>
      match DetermineUser(members, name)
      case Some(id) => rec.(user := Id(id))
      case None => rec
  }

  /** Resolution of all records (src/lib.rs:188-199): same length, same
      order, same scores; id records unchanged; a name record becomes `Id(x)`
      exactly when the resolver returns `x` for its name. */
  function ResolveAll(members: seq<Member>, recs: seq<Record>): (r: seq<Record>)
    ensures |r| == |recs|
    ensures forall k :: 0 <= k < |r| ==> r[k].score == recs[k].score
    ensures forall k :: 0 <= k < |r| && recs[k].user.Id? ==> r[k] == recs[k]
    ensures forall k :: 0 <= k < |r| && recs[k].user.Text? ==>
      (r[k].user.Id? <==> DetermineUser(members, recs[k].user.name).Some?)
      && (r[k].user.Id? ==> DetermineUser(members, recs[k].user.name) == Some(r[k].user.id))
      && (r[k].user.Text? ==> r[k] == recs[k])
  {
    seq(|recs|, k requires 0 <= k < |recs| => ResolveRecord(members, recs[k]))
  }

  /** With any member at all, every record ends up an id record: the
      fallback of `find_or_first` leaves no name unresolved. */
  lemma ResolveAllIds(members: seq<Member>, recs: seq<Record>)
    requires members != []
    ensures forall k :: 0 <= k < |recs| ==> ResolveAll(members, recs)[k].user.Id?
  {
  }

  /** With no members, resolution changes nothing. */
  lemma ResolveAllNoMembers(recs: seq<Record>)
    ensures ResolveAll([], recs) == recs
  {
  }

  /** Resolution works record by record, so it distributes over concatenation. */
  lemma ResolveAllAppend(members: seq<Member>, a: seq<Record>, b: seq<Record>)
    ensures ResolveAll(members, a + b) == ResolveAll(members, a) + ResolveAll(members, b)
  {
  }

  /** The worked example: a member 5 called "Bob" resolves "Bob" to 5. */
  lemma DetermineUserExample(members: seq<Member>)
    requires members == [Member(5, "Bob", None)]
    ensures DetermineUser(members, "Bob") == Some(5)
  {
  }

  /** An unknown name with the same member list also resolves to 5: the
      code returns the first member rather than nothing. */
  lemma DetermineUserUnknownExample(members: seq<Member>)
    requires members == [Member(5, "Bob", None)]
    ensures DetermineUser(members, "Zara") == Some(5)
  {
  }
}
