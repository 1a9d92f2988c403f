/** The line parser `parse_line` (src/lib.rs:44-80) and the splitting of a
    message into lines that feeds it (src/lib.rs:160-165).

    The pattern `(?P<val>[0-9X])/6: (?P<users>.*)` is modelled as an explicit
    leftmost scan: the first position holding a digit or 'X' followed by the
    four characters "/6: ". The users block is the rest of the text up to the
    first newline, since `.` does not match '\n'. */
module LineParser {
  import opened Types
  import opened UserIds

  // ---------------------------------------------------------------------
  // Characters

  /** Rust's `char::is_whitespace`: the Unicode White_Space property. */
  predicate IsWhitespace(c: char) {
    ('\t' <= c <= '\r') || c == ' ' || c == '\U{0085}' || c == '\U{00A0}'
    || c == '\U{1680}' || ('\U{2000}' <= c <= '\U{200A}') || c == '\U{2028}'
    || c == '\U{2029}' || c == '\U{202F}' || c == '\U{205F}' || c == '\U{3000}'
  }

  /** The users block is split on commas and on whitespace (src/lib.rs:59). */
  predicate IsSeparator(c: char) { c == ',' || IsWhitespace(c) }

  /** The characters trimmed from both ends of each token (src/lib.rs:62). */
  predicate IsTrimmed(c: char) {
    c == '<' || c == '>' || c == '@' || c == '!' || c == ',' || c == '*' || c == '"'
  }

  // ---------------------------------------------------------------------
  // Splitting the users block

  /** `str::split` on separators: one piece more than there are separators,
      empty pieces included. */
  function Split(s: string): (pieces: seq<string>)
    ensures |pieces| >= 1
  {
    if s == [] then [""]
    else if IsSeparator(s[0]) then [""] + Split(s[1..])
    else var rest := Split(s[1..]); [[s[0]] + rest[0]] + rest[1..]
  }

  /** The separators of `s`, in order. */
  function Separators(s: string): string {
    if s == [] then []
    else (if IsSeparator(s[0]) then [s[0]] else []) + Separators(s[1..])
  }

  /** Puts the pieces back together with the separators between them. */
  function Interleave(pieces: seq<string>, seps: string): string
    requires |pieces| == |seps| + 1
  {
    if seps == [] then pieces[0]
    else pieces[0] + [seps[0]] + Interleave(pieces[1..], seps[1..])
  }

  predicate NoSeparator(s: string) { forall k :: 0 <= k < |s| ==> !IsSeparator(s[k]) }

  lemma {:induction false} SplitClean(s: string)
    ensures forall k :: 0 <= k < |Split(s)| ==> NoSeparator(Split(s)[k])
  {
    if s != [] {
      SplitClean(s[1..]);
      var rest, pieces := Split(s[1..]), Split(s);
      if IsSeparator(s[0]) {
        forall k | 0 <= k < |pieces| ensures NoSeparator(pieces[k]) {
          if k > 0 { assert pieces[k] == rest[k - 1]; }
        }
      } else {
        forall k | 0 <= k < |pieces| ensures NoSeparator(pieces[k]) {
          if k == 0 {
            assert NoSeparator(rest[0]);
            assert forall j :: 1 <= j < |pieces[0]| ==> pieces[0][j] == rest[0][j - 1];
          } else {
            assert pieces[k] == rest[k];
          }
        }
      }
    }
  }

  lemma JoinAfterSeparator(s: string)
    requires s != [] && IsSeparator(s[0])
    requires |Split(s[1..])| == |Separators(s[1..])| + 1
    requires Interleave(Split(s[1..]), Separators(s[1..])) == s[1..]
    ensures |Split(s)| == |Separators(s)| + 1
    ensures Interleave(Split(s), Separators(s)) == s
  {
    var rest, seps, pieces := Split(s[1..]), Separators(s[1..]), Split(s);
    assert pieces[0] == "" && pieces[1..] == rest && Separators(s) == [s[0]] + seps;
    assert Interleave(pieces, Separators(s)) == "" + [s[0]] + Interleave(rest, seps);
    assert s == [s[0]] + s[1..];
  }

  /** Prefixing the first piece prefixes the joined text. */
  lemma InterleavePrefix(h: string, pieces: seq<string>, seps: string)
    requires |pieces| == |seps| + 1
    ensures Interleave([h + pieces[0]] + pieces[1..], seps) == h + Interleave(pieces, seps)
  {
    var p := [h + pieces[0]] + pieces[1..];
    assert p[0] == h + pieces[0] && p[1..] == pieces[1..];
    if seps != [] {
      assert Interleave(p, seps) == (h + pieces[0]) + [seps[0]] + Interleave(pieces[1..], seps[1..]);
      assert Interleave(pieces, seps) == pieces[0] + [seps[0]] + Interleave(pieces[1..], seps[1..]);
    }
  }

  lemma JoinAfterOther(s: string)
    requires s != [] && !IsSeparator(s[0])
    requires |Split(s[1..])| == |Separators(s[1..])| + 1
    requires Interleave(Split(s[1..]), Separators(s[1..])) == s[1..]
    ensures |Split(s)| == |Separators(s)| + 1
    ensures Interleave(Split(s), Separators(s)) == s
  {
    var rest, seps := Split(s[1..]), Separators(s[1..]);
    assert Split(s) == [[s[0]] + rest[0]] + rest[1..] && Separators(s) == seps;
    InterleavePrefix([s[0]], rest, seps);
    assert s == [s[0]] + s[1..];
  }

  lemma {:induction false} SplitJoin(s: string)
    ensures |Split(s)| == |Separators(s)| + 1
    ensures Interleave(Split(s), Separators(s)) == s
  {
    if s != [] {
      SplitJoin(s[1..]);
      if IsSeparator(s[0]) {
        JoinAfterSeparator(s);
      } else {
        JoinAfterOther(s);
      }
    }
  }

  /** Splitting loses nothing: no piece holds a separator, and the pieces
      joined by the separators that cut them give back the text. */
  lemma SplitRoundTrip(s: string)
    ensures |Split(s)| == |Separators(s)| + 1
    ensures forall k :: 0 <= k < |Split(s)| ==> NoSeparator(Split(s)[k])
    ensures Interleave(Split(s), Separators(s)) == s
  {
    SplitClean(s);
    SplitJoin(s);
  }

  /** A text without separators is one piece. */
  lemma {:induction false} SplitWithoutSeparator(s: string)
    requires NoSeparator(s)
    ensures Split(s) == [s]
  {
    if s != [] {
      assert NoSeparator(s[1..]) by {
        forall k | 0 <= k < |s[1..]| ensures !IsSeparator(s[1..][k]) { assert s[1..][k] == s[k + 1]; }
      }
      SplitWithoutSeparator(s[1..]);
      assert s == [s[0]] + s[1..];
    }
  }

  /** A separator-free run followed by a separator is one piece, and the
      splitting starts afresh after the separator. */
  lemma {:induction false} SplitAfterRun(run: string, c: char, rest: string)
    requires NoSeparator(run) && IsSeparator(c)
    ensures Split(run + [c] + rest) == [run] + Split(rest)
  {
    var s := run + [c] + rest;
    if run == [] {
      assert s == [c] + rest;
      assert s[1..] == rest;
    } else {
      assert NoSeparator(run[1..]) by {
        forall k | 0 <= k < |run[1..]| ensures !IsSeparator(run[1..][k]) { assert run[1..][k] == run[k + 1]; }
      }
      SplitAfterRun(run[1..], c, rest);
      assert s[1..] == run[1..] + [c] + rest;
      assert s[0] == run[0];
      assert [run[0]] + run[1..] == run;
    }
  }

  /** `.filter(|s| !s.is_empty())`: drop the empty pieces, keep the order. */
  function NonEmpty(pieces: seq<string>): (r: seq<string>)
    ensures |r| <= |pieces|
    ensures forall k :: 0 <= k < |r| ==> r[k] != [] && r[k] in pieces
  {
    if pieces == [] then []
    else (if pieces[0] == [] then [] else [pieces[0]]) + NonEmpty(pieces[1..])
  }

  /** Every non-empty piece is kept, as often as it occurs, and no empty one. */
  lemma {:induction false} NonEmptyCounts(pieces: seq<string>, p: string)
    ensures multiset(NonEmpty(pieces))[p] == if p == [] then 0 else multiset(pieces)[p]
  {
    if pieces != [] {
      NonEmptyCounts(pieces[1..], p);
      assert pieces == [pieces[0]] + pieces[1..];
    }
  }

  /** The filter works piece by piece, so the kept pieces stay in order. */
  lemma {:induction false} NonEmptyAppend(a: seq<string>, b: seq<string>)
    ensures NonEmpty(a + b) == NonEmpty(a) + NonEmpty(b)
  {
    if a == [] {
      assert a + b == b;
    } else {
      assert (a + b)[0] == a[0] && (a + b)[1..] == a[1..] + b;
      NonEmptyAppend(a[1..], b);
    }
  }

  /** The tokens of a users block: its non-empty separator-free pieces. */
  function Tokens(s: string): (r: seq<string>)
    ensures forall k :: 0 <= k < |r| ==> r[k] != [] && NoSeparator(r[k])
  {
    SplitRoundTrip(s);
    NonEmpty(Split(s))
  }

  // ---------------------------------------------------------------------
  // Cleaning a token

  /** Drops leading trimmed characters: the result is the longest suffix that
      does not start with one, and everything dropped was trimmable. */
  function TrimStart(s: string): (r: string)
    ensures |r| <= |s| && r == s[|s| - |r|..]
    ensures forall k :: 0 <= k < |s| - |r| ==> IsTrimmed(s[k])
    ensures r != [] ==> !IsTrimmed(r[0])
  {
    if s != [] && IsTrimmed(s[0]) then TrimStart(s[1..]) else s
  }

  /** Drops trailing trimmed characters, symmetrically. */
  function TrimEnd(s: string): (r: string)
    ensures |r| <= |s| && r == s[..|r|]
    ensures forall k :: |r| <= k < |s| ==> IsTrimmed(s[k])
    ensures r != [] ==> !IsTrimmed(r[|r| - 1])
  {
    if s != [] && IsTrimmed(s[|s| - 1]) then TrimEnd(s[..|s| - 1]) else s
  }

  /** `trim_matches`: a contiguous piece of the token, every character cut off
      either end is trimmable, and neither end of the result is. */
  function Trim(s: string): (r: string)
    ensures exists i, j :: (0 <= i <= j <= |s| && r == s[i..j]
      && (forall k :: 0 <= k < i ==> IsTrimmed(s[k]))
      && (forall k :: j <= k < |s| ==> IsTrimmed(s[k])))
    ensures r != [] ==> !IsTrimmed(r[0]) && !IsTrimmed(r[|r| - 1])
  {
    var t := TrimStart(s);
    var r := TrimEnd(t);
    var i := |s| - |t|;
    assert r == s[i..i + |r|];
    r
  }

  predicate AllTrimmed(s: string) { forall k :: 0 <= k < |s| ==> IsTrimmed(s[k]) }

  /** Trimmable characters in front of a text that starts cleanly are dropped. */
  lemma {:induction false} TrimStartPrefix(pre: string, x: string)
    requires AllTrimmed(pre) && (x == [] || !IsTrimmed(x[0]))
    ensures TrimStart(pre + x) == x
  {
    if pre != [] {
      assert (pre + x)[1..] == pre[1..] + x;
      assert AllTrimmed(pre[1..]) by {
        forall k | 0 <= k < |pre[1..]| ensures IsTrimmed(pre[1..][k]) { assert pre[1..][k] == pre[k + 1]; }
      }
      TrimStartPrefix(pre[1..], x);
    } else {
      assert pre + x == x;
    }
  }

  /** Trimmable characters after a text that ends cleanly are dropped. */
  lemma {:induction false} TrimEndSuffix(x: string, post: string)
    requires AllTrimmed(post) && (x == [] || !IsTrimmed(x[|x| - 1]))
    ensures TrimEnd(x + post) == x
  {
    if post != [] {
      var p := post[..|post| - 1];
      assert (x + post)[..|x + post| - 1] == x + p;
      assert AllTrimmed(p) by {
        forall k | 0 <= k < |p| ensures IsTrimmed(p[k]) { assert p[k] == post[k]; }
      }
      TrimEndSuffix(x, p);
    } else {
      assert x + post == x;
    }
  }

  /** Trimming a clean text wrapped in trimmable characters gives the text. */
  lemma TrimWrapped(pre: string, mid: string, post: string)
    requires AllTrimmed(pre) && AllTrimmed(post)
    requires mid != [] && !IsTrimmed(mid[0]) && !IsTrimmed(mid[|mid| - 1])
    ensures Trim(pre + mid + post) == mid
  {
    assert pre + mid + post == pre + (mid + post);
    TrimStartPrefix(pre, mid + post);
    TrimEndSuffix(mid, post);
  }

  /** The user a token names (src/lib.rs:62-74): a valid id, or else a name
      with clean ends that does not read as an id. */
  function ToUser(token: string): (u: User)
    ensures u.Id? ==> 0 < u.id < U64Limit
    ensures u.Text? ==> ParseUserId(u.name).None?
    ensures u.Text? && u.name != [] ==> !IsTrimmed(u.name[0]) && !IsTrimmed(u.name[|u.name| - 1])
  {
    var clean := Trim(token);
    match ParseUserId(clean)
    case Some(id) => Id(id)
    case None => Text(clean)
  }

  // ---------------------------------------------------------------------
  // Finding the score

  const Delimiter: string := "/6: "

  predicate IsValueChar(c: char) { IsDigit(c) || c == 'X' }

  /** The pattern matches with its value character at position `i`. */
  predicate MatchesAt(line: string, i: nat) {
    i + 5 <= |line| && IsValueChar(line[i]) && line[i + 1..i + 5] == Delimiter
  }

  /** The leftmost match at or after `from`, if any. */
  function FindMatch(line: string, from: nat): (r: Option<nat>)
    ensures r.None? ==> forall i: nat :: from <= i ==> !MatchesAt(line, i)
    ensures r.Some? ==> from <= r.value && MatchesAt(line, r.value)
    ensures r.Some? ==> forall i: nat :: from <= i < r.value ==> !MatchesAt(line, i)
    decreases |line| - from
  {
    if from + 5 > |line| then None
    else if MatchesAt(line, from) then Some(from)
    else FindMatch(line, from + 1)
  }

  /** 'X' is a failed game; a digit is its own value (src/lib.rs:49-54). */
  function ScoreOf(c: char): (r: Option<int>)
    requires IsValueChar(c)
    ensures r.None? <==> c == 'X'
    ensures r.Some? ==> 0 <= r.value <= 9
  {
    if c == 'X' then None else Some(DigitValue(c))
  }

  /** The text up to the first newline. */
  function UpToNewline(s: string): (r: string)
    ensures |r| <= |s| && r == s[..|r|]
    ensures '\n' !in r
    ensures |r| < |s| ==> s[|r|] == '\n'
  {
    if s == [] || s[0] == '\n' then [] else [s[0]] + UpToNewline(s[1..])
  }

  /** The users block of a match whose value character sits at `i`. */
  function UsersBlock(line: string, i: nat): string
    requires MatchesAt(line, i)
  {
    UpToNewline(line[i + 5..])
  }

  // ---------------------------------------------------------------------
  // parse_line

  /** One record per token, each with the given score and the user the token
      names (the `filter_map` of src/lib.rs:61-75, which keeps every token). */
  function RecordsFor(score: Option<int>, tokens: seq<string>): (r: seq<Record>)
    ensures |r| == |tokens|
    ensures forall k :: 0 <= k < |r| ==> r[k].score == score && r[k].user == ToUser(tokens[k])
  {
    if tokens == [] then [] else [Record(score, ToUser(tokens[0]))] + RecordsFor(score, tokens[1..])
  }

  /** One record per token of the users block of the leftmost match, all
      with that match's score; no match gives no records. */
  function ParseLine(line: string): (r: seq<Record>)
    ensures (forall i: nat :: !MatchesAt(line, i)) ==> r == []
    ensures forall k :: 0 <= k < |r| ==> r[k].score == r[0].score
    ensures forall k :: 0 <= k < |r| ==> r[k].score.Some? ==> 0 <= r[k].score.value <= 9
  {
    match FindMatch(line, 0)
    case None => []
    case Some(i) =>
      RecordsFor(ScoreOf(line[i]), Tokens(UsersBlock(line, i)))
  }

  /** For a line with a match: exactly one record per token of the text after
      the leftmost match, in token order, each carrying the matched score. */
  lemma ParseLineTokens(line: string, i: nat)
    requires MatchesAt(line, i)
    requires forall j: nat :: j < i ==> !MatchesAt(line, j)
    ensures var tokens := Tokens(UsersBlock(line, i));
      |ParseLine(line)| == |tokens|
      && forall k :: 0 <= k < |tokens| ==>
           ParseLine(line)[k] == Record(ScoreOf(line[i]), ToUser(tokens[k]))
  {
    assert FindMatch(line, 0) == Some(i);
  }

  /** The text from `i` to `j` is the token with trimmable characters cut off
      both ends, leaving a non-empty text with clean ends. */
  predicate CleanCore(token: string, i: int, j: int) {
    0 <= i < j <= |token|
    && (forall k :: 0 <= k < i ==> IsTrimmed(token[k]))
    && (forall k :: j <= k < |token| ==> IsTrimmed(token[k]))
    && !IsTrimmed(token[i]) && !IsTrimmed(token[j - 1])
  }

  lemma ToUserIdCore(token: string, n: nat)
    requires ToUser(token) == Id(n)
    ensures exists i, j :: CleanCore(token, i, j) && ParseUserId(token[i..j]) == Some(n)
  {
    assert ParseUserId(Trim(token)) == Some(n);
    var i, j := TrimCore(token);
  }

  /** A non-empty trim is a clean core of the token. */
  lemma TrimCore(token: string) returns (i: int, j: int)
    requires Trim(token) != []
    ensures CleanCore(token, i, j) && token[i..j] == Trim(token)
  {
    var t := Trim(token);
    i, j :| 0 <= i <= j <= |token| && t == token[i..j]
      && (forall k :: 0 <= k < i ==> IsTrimmed(token[k]))
      && (forall k :: j <= k < |token| ==> IsTrimmed(token[k]));
    SliceCore(token, t, i, j);
  }

  /** A non-empty slice with clean ends, cut out of trimmable characters, is
      a clean core. */
  lemma SliceCore(token: string, t: string, i: int, j: int)
    requires 0 <= i <= j <= |token| && t == token[i..j] && t != []
    requires forall k :: 0 <= k < i ==> IsTrimmed(token[k])
    requires forall k :: j <= k < |token| ==> IsTrimmed(token[k])
    requires !IsTrimmed(t[0]) && !IsTrimmed(t[|t| - 1])
    ensures CleanCore(token, i, j)
  {
    assert t[0] == token[i] && t[|t| - 1] == token[j - 1];
  }

  /** A clean core splits the token into trimmable characters, the core and
      trimmable characters. */
  lemma CoreParts(token: string, i: nat, j: nat)
    requires CleanCore(token, i, j)
    ensures var mid := token[i..j];
      token == token[..i] + mid + token[j..]
      && AllTrimmed(token[..i]) && AllTrimmed(token[j..])
      && !IsTrimmed(mid[0]) && !IsTrimmed(mid[|mid| - 1])
  {
    var pre, mid, post := token[..i], token[i..j], token[j..];
    assert token == pre + mid + post;
    assert mid[0] == token[i] && mid[|mid| - 1] == token[j - 1];
    forall k | 0 <= k < |pre| ensures IsTrimmed(pre[k]) { assert pre[k] == token[k]; }
    forall k | 0 <= k < |post| ensures IsTrimmed(post[k]) { assert post[k] == token[j + k]; }
  }

  lemma CoreToUserId(token: string, n: nat, i: nat, j: nat)
    requires CleanCore(token, i, j) && ParseUserId(token[i..j]) == Some(n)
    ensures ToUser(token) == Id(n)
  {
    CoreParts(token, i, j);
    TrimWrapped(token[..i], token[i..j], token[j..]);
  }

  /** A token names the id `n` exactly when it is a clean text that parses as
      `n`, wrapped in trimmable characters. */
  lemma ToUserIdIff(token: string, n: nat)
    ensures ToUser(token) == Id(n) <==>
      exists i, j :: CleanCore(token, i, j) && ParseUserId(token[i..j]) == Some(n)
  {
    if ToUser(token) == Id(n) {
      ToUserIdCore(token, n);
    }
    if exists i, j :: CleanCore(token, i, j) && ParseUserId(token[i..j]) == Some(n) {
      var i, j :| CleanCore(token, i, j) && ParseUserId(token[i..j]) == Some(n);
      CoreToUserId(token, n, i, j);
    }
  }

  /** A token wrapping a clean text that is not an id names that text. */
  lemma CoreToUserName(token: string, i: nat, j: nat)
    requires CleanCore(token, i, j) && ParseUserId(token[i..j]).None?
    ensures ToUser(token) == Text(token[i..j])
  {
    CoreParts(token, i, j);
    TrimWrapped(token[..i], token[i..j], token[j..]);
  }

  /** A token made only of trimmable characters cleans to the empty name. */
  lemma {:induction false} TrimAllTrimmed(token: string)
    requires AllTrimmed(token)
    ensures ToUser(token) == Text("")
  {
    assert token + "" == token;
    TrimStartPrefix(token, "");
  }

  // ---------------------------------------------------------------------
  // Worked examples (src/lib.rs:44-80)

  /** A text without a newline is its own users block. */
  lemma UpToNewlineWhole(s: string)
    requires '\n' !in s
    ensures UpToNewline(s) == s
  {
  }

  /** A clean token that is not an id names itself. */
  lemma ToUserName(name: string)
    requires name != [] && !IsTrimmed(name[0]) && !IsTrimmed(name[|name| - 1])
    requires ParseUserId(name).None?
    ensures ToUser(name) == Text(name)
  {
    TrimWrapped("", name, "");
    assert "" + name + "" == name;
  }

  /** A token that does not start like an id is not one. */
  lemma NotAnId(s: string)
    requires s != [] && !IsDigit(s[0]) && s[0] != '+'
    ensures ParseUserId(s).None?
  {
  }

  /** A clean word that starts with neither a digit nor '+' names itself. */
  lemma ToUserWord(name: string)
    requires name != [] && !IsTrimmed(name[0]) && !IsTrimmed(name[|name| - 1])
    requires !IsDigit(name[0]) && name[0] != '+'
    ensures ToUser(name) == Text(name)
  {
    NotAnId(name);
    ToUserName(name);
  }

  /** A line whose match is at its start: the records of its users block. */
  lemma ParseLineAtStart(line: string)
    requires MatchesAt(line, 0)
    ensures ParseLine(line) == RecordsFor(ScoreOf(line[0]), Tokens(UsersBlock(line, 0)))
  {
    assert FindMatch(line, 0) == Some(0);
  }

  /** Two separator-free tokens joined by ", " split into three pieces, the
      middle one empty. */
  lemma SplitTwo(t1: string, t2: string)
    requires NoSeparator(t1) && NoSeparator(t2)
    ensures Split(t1 + ", " + t2) == [t1, "", t2]
  {
    SplitWithoutSeparator(t2);
    SplitAfterRun("", ' ', t2);
    assert "" + [' '] + t2 == " " + t2;
    SplitAfterRun(t1, ',', " " + t2);
    assert t1 + [','] + (" " + t2) == t1 + ", " + t2;
  }

  lemma NonEmptyThree(t1: string, t2: string)
    requires t1 != [] && t2 != []
    ensures NonEmpty([t1, "", t2]) == [t1, t2]
  {
    var pieces := [t1, "", t2];
    assert pieces[1..] == ["", t2] && pieces[1..][1..] == [t2] && pieces[1..][1..][1..] == [];
    assert NonEmpty([t2]) == [t2] + NonEmpty([]);
    assert NonEmpty(["", t2]) == NonEmpty([t2]);
    assert NonEmpty(pieces) == [t1] + NonEmpty(["", t2]);
  }

  /** Two separator-free tokens joined by ", " split back into those two. */
  lemma TwoTokens(t1: string, t2: string)
    requires t1 != [] && NoSeparator(t1) && t2 != [] && NoSeparator(t2)
    requires '\n' !in t1 && '\n' !in t2
    ensures Tokens(t1 + ", " + t2) == [t1, t2]
    ensures '\n' !in t1 + ", " + t2
  {
    var block := t1 + ", " + t2;
    assert '\n' !in block by {
      forall k | 0 <= k < |block| ensures block[k] != '\n' {
        if k < |t1| { assert block[k] == t1[k]; }
        else if k >= |t1| + 2 { assert block[k] == t2[k - |t1| - 2]; }
      }
    }
    SplitTwo(t1, t2);
    NonEmptyThree(t1, t2);
  }

  /** Two tokens separated by ", " after a score give two records. */
  lemma TwoTokenLine(c: char, t1: string, t2: string)
    requires IsValueChar(c)
    requires t1 != [] && NoSeparator(t1) && '\n' !in t1
    requires t2 != [] && NoSeparator(t2) && '\n' !in t2
    ensures ParseLine([c] + Delimiter + t1 + ", " + t2)
      == [Record(ScoreOf(c), ToUser(t1)), Record(ScoreOf(c), ToUser(t2))]
  {
    var block := t1 + ", " + t2;
    var line := [c] + Delimiter + block;
    assert line == [c] + Delimiter + t1 + ", " + t2;
    assert MatchesAt(line, 0) && line[0] == c;
    ParseLineAtStart(line);
    assert line[5..] == block;
    TwoTokens(t1, t2);
    UpToNewlineWhole(block);
    var r := RecordsFor(ScoreOf(c), [t1, t2]);
    assert |r| == 2;
  }

  lemma ParseUserId123()
    ensures ParseUserId("123") == Some(123)
  {
    assert "123"[..2] == "12" && "12"[..1] == "1" && "1"[..0] == "";
  }

  lemma ToUserIdExample()
    ensures ToUser("<@123>") == Id(123)
  {
    TrimWrapped("<@", "123", ">");
    assert "<@" + "123" + ">" == "<@123>";
    ParseUserId123();
  }

  lemma ExampleShape(mention: string, name: string)
    requires mention == "<@123>" && name == "Bob"
    ensures ParseLine(['3'] + Delimiter + mention + ", " + name)
      == [Record(Some(3), ToUser(mention)), Record(Some(3), ToUser(name))]
  {
    TwoTokenLine('3', mention, name);
  }

  lemma ExampleMention(mention: string)
    requires mention == "<@123>"
    ensures ToUser(mention) == Id(123)
  {
    ToUserIdExample();
  }

  lemma ExampleName(name: string)
    requires name == "Bob"
    ensures ToUser(name) == Text("Bob")
  {
    assert name[0] == 'B' && name[|name| - 1] == 'b';
    ToUserWord(name);
  }

  /** "3/6: <@123>, Bob" gives an id record and a name record, both scored 3
      (the line is assembled from its parts, so that the verifier reasons
      about it symbolically rather than by evaluation). */
  lemma ParseLineExample(mention: string, name: string)
    requires mention == "<@123>" && name == "Bob"
    ensures ParseLine(['3'] + Delimiter + mention + ", " + name)
      == [Record(Some(3), Id(123)), Record(Some(3), Text("Bob"))]
  {
    ExampleShape(mention, name);
    ExampleMention(mention);
    ExampleName(name);
  }

  lemma FailedExampleShape(name: string)
    requires name == "Alice"
    ensures ParseLine(['X'] + Delimiter + name) == [Record(None, ToUser(name))]
  {
    SingleTokenLine('X', name);
  }

  lemma FailedExampleUser(name: string)
    requires name == "Alice"
    ensures ToUser(name) == Text("Alice")
  {
    assert name[0] == 'A' && name[|name| - 1] == 'e';
    ToUserWord(name);
  }

  /** "X/6: Alice" gives one failed game for the name Alice. */
  lemma ParseLineFailedExample(name: string)
    requires name == "Alice"
    ensures ParseLine(['X'] + Delimiter + name) == [Record(None, Text("Alice"))]
  {
    FailedExampleShape(name);
    FailedExampleUser(name);
  }

  // ---------------------------------------------------------------------
  // Mentions read back

  /** A one-token users block of a separator-free token, with nothing after it. */
  lemma SingleTokenLine(c: char, token: string)
    requires IsValueChar(c) && token != [] && NoSeparator(token) && '\n' !in token
    ensures ParseLine([c] + Delimiter + token) == [Record(ScoreOf(c), ToUser(token))]
  {
    var line := [c] + Delimiter + token;
    assert MatchesAt(line, 0);
    assert line[5..] == token;
    assert UpToNewline(token) == token;
    SplitWithoutSeparator(token);
    assert NonEmpty([token]) == [token];
  }

  /** The report's mention of an id, written after a score, parses back to
      that id with that score: the report and the parser agree on ids. */
  lemma MentionIdRoundTrip(c: char, id: nat)
    requires IsValueChar(c) && 0 < id < U64Limit
    ensures ParseLine([c] + Delimiter + Mention(Id(id))) == [Record(ScoreOf(c), Id(id))]
  {
    var token := Mention(Id(id));
    MentionIdToken(id);
    SingleTokenLine(c, token);
  }

  /** The mention of an id is one clean token that names that id. */
  lemma MentionIdToken(id: nat)
    requires 0 < id < U64Limit
    ensures var token := Mention(Id(id));
      token != [] && NoSeparator(token) && '\n' !in token && ToUser(token) == Id(id)
  {
    var d := Decimal(id);
    var token := Mention(Id(id));
    assert token == "<@" + d + ">";
    assert NoSeparator(token) && '\n' !in token by {
      forall k | 0 <= k < |token| ensures !IsSeparator(token[k]) && token[k] != '\n' {
        if 2 <= k < |token| - 1 { assert token[k] == d[k - 2]; }
      }
    }
    TrimWrapped("<@", d, ">");
    ParseUserIdDecimal(id);
  }

  /** The mention of a clean name that is not an id is one clean token that
      names that name. */
  lemma MentionTextToken(name: string)
    requires name != [] && NoSeparator(name) && '\n' !in name
    requires !IsTrimmed(name[0]) && !IsTrimmed(name[|name| - 1]) && ParseUserId(name).None?
    ensures var token := Mention(Text(name));
      token != [] && NoSeparator(token) && '\n' !in token && ToUser(token) == Text(name)
  {
    var token := Mention(Text(name));
    assert token == "@" + name + "";
    assert NoSeparator(token) && '\n' !in token by {
      forall k | 0 <= k < |token| ensures !IsSeparator(token[k]) && token[k] != '\n' {
        if 1 <= k { assert token[k] == name[k - 1]; }
      }
    }
    TrimWrapped("@", name, "");
  }

  /** A name mention parses back to the name when the name is a single token
      with clean ends that is not itself an id. */
  lemma MentionTextRoundTrip(c: char, name: string)
    requires IsValueChar(c) && name != [] && NoSeparator(name) && '\n' !in name
    requires !IsTrimmed(name[0]) && !IsTrimmed(name[|name| - 1]) && ParseUserId(name).None?
    ensures ParseLine([c] + Delimiter + Mention(Text(name))) == [Record(ScoreOf(c), Text(name))]
  {
    MentionTextToken(name);
    SingleTokenLine(c, Mention(Text(name)));
  }

  // ---------------------------------------------------------------------
  // Lines of a message

  /** `str::lines`: split on '\n', drop a '\r' that sits just before a '\n',
      and produce no empty line after a final '\n'. */
  function Lines(s: string): (r: seq<string>)
    ensures forall k :: 0 <= k < |r| ==> '\n' !in r[k]
    decreases |s|
  {
    if s == [] then []
    else
      var line := UpToNewline(s);
      if |line| == |s| then [s]
      else [StripCarriageReturn(line)] + Lines(s[|line| + 1..])
  }

  /** Drops one '\r' at the end of a line, and changes nothing else. */
  function StripCarriageReturn(line: string): (r: string)
    ensures line != [] && line[|line| - 1] == '\r' ==> r == line[..|line| - 1]
    ensures (line == [] || line[|line| - 1] != '\r') ==> r == line
  {
    if line != [] && line[|line| - 1] == '\r' then line[..|line| - 1] else line
  }

  /** A text without a newline is a single line, kept whole. */
  lemma SingleLine(s: string)
    requires s != [] && '\n' !in s
    ensures Lines(s) == [s]
  {
    assert UpToNewline(s) == s;
  }

  /** The records of several lines, line after line (`.flatten()`). */
  function ParseLines(lines: seq<string>): (r: seq<Record>)
    ensures |lines| == 1 ==> r == ParseLine(lines[0])
    ensures forall x :: x in r ==> exists k :: 0 <= k < |lines| && x in ParseLine(lines[k])
  {
    if lines == [] then [] else ParseLine(lines[0]) + ParseLines(lines[1..])
  }

  /** The records of a message: the parses of its lines, concatenated
      (src/lib.rs:160-165). */
  function ParseMessage(content: string): seq<Record> {
    ParseLines(Lines(content))
  }

  /** Lines are parsed independently: appending a line appends its records,
      with no deduplication across lines. */
  lemma {:induction false} ParseLinesAppend(a: seq<string>, b: seq<string>)
    ensures ParseLines(a + b) == ParseLines(a) + ParseLines(b)
  {
    if a == [] {
      assert a + b == b;
    } else {
      assert (a + b)[0] == a[0];
      assert (a + b)[1..] == a[1..] + b;
      ParseLinesAppend(a[1..], b);
    }
  }

  /** A message without a newline is one line, read whole: a final '\r' is
      kept, since no '\n' follows it. */
  lemma ParseMessageOneLine(line: string)
    requires '\n' !in line
    ensures ParseMessage(line) == ParseLine(line)
  {
    if line == [] {
      assert FindMatch(line, 0).None?;
    } else {
      SingleLine(line);
    }
  }

  lemma {:induction false} UpToNewlineBefore(line: string, rest: string)
    requires '\n' !in line
    ensures UpToNewline(line + "\n" + rest) == line
  {
    if line != [] {
      assert (line + "\n" + rest)[1..] == line[1..] + "\n" + rest;
      UpToNewlineBefore(line[1..], rest);
      assert [line[0]] + line[1..] == line;
    }
  }

  /** A line followed by a newline contributes exactly its own records, read
      without a final '\r', ahead of those of the rest of the message. */
  lemma ParseMessageFirstLine(line: string, rest: string)
    requires '\n' !in line
    ensures ParseMessage(line + "\n" + rest) == ParseLine(StripCarriageReturn(line)) + ParseMessage(rest)
  {
    var s := line + "\n" + rest;
    UpToNewlineBefore(line, rest);
    assert s[|line| + 1..] == rest;
  }
}
