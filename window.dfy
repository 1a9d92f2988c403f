/** The date range check of `parse_dates` (src/lib.rs:97-101) and the message
    window of `get_messages_from_dates` (src/lib.rs:104-125). Timestamps are
    seconds since the epoch; adding one calendar day in UTC adds 86400. */
module Window {
  import opened Types

  const Day: int := 86400

  datatype DateError = FromUnparsable | ToUnparsable | NotPrior(from: int, to: int)

  /** The range check on two already parsed dates (`None` stands for a date
      text the date parser rejected; `from` is parsed first). */
  function ParseDates(from: Option<int>, to: Option<int>): (r: Result<(int, int), DateError>)
    ensures r.Ok? <==> from.Some? && to.Some? && from.value < to.value
    ensures r.Ok? ==> r.value == (from.value, to.value)
    ensures from.None? ==> r == Err(FromUnparsable)
    ensures from.Some? && to.None? ==> r == Err(ToUnparsable)
    ensures from.Some? && to.Some? && from.value >= to.value ==> r == Err(NotPrior(from.value, to.value))
  {
    if from.None? then Err(FromUnparsable)
    else if to.None? then Err(ToUnparsable)
    else if from.value >= to.value then Err(NotPrior(from.value, to.value))
    else Ok((from.value, to.value))
  }

  /** "From today to yesterday" is refused: the end is a day before the start. */
  lemma ParseDatesInverted(today: int)
    ensures ParseDates(Some(today), Some(today - Day)) == Err(NotPrior(today, today - Day))
  {
  }

  // ---------------------------------------------------------------------
  // The window over a newest-first stream

  /** `try_filter`: drops the messages newer than `upper` (the bound is
      inclusive); retrieval errors pass through. */
  function KeepUpTo(items: seq<Fetch>, upper: int): (r: seq<Fetch>)
    ensures |r| <= |items|
    ensures forall k :: 0 <= k < |r| && r[k].Fetched? ==> r[k].msg.timestamp <= upper
  {
    if items == [] then []
    else
      (if items[0].Fetched? && items[0].msg.timestamp > upper then [] else [items[0]])
      + KeepUpTo(items[1..], upper)
  }

  /** `try_take_while`: the longest prefix with no message older than
      `lower`; retrieval errors pass through, and the first older message
      ends the stream. */
  function TakeFrom(items: seq<Fetch>, lower: int): (r: seq<Fetch>)
    ensures |r| <= |items| && r == items[..|r|]
    ensures forall k :: 0 <= k < |r| && r[k].Fetched? ==> r[k].msg.timestamp >= lower
    ensures |r| < |items| ==> items[|r|].Fetched? && items[|r|].msg.timestamp < lower
  {
    if items == [] then []
    else if items[0].Fetched? && items[0].msg.timestamp < lower then []
    else [items[0]] + TakeFrom(items[1..], lower)
  }

  /** The messages of the window: at most one day after `to` and, reading
      newest first, until the first message before one day after `from`. */
  function MessagesFromDates(items: seq<Fetch>, from: int, to: int): (r: seq<Fetch>)
    ensures forall k :: 0 <= k < |r| && r[k].Fetched? ==>
      from + Day <= r[k].msg.timestamp <= to + Day
  {
    TakeFrom(KeepUpTo(items, to + Day), from + Day)
  }

  // ---------------------------------------------------------------------
  // Order-preserving selection

  /** `a` is `b` with some items left out, the rest in the same order. */
  predicate IsSubsequence<T(==)>(a: seq<T>, b: seq<T>)
    decreases |b|
  {
    if b == [] then a == []
    else (a != [] && a[0] == b[0] && IsSubsequence(a[1..], b[1..])) || IsSubsequence(a, b[1..])
  }

  /** The kept items stay in their stream order. */
  lemma {:induction false} KeepUpToSubsequence(items: seq<Fetch>, upper: int)
    ensures IsSubsequence(KeepUpTo(items, upper), items)
  {
    if items != [] {
      KeepUpToSubsequence(items[1..], upper);
      var r, rest := KeepUpTo(items, upper), KeepUpTo(items[1..], upper);
      if items[0].Fetched? && items[0].msg.timestamp > upper {
        assert r == rest;
      } else {
        assert r == [items[0]] + rest;
        assert r[0] == items[0] && r[1..] == rest;
      }
    }
  }

  /** Every retrieval error and every message at or before `upper` is kept,
      as often as it occurs, and nothing else. */
  lemma {:induction false} KeepUpToCounts(items: seq<Fetch>, upper: int, x: Fetch)
    ensures multiset(KeepUpTo(items, upper))[x] ==
      if x.FetchFailed? || x.msg.timestamp <= upper then multiset(items)[x] else 0
  {
    if items != [] {
      KeepUpToCounts(items[1..], upper, x);
      assert items == [items[0]] + items[1..];
    }
  }

  /** Every prefix of a subsequence is a subsequence. */
  lemma {:induction false} PrefixSubsequence<T>(a: seq<T>, b: seq<T>, n: nat)
    requires IsSubsequence(a, b) && n <= |a|
    ensures IsSubsequence(a[..n], b)
    decreases |b|
  {
    if b == [] {
    } else if a != [] && a[0] == b[0] && IsSubsequence(a[1..], b[1..]) {
      if n > 0 {
        PrefixSubsequence(a[1..], b[1..], n - 1);
        assert a[..n][1..] == a[1..][..n - 1];
      } else {
        EmptySubsequence(b[1..]);
      }
    } else {
      PrefixSubsequence(a, b[1..], n);
    }
  }

  lemma {:induction false} EmptySubsequence<T>(b: seq<T>)
    ensures IsSubsequence([], b)
    decreases |b|
  {
    if b != [] { EmptySubsequence(b[1..]); }
  }

  /** The window keeps items of the stream, in stream order. */
  /** Every item of a subsequence is an item of the sequence. */
  lemma {:induction false} SubsequenceMember<T>(a: seq<T>, b: seq<T>, x: T)
    requires IsSubsequence(a, b) && x in a
    ensures x in b
    decreases |b|
  {
    if a != [] && a[0] == b[0] && IsSubsequence(a[1..], b[1..]) {
      if x != a[0] {
        assert x in a[1..] by { var k :| 0 <= k < |a| && a[k] == x; assert a[1..][k - 1] == x; }
        SubsequenceMember(a[1..], b[1..], x);
      }
    } else {
      SubsequenceMember(a, b[1..], x);
    }
  }

  lemma WindowSubsequence(items: seq<Fetch>, from: int, to: int)
    ensures IsSubsequence(MessagesFromDates(items, from, to), items)
  {
    var kept := KeepUpTo(items, to + Day);
    KeepUpToSubsequence(items, to + Day);
    var r := TakeFrom(kept, from + Day);
    PrefixSubsequence(kept, items, |r|);
  }

  // ---------------------------------------------------------------------
  // With newest-first input the window is the plain range filter

  /** The successfully retrieved messages, in order. */
  function Successes(items: seq<Fetch>): seq<Message> {
    if items == [] then []
    else (if items[0].Fetched? then [items[0].msg] else []) + Successes(items[1..])
  }

  function AtMost(ms: seq<Message>, upper: int): seq<Message> {
    if ms == [] then []
    else (if ms[0].timestamp <= upper then [ms[0]] else []) + AtMost(ms[1..], upper)
  }

  function WhileAtLeast(ms: seq<Message>, lower: int): seq<Message> {
    if ms == [] || ms[0].timestamp < lower then [] else [ms[0]] + WhileAtLeast(ms[1..], lower)
  }

  /** The plain filter by both bounds. */
  function InRange(ms: seq<Message>, lower: int, upper: int): (r: seq<Message>)
    ensures forall k :: 0 <= k < |r| ==> lower <= r[k].timestamp <= upper
  {
    if ms == [] then []
    else (if lower <= ms[0].timestamp <= upper then [ms[0]] else []) + InRange(ms[1..], lower, upper)
  }

  predicate Descending(ms: seq<Message>) {
    forall i, j :: 0 <= i < j < |ms| ==> ms[i].timestamp >= ms[j].timestamp
  }

  lemma {:induction false} SuccessesKeepUpTo(items: seq<Fetch>, upper: int)
    ensures Successes(KeepUpTo(items, upper)) == AtMost(Successes(items), upper)
  {
    if items != [] {
      SuccessesKeepUpTo(items[1..], upper);
      var rest := KeepUpTo(items[1..], upper);
      var s := Successes(items[1..]);
      if items[0].FetchFailed? {
        assert Successes(items) == s;
        SuccessesAppend([items[0]], rest);
      } else {
        var m := items[0].msg;
        assert Successes(items) == [m] + s;
        assert ([m] + s)[0] == m && ([m] + s)[1..] == s;
        if m.timestamp > upper {
          assert KeepUpTo(items, upper) == rest;
        } else {
          SuccessesAppend([items[0]], rest);
        }
      }
    }
  }

  lemma {:induction false} SuccessesAppend(a: seq<Fetch>, b: seq<Fetch>)
    ensures Successes(a + b) == Successes(a) + Successes(b)
  {
    if a == [] {
      assert a + b == b;
    } else {
      assert (a + b)[0] == a[0] && (a + b)[1..] == a[1..] + b;
      SuccessesAppend(a[1..], b);
    }
  }

  lemma {:induction false} SuccessesTakeFrom(items: seq<Fetch>, lower: int)
    ensures Successes(TakeFrom(items, lower)) == WhileAtLeast(Successes(items), lower)
  {
    if items != [] {
      var s := Successes(items[1..]);
      if items[0].FetchFailed? {
        assert Successes(items) == s;
        SuccessesTakeFrom(items[1..], lower);
        SuccessesAppend([items[0]], TakeFrom(items[1..], lower));
      } else {
        var m := items[0].msg;
        assert Successes(items) == [m] + s;
        assert ([m] + s)[0] == m && ([m] + s)[1..] == s;
        if m.timestamp >= lower {
          SuccessesTakeFrom(items[1..], lower);
          SuccessesAppend([items[0]], TakeFrom(items[1..], lower));
        }
      }
    }
  }

  lemma {:induction false} InRangeBelow(ms: seq<Message>, lower: int, upper: int)
    requires forall k :: 0 <= k < |ms| ==> ms[k].timestamp < lower
    ensures InRange(ms, lower, upper) == []
  {
    if ms != [] { InRangeBelow(ms[1..], lower, upper); }
  }

  lemma {:induction false} WindowOfDescending(ms: seq<Message>, lower: int, upper: int)
    requires Descending(ms)
    ensures WhileAtLeast(AtMost(ms, upper), lower) == InRange(ms, lower, upper)
  {
    if ms != [] {
      var m, rest := ms[0], ms[1..];
      assert Descending(rest) by {
        forall i, j | 0 <= i < j < |rest| ensures rest[i].timestamp >= rest[j].timestamp {
          assert rest[i] == ms[i + 1] && rest[j] == ms[j + 1];
        }
      }
      WindowOfDescending(rest, lower, upper);
      if m.timestamp > upper {
        assert AtMost(ms, upper) == AtMost(rest, upper);
      } else if m.timestamp >= lower {
        assert AtMost(ms, upper) == [m] + AtMost(rest, upper);
      } else {
        assert AtMost(ms, upper) == [m] + AtMost(rest, upper);
        assert forall k :: 0 <= k < |rest| ==> rest[k].timestamp < lower by {
          forall k | 0 <= k < |rest| ensures rest[k].timestamp < lower {
            assert rest[k] == ms[k + 1];
          }
        }
        InRangeBelow(rest, lower, upper);
      }
    }
  }

  /** For a stream whose messages are newest first, the window keeps exactly
      the messages with `from + Day <= t <= to + Day`, as a plain filter
      would; the early stop loses nothing. */
  lemma WindowIsRangeFilter(items: seq<Fetch>, from: int, to: int)
    requires Descending(Successes(items))
    ensures Successes(MessagesFromDates(items, from, to))
      == InRange(Successes(items), from + Day, to + Day)
  {
    SuccessesKeepUpTo(items, to + Day);
    SuccessesTakeFrom(KeepUpTo(items, to + Day), from + Day);
    WindowOfDescending(Successes(items), from + Day, to + Day);
  }

  /** Three daily messages, newest first, at the starts of days 5, 4 and 1,
      with the range from day 2 to day 4: the upper bound is inclusive, so the
      day-5 message is kept with the day-4 one, and the day-1 message ends
      the stream. */
  lemma WindowExample(m5: Message, m4: Message, m1: Message)
    requires m5.timestamp == 5 * Day && m4.timestamp == 4 * Day && m1.timestamp == Day
    ensures MessagesFromDates([Fetched(m5), Fetched(m4), Fetched(m1)], 2 * Day, 4 * Day)
      == [Fetched(m5), Fetched(m4)]
  {
    var items := [Fetched(m5), Fetched(m4), Fetched(m1)];
    var tail4, tail1 := [Fetched(m4), Fetched(m1)], [Fetched(m1)];
    assert items[1..] == tail4 && tail4[1..] == tail1 && tail1[1..] == [];
    assert KeepUpTo(tail1, 5 * Day) == tail1;
    assert KeepUpTo(tail4, 5 * Day) == tail4;
    assert KeepUpTo(items, 5 * Day) == items;
    assert TakeFrom(tail1, 3 * Day) == [];
    assert TakeFrom(tail4, 3 * Day) == [Fetched(m4)];
  }
}
