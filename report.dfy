/** Bounding the size of the report (src/lib.rs:256-259): a report longer
    than 1950 bytes is cut to 1950 bytes and marked as truncated. The report
    is UTF-8 text, so it is modelled by its bytes; `String::truncate` only
    accepts a cut at a character boundary and panics otherwise. */
module Report {
  import opened Types

  newtype byte = x: int | 0 <= x < 256

  /** The largest report kept whole, in bytes. */
  const Limit: nat := 1950

  /** The UTF-8 bytes of "\n... (truncated)". */
  const Marker: seq<byte> := [10, 46, 46, 46, 32, 40, 116, 114, 117, 110, 99, 97, 116, 101, 100, 41]

  /** A UTF-8 continuation byte, `10xxxxxx`, which never starts a character. */
  predicate IsContinuation(b: byte) { 0x80 <= b < 0xC0 }

  /** `str::is_char_boundary`: the ends of the text, and every position whose
      byte starts a character. */
  predicate IsCharBoundary(s: seq<byte>, i: nat) {
    i == 0 || i == |s| || (i < |s| && !IsContinuation(s[i]))
  }

  /** The panic of `String::truncate` at a position inside a character. */
  datatype Panic = NotCharBoundary(at: nat)

  /** The report bound as written: `truncate(1950)` followed by the marker,
      which panics when byte 1950 falls inside a multi-byte character. */
  method BoundOutputAsWritten(output: seq<byte>) returns (r: Result<seq<byte>, Panic>)
    ensures |output| <= Limit ==> r == Ok(output)
    ensures |output| > Limit && IsCharBoundary(output, Limit) ==> r == Ok(output[..Limit] + Marker)
    ensures |output| > Limit && !IsCharBoundary(output, Limit) ==> r == Err(NotCharBoundary(Limit))
  {
    var text := output;
    if |text| > Limit {
      if !IsCharBoundary(text, Limit) {
        return Err(NotCharBoundary(Limit));
      }
      text := text[..Limit];
      text := text + Marker;
    }
    r := Ok(text);
  }

  /** A 1951-byte report that ends in "é" (0xC3 0xA9) with the 0xA9 at
      position 1950: well-formed text that makes the bound panic. */
  method PanicExample() returns (output: seq<byte>, r: Result<seq<byte>, Panic>)
    ensures |output| == Limit + 1 && output[Limit] == 0xA9
    ensures r == Err(NotCharBoundary(Limit))
  {
    output := seq(Limit - 1, _ => 97 as byte) + [0xC3, 0xA9];
    assert |output| == Limit + 1 && output[Limit] == 0xA9;
    assert !IsCharBoundary(output, Limit);
    r := BoundOutputAsWritten(output);
  }

  /** The report bound as intended: a long report is cut at the last
      character boundary at or before byte 1950 (Rust's
      `floor_char_boundary`), so the cut never splits a character, and the
      marker is appended. Where the code as written succeeds, this gives the
      same report. */
  method BoundOutput(output: seq<byte>) returns (out: seq<byte>)
    ensures |output| <= Limit ==> out == output
    ensures |output| > Limit ==> exists cut: nat :: (
      cut <= Limit && IsCharBoundary(output, cut)
      && (forall k: nat :: cut < k <= Limit ==> !IsCharBoundary(output, k))
      && out == output[..cut] + Marker)
    ensures |out| <= Limit + |Marker|
    ensures |output| > Limit && IsCharBoundary(output, Limit) ==> out == output[..Limit] + Marker
  {
    out := output;
    if |out| > Limit {
      var cut: nat := Limit;
      while !IsCharBoundary(output, cut)
        invariant cut <= Limit
        invariant forall k: nat :: cut < k <= Limit ==> !IsCharBoundary(output, k)
        decreases cut
      {
        cut := cut - 1;
      }
      out := out[..cut];
      out := out + Marker;
    }
  }
}
