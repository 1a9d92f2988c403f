/** Reading and writing user ids: the id parser the line parser relies on
    (`clean_name.parse::<UserId>()`, src/lib.rs:64) and `User::mention`
    (src/lib.rs:22-27). */
module UserIds {
  import opened Types

  /** Ids are non-zero unsigned 64-bit integers. */
  const U64Limit: nat := 0x1_0000_0000_0000_0000

  predicate IsDigit(c: char) { '0' <= c <= '9' }

  predicate AllDigits(s: string) { forall k :: 0 <= k < |s| ==> IsDigit(s[k]) }

  function DigitValue(c: char): nat
    requires IsDigit(c)
  {
    c as nat - '0' as nat
  }

  function DigitChar(d: nat): (c: char)
    requires d < 10
    ensures IsDigit(c) && DigitValue(c) == d
  {
    ('0' as nat + d) as char
  }

  /** The value of a string of decimal digits, most significant first. */
  function DigitsValue(s: string): nat
    requires AllDigits(s)
  {
    if s == [] then 0 else 10 * DigitsValue(s[..|s| - 1]) + DigitValue(s[|s| - 1])
  }

  /** Parses a token as a user id the way an unsigned 64-bit parse into a
      non-zero id does: an optional '+', then one or more decimal digits whose
      value is neither zero nor beyond 64 bits. */
  function ParseUserId(s: string): (r: Option<nat>)
    ensures r.Some? ==> 0 < r.value < U64Limit
    ensures r.Some? ==> s != [] && forall k :: 0 <= k < |s| ==> IsDigit(s[k]) || (k == 0 && s[k] == '+')
  {
    var digits := if s != [] && s[0] == '+' then s[1..] else s;
    if digits != [] && AllDigits(digits) && 0 < DigitsValue(digits) < U64Limit then
      Some(DigitsValue(digits))
    else
      None
  }

  /** The decimal rendering of `n`, with no leading zero. */
  function Decimal(n: nat): (s: string)
    ensures s != [] && AllDigits(s)
    ensures n > 0 ==> s[0] != '0'
  {
    if n < 10 then [DigitChar(n)] else Decimal(n / 10) + [DigitChar(n % 10)]
  }

  /** Rendering an id in decimal and reading it back gives the id. */
  lemma {:induction false} DigitsValueDecimal(n: nat)
    ensures DigitsValue(Decimal(n)) == n
  {
    if n >= 10 {
      var d := Decimal(n);
      assert d[..|d| - 1] == Decimal(n / 10);
      DigitsValueDecimal(n / 10);
    }
  }

  /** Every id survives a print-then-parse round trip, with or without a '+'. */
  lemma ParseUserIdDecimal(n: nat)
    requires 0 < n < U64Limit
    ensures ParseUserId(Decimal(n)) == Some(n)
    ensures ParseUserId(['+'] + Decimal(n)) == Some(n)
  {
    DigitsValueDecimal(n);
    assert (['+'] + Decimal(n))[1..] == Decimal(n);
  }

  /** How a user is shown in the report: `<@id>` for an id, `@name` for a
      name (src/lib.rs:22-27). */
  function Mention(u: User): (r: string)
    ensures u.Id? ==>
      |r| >= 4 && r[..2] == "<@" && r[|r| - 1] == '>'
      && AllDigits(r[2..|r| - 1]) && DigitsValue(r[2..|r| - 1]) == u.id
    ensures u.Text? ==> |r| == |u.name| + 1 && r[0] == '@' && r[1..] == u.name
  {
    match u
    case Id(id) =>
      var r := "<@" + Decimal(id) + ">";
      DigitsValueDecimal(id);
      assert r[2..|r| - 1] == Decimal(id);
      r
    case Text(name) => "@" + name
  }
}
