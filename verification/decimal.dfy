/** Decimal text for 64-bit unsigned integers: Rust's `Display` for `u64`
    (digits without leading zeros) and `u64::from_str` (an optional `+`,
    then at least one ASCII digit, refusing values that do not fit). */
module Decimal {
  import opened Bytes
  import opened Results

  predicate IsDigit(c: char) {
    '0' <= c <= '9'
  }

  predicate AllDigits(s: string) {
    forall i :: 0 <= i < |s| ==> IsDigit(s[i])
  }

  /** The number a string of decimal digits denotes, most significant first. */
  function ValueOf(s: string): nat
    requires AllDigits(s)
  {
    if |s| == 0 then 0 else ValueOf(s[..|s| - 1]) * 10 + (s[|s| - 1] as int - '0' as int)
  }

  function DigitChar(d: nat): (c: char)
    requires d < 10
    ensures IsDigit(c)
  {
    ('0' as int + d) as char
  }

  /** The shortest decimal spelling of `n`. */
  function Show(n: nat): (s: string)
    ensures |s| >= 1 && AllDigits(s)
    ensures ValueOf(s) == n
    ensures s[0] == '0' ==> s == "0"
  {
    if n < 10 then [DigitChar(n)]
    else
      var s := Show(n / 10) + [DigitChar(n % 10)];
      assert s[..|s| - 1] == Show(n / 10);
      s
  }

  /** The text after an optional leading `+`. */
  function Unsigned(s: string): string {
    if |s| > 0 && s[0] == '+' then s[1..] else s
  }

  /** `str::parse::<u64>`: `None` for the empty string, a lone `+`, any
      character other than a digit after the optional `+`, or a value of
      2^64 or more. */
  function ParseU64(s: string): (r: Option<u64>)
    ensures var digits := Unsigned(s);
      r.Some? <==> |digits| > 0 && AllDigits(digits) && ValueOf(digits) < U64_LIMIT
    ensures r.Some? ==> AllDigits(Unsigned(s)) && r.value == ValueOf(Unsigned(s))
  {
    var digits := Unsigned(s);
    if |digits| == 0 || !AllDigits(digits) then None
    else
      var v := ValueOf(digits);
      if v < U64_LIMIT then Some(v) else None
  }

  /** Printing then parsing gives the number back. */
  lemma ParseShow(n: u64)
    ensures ParseU64(Show(n)) == Some(n)
  {
  }

  /** Digits are never whitespace, separators or line breaks: a printed
      number survives trimming and splitting unchanged. */
  lemma ShowHasNoSeparators(n: nat, c: char)
    requires !IsDigit(c)
    ensures c !in Show(n)
  {
  }
}
