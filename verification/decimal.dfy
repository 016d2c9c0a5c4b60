/** Unsigned 32-bit decimal numerals: Rust's `u32::from_str` and the `{}`
    formatting of a `u32`, with the round trips between them. */
module Decimal {
  import opened Results

  const U32_MAX: nat := 0xFFFF_FFFF

  /** Rust's `u32`: the values `from_str` can return and `{}` can print. */
  type u32 = n: nat | n <= U32_MAX

  predicate IsDigit(c: char) {
    '0' <= c <= '9'
  }

  predicate AllDigits(s: string) {
    forall k :: 0 <= k < |s| ==> IsDigit(s[k])
  }

  function DigitValue(c: char): (d: nat)
    requires IsDigit(c)
    ensures d < 10
  {
    (c as int) - ('0' as int)
  }

  function DigitChar(d: nat): (c: char)
    requires d < 10
    ensures IsDigit(c) && DigitValue(c) == d
  {
    ((d + '0' as int) as char)
  }

  /** The value of a string of decimal digits, most significant first. */
  function Value(s: string): nat
    requires AllDigits(s)
  {
    if |s| == 0 then 0 else Value(s[..|s| - 1]) * 10 + DigitValue(s[|s| - 1])
  }

  /** A numeral as `{}` prints it: at least one digit, no sign, and no
      leading zero unless the numeral is `0` itself. */
  predicate IsCanonical(s: string) {
    && |s| >= 1
    && AllDigits(s)
    && (s[0] != '0' || |s| == 1)
  }

  /** `format!("{}", n)`: the canonical numeral whose value is `n`. */
  function Format(n: nat): (s: string)
    ensures IsCanonical(s)
    ensures Value(s) == n
  {
    if n < 10 then
      [DigitChar(n)]
    else
      var p := Format(n / 10);
      var s := p + [DigitChar(n % 10)];
      assert s[..|s| - 1] == p;
      s
  }

  /** The digit-by-digit accumulation of `u32::from_str`, most significant
      digit first, before the 32-bit bound is applied: `None` as soon as a
      character is not a digit. */
  function DigitsValue(s: string): Option<nat> {
    if |s| == 0 then
      Some(0)
    else
      match DigitsValue(s[..|s| - 1])
      case None => None
      case Some(v) => if IsDigit(s[|s| - 1]) then Some(v * 10 + DigitValue(s[|s| - 1])) else None
  }

  /** The accumulation succeeds on digit strings only, with their value. */
  lemma {:induction false} DigitsValueSpec(s: string)
    ensures DigitsValue(s) == if AllDigits(s) then Some(Value(s)) else None
    decreases |s|
  {
    if |s| > 0 {
      var p := s[..|s| - 1];
      DigitsValueSpec(p);
      assert AllDigits(s) <==> AllDigits(p) && IsDigit(s[|s| - 1]);
    }
  }

  /** `u32::from_str`: an optional leading `+` then one or more ASCII
      digits whose value fits in 32 bits; any other string is an error
      (empty, a sign alone, another character, or an overflow), which `None`
      stands for. */
  function ParseU32(s: string): Option<u32> {
    var digits := if |s| >= 1 && s[0] == '+' then s[1..] else s;
    if |digits| == 0 then
      None
    else
      match DigitsValue(digits)
      case Some(v) => if v <= U32_MAX then Some(v) else None
      case None => None
  }

  /** What `from_str` accepts, stated without the accumulation: `+` at most
      once at the front, then at least one digit and nothing else, of value
      at most `U32_MAX`. */
  lemma ParseU32Spec(s: string)
    ensures var digits := if |s| >= 1 && s[0] == '+' then s[1..] else s;
            ParseU32(s) == if |digits| >= 1 && AllDigits(digits) && Value(digits) <= U32_MAX
                           then Some(Value(digits)) else None
  {
    DigitsValueSpec(if |s| >= 1 && s[0] == '+' then s[1..] else s);
  }

  /** Parsing what `{}` printed gives the number back exactly when it fits
      in a `u32`; a wider number is rejected as an overflow. */
  lemma ParseFormat(n: nat)
    ensures n <= U32_MAX ==> ParseU32(Format(n)) == Some(n)
    ensures n > U32_MAX ==> ParseU32(Format(n)) == None
  {
    ParseU32Spec(Format(n));
  }

  /** The explicit `+` sign is accepted. */
  lemma ParsePlusFormat(n: u32)
    ensures ParseU32("+" + Format(n)) == Some(n)
  {
    assert ("+" + Format(n))[1..] == Format(n);
    ParseU32Spec("+" + Format(n));
  }

  /** A canonical numeral is the one `{}` prints for the value it parses
      to, so the two directions of the round trip agree. */
  lemma {:induction false} FormatValue(s: string)
    requires IsCanonical(s)
    ensures Format(Value(s)) == s
    decreases |s|
  {
    if |s| > 1 {
      var p := s[..|s| - 1];
      assert IsCanonical(p);
      ValuePositive(p);
      FormatValue(p);
      var n := Value(s);
      assert n / 10 == Value(p) && n % 10 == DigitValue(s[|s| - 1]);
      assert s == p + [s[|s| - 1]];
    }
  }

  lemma {:induction false} ValuePositive(s: string)
    requires IsCanonical(s) && s[0] != '0'
    ensures Value(s) >= 1
    decreases |s|
  {
    if |s| > 1 {
      ValuePositive(s[..|s| - 1]);
    }
  }

  /** On canonical numerals `from_str` is the inverse of `{}`. */
  lemma FormatParse(s: string, n: u32)
    requires IsCanonical(s)
    requires ParseU32(s) == Some(n)
    ensures Format(n) == s
  {
    ParseU32Spec(s);
    FormatValue(s);
  }
}
