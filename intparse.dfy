/** Decimal parsing of a `u16`, as `str::parse::<u16>` (Rust's
    `from_str_radix` with radix 10) does it: an optional leading `+`, then
    one or more ASCII digits, accumulated left to right with a checked
    multiply and a checked add. */
module IntParse {
  import opened Prelude

  /** The kinds of `ParseIntError` an unsigned parse can raise. */
  datatype IntErrorKind = Empty | InvalidDigit | Overflow

  predicate IsDigit(c: char)
  {
    '0' <= c <= '9'
  }

  function DigitValue(c: char): (d: nat)
    requires IsDigit(c)
    ensures d < 10
  {
    c as int - '0' as int
  }

  predicate AllDigits(s: string)
  {
    forall i :: 0 <= i < |s| ==> IsDigit(s[i])
  }

  /** The positional value of a string of decimal digits: the reference
      meaning the parser is checked against. */
  function DecimalValue(s: string): nat
    requires AllDigits(s)
  {
    if s == [] then 0 else DecimalValue(s[..|s| - 1]) * 10 + DigitValue(s[|s| - 1])
  }

  /** The text left once the optional leading `+` is dropped. */
  function Unsigned(s: string): string
  {
    if |s| > 0 && s[0] == '+' then s[1..] else s
  }

  /** A string that denotes a `u16`: an optional `+` and at least one digit,
      worth at most 65535. Leading zeros are allowed; `-` is not. */
  predicate IsU16Literal(s: string)
  {
    var d := Unsigned(s);
    d != [] && AllDigits(d) && DecimalValue(d) <= U16_MAX
  }

  /** The digit loop: scale the accumulator by ten and add the next digit,
      failing on the first non-digit or the first step past 65535. */
  function Accumulate(acc: u16, digits: string): (r: Result<u16, IntErrorKind>)
    decreases digits
    ensures r.Ok? ==> acc <= r.value
    ensures r != Err(Empty)
  {
    if digits == [] then Ok(acc)
    else if !IsDigit(digits[0]) then Err(InvalidDigit)
    else
      var v := acc * 10 + DigitValue(digits[0]);
      if v > U16_MAX then Err(Overflow) else Accumulate(v, digits[1..])
  }

  /** `<u16 as FromStr>::from_str`. The empty string, and a lone `+`, are
      `Empty`; everything else goes through the digit loop. */
  function ParseU16(s: string): (r: Result<u16, IntErrorKind>)
    ensures r == Err(Empty) <==> s == [] || s == "+"
  {
    if s == [] then Err(Empty)
    else
      var digits := if s[0] == '+' then s[1..] else s;
      if digits == [] then Err(Empty) else Accumulate(0, digits)
  }

  /** The value of a digit string is at least the value of each prefix. */
  lemma {:induction false} PrefixValueBound(t: string, k: nat)
    requires AllDigits(t) && k <= |t|
    decreases |t|
    ensures AllDigits(t[..k]) && DecimalValue(t[..k]) <= DecimalValue(t)
  {
    if k < |t| {
      var u := t[..|t| - 1];
      assert u[..k] == t[..k];
      PrefixValueBound(u, k);
    } else {
      assert t[..k] == t;
    }
  }

  /** Continuing the digit loop after a prefix `p` yields the value of
      `p + s` exactly when `s` is all digits and that value fits a `u16`;
      an all-digit `s` that does not fit is an overflow. */
  lemma {:induction false} AccumulateValue(p: string, s: string)
    requires AllDigits(p) && DecimalValue(p) <= U16_MAX
    decreases s
    ensures var r := Accumulate(DecimalValue(p), s);
      && (r.Ok? <==> AllDigits(s) && DecimalValue(p + s) <= U16_MAX)
      && (r.Ok? ==> r.value == DecimalValue(p + s))
      && (AllDigits(s) && DecimalValue(p + s) > U16_MAX ==> r == Err(Overflow))
  {
    if s == [] {
      assert p + s == p;
    } else if !IsDigit(s[0]) {
    } else {
      var q := p + [s[0]];
      assert q[..|q| - 1] == p;
      assert AllDigits(q);
      if DecimalValue(q) > U16_MAX {
        if AllDigits(s) {
          assert (p + s)[..|q|] == q;
          PrefixValueBound(p + s, |q|);
        }
      } else {
        AccumulateValue(q, s[1..]);
        assert q + s[1..] == p + s;
      }
    }
  }

  /** A non-digit met before the value passes 65535 is an invalid digit:
      continuing the digit loop after a prefix `p`, when the first
      non-digit of `s` is at `j` and `p ++ s[..j]` fits a `u16`, gives
      `InvalidDigit`. */
  lemma {:induction false} AccumulateInvalidDigit(p: string, s: string, j: nat)
    requires AllDigits(p) && DecimalValue(p) <= U16_MAX
    requires j < |s| && !IsDigit(s[j]) && AllDigits(s[..j])
    requires AllDigits(p + s[..j]) && DecimalValue(p + s[..j]) <= U16_MAX
    decreases j
    ensures Accumulate(DecimalValue(p), s) == Err(InvalidDigit)
  {
    if j > 0 {
      assert IsDigit(s[..j][0]);
      var q := p + [s[0]];
      assert q[..|q| - 1] == p;
      assert (p + s[..j])[..|q|] == q;
      PrefixValueBound(p + s[..j], |q|);
      assert s[1..][..j - 1] == s[1..j];
      assert q + s[1..][..j - 1] == p + s[..j];
      AccumulateInvalidDigit(q, s[1..], j - 1);
    }
  }

  /** The parser reports `InvalidDigit` when the unsigned text has a
      non-digit at `j` and the digits before it are worth at most 65535;
      so `x` and `-1` are invalid digits while `99999x` overflows. */
  lemma ParseU16InvalidDigit(s: string, j: nat)
    requires var d := Unsigned(s);
      && j < |d| && !IsDigit(d[j]) && AllDigits(d[..j]) && DecimalValue(d[..j]) <= U16_MAX
    ensures ParseU16(s) == Err(InvalidDigit)
  {
    var d := Unsigned(s);
    assert [] + d[..j] == d[..j];
    AccumulateInvalidDigit([], d, j);
  }

  /** The parser accepts exactly the `u16` literals, and returns their
      value; an all-digit string too large for a `u16` is an overflow. */
  lemma ParseU16Correct(s: string)
    ensures ParseU16(s).Ok? <==> IsU16Literal(s)
    ensures ParseU16(s).Ok? ==> ParseU16(s).value == DecimalValue(Unsigned(s))
    ensures var d := Unsigned(s);
      d != [] && AllDigits(d) && DecimalValue(d) > U16_MAX ==> ParseU16(s) == Err(Overflow)
  {
    var d := Unsigned(s);
    if s != [] && d != [] {
      assert [] + d == d;
      AccumulateValue([], d);
    }
  }
}
