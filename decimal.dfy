/** Decimal text and `u64`: the behaviour of Rust's `<u64 as FromStr>::from_str`
    (what `str::parse::<u64>` calls), which the interval parser relies on.
    `ToDecimal` writes a number out as the text `"<n>"` that lemmas about
    parsing start from; the interval parser never formats a number. */
module Decimal {
  import opened Wrappers

  /** Largest value of a Rust `u64`. */
  const U64_MAX: nat := 0xFFFF_FFFF_FFFF_FFFF

  /** The kinds of `core::num::ParseIntError` that an unsigned parse can report. */
  datatype ParseIntError = Empty | InvalidDigit | PosOverflow

  predicate IsDigit(c: char) {
    '0' <= c <= '9'
  }

  function DigitValue(c: char): (d: nat)
    requires IsDigit(c)
    ensures d < 10
  {
    (c as int) - ('0' as int)
  }

  predicate AllDigits(s: string) {
    forall i :: 0 <= i < |s| ==> IsDigit(s[i])
  }

  function Pow10(k: nat): (p: nat)
    ensures p >= 1
  {
    if k == 0 then 1 else 10 * Pow10(k - 1)
  }

  /** Positional value of a digit string, most significant digit first:
      the reference meaning of decimal notation. */
  function DigitsValue(s: string): nat
    requires AllDigits(s)
  {
    if s == [] then 0 else 10 * DigitsValue(s[..|s| - 1]) + DigitValue(s[|s| - 1])
  }

  /** The digit loop of `from_str`, left to right, starting from `acc`.
      Per byte it first rejects a non-digit, then reports overflow of
      `acc * 10 + digit`, exactly in that order. */
  function ParseDigitsFrom(s: string, acc: nat): (r: Result<nat, ParseIntError>)
    requires acc <= U64_MAX
    ensures r != Err(Empty)
    ensures r.Ok? ==> acc <= r.value <= U64_MAX
    decreases |s|
  {
    if s == [] then Ok(acc)
    else if !IsDigit(s[0]) then Err(InvalidDigit)
    else if acc * 10 + DigitValue(s[0]) > U64_MAX then Err(PosOverflow)
    else ParseDigitsFrom(s[1..], acc * 10 + DigitValue(s[0]))
  }

  /** `s.parse::<u64>()`: an empty string is `Empty`; one leading `+` is
      accepted, but a `+` (or `-`) on its own is `InvalidDigit`; a `-` before
      digits is an invalid digit for an unsigned type. */
  function ParseU64(s: string): (r: Result<nat, ParseIntError>)
    ensures r == Err(Empty) <==> s == []
  {
    if s == [] then Err(Empty)
    else if |s| == 1 && (s[0] == '+' || s[0] == '-') then Err(InvalidDigit)
    else if s[0] == '+' then ParseDigitsFrom(s[1..], 0)
    else ParseDigitsFrom(s, 0)
  }

  /** The digits `from_str` reads: `s` without its one optional leading `+`. */
  function Unsigned(s: string): string {
    if |s| > 0 && s[0] == '+' then s[1..] else s
  }

  /** The reference condition for a successful parse, stated without the
      digit loop: a non-empty run of digits (after an optional `+`) whose
      positional value fits in 64 bits. */
  predicate IsU64Text(s: string) {
    var d := Unsigned(s);
    d != [] && AllDigits(d) && DigitsValue(d) <= U64_MAX
  }

  /** `n.to_string()`: decimal digits without sign or leading zeros. */
  function ToDecimal(n: nat): string
    decreases n
  {
    if n < 10 then [('0' as int + n) as char]
    else ToDecimal(n / 10) + [('0' as int + n % 10) as char]
  }

  // ---------------------------------------------------------------------
  // Properties of the digit loop

  lemma DigitsValueAppend(s: string, c: char)
    requires AllDigits(s) && IsDigit(c)
    ensures AllDigits(s + [c])
    ensures DigitsValue(s + [c]) == 10 * DigitsValue(s) + DigitValue(c)
  {
    assert (s + [c])[..|s + [c]| - 1] == s;
  }

  /** Positional value of a concatenation: the left part is shifted by the
      length of the right part. */
  lemma {:induction false} DigitsValueConcat(a: string, b: string)
    requires AllDigits(a) && AllDigits(b)
    ensures AllDigits(a + b)
    ensures DigitsValue(a + b) == DigitsValue(a) * Pow10(|b|) + DigitsValue(b)
    decreases |b|
  {
    if b == [] {
      assert a + b == a;
    } else {
      var init, last := b[..|b| - 1], b[|b| - 1];
      assert b == init + [last];
      assert AllDigits(init);
      assert a + b == (a + init) + [last];
      DigitsValueConcat(a, init);
      DigitsValueAppend(a + init, last);
      var x, v, p, l := DigitsValue(a + init), DigitsValue(init), Pow10(|init|), DigitValue(last);
      assert DigitsValue(a + b) == 10 * x + l;
      assert DigitsValue(b) == 10 * v + l;
      assert Pow10(|b|) == 10 * p;
      ShiftDigit(DigitsValue(a), p, v, l);
    }
  }

  /** A single digit's positional value is the digit. */
  lemma SingleDigit(c: char)
    requires IsDigit(c)
    ensures AllDigits([c]) && DigitsValue([c]) == DigitValue(c)
  {
    assert [c][..0] == [];
  }

  /** Arithmetic behind `DigitsValueConcat`: appending a digit on the right
      shifts the left part's weight by one place. */
  lemma ShiftDigit(d: int, p: int, v: int, l: int)
    ensures 10 * (d * p + v) + l == d * (10 * p) + (10 * v + l)
  {
  }

  /** One step of the digit loop: `acc` followed by `c` then `rest` is the
      same as `acc * 10 + c` followed by `rest`. */
  lemma StepValue(acc: nat, c: char, rest: string)
    requires IsDigit(c) && AllDigits(rest)
    ensures AllDigits([c] + rest)
    ensures acc * Pow10(|[c] + rest|) + DigitsValue([c] + rest)
            == (acc * 10 + DigitValue(c)) * Pow10(|rest|) + DigitsValue(rest)
  {
    SingleDigit(c);
    DigitsValueConcat([c], rest);
    var d, p, v := DigitValue(c), Pow10(|rest|), DigitsValue(rest);
    assert DigitsValue([c] + rest) == d * p + v;
    assert Pow10(|[c] + rest|) == 10 * p;
    Regroup(acc, d, p, v);
  }

  /** Arithmetic behind `StepValue`. */
  lemma Regroup(acc: int, d: int, p: int, v: int)
    ensures acc * (10 * p) + (d * p + v) == (acc * 10 + d) * p + v
  {
  }

  /** The running value of the loop never decreases. */
  lemma ScaledAtLeast(x: nat, k: nat)
    ensures x <= x * Pow10(k)
  {
  }

  /** The loop computes `acc * 10^|s| + DigitsValue(s)`, and it succeeds
      exactly when every character is a digit and that value fits in 64 bits
      (the running value never decreases, so no intermediate step overflows
      unless the final one would). */
  lemma {:induction false} ParseDigitsFromMeaning(s: string, acc: nat)
    requires acc <= U64_MAX
    ensures ParseDigitsFrom(s, acc).Ok? <==>
              AllDigits(s) && acc * Pow10(|s|) + DigitsValue(s) <= U64_MAX
    ensures ParseDigitsFrom(s, acc).Ok? ==>
              ParseDigitsFrom(s, acc).value == acc * Pow10(|s|) + DigitsValue(s)
    decreases |s|
  {
    if s == [] {
    } else {
      var c, rest := s[0], s[1..];
      assert s == [c] + rest;
      if !IsDigit(c) {
        assert !AllDigits(s);
      } else {
        var next := acc * 10 + DigitValue(c);
        assert AllDigits(s) <==> AllDigits(rest);
        if AllDigits(rest) {
          StepValue(acc, c, rest);
          ScaledAtLeast(next, |rest|);
        }
        if next <= U64_MAX {
          ParseDigitsFromMeaning(rest, next);
        }
      }
    }
  }

  /** `parse::<u64>` succeeds exactly on the reference condition, and then
      yields the positional value of the digits. */
  lemma ParseU64Meaning(s: string)
    ensures ParseU64(s).Ok? <==> IsU64Text(s)
    ensures ParseU64(s).Ok? ==> ParseU64(s).value == DigitsValue(Unsigned(s))
  {
    if s == [] {
    } else if |s| == 1 && (s[0] == '+' || s[0] == '-') {
      assert !IsDigit(s[0]);
    } else {
      ParseDigitsFromMeaning(Unsigned(s), 0);
    }
  }

  /** A successful parse never exceeds the 64-bit range. */
  lemma ParseU64Bounded(s: string)
    ensures ParseU64(s).Ok? ==> ParseU64(s).value <= U64_MAX
  {
    ParseU64Meaning(s);
  }

  // ---------------------------------------------------------------------
  // Round trip with `to_string`

  lemma {:induction false} ToDecimalMeaning(n: nat)
    ensures ToDecimal(n) != [] && AllDigits(ToDecimal(n))
    ensures DigitsValue(ToDecimal(n)) == n
    ensures ToDecimal(n)[0] != '+'
    decreases n
  {
    var last := ('0' as int + n % 10) as char;
    if n < 10 {
      assert DigitValue(last) == n;
      assert ToDecimal(n) == [] + [last];
      DigitsValueAppend([], last);
    } else {
      ToDecimalMeaning(n / 10);
      assert DigitValue(last) == n % 10;
      DigitsValueAppend(ToDecimal(n / 10), last);
    }
  }

  /** Parsing what `to_string` printed gives back the number, for every
      value of the type. */
  lemma ParseToDecimal(n: nat)
    requires n <= U64_MAX
    ensures ParseU64(ToDecimal(n)) == Ok(n)
  {
    ToDecimalMeaning(n);
    ParseU64Meaning(ToDecimal(n));
  }

  /** Parsing also accepts the same digits behind one `+`. */
  lemma ParsePlusDecimal(n: nat)
    requires n <= U64_MAX
    ensures ParseU64(['+'] + ToDecimal(n)) == Ok(n)
  {
    ToDecimalMeaning(n);
    assert Unsigned(['+'] + ToDecimal(n)) == ToDecimal(n);
    ParseU64Meaning(['+'] + ToDecimal(n));
  }

  /** Values beyond `u64::MAX` are rejected as overflow, not wrapped. */
  lemma ParseTooLarge(n: nat)
    requires n > U64_MAX
    ensures ParseU64(ToDecimal(n)) == Err(PosOverflow)
  {
    ToDecimalMeaning(n);
    ParseDigitsOverflow(ToDecimal(n), 0);
  }

  /** On an all-digit string whose value is too large, the error is
      `PosOverflow` (never `InvalidDigit`). */
  lemma {:induction false} ParseDigitsOverflow(s: string, acc: nat)
    requires acc <= U64_MAX && AllDigits(s)
    requires acc * Pow10(|s|) + DigitsValue(s) > U64_MAX
    ensures ParseDigitsFrom(s, acc) == Err(PosOverflow)
    decreases |s|
  {
    if s == [] {
    } else {
      var c, rest := s[0], s[1..];
      assert s == [c] + rest;
      assert AllDigits(rest);
      var next := acc * 10 + DigitValue(c);
      if next <= U64_MAX {
        StepValue(acc, c, rest);
        ParseDigitsOverflow(rest, next);
      }
    }
  }

  /** A string that does not start with a digit or `+` is an invalid digit. */
  lemma ParseNonDigitStart(s: string)
    requires |s| > 0 && !IsDigit(s[0]) && s[0] != '+'
    ensures ParseU64(s) == Err(InvalidDigit)
  {
  }
}
