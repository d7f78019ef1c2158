/** `parse_interval` of src/main.rs: an endpoint's polling interval, written
    as a decimal count followed by a one-character unit, converted to whole
    seconds. Every `unwrap` and the `panic!` of the source is an error value
    here. */
module Interval {
  import opened Wrappers
  import opened Decimal

  /** Why the source would abort on an interval string. */
  datatype IntervalError =
    | MissingUnit                    // `pop()` on an empty string yields `None`
    | BadCount(cause: ParseIntError) // the prefix is not a `u64`
    | MulOverflow                    // `value * 60` or `* 60 * 60` leaves `u64`
    | BadUnit(unit: char)            // "Invalid interval unit"

  /** The unit, as `String::pop` removes it: the last character. */
  function Unit(interval: string): char
    requires interval != []
  {
    interval[|interval| - 1]
  }

  /** What is left once the unit is popped: the count text. */
  function CountText(interval: string): string
    requires interval != []
  {
    interval[..|interval| - 1]
  }

  /** Checked `u64` multiplication; overflow aborts a debug build. */
  function MulU64(a: nat, b: nat): Result<nat, IntervalError> {
    if a * b > U64_MAX then Err(MulOverflow) else Ok(a * b)
  }

  /** `parse_interval(interval)`: pop the unit, parse the rest as `u64`, then
      scale by the unit. The count is parsed before the unit is inspected, so
      a bad count wins over a bad unit. `h` multiplies by 60 twice, as the
      source does. */
  function ParseInterval(interval: string): (r: Result<nat, IntervalError>)
    ensures r == Err(MissingUnit) <==> interval == []
  {
    if interval == [] then Err(MissingUnit)
    else
      match ParseU64(CountText(interval))
      case Err(e) => Err(BadCount(e))
      case Ok(count) =>
        match Unit(interval)
        case 's' => Ok(count)
        case 'm' => MulU64(count, 60)
        case 'h' =>
          (match MulU64(count, 60)
           case Err(e) => Err(e)
           case Ok(minutes) => MulU64(minutes, 60))
        case _ => Err(BadUnit(Unit(interval)))
  }

  // ---------------------------------------------------------------------
  // Reference definition

  /** Seconds per unit, for the three units the source accepts. */
  function UnitSeconds(unit: char): Option<nat> {
    if unit == 's' then Some(1)
    else if unit == 'm' then Some(60)
    else if unit == 'h' then Some(3600)
    else None
  }

  /** The accepted intervals, stated without the parser: a count that is
      `u64` text, one of the three units, and a product that fits. */
  predicate ValidInterval(interval: string) {
    && interval != []
    && IsU64Text(CountText(interval))
    && UnitSeconds(Unit(interval)).Some?
    && DigitsValue(Unsigned(CountText(interval))) * UnitSeconds(Unit(interval)).value <= U64_MAX
  }

  /** The parser accepts exactly the valid intervals, and the seconds it
      returns are the count times the unit's length. */
  lemma ParseIntervalMeaning(interval: string)
    ensures ParseInterval(interval).Ok? <==> ValidInterval(interval)
    ensures ParseInterval(interval).Ok? ==>
              ParseInterval(interval).value
              == DigitsValue(Unsigned(CountText(interval))) * UnitSeconds(Unit(interval)).value
    ensures ParseInterval(interval).Ok? ==> ParseInterval(interval).value <= U64_MAX
  {
    if interval != [] {
      ParseU64Meaning(CountText(interval));
      if ParseU64(CountText(interval)).Ok? {
        var count := ParseU64(CountText(interval)).value;
        if Unit(interval) == 'h' {
          HoursOverflow(count);
        }
      }
    }
  }

  /** Multiplying by 60 twice overflows exactly when multiplying by 3600 does. */
  lemma HoursOverflow(count: nat)
    ensures MulU64(count, 60).Ok? ==> MulU64(MulU64(count, 60).value, 60) == MulU64(count, 3600)
    ensures MulU64(count, 60).Err? ==> count * 3600 > U64_MAX
  {
    assert (count * 60) * 60 == count * 3600;
  }

  /** `"<n>s"` is `n` seconds for every `u64` `n`. */
  lemma SecondsInterval(n: nat)
    requires n <= U64_MAX
    ensures ParseInterval(ToDecimal(n) + ['s']) == Ok(n)
  {
    var interval := ToDecimal(n) + ['s'];
    assert CountText(interval) == ToDecimal(n);
    ParseToDecimal(n);
  }

  /** `"<n>m"` is `60 * n` seconds, or an overflow error when that leaves `u64`. */
  lemma MinutesInterval(n: nat)
    requires n <= U64_MAX
    ensures ParseInterval(ToDecimal(n) + ['m'])
            == if 60 * n <= U64_MAX then Ok(60 * n) else Err(MulOverflow)
  {
    var interval := ToDecimal(n) + ['m'];
    assert CountText(interval) == ToDecimal(n);
    ParseToDecimal(n);
  }

  /** `"<n>h"` is `3600 * n` seconds, or an overflow error when that leaves `u64`. */
  lemma HoursInterval(n: nat)
    requires n <= U64_MAX
    ensures ParseInterval(ToDecimal(n) + ['h'])
            == if 3600 * n <= U64_MAX then Ok(3600 * n) else Err(MulOverflow)
  {
    var interval := ToDecimal(n) + ['h'];
    assert CountText(interval) == ToDecimal(n);
    ParseToDecimal(n);
    HoursOverflow(n);
  }

  /** A count too large for `u64` is a parse error, whatever the unit. */
  lemma CountTooLarge(n: nat, unit: char)
    requires n > U64_MAX
    ensures ParseInterval(ToDecimal(n) + [unit]) == Err(BadCount(PosOverflow))
  {
    var interval := ToDecimal(n) + [unit];
    assert CountText(interval) == ToDecimal(n);
    ParseTooLarge(n);
  }

  /** With a well-formed count (any `u64` text, a leading `+` or leading
      zeros included), any unit other than `s`, `m`, `h` is rejected and
      reported. */
  lemma UnknownUnit(interval: string)
    requires interval != [] && IsU64Text(CountText(interval))
    requires UnitSeconds(Unit(interval)).None?
    ensures ParseInterval(interval) == Err(BadUnit(Unit(interval)))
  {
    ParseU64Meaning(CountText(interval));
  }

  /** The count is checked before the unit: a malformed count is reported
      as such even when the unit is also wrong. */
  lemma BadCountFirst(interval: string)
    requires interval != [] && !IsU64Text(CountText(interval))
    ensures ParseInterval(interval).Err? && ParseInterval(interval).error.BadCount?
  {
    ParseU64Meaning(CountText(interval));
  }

  /** Malformed intervals from the edge of the input space are errors,
      never values. */
  lemma MalformedIntervals()
    ensures ParseInterval("") == Err(MissingUnit)
    ensures ParseInterval("s") == Err(BadCount(Empty))
    ensures ParseInterval("+s") == Err(BadCount(InvalidDigit))
    ensures ParseInterval("x5m") == Err(BadCount(InvalidDigit))
    ensures ParseInterval("-5m") == Err(BadCount(InvalidDigit))
    ensures ParseInterval("5x") == Err(BadUnit('x'))
    ensures ParseInterval("+30s") == Ok(30)
    ensures ParseInterval("0s") == Ok(0)
  {
    assert CountText("s") == [];
    assert CountText("+s") == "+";
    assert CountText("x5m") == "x5";
    assert CountText("-5m") == "-5";
    assert CountText("5x") == "5";
    assert CountText("+30s") == "+30";
    assert ParseDigitsFrom("30", 0) == Ok(30) by {
      assert "30"[1..] == "0";
      assert ParseDigitsFrom("0", 3) == Ok(30) by { assert "0"[1..] == []; }
    }
    assert CountText("0s") == "0";
    assert ParseDigitsFrom("0", 0) == Ok(0) by { assert "0"[1..] == []; }
  }
}
