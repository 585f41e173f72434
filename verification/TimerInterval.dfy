/** Interval texts such as "2000", "2s" and "2000ms": parse_interval_ms in src/bas/proc/dbgthread.c. */
module TimerInterval {
  import opened CText
  import opened TimerCadence

  const ULONG_MAX := 0xFFFF_FFFF_FFFF_FFFF

  datatype Number = NoNumber | Number(value: nat, rest: string)

  /** strtoul(s, &end, 10) for a 64-bit unsigned long: clamped on overflow, negated modulo 2^64 after '-'. */
  function Strtoul(s: string): (r: Number)
    ensures r.Number? ==> r.value <= ULONG_MAX
  {
    var t := SkipSpace(s);
    var signed := t != "" && (t[0] == '+' || t[0] == '-');
    var u := if signed then t[1..] else t;
    var n := DigitRun(u);
    if n == 0 then NoNumber
    else
      var magnitude := LeadingNumber(u);
      var value :=
        if magnitude > ULONG_MAX then ULONG_MAX
        else if signed && t[0] == '-' then (ULONG_MAX + 1 - magnitude) % (ULONG_MAX + 1)
        else magnitude;
      Number(value, u[n..])
  }

  /** Milliseconds, or -1. */
  function Interval(s: string): (ms: int)
    ensures ms == -1 || 0 <= ms <= INT_MAX
  {
    match Strtoul(s)
    case NoNumber => -1
    case Number(value, rest) =>
      var unit := SkipBlanks(rest);
      if value > INT_MAX then -1
      else if unit != "" && (unit[0] == 's' || unit[0] == 'S') then
        if value > INT_MAX / 1000 then -1 else value * 1000
      else value
  }

  method ParseIntervalMs(s: string) returns (ms: int)
    ensures ms == Interval(s)
  {
    if s == "" {
      return -1;
    }
    var number := Strtoul(s);
    if number.NoNumber? || number.value > INT_MAX {
      return -1;
    }
    var end := number.rest;
    while end != "" && IsBlank(end[0])
      invariant SkipBlanks(end) == SkipBlanks(number.rest)
      decreases |end|
    {
      end := end[1..];
    }
    if end != "" && (end[0] == 's' || end[0] == 'S') {
      if number.value > INT_MAX / 1000 {
        return -1;
      }
      return number.value * 1000;
    }
    return number.value;
  }

  /** What strtoul makes of n after a sign. */
  function Wrapped(sign: string, n: nat): nat {
    if n > ULONG_MAX then ULONG_MAX
    else if sign == "-" then (ULONG_MAX + 1 - n) % (ULONG_MAX + 1)
    else n
  }

  lemma StrtoulSigned(space: string, sign: string, u: string)
    requires AllSpace(space) && sign in ["", "+", "-"]
    requires sign == "" && u != "" ==> !IsSpace(u[0]) && u[0] != '+' && u[0] != '-'
    ensures Strtoul(space + (sign + u)) ==
      if DigitRun(u) == 0 then NoNumber else Number(Wrapped(sign, LeadingNumber(u)), u[DigitRun(u)..])
  {
    hide Strtoul, LeadingNumber, DigitRun, SkipSpace, Wrapped;
    var t := sign + u;
    assert sign == "" || sign == "+" || sign == "-";
    if sign == "" {
      assert t == u;
    } else {
      assert t[0] == sign[0] && t[1..] == u;
    }
    SkipSpaceIsUnique(space, t);
    AfterSpace(space + t, t, sign, u);
  }

  lemma AfterSpace(s: string, t: string, sign: string, u: string)
    requires SkipSpace(s) == t && (sign == "" || sign == "+" || sign == "-")
    requires if sign == "" then t == u && (u != "" ==> u[0] != '+' && u[0] != '-')
      else t != "" && t[0] == sign[0] && t[1..] == u
    ensures Strtoul(s) ==
      if DigitRun(u) == 0 then NoNumber else Number(Wrapped(sign, LeadingNumber(u)), u[DigitRun(u)..])
  {
    hide LeadingNumber, DigitRun, SkipSpace;
  }

  lemma StrtoulDecimal(space: string, sign: string, n: nat, t: string)
    requires AllSpace(space) && sign in ["", "+", "-"] && (t == "" || !IsDigit(t[0]))
    ensures Strtoul(space + (sign + (Decimal(n) + t))) == Number(Wrapped(sign, n), t)
  {
    hide LeadingNumber, DigitRun, Decimal, Strtoul, Wrapped;
    var u := Decimal(n) + t;
    assert u[0] == Decimal(n)[0];
    StrtoulSigned(space, sign, u);
    DecimalRoundTrip(n, t);
    assert u[|Decimal(n)|..] == t;
  }

  /** Milliseconds of a number and what stands after it. */
  function Scaled(value: nat, seconds: bool): int {
    if seconds then (if value <= 2147483 then 1000 * value else -1)
    else if value <= 2147483647 then value else -1
  }

  /**
    A decimal number, with white space and a sign before it and blanks after it: an 's' or 'S' then
    makes it seconds, anything else is ignored, and what does not fit an int is refused. A minus sign
    wraps the number at 2^64.
   */
  lemma IntervalOf(space: string, sign: string, n: nat, blanks: string, unit: string)
    requires AllSpace(space) && sign in ["", "+", "-"]
    requires forall i :: 0 <= i < |blanks| ==> IsBlank(blanks[i])
    requires unit != "" ==> !IsBlank(unit[0]) && (blanks == "" ==> !IsDigit(unit[0]))
    ensures Interval(space + (sign + (Decimal(n) + (blanks + unit)))) ==
      Scaled(if n > 0xFFFF_FFFF_FFFF_FFFF then 0xFFFF_FFFF_FFFF_FFFF
        else if sign == "-" && n > 0 then 0x1_0000_0000_0000_0000 - n else n, unit != "" && unit[0] in "sS")
  {
    hide Decimal, Strtoul, SkipBlanks;
    var t := blanks + unit;
    assert blanks != "" ==> t[0] == blanks[0];
    assert blanks == "" ==> t == unit;
    StrtoulDecimal(space, sign, n, t);
    SkipBlanksOf(blanks, unit);
  }

  /** Without a digit there is no interval. */
  lemma NoInterval(space: string, sign: string, t: string)
    requires AllSpace(space) && sign in ["", "+", "-"] && (t == "" || !IsDigit(t[0]))
    requires sign == "" && t != "" ==> !IsSpace(t[0]) && t[0] != '+' && t[0] != '-'
    ensures Interval(space + (sign + t)) == -1
  {
    hide Strtoul;
    StrtoulSigned(space, sign, t);
  }

  /**
    The intervals that can be typed and that overflow the accumulator are exactly those from
    2147483601 to INT_MAX: each of them is accepted as typed.
   */
  lemma TypedIntervalIsSafeIff(n: nat)
    requires 0 < n <= INT_MAX
    ensures Interval(Decimal(n)) == n
    ensures (forall k: nat :: Accumulated(Steady(Interval(Decimal(n)), k)) + POLL_MS <= INT_MAX) <==> n <= SAFE_INTERVAL
  {
    hide Decimal;
    IntervalOf("", "", n, "", "");
    assert "" + ("" + (Decimal(n) + ("" + ""))) == Decimal(n);
    OverflowIff(n);
  }
}
