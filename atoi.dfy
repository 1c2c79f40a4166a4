/**
 * bes_atoi of bes/foundation/string.c: a state machine whose state is a
 * word of flag bits, stepped once per byte, with the decimal value
 * accumulated alongside and the sign applied once the machine stops.
 */
module Atoi {

  import opened CStrings

  /** The flag bits of the state word `abc`. */
  const CONTINUE: bv8 := 1
  const DIGITS: bv8 := 2
  const SIGN: bv8 := 4
  const ACCUMULATE: bv8 := 8
  const NEGATIVE: bv8 := 16

  /** The states reached before any digit: at the start, after '+', after '-'. */
  const START: bv8 := 1
  const AFTER_PLUS: bv8 := 5
  const AFTER_MINUS: bv8 := 21

  const MINUS: bv8 := 45
  const PLUS: bv8 := 43
  const SPACE: bv8 := 32
  const TAB: bv8 := 9

  /** The largest value of a C int on the targets of the library (32 bits). */
  const INT_MAX: int := 0x7FFF_FFFF

  predicate IsDigit(ch: bv8) {
    47 < ch < 58
  }

  predicate IsBlank(ch: bv8) {
    ch == SPACE || ch == TAB
  }

  /** The value of a decimal digit, by cases. */
  function Digit(ch: bv8): (d: int)
    requires IsDigit(ch)
    ensures 0 <= d <= 9
  {
    if ch == 48 then 0 else if ch == 49 then 1 else if ch == 50 then 2
    else if ch == 51 then 3 else if ch == 52 then 4 else if ch == 53 then 5
    else if ch == 54 then 6 else if ch == 55 then 7 else if ch == 56 then 8 else 9
  }

  /** The value of a digit is its code less that of '0', as bes_atoi computes it. */
  lemma DigitIsOffset(ch: bv8)
    requires IsDigit(ch)
    ensures Digit(ch) == ch as int - 48
  {
  }

  /**
   * One step of the flag machine on the byte ch. Only a digit sets
   * ACCUMULATE, and the terminator always stops the machine.
   */
  function Step(abc: bv8, ch: bv8): (r: bv8)
    ensures r & ACCUMULATE != 0 <==> IsDigit(ch)
    ensures ch == NUL ==> r & CONTINUE == 0
  {
    if ch == MINUS then
      (if abc & 6 != 0 then abc & 6 else (abc & 23) | 20)
    else if ch == PLUS then
      (if abc & 6 != 0 then abc & 6 else (abc & 7) | 4)
    else if IsDigit(ch) then
      abc | 10
    else if abc & 2 == 0 && IsBlank(ch) then
      (abc & 23) | 1
    else
      abc & 22
  }

  /** The machine's final flags and the accumulated magnitude. */
  datatype Scanned = Scanned(flags: bv8, magnitude: int)

  /**
   * Runs the machine over s from state abc with ret accumulated so far,
   * until it stops. It never steps past the terminator, and the magnitude
   * only grows.
   */
  function Scan(s: seq<bv8>, abc: bv8, ret: int): (r: Scanned)
    requires NUL in s
    ensures r.flags & CONTINUE == 0
    ensures ret >= 0 ==> ret <= r.magnitude
    decreases |s|
  {
    var flags := Step(abc, s[0]);
    var acc := if flags & ACCUMULATE != 0 then ret * 10 + Digit(s[0]) else ret;
    if flags & CONTINUE != 0 then
      assert s == [s[0]] + s[1..];
      Scan(s[1..], flags, acc)
    else
      Scanned(flags, acc)
  }

  /** What bes_atoi returns for the C string s: the magnitude, negated when NEGATIVE is set at the end. */
  function Value(s: seq<bv8>): (v: int)
    requires NUL in s
    ensures v == Scan(s, START, 0).magnitude || v == -Scan(s, START, 0).magnitude
    ensures v < 0 ==> Scan(s, START, 0).flags & NEGATIVE != 0
    ensures v > 0 ==> Scan(s, START, 0).flags & NEGATIVE == 0
  {
    var r := Scan(s, START, 0);
    if r.flags & NEGATIVE != 0 then -r.magnitude else r.magnitude
  }

  /**
   * bes_atoi. The caller must keep the magnitude small enough that
   * `ret * 10 + *str` never overflows an int.
   */
  method Atoi(str: seq<bv8>) returns (v: int)
    requires NUL in str
    requires Scan(str, START, 0).magnitude + 48 <= INT_MAX
    ensures v == Value(str)
  {
    var abc: bv8 := START;
    var ret := 0;
    var i := 0;
    while abc & CONTINUE != 0
      invariant 0 <= ret
      invariant abc & CONTINUE != 0 ==> i < |str| && NUL in str[i..] && Scan(str[i..], abc, ret) == Scan(str, START, 0)
      invariant abc & CONTINUE == 0 ==> Scanned(abc, ret) == Scan(str, START, 0)
      decreases |str| - i
    {
      assert str[i..] == [str[i]] + str[i + 1..];
      abc := Step(abc, str[i]);
      if abc & ACCUMULATE != 0 {
        DigitIsOffset(str[i]);
        assert ret * 10 + str[i] as int <= INT_MAX;
        ret := ret * 10 + str[i] as int - 48;
      }
      i := i + 1;
    }
    v := if abc & NEGATIVE != 0 then -ret else ret;
  }

  /** The value of a digit string, most significant digit first. */
  function Decimal(d: seq<bv8>): int
    requires forall k :: 0 <= k < |d| ==> IsDigit(d[k])
  {
    if |d| == 0 then 0 else 10 * Decimal(d[..|d| - 1]) + Digit(d[|d| - 1])
  }

  function Pow10(n: nat): (p: nat)
    ensures p >= 1
  {
    if n == 0 then 1 else 10 * Pow10(n - 1)
  }

  /** The machine's accumulation of the digits d onto ret, one step per digit. */
  function Accumulate(ret: int, d: seq<bv8>): int
    requires forall k :: 0 <= k < |d| ==> IsDigit(d[k])
    decreases |d|
  {
    if |d| == 0 then ret else Accumulate(ret * 10 + Digit(d[0]), d[1..])
  }

  /** Accumulating digits shifts ret left by their count and adds their decimal value. */
  lemma {:induction false} AccumulateIsDecimal(ret: int, d: seq<bv8>)
    requires forall k :: 0 <= k < |d| ==> IsDigit(d[k])
    ensures Accumulate(ret, d) == ret * Pow10(|d|) + Decimal(d)
    decreases |d|
  {
    if |d| > 0 {
      var acc := ret * 10 + Digit(d[0]);
      var p := Pow10(|d| - 1);
      AccumulateIsDecimal(acc, d[1..]);
      DecimalOfTail(d);
      calc {
        Accumulate(ret, d);
        Accumulate(acc, d[1..]);
        acc * p + Decimal(d[1..]);
        { ShiftDigit(ret, Digit(d[0]), p); }
        ret * (10 * p) + (Digit(d[0]) * p + Decimal(d[1..]));
        ret * Pow10(|d|) + Decimal(d);
      }
    }
  }

  lemma ShiftDigit(ret: int, digit: int, p: int)
    ensures (ret * 10 + digit) * p == ret * (10 * p) + digit * p
  {
    calc {
      (ret * 10 + digit) * p;
      (ret * 10) * p + digit * p;
      ret * (10 * p) + digit * p;
    }
  }

  /** Splitting the leading digit off a digit string. */
  lemma {:induction false} DecimalOfTail(d: seq<bv8>)
    requires |d| > 0 && forall k :: 0 <= k < |d| ==> IsDigit(d[k])
    ensures Decimal(d) == Digit(d[0]) * Pow10(|d| - 1) + Decimal(d[1..])
    decreases |d|
  {
    if |d| > 1 {
      var init := d[..|d| - 1];
      var p := Pow10(|d| - 2);
      DecimalOfTail(init);
      assert init[1..] == d[1..][..|d| - 2];
      assert init[0] == d[0];
      assert d[1..][|d| - 2] == d[|d| - 1];
      assert 10 * (Digit(d[0]) * p) == Digit(d[0]) * (10 * p);
    }
  }

  /** Blanks leave a state that has seen no digit unchanged. */
  lemma {:induction false} ScanBlanks(b: seq<bv8>, t: seq<bv8>, abc: bv8, ret: int)
    requires forall k :: 0 <= k < |b| ==> IsBlank(b[k])
    requires abc == START || abc == AFTER_PLUS || abc == AFTER_MINUS
    requires NUL in t
    ensures NUL in b + t && Scan(b + t, abc, ret) == Scan(t, abc, ret)
    decreases |b|
  {
    assert (b + t)[|b|..] == t;
    if |b| > 0 {
      assert Step(abc, b[0]) == abc;
      assert (b + t)[1..] == b[1..] + t;
      ScanBlanks(b[1..], t, abc, ret);
    }
  }

  /** A run of digits sets DIGITS and ACCUMULATE and accumulates its value. */
  lemma {:induction false} ScanDigits(d: seq<bv8>, t: seq<bv8>, abc: bv8, ret: int)
    requires |d| > 0 && forall k :: 0 <= k < |d| ==> IsDigit(d[k])
    requires abc & CONTINUE != 0
    requires NUL in t
    ensures NUL in d + t && Scan(d + t, abc, ret) == Scan(t, abc | 10, Accumulate(ret, d))
    decreases |d|
  {
    assert (d + t)[|d|..] == t;
    assert (d + t)[1..] == d[1..] + t;
    var acc := ret * 10 + Digit(d[0]);
    StepOnDigit(abc, d[0]);
    assert Scan(d + t, abc, ret) == Scan(d[1..] + t, abc | 10, acc);
    if |d| > 1 {
      ScanDigits(d[1..], t, abc | 10, acc);
    } else {
      assert d[1..] + t == t;
    }
  }

  /** A digit sets DIGITS and ACCUMULATE and keeps the machine going. */
  lemma StepOnDigit(abc: bv8, ch: bv8)
    requires IsDigit(ch) && abc & CONTINUE != 0
    ensures Step(abc, ch) == abc | 10
    ensures (abc | 10) & CONTINUE != 0 && (abc | 10) | 10 == abc | 10
  {
  }

  /**
   * After digits, the first non-digit stops the machine. A sign byte there
   * clears NEGATIVE; any other byte keeps it.
   */
  lemma StopAfterDigits(t: seq<bv8>, abc: bv8, ret: int)
    requires NUL in t && !IsDigit(t[0])
    requires abc & DIGITS != 0
    ensures Scan(t, abc, ret) == Scanned(Step(abc, t[0]), ret)
    ensures Step(abc, t[0]) & CONTINUE == 0
    ensures Step(abc, t[0]) & NEGATIVE != 0 <==> abc & NEGATIVE != 0 && t[0] != MINUS && t[0] != PLUS
  {
  }

  /** Leading blanks are skipped. */
  lemma AtoiSkipsLeadingBlanks(b: seq<bv8>, t: seq<bv8>)
    requires forall k :: 0 <= k < |b| ==> IsBlank(b[k])
    requires NUL in t
    ensures NUL in b + t && Value(b + t) == Value(t)
  {
    ScanBlanks(b, t, START, 0);
  }

  /** Unsigned digits give their decimal value, whatever non-digit follows them. */
  lemma AtoiDigits(d: seq<bv8>, t: seq<bv8>)
    requires |d| > 0 && forall k :: 0 <= k < |d| ==> IsDigit(d[k])
    requires NUL in t && !IsDigit(t[0])
    ensures NUL in d + t && Value(d + t) == Decimal(d)
  {
    ScanDigits(d, t, START, 0);
    StopAfterDigits(t, START | 10, Accumulate(0, d));
    AccumulateIsDecimal(0, d);
  }

  /**
   * A sign, blanks, then digits: '-' negates the value unless the digits
   * are ended by another sign byte, which drops the minus ("-5-" gives 5).
   */
  lemma AtoiSigned(sign: bv8, b: seq<bv8>, d: seq<bv8>, t: seq<bv8>)
    requires sign == MINUS || sign == PLUS
    requires forall k :: 0 <= k < |b| ==> IsBlank(b[k])
    requires |d| > 0 && forall k :: 0 <= k < |d| ==> IsDigit(d[k])
    requires NUL in t && !IsDigit(t[0])
    ensures NUL in [sign] + (b + (d + t))
    ensures Value([sign] + (b + (d + t))) ==
      if sign == MINUS && t[0] != MINUS && t[0] != PLUS then -Decimal(d) else Decimal(d)
  {
    var state := if sign == MINUS then AFTER_MINUS else AFTER_PLUS;
    ScanDigits(d, t, state, 0);
    ScanBlanks(b, d + t, state, 0);
    ScanSign(sign, b + (d + t));
    StopAfterDigits(t, state | 10, Accumulate(0, d));
    AccumulateIsDecimal(0, d);
  }

  /** A leading sign moves the machine from START to AFTER_MINUS or AFTER_PLUS. */
  lemma ScanSign(sign: bv8, rest: seq<bv8>)
    requires sign == MINUS || sign == PLUS
    requires NUL in rest
    ensures NUL in [sign] + rest
    ensures Scan([sign] + rest, START, 0) == Scan(rest, if sign == MINUS then AFTER_MINUS else AFTER_PLUS, 0)
  {
    assert ([sign] + rest)[1..] == rest;
  }

  /** A second sign before any digit stops the machine with nothing accumulated. */
  lemma AtoiTwoSigns(first: bv8, second: bv8, t: seq<bv8>)
    requires (first == MINUS || first == PLUS) && (second == MINUS || second == PLUS)
    requires NUL in t
    ensures NUL in [first, second] + t && Value([first, second] + t) == 0
  {
    assert [first, second] + t == [first] + ([second] + t);
    ScanSign(first, [second] + t);
  }

  /** "-5-" gives 5: the second '-' drops the sign. */
  lemma AtoiDroppedMinusExample()
    ensures Value([45, 53, 45, 0]) == 5
  {
  }
}
