/**
 * The uptime rendering of APInfo.getUptime: a count of seconds since boot
 * cut into whole days, hours, minutes and seconds, shown as
 * "<days>d, <hours>:<minutes>+<seconds>s".
 */
module Uptime {
  import opened Arith
  import opened Text

  const SECONDS_PER_MINUTE: nat := 60
  const SECONDS_PER_HOUR: nat := 3600
  const SECONDS_PER_DAY: nat := 86400

  datatype Duration = Duration(days: nat, hours: nat, minutes: nat, seconds: nat)

  /** `d` adds up to `total` seconds and every unit below days is in range. */
  predicate IsSplitOf(d: Duration, total: nat)
  {
    d.days * SECONDS_PER_DAY + d.hours * SECONDS_PER_HOUR + d.minutes * SECONDS_PER_MINUTE + d.seconds == total &&
    d.hours < 24 && d.minutes < 60 && d.seconds < 60
  }

  /** The split of `total` by quotient and remainder. */
  function Decompose(total: nat): (d: Duration)
    ensures IsSplitOf(d, total)
  {
    DecomposeSums(total);
    Duration(total / SECONDS_PER_DAY, total % SECONDS_PER_DAY / SECONDS_PER_HOUR,
             total % SECONDS_PER_HOUR / SECONDS_PER_MINUTE, total % SECONDS_PER_MINUTE)
  }

  lemma DecomposeSums(total: nat)
    ensures var h, m := total % SECONDS_PER_DAY / SECONDS_PER_HOUR, total % SECONDS_PER_HOUR / SECONDS_PER_MINUTE;
      (total / SECONDS_PER_DAY) * SECONDS_PER_DAY + h * SECONDS_PER_HOUR + m * SECONDS_PER_MINUTE +
      total % SECONDS_PER_MINUTE == total && h < 24 && m < 60
  {
    var q, r := total / 86400, total % 86400;
    var h, r2 := r / 3600, r % 3600;
    assert r == 3600 * h + r2;
    DivUnique(total, 3600, 24 * q + h, r2);
    var m, s := r2 / 60, r2 % 60;
    DivUnique(total, 60, 1440 * q + 60 * h + m, s);
  }

  /** A count of seconds has exactly one split. */
  lemma SplitUnique(d: Duration, total: nat)
    requires IsSplitOf(d, total)
    ensures d == Decompose(total)
  {
    var belowDay := d.hours * SECONDS_PER_HOUR + d.minutes * SECONDS_PER_MINUTE + d.seconds;
    DivUnique(total, SECONDS_PER_DAY, d.days, belowDay);
    var belowHour := d.minutes * SECONDS_PER_MINUTE + d.seconds;
    DivUnique(belowDay, SECONDS_PER_HOUR, d.hours, belowHour);
    DivUnique(total, SECONDS_PER_HOUR, d.days * 24 + d.hours, belowHour);
    DivUnique(belowHour, SECONDS_PER_MINUTE, d.minutes, d.seconds);
    DivUnique(total, SECONDS_PER_MINUTE, d.days * 1440 + d.hours * 60 + d.minutes, d.seconds);
  }

  /**
   * The steps of getUptime: take whole days off the remainder, then whole
   * hours, then whole minutes; what is left is the seconds.
   */
  method SplitSeconds(total: nat) returns (d: Duration)
    ensures IsSplitOf(d, total)
  {
    var remainder := total;
    var days := remainder / SECONDS_PER_DAY;
    remainder := remainder - days * SECONDS_PER_DAY;
    var hours := remainder / SECONDS_PER_HOUR;
    remainder := remainder - hours * SECONDS_PER_HOUR;
    var minutes := remainder / SECONDS_PER_MINUTE;
    remainder := remainder - minutes * SECONDS_PER_MINUTE;
    d := Duration(days, hours, minutes, remainder);
  }

  /** "<days>d, <hours>:<minutes>+<seconds>s", each number in plain decimal. */
  function UptimeText(d: Duration): string
  {
    DecimalString(d.days) + "d, " + DecimalString(d.hours) + ":" + DecimalString(d.minutes) + "+" +
    DecimalString(d.seconds) + "s"
  }

  /** The text getUptime returns for `total` seconds. */
  function FormatUptime(total: nat): string
  {
    UptimeText(Decompose(total))
  }

  /** A run of digits followed by a non-digit is fixed by the string it starts. */
  lemma DigitPrefixUnique(a: string, x: string, b: string, y: string)
    requires IsDigits(a) && IsDigits(b)
    requires x != [] && y != [] && !IsDigit(x[0]) && !IsDigit(y[0])
    requires a + x == b + y
    ensures a == b && x == y
  {
    FirstNonDigit(a, x);
    FirstNonDigit(b, y);
    assert |a| == |b|;
    assert a == (a + x)[..|a|] && b == (b + y)[..|b|];
    assert x == (a + x)[|a|..] && y == (b + y)[|b|..];
  }

  /** In a run of digits followed by a non-digit, the first non-digit sits right after the run. */
  lemma FirstNonDigit(a: string, x: string)
    requires IsDigits(a) && x != [] && !IsDigit(x[0])
    ensures forall i :: 0 <= i < |a| ==> IsDigit((a + x)[i])
    ensures !IsDigit((a + x)[|a|])
  {
  }

  /** Two renderings that agree up to a non-digit separator render the same number. */
  lemma PeelNumber(m: nat, n: nat, sep: string, x: string, y: string)
    requires sep != [] && !IsDigit(sep[0])
    requires DecimalString(m) + (sep + x) == DecimalString(n) + (sep + y)
    ensures m == n && x == y
  {
    DigitPrefixUnique(DecimalString(m), sep + x, DecimalString(n), sep + y);
    assert x == (sep + x)[|sep|..] && y == (sep + y)[|sep|..];
    ParseDecimalString(m);
    ParseDecimalString(n);
  }

  lemma Reassociate(a: string, b: string, c: string, d: string, e: string, f: string, g: string, h: string)
    ensures a + b + c + d + e + f + g + h == a + (b + (c + (d + (e + (f + (g + h))))))
  {
  }

  /** Different durations render differently: the text can be read back. */
  lemma UptimeTextInjective(d: Duration, e: Duration)
    requires UptimeText(d) == UptimeText(e)
    ensures d == e
  {
    Reassociate(DecimalString(d.days), "d, ", DecimalString(d.hours), ":", DecimalString(d.minutes), "+",
                DecimalString(d.seconds), "s");
    Reassociate(DecimalString(e.days), "d, ", DecimalString(e.hours), ":", DecimalString(e.minutes), "+",
                DecimalString(e.seconds), "s");
    var m1, n1 := DecimalString(d.seconds) + "s", DecimalString(e.seconds) + "s";
    var m2, n2 := DecimalString(d.minutes) + ("+" + m1), DecimalString(e.minutes) + ("+" + n1);
    var m3, n3 := DecimalString(d.hours) + (":" + m2), DecimalString(e.hours) + (":" + n2);
    PeelNumber(d.days, e.days, "d, ", m3, n3);
    PeelNumber(d.hours, e.hours, ":", m2, n2);
    PeelNumber(d.minutes, e.minutes, "+", m1, n1);
    assert m1 == DecimalString(d.seconds) + ("s" + []) && n1 == DecimalString(e.seconds) + ("s" + []);
    PeelNumber(d.seconds, e.seconds, "s", [], []);
  }

  /** Different uptimes render differently. */
  lemma FormatUptimeInjective(s: nat, t: nat)
    requires FormatUptime(s) == FormatUptime(t)
    ensures s == t
  {
    UptimeTextInjective(Decompose(s), Decompose(t));
  }

  /** Three worked values: one day and one of each smaller unit, zero, and 25 hours. */
  lemma FormatUptimeExamples()
    ensures FormatUptime(90061) == "1d, 1:1+1s"
    ensures FormatUptime(0) == "0d, 0:0+0s"
    ensures FormatUptime(90000) == "1d, 1:0+0s"
  {
    assert Decompose(90061) == Duration(1, 1, 1, 1);
    assert Decompose(90000) == Duration(1, 1, 0, 0);
  }

  /**
   * The uptime text is a plain count of seconds that Double.valueOf parses
   * exactly: decimal digits only, below 2^53.
   */
  predicate IsWholeSeconds(s: string)
  {
    s != [] && IsDigits(s) && ParseDecimal(s) < 0x20_0000_0000_0000
  }
}
