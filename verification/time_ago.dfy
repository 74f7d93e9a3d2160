/** `FormatTimeAgo`: the age of a comment as a short English phrase, in the
    largest unit that fits, tested from years down to minutes. Time is in
    `DateTime` ticks of 100 ns; the current time is a parameter. */
module TimeAgo {
  import opened Wrappers
  import opened Comments

  const TicksPerMinute: nat := 600_000_000
  const TicksPerHour: nat := 60 * TicksPerMinute
  const TicksPerDay: nat := 24 * TicksPerHour

  /** The day counts the thresholds and divisors use. */
  const DaysPerYear: nat := 365
  const DaysPerMonth: nat := 30

  /** The phrase chosen for an elapsed time, with its truncated count. */
  datatype Ago =
    | YearsAgo(years: nat)
    | MonthsAgo(months: nat)
    | DaysAgo(days: nat)
    | HoursAgo(hours: nat)
    | MinutesAgo(minutes: nat)
    | JustNow

  /** The count an `Ago` carries, and the ticks of its unit. */
  function Count(a: Ago): nat {
    match a
    case YearsAgo(n) => n
    case MonthsAgo(n) => n
    case DaysAgo(n) => n
    case HoursAgo(n) => n
    case MinutesAgo(n) => n
    case JustNow => 0
  }

  function Unit(a: Ago): nat {
    match a
    case YearsAgo(_) => DaysPerYear * TicksPerDay
    case MonthsAgo(_) => DaysPerMonth * TicksPerDay
    case DaysAgo(_) => TicksPerDay
    case HoursAgo(_) => TicksPerHour
    case MinutesAgo(_) => TicksPerMinute
    case JustNow => TicksPerMinute
  }

  /** The bucket of an elapsed time of `elapsed` ticks. Each test is a strict
      "more than" on the total in that unit, and each count is the total in
      its unit truncated toward zero, which for these positive totals is the
      floor. A negative elapsed time (a creation time in the future) falls
      through every test. */
  function Bucket(elapsed: int): (a: Ago)
    ensures a.YearsAgo? <==> elapsed > DaysPerYear * TicksPerDay
    ensures a.MonthsAgo? <==> DaysPerMonth * TicksPerDay < elapsed <= DaysPerYear * TicksPerDay
    ensures a.DaysAgo? <==> TicksPerDay < elapsed <= DaysPerMonth * TicksPerDay
    ensures a.HoursAgo? <==> TicksPerHour < elapsed <= TicksPerDay
    ensures a.MinutesAgo? <==> TicksPerMinute < elapsed <= TicksPerHour
    ensures a.JustNow? <==> elapsed <= TicksPerMinute
    ensures !a.JustNow? ==> 1 <= Count(a) && Count(a) * Unit(a) <= elapsed < (Count(a) + 1) * Unit(a)
  {
    if elapsed > DaysPerYear * TicksPerDay then YearsAgo(elapsed / (DaysPerYear * TicksPerDay))
    else if elapsed > DaysPerMonth * TicksPerDay then MonthsAgo(elapsed / (DaysPerMonth * TicksPerDay))
    else if elapsed > TicksPerDay then DaysAgo(elapsed / TicksPerDay)
    else if elapsed > TicksPerHour then HoursAgo(elapsed / TicksPerHour)
    else if elapsed > TicksPerMinute then MinutesAgo(elapsed / TicksPerMinute)
    else JustNow
  }

  /** The counts stay within their unit's range: months 1..12, days 1..30,
      hours 1..24, minutes 1..60, and years at least 1. */
  lemma BucketRanges(elapsed: int)
    ensures var a := Bucket(elapsed);
      && (a.YearsAgo? ==> a.years >= 1)
      && (a.MonthsAgo? ==> 1 <= a.months <= 12)
      && (a.DaysAgo? ==> 1 <= a.days <= 30)
      && (a.HoursAgo? ==> 1 <= a.hours <= 24)
      && (a.MinutesAgo? ==> 1 <= a.minutes <= 60)
  {
    var a := Bucket(elapsed);
    if a.MonthsAgo? {
      assert a.months * (DaysPerMonth * TicksPerDay) <= DaysPerYear * TicksPerDay;
    }
  }

  /** The edges: exactly one minute is still "Just now", exactly one hour is
      "60m ago", exactly one day is "24h ago", exactly 30 days is "30d ago",
      and exactly 365 days is "12mo ago". */
  lemma BucketEdges()
    ensures Bucket(TicksPerMinute) == JustNow
    ensures Bucket(TicksPerHour) == MinutesAgo(60)
    ensures Bucket(TicksPerDay) == HoursAgo(24)
    ensures Bucket(DaysPerMonth * TicksPerDay) == DaysAgo(30)
    ensures Bucket(DaysPerYear * TicksPerDay) == MonthsAgo(12)
  {
  }

  /** The order of the buckets by the size of their unit. */
  function Rank(a: Ago): nat {
    match a
    case JustNow => 0
    case MinutesAgo(_) => 1
    case HoursAgo(_) => 2
    case DaysAgo(_) => 3
    case MonthsAgo(_) => 4
    case YearsAgo(_) => 5
  }

  /** As time passes the bucket never moves to a smaller unit, nor, within
      one unit, to a smaller count. */
  lemma BucketMonotone(e1: int, e2: int)
    requires e1 <= e2
    ensures Rank(Bucket(e1)) <= Rank(Bucket(e2))
    ensures Rank(Bucket(e1)) == Rank(Bucket(e2)) ==> Count(Bucket(e1)) <= Count(Bucket(e2))
  {
    var a1, a2 := Bucket(e1), Bucket(e2);
    if Rank(a1) == Rank(a2) && !a1.JustNow? {
      assert Unit(a1) == Unit(a2);
    }
  }

  // ------------------------------------------------------------- rendering

  function DigitChar(d: nat): char
    requires d < 10
  {
    ['0', '1', '2', '3', '4', '5', '6', '7', '8', '9'][d]
  }

  predicate IsDigit(c: char) {
    '0' <= c <= '9'
  }

  function DigitValue(c: char): nat
    requires IsDigit(c)
  {
    (c as int - '0' as int) as nat
  }

  /** The decimal text of `n` without leading zeros, as string interpolation
      writes an `int`. */
  function NatToString(n: nat): (s: string)
    ensures |s| >= 1 && forall i :: 0 <= i < |s| ==> IsDigit(s[i])
  {
    if n < 10 then [DigitChar(n)] else NatToString(n / 10) + [DigitChar(n % 10)]
  }

  /** The value of a string of decimal digits. */
  function ParseNat(s: string): nat
    requires forall i :: 0 <= i < |s| ==> IsDigit(s[i])
  {
    if |s| == 0 then 0 else 10 * ParseNat(s[..|s| - 1]) + DigitValue(s[|s| - 1])
  }

  lemma {:induction false} ParseNatToString(n: nat)
    ensures ParseNat(NatToString(n)) == n
  {
    var s := NatToString(n);
    if n >= 10 {
      ParseNatToString(n / 10);
      assert s[..|s| - 1] == NatToString(n / 10);
    }
  }

  /** The suffix that follows the count. */
  function Suffix(a: Ago): string {
    match a
    case YearsAgo(_) => "y ago"
    case MonthsAgo(_) => "mo ago"
    case DaysAgo(_) => "d ago"
    case HoursAgo(_) => "h ago"
    case MinutesAgo(_) => "m ago"
    case JustNow => ""
  }

  /** The text `FormatTimeAgo` returns for a bucket. */
  function Render(a: Ago): string {
    if a.JustNow? then "Just now" else NatToString(Count(a)) + Suffix(a)
  }

  /** The length of the longest prefix of `s` made of digits. */
  function DigitPrefix(s: string): (n: nat)
    ensures n <= |s|
    ensures forall i :: 0 <= i < n ==> IsDigit(s[i])
    ensures n < |s| ==> !IsDigit(s[n])
  {
    if |s| == 0 || !IsDigit(s[0]) then 0
    else
      var rest := DigitPrefix(s[1..]);
      assert forall i :: 1 <= i < 1 + rest ==> s[i] == s[1..][i - 1];
      1 + rest
  }

  /** Reads a phrase back: a count and a suffix, or "Just now". */
  function Parse(s: string): Option<Ago> {
    if s == "Just now" then Some(JustNow)
    else
      var k := DigitPrefix(s);
      if k == 0 then None
      else
        var n := ParseNat(s[..k]);
        var suffix := s[k..];
        if suffix == "y ago" then Some(YearsAgo(n))
        else if suffix == "mo ago" then Some(MonthsAgo(n))
        else if suffix == "d ago" then Some(DaysAgo(n))
        else if suffix == "h ago" then Some(HoursAgo(n))
        else if suffix == "m ago" then Some(MinutesAgo(n))
        else None
  }

  lemma DigitPrefixOfConcat(d: string, u: string)
    requires forall i :: 0 <= i < |d| ==> IsDigit(d[i])
    requires |u| >= 1 && !IsDigit(u[0])
    ensures DigitPrefix(d + u) == |d|
  {
    var s := d + u;
    assert forall i :: 0 <= i < |d| ==> s[i] == d[i];
    assert s[|d|] == u[0];
  }

  /** The phrase names its bucket unambiguously: reading it back gives the
      bucket it was written from. */
  lemma ParseRender(a: Ago)
    ensures Parse(Render(a)) == Some(a)
  {
    if !a.JustNow? {
      var d := NatToString(Count(a));
      var s := d + Suffix(a);
      DigitPrefixOfConcat(d, Suffix(a));
      assert s[..|d|] == d && s[|d|..] == Suffix(a);
      ParseNatToString(Count(a));
      assert s != "Just now" by {
        assert IsDigit(s[0]);
      }
    }
  }

  /** So two buckets render alike only when they are equal. */
  lemma RenderInjective(a: Ago, b: Ago)
    requires Render(a) == Render(b)
    ensures a == b
  {
    ParseRender(a);
    ParseRender(b);
  }

  /** `FormatTimeAgo(createdAt)` read with the clock at `now`. */
  function FormatTimeAgo(now: Instant, createdAt: Instant): string {
    Render(Bucket(now - createdAt))
  }

  /** "Just now" exactly when at most one minute has elapsed, including a
      creation time in the future; otherwise the count and suffix of the
      bucket. */
  lemma FormatTimeAgoJustNow(now: Instant, createdAt: Instant)
    ensures FormatTimeAgo(now, createdAt) == "Just now" <==> now - createdAt <= TicksPerMinute
  {
    if FormatTimeAgo(now, createdAt) == "Just now" {
      RenderInjective(Bucket(now - createdAt), JustNow);
    }
  }
}
