/** The LED side of the bindicator (bindicator.go): the collection-window rule that decides
    which bin LEDs are lit, the LED state it writes, and the pause flag set during updates.
    Instants are nanoseconds since 1970-01-01 00:00 UTC; a calendar date is turned into an
    instant the way Go's `time.Date` does it in UTC, with out-of-range months and days
    normalised into the neighbouring month or year. */
module Bindicator {
  import opened Common
  import opened Schedule

  const NsPerDay: int := 24 * Hour

  /** Gregorian leap years, as Go's `isLeap`. */
  predicate IsLeap(y: int)
  {
    y % 4 == 0 && (y % 100 != 0 || y % 400 == 0)
  }

  /** The length of month m (1..12) of year y. */
  function DaysInMonth(y: int, m: int): (r: int)
    requires 1 <= m <= 12
    ensures 28 <= r <= 31
    ensures m == 2 ==> (r == 29 <==> IsLeap(y))
  {
    if m == 2 then (if IsLeap(y) then 29 else 28)
    else if m == 4 || m == 6 || m == 9 || m == 11 then 30
    else 31
  }

  /** Days of a common year before the first of each month (Go's `daysBefore` table). */
  const MonthStarts: seq<int> := [0, 31, 59, 90, 120, 151, 181, 212, 243, 273, 304, 334]

  /** Days of year y before the first of month m. */
  function DaysBeforeMonth(y: int, m: int): (r: nat)
    requires 1 <= m <= 12
  {
    MonthStarts[m - 1] + (if m > 2 && IsLeap(y) then 1 else 0)
  }

  /** Days from 0001-01-01 to the first of January of year y (proleptic Gregorian; Dafny's
      division by a positive constant floors, so this holds for years before 1 as well). */
  function DaysBeforeYear(y: int): int
  {
    365 * (y - 1) + (y - 1) / 4 - (y - 1) / 100 + (y - 1) / 400
  }

  const UnixEpochDays: int := 719162

  /** The day number (0 = 1970-01-01) of `time.Date(y, m, d, 0, 0, 0, 0, time.UTC)`:
      the month is first brought into 1..12 by moving whole years, then the day is added
      linearly, so day 0 is the last day of the previous month and day 32 spills over. */
  function CivilDays(y: int, m: int, d: int): int
  {
    var y1 := y + (m - 1) / 12;
    var m1 := (m - 1) % 12 + 1;
    DaysBeforeYear(y1) + DaysBeforeMonth(y1, m1) + d - 1 - UnixEpochDays
  }

  /** `time.Date(y, mo, d, h, mi, 0, 0, time.UTC)` as nanoseconds since the epoch. */
  function At(y: int, mo: int, d: int, h: int, mi: int): int
  {
    CivilDays(y, mo, d) * NsPerDay + h * Hour + mi * Minute
  }

  /** Midnight UTC at the start of the job's collection day. */
  function CollectionMidnight(job: BinJob): int
  {
    At(job.year, job.month, job.day, 0, 0)
  }

  /** The window rule: from noon the day before to noon on the collection day, both ends
      excluded (`now.After(start) && now.Before(end)`). */
  predicate InWindow(job: BinJob, now: int)
  {
    CollectionMidnight(job) - 12 * Hour < now < CollectionMidnight(job) + 12 * Hour
  }

  /** Whether some job for bin b has `now` inside its window: what the LED of b should show. */
  predicate AnyInWindow(jobs: seq<BinJob>, b: BinType, now: int)
  {
    exists k :: 0 <= k < |jobs| && jobs[k].bin == b && InWindow(jobs[k], now)
  }

  lemma AnyInWindowSnoc(jobs: seq<BinJob>, i: nat, b: BinType, now: int)
    requires i < |jobs|
    ensures AnyInWindow(jobs[..i + 1], b, now)
      == (AnyInWindow(jobs[..i], b, now) || (jobs[i].bin == b && InWindow(jobs[i], now)))
  {
    var pre := jobs[..i];
    var ext := jobs[..i + 1];
    assert forall k :: 0 <= k < i ==> ext[k] == pre[k];
    assert ext[i] == jobs[i];
  }

  /** The LED outputs and the pause flag (the `ledState` struct and `bindicatorPaused`). */
  class Indicator {
    var green: bool
    var black: bool
    var brown: bool
    var paused: bool

    constructor()
      ensures !green && !black && !brown && !paused
    {
      green, black, brown, paused := false, false, false, false;
    }

    method SetBindicatorPaused(p: bool)
      modifies this`paused
      ensures paused == p
    {
      paused := p;
    }

    method IsBindicatorPaused() returns (p: bool)
      ensures p == paused
    {
      p := paused;
    }

    /** Sets the LED of one bin; `changed` is whether a "led:changed" event is logged.
        An unknown bin touches nothing. */
    method SetLED(b: BinType, on: bool) returns (changed: bool)
      modifies this`green, this`black, this`brown
      ensures b == Green ==> green == on && changed == (old(green) != on)
      ensures b == Black ==> black == on && changed == (old(black) != on)
      ensures b == Brown ==> brown == on && changed == (old(brown) != on)
      ensures b == Unknown ==> !changed
      ensures b != Green ==> green == old(green)
      ensures b != Black ==> black == old(black)
      ensures b != Brown ==> brown == old(brown)
    {
      changed := false;
      match b {
        case Green =>
          changed := green != on;
          green := on;
        case Black =>
          changed := black != on;
          black := on;
        case Brown =>
          changed := brown != on;
          brown := on;
        case Unknown =>
      }
    }

    /** Recomputes all three LEDs from the jobs alone; while paused, nothing changes. */
    method UpdateLEDsFromSchedule(jobs: seq<BinJob>, now: int)
      modifies this`green, this`black, this`brown
      ensures old(paused) ==> green == old(green) && black == old(black) && brown == old(brown)
      ensures !old(paused) ==> green == AnyInWindow(jobs, Green, now)
      ensures !old(paused) ==> black == AnyInWindow(jobs, Black, now)
      ensures !old(paused) ==> brown == AnyInWindow(jobs, Brown, now)
    {
      if paused {
        return;
      }
      var greenOn, blackOn, brownOn := false, false, false;
      var i := 0;
      while i < |jobs|
        invariant 0 <= i <= |jobs|
        invariant greenOn == AnyInWindow(jobs[..i], Green, now)
        invariant blackOn == AnyInWindow(jobs[..i], Black, now)
        invariant brownOn == AnyInWindow(jobs[..i], Brown, now)
      {
        var job := jobs[i];
        var collectionDate := CollectionMidnight(job);
        var windowStart := collectionDate - 12 * Hour;
        var windowEnd := collectionDate + 12 * Hour;
        var inWindow := windowStart < now && now < windowEnd;
        if inWindow {
          match job.bin {
            case Green => greenOn := true;
            case Black => blackOn := true;
            case Brown => brownOn := true;
            case Unknown =>
          }
        }
        AnyInWindowSnoc(jobs, i, Green, now);
        AnyInWindowSnoc(jobs, i, Black, now);
        AnyInWindowSnoc(jobs, i, Brown, now);
        i := i + 1;
      }
      assert jobs[..i] == jobs;
      var _ := SetLED(Green, greenOn);
      var _ := SetLED(Black, blackOn);
      var _ := SetLED(Brown, brownOn);
    }
  }

  /** The job logged as "schedule:next": the first one whose window has not yet closed,
      or -1 when every window is over. */
  method NextCollection(jobs: seq<BinJob>, now: int) returns (idx: int)
    ensures -1 <= idx < |jobs|
    ensures idx >= 0 ==> now < CollectionMidnight(jobs[idx]) + 12 * Hour
    ensures forall k :: 0 <= k < |jobs| && (idx < 0 || k < idx) ==>
      now >= CollectionMidnight(jobs[k]) + 12 * Hour
  {
    idx := -1;
    var i := 0;
    while i < |jobs|
      invariant 0 <= i <= |jobs|
      invariant forall k :: 0 <= k < i ==> now >= CollectionMidnight(jobs[k]) + 12 * Hour
    {
      if now < CollectionMidnight(jobs[i]) + 12 * Hour {
        idx := i;
        return;
      }
      i := i + 1;
    }
  }
}

/** Calendar facts behind the window rule, and the window examples of bindicator_test.go. */
module BindicatorProperties {
  import opened Common
  import opened Schedule
  import opened Bindicator

  predicate ValidDate(y: int, m: int, d: int)
  {
    1 <= m <= 12 && 1 <= d <= DaysInMonth(y, m)
  }

  /** The calendar day before a valid date. */
  function PrevDay(y: int, m: int, d: int): (r: (int, int, int))
    requires ValidDate(y, m, d)
    ensures ValidDate(r.0, r.1, r.2)
  {
    if d > 1 then (y, m, d - 1)
    else if m > 1 then (y, m - 1, DaysInMonth(y, m - 1))
    else (y - 1, 12, 31)
  }

  lemma EpochIsDayZero()
    ensures CivilDays(1970, 1, 1) == 0
  {
  }

  /** Going from x to x + 1 carries into the quotient exactly when x ends a block of k. */
  lemma DivStep(x: int, k: int)
    requires k > 0
    ensures (x + 1) / k == if x % k == k - 1 then x / k + 1 else x / k
    ensures (x + 1) % k == 0 <==> x % k == k - 1
  {
    var q, r := x / k, x % k;
    if r == k - 1 {
      DivModUnique(x + 1, k, q + 1, 0);
    } else {
      DivModUnique(x + 1, k, q, r + 1);
    }
  }

  /** A year has 366 days when it is a leap year and 365 otherwise. */
  lemma YearLength(y: int)
    ensures DaysBeforeYear(y + 1) - DaysBeforeYear(y) == if IsLeap(y) then 366 else 365
  {
    DivStep(y - 1, 4);
    DivStep(y - 1, 100);
    DivStep(y - 1, 400);
  }

  lemma DaysBeforeDecember(y: int)
    ensures DaysBeforeMonth(y, 12) + 31 == if IsLeap(y) then 366 else 365
  {
  }

  lemma PrevDayInMonth(y: int, m: int, d: int)
    requires 1 <= m <= 12
    ensures CivilDays(y, m, d - 1) == CivilDays(y, m, d) - 1
  {
    InRangeMonth(y, m, d);
    InRangeMonth(y, m, d - 1);
  }

  lemma PrevDayMonthStart(y: int, m: int)
    requires 2 <= m <= 12
    ensures CivilDays(y, m - 1, DaysInMonth(y, m - 1)) == CivilDays(y, m, 1) - 1
  {
    var len := DaysInMonth(y, m - 1);
    var before := DaysBeforeMonth(y, m - 1);
    assert DaysBeforeMonth(y, m) == before + len by {
      MonthStartsStep(y, m);
    }
    assert CivilDays(y, m, 1) == DaysBeforeYear(y) + before + len - UnixEpochDays by {
      InRangeMonth(y, m, 1);
    }
    assert CivilDays(y, m - 1, len) == DaysBeforeYear(y) + before + len - 1 - UnixEpochDays by {
      InRangeMonth(y, m - 1, len);
    }
  }

  /** Each month starts where the previous one ends. */
  lemma MonthStartsStep(y: int, m: int)
    requires 2 <= m <= 12
    ensures DaysBeforeMonth(y, m) == DaysBeforeMonth(y, m - 1) + DaysInMonth(y, m - 1)
  {
  }

  lemma PrevDayYearStart(y: int)
    ensures CivilDays(y - 1, 12, 31) == CivilDays(y, 1, 1) - 1
  {
    InRangeMonth(y, 1, 1);
    InRangeMonth(y - 1, 12, 31);
    YearLength(y - 1);
    DaysBeforeDecember(y - 1);
  }

  /** The day before any valid date is exactly one day number earlier, across month ends,
      year ends and leap days. */
  lemma PrevDayIsOneDayEarlier(y: int, m: int, d: int)
    requires ValidDate(y, m, d)
    ensures var p := PrevDay(y, m, d); CivilDays(p.0, p.1, p.2) == CivilDays(y, m, d) - 1
  {
    if d > 1 {
      assert PrevDay(y, m, d) == (y, m, d - 1);
      PrevDayInMonth(y, m, d);
    } else if m > 1 {
      assert PrevDay(y, m, d) == (y, m - 1, DaysInMonth(y, m - 1));
      PrevDayMonthStart(y, m);
    } else {
      assert PrevDay(y, m, d) == (y - 1, 12, 31);
      PrevDayYearStart(y);
    }
  }

  /** For a month already in 1..12 there is nothing to normalise. */
  lemma InRangeMonth(y: int, m: int, d: int)
    requires 1 <= m <= 12
    ensures CivilDays(y, m, d) == DaysBeforeYear(y) + DaysBeforeMonth(y, m) + d - 1 - UnixEpochDays
  {
    assert (m - 1) / 12 == 0 && (m - 1) % 12 == m - 1;
  }

  /** The window in terms of day numbers: an instant h:mi on day `day` is inside the window
      of a job due on day c exactly when it is before noon on day c or after noon on day
      c - 1. */
  lemma WindowByDay(job: BinJob, day: int, h: int, mi: int)
    requires 0 <= h < 24 && 0 <= mi < 60
    ensures var c := CivilDays(job.year, job.month, job.day);
      InWindow(job, day * NsPerDay + h * Hour + mi * Minute) <==>
        (day == c && h * 60 + mi < 12 * 60) || (day == c - 1 && h * 60 + mi > 12 * 60)
  {
    var c := CivilDays(job.year, job.month, job.day);
    var delta := day - c;
    var clock := h * Hour + mi * Minute;
    assert CollectionMidnight(job) == c * NsPerDay;
    assert day * NsPerDay == c * NsPerDay + delta * NsPerDay;
    assert 0 <= clock < NsPerDay;
    assert clock < 12 * Hour <==> h * 60 + mi < 12 * 60;
    assert clock > 12 * Hour <==> h * 60 + mi > 12 * 60;
    if delta >= 1 {
      MulAtLeast(delta, NsPerDay);
    } else if delta <= -2 {
      MulAtLeast(-delta, NsPerDay);
    }
  }

  /** On the collection day, `now` = h:mi is in the window exactly before noon. */
  lemma WindowOnCollectionDay(job: BinJob, h: int, mi: int)
    requires 0 <= h < 24 && 0 <= mi < 60
    ensures InWindow(job, At(job.year, job.month, job.day, h, mi)) <==> h * 60 + mi < 12 * 60
  {
    WindowByDay(job, CivilDays(job.year, job.month, job.day), h, mi);
  }

  /** On the day before a valid collection date, `now` = h:mi is in the window exactly
      after noon, so noon itself lights nothing. */
  lemma WindowOnDayBefore(job: BinJob, h: int, mi: int)
    requires ValidDate(job.year, job.month, job.day)
    requires 0 <= h < 24 && 0 <= mi < 60
    ensures var p := PrevDay(job.year, job.month, job.day);
      InWindow(job, At(p.0, p.1, p.2, h, mi)) <==> h * 60 + mi > 12 * 60
  {
    var p := PrevDay(job.year, job.month, job.day);
    PrevDayIsOneDayEarlier(job.year, job.month, job.day);
    WindowByDay(job, CivilDays(p.0, p.1, p.2), h, mi);
  }

  /** Outside those two days the window is closed. */
  lemma WindowClosedOtherDays(job: BinJob, days: int, h: int, mi: int)
    requires 0 <= h < 24 && 0 <= mi < 60
    requires days != 0 && days != -1
    ensures !InWindow(job, At(job.year, job.month, job.day + days, h, mi))
  {
    var c := CivilDays(job.year, job.month, job.day);
    assert CivilDays(job.year, job.month, job.day + days) == c + days;
    WindowByDay(job, c + days, h, mi);
  }

  /** A job with an unknown bin, inserted anywhere, changes no LED. */
  lemma UnknownJobLightsNothing(jobs: seq<BinJob>, k: nat, job: BinJob, b: BinType, now: int)
    requires k <= |jobs| && job.bin == Unknown && b != Unknown
    ensures AnyInWindow(jobs[..k] + [job] + jobs[k..], b, now) == AnyInWindow(jobs, b, now)
  {
    var ext := jobs[..k] + [job] + jobs[k..];
    if AnyInWindow(ext, b, now) {
      var i :| 0 <= i < |ext| && ext[i].bin == b && InWindow(ext[i], now);
      var j := if i < k then i else i - 1;
      assert jobs[j] == ext[i];
    }
    if AnyInWindow(jobs, b, now) {
      var j :| 0 <= j < |jobs| && jobs[j].bin == b && InWindow(jobs[j], now);
      var i := if j < k then j else j + 1;
      assert ext[i] == jobs[j];
    }
  }

  const CollectionJan20: BinJob := BinJob(2026, 1, 20, Black)

  /** The single-job table of bindicator_test.go: the window opens after 12:00 on
      2026-01-19 and closes at 12:00 on 2026-01-20. */
  lemma Jan20Examples()
    ensures !InWindow(CollectionJan20, At(2026, 1, 19, 8, 0))
    ensures !InWindow(CollectionJan20, At(2026, 1, 19, 11, 59))
    ensures !InWindow(CollectionJan20, At(2026, 1, 19, 12, 0))
    ensures InWindow(CollectionJan20, At(2026, 1, 19, 12, 1))
    ensures InWindow(CollectionJan20, At(2026, 1, 19, 20, 0))
    ensures InWindow(CollectionJan20, At(2026, 1, 20, 0, 0))
    ensures InWindow(CollectionJan20, At(2026, 1, 20, 11, 59))
    ensures !InWindow(CollectionJan20, At(2026, 1, 20, 12, 0))
    ensures !InWindow(CollectionJan20, At(2026, 1, 20, 20, 0))
    ensures !InWindow(CollectionJan20, At(2026, 1, 21, 8, 0))
  {
    var j := CollectionJan20;
    assert PrevDay(2026, 1, 20) == (2026, 1, 19);
    WindowOnDayBefore(j, 8, 0);
    WindowOnDayBefore(j, 11, 59);
    WindowOnDayBefore(j, 12, 0);
    WindowOnDayBefore(j, 12, 1);
    WindowOnDayBefore(j, 20, 0);
    WindowOnCollectionDay(j, 0, 0);
    WindowOnCollectionDay(j, 11, 59);
    WindowOnCollectionDay(j, 12, 0);
    WindowOnCollectionDay(j, 20, 0);
    WindowClosedOtherDays(j, 1, 8, 0);
  }

  /** The month, year and leap-day edge cases of bindicator_test.go. */
  lemma BoundaryExamples()
    ensures InWindow(BinJob(2026, 1, 1, Black), At(2025, 12, 31, 20, 0))
    ensures !InWindow(BinJob(2026, 1, 1, Black), At(2025, 12, 31, 8, 0))
    ensures InWindow(BinJob(2026, 2, 1, Green), At(2026, 1, 31, 20, 0))
    ensures InWindow(BinJob(2028, 2, 29, Brown), At(2028, 2, 29, 8, 0))
  {
    assert PrevDay(2026, 1, 1) == (2025, 12, 31);
    WindowOnDayBefore(BinJob(2026, 1, 1, Black), 20, 0);
    WindowOnDayBefore(BinJob(2026, 1, 1, Black), 8, 0);
    assert PrevDay(2026, 2, 1) == (2026, 1, 31);
    WindowOnDayBefore(BinJob(2026, 2, 1, Green), 20, 0);
    assert IsLeap(2028);
    WindowOnCollectionDay(BinJob(2028, 2, 29, Brown), 8, 0);
  }
}
