/** The functional watchdog of the main loop (main.go): the hardware watchdog is fed only
    while the firmware judges itself healthy; health is lost for good after three refresh
    rounds in a row fail or twelve hours pass without a successful refresh. Around it sit
    the sleeps that keep feeding the watchdog, the MQTT retry loop with its backoff, the
    wake-cycle refresh decision and the NTP server list with its own backoff.

    Time is integer nanoseconds on a model clock `now` that only the modelled sleeps
    advance; the network calls are given as their outcomes. */
module Watchdog {
  import opened Common

  const MaxConsecutiveFailures: int := 3
  const MaxHoursWithoutRefresh: int := 12

  const MqttMinBackoff: int := 16 * Second
  const MqttMaxBackoff: int := 60 * Second
  const MqttMaxRetries: int := 3

  /** sleepWithWatchdog sleeps in slices of at most this much (the watchdog times out after 8 s). */
  const SleepSlice: int := 2 * Second
  /** sleepWithRefreshCheck polls for a refresh request this often, at most. */
  const RefreshCheckInterval: int := 5 * Second

  const NtpMinBackoff: int := 500 * Millisecond
  const NtpMaxBackoff: int := 30 * Second

  // ---------------------------------------------------------------------------------
  // Backoff sequences
  // ---------------------------------------------------------------------------------

  /** One backoff step: `b = b * 2; if b > max { b = max }`. */
  function NextBackoff(b: int, cap: int): int
  {
    if b * 2 > cap then cap else b * 2
  }

  /** The backoff in force after n steps from `first`. */
  function NthBackoff(first: int, cap: int, n: nat): int
  {
    if n == 0 then first else NextBackoff(NthBackoff(first, cap, n - 1), cap)
  }

  /** The first n waits of a backoff that starts at `first` and is capped at `cap`. */
  function Backoffs(first: int, cap: int, n: nat): (r: seq<int>)
    ensures |r| == n
  {
    if n == 0 then [] else Backoffs(first, cap, n - 1) + [NthBackoff(first, cap, n - 1)]
  }

  function Pow2(n: nat): (r: nat)
    ensures r >= 1
  {
    if n == 0 then 1 else 2 * Pow2(n - 1)
  }

  /** The backoff doubles from `first` until it reaches the cap, and then stays there. */
  lemma {:induction false} NthBackoffClosedForm(first: int, cap: int, n: nat)
    requires 0 < first <= cap
    ensures NthBackoff(first, cap, n) == Min(first * Pow2(n), cap)
    ensures first <= NthBackoff(first, cap, n) <= cap
  {
    if n > 0 {
      NthBackoffClosedForm(first, cap, n - 1);
      var b := NthBackoff(first, cap, n - 1);
      assert first * Pow2(n) == 2 * (first * Pow2(n - 1));
      if first * Pow2(n - 1) > cap {
        assert b == cap;
      }
    }
  }

  /** Every wait of a backoff sequence lies between the first wait and the cap, and each
      wait is at least the one before. */
  lemma BackoffsBounded(first: int, cap: int, n: nat)
    requires 0 < first <= cap
    ensures forall k :: 0 <= k < n ==> Backoffs(first, cap, n)[k] == NthBackoff(first, cap, k)
    ensures forall k :: 0 <= k < n ==> first <= Backoffs(first, cap, n)[k] <= cap
    ensures forall k :: 0 < k < n ==> Backoffs(first, cap, n)[k - 1] <= Backoffs(first, cap, n)[k]
  {
    BackoffsIndex(first, cap, n);
    forall k | 0 <= k < n
      ensures first <= NthBackoff(first, cap, k) <= cap
    {
      NthBackoffClosedForm(first, cap, k);
    }
    forall k | 0 < k < n
      ensures NthBackoff(first, cap, k - 1) <= NthBackoff(first, cap, k)
    {
      NthBackoffClosedForm(first, cap, k - 1);
    }
  }

  lemma {:induction false} BackoffsIndex(first: int, cap: int, n: nat)
    ensures forall k :: 0 <= k < n ==> Backoffs(first, cap, n)[k] == NthBackoff(first, cap, k)
  {
    if n > 0 {
      BackoffsIndex(first, cap, n - 1);
    }
  }

  /** The MQTT retries wait 16 s, 32 s and then 60 s. */
  lemma MqttBackoffSchedule()
    ensures Backoffs(MqttMinBackoff, MqttMaxBackoff, MqttMaxRetries) == [16 * Second, 32 * Second, 60 * Second]
  {
    var f, c := MqttMinBackoff, MqttMaxBackoff;
    assert NthBackoff(f, c, 1) == 32 * Second;
    assert NthBackoff(f, c, 2) == 60 * Second;
    assert Backoffs(f, c, 1) == [f];
    assert Backoffs(f, c, 2) == [f, 32 * Second];
  }

  /** The NTP backoff doubles from 500 ms and is capped at 30 s from the eighth wait on. */
  lemma NtpBackoffSchedule()
    ensures Backoffs(NtpMinBackoff, NtpMaxBackoff, 8)
      == [500 * Millisecond, Second, 2 * Second, 4 * Second, 8 * Second, 16 * Second, 30 * Second, 30 * Second]
  {
    var f, c := NtpMinBackoff, NtpMaxBackoff;
    assert NthBackoff(f, c, 1) == Second;
    assert NthBackoff(f, c, 2) == 2 * Second;
    assert NthBackoff(f, c, 3) == 4 * Second;
    assert NthBackoff(f, c, 4) == 8 * Second;
    assert NthBackoff(f, c, 5) == 16 * Second;
    assert NthBackoff(f, c, 6) == 30 * Second;
    assert NthBackoff(f, c, 7) == 30 * Second;
    assert Backoffs(f, c, 1) == [f];
    assert Backoffs(f, c, 2) == [f, Second];
    assert Backoffs(f, c, 3) == [f, Second, 2 * Second];
    assert Backoffs(f, c, 4) == [f, Second, 2 * Second, 4 * Second];
    assert Backoffs(f, c, 5) == [f, Second, 2 * Second, 4 * Second, 8 * Second];
    assert Backoffs(f, c, 6) == [f, Second, 2 * Second, 4 * Second, 8 * Second, 16 * Second];
    assert Backoffs(f, c, 7) == [f, Second, 2 * Second, 4 * Second, 8 * Second, 16 * Second, 30 * Second];
  }

  // ---------------------------------------------------------------------------------
  // Sleep slicing
  // ---------------------------------------------------------------------------------

  /** The slices sleepWithWatchdog(d) sleeps: 2 s each, the last one shorter; none for d <= 0. */
  function SleepSlices(d: int): seq<int>
    decreases d
  {
    if d <= 0 then [] else var c := Min(SleepSlice, d); [c] + SleepSlices(d - c)
  }

  function Sum(s: seq<int>): int
  {
    if s == [] then 0 else s[0] + Sum(s[1..])
  }

  /** The slices add up to d (nothing for d <= 0), each lies in (0, 2 s], and every slice
      but the last is a full 2 s. */
  lemma {:induction false} SleepSlicesFacts(d: int)
    ensures Sum(SleepSlices(d)) == Max(d, 0)
    ensures forall k :: 0 <= k < |SleepSlices(d)| ==> 0 < SleepSlices(d)[k] <= SleepSlice
    ensures forall k :: 0 <= k < |SleepSlices(d)| - 1 ==> SleepSlices(d)[k] == SleepSlice
    decreases d
  {
    if d > 0 {
      var c := Min(SleepSlice, d);
      SleepSlicesFacts(d - c);
      if d - c > 0 {
        assert c == SleepSlice;
      }
    }
  }

  // ---------------------------------------------------------------------------------
  // Refresh-check polling
  // ---------------------------------------------------------------------------------

  /** The duration sleepWithRefreshCheck sleeps: the debug override when it is positive. */
  function EffectiveDuration(duration: int, debugOverride: int): int
  {
    if debugOverride > 0 then debugOverride else duration
  }

  /** The polling interval: 5 s, or the whole duration when that is shorter. */
  function CheckInterval(d: int): int
  {
    if d < RefreshCheckInterval then d else RefreshCheckInterval
  }

  /** How many polls `for elapsed < d { elapsed += c }` makes: ceil(d / c), or none. */
  function Polls(d: int): (n: nat)
  {
    if d <= 0 then 0 else var c := CheckInterval(d); (d + c - 1) / c
  }

  /** The polls cover the duration, and overshoot it by less than one interval. */
  lemma PollsBracket(d: int)
    requires d > 0
    ensures Polls(d) >= 1
    ensures CheckInterval(d) * (Polls(d) - 1) < d <= CheckInterval(d) * Polls(d)
  {
    var c, n := CheckInterval(d), Polls(d);
    assert (d + c - 1) == n * c + (d + c - 1) % c;
  }

  /** c added up p times. */
  function Times(c: int, p: nat): int
  {
    if p == 0 then 0 else Times(c, p - 1) + c
  }

  lemma {:induction false} TimesIsProduct(c: int, p: nat)
    ensures Times(c, p) == c * p
  {
    if p > 0 {
      TimesIsProduct(c, p - 1);
    }
  }

  /** Before the last poll the elapsed time is below the duration; from then on it is not. */
  lemma PollBelow(d: int, p: nat)
    requires d > 0
    ensures Times(CheckInterval(d), p) < d <==> p < Polls(d)
  {
    TimesIsProduct(CheckInterval(d), p);
    var c, n := CheckInterval(d), Polls(d);
    PollsBracket(d);
    if p < n {
      assert c * p <= c * (n - 1) by { MulMonotone(c, p, n - 1); }
    } else {
      assert c * n <= c * p by { MulMonotone(c, n, p); }
    }
  }

  lemma MulMonotone(c: int, a: int, b: int)
    requires c > 0 && a <= b
    ensures c * a <= c * b
  {
    assert c * b - c * a == c * (b - a);
  }

  /** A refresh request cuts the sleep short iff it arrives before the last poll is over. */
  predicate RequestedEarly(d: int, requestAt: Option<nat>)
  {
    requestAt.Some? && requestAt.value < Polls(d)
  }

  /** The full polls sleepWithRefreshCheck waits out. */
  function PollsWaited(d: int, requestAt: Option<nat>): nat
  {
    if RequestedEarly(d, requestAt) then requestAt.value else Polls(d)
  }

  function Repeat(x: int, n: nat): (r: seq<int>)
    ensures |r| == n
    ensures forall k :: 0 <= k < n ==> r[k] == x
  {
    if n == 0 then [] else Repeat(x, n - 1) + [x]
  }

  // ---------------------------------------------------------------------------------
  // Health thresholds and NTP server list
  // ---------------------------------------------------------------------------------

  /** checkSystemHealth's test: fewer than three consecutive failures and less than twelve
      hours since the last successful refresh. */
  predicate WithinThresholds(failures: int, lastSuccess: int, now: int)
  {
    failures < MaxConsecutiveFailures && now - lastSuccess < MaxHoursWithoutRefresh * Hour
  }

  /** The number of failed attempts before the first success (all of them when none succeeds). */
  function FailuresBefore(s: seq<bool>): (r: nat)
    ensures r <= |s|
  {
    if s == [] then 0 else if s[0] then 0 else 1 + FailuresBefore(s[1..])
  }

  /** FailuresBefore counts exactly the failures that precede the first success. */
  lemma {:induction false} FailuresBeforeIndex(s: seq<bool>, a: nat)
    requires a <= |s|
    requires forall i :: 0 <= i < a ==> !s[i]
    requires a < |s| ==> s[a]
    ensures FailuresBefore(s) == a
  {
    if a > 0 {
      FailuresBeforeIndex(s[1..], a - 1);
    }
  }

  /** FailuresBefore reaches the end exactly when nothing succeeded. */
  lemma {:induction false} FailuresBeforeAll(s: seq<bool>)
    ensures FailuresBefore(s) == |s| <==> !(true in s)
    ensures FailuresBefore(s) < |s| ==> s[FailuresBefore(s)]
  {
    if s != [] {
      FailuresBeforeAll(s[1..]);
      assert s == [s[0]] + s[1..];
    }
  }

  /** The fallback NTP servers, in the order they are tried. */
  function NtpFallbackServers(): seq<string>
  {
    ["time.cloudflare.com", "time.google.com", "pool.ntp.org"]
  }

  /** `fs` without the entries equal to `c`, order kept. */
  function Without(fs: seq<string>, c: string): (r: seq<string>)
    ensures |r| <= |fs|
  {
    if fs == [] then []
    else Without(fs[..|fs| - 1], c) + (if fs[|fs| - 1] != c then [fs[|fs| - 1]] else [])
  }

  /** The list syncNTP tries: the configured server, then the fallbacks that differ from it. */
  function ServerList(configured: string): seq<string>
  {
    [configured] + Without(NtpFallbackServers(), configured)
  }

  /** Without keeps exactly the entries different from c. */
  lemma {:induction false} WithoutMembers(fs: seq<string>, c: string)
    ensures forall x :: x in Without(fs, c) <==> x in fs && x != c
  {
    if fs != [] {
      WithoutMembers(fs[..|fs| - 1], c);
      assert fs == fs[..|fs| - 1] + [fs[|fs| - 1]];
    }
  }

  predicate NoDuplicates(s: seq<string>)
  {
    forall i, j :: 0 <= i < j < |s| ==> s[i] != s[j]
  }

  /** The configured server comes first; a fallback is tried iff it differs from the
      configured server; and no server is tried twice. */
  lemma ServerListFacts(configured: string)
    ensures ServerList(configured)[0] == configured
    ensures forall f :: f in NtpFallbackServers() ==> (f in ServerList(configured)[1..] <==> f != configured)
    ensures NoDuplicates(ServerList(configured))
    ensures |ServerList(configured)| == if configured in NtpFallbackServers() then 3 else 4
  {
    var fs := NtpFallbackServers();
    WithoutMembers(fs, configured);
    var w := Without(fs, configured);
    var l := ServerList(configured);
    assert l[1..] == w;
    var a, b, d := fs[0], fs[1], fs[2];
    assert |a| == 19 && |b| == 15 && |d| == 12;
    assert fs[..2] == [a, b] && [a, b][..1] == [a] && [a][..0] == [];
    assert Without([a], configured) == if a != configured then [a] else [];
    assert Without([a, b], configured) == Without([a], configured) + if b != configured then [b] else [];
    assert w == Without([a, b], configured) + if d != configured then [d] else [];
    if configured == fs[0] {
      assert w == [fs[1], fs[2]];
    } else if configured == fs[1] {
      assert w == [fs[0], fs[2]];
    } else if configured == fs[2] {
      assert w == [fs[0], fs[1]];
    } else {
      assert w == fs;
    }
  }

  /** What one NTP server gives: a failed DNS lookup, or its addresses and, for each in
      order, whether the NTP exchange with it succeeded. */
  datatype NtpServerResult = DnsFailed | Resolved(exchanges: seq<bool>)

  /** The attempts of one server, as syncNTP counts them for its backoff. */
  function ServerAttempts(t: NtpServerResult): seq<bool>
  {
    match t
    case DnsFailed => [false]
    case Resolved(xs) => xs
  }

  /** All attempts, server by server, in the order syncNTP makes them. */
  function NtpAttempts(ts: seq<NtpServerResult>): seq<bool>
  {
    if ts == [] then [] else ServerAttempts(ts[0]) + NtpAttempts(ts[1..])
  }

  // ---------------------------------------------------------------------------------
  // The device state
  // ---------------------------------------------------------------------------------

  /** The main loop's globals, the watchdog's feed count, the sleeps made, and the model
      clock. Each method's `modifies` names the fields it may change; the rest keep their
      values. */
  class Device {
    var systemHealthy: bool
    var consecutiveFailures: int
    var lastSuccessfulRefresh: int
    /** None is the zero `time.Time`: the first cycle always fetches. */
    var lastScheduleFetch: Option<int>
    var forceScheduleRefresh: bool
    /** Set from the console; 0 means "use the wake interval". */
    var debugSleepDuration: int
    var mqttSuccessCount: int
    var mqttFailCount: int
    var ntpSyncCount: int
    var ntpFailCount: int
    /** `machine.Watchdog.Update` calls. */
    var feeds: nat
    /** Every `time.Sleep` made by the modelled sleeps, in order. */
    var slept: seq<int>
    /** The duration of every sleepWithWatchdog call, in order. */
    ghost var waits: seq<int>
    var now: int

    /** The state at boot, just before the main loop: healthy, no failures, the last
        success set to the boot time as a grace period, and no schedule fetched yet. */
    constructor (bootTime: int)
      ensures systemHealthy && consecutiveFailures == 0
      ensures lastSuccessfulRefresh == bootTime && lastScheduleFetch == None
      ensures !forceScheduleRefresh && debugSleepDuration == 0
      ensures mqttSuccessCount == 0 && mqttFailCount == 0 && ntpSyncCount == 0 && ntpFailCount == 0
      ensures feeds == 0 && slept == [] && waits == [] && now == bootTime
    {
      systemHealthy := true;
      consecutiveFailures := 0;
      lastSuccessfulRefresh := bootTime;
      lastScheduleFetch := None;
      forceScheduleRefresh := false;
      debugSleepDuration := 0;
      mqttSuccessCount, mqttFailCount, ntpSyncCount, ntpFailCount := 0, 0, 0, 0;
      feeds := 0;
      slept := [];
      waits := [];
      now := bootTime;
    }

    /** feedWatchdogIfHealthy: the watchdog is fed exactly when the system is healthy. */
    method FeedIfHealthy()
      modifies this`feeds
      ensures feeds == old(feeds) + (if systemHealthy then 1 else 0)
    {
      if systemHealthy {
        feeds := feeds + 1;
      }
    }

    /** checkSystemHealth: health is lost when the thresholds are crossed and is never
        restored here. */
    method CheckSystemHealth()
      modifies this`systemHealthy
      ensures systemHealthy == (old(systemHealthy) && WithinThresholds(consecutiveFailures, lastSuccessfulRefresh, now))
    {
      if consecutiveFailures >= MaxConsecutiveFailures {
        systemHealthy := false;
        return;
      }
      if now - lastSuccessfulRefresh >= MaxHoursWithoutRefresh * Hour {
        systemHealthy := false;
        return;
      }
    }

    /** fatalError up to its software reset: feeding stops for good and it waits fifteen
        one-second sleeps for the watchdog to fire. */
    method FatalError()
      modifies this`systemHealthy, this`slept, this`now
      ensures !systemHealthy
      ensures slept == old(slept) + Repeat(Second, 15) && now == old(now) + 15 * Second
    {
      systemHealthy := false;
      var i := 0;
      while i < 15
        invariant 0 <= i <= 15 && !systemHealthy
        invariant slept == old(slept) + Repeat(Second, i) && now == old(now) + i * Second
      {
        slept := slept + [Second];
        now := now + Second;
        i := i + 1;
      }
    }

    /** sleepWithWatchdog: sleeps d in slices of at most 2 s, feeding after each slice. */
    method SleepWithWatchdog(d: int)
      modifies this`slept, this`now, this`feeds, this`waits
      ensures waits == old(waits) + [d]
      ensures slept == old(slept) + SleepSlices(d)
      ensures now == old(now) + Max(d, 0)
      ensures feeds == old(feeds) + (if systemHealthy then |SleepSlices(d)| else 0)
    {
      var rest := d;
      while rest > 0
        invariant slept + SleepSlices(rest) == old(slept) + SleepSlices(d)
        invariant now + Max(rest, 0) == old(now) + Max(d, 0)
        invariant feeds + (if systemHealthy then |SleepSlices(rest)| else 0)
               == old(feeds) + (if systemHealthy then |SleepSlices(d)| else 0)
        invariant waits == old(waits)
        decreases rest
      {
        var slice := SleepSlice;
        if rest < slice {
          slice := rest;
        }
        slept := slept + [slice];
        now := now + slice;
        FeedIfHealthy();
        rest := rest - slice;
      }
      waits := waits + [d];
    }

    /** sleepWithRefreshCheck: polls every min(5 s, duration) until the duration has
        elapsed, feeding before each poll; a refresh request seen at poll `requestAt`
        ends the sleep early and forces a schedule refresh on the next cycle. */
    method SleepWithRefreshCheck(duration: int, requestAt: Option<nat>)
      modifies this`slept, this`now, this`feeds, this`forceScheduleRefresh
      ensures forceScheduleRefresh
        == (old(forceScheduleRefresh) || RequestedEarly(EffectiveDuration(duration, debugSleepDuration), requestAt))
      ensures slept == old(slept) + Repeat(CheckInterval(EffectiveDuration(duration, debugSleepDuration)),
                                           PollsWaited(EffectiveDuration(duration, debugSleepDuration), requestAt))
      ensures now == old(now) + CheckInterval(EffectiveDuration(duration, debugSleepDuration))
                                 * PollsWaited(EffectiveDuration(duration, debugSleepDuration), requestAt)
      ensures feeds == old(feeds) + if !systemHealthy then 0
        else PollsWaited(EffectiveDuration(duration, debugSleepDuration), requestAt)
             + if RequestedEarly(EffectiveDuration(duration, debugSleepDuration), requestAt) then 1 else 0
    {
      var d := duration;
      if debugSleepDuration > 0 {
        d := debugSleepDuration;
      }
      var check := RefreshCheckInterval;
      if d < check {
        check := d;
      }
      assert check == CheckInterval(d);
      PollUntil(d, check, requestAt);
    }

    /** The polling loop of sleepWithRefreshCheck: sleep `check` at a time until `d` has
        passed, feeding the watchdog each time, and stop early when a refresh is requested. */
    method PollUntil(d: int, check: int, requestAt: Option<nat>)
      requires check == CheckInterval(d)
      modifies this`slept, this`now, this`feeds, this`forceScheduleRefresh
      ensures forceScheduleRefresh == (old(forceScheduleRefresh) || RequestedEarly(d, requestAt))
      ensures slept == old(slept) + Repeat(check, PollsWaited(d, requestAt))
      ensures now == old(now) + check * PollsWaited(d, requestAt)
      ensures feeds == old(feeds) + if !systemHealthy then 0
        else PollsWaited(d, requestAt) + if RequestedEarly(d, requestAt) then 1 else 0
    {
      var elapsed := 0;
      var polls: nat := 0;
      while elapsed < d
        invariant polls <= Polls(d) && elapsed == Times(check, polls)
        invariant elapsed < d <==> polls < Polls(d)
        invariant requestAt.Some? ==> polls <= requestAt.value
        invariant forceScheduleRefresh == old(forceScheduleRefresh)
        invariant slept == old(slept) + Repeat(check, polls) && now == old(now) + elapsed
        invariant feeds == old(feeds) + (if systemHealthy then polls else 0)
        decreases Polls(d) - polls
      {
        FeedIfHealthy();
        if requestAt == Some(polls) {
          forceScheduleRefresh := true;
          TimesIsProduct(check, polls);
          return;
        }
        slept := slept + [check];
        now := now + check;
        elapsed := elapsed + check;
        polls := polls + 1;
        PollBelow(d, polls);
      }
      TimesIsProduct(check, polls);
    }

    /** The start of a wake cycle: a refresh is needed iff the last fetch is at least an
        interval old (or there was none) or one was forced; the force flag is consumed. */
    method StartCycle(interval: int) returns (needsRefresh: bool, manualRefresh: bool)
      modifies this`feeds, this`forceScheduleRefresh
      ensures needsRefresh == (lastScheduleFetch.None? || now - lastScheduleFetch.value >= interval
                               || old(forceScheduleRefresh))
      ensures manualRefresh == old(forceScheduleRefresh) && !forceScheduleRefresh
      ensures feeds == old(feeds) + (if systemHealthy then 1 else 0)
    {
      FeedIfHealthy();
      needsRefresh := match lastScheduleFetch
        case None => true
        case Some(t) => now - t >= interval || forceScheduleRefresh;
      manualRefresh := forceScheduleRefresh;
      forceScheduleRefresh := false;
    }

    /** The sleepWithWatchdog calls since w0 are exactly the first n waits of a backoff. */
    ghost predicate Waited(first: int, cap: int, n: nat, w0: seq<int>)
      reads this
    {
      waits == w0 + Backoffs(first, cap, n)
    }

    /** One backoff wait of a retry loop: sleepWithWatchdog(backoff), then the doubling
        capped at `cap`. Before it the loop has made the first n waits; after it, n + 1. */
    method BackoffWait(first: int, cap: int, backoff: int, ghost n: nat, ghost w0: seq<int>)
      returns (next: int)
      requires backoff == NthBackoff(first, cap, n) && Waited(first, cap, n, w0)
      modifies this`slept, this`now, this`feeds, this`waits
      ensures next == NthBackoff(first, cap, n + 1) && Waited(first, cap, n + 1, w0)
      ensures slept == old(slept) + SleepSlices(backoff) && now == old(now) + Max(backoff, 0)
      ensures feeds == old(feeds) + if systemHealthy then |slept| - |old(slept)| else 0
    {
      SleepWithWatchdog(backoff);
      AppendAssoc(w0, Backoffs(first, cap, n), [backoff]);
      next := NextBackoff(backoff, cap);
    }

    /** A schedule fetch succeeded: the failure count is reset and the refresh recorded. */
    method RecordSuccess()
      modifies this`mqttSuccessCount, this`consecutiveFailures, this`lastSuccessfulRefresh, this`lastScheduleFetch
      ensures mqttSuccessCount == old(mqttSuccessCount) + 1 && consecutiveFailures == 0
      ensures lastSuccessfulRefresh == now && lastScheduleFetch == Some(now)
    {
      mqttSuccessCount := mqttSuccessCount + 1;
      consecutiveFailures := 0;
      lastSuccessfulRefresh := now;
      lastScheduleFetch := Some(now);
    }

    /** All retries of a refresh failed: one more consecutive failure, then the health check. */
    method RecordExhausted()
      modifies this`consecutiveFailures, this`systemHealthy
      ensures consecutiveFailures == old(consecutiveFailures) + 1
      ensures systemHealthy == (old(systemHealthy) && WithinThresholds(consecutiveFailures, lastSuccessfulRefresh, now))
    {
      consecutiveFailures := consecutiveFailures + 1;
      CheckSystemHealth();
    }

    /** The MQTT retry loop of a refresh cycle. `fetched[a]` is whether attempt a's fetch
        succeeded. Up to four attempts, with backoff waits of 16 s, 32 s and 60 s between
        them; a success resets the failure count and records the refresh time; only when
        all four fail does the failure count go up and health get re-checked. */
    method RefreshSchedule(fetched: seq<bool>)
      requires |fetched| == MqttMaxRetries + 1
      modifies this`slept, this`now, this`feeds, this`waits, this`mqttFailCount, this`mqttSuccessCount
      modifies this`consecutiveFailures, this`lastSuccessfulRefresh, this`lastScheduleFetch, this`systemHealthy
      ensures Waited(MqttMinBackoff, MqttMaxBackoff, Min(FailuresBefore(fetched), MqttMaxRetries), old(waits))
      ensures feeds == old(feeds) + if !old(systemHealthy) then 0
        else |slept| - |old(slept)| + Min(FailuresBefore(fetched) + 1, MqttMaxRetries + 1)
      ensures mqttFailCount == old(mqttFailCount) + FailuresBefore(fetched)
      ensures FailuresBefore(fetched) <= MqttMaxRetries ==>
        && consecutiveFailures == 0 && lastSuccessfulRefresh == now && lastScheduleFetch == Some(now)
        && mqttSuccessCount == old(mqttSuccessCount) + 1 && systemHealthy == old(systemHealthy)
      ensures FailuresBefore(fetched) > MqttMaxRetries ==>
        && consecutiveFailures == old(consecutiveFailures) + 1
        && lastSuccessfulRefresh == old(lastSuccessfulRefresh) && lastScheduleFetch == old(lastScheduleFetch)
        && mqttSuccessCount == old(mqttSuccessCount)
        && systemHealthy == (old(systemHealthy) && WithinThresholds(consecutiveFailures, lastSuccessfulRefresh, now))
    {
      var attempt := 0;
      var backoff := MqttMinBackoff;
      ghost var w: nat := 0;
      while attempt <= MqttMaxRetries
        invariant 0 <= attempt <= MqttMaxRetries + 1 && w == (if attempt == 0 then 0 else attempt - 1)
        invariant forall i :: 0 <= i < attempt ==> !fetched[i]
        invariant backoff == NthBackoff(MqttMinBackoff, MqttMaxBackoff, w)
        invariant Waited(MqttMinBackoff, MqttMaxBackoff, w, old(waits))
        invariant feeds == old(feeds) + if !old(systemHealthy) then 0 else |slept| - |old(slept)| + attempt
        invariant mqttFailCount == old(mqttFailCount) + attempt && mqttSuccessCount == old(mqttSuccessCount)
        invariant lastSuccessfulRefresh == old(lastSuccessfulRefresh) && lastScheduleFetch == old(lastScheduleFetch)
        invariant attempt <= MqttMaxRetries ==>
          consecutiveFailures == old(consecutiveFailures) && systemHealthy == old(systemHealthy)
        invariant attempt > MqttMaxRetries ==> (consecutiveFailures == old(consecutiveFailures) + 1
          && systemHealthy == (old(systemHealthy) && WithinThresholds(consecutiveFailures, lastSuccessfulRefresh, now)))
      {
        if attempt > 0 {
          backoff := BackoffWait(MqttMinBackoff, MqttMaxBackoff, backoff, w, old(waits));
          w := w + 1;
        }
        FeedIfHealthy();
        if fetched[attempt] {
          FailuresBeforeIndex(fetched, attempt);
          RecordSuccess();
          return;
        }
        mqttFailCount := mqttFailCount + 1;
        if attempt == MqttMaxRetries {
          RecordExhausted();
        }
        attempt := attempt + 1;
      }
      FailuresBeforeIndex(fetched, attempt);
    }

    /** syncNTP's server list: the configured server, then each fallback that differs from it. */
    method BuildServerList(configured: string) returns (servers: seq<string>)
      ensures servers == ServerList(configured)
    {
      servers := [configured];
      var fallbacks := NtpFallbackServers();
      var i := 0;
      while i < |fallbacks|
        invariant 0 <= i <= |fallbacks|
        invariant servers == [configured] + Without(fallbacks[..i], configured)
      {
        assert fallbacks[..i + 1][..i] == fallbacks[..i];
        if fallbacks[i] != servers[0] {
          servers := servers + [fallbacks[i]];
        }
        i := i + 1;
      }
      assert fallbacks[..i] == fallbacks;
    }

    /** One server of syncNTP: feed, look it up and, if it resolved, try its addresses in
        order until one exchange succeeds; every failure is followed by a backoff wait.
        `n` failed attempts came before this server; `k` more fail here. */
    method TryServer(r: NtpServerResult, backoff: int, ghost n: nat, ghost w0: seq<int>)
      returns (synced: bool, k: nat, next: int)
      requires backoff == NthBackoff(NtpMinBackoff, NtpMaxBackoff, n)
      requires Waited(NtpMinBackoff, NtpMaxBackoff, n, w0)
      modifies this`slept, this`now, this`feeds, this`waits
      ensures synced == (true in ServerAttempts(r))
      ensures synced ==> k < |ServerAttempts(r)| && ServerAttempts(r)[k]
      ensures !synced ==> k == |ServerAttempts(r)|
      ensures forall i :: 0 <= i < k ==> !ServerAttempts(r)[i]
      ensures next == NthBackoff(NtpMinBackoff, NtpMaxBackoff, n + k)
      ensures Waited(NtpMinBackoff, NtpMaxBackoff, n + k, w0)
      ensures feeds >= old(feeds)
    {
      FeedIfHealthy();
      match r {
        case DnsFailed =>
          next := BackoffWait(NtpMinBackoff, NtpMaxBackoff, backoff, n, w0);
          return false, 1, next;
        case Resolved(xs) =>
          next := backoff;
          k := 0;
          while k < |xs|
            invariant 0 <= k <= |xs| && forall i :: 0 <= i < k ==> !xs[i]
            invariant next == NthBackoff(NtpMinBackoff, NtpMaxBackoff, n + k)
            invariant Waited(NtpMinBackoff, NtpMaxBackoff, n + k, w0)
            invariant feeds >= old(feeds)
          {
            FeedIfHealthy();
            if xs[k] {
              return true, k, next;
            }
            next := BackoffWait(NtpMinBackoff, NtpMaxBackoff, next, n + k, w0);
            k := k + 1;
          }
          return false, k, next;
      }
    }

    /** syncNTP: tries the servers in order and, for each resolved one, its addresses in
        order, until one NTP exchange succeeds. Every failed lookup or exchange is followed
        by a backoff wait (500 ms doubling to 30 s). `results[j]` is what server j gave.
        An error is returned only when some attempt failed: a list of servers that all
        resolve to no address ends without sync and without error. */
    method SyncNtp(configured: string, results: seq<NtpServerResult>)
      returns (synced: bool, failed: bool)
      requires |results| == |ServerList(configured)|
      modifies this`slept, this`now, this`feeds, this`waits, this`ntpSyncCount, this`ntpFailCount
      ensures synced == (true in NtpAttempts(results))
      ensures failed == (!synced && NtpAttempts(results) != [])
      ensures Waited(NtpMinBackoff, NtpMaxBackoff, FailuresBefore(NtpAttempts(results)), old(waits))
      ensures ntpSyncCount == old(ntpSyncCount) + (if synced then 1 else 0)
      ensures ntpFailCount == old(ntpFailCount) + (if synced then 0 else 1)
      ensures feeds >= old(feeds)
    {
      var servers := BuildServerList(configured);
      var lastErr;
      synced, lastErr := TryServers(servers, results);
      if synced {
        ntpSyncCount := ntpSyncCount + 1;
        failed := false;
      } else {
        ntpFailCount := ntpFailCount + 1;
        failed := lastErr;
      }
    }

    /** The loop of syncNTP over the servers: stops at the first successful exchange;
        `lastErr` tells whether any attempt before that failed. */
    method TryServers(servers: seq<string>, results: seq<NtpServerResult>) returns (synced: bool, lastErr: bool)
      requires |results| == |servers|
      modifies this`slept, this`now, this`feeds, this`waits
      ensures synced == (true in NtpAttempts(results))
      ensures !synced ==> lastErr == (NtpAttempts(results) != [])
      ensures Waited(NtpMinBackoff, NtpMaxBackoff, FailuresBefore(NtpAttempts(results)), old(waits))
      ensures feeds >= old(feeds)
    {
      var backoff := NtpMinBackoff;
      lastErr := false;
      ghost var fails: nat := 0;
      var j := 0;
      synced := false;
      while j < |servers| && !synced
        invariant 0 <= j <= |servers|
        invariant !synced ==> ServersLeft(results, j, fails)
        invariant !synced ==> lastErr == (fails > 0) && backoff == NthBackoff(NtpMinBackoff, NtpMaxBackoff, fails)
        invariant synced ==> true in NtpAttempts(results) && fails == FailuresBefore(NtpAttempts(results))
        invariant Waited(NtpMinBackoff, NtpMaxBackoff, fails, old(waits))
        invariant feeds >= old(feeds)
      {
        var k;
        synced, k, backoff := TryServer(results[j], backoff, fails, old(waits));
        ServersStep(results, j, fails, synced, k);
        lastErr := lastErr || k > 0;
        fails := fails + k;
        j := j + 1;
      }
      if !synced {
        assert results[j..] == [];
      }
    }
  }


  /** Failures before the first success of a concatenation. */
  lemma {:induction false} FailuresBeforeAppend(a: seq<bool>, b: seq<bool>)
    ensures true in a ==> FailuresBefore(a + b) == FailuresBefore(a)
    ensures !(true in a) ==> FailuresBefore(a + b) == |a| + FailuresBefore(b)
  {
    if a == [] {
      assert a + b == b;
    } else {
      assert (a + b)[0] == a[0] && (a + b)[1..] == a[1..] + b;
      assert a == [a[0]] + a[1..];
      FailuresBeforeAppend(a[1..], b);
    }
  }

  /** What server j contributes: if it synced after k failures, the first success of the
      remaining attempts comes after those k; if not, its k failed attempts come first. */
  /** What is known about the attempts before server j of syncNTP, `fails` of which failed
      with no success. */
  predicate ServersLeft(ts: seq<NtpServerResult>, j: nat, fails: nat)
  {
    j <= |ts|
    && FailuresBefore(NtpAttempts(ts)) == fails + FailuresBefore(NtpAttempts(ts[j..]))
    && (true in NtpAttempts(ts)) == (true in NtpAttempts(ts[j..]))
    && (NtpAttempts(ts) != []) == (fails > 0 || NtpAttempts(ts[j..]) != [])
  }

  /** One server of syncNTP, in terms of all the attempts. */
  lemma ServersStep(ts: seq<NtpServerResult>, j: nat, fails: nat, found: bool, k: nat)
    requires j < |ts| && ServersLeft(ts, j, fails)
    requires found == (true in ServerAttempts(ts[j]))
    requires found ==> k < |ServerAttempts(ts[j])| && ServerAttempts(ts[j])[k]
    requires !found ==> k == |ServerAttempts(ts[j])|
    requires forall i :: 0 <= i < k ==> !ServerAttempts(ts[j])[i]
    ensures found ==> true in NtpAttempts(ts) && fails + k == FailuresBefore(NtpAttempts(ts))
    ensures !found ==> ServersLeft(ts, j + 1, fails + k)
  {
    NtpServerStep(ts, j, found, k);
  }

  lemma NtpServerStep(ts: seq<NtpServerResult>, j: nat, found: bool, k: nat)
    requires j < |ts|
    requires found == (true in ServerAttempts(ts[j]))
    requires found ==> k < |ServerAttempts(ts[j])| && ServerAttempts(ts[j])[k]
    requires !found ==> k == |ServerAttempts(ts[j])|
    requires forall i :: 0 <= i < k ==> !ServerAttempts(ts[j])[i]
    ensures found ==> true in NtpAttempts(ts[j..]) && FailuresBefore(NtpAttempts(ts[j..])) == k
    ensures !found ==> FailuresBefore(NtpAttempts(ts[j..])) == k + FailuresBefore(NtpAttempts(ts[j + 1..]))
    ensures !found ==> (true in NtpAttempts(ts[j..])) == (true in NtpAttempts(ts[j + 1..]))
    ensures !found ==> (NtpAttempts(ts[j..]) != []) == (k > 0 || NtpAttempts(ts[j + 1..]) != [])
  {
    var xs, rest := ServerAttempts(ts[j]), NtpAttempts(ts[j + 1..]);
    assert ts[j..][0] == ts[j] && ts[j..][1..] == ts[j + 1..];
    assert NtpAttempts(ts[j..]) == xs + rest;
    FailuresBeforeAppend(xs, rest);
    if found {
      FailuresBeforeIndex(xs, k);
      assert (xs + rest)[k] == xs[k];
    }
  }

  /** Three refresh rounds in a row in which every attempt fails leave a device that started
      with no failures unhealthy: from then on the watchdog is no longer fed. */
  method ThreeFailedRounds(dev: Device)
    requires dev.consecutiveFailures == 0
    modifies dev
    ensures !dev.systemHealthy
  {
    var allFail := [false, false, false, false];
    FailuresBeforeIndex(allFail, 4);
    dev.RefreshSchedule(allFail);
    dev.RefreshSchedule(allFail);
    dev.RefreshSchedule(allFail);
  }
}
