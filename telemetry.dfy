/** The in-memory side of the telemetry package (telemetry/telemetry.go): two rings of
    eight entries for log records and metric points, four span slots with the current
    span threaded through them as a stack, the current trace context, and the switches
    that gate recording. Clocks and the network stack's PRNG are parameters. */
module Telemetry {
  import opened Common

  const QueueSize: int := 8
  const SpanSlots: int := 4
  const BodySize: int := 128
  const NameSize: int := 32
  const BodyBufSize: int := 2048

  /** OTLP severity numbers. */
  const SeverityDebug: Byte := 5
  const SeverityInfo: Byte := 9
  const SeverityWarn: Byte := 13
  const SeverityError: Byte := 17

  /** OTLP span status codes. */
  const SpanStatusOK: int := 1
  const SpanStatusError: int := 2

  /** The trace and span ids a log record carries when a trace context exists. */
  datatype TraceCtx = TraceCtx(traceId: seq<Byte>, spanId: seq<Byte>)

  /** `LogEntry`: `BodyLen`/`Body` become the body itself, and `HasTrace` with the two id
      arrays becomes an optional trace context. */
  datatype LogEntry = LogEntry(timestamp: Int64, severity: Byte, body: seq<Byte>, trace: Option<TraceCtx>)

  /** `MetricPoint`: `NameLen`/`Name` become the name itself. */
  datatype MetricPoint = MetricPoint(timestamp: Int64, value: Int64, name: seq<Byte>, isGauge: bool)

  /** `Span`. */
  datatype Span = Span(traceId: seq<Byte>, spanId: seq<Byte>, parentId: seq<Byte>, prevSpanId: seq<Byte>,
                       startTime: Int64, endTime: Int64, name: seq<Byte>, statusOK: bool, active: bool)

  function Zeros(n: nat): (r: seq<Byte>)
    ensures |r| == n && forall i :: 0 <= i < n ==> r[i] == 0
  {
    seq(n, _ => 0)
  }

  /** The zero values the package's arrays start with. */
  const EmptyLog: LogEntry := LogEntry(0, 0, [], None)
  const EmptyMetric: MetricPoint := MetricPoint(0, 0, [], false)
  const EmptySpan: Span := Span(Zeros(16), Zeros(8), Zeros(8), Zeros(8), 0, 0, [], false, false)

  /** A string copied into a fixed array of `size` bytes: its first `size` bytes. */
  function Clipped(s: seq<Byte>, size: nat): (r: seq<Byte>)
    ensures |r| == Min(|s|, size) && r == s[..|r|]
  {
    if |s| <= size then s else s[..size]
  }

  // ---------------------------------------------------------------------------------
  // The log and metric rings
  // ---------------------------------------------------------------------------------

  predicate RingOk(head: int, count: int)
  {
    0 <= head < QueueSize && 0 <= count <= QueueSize
  }

  /** The entries of a ring, oldest first: count slots from head on, wrapping around. */
  function RingItems<T>(slots: seq<T>, head: int, count: int): (r: seq<T>)
    requires |slots| == QueueSize && RingOk(head, count)
    ensures |r| == count
  {
    seq(count, i requires 0 <= i < count => slots[(head + i) % QueueSize])
  }

  /** What a queue of QueueSize entries that drops its oldest entry keeps of xs. */
  function Newest<T>(xs: seq<T>): (r: seq<T>)
    ensures |r| == Min(|xs|, QueueSize)
    ensures r == xs[|xs| - |r|..]
  {
    if |xs| <= QueueSize then xs else xs[|xs| - QueueSize..]
  }

  /** One push as `Log` and `recordMetric` do it: the slot after the newest entry is
      written; when the ring is full that slot is the oldest entry's and head moves on. */
  lemma RingPush<T>(slots: seq<T>, head: int, count: int, e: T, idx: int, head': int, count': int)
    requires |slots| == QueueSize && RingOk(head, count)
    requires idx == (head + count) % QueueSize
    requires head' == if count >= QueueSize then (head + 1) % QueueSize else head
    requires count' == if count >= QueueSize then count else count + 1
    ensures RingOk(head', count')
    ensures RingItems(slots[idx := e], head', count') == Newest(RingItems(slots, head, count) + [e])
  {
    if count < QueueSize {
      PushWithRoom(slots, head, count, e);
    } else {
      PushWhenFull(slots, head, e);
    }
  }

  /** `x % QueueSize` for the indices a ring of QueueSize slots can reach from a head. */
  lemma Wrap(x: int)
    requires 0 <= x < 2 * QueueSize
    ensures x % QueueSize == if x < QueueSize then x else x - QueueSize
  {
  }

  lemma PushWithRoom<T>(slots: seq<T>, head: int, count: int, e: T)
    requires |slots| == QueueSize && RingOk(head, count) && count < QueueSize
    ensures var idx := (head + count) % QueueSize;
            RingItems(slots[idx := e], head, count + 1) == RingItems(slots, head, count) + [e]
  {
    var idx := (head + count) % QueueSize;
    Wrap(head + count);
    var before := RingItems(slots, head, count);
    var after := RingItems(slots[idx := e], head, count + 1);
    forall i | 0 <= i < count
      ensures after[i] == before[i]
    {
      Wrap(head + i);
    }
  }

  lemma PushWhenFull<T>(slots: seq<T>, head: int, e: T)
    requires |slots| == QueueSize && RingOk(head, QueueSize)
    ensures var idx := (head + QueueSize) % QueueSize;
            RingItems(slots[idx := e], (head + 1) % QueueSize, QueueSize)
            == (RingItems(slots, head, QueueSize) + [e])[1..]
  {
    var idx := (head + QueueSize) % QueueSize;
    Wrap(head + QueueSize);
    var head' := (head + 1) % QueueSize;
    Wrap(head + 1);
    var before := RingItems(slots, head, QueueSize) + [e];
    var after := RingItems(slots[idx := e], head', QueueSize);
    forall i | 0 <= i < QueueSize
      ensures after[i] == before[i + 1]
    {
      Wrap(head' + i);
      Wrap(head + i + 1);
    }
  }

  /** The record `Log` writes: the body cut to 128 bytes, and the trace context only when one
      exists. */
  function NewLogEntry(severity: Byte, msg: seq<Byte>, now: Int64, hasTrace: bool, traceId: seq<Byte>,
                       spanId: seq<Byte>): (e: LogEntry)
    ensures |e.body| == Min(|msg|, BodySize) && e.body == msg[..|e.body|]
    ensures e.trace.Some? <==> hasTrace
    ensures hasTrace ==> e.trace.value == TraceCtx(traceId, spanId)
    ensures e.timestamp == now && e.severity == severity
  {
    LogEntry(now, severity, Clipped(msg, BodySize), if hasTrace then Some(TraceCtx(traceId, spanId)) else None)
  }

  /** The point `recordMetric` writes: the name cut to 32 bytes. */
  function NewMetricPoint(name: seq<Byte>, value: Int64, isGauge: bool, now: Int64): (p: MetricPoint)
    ensures |p.name| == Min(|name|, NameSize) && p.name == name[..|p.name|]
    ensures p.timestamp == now && p.value == value && p.isGauge == isGauge
  {
    MetricPoint(now, value, Clipped(name, NameSize), isGauge)
  }

  // ---------------------------------------------------------------------------------
  // Spans
  // ---------------------------------------------------------------------------------

  /** The span bookkeeping: the four slots, SpanHead, SpanCount and the current trace and
      span ids. */
  datatype SpanState = SpanState(slots: seq<Span>, head: int, count: int, traceId: seq<Byte>, current: seq<Byte>)

  predicate SpanStateOk(s: SpanState)
  {
    |s.slots| == SpanSlots && 0 <= s.head < SpanSlots && 0 <= s.count <= SpanSlots
  }

  /** The first inactive slot, or -1 when all are active. */
  function FirstInactive(slots: seq<Span>): (r: int)
    ensures -1 <= r < |slots|
    ensures r == -1 <==> forall j :: 0 <= j < |slots| ==> slots[j].active
    ensures r >= 0 ==> !slots[r].active && forall j :: 0 <= j < r ==> slots[j].active
  {
    if slots == [] then -1
    else if !slots[0].active then 0
    else
      var k := FirstInactive(slots[1..]);
      if k == -1 then -1 else k + 1
  }

  /** Four bytes of a 32-bit word, most significant first. */
  function BigEndian32(w: int): (b: seq<Byte>)
    requires IsU32(w)
    ensures |b| == 4
  {
    [w / 0x100_0000, (w / 0x1_0000) % 256, (w / 256) % 256, w % 256]
  }

  /** The value of four bytes read most significant first. */
  function BigEndianValue(b: seq<Byte>): int
    requires |b| == 4
  {
    ((b[0] as int * 256 + b[1] as int) * 256 + b[2] as int) * 256 + b[3] as int
  }

  /** Words written one after the other, each big-endian. */
  function Words(ws: seq<int>): (b: seq<Byte>)
    requires forall k :: 0 <= k < |ws| ==> IsU32(ws[k])
    ensures |b| == 4 * |ws|
  {
    if ws == [] then [] else Words(ws[..|ws| - 1]) + BigEndian32(ws[|ws| - 1])
  }

  /** The id StartSpan gives a span: two PRNG words, big-endian. */
  function NewSpanId(r1: int, r2: int): (id: seq<Byte>)
    requires IsU32(r1) && IsU32(r2)
    ensures |id| == 8
  {
    BigEndian32(r1) + BigEndian32(r2)
  }

  /** StartSpan while recording: the slot it takes and the bookkeeping afterwards. The
      first inactive slot is taken; when all four are active the SpanHead slot is reused
      and SpanHead advances. The new span is active, not ended, not OK, belongs to the
      current trace, has the current span as parent (remembered for EndSpan), and becomes
      the current span. */
  function StartSpec(s: SpanState, name: seq<Byte>, now: Int64, r1: int, r2: int): (r: (SpanState, int))
    requires SpanStateOk(s) && IsU32(r1) && IsU32(r2)
    ensures SpanStateOk(r.0) && 0 <= r.1 < SpanSlots
  {
    var free := FirstInactive(s.slots);
    var idx := if free >= 0 then free else s.head;
    var head := if free >= 0 then s.head else (s.head + 1) % SpanSlots;
    var id := NewSpanId(r1, r2);
    var span := Span(s.traceId, id, s.current, s.current, now, 0, Clipped(name, NameSize), false, true);
    (s.(slots := s.slots[idx := span], head := head, current := id), idx)
  }

  /** EndSpan: nothing for an index out of range or an inactive slot; otherwise the span
      is ended at now with the given status, the span that was current when it started is
      current again, and SpanCount grows up to 4. */
  function EndSpec(s: SpanState, idx: int, statusOK: bool, now: Int64): (r: SpanState)
    requires SpanStateOk(s)
    ensures SpanStateOk(r)
  {
    if idx < 0 || idx >= SpanSlots || !s.slots[idx].active then s
    else
      var span := s.slots[idx];
      s.(slots := s.slots[idx := span.(endTime := now, statusOK := statusOK, active := false)],
         current := span.prevSpanId,
         count := if s.count < SpanSlots then s.count + 1 else s.count)
  }

  // ---------------------------------------------------------------------------------
  // The package state
  // ---------------------------------------------------------------------------------

  /** The package-level variables of telemetry.go: the queues, the span slots, the trace
      context, the counters, and `BodyBuf`, the buffer the JSON payloads are built in. */
  class Telemetry {
    var enabled: bool
    var paused: bool
    const logQueue: array<LogEntry>
    var logHead: int
    var logCount: int
    const metricQueue: array<MetricPoint>
    var metricHead: int
    var metricCount: int
    const spanQueue: array<Span>
    var spanHead: int
    var spanCount: int
    var currentTraceId: seq<Byte>
    var currentSpanId: seq<Byte>
    var hasTraceCtx: bool
    var sentLogs: int
    var sentMetrics: int
    var sentSpans: int
    var sendErrors: int
    const body: array<Byte>

    ghost predicate Valid()
      reads this
    {
      logQueue.Length == QueueSize && RingOk(logHead, logCount)
      && metricQueue.Length == QueueSize && RingOk(metricHead, metricCount)
      && spanQueue.Length == SpanSlots && 0 <= spanHead < SpanSlots && 0 <= spanCount <= SpanSlots
      && body.Length == BodyBufSize
    }

    /** The queued log records, oldest first. */
    ghost function Logs(): seq<LogEntry>
      reads this, logQueue
      requires Valid()
    {
      RingItems(logQueue[..], logHead, logCount)
    }

    /** The queued metric points, oldest first. */
    ghost function Metrics(): seq<MetricPoint>
      reads this, metricQueue
      requires Valid()
    {
      RingItems(metricQueue[..], metricHead, metricCount)
    }

    ghost function Spans(): SpanState
      reads this, spanQueue
    {
      SpanState(spanQueue[..], spanHead, spanCount, currentTraceId, currentSpanId)
    }

    /** The zero state the package starts in: disabled, every queue empty, no trace context. */
    constructor ()
      ensures Valid() && !enabled && !paused && !hasTraceCtx
      ensures Logs() == [] && Metrics() == []
      ensures spanQueue[..] == seq(SpanSlots, _ => EmptySpan) && spanHead == 0 && spanCount == 0
      ensures currentTraceId == Zeros(16) && currentSpanId == Zeros(8)
      ensures sentLogs == 0 && sentMetrics == 0 && sentSpans == 0 && sendErrors == 0
      ensures fresh(logQueue) && fresh(metricQueue) && fresh(spanQueue) && fresh(body)
    {
      enabled, paused := false, false;
      logQueue := new LogEntry[QueueSize](_ => EmptyLog);
      logHead, logCount := 0, 0;
      metricQueue := new MetricPoint[QueueSize](_ => EmptyMetric);
      metricHead, metricCount := 0, 0;
      spanQueue := new Span[SpanSlots](_ => EmptySpan);
      spanHead, spanCount := 0, 0;
      currentTraceId, currentSpanId, hasTraceCtx := Zeros(16), Zeros(8), false;
      sentLogs, sentMetrics, sentSpans, sendErrors := 0, 0, 0, 0;
      body := new Byte[BodyBufSize];
    }

    /** `Init`, without the network stack, logger and collector it records: recording is
        switched on. */
    method Init()
      modifies this`enabled
      ensures enabled
    {
      Enable();
    }

    /** `Enable`: recording is switched back on. */
    method Enable()
      modifies this`enabled
      ensures enabled
    {
      enabled := true;
    }

    /** `Disable`: recording and sending stop until `Enable`. */
    method Disable()
      modifies this`enabled
      ensures !enabled
    {
      enabled := false;
    }

    /** `Log`: nothing while disabled or paused; otherwise the record joins the ring,
        overwriting the oldest when eight are queued. */
    method Log(severity: Byte, msg: seq<Byte>, now: Int64)
      requires Valid()
      modifies this`logHead, this`logCount, logQueue
      ensures Valid()
      ensures !enabled || paused ==> logHead == old(logHead) && logCount == old(logCount)
                                     && logQueue[..] == old(logQueue[..])
      ensures enabled && !paused ==>
                Logs() == Newest(old(Logs()) + [NewLogEntry(severity, msg, now, hasTraceCtx, currentTraceId, currentSpanId)])
    {
      if !enabled || paused {
        return;
      }
      ghost var slots := logQueue[..];
      var idx := (logHead + logCount) % QueueSize;
      var entry := NewLogEntry(severity, msg, now, hasTraceCtx, currentTraceId, currentSpanId);
      ghost var head, count := logHead, logCount;
      if logCount >= QueueSize {
        logHead := (logHead + 1) % QueueSize;
      } else {
        logCount := logCount + 1;
      }
      logQueue[idx] := entry;
      assert logQueue[..] == slots[idx := entry];
      RingPush(slots, head, count, entry, idx, logHead, logCount);
    }

    /** `recordMetric` (behind `RecordGauge` and `RecordCounter`): nothing while disabled or
        paused; otherwise the point joins the ring, overwriting the oldest when eight are
        queued. */
    method RecordMetric(name: seq<Byte>, value: Int64, isGauge: bool, now: Int64)
      requires Valid()
      modifies this`metricHead, this`metricCount, metricQueue
      ensures Valid()
      ensures !enabled || paused ==> metricHead == old(metricHead) && metricCount == old(metricCount)
                                     && metricQueue[..] == old(metricQueue[..])
      ensures enabled && !paused ==> Metrics() == Newest(old(Metrics()) + [NewMetricPoint(name, value, isGauge, now)])
    {
      if !enabled || paused {
        return;
      }
      ghost var slots := metricQueue[..];
      var idx := (metricHead + metricCount) % QueueSize;
      var point := NewMetricPoint(name, value, isGauge, now);
      ghost var head, count := metricHead, metricCount;
      if metricCount >= QueueSize {
        metricHead := (metricHead + 1) % QueueSize;
      } else {
        metricCount := metricCount + 1;
      }
      metricQueue[idx] := point;
      assert metricQueue[..] == slots[idx := point];
      RingPush(slots, head, count, point, idx, metricHead, metricCount);
    }

    /** `GenerateTraceID`: a fresh trace context. The trace id is the Unix time in seconds
        cut to 32 bits followed by three PRNG words, the span id two more PRNG words, all
        big-endian. */
    method GenerateTraceID(unixSeconds: int, rand: seq<int>)
      requires |rand| == 5 && forall k :: 0 <= k < 5 ==> IsU32(rand[k])
      modifies this`currentTraceId, this`currentSpanId, this`hasTraceCtx
      ensures hasTraceCtx
      ensures currentTraceId == BigEndian32(unixSeconds % U32) + Words(rand[..3])
      ensures currentSpanId == Words(rand[3..])
    {
      var trace := BigEndian32(unixSeconds % U32);
      for i := 0 to 3
        invariant trace == BigEndian32(unixSeconds % U32) + Words(rand[..i])
      {
        assert rand[..i + 1][..i] == rand[..i];
        trace := trace + BigEndian32(rand[i]);
      }
      var span: seq<Byte> := [];
      for i := 0 to 2
        invariant span == Words(rand[3..3 + i])
      {
        assert rand[3..3 + i + 1][..i] == rand[3..3 + i];
        span := span + BigEndian32(rand[3 + i]);
      }
      assert rand[3..5] == rand[3..];
      currentTraceId := trace;
      currentSpanId := span;
      hasTraceCtx := true;
    }

    /** `StartSpan`: -1 while disabled or paused; otherwise the slot StartSpec picks, with
        the bookkeeping StartSpec describes. */
    method StartSpan(name: seq<Byte>, now: Int64, r1: int, r2: int) returns (idx: int)
      requires Valid() && IsU32(r1) && IsU32(r2)
      modifies this`spanHead, this`currentSpanId, spanQueue
      ensures Valid()
      ensures !enabled || paused ==> idx == -1 && Spans() == old(Spans())
      ensures enabled && !paused ==> (Spans(), idx) == StartSpec(old(Spans()), name, now, r1, r2)
    {
      if !enabled || paused {
        return -1;
      }
      idx := -1;
      var i := 0;
      while i < SpanSlots
        invariant 0 <= i <= SpanSlots && idx == -1
        invariant forall j :: 0 <= j < i ==> spanQueue[j].active
      {
        if !spanQueue[i].active {
          idx := i;
          break;
        }
        i := i + 1;
      }
      assert idx == FirstInactive(spanQueue[..]);
      if idx == -1 {
        idx := spanHead;
        spanHead := (spanHead + 1) % SpanSlots;
      }
      var id := NewSpanId(r1, r2);
      spanQueue[idx] := Span(currentTraceId, id, currentSpanId, currentSpanId, now, 0,
                             Clipped(name, NameSize), false, true);
      currentSpanId := id;
    }

    /** `EndSpan`: the change EndSpec describes. */
    method EndSpan(idx: int, statusOK: bool, now: Int64)
      requires Valid()
      modifies this`spanCount, this`currentSpanId, spanQueue
      ensures Valid()
      ensures Spans() == EndSpec(old(Spans()), idx, statusOK, now)
    {
      if idx < 0 || idx >= SpanSlots {
        return;
      }
      var span := spanQueue[idx];
      if !span.active {
        return;
      }
      spanQueue[idx] := span.(endTime := now, statusOK := statusOK, active := false);
      currentSpanId := span.prevSpanId;
      if spanCount < SpanSlots {
        spanCount := spanCount + 1;
      }
    }

    /** `Pause`: recording and sending stop. */
    method Pause()
      modifies this`paused
      ensures paused
    {
      paused := true;
    }

    /** `Resume`: recording and sending start again. */
    method Resume()
      modifies this`paused
      ensures !paused
    {
      paused := false;
    }

    /** `IsPaused`. */
    method IsPaused() returns (p: bool)
      ensures p == paused
    {
      p := paused;
    }
  }
}
