/** `flushLogs`, `flushMetrics` and `flushSpans` of telemetry.go: build a payload in
    `BodyBuf`, clear the queue, hand the payload to the HTTP POST and keep the counters.
    The POST itself is the network: its outcome is the parameter `delivered`, and what
    would be sent is returned as a `Post`. */
module TelemetryFlush {
  import opened Common
  import opened Telemetry
  import opened OtlpJson

  /** A request `sendHTTPPost` would send: the collector path and the JSON body. */
  datatype Post = Post(path: seq<Byte>, body: seq<Byte>)

  const LogsPath: seq<Byte> := Ascii("/v1/logs")
  const MetricsPath: seq<Byte> := Ascii("/v1/metrics")
  const TracesPath: seq<Byte> := Ascii("/v1/traces")

  /** `flushLogs`: nothing while the queue is empty, recording is off or paused; otherwise
      the queued records go out as one logs document, the ring is emptied, and the
      counters record the outcome of the POST. */
  method FlushLogs(t: Telemetry, version: seq<Byte>, gitSha: seq<Byte>, delivered: bool)
    returns (post: Option<Post>)
    requires t.Valid()
    modifies t`logHead, t`logCount, t`sentLogs, t`sendErrors, t.body
    ensures t.Valid()
    ensures old(t.logCount) == 0 || !t.enabled || t.paused ==>
              post == None && t.logHead == old(t.logHead) && t.logCount == old(t.logCount)
    ensures old(t.logCount) > 0 && t.enabled && !t.paused ==>
              t.logHead == 0 && t.logCount == 0
              && post == Some(Post(LogsPath, PutAll([], LogsDocument(old(t.Logs()), version, gitSha))))
    ensures post == None ==> t.sentLogs == old(t.sentLogs) && t.sendErrors == old(t.sendErrors)
    ensures post.Some? && delivered ==> t.sentLogs == old(t.sentLogs) + old(t.logCount) && t.sendErrors == old(t.sendErrors)
    ensures post.Some? && !delivered ==> t.sentLogs == old(t.sentLogs) && t.sendErrors == old(t.sendErrors) + 1
  {
    post := None;
    if t.logCount > 0 && t.enabled && !t.paused {
      post := PostLogs(t, version, gitSha);
      SettleLogs(t, delivered);
    }
  }

  /** The payload half of `flushLogs`: BuildLogsJSON over a nonempty ring. */
  method PostLogs(t: Telemetry, version: seq<Byte>, gitSha: seq<Byte>) returns (post: Option<Post>)
    requires t.Valid() && t.logCount > 0
    modifies t.body
    ensures t.Valid() && t.Logs() == old(t.Logs())
    ensures post == Some(Post(LogsPath, PutAll([], LogsDocument(old(t.Logs()), version, gitSha))))
  {
    var n := BuildLogsJSON(t, version, gitSha);
    post := Some(Post(LogsPath, t.body[..n]));
  }

  /** The bookkeeping of `flushLogs` once the payload is built: the ring is emptied and
      the POST adds the old LogCount or one send error. */
  method SettleLogs(t: Telemetry, delivered: bool)
    requires t.Valid()
    modifies t`logHead, t`logCount, t`sentLogs, t`sendErrors
    ensures t.Valid() && t.logHead == 0 && t.logCount == 0
    ensures delivered ==> t.sentLogs == old(t.sentLogs) + old(t.logCount) && t.sendErrors == old(t.sendErrors)
    ensures !delivered ==> t.sentLogs == old(t.sentLogs) && t.sendErrors == old(t.sendErrors) + 1
  {
    var count := t.logCount;
    t.logHead, t.logCount := 0, 0;
    if delivered {
      t.sentLogs := t.sentLogs + count;
    } else {
      t.sendErrors := t.sendErrors + 1;
    }
  }

  /** `flushMetrics`: the same for the metric ring and a metrics document. */
  method FlushMetrics(t: Telemetry, version: seq<Byte>, gitSha: seq<Byte>, delivered: bool)
    returns (post: Option<Post>)
    requires t.Valid()
    modifies t`metricHead, t`metricCount, t`sentMetrics, t`sendErrors, t.body
    ensures t.Valid()
    ensures old(t.metricCount) == 0 || !t.enabled || t.paused ==>
              post == None && t.metricHead == old(t.metricHead) && t.metricCount == old(t.metricCount)
    ensures old(t.metricCount) > 0 && t.enabled && !t.paused ==>
              t.metricHead == 0 && t.metricCount == 0
              && post == Some(Post(MetricsPath, PutAll([], MetricsDocument(old(t.Metrics()), version, gitSha))))
    ensures post == None ==> t.sentMetrics == old(t.sentMetrics) && t.sendErrors == old(t.sendErrors)
    ensures post.Some? && delivered ==>
              t.sentMetrics == old(t.sentMetrics) + old(t.metricCount) && t.sendErrors == old(t.sendErrors)
    ensures post.Some? && !delivered ==> t.sentMetrics == old(t.sentMetrics) && t.sendErrors == old(t.sendErrors) + 1
  {
    post := None;
    if t.metricCount > 0 && t.enabled && !t.paused {
      post := PostMetrics(t, version, gitSha);
      SettleMetrics(t, delivered);
    }
  }

  /** The payload half of `flushMetrics`: BuildMetricsJSON over a nonempty ring. */
  method PostMetrics(t: Telemetry, version: seq<Byte>, gitSha: seq<Byte>) returns (post: Option<Post>)
    requires t.Valid() && t.metricCount > 0
    modifies t.body
    ensures t.Valid() && t.Metrics() == old(t.Metrics())
    ensures post == Some(Post(MetricsPath, PutAll([], MetricsDocument(old(t.Metrics()), version, gitSha))))
  {
    var n := BuildMetricsJSON(t, version, gitSha);
    post := Some(Post(MetricsPath, t.body[..n]));
  }

  /** The bookkeeping of `flushMetrics` once the payload is built. */
  method SettleMetrics(t: Telemetry, delivered: bool)
    requires t.Valid()
    modifies t`metricHead, t`metricCount, t`sentMetrics, t`sendErrors
    ensures t.Valid() && t.metricHead == 0 && t.metricCount == 0
    ensures delivered ==> t.sentMetrics == old(t.sentMetrics) + old(t.metricCount) && t.sendErrors == old(t.sendErrors)
    ensures !delivered ==> t.sentMetrics == old(t.sentMetrics) && t.sendErrors == old(t.sendErrors) + 1
  {
    var count := t.metricCount;
    t.metricHead, t.metricCount := 0, 0;
    if delivered {
      t.sentMetrics := t.sentMetrics + count;
    } else {
      t.sendErrors := t.sendErrors + 1;
    }
  }

  /** `flushSpans`: nothing while no span has ended since the last flush, recording is off
      or paused. Otherwise every completed span is sent and cleared and SpanCount drops to
      zero; when no slot holds a completed span nothing is posted. A delivered POST adds
      SpanCount, the number of spans ended (at most four), not the number sent. */
  method FlushSpans(t: Telemetry, version: seq<Byte>, gitSha: seq<Byte>, delivered: bool)
    returns (post: Option<Post>)
    requires t.Valid()
    modifies t`spanCount, t`sentSpans, t`sendErrors, t.body, t.spanQueue
    ensures t.Valid()
    ensures old(t.spanCount) == 0 || !t.enabled || t.paused ==>
              post == None && t.spanCount == old(t.spanCount) && t.spanQueue[..] == old(t.spanQueue[..])
    ensures old(t.spanCount) > 0 && t.enabled && !t.paused ==>
              t.spanCount == 0 && t.spanQueue[..] == ClearedSlots(old(t.spanQueue[..]))
              && (Emitted(old(t.spanQueue[..])) == [] ==> post == None)
              && (Emitted(old(t.spanQueue[..])) != [] ==>
                    post == Some(Post(TracesPath, PutAll([], SpansDocument(Emitted(old(t.spanQueue[..])), version, gitSha)))))
    ensures post == None ==> t.sentSpans == old(t.sentSpans) && t.sendErrors == old(t.sendErrors)
    ensures post.Some? && delivered ==> t.sentSpans == old(t.sentSpans) + old(t.spanCount) && t.sendErrors == old(t.sendErrors)
    ensures post.Some? && !delivered ==> t.sentSpans == old(t.sentSpans) && t.sendErrors == old(t.sendErrors) + 1
  {
    post := None;
    if t.spanCount > 0 && t.enabled && !t.paused {
      post := PostSpans(t, version, gitSha);
      SettleSpans(t, post.Some?, delivered);
    }
  }

  /** The payload half of `flushSpans`: BuildSpansJSON, and the POST when it wrote
      something. */
  method PostSpans(t: Telemetry, version: seq<Byte>, gitSha: seq<Byte>) returns (post: Option<Post>)
    requires t.Valid()
    modifies t.body, t.spanQueue
    ensures t.spanQueue[..] == ClearedSlots(old(t.spanQueue[..]))
    ensures Emitted(old(t.spanQueue[..])) == [] ==> post == None
    ensures Emitted(old(t.spanQueue[..])) != [] ==>
              post == Some(Post(TracesPath, PutAll([], SpansDocument(Emitted(old(t.spanQueue[..])), version, gitSha))))
  {
    ghost var slots := t.spanQueue[..];
    var n := BuildSpansJSON(t, version, gitSha);
    if n == 0 {
      NothingToClear(slots);
      return None;
    }
    post := Some(Post(TracesPath, t.body[..n]));
  }

  /** The bookkeeping of `flushSpans` once the payload is built: SpanCount drops to zero,
      and a POST, when there was one, adds the old SpanCount or one send error. */
  method SettleSpans(t: Telemetry, posted: bool, delivered: bool)
    requires t.Valid()
    modifies t`spanCount, t`sentSpans, t`sendErrors
    ensures t.Valid() && t.spanCount == 0
    ensures !posted ==> t.sentSpans == old(t.sentSpans) && t.sendErrors == old(t.sendErrors)
    ensures posted && delivered ==> t.sentSpans == old(t.sentSpans) + old(t.spanCount) && t.sendErrors == old(t.sendErrors)
    ensures posted && !delivered ==> t.sentSpans == old(t.sentSpans) && t.sendErrors == old(t.sendErrors) + 1
  {
    var count := t.spanCount;
    t.spanCount := 0;
    if posted {
      if delivered {
        t.sentSpans := t.sentSpans + count;
      } else {
        t.sendErrors := t.sendErrors + 1;
      }
    }
  }

  /** `Flush`: logs, then metrics, then spans. While recording is on and not paused every
      queue is empty afterwards and each non-empty queue has gone out as its document;
      otherwise nothing changes. One delivery outcome stands for all three POSTs. */
  method Flush(t: Telemetry, version: seq<Byte>, gitSha: seq<Byte>, delivered: bool)
    returns (logs: Option<Post>, metrics: Option<Post>, spans: Option<Post>)
    requires t.Valid()
    modifies t`logHead, t`logCount, t`metricHead, t`metricCount, t`spanCount
    modifies t`sentLogs, t`sentMetrics, t`sentSpans, t`sendErrors, t.body, t.spanQueue
    ensures t.Valid()
    ensures t.enabled && !t.paused ==> t.logCount == 0 && t.metricCount == 0 && t.spanCount == 0
    ensures !t.enabled || t.paused ==>
              logs == None && metrics == None && spans == None
              && t.logHead == old(t.logHead) && t.logCount == old(t.logCount)
              && t.metricHead == old(t.metricHead) && t.metricCount == old(t.metricCount)
              && t.spanCount == old(t.spanCount) && t.spanQueue[..] == old(t.spanQueue[..])
    ensures logs.Some? <==> old(t.logCount) > 0 && t.enabled && !t.paused
    ensures logs.Some? ==> logs.value == Post(LogsPath, PutAll([], LogsDocument(old(t.Logs()), version, gitSha)))
    ensures metrics.Some? <==> old(t.metricCount) > 0 && t.enabled && !t.paused
    ensures metrics.Some? ==>
              metrics.value == Post(MetricsPath, PutAll([], MetricsDocument(old(t.Metrics()), version, gitSha)))
    ensures spans.Some? <==> old(t.spanCount) > 0 && t.enabled && !t.paused && Emitted(old(t.spanQueue[..])) != []
    ensures spans.Some? ==>
              spans.value == Post(TracesPath, PutAll([], SpansDocument(Emitted(old(t.spanQueue[..])), version, gitSha)))
  {
    logs := FlushLogs(t, version, gitSha, delivered);
    metrics := FlushMetrics(t, version, gitSha, delivered);
    spans := FlushSpans(t, version, gitSha, delivered);
  }

  /** With no completed span, clearing changes no slot. */
  lemma NothingToClear(slots: seq<Span>)
    requires Emitted(slots) == []
    ensures ClearedSlots(slots) == slots
  {
    forall j | 0 <= j < |slots|
      ensures ClearedSlots(slots)[j] == slots[j]
    {
      NotCompletedIfNoneEmitted(slots, j);
    }
  }

  /** A slot whose span is completed shows up among the emitted spans. */
  lemma {:induction false} NotCompletedIfNoneEmitted(slots: seq<Span>, j: int)
    requires 0 <= j < |slots| && Emitted(slots) == []
    ensures !Completed(slots[j])
    decreases |slots|
  {
    var init := slots[..|slots| - 1];
    if j < |slots| - 1 {
      assert init[j] == slots[j];
      NotCompletedIfNoneEmitted(init, j);
    }
  }
}
