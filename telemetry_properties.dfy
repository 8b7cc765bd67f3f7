/** What the telemetry queues promise over several calls: the rings keep the newest eight
    entries in order, and the span slots behave as a stack of current spans. */
module TelemetryProperties {
  import opened Common
  import opened Telemetry

  /** The contents after pushing each of xs in turn, as `Log` and `recordMetric` do. */
  function Pushed<T>(items: seq<T>, xs: seq<T>): seq<T>
    decreases |xs|
  {
    if xs == [] then items else Pushed(Newest(items + [xs[0]]), xs[1..])
  }

  /** Any run of pushes into a ring of at most eight entries keeps the newest eight of
      everything pushed, oldest first. */
  lemma {:induction false} PushedKeepsNewest<T>(items: seq<T>, xs: seq<T>)
    requires |items| <= QueueSize
    ensures Pushed(items, xs) == Newest(items + xs)
    decreases |xs|
  {
    if xs != [] {
      var next := Newest(items + [xs[0]]);
      var rest := xs[1..];
      calc {
        Pushed(items, xs);
        Pushed(next, rest);
        { PushedKeepsNewest(next, rest); }
        Newest(next + rest);
        { NewestAppend(items + [xs[0]], rest); }
        Newest((items + [xs[0]]) + rest);
        { assert (items + [xs[0]]) + rest == items + xs; }
        Newest(items + xs);
      }
    }
  }

  /** Dropping early then pushing more keeps the same newest eight. */
  lemma NewestAppend<T>(a: seq<T>, b: seq<T>)
    ensures Newest(Newest(a) + b) == Newest(a + b)
  {
    var n := Newest(a);
    if |b| < QueueSize {
      assert n + b == (a + b)[|a| - |n|..];
    } else {
      assert (n + b)[|n + b| - QueueSize..] == (a + b)[|a + b| - QueueSize..];
    }
  }

  /** Twelve pushes into an empty ring leave the last eight, 4 through 11, in order. */
  lemma TwelvePushes()
    ensures Pushed([], seq(12, i => i)) == seq(8, i => i + 4)
  {
    var xs: seq<int> := seq(12, i => i);
    var ys: seq<int> := seq(8, i => i + 4);
    PushedKeepsNewest([], xs);
    assert [] + xs == xs;
    assert |xs[4..]| == |ys|;
    forall k | 0 <= k < 8
      ensures xs[4..][k] == ys[k]
    {
    }
  }

  /** The span StartSpan fills is the first inactive slot; only when all four are active
      is the SpanHead slot reused, and then SpanHead advances. */
  lemma StartSlot(s: SpanState, name: seq<Byte>, now: Int64, r1: int, r2: int)
    requires SpanStateOk(s) && IsU32(r1) && IsU32(r2)
    ensures var (s', idx) := StartSpec(s, name, now, r1, r2);
            (forall j :: 0 <= j < idx ==> s.slots[j].active)
            && (!s.slots[idx].active || (forall j :: 0 <= j < SpanSlots ==> s.slots[j].active))
            && ((exists j :: 0 <= j < SpanSlots && !s.slots[j].active)
                ==> !s.slots[idx].active && s'.head == s.head)
            && ((forall j :: 0 <= j < SpanSlots ==> s.slots[j].active)
                ==> idx == s.head && s'.head == (s.head + 1) % SpanSlots)
            && (forall j :: 0 <= j < SpanSlots && j != idx ==> s'.slots[j] == s.slots[j])
  {
  }

  /** The span StartSpan fills is active and current, and its parent is the span that
      was current before. */
  lemma StartNests(s: SpanState, name: seq<Byte>, now: Int64, r1: int, r2: int)
    requires SpanStateOk(s) && IsU32(r1) && IsU32(r2)
    ensures var (s', idx) := StartSpec(s, name, now, r1, r2);
            var span := s'.slots[idx];
            span.active && span.endTime == 0 && span.parentId == s.current && span.traceId == s.traceId
            && s'.current == span.spanId && span.spanId == NewSpanId(r1, r2)
            && |span.name| == Min(|name|, NameSize) && span.name == name[..|span.name|]
  {
  }

  /** Ending the span just started makes the previous span current again. */
  lemma EndRestores(s: SpanState, name: seq<Byte>, t0: Int64, r1: int, r2: int, ok: bool, t1: Int64)
    requires SpanStateOk(s) && IsU32(r1) && IsU32(r2)
    ensures var (s', idx) := StartSpec(s, name, t0, r1, r2);
            var s'' := EndSpec(s', idx, ok, t1);
            s''.current == s.current && !s''.slots[idx].active && s''.slots[idx].endTime == t1
            && s''.slots[idx].statusOK == ok && s''.count == Min(s.count + 1, SpanSlots)
  {
  }

  /** Ending an index out of range or a slot that is not active changes nothing. */
  lemma EndIgnoresStale(s: SpanState, idx: int, ok: bool, now: Int64)
    requires SpanStateOk(s)
    requires idx < 0 || idx >= SpanSlots || !s.slots[idx].active
    ensures EndSpec(s, idx, ok, now) == s
  {
  }

  /** Ending an active span marks it ended and lets SpanCount grow, but never past 4. */
  lemma EndCounts(s: SpanState, idx: int, ok: bool, now: Int64)
    requires SpanStateOk(s) && 0 <= idx < SpanSlots && s.slots[idx].active
    ensures var s' := EndSpec(s, idx, ok, now);
            s'.count == Min(s.count + 1, SpanSlots) && s'.slots[idx].endTime == now
            && !s'.slots[idx].active && s'.slots[idx].statusOK == ok
            && s'.current == s.slots[idx].prevSpanId
  {
  }

  /** With two slots free, a parent A with a child B and then a sibling C: both children
      have A as parent, A is current between them, and ending A makes the span that was
      current before A current again. */
  lemma NestedSpans(s: SpanState, j: int, k: int, name: seq<Byte>, now: Int64, ra: (int, int), rb: (int, int),
                    rc: (int, int))
    requires SpanStateOk(s) && 0 <= j < k < SpanSlots && !s.slots[j].active && !s.slots[k].active
    requires IsU32(ra.0) && IsU32(ra.1) && IsU32(rb.0) && IsU32(rb.1) && IsU32(rc.0) && IsU32(rc.1)
    ensures var (s1, a) := StartSpec(s, name, now, ra.0, ra.1);
            var (s2, b) := StartSpec(s1, name, now, rb.0, rb.1);
            var s3 := EndSpec(s2, b, true, now);
            var (s4, c) := StartSpec(s3, name, now, rc.0, rc.1);
            var s5 := EndSpec(s4, c, true, now);
            var s6 := EndSpec(s5, a, true, now);
            b != a && c != a
            && s2.slots[b].parentId == s1.slots[a].spanId && s3.current == s1.slots[a].spanId
            && s4.slots[c].parentId == s1.slots[a].spanId && s5.current == s1.slots[a].spanId
            && s6.current == s.current
  {
    var (s1, a) := StartSpec(s, name, now, ra.0, ra.1);
    var free := if a == j then k else j;
    assert !s1.slots[free].active;
    var (s2, b) := StartSpec(s1, name, now, rb.0, rb.1);
    assert b != a;
    var s3 := EndSpec(s2, b, true, now);
    assert !s3.slots[b].active && s3.slots[a] == s1.slots[a];
    var (s4, c) := StartSpec(s3, name, now, rc.0, rc.1);
    assert c != a;
    var s5 := EndSpec(s4, c, true, now);
    assert s5.slots[a] == s1.slots[a];
  }

  /** The first four bytes of a big-endian word read back as the word. */
  lemma BigEndianRoundTrip(w: int)
    requires IsU32(w)
    ensures BigEndianValue(BigEndian32(w)) == w
  {
    var b := BigEndian32(w);
    var q1 := w / 256;
    var q2 := q1 / 256;
    DivModUnique(w / 0x1_0000, 256, q2 / 256, q2 % 256);
    assert w / 0x1_0000 == q2 by { DivModUnique(w, 0x1_0000, q2, (q1 % 256) * 256 + w % 256); }
    assert w / 0x100_0000 == q2 / 256 by {
      DivModUnique(w, 0x100_0000, q2 / 256, ((q2 % 256) * 256 + q1 % 256) * 256 + w % 256);
    }
  }

  /** The trace id GenerateTraceID builds starts with the Unix time in seconds, cut to 32
      bits. */
  lemma TraceIdTime(unixSeconds: int, rand: seq<int>)
    requires forall k :: 0 <= k < |rand| ==> IsU32(rand[k])
    ensures BigEndianValue((BigEndian32(unixSeconds % U32) + Words(rand))[..4]) == unixSeconds % U32
  {
    assert (BigEndian32(unixSeconds % U32) + Words(rand))[..4] == BigEndian32(unixSeconds % U32);
    BigEndianRoundTrip(unixSeconds % U32);
  }
}
