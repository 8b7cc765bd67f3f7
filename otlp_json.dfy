/** The OTLP/JSON serialiser of telemetry/json.go: `jsonWriter` appends to the 2048-byte
    `BodyBuf`, and the three `Build*JSON` functions write a whole payload from the queues.

    A payload is described by the sequence of writes it issues. Each write is a `Piece`:
    `writeRaw` issues `Raw(s)`, which lands whole or not at all, and `writeByte` issues
    `One(b)`, which lands while there is room. `PutAll` is the text those writes leave in
    the buffer. */
module OtlpJson {
  import opened Common
  import opened Telemetry

  datatype Piece = Raw(s: seq<Byte>) | One(b: Byte)

  /** One write applied to the text so far. */
  function Put(text: seq<Byte>, p: Piece): seq<Byte>
  {
    match p
    case Raw(s) => if |text| + |s| > BodyBufSize then text else text + s
    case One(b) => if |text| < BodyBufSize then text + [b] else text
  }

  /** A run of writes applied in order. */
  function PutAll(text: seq<Byte>, ps: seq<Piece>): seq<Byte>
    decreases |ps|
  {
    if ps == [] then text else Put(PutAll(text, ps[..|ps| - 1]), ps[|ps| - 1])
  }

  function PieceBytes(p: Piece): seq<Byte>
  {
    match p
    case Raw(s) => s
    case One(b) => [b]
  }

  /** The bytes a run of writes carries, as if the buffer were unbounded. */
  function Flat(ps: seq<Piece>): seq<Byte>
    decreases |ps|
  {
    if ps == [] then [] else Flat(ps[..|ps| - 1]) + PieceBytes(ps[|ps| - 1])
  }

  /** A run of writes never shrinks the text and never takes it past the buffer. */
  lemma {:induction false} PutAllExtends(text: seq<Byte>, ps: seq<Piece>)
    requires |text| <= BodyBufSize
    ensures |text| <= |PutAll(text, ps)| <= BodyBufSize
    ensures PutAll(text, ps)[..|text|] == text
    decreases |ps|
  {
    if ps != [] {
      PutAllExtends(text, ps[..|ps| - 1]);
      var t := PutAll(text, ps[..|ps| - 1]);
      assert Put(t, ps[|ps| - 1])[..|t|] == t;
    }
  }

  /** Writes issued in two runs leave what they leave issued in one. */
  lemma {:induction false} PutAllAppend(text: seq<Byte>, ps: seq<Piece>, qs: seq<Piece>)
    ensures PutAll(text, ps + qs) == PutAll(PutAll(text, ps), qs)
    decreases |qs|
  {
    if qs == [] {
      assert ps + qs == ps;
    } else {
      var init := qs[..|qs| - 1];
      PutAllAppend(text, ps, init);
      assert (ps + qs)[..|ps + qs| - 1] == ps + init;
      assert (ps + qs)[|ps + qs| - 1] == qs[|qs| - 1];
      calc {
        PutAll(text, ps + qs);
        Put(PutAll(text, ps + init), qs[|qs| - 1]);
        Put(PutAll(PutAll(text, ps), init), qs[|qs| - 1]);
        PutAll(PutAll(text, ps), qs);
      }
    }
  }

  // ---------------------------------------------------------------------------------
  // What each jsonWriter method issues
  // ---------------------------------------------------------------------------------

  const Quote: Byte := 34
  const Backslash: Byte := 92
  const Comma: Byte := 44
  const CloseBrace: Byte := 125

  /** `writeString`/`writeBytes` for one byte: the five escapes, printable ASCII as itself,
      anything else dropped. */
  function EscapeByte(c: Byte): (r: seq<Piece>)
    ensures |r| <= 1
  {
    if c == Quote then [Raw([Backslash, Quote])]
    else if c == Backslash then [Raw([Backslash, Backslash])]
    else if c == 10 then [Raw([Backslash, 110])]
    else if c == 13 then [Raw([Backslash, 114])]
    else if c == 9 then [Raw([Backslash, 116])]
    else if 32 <= c < 127 then [One(c)]
    else []
  }

  function Escaped(s: seq<Byte>): seq<Piece>
    decreases |s|
  {
    if s == [] then [] else Escaped(s[..|s| - 1]) + EscapeByte(s[|s| - 1])
  }

  /** `writeString(s)` and `writeBytes(s, len(s))`. */
  function StringPieces(s: seq<Byte>): seq<Piece>
  {
    [One(Quote)] + Escaped(s) + [One(Quote)]
  }

  /** The bytes `writeBytes(b, n)` reads: the first n, as far as b goes. */
  function Prefix(b: seq<Byte>, n: int): (r: seq<Byte>)
    ensures |r| == (if n < 0 then 0 else Min(n, |b|)) && r == b[..|r|]
  {
    if n <= 0 then [] else b[..Min(n, |b|)]
  }

  /** Single-byte writes of each of ds. */
  function Ones(ds: seq<Byte>): (r: seq<Piece>)
    ensures |r| == |ds| && forall i :: 0 <= i < |ds| ==> r[i] == One(ds[i])
  {
    seq(|ds|, i requires 0 <= i < |ds| => One(ds[i]))
  }

  /** `uint64(n)` for an int64 n. */
  function AsUint64(n: Int64): (r: int)
    ensures 0 <= r < I64
  {
    assert IsInt64(n);
    if n < 0 then n + I64 else n
  }

  /** `writeInt64(n)`: quoted; "0" for zero, otherwise '-' for a negative value and the
      digits of `uint64(-n)`. */
  function Int64Pieces(n: Int64): seq<Piece>
  {
    [One(Quote)]
    + (if n == 0 then [One(48)]
       else if n < 0 then [One(45)] + Ones(Digits(AsUint64(WrapInt64(-(n as int)))))
       else Ones(Digits(n)))
    + [One(Quote)]
  }

  /** `writeInt(n)` on a 32-bit int: unquoted; "0" for zero, otherwise '-' for a negative
      value and the digits `for n > 0` leaves of the wrapped negation. */
  function IntPieces(n: int): seq<Piece>
    requires IsInt32(n)
  {
    if n == 0 then [One(48)]
    else
      var m := if n < 0 then WrapInt32(-n) else n;
      (if n < 0 then [One(45)] else []) + Ones(Digits(if m > 0 then m else 0))
  }

  /** Two lowercase hex digits per byte. */
  function HexPieces(bs: seq<Byte>): seq<Piece>
    decreases |bs|
  {
    if bs == [] then []
    else
      var v := bs[|bs| - 1];
      HexPieces(bs[..|bs| - 1]) + [One(HexDigit(v / 16)), One(HexDigit(v % 16))]
  }

  /** `writeHex(bs)`. */
  function HexString(bs: seq<Byte>): seq<Piece>
  {
    [One(Quote)] + HexPieces(bs) + [One(Quote)]
  }

  // ---------------------------------------------------------------------------------
  // The payloads
  // ---------------------------------------------------------------------------------

  const ResourceOpen: seq<Byte> := Ascii("\"resource\":{\"attributes\":[")
  const ServiceName: seq<Byte> := Ascii("{\"key\":\"service.name\",\"value\":{\"stringValue\":\"bindicator\"}},")
  const ServiceVersion: seq<Byte> := Ascii("{\"key\":\"service.version\",\"value\":{\"stringValue\":")
  const AttributeClose: seq<Byte> := Ascii("}},")
  const InstanceId: seq<Byte> := Ascii("{\"key\":\"service.instance.id\",\"value\":{\"stringValue\":")
  const HostName: seq<Byte> := Ascii("{\"key\":\"host.name\",\"value\":{\"stringValue\":\"bindicator-pico\"}}")
  const ResourceClose: seq<Byte> := Ascii("]}")
  const DocumentClose: seq<Byte> := Ascii("]}]}]}")

  /** `shortSHA`: the first seven characters of the git SHA. */
  function ShortSha(gitSha: seq<Byte>): (r: seq<Byte>)
    ensures |r| == Min(|gitSha|, 7) && r == gitSha[..|r|]
  {
    if |gitSha| >= 7 then gitSha[..7] else gitSha
  }

  /** `writeResourceAttributes`. */
  function ResourcePieces(version: seq<Byte>, gitSha: seq<Byte>): seq<Piece>
  {
    [Raw(ResourceOpen)] + [Raw(ServiceName)] + [Raw(ServiceVersion)] + StringPieces(version)
    + [Raw(AttributeClose)] + [Raw(InstanceId)] + StringPieces(ShortSha(gitSha))
    + [Raw(AttributeClose)] + [Raw(HostName)] + [Raw(ResourceClose)]
  }

  /** Items written in order, a comma between neighbours. */
  function Joined<T>(items: seq<T>, f: T -> seq<Piece>): seq<Piece>
    decreases |items|
  {
    if items == [] then []
    else if |items| == 1 then f(items[0])
    else Joined(items[..|items| - 1], f) + [One(Comma)] + f(items[|items| - 1])
  }

  /** What every payload starts with: its opening, the resource, and its scope. */
  function Opening(open: seq<Byte>, scope: seq<Byte>, version: seq<Byte>, gitSha: seq<Byte>): seq<Piece>
  {
    [Raw(open)] + ResourcePieces(version, gitSha) + [Raw(scope)]
  }

  const LogsOpen: seq<Byte> := Ascii("{\"resourceLogs\":[{")
  const LogsScope: seq<Byte> := Ascii(",\"scopeLogs\":[{\"scope\":{\"name\":\"bindicator\"},\"logRecords\":[")
  const TimeKey: seq<Byte> := Ascii("{\"timeUnixNano\":")
  const SeverityKey: seq<Byte> := Ascii(",\"severityNumber\":")
  const BodyKey: seq<Byte> := Ascii(",\"body\":{\"stringValue\":")
  const TraceIdKey: seq<Byte> := Ascii(",\"traceId\":")
  const SpanIdKey: seq<Byte> := Ascii(",\"spanId\":")

  /** One log record; the trace and span ids only when the record has a trace context. */
  function LogPieces(e: LogEntry): seq<Piece>
  {
    LogHeadPieces(e) + LogTracePieces(e) + [One(CloseBrace)]
  }

  /** The first part of a log record: time, severity and body. */
  function LogHeadPieces(e: LogEntry): seq<Piece>
  {
    [Raw(TimeKey)] + Int64Pieces(e.timestamp) + [Raw(SeverityKey)] + IntPieces(e.severity)
    + [Raw(BodyKey)] + StringPieces(e.body) + [One(CloseBrace)]
  }

  /** The trace context of a log record, when it has one. */
  function LogTracePieces(e: LogEntry): seq<Piece>
  {
    match e.trace
    case None => []
    case Some(ctx) => [Raw(TraceIdKey)] + HexString(ctx.traceId) + [Raw(SpanIdKey)] + HexString(ctx.spanId)
  }

  /** `BuildLogsJSON` for a nonempty queue. */
  function LogsDocument(es: seq<LogEntry>, version: seq<Byte>, gitSha: seq<Byte>): seq<Piece>
  {
    Opening(LogsOpen, LogsScope, version, gitSha) + Joined(es, LogPieces)
    + [Raw(DocumentClose)]
  }

  const MetricsOpen: seq<Byte> := Ascii("{\"resourceMetrics\":[{")
  const MetricsScope: seq<Byte> := Ascii(",\"scopeMetrics\":[{\"scope\":{\"name\":\"bindicator\"},\"metrics\":[")
  const NameKey: seq<Byte> := Ascii("{\"name\":")
  const GaugeOpen: seq<Byte> := Ascii(",\"gauge\":{\"dataPoints\":[{\"timeUnixNano\":")
  const SumOpen: seq<Byte> := Ascii(",\"sum\":{\"dataPoints\":[{\"timeUnixNano\":")
  const AsIntKey: seq<Byte> := Ascii(",\"asInt\":")
  const GaugeClose: seq<Byte> := Ascii("}]}")
  const SumClose: seq<Byte> := Ascii("}],\"aggregationTemporality\":2,\"isMonotonic\":true}")

  /** One metric: a gauge as "gauge", a counter as a cumulative monotonic "sum". */
  function MetricPieces(p: MetricPoint): seq<Piece>
  {
    [Raw(NameKey)] + StringPieces(p.name)
    + (if p.isGauge then [Raw(GaugeOpen)] else [Raw(SumOpen)])
    + Int64Pieces(p.timestamp) + [Raw(AsIntKey)] + Int64Pieces(p.value)
    + (if p.isGauge then [Raw(GaugeClose)] else [Raw(SumClose)])
    + [One(CloseBrace)]
  }

  /** `BuildMetricsJSON` for a nonempty queue. */
  function MetricsDocument(ps: seq<MetricPoint>, version: seq<Byte>, gitSha: seq<Byte>): seq<Piece>
  {
    Opening(MetricsOpen, MetricsScope, version, gitSha) + Joined(ps, MetricPieces)
    + [Raw(DocumentClose)]
  }

  const SpansOpen: seq<Byte> := Ascii("{\"resourceSpans\":[{")
  const SpansScope: seq<Byte> := Ascii(",\"scopeSpans\":[{\"scope\":{\"name\":\"bindicator\"},\"spans\":[")
  const SpanTraceKey: seq<Byte> := Ascii("{\"traceId\":")
  const ParentKey: seq<Byte> := Ascii(",\"parentSpanId\":")
  const SpanNameKey: seq<Byte> := Ascii(",\"name\":")
  const KindKey: seq<Byte> := Ascii(",\"kind\":")
  const StartKey: seq<Byte> := Ascii(",\"startTimeUnixNano\":")
  const EndKey: seq<Byte> := Ascii(",\"endTimeUnixNano\":")
  const StatusKey: seq<Byte> := Ascii(",\"status\":{\"code\":")
  const SpanClose: seq<Byte> := Ascii("}}")

  /** The span kind written for every span: the `Span` record has no kind, so this is the
      zero value, SPAN_KIND_UNSPECIFIED. */
  const SpanKind: int := 0

  /** Some byte of id is not zero (`NonZeroMeans` states it with a quantifier). */
  predicate NonZero(id: seq<Byte>)
    decreases |id|
  {
    id != [] && (NonZero(id[..|id| - 1]) || id[|id| - 1] != 0)
  }

  lemma {:induction false} NonZeroMeans(id: seq<Byte>)
    ensures NonZero(id) <==> exists k :: 0 <= k < |id| && id[k] != 0
    decreases |id|
  {
    if id != [] {
      var init := id[..|id| - 1];
      NonZeroMeans(init);
      if exists k :: 0 <= k < |init| && init[k] != 0 {
        var k :| 0 <= k < |init| && init[k] != 0;
        assert id[k] != 0;
      }
    }
  }

  /** A span BuildSpansJSON sends: ended, no longer active, with a nonzero trace id. */
  predicate Completed(s: Span)
  {
    !s.active && s.endTime != 0 && NonZero(s.traceId)
  }

  /** The completed spans among the slots, in slot order. */
  function Emitted(slots: seq<Span>): (r: seq<Span>)
    ensures |r| <= |slots|
    decreases |slots|
  {
    if slots == [] then []
    else Emitted(slots[..|slots| - 1]) + (if Completed(slots[|slots| - 1]) then [slots[|slots| - 1]] else [])
  }

  /** One more slot adds its span to the emitted ones exactly when it is completed. */
  lemma EmittedStep(slots: seq<Span>, i: int)
    requires 0 <= i < |slots|
    ensures Emitted(slots[..i + 1]) == Emitted(slots[..i]) + (if Completed(slots[i]) then [slots[i]] else [])
  {
    assert slots[..i + 1][..i] == slots[..i];
  }

  /** A slot after BuildSpansJSON: a sent span has its EndTime cleared. */
  function Cleared(s: Span): Span
  {
    if Completed(s) then s.(endTime := 0) else s
  }

  /** One span; parentSpanId only when the parent id is nonzero. */
  function SpanPieces(s: Span): seq<Piece>
  {
    SpanIdPieces(s) + SpanTimePieces(s)
  }

  /** The first half of a span: its ids and its name. */
  function SpanIdPieces(s: Span): seq<Piece>
  {
    [Raw(SpanTraceKey)] + HexString(s.traceId) + [Raw(SpanIdKey)] + HexString(s.spanId)
    + (if NonZero(s.parentId) then [Raw(ParentKey)] + HexString(s.parentId) else [])
    + [Raw(SpanNameKey)] + StringPieces(s.name)
  }

  /** The second half of a span: kind, times, status and the closing brackets. */
  function SpanTimePieces(s: Span): seq<Piece>
  {
    [Raw(KindKey)] + IntPieces(SpanKind)
    + [Raw(StartKey)] + Int64Pieces(s.startTime) + [Raw(EndKey)] + Int64Pieces(s.endTime)
    + [Raw(StatusKey)] + IntPieces(if s.statusOK then SpanStatusOK else SpanStatusError) + [Raw(SpanClose)]
  }

  /** `BuildSpansJSON` when some span is completed. */
  function SpansDocument(done: seq<Span>, version: seq<Byte>, gitSha: seq<Byte>): seq<Piece>
  {
    Opening(SpansOpen, SpansScope, version, gitSha) + Joined(done, SpanPieces)
    + [Raw(DocumentClose)]
  }

  // ---------------------------------------------------------------------------------
  // jsonWriter
  // ---------------------------------------------------------------------------------

  /** `jsonWriter`: a position in `BodyBuf`. The ghost `written` is every write issued
      since `reset`; the text before the position is what those writes leave. */
  class JsonWriter {
    const buf: array<Byte>
    var pos: int
    ghost var written: seq<Piece>

    ghost predicate Valid()
      reads this, buf
    {
      buf.Length == BodyBufSize && 0 <= pos <= BodyBufSize && buf[..pos] == PutAll([], written)
    }

    /** A writer after `reset`, over `BodyBuf`. */
    constructor (body: array<Byte>)
      requires body.Length == BodyBufSize
      ensures Valid() && buf == body && pos == 0 && written == []
    {
      buf := body;
      pos := 0;
      written := [];
    }

    /** `writeRaw`: s lands whole when it fits, otherwise nothing is written. */
    method WriteRaw(s: seq<Byte>)
      requires Valid()
      modifies this, buf
      ensures Valid() && written == old(written) + [Raw(s)]
      ensures pos == (if old(pos) + |s| > BodyBufSize then old(pos) else old(pos) + |s|)
    {
      ghost var before := written;
      written := written + [Raw(s)];
      assert written[..|written| - 1] == before;
      if pos + |s| > buf.Length {
        return;
      }
      CopyInto(buf, pos, s);
      pos := pos + |s|;
    }

    /** `writeByte`: b lands only while the buffer has room. */
    method WriteByte(b: Byte)
      requires Valid()
      modifies this, buf
      ensures Valid() && written == old(written) + [One(b)]
      ensures pos == (if old(pos) < BodyBufSize then old(pos) + 1 else old(pos))
    {
      ghost var before := written;
      written := written + [One(b)];
      assert written[..|written| - 1] == before;
      if pos < buf.Length {
        buf[pos] := b;
        pos := pos + 1;
      }
    }

    /** The escaping switch shared by `writeString` and `writeBytes`. */
    method WriteEscaped(c: Byte)
      requires Valid()
      modifies this, buf
      ensures Valid() && written == old(written) + EscapeByte(c)
    {
      if c == Quote {
        WriteRaw([Backslash, Quote]);
      } else if c == Backslash {
        WriteRaw([Backslash, Backslash]);
      } else if c == 10 {
        WriteRaw([Backslash, 110]);
      } else if c == 13 {
        WriteRaw([Backslash, 114]);
      } else if c == 9 {
        WriteRaw([Backslash, 116]);
      } else if 32 <= c < 127 {
        WriteByte(c);
      }
    }

    /** `writeString`. */
    method WriteString(s: seq<Byte>)
      requires Valid()
      modifies this, buf
      ensures Valid() && written == old(written) + StringPieces(s)
    {
      ghost var w0 := written;
      WriteByte(Quote);
      ghost var w1 := written;
      for i := 0 to |s|
        invariant Valid() && written == w1 + Escaped(s[..i])
      {
        assert s[..i + 1][..i] == s[..i];
        ghost var e := Escaped(s[..i]);
        WriteEscaped(s[i]);
        AppendAssoc(w1, e, EscapeByte(s[i]));
      }
      assert s[..|s|] == s;
      WriteByte(Quote);
      Regroup(w0, Quote, Escaped(s));
    }

    /** `writeBytes(b, n)`: the first n bytes of b, as far as b goes. */
    method WriteBytes(b: seq<Byte>, n: int)
      requires Valid()
      modifies this, buf
      ensures Valid() && written == old(written) + StringPieces(Prefix(b, n))
    {
      ghost var w0 := written;
      WriteByte(Quote);
      ghost var w1 := written;
      var i := 0;
      while i < n && i < |b|
        invariant 0 <= i <= |b| && (i <= n || i == 0)
        invariant Valid() && written == w1 + Escaped(b[..i])
      {
        assert b[..i + 1][..i] == b[..i];
        ghost var e := Escaped(b[..i]);
        WriteEscaped(b[i]);
        AppendAssoc(w1, e, EscapeByte(b[i]));
        i := i + 1;
      }
      assert b[..i] == Prefix(b, n);
      WriteByte(Quote);
      Regroup(w0, Quote, Escaped(b[..i]));
    }

    /** The single-byte writes of each of ds, in order. */
    method WriteEach(ds: seq<Byte>)
      requires Valid()
      modifies this, buf
      ensures Valid() && written == old(written) + Ones(ds)
    {
      ghost var w0 := written;
      for j := 0 to |ds|
        invariant Valid() && written == w0 + Ones(ds[..j])
      {
        ghost var o := Ones(ds[..j]);
        WriteByte(ds[j]);
        AppendAssoc(w0, o, [One(ds[j])]);
        assert o + [One(ds[j])] == Ones(ds[..j + 1]);
      }
      assert ds[..|ds|] == ds;
    }

    /** `writeUint64`: the digits of n, none for zero. */
    method WriteUint64(n: int)
      requires Valid() && 0 <= n < I64
      modifies this, buf
      ensures Valid() && written == old(written) + Ones(Digits(n))
    {
      Pow10Twenty();
      var digits := FillDigits(n, 20);
      WriteEach(digits);
    }

    /** `writeInt64`. */
    method WriteInt64(n: Int64)
      requires Valid()
      modifies this, buf
      ensures Valid() && written == old(written) + Int64Pieces(n)
    {
      ghost var w0 := written;
      WriteByte(Quote);
      ghost var w1 := written;
      ghost var mid: seq<Piece>;
      if n == 0 {
        WriteByte(48);
        mid := [One(48)];
      } else if n < 0 {
        WriteByte(45);
        ghost var w2 := written;
        var m := WrapInt64(-(n as int));
        WriteUint64(AsUint64(m));
        mid := [One(45)] + Ones(Digits(AsUint64(m)));
        AppendAssoc(w1, [One(45)], Ones(Digits(AsUint64(m))));
      } else {
        assert IsInt64(n);
        WriteUint64(n);
        mid := Ones(Digits(n));
      }
      assert written == w1 + mid;
      WriteByte(Quote);
      Regroup(w0, Quote, mid);
    }

    /** `writeInt` on a 32-bit int. */
    method WriteInt(n: int)
      requires Valid() && IsInt32(n)
      modifies this, buf
      ensures Valid() && written == old(written) + IntPieces(n)
    {
      if n == 0 {
        WriteByte(48);
        return;
      }
      ghost var w0 := written;
      var m := n;
      if n < 0 {
        WriteByte(45);
        m := WrapInt32(-n);
      }
      ghost var sign: seq<Piece> := if n < 0 then [One(45)] else [];
      assert written == w0 + sign;
      Pow10Ten();
      var digits := FillDigits(if m > 0 then m else 0, 10);
      WriteEach(digits);
      AppendAssoc(w0, sign, Ones(digits));
    }

    /** `writeHex`. */
    method WriteHex(bs: seq<Byte>)
      requires Valid()
      modifies this, buf
      ensures Valid() && written == old(written) + HexString(bs)
    {
      ghost var w0 := written;
      WriteByte(Quote);
      ghost var w1 := written;
      for i := 0 to |bs|
        invariant Valid() && written == w1 + HexPieces(bs[..i])
      {
        var v := bs[i];
        assert bs[..i + 1][..i] == bs[..i];
        ghost var h := HexPieces(bs[..i]);
        WriteByte(HexDigit(v / 16));
        WriteByte(HexDigit(v % 16));
        AppendAssoc(w1, h, [One(HexDigit(v / 16))]);
        AppendAssoc(w1, h + [One(HexDigit(v / 16))], [One(HexDigit(v % 16))]);
        assert h + [One(HexDigit(v / 16))] + [One(HexDigit(v % 16))] == HexPieces(bs[..i + 1]);
      }
      assert bs[..|bs|] == bs;
      WriteByte(Quote);
      Regroup(w0, Quote, HexPieces(bs));
    }

    /** `writeResourceAttributes`. */
    method WriteResourceAttributes(version: seq<Byte>, gitSha: seq<Byte>)
      requires Valid()
      modifies this, buf
      ensures Valid() && written == old(written) + ResourcePieces(version, gitSha)
    {
      ghost var w0 := written;
      WriteRaw(ResourceOpen);
      ghost var a: seq<Piece> := [Raw(ResourceOpen)];
      WriteRaw(ServiceName);
      AppendAssoc(w0, a, [Raw(ServiceName)]);
      a := a + [Raw(ServiceName)];
      WriteRaw(ServiceVersion);
      AppendAssoc(w0, a, [Raw(ServiceVersion)]);
      a := a + [Raw(ServiceVersion)];
      WriteString(version);
      AppendAssoc(w0, a, StringPieces(version));
      a := a + StringPieces(version);
      WriteRaw(AttributeClose);
      AppendAssoc(w0, a, [Raw(AttributeClose)]);
      a := a + [Raw(AttributeClose)];
      WriteRaw(InstanceId);
      AppendAssoc(w0, a, [Raw(InstanceId)]);
      a := a + [Raw(InstanceId)];
      WriteString(ShortSha(gitSha));
      AppendAssoc(w0, a, StringPieces(ShortSha(gitSha)));
      a := a + StringPieces(ShortSha(gitSha));
      WriteRaw(AttributeClose);
      AppendAssoc(w0, a, [Raw(AttributeClose)]);
      a := a + [Raw(AttributeClose)];
      WriteRaw(HostName);
      AppendAssoc(w0, a, [Raw(HostName)]);
      a := a + [Raw(HostName)];
      WriteRaw(ResourceClose);
      AppendAssoc(w0, a, [Raw(ResourceClose)]);
    }
  }

  // ---------------------------------------------------------------------------------
  // The builders
  // ---------------------------------------------------------------------------------

  /** The loop over a queue writes one more record after what it has written: a comma
      first unless it is the first. */
  lemma JoinedExtend<T>(pre: seq<Piece>, items: seq<T>, f: T -> seq<Piece>, i: int)
    requires 0 <= i < |items|
    ensures i == 0 ==> pre + Joined(items[..1], f) == pre + Joined(items[..0], f) + f(items[0])
    ensures i > 0 ==> pre + Joined(items[..i + 1], f) == pre + Joined(items[..i], f) + [One(Comma)] + f(items[i])
  {
    assert items[..i + 1][..i] == items[..i];
    if i == 0 {
      assert pre + Joined(items[..0], f) == pre;
    } else {
      AppendAssoc(pre, Joined(items[..i], f) + [One(Comma)], f(items[i]));
      AppendAssoc(pre, Joined(items[..i], f), [One(Comma)]);
    }
  }

  /** Writing one more item after the items so far: a comma first unless it is the first. */
  lemma JoinedSnoc<T>(pre: seq<Piece>, e: seq<T>, x: T, f: T -> seq<Piece>)
    ensures e == [] ==> pre + Joined(e + [x], f) == pre + Joined(e, f) + f(x)
    ensures e != [] ==> pre + Joined(e + [x], f) == pre + Joined(e, f) + [One(Comma)] + f(x)
  {
    var items := e + [x];
    assert items[..|items| - 1] == e && items[|items| - 1] == x;
    if e == [] {
      assert pre + Joined(e, f) == pre;
    } else {
      AppendAssoc(pre, Joined(e, f) + [One(Comma)], f(x));
      AppendAssoc(pre, Joined(e, f), [One(Comma)]);
    }
  }

  /** The i-th queued entry sits i slots after the head. */
  lemma RingAt<T>(slots: seq<T>, head: int, count: int, i: int)
    requires |slots| == QueueSize && RingOk(head, count) && 0 <= i < count
    ensures RingItems(slots, head, count)[i] == slots[(head + i) % QueueSize]
  {
  }

  /** A payload that opens with a raw write that fits is at least that long. */
  lemma OpensWith(open: seq<Byte>, ps: seq<Piece>)
    requires 0 < |open| <= BodyBufSize && |ps| > 0 && ps[0] == Raw(open)
    ensures |open| <= |PutAll([], ps)| <= BodyBufSize
  {
    assert ps == [ps[0]] + ps[1..];
    PutAllAppend([], [ps[0]], ps[1..]);
    assert [ps[0]][..0] == [];
    assert PutAll([], [ps[0]]) == open;
    PutAllExtends(open, ps[1..]);
  }

  /** The writes every builder starts with after `reset`. */
  method WriteOpening(w: JsonWriter, open: seq<Byte>, scope: seq<Byte>, version: seq<Byte>, gitSha: seq<Byte>)
    requires w.Valid() && w.written == []
    modifies w, w.buf
    ensures w.Valid() && w.written == Opening(open, scope, version, gitSha)
  {
    w.WriteRaw(open);
    assert w.written == [Raw(open)];
    w.WriteResourceAttributes(version, gitSha);
    w.WriteRaw(scope);
  }

  /** Checks a byte array for a nonzero byte, as the `range` loops in BuildSpansJSON do. */
  method IsNonZero(id: seq<Byte>) returns (b: bool)
    ensures b <==> NonZero(id)
  {
    b := false;
    for k := 0 to |id|
      invariant !NonZero(id[..k])
    {
      assert id[..k + 1][..k] == id[..k];
      if id[k] != 0 {
        NonZeroMeans(id);
        b := true;
        return;
      }
    }
    assert id[..|id|] == id;
  }

  /** The body of BuildLogsJSON's loop for one entry. */
  method WriteLogRecord(w: JsonWriter, e: LogEntry)
    requires w.Valid()
    modifies w, w.buf
    ensures w.Valid() && w.written == old(w.written) + LogPieces(e)
  {
    ghost var w0 := w.written;
    WriteLogHead(w, e);
    WriteLogTrace(w, e);
    AppendAssoc(w0, LogHeadPieces(e), LogTracePieces(e));
    w.WriteByte(CloseBrace);
    AppendAssoc(w0, LogHeadPieces(e) + LogTracePieces(e), [One(CloseBrace)]);
  }

  /** The time, severity and body of a log record. */
  method WriteLogHead(w: JsonWriter, e: LogEntry)
    requires w.Valid()
    modifies w, w.buf
    ensures w.Valid() && w.written == old(w.written) + LogHeadPieces(e)
  {
    ghost var w0 := w.written;
    w.WriteRaw(TimeKey);
    ghost var a: seq<Piece> := [Raw(TimeKey)];
    w.WriteInt64(e.timestamp);
    AppendAssoc(w0, a, Int64Pieces(e.timestamp));
    a := a + Int64Pieces(e.timestamp);
    w.WriteRaw(SeverityKey);
    AppendAssoc(w0, a, [Raw(SeverityKey)]);
    a := a + [Raw(SeverityKey)];
    w.WriteInt(e.severity);
    AppendAssoc(w0, a, IntPieces(e.severity));
    a := a + IntPieces(e.severity);
    w.WriteRaw(BodyKey);
    AppendAssoc(w0, a, [Raw(BodyKey)]);
    a := a + [Raw(BodyKey)];
    w.WriteBytes(e.body, |e.body|);
    assert Prefix(e.body, |e.body|) == e.body;
    AppendAssoc(w0, a, StringPieces(e.body));
    a := a + StringPieces(e.body);
    w.WriteByte(CloseBrace);
    AppendAssoc(w0, a, [One(CloseBrace)]);
  }

  /** The trace context of a log record, written only when there is one. */
  method WriteLogTrace(w: JsonWriter, e: LogEntry)
    requires w.Valid()
    modifies w, w.buf
    ensures w.Valid() && w.written == old(w.written) + LogTracePieces(e)
  {
    ghost var w0 := w.written;
    if e.trace.Some? {
      w.WriteRaw(TraceIdKey);
      w.WriteHex(e.trace.value.traceId);
      AppendAssoc(w0, [Raw(TraceIdKey)], HexString(e.trace.value.traceId));
      ghost var ctx := [Raw(TraceIdKey)] + HexString(e.trace.value.traceId);
      w.WriteRaw(SpanIdKey);
      AppendAssoc(w0, ctx, [Raw(SpanIdKey)]);
      ctx := ctx + [Raw(SpanIdKey)];
      w.WriteHex(e.trace.value.spanId);
      AppendAssoc(w0, ctx, HexString(e.trace.value.spanId));
    } else {
      assert w.written == w0 + [];
    }
  }


  /** One iteration of BuildLogsJSON's loop: a comma unless it is the first record, then
      the record. */
  method WriteLogItem(w: JsonWriter, ghost pre: seq<Piece>, ghost items: seq<LogEntry>, i: int, e: LogEntry,
                      first: bool)
    requires w.Valid() && 0 <= i < |items| && e == items[i] && (first <==> i == 0)
    requires w.written == pre + Joined(items[..i], LogPieces)
    modifies w, w.buf
    ensures w.Valid() && w.written == pre + Joined(items[..i + 1], LogPieces)
  {
    JoinedExtend(pre, items, LogPieces, i);
    if !first {
      w.WriteByte(Comma);
    }
    WriteLogRecord(w, e);
  }

  /** BuildLogsJSON's loop: the queued records, oldest first, a comma between
      neighbours. */
  method WriteLogQueue(w: JsonWriter, queue: array<LogEntry>, head: int, count: int)
    requires w.Valid() && queue.Length == QueueSize && RingOk(head, count)
    modifies w, w.buf
    ensures w.Valid() && w.written == old(w.written) + Joined(RingItems(queue[..], head, count), LogPieces)
  {
    ghost var items := RingItems(queue[..], head, count);
    ghost var pre := w.written;
    assert pre + Joined(items[..0], LogPieces) == pre;
    var first := true;
    for i := 0 to count
      invariant w.Valid() && w.written == pre + Joined(items[..i], LogPieces)
      invariant first <==> i == 0
    {
      var idx := (head + i) % QueueSize;
      var entry := queue[idx];
      RingAt(queue[..], head, count, i);
      WriteLogItem(w, pre, items, i, entry, first);
      first := false;
    }
    assert items[..count] == items;
  }

  /** `BuildLogsJSON`: nothing for an empty queue; otherwise the queued records, oldest
      first, in one payload, and its length. */
  method BuildLogsJSON(t: Telemetry, version: seq<Byte>, gitSha: seq<Byte>) returns (n: int)
    requires t.Valid()
    modifies t.body
    ensures t.logCount == 0 ==> n == 0 && t.body[..] == old(t.body[..])
    ensures t.logCount > 0 ==> 0 < n <= BodyBufSize && t.body[..n] == PutAll([], LogsDocument(t.Logs(), version, gitSha))
  {
    if t.logCount == 0 {
      return 0;
    }
    var w := new JsonWriter(t.body);
    WriteOpening(w, LogsOpen, LogsScope, version, gitSha);
    WriteLogQueue(w, t.logQueue, t.logHead, t.logCount);
    w.WriteRaw(DocumentClose);
    OpensWith(LogsOpen, w.written);
    n := w.pos;
  }

  /** The body of BuildMetricsJSON's loop for one point. */
  method WriteMetricRecord(w: JsonWriter, p: MetricPoint)
    requires w.Valid()
    modifies w, w.buf
    ensures w.Valid() && w.written == old(w.written) + MetricPieces(p)
  {
    ghost var w0 := w.written;
    w.WriteRaw(NameKey);
    w.WriteBytes(p.name, |p.name|);
    assert Prefix(p.name, |p.name|) == p.name;
    AppendAssoc(w0, [Raw(NameKey)], StringPieces(p.name));
    ghost var a: seq<Piece> := [Raw(NameKey)] + StringPieces(p.name);
    ghost var open := if p.isGauge then [Raw(GaugeOpen)] else [Raw(SumOpen)];
    ghost var close := if p.isGauge then [Raw(GaugeClose)] else [Raw(SumClose)];
    if p.isGauge {
      w.WriteRaw(GaugeOpen);
    } else {
      w.WriteRaw(SumOpen);
    }
    AppendAssoc(w0, a, open);
    a := a + open;
    w.WriteInt64(p.timestamp);
    AppendAssoc(w0, a, Int64Pieces(p.timestamp));
    a := a + Int64Pieces(p.timestamp);
    w.WriteRaw(AsIntKey);
    AppendAssoc(w0, a, [Raw(AsIntKey)]);
    a := a + [Raw(AsIntKey)];
    w.WriteInt64(p.value);
    AppendAssoc(w0, a, Int64Pieces(p.value));
    a := a + Int64Pieces(p.value);
    if p.isGauge {
      w.WriteRaw(GaugeClose);
    } else {
      w.WriteRaw(SumClose);
    }
    AppendAssoc(w0, a, close);
    a := a + close;
    w.WriteByte(CloseBrace);
    AppendAssoc(w0, a, [One(CloseBrace)]);
  }

  /** One iteration of BuildMetricsJSON's loop: a comma unless it is the first point,
      then the point. */
  method WriteMetricItem(w: JsonWriter, ghost pre: seq<Piece>, ghost items: seq<MetricPoint>, i: int,
                         p: MetricPoint, first: bool)
    requires w.Valid() && 0 <= i < |items| && p == items[i] && (first <==> i == 0)
    requires w.written == pre + Joined(items[..i], MetricPieces)
    modifies w, w.buf
    ensures w.Valid() && w.written == pre + Joined(items[..i + 1], MetricPieces)
  {
    JoinedExtend(pre, items, MetricPieces, i);
    if !first {
      w.WriteByte(Comma);
    }
    WriteMetricRecord(w, p);
  }

  /** BuildMetricsJSON's loop: the queued points, oldest first, a comma between
      neighbours. */
  method WriteMetricQueue(w: JsonWriter, queue: array<MetricPoint>, head: int, count: int)
    requires w.Valid() && queue.Length == QueueSize && RingOk(head, count)
    modifies w, w.buf
    ensures w.Valid() && w.written == old(w.written) + Joined(RingItems(queue[..], head, count), MetricPieces)
  {
    ghost var items := RingItems(queue[..], head, count);
    ghost var pre := w.written;
    assert pre + Joined(items[..0], MetricPieces) == pre;
    var first := true;
    for i := 0 to count
      invariant w.Valid() && w.written == pre + Joined(items[..i], MetricPieces)
      invariant first <==> i == 0
    {
      var idx := (head + i) % QueueSize;
      var point := queue[idx];
      RingAt(queue[..], head, count, i);
      WriteMetricItem(w, pre, items, i, point, first);
      first := false;
    }
    assert items[..count] == items;
  }

  /** `BuildMetricsJSON`: nothing for an empty queue; otherwise the queued points, oldest
      first, in one payload, and its length. */
  method BuildMetricsJSON(t: Telemetry, version: seq<Byte>, gitSha: seq<Byte>) returns (n: int)
    requires t.Valid()
    modifies t.body
    ensures t.metricCount == 0 ==> n == 0 && t.body[..] == old(t.body[..])
    ensures t.metricCount > 0 ==> 0 < n <= BodyBufSize && t.body[..n] == PutAll([], MetricsDocument(t.Metrics(), version, gitSha))
  {
    if t.metricCount == 0 {
      return 0;
    }
    var w := new JsonWriter(t.body);
    WriteOpening(w, MetricsOpen, MetricsScope, version, gitSha);
    WriteMetricQueue(w, t.metricQueue, t.metricHead, t.metricCount);
    w.WriteRaw(DocumentClose);
    OpensWith(MetricsOpen, w.written);
    n := w.pos;
  }

  /** The body of BuildSpansJSON's loop for one completed span. */
  method WriteSpanRecord(w: JsonWriter, s: Span)
    requires w.Valid()
    modifies w, w.buf
    ensures w.Valid() && w.written == old(w.written) + SpanPieces(s)
  {
    ghost var w0 := w.written;
    WriteSpanIds(w, s);
    WriteSpanTimes(w, s);
    AppendAssoc(w0, SpanIdPieces(s), SpanTimePieces(s));
  }

  /** The first half of one span record. */
  method WriteSpanIds(w: JsonWriter, s: Span)
    requires w.Valid()
    modifies w, w.buf
    ensures w.Valid() && w.written == old(w.written) + SpanIdPieces(s)
  {
    ghost var w0 := w.written;
    w.WriteRaw(SpanTraceKey);
    w.WriteHex(s.traceId);
    AppendAssoc(w0, [Raw(SpanTraceKey)], HexString(s.traceId));
    ghost var a: seq<Piece> := [Raw(SpanTraceKey)] + HexString(s.traceId);
    w.WriteRaw(SpanIdKey);
    AppendAssoc(w0, a, [Raw(SpanIdKey)]);
    a := a + [Raw(SpanIdKey)];
    w.WriteHex(s.spanId);
    AppendAssoc(w0, a, HexString(s.spanId));
    a := a + HexString(s.spanId);
    var hasParent := IsNonZero(s.parentId);
    ghost var parent: seq<Piece> := [];
    if hasParent {
      ghost var w1 := w.written;
      w.WriteRaw(ParentKey);
      w.WriteHex(s.parentId);
      AppendAssoc(w1, [Raw(ParentKey)], HexString(s.parentId));
      parent := [Raw(ParentKey)] + HexString(s.parentId);
    } else {
      assert w.written == w0 + a + parent;
    }
    AppendAssoc(w0, a, parent);
    a := a + parent;
    w.WriteRaw(SpanNameKey);
    AppendAssoc(w0, a, [Raw(SpanNameKey)]);
    a := a + [Raw(SpanNameKey)];
    w.WriteBytes(s.name, |s.name|);
    assert Prefix(s.name, |s.name|) == s.name;
    AppendAssoc(w0, a, StringPieces(s.name));
    a := a + StringPieces(s.name);
  }

  /** The second half of one span record. */
  method WriteSpanTimes(w: JsonWriter, s: Span)
    requires w.Valid()
    modifies w, w.buf
    ensures w.Valid() && w.written == old(w.written) + SpanTimePieces(s)
  {
    ghost var w0 := w.written;
    w.WriteRaw(KindKey);
    w.WriteInt(SpanKind);
    AppendAssoc(w0, [Raw(KindKey)], IntPieces(SpanKind));
    ghost var a: seq<Piece> := [Raw(KindKey)] + IntPieces(SpanKind);
    w.WriteRaw(StartKey);
    AppendAssoc(w0, a, [Raw(StartKey)]);
    a := a + [Raw(StartKey)];
    w.WriteInt64(s.startTime);
    AppendAssoc(w0, a, Int64Pieces(s.startTime));
    a := a + Int64Pieces(s.startTime);
    w.WriteRaw(EndKey);
    AppendAssoc(w0, a, [Raw(EndKey)]);
    a := a + [Raw(EndKey)];
    w.WriteInt64(s.endTime);
    AppendAssoc(w0, a, Int64Pieces(s.endTime));
    a := a + Int64Pieces(s.endTime);
    w.WriteRaw(StatusKey);
    AppendAssoc(w0, a, [Raw(StatusKey)]);
    a := a + [Raw(StatusKey)];
    var code := if s.statusOK then SpanStatusOK else SpanStatusError;
    w.WriteInt(code);
    AppendAssoc(w0, a, IntPieces(code));
    a := a + IntPieces(code);
    w.WriteRaw(SpanClose);
    AppendAssoc(w0, a, [Raw(SpanClose)]);
  }

  /** The slots after BuildSpansJSON: every sent span has EndTime cleared. */
  function ClearedSlots(slots: seq<Span>): (r: seq<Span>)
    ensures |r| == |slots| && forall j :: 0 <= j < |slots| ==> r[j] == Cleared(slots[j])
  {
    seq(|slots|, j requires 0 <= j < |slots| => Cleared(slots[j]))
  }

  /** BuildSpansJSON's first loop: the number of completed spans. */
  method CountCompleted(queue: array<Span>) returns (count: int)
    ensures count == |Emitted(queue[..])|
  {
    ghost var slots := queue[..];
    count := 0;
    for i := 0 to queue.Length
      invariant count == |Emitted(slots[..i])|
    {
      EmittedStep(slots, i);
      var span := queue[i];
      if !span.active && span.endTime != 0 {
        var valid := IsNonZero(span.traceId);
        if valid {
          count := count + 1;
        }
      }
    }
    assert slots[..queue.Length] == slots;
  }

  /** One span of BuildSpansJSON's second loop: a comma unless it is the first, then the
      span. */
  method WriteSpanItem(w: JsonWriter, ghost pre: seq<Piece>, ghost e: seq<Span>, span: Span, first: bool)
    requires w.Valid() && (first <==> e == []) && w.written == pre + Joined(e, SpanPieces)
    modifies w, w.buf
    ensures w.Valid() && w.written == pre + Joined(e + [span], SpanPieces)
  {
    JoinedSnoc(pre, e, span, SpanPieces);
    if !first {
      w.WriteByte(Comma);
    }
    WriteSpanRecord(w, span);
  }

  /** One slot of BuildSpansJSON's second loop: a completed span is written, after a
      comma unless it is the first; any other slot is skipped. */
  method WriteSlot(w: JsonWriter, span: Span, ghost pre: seq<Piece>, ghost e: seq<Span>, first: bool)
    returns (sent: bool)
    requires w.Valid() && (first <==> e == []) && w.written == pre + Joined(e, SpanPieces)
    modifies w, w.buf
    ensures sent <==> Completed(span)
    ensures w.Valid() && w.written == pre + Joined(e + (if sent then [span] else []), SpanPieces)
  {
    sent := false;
    if !span.active && span.endTime != 0 {
      var valid := IsNonZero(span.traceId);
      if valid {
        WriteSpanItem(w, pre, e, span, first);
        sent := true;
        return;
      }
    }
    assert e + [] == e;
  }

  /** The clearing half of one slot of BuildSpansJSON's second loop: a span just written
      gets its end time reset, so the next flush skips it. */
  method ClearSlot(queue: array<Span>, i: int, ghost slots: seq<Span>, sent: bool)
    requires 0 <= i < queue.Length == |slots| && (sent <==> Completed(slots[i]))
    requires queue[..] == ClearedSlots(slots[..i]) + slots[i..]
    modifies queue
    ensures queue[..] == ClearedSlots(slots[..i + 1]) + slots[i + 1..]
  {
    assert queue[i] == slots[i];
    if sent {
      queue[i] := queue[i].(endTime := 0);
    }
    assert ClearedSlots(slots[..i + 1]) == ClearedSlots(slots[..i]) + [Cleared(slots[i])];
  }

  /** BuildSpansJSON's second loop: the completed spans in slot order, a comma between
      neighbours, each cleared once written. */
  method WriteSpanSlots(w: JsonWriter, queue: array<Span>)
    requires w.Valid()
    modifies w, w.buf, queue
    ensures w.Valid() && w.written == old(w.written) + Joined(Emitted(old(queue[..])), SpanPieces)
    ensures queue[..] == ClearedSlots(old(queue[..]))
  {
    ghost var slots := queue[..];
    ghost var pre := w.written;
    assert pre + Joined(Emitted(slots[..0]), SpanPieces) == pre;
    var first := true;
    for i := 0 to queue.Length
      invariant w.Valid() && w.written == pre + Joined(Emitted(slots[..i]), SpanPieces)
      invariant first <==> Emitted(slots[..i]) == []
      invariant queue[..] == ClearedSlots(slots[..i]) + slots[i..]
    {
      first := VisitSlot(w, queue, i, slots, pre, first);
    }
    assert slots[..queue.Length] == slots;
  }

  /** The body of BuildSpansJSON's second loop for slot i. */
  method VisitSlot(w: JsonWriter, queue: array<Span>, i: int, ghost slots: seq<Span>, ghost pre: seq<Piece>,
                   first: bool) returns (first': bool)
    requires w.Valid() && 0 <= i < queue.Length == |slots|
    requires w.written == pre + Joined(Emitted(slots[..i]), SpanPieces)
    requires first <==> Emitted(slots[..i]) == []
    requires queue[..] == ClearedSlots(slots[..i]) + slots[i..]
    modifies w, w.buf, queue
    ensures w.Valid() && w.written == pre + Joined(Emitted(slots[..i + 1]), SpanPieces)
    ensures first' <==> Emitted(slots[..i + 1]) == []
    ensures queue[..] == ClearedSlots(slots[..i + 1]) + slots[i + 1..]
  {
    EmittedStep(slots, i);
    assert queue[i] == slots[i];
    var sent := WriteSlot(w, queue[i], pre, Emitted(slots[..i]), first);
    first' := first && !sent;
    ClearSlot(queue, i, slots, sent);
  }

  /** `BuildSpansJSON`: nothing when no span is completed; otherwise the completed spans in
      slot order in one resourceSpans payload, its length, and each of them cleared so it
      is sent once. */
  method BuildSpansJSON(t: Telemetry, version: seq<Byte>, gitSha: seq<Byte>) returns (n: int)
    requires t.Valid()
    modifies t.body, t.spanQueue
    ensures Emitted(old(t.spanQueue[..])) == [] ==>
              n == 0 && t.body[..] == old(t.body[..]) && t.spanQueue[..] == old(t.spanQueue[..])
    ensures Emitted(old(t.spanQueue[..])) != [] ==>
              0 < n <= BodyBufSize
              && t.body[..n] == PutAll([], SpansDocument(Emitted(old(t.spanQueue[..])), version, gitSha))
              && t.spanQueue[..] == ClearedSlots(old(t.spanQueue[..]))
  {
    var completedCount := CountCompleted(t.spanQueue);
    if completedCount == 0 {
      return 0;
    }
    var w := new JsonWriter(t.body);
    WriteOpening(w, SpansOpen, SpansScope, version, gitSha);
    WriteSpanSlots(w, t.spanQueue);
    w.WriteRaw(DocumentClose);
    OpensWith(SpansOpen, w.written);
    n := w.pos;
  }

  /** A quoted run: quote, body, quote after what was there. */
  lemma Regroup(w: seq<Piece>, q: Byte, body: seq<Piece>)
    ensures w + [One(q)] + body + [One(q)] == w + ([One(q)] + body + [One(q)])
  {
    AppendAssoc(w, [One(q)], body);
    AppendAssoc(w, [One(q)] + body, [One(q)]);
  }

  lemma Pow10Twenty()
    ensures Pow10(20) == 100000000000000000000
  {
    Pow10Ten();
    Pow10Split(10, 10);
  }

  lemma {:induction false} Pow10Split(a: nat, b: nat)
    ensures Pow10(a + b) == Pow10(a) * Pow10(b)
    decreases a
  {
    if a > 0 {
      Pow10Split(a - 1, b);
    }
  }
}
