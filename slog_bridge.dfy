/** The slog bridge of telemetry/slog.go: the handler that sends every record of level
    Info and above to the telemetry log ring, as a short message built in a 128-byte
    buffer. The console text handler it also writes to is I/O and is not modelled. */
module SlogBridge {
  import opened Common
  import opened Telemetry
  import opened OtlpJson

  // ---------------------------------------------------------------------------------
  // Records and handlers
  // ---------------------------------------------------------------------------------

  /** slog's standard levels. */
  const LevelDebug: int := -4
  const LevelInfo: int := 0
  const LevelWarn: int := 4
  const LevelError: int := 8

  type Uint64 = n: int | 0 <= n < I64

  /** An attribute value by its slog kind. A float arrives already converted by Go's
      `int64(...)`; every other kind (time, any, group, log valuer) is `OtherValue`. */
  datatype Value =
    | StringValue(s: seq<Byte>)
    | Int64Value(i: Int64)
    | Uint64Value(u: Uint64)
    | BoolValue(b: bool)
    | DurationValue(d: Int64)
    | Float64Value(truncated: Int64)
    | OtherValue

  datatype Attr = Attr(key: seq<Byte>, value: Value)

  /** The parts of a `slog.Record` the bridge reads. */
  datatype Record = Record(level: int, message: seq<Byte>, attrs: seq<Attr>)

  /** `SlogHandler` without its text handler and level: the attributes and the dotted
      group name. */
  datatype Handler = Handler(attrs: seq<Attr>, group: seq<Byte>)

  const Colon: Byte := 58
  const Space: Byte := 32
  const Equals: Byte := 61
  const Minus: Byte := 45
  const Zero: Byte := 48
  const Dot: Byte := 46

  /** `slogLevelToOTLP`: the OTLP severity number of a level. */
  function LevelToSeverity(level: int): (r: Byte)
  {
    if level >= LevelError then SeverityError
    else if level >= LevelWarn then SeverityWarn
    else if level >= LevelInfo then SeverityInfo
    else SeverityDebug
  }

  /** Each severity covers one band of levels, with the band edges at slog's standard
      levels. */
  lemma SeverityBands(level: int)
    ensures LevelToSeverity(level) == SeverityError <==> level >= LevelError
    ensures LevelToSeverity(level) == SeverityWarn <==> LevelWarn <= level < LevelError
    ensures LevelToSeverity(level) == SeverityInfo <==> LevelInfo <= level < LevelWarn
    ensures LevelToSeverity(level) == SeverityDebug <==> level < LevelInfo
  {
  }

  /** A higher level never gets a lower severity. */
  lemma SeverityMonotone(a: int, b: int)
    requires a <= b
    ensures LevelToSeverity(a) <= LevelToSeverity(b)
  {
  }

  /** `WithAttrs`: the handler's attributes followed by the new ones; the group stays. */
  function WithAttrs(h: Handler, attrs: seq<Attr>): (r: Handler)
    ensures r.group == h.group
    ensures |r.attrs| == |h.attrs| + |attrs| && r.attrs[..|h.attrs|] == h.attrs && r.attrs[|h.attrs|..] == attrs
  {
    Handler(h.attrs + attrs, h.group)
  }

  /** `WithGroup`: the name alone when there is no group yet, else the group, a dot and
      the name; the attributes stay. */
  function WithGroup(h: Handler, name: seq<Byte>): (r: Handler)
  {
    Handler(h.attrs, if h.group != [] then h.group + [Dot] + name else name)
  }

  /** Nested groups read as a dotted path, outermost first. */
  lemma GroupPath(h: Handler, a: seq<Byte>, b: seq<Byte>)
    requires a != []
    ensures h.group == [] ==> WithGroup(WithGroup(h, a), b).group == a + [Dot] + b
    ensures h.group != [] ==> WithGroup(WithGroup(h, a), b).group == h.group + [Dot] + a + [Dot] + b
    ensures WithGroup(WithGroup(h, a), b).attrs == h.attrs
  {
  }

  // ---------------------------------------------------------------------------------
  // Texts
  // ---------------------------------------------------------------------------------

  /** `copyInt64ToBuffer` unbounded: "0", or '-' and the digits of the magnitude. The
      magnitude is `uint64(-n)`, which is right for -2^63 too. */
  function Int64Text(n: Int64): seq<Byte>
  {
    if n == 0 then [Zero]
    else if n < 0 then [Minus] + Digits(AsUint64(WrapInt64(-(n as int))))
    else Digits(n)
  }

  /** Int64Text is the usual signed decimal: it reads back as n, for every n. */
  lemma Int64TextReadsBack(n: Int64)
    ensures n >= 0 ==> AllDigits(Int64Text(n)) && DecimalValue(Int64Text(n)) == n
    ensures n < 0 ==> Int64Text(n)[0] == Minus && AllDigits(Int64Text(n)[1..])
                      && DecimalValue(Int64Text(n)[1..]) == -(n as int)
  {
    if n > 0 {
      DigitsRoundTrip(n);
    } else if n < 0 {
      MagnitudeOf(n);
      DigitsRoundTrip(-(n as int));
      assert Int64Text(n)[1..] == Digits(-(n as int));
    }
  }

  /** `uint64(-n)` for a negative int64 n is the magnitude of n, -2^63 included. */
  lemma MagnitudeOf(n: Int64)
    requires n < 0
    ensures AsUint64(WrapInt64(-(n as int))) == -(n as int)
  {
    assert IsInt64(n);
    if n == -0x8000_0000_0000_0000 {
      assert WrapInt64(-(n as int)) == n;
    } else {
      assert IsInt64(-(n as int));
    }
  }

  const Second: int := 1_000_000_000
  const Micro: int := 1_000

  /** `copyDurationToBuffer` unbounded: the duration in the largest of s, ms and us that it
      reaches, truncated, else in ns. */
  function DurationText(d: Int64): seq<Byte>
  {
    assert IsInt64(d);
    if d == 0 then Ascii("0s")
    else if d >= Second then Int64Text(d / Second) + Ascii("s")
    else if d >= Millisecond then Int64Text(d / Millisecond) + Ascii("ms")
    else if d >= Micro then Int64Text(d / Micro) + Ascii("us")
    else Int64Text(d) + Ascii("ns")
  }

  /** The unit DurationText picks for a positive duration, and its suffix. */
  function DurationUnit(d: int): (unit: int)
    ensures unit in {Second, Millisecond, Micro, 1}
  {
    if d >= Second then Second else if d >= Millisecond then Millisecond else if d >= Micro then Micro else 1
  }

  function DurationSuffix(d: int): seq<Byte>
  {
    if d >= Second then Ascii("s") else if d >= Millisecond then Ascii("ms") else if d >= Micro then Ascii("us") else Ascii("ns")
  }

  /** The number DurationText shows is the duration cut down to whole units: for a
      positive duration unit * shown <= d < unit * (shown + 1), and the unit is the
      largest of s, ms, us and ns that is at most d. */
  lemma DurationTruncates(d: Int64)
    requires d > 0
    ensures var unit := DurationUnit(d);
            var shown := d / unit;
            unit <= d && (d >= Second || unit * 1000 > d)
            && unit * shown <= d < unit * (shown + 1) && shown > 0
            && DurationText(d) == Digits(shown) + DurationSuffix(d)
            && DecimalValue(Digits(shown)) == shown
  {
    assert IsInt64(d);
    var unit := DurationUnit(d);
    WholeUnits(d, unit);
    assert DurationText(d) == Int64Text(d / unit) + DurationSuffix(d);
  }

  lemma WholeUnits(d: int, unit: int)
    requires 0 < unit <= d
    ensures var shown := d / unit;
            unit * shown <= d < unit * (shown + 1) && 0 < shown <= d && DecimalValue(Digits(shown)) == shown
  {
    var q, r := d / unit, d % unit;
    assert d == q * unit + r && 0 <= r < unit;
    assert q >= 1 by {
      if q < 1 {
        MulAtLeast(1 - q, unit);
      }
    }
    MulAtLeast(unit, q);
    assert unit * (q + 1) == q * unit + unit;
    assert unit * q <= d < unit * (q + 1);
    DigitsRoundTrip(q);
  }

  /** `copyAttrValue` unbounded. */
  function ValueText(v: Value): seq<Byte>
  {
    match v
    case StringValue(s) => s
    case Int64Value(i) => Int64Text(i)
    case Uint64Value(u) => Decimal(u)
    case BoolValue(b) => if b then Ascii("true") else Ascii("false")
    case DurationValue(d) => DurationText(d)
    case Float64Value(i) => Int64Text(i)
    case OtherValue => Ascii("?")
  }

  /** A bounded append: as much of s as still fits below cap. */
  function Fill(text: seq<Byte>, s: seq<Byte>, cap: int): (r: seq<Byte>)
    requires |text| <= cap
  {
    text + s[..Min(|s|, cap - |text|)]
  }

  /** The first cap bytes of s (all of s when it is shorter). */
  function Cut(s: seq<Byte>, cap: nat): (r: seq<Byte>)
  {
    s[..Min(|s|, cap)]
  }

  /** Appending to a cut text and cutting again cuts the whole: a run of bounded appends
      keeps the front of everything appended. */
  lemma FillCut(x: seq<Byte>, s: seq<Byte>, cap: nat)
    ensures Fill(Cut(x, cap), s, cap) == Cut(x + s, cap)
  {
    if |x| < cap {
      assert Cut(x, cap) == x;
    }
  }

  /** Two bounded appends are one bounded append of both. */
  lemma FillFill(text: seq<Byte>, a: seq<Byte>, b: seq<Byte>, cap: int)
    requires |text| <= cap
    ensures |Fill(text, a, cap)| <= cap
    ensures Fill(Fill(text, a, cap), b, cap) == Fill(text, a + b, cap)
  {
    var t1 := Fill(text, a, cap);
    if |a| < cap - |text| {
      assert t1 == text + a;
    } else {
      assert t1 == text + (a + b)[..cap - |text|];
    }
  }

  // ---------------------------------------------------------------------------------
  // The message
  // ---------------------------------------------------------------------------------

  /** `buildTelemetryMessage`'s buffer. */
  const MessageSize: int := 128

  /** Attributes are only started while fewer than MessageSize - StopMargin bytes are used. */
  const StopMargin: int := 10

  /** At most this many attributes are rendered. */
  const MaxAttrs: int := 4

  /** The group prefix and the message, unbounded. */
  function HeadText(group: seq<Byte>, message: seq<Byte>): seq<Byte>
  {
    (if group != [] then group + [Colon] else []) + message
  }

  /** One attribute, unbounded: a space, the key, '=' and the value. */
  function AttrText(a: Attr): seq<Byte>
  {
    [Space] + a.key + [Equals] + ValueText(a.value)
  }

  /** The unbounded text of each attribute. */
  function Texts(attrs: seq<Attr>): (ts: seq<seq<Byte>>)
    ensures |ts| == |attrs| && forall i :: 0 <= i < |attrs| ==> ts[i] == AttrText(attrs[i])
  {
    seq(|attrs|, i requires 0 <= i < |attrs| => AttrText(attrs[i]))
  }

  /** Texts one after the other. */
  function Concat(ts: seq<seq<Byte>>): seq<Byte>
    decreases |ts|
  {
    if ts == [] then [] else ts[0] + Concat(ts[1..])
  }

  /** The attributes in order, unbounded. */
  function AttrsText(attrs: seq<Attr>): seq<Byte>
  {
    Concat(Texts(attrs))
  }

  /** The callback of `r.Attrs` over the attributes' texts: they are appended while fewer
      than four are and the text is shorter than 118 bytes; the first refusal stops the
      walk. */
  function Walk(text: seq<Byte>, ts: seq<seq<Byte>>, count: int): (r: seq<Byte>)
    requires |text| <= MessageSize
    ensures |text| <= |r| <= MessageSize
    decreases |ts|
  {
    if ts == [] || count >= MaxAttrs || |text| >= MessageSize - StopMargin then text
    else Walk(Fill(text, ts[0], MessageSize), ts[1..], count + 1)
  }

  /** The message `buildTelemetryMessage` returns for a group and a record. */
  function Message(group: seq<Byte>, r: Record): (m: seq<Byte>)
    ensures |m| <= MessageSize
  {
    Walk(Fill([], HeadText(group, r.message), MessageSize), Texts(r.attrs), 0)
  }

  /** How many texts the walk appends. */
  function Taken(text: seq<Byte>, ts: seq<seq<Byte>>, count: int): (k: nat)
    requires |text| <= MessageSize
    ensures k <= |ts|
    decreases |ts|
  {
    if ts == [] || count >= MaxAttrs || |text| >= MessageSize - StopMargin then 0
    else 1 + Taken(Fill(text, ts[0], MessageSize), ts[1..], count + 1)
  }

  /** The walk is the first 128 bytes of the texts it takes, and it takes at most four. */
  lemma {:induction false} WalkCuts(x: seq<Byte>, ts: seq<seq<Byte>>, count: nat)
    requires count <= MaxAttrs
    ensures var k := Taken(Cut(x, MessageSize), ts, count);
            k <= MaxAttrs - count && Walk(Cut(x, MessageSize), ts, count) == Cut(x + Concat(ts[..k]), MessageSize)
    decreases |ts|
  {
    var text := Cut(x, MessageSize);
    var k := Taken(text, ts, count);
    if ts == [] || count >= MaxAttrs || |text| >= MessageSize - StopMargin {
      assert ts[..k] == [];
      assert x + Concat([]) == x;
    } else {
      FillCut(x, ts[0], MessageSize);
      WalkCuts(x + ts[0], ts[1..], count + 1);
      var j := Taken(Cut(x + ts[0], MessageSize), ts[1..], count + 1);
      assert ts[..k][0] == ts[0] && ts[..k][1..] == ts[1..][..j];
      assert x + ts[0] + Concat(ts[1..][..j]) == x + Concat(ts[..k]);
    }
  }

  /** The message is the first 128 bytes of the group prefix, the message and at most
      four attributes, in record order. */
  lemma MessageIsPrefix(group: seq<Byte>, r: Record)
    ensures exists k :: 0 <= k <= Min(|r.attrs|, MaxAttrs)
                        && Message(group, r) == Cut(HeadText(group, r.message) + AttrsText(r.attrs[..k]), MessageSize)
  {
    var head := HeadText(group, r.message);
    assert Fill([], head, MessageSize) == Cut(head, MessageSize);
    var ts := Texts(r.attrs);
    WalkCuts(head, ts, 0);
    var k := Taken(Cut(head, MessageSize), ts, 0);
    assert ts[..k] == Texts(r.attrs[..k]);
  }

  /** A record whose full text is short enough is rendered whole: every attribute (at most
      four) appears. */
  lemma MessageWhole(group: seq<Byte>, r: Record)
    requires |r.attrs| <= MaxAttrs
    requires |HeadText(group, r.message) + AttrsText(r.attrs)| <= MessageSize - StopMargin
    ensures Message(group, r) == HeadText(group, r.message) + AttrsText(r.attrs)
  {
    var head := HeadText(group, r.message);
    assert Fill([], head, MessageSize) == head;
    WalkWhole(head, Texts(r.attrs), 0);
  }

  lemma {:induction false} WalkWhole(text: seq<Byte>, ts: seq<seq<Byte>>, count: nat)
    requires count + |ts| <= MaxAttrs
    requires |text + Concat(ts)| <= MessageSize - StopMargin
    ensures Walk(text, ts, count) == text + Concat(ts)
    decreases |ts|
  {
    if ts == [] {
      assert text + Concat(ts) == text;
    } else {
      assert text + Concat(ts) == (text + ts[0]) + Concat(ts[1..]);
      assert Fill(text, ts[0], MessageSize) == text + ts[0];
      WalkWhole(text + ts[0], ts[1..], count + 1);
    }
  }

  /** A fifth attribute and beyond never reach the message. */
  lemma FiveAttrsDrop(group: seq<Byte>, r: Record)
    requires |r.attrs| > MaxAttrs
    ensures Message(group, r) == Message(group, r.(attrs := r.attrs[..MaxAttrs]))
  {
    WalkFour(Fill([], HeadText(group, r.message), MessageSize), Texts(r.attrs), 0);
    assert Texts(r.attrs)[..MaxAttrs] == Texts(r.attrs[..MaxAttrs]);
  }

  lemma {:induction false} WalkFour(text: seq<Byte>, ts: seq<seq<Byte>>, count: nat)
    requires |text| <= MessageSize && count <= MaxAttrs && |ts| >= MaxAttrs - count
    ensures Walk(text, ts, count) == Walk(text, ts[..MaxAttrs - count], count)
    decreases |ts|
  {
    var cut := ts[..MaxAttrs - count];
    if count < MaxAttrs && |text| < MessageSize - StopMargin {
      assert cut[0] == ts[0] && cut[1..] == ts[1..][..MaxAttrs - (count + 1)];
      WalkFour(Fill(text, ts[0], MessageSize), ts[1..], count + 1);
    }
  }

  // ---------------------------------------------------------------------------------
  // The buffer helpers
  // ---------------------------------------------------------------------------------

  /** `copyToBuffer`: as much of s as fits from pos on; the new position. */
  method CopyToBuffer(buf: array<Byte>, pos: int, s: seq<Byte>) returns (r: int)
    requires 0 <= pos <= buf.Length
    modifies buf
    ensures pos <= r <= buf.Length
    ensures buf[..r] == Fill(old(buf[..pos]), s, buf.Length)
  {
    r := pos;
    var i := 0;
    while i < |s| && r < buf.Length
      invariant pos <= r <= buf.Length && r - pos == i <= |s|
      invariant buf[..r] == old(buf[..pos]) + s[..i]
    {
      buf[r] := s[i];
      r := r + 1;
      i := i + 1;
    }
  }

  /** One byte when there is room, as `buildTelemetryMessage` writes ':', ' ' and '='. */
  method PutByte(buf: array<Byte>, pos: int, b: Byte) returns (r: int)
    requires 0 <= pos <= buf.Length
    modifies buf
    ensures pos <= r <= buf.Length
    ensures buf[..r] == Fill(old(buf[..pos]), [b], buf.Length)
  {
    r := pos;
    if r < buf.Length {
      buf[r] := b;
      r := r + 1;
    }
  }

  /** `copyUint64ToBuffer`: '0', or the digits built right to left in a 20-byte array and
      then copied while there is room. */
  method CopyUint64ToBuffer(buf: array<Byte>, pos: int, n: Uint64) returns (r: int)
    requires 0 <= pos <= buf.Length
    modifies buf
    ensures pos <= r <= buf.Length
    ensures buf[..r] == Fill(old(buf[..pos]), Decimal(n), buf.Length)
  {
    if n == 0 {
      r := PutByte(buf, pos, Zero);
      return;
    }
    Pow10Twenty();
    var digits := FillDigits(n, 20);
    r := CopyToBuffer(buf, pos, digits);
  }

  /** `copyInt64ToBuffer`. */
  method CopyInt64ToBuffer(buf: array<Byte>, pos: int, n: Int64) returns (r: int)
    requires 0 <= pos <= buf.Length
    modifies buf
    ensures pos <= r <= buf.Length
    ensures buf[..r] == Fill(old(buf[..pos]), Int64Text(n), buf.Length)
  {
    if n == 0 {
      r := PutByte(buf, pos, Zero);
      return;
    }
    var p := pos;
    var m: int := n;
    if n < 0 {
      p := PutByte(buf, pos, Minus);
      m := WrapInt64(-(n as int));
    }
    if n < 0 {
      MagnitudeOf(n);
    }
    assert AsUint64(m) != 0 && Decimal(AsUint64(m)) == Digits(AsUint64(m));
    r := CopyUint64ToBuffer(buf, p, AsUint64(m));
    if n < 0 {
      FillFill(old(buf[..pos]), [Minus], Digits(AsUint64(m)), buf.Length);
    }
  }

  /** `copyDurationToBuffer`. */
  method CopyDurationToBuffer(buf: array<Byte>, pos: int, d: Int64) returns (r: int)
    requires 0 <= pos <= buf.Length
    modifies buf
    ensures pos <= r <= buf.Length
    ensures buf[..r] == Fill(old(buf[..pos]), DurationText(d), buf.Length)
  {
    if d == 0 {
      r := CopyToBuffer(buf, pos, Ascii("0s"));
      return;
    }
    var value: Int64, unit: seq<Byte>;
    assert IsInt64(d);
    if d >= Second {
      value, unit := d / Second, Ascii("s");
    } else if d >= Millisecond {
      value, unit := d / Millisecond, Ascii("ms");
    } else if d >= Micro {
      value, unit := d / Micro, Ascii("us");
    } else {
      value, unit := d, Ascii("ns");
    }
    var p := CopyInt64ToBuffer(buf, pos, value);
    r := CopyToBuffer(buf, p, unit);
    FillFill(old(buf[..pos]), Int64Text(value), unit, buf.Length);
  }

  /** `copyAttrValue`. */
  method CopyAttrValue(buf: array<Byte>, pos: int, v: Value) returns (r: int)
    requires 0 <= pos <= buf.Length
    modifies buf
    ensures pos <= r <= buf.Length
    ensures buf[..r] == Fill(old(buf[..pos]), ValueText(v), buf.Length)
  {
    match v {
      case StringValue(s) =>
        r := CopyToBuffer(buf, pos, s);
      case Int64Value(i) =>
        r := CopyInt64ToBuffer(buf, pos, i);
      case Uint64Value(u) =>
        r := CopyUint64ToBuffer(buf, pos, u);
      case BoolValue(b) =>
        r := CopyToBuffer(buf, pos, if b then Ascii("true") else Ascii("false"));
      case DurationValue(d) =>
        r := CopyDurationToBuffer(buf, pos, d);
      case Float64Value(i) =>
        r := CopyInt64ToBuffer(buf, pos, i);
      case OtherValue =>
        r := CopyToBuffer(buf, pos, Ascii("?"));
    }
  }

  /** The body of the `r.Attrs` callback for one attribute that is taken. */
  method CopyAttr(buf: array<Byte>, pos: int, a: Attr) returns (r: int)
    requires 0 <= pos <= buf.Length
    modifies buf
    ensures pos <= r <= buf.Length
    ensures buf[..r] == Fill(old(buf[..pos]), AttrText(a), buf.Length)
  {
    ghost var text := buf[..pos];
    r := PutByte(buf, pos, Space);
    r := CopyToBuffer(buf, r, a.key);
    FillFill(text, [Space], a.key, buf.Length);
    r := PutByte(buf, r, Equals);
    FillFill(text, [Space] + a.key, [Equals], buf.Length);
    r := CopyAttrValue(buf, r, a.value);
    FillFill(text, [Space] + a.key + [Equals], ValueText(a.value), buf.Length);
  }

  /** `buildTelemetryMessage`: the group and ':', the message, then attributes while
      fewer than four are written and fewer than 118 bytes are used. */
  method BuildTelemetryMessage(group: seq<Byte>, r: Record) returns (msg: seq<Byte>)
    ensures msg == Message(group, r)
  {
    var buf := new Byte[MessageSize];
    var pos := 0;
    if group != [] {
      pos := CopyToBuffer(buf, pos, group);
      pos := PutByte(buf, pos, Colon);
      FillFill([], group, [Colon], MessageSize);
    }
    ghost var front := buf[..pos];
    pos := CopyToBuffer(buf, pos, r.message);
    FillFill([], if group != [] then group + [Colon] else [], r.message, MessageSize);
    assert buf[..pos] == Fill([], HeadText(group, r.message), MessageSize);
    var attrCount := 0;
    var i := 0;
    while i < |r.attrs|
      invariant 0 <= i <= |r.attrs| && attrCount == i && 0 <= pos <= MessageSize
      invariant Walk(buf[..pos], Texts(r.attrs)[i..], attrCount) == Message(group, r)
    {
      if attrCount >= MaxAttrs || pos >= buf.Length - StopMargin {
        break;
      }
      assert Texts(r.attrs)[i..][1..] == Texts(r.attrs)[i + 1..];
      pos := CopyAttr(buf, pos, r.attrs[i]);
      attrCount := attrCount + 1;
      i := i + 1;
    }
    msg := buf[..pos];
  }

  /** `Handle`: a record of level Info or above goes to `Log` with the severity of its
      level and the message of the handler's group; lower levels leave the ring alone. */
  method Handle(t: Telemetry, h: Handler, r: Record, now: Int64)
    requires t.Valid()
    modifies t`logHead, t`logCount, t.logQueue
    ensures t.Valid()
    ensures r.level < LevelInfo || !t.enabled || t.paused ==>
              t.logHead == old(t.logHead) && t.logCount == old(t.logCount) && t.logQueue[..] == old(t.logQueue[..])
    ensures r.level >= LevelInfo && t.enabled && !t.paused ==>
              t.Logs() == Newest(old(t.Logs()) + [NewLogEntry(LevelToSeverity(r.level), Message(h.group, r), now,
                                                               t.hasTraceCtx, t.currentTraceId, t.currentSpanId)])
  {
    if r.level >= LevelInfo {
      var msg := BuildTelemetryMessage(h.group, r);
      var severity := LevelToSeverity(r.level);
      t.Log(severity, msg, now);
    }
  }
}
