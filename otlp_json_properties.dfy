/** What the OTLP/JSON payloads of telemetry/json.go mean: the bytes a run of writes
    leaves while it fits, the escaping of strings and its inverse, the hex and decimal
    renderings read back, the order of joined items, which optional fields appear, and
    that a span is sent only once. */
module OtlpJsonProperties {
  import opened Common
  import opened Telemetry
  import opened OtlpJson
  import SlogBridge

  // ---------------------------------------------------------------------------------
  // Writes and the bytes they carry
  // ---------------------------------------------------------------------------------

  /** The bytes of two runs of writes are the bytes of each, in order. */
  lemma {:induction false} FlatAppend(a: seq<Piece>, b: seq<Piece>)
    ensures Flat(a + b) == Flat(a) + Flat(b)
    decreases |b|
  {
    if b == [] {
      assert a + b == a;
    } else {
      var init, last := b[..|b| - 1], b[|b| - 1];
      FlatAppend(a, init);
      assert (a + b)[..|a + b| - 1] == a + init;
      assert (a + b)[|a + b| - 1] == last;
      AppendAssoc(Flat(a), Flat(init), PieceBytes(last));
    }
  }

  /** While the buffer has room for everything, the writes leave exactly their bytes:
      nothing is dropped and nothing is cut. */
  lemma {:induction false} PutAllFits(text: seq<Byte>, ps: seq<Piece>)
    requires |text| + |Flat(ps)| <= BodyBufSize
    ensures PutAll(text, ps) == text + Flat(ps)
    decreases |ps|
  {
    if ps != [] {
      var init, last := ps[..|ps| - 1], ps[|ps| - 1];
      assert Flat(ps) == Flat(init) + PieceBytes(last);
      PutAllFits(text, init);
      assert PutAll(text, ps) == Put(text + Flat(init), last);
    }
  }

  /** Near the end of the buffer an escape that does not fit is dropped whole while the
      closing quote after it still lands: the text left is not a prefix of the intended
      bytes, and the string ends on a bare quote. */
  lemma DroppedEscapeThenQuote()
    ensures var text := seq(BodyBufSize - 1, i => 0);
            var ps := [Raw([Backslash, Quote]), One(Quote)];
            PutAll(text, ps) == text + [Quote] && Flat(ps) == [Backslash, Quote, Quote]
  {
    var text := seq(BodyBufSize - 1, i => 0);
    var ps := [Raw([Backslash, Quote]), One(Quote)];
    assert ps[..1] == [Raw([Backslash, Quote])] && ps[..1][..0] == [];
    assert PutAll(text, ps[..1]) == Put(text, Raw([Backslash, Quote])) == text;
    assert PutAll(text, ps) == Put(text, One(Quote));
    assert Flat(ps[..1]) == [Backslash, Quote];
  }

  // ---------------------------------------------------------------------------------
  // String escaping
  // ---------------------------------------------------------------------------------

  /** The bytes `writeString` and `writeBytes` keep: tab, newline, carriage return and
      printable ASCII. */
  predicate Kept(c: Byte)
  {
    c == 9 || c == 10 || c == 13 || 32 <= c < 127
  }

  /** The kept bytes of s, in order. */
  function Keep(s: seq<Byte>): (r: seq<Byte>)
    ensures |r| <= |s|
    ensures (forall i :: 0 <= i < |s| ==> Kept(s[i])) ==> r == s
    decreases |s|
  {
    if s == [] then [] else (if Kept(s[0]) then [s[0]] else []) + Keep(s[1..])
  }

  /** The character a JSON escape `\c` stands for. */
  function Unescaped(c: Byte): Byte
  {
    if c == 110 then 10 else if c == 114 then 13 else if c == 116 then 9 else c
  }

  /** A JSON reader's view of the inside of a string: an escape pair is one character. */
  function Unescape(t: seq<Byte>): seq<Byte>
    decreases |t|
  {
    if t == [] then []
    else if t[0] == Backslash && |t| >= 2 then [Unescaped(t[1])] + Unescape(t[2..])
    else [t[0]] + Unescape(t[1..])
  }

  /** The inside of a well-formed JSON string that uses only the escapes \" \\ \n \r \t
      and otherwise printable ASCII: no bare quote, no dangling backslash. */
  predicate StringBody(t: seq<Byte>)
    decreases |t|
  {
    t == []
    || (t[0] == Backslash && |t| >= 2 && (t[1] == Quote || t[1] == Backslash || t[1] == 110 || t[1] == 114 || t[1] == 116)
        && StringBody(t[2..]))
    || (t[0] != Backslash && t[0] != Quote && 32 <= t[0] < 127 && StringBody(t[1..]))
  }

  lemma {:induction false} EscapedAppend(s: seq<Byte>, t: seq<Byte>)
    ensures Escaped(s + t) == Escaped(s) + Escaped(t)
    decreases |t|
  {
    if t == [] {
      assert s + t == s;
    } else {
      var init := t[..|t| - 1];
      EscapedAppend(s, init);
      assert (s + t)[..|s + t| - 1] == s + init;
      assert (s + t)[|s + t| - 1] == t[|t| - 1];
      AppendAssoc(Escaped(s), Escaped(init), EscapeByte(t[|t| - 1]));
    }
  }

  /** One escaped byte in front of a well-formed rest. */
  lemma EscapeUnit(c: Byte, rest: seq<Byte>)
    requires StringBody(rest)
    ensures StringBody(Flat(EscapeByte(c)) + rest)
    ensures Unescape(Flat(EscapeByte(c)) + rest) == (if Kept(c) then [c] else []) + Unescape(rest)
  {
    var e := Flat(EscapeByte(c));
    if |e| == 2 {
      assert (e + rest)[2..] == rest;
    } else if |e| == 1 {
      assert (e + rest)[1..] == rest;
    } else {
      assert e + rest == rest;
    }
  }

  /** `writeString` escapes so that a JSON reader gets back every kept byte, in order,
      and nothing else; the escaped text is a well-formed string body. */
  lemma {:induction false} EscapeRoundTrip(s: seq<Byte>)
    ensures StringBody(Flat(Escaped(s)))
    ensures Unescape(Flat(Escaped(s))) == Keep(s)
    decreases |s|
  {
    if s != [] {
      var c := s[0];
      assert s == [c] + s[1..];
      EscapedAppend([c], s[1..]);
      assert Escaped([c]) == EscapeByte(c) by {
        assert [c][..0] == [];
      }
      FlatAppend(EscapeByte(c), Escaped(s[1..]));
      EscapeRoundTrip(s[1..]);
      EscapeUnit(c, Flat(Escaped(s[1..])));
    }
  }

  /** A written string is quoted, its inside is well formed, and it reads back as the
      kept bytes: all of s when s is printable ASCII, tab, newline or carriage return. */
  lemma StringReadsBack(s: seq<Byte>)
    ensures var t := Flat(StringPieces(s));
            |t| >= 2 && t[0] == Quote && t[|t| - 1] == Quote
            && StringBody(t[1..|t| - 1]) && Unescape(t[1..|t| - 1]) == Keep(s)
  {
    FlatQuoted(Escaped(s));
    var t := Flat(StringPieces(s));
    assert t[1..|t| - 1] == Flat(Escaped(s));
    EscapeRoundTrip(s);
  }

  // ---------------------------------------------------------------------------------
  // Numbers and ids
  // ---------------------------------------------------------------------------------

  lemma {:induction false} FlatOnes(ds: seq<Byte>)
    ensures Flat(Ones(ds)) == ds
    decreases |ds|
  {
    if ds != [] {
      var init := ds[..|ds| - 1];
      assert Ones(ds)[..|ds| - 1] == Ones(init);
      FlatOnes(init);
    }
  }

  /** A run of writes between two quote writes carries its bytes between quotes. */
  lemma FlatQuoted(ps: seq<Piece>)
    ensures Flat([One(Quote)] + ps + [One(Quote)]) == [Quote] + Flat(ps) + [Quote]
  {
    FlatAppend([One(Quote)] + ps, [One(Quote)]);
    FlatAppend([One(Quote)], ps);
    assert [One(Quote)] == Ones([Quote]);
    FlatOnes([Quote]);
  }

  /** `writeInt64` writes, in quotes, the same text as `copyInt64ToBuffer` of slog.go:
      "0", the digits of n, or '-' and the digits of its magnitude, -2^63 included. It
      reads back as n. */
  lemma Int64ReadsBack(n: Int64)
    ensures Flat(Int64Pieces(n)) == [Quote] + SlogBridge.Int64Text(n) + [Quote]
    ensures n >= 0 ==> DecimalValue(SlogBridge.Int64Text(n)) == n
    ensures n < 0 ==> SlogBridge.Int64Text(n)[0] == 45 && DecimalValue(SlogBridge.Int64Text(n)[1..]) == -(n as int)
  {
    Int64Flat(n);
    SlogBridge.Int64TextReadsBack(n);
  }

  lemma Int64Flat(n: Int64)
    ensures Flat(Int64Pieces(n)) == [Quote] + SlogBridge.Int64Text(n) + [Quote]
  {
    var mid := if n == 0 then Ones([48])
               else if n < 0 then [One(45)] + Ones(Digits(AsUint64(WrapInt64(-(n as int)))))
               else Ones(Digits(n));
    assert Int64Pieces(n) == [One(Quote)] + mid + [One(Quote)];
    FlatQuoted(mid);
    if n == 0 {
      FlatOnes([48]);
    } else if n < 0 {
      SignedDigits(Digits(AsUint64(WrapInt64(-(n as int)))));
    } else {
      FlatOnes(Digits(n));
    }
  }

  /** A minus sign written before a run of digits. */
  lemma SignedDigits(ds: seq<Byte>)
    ensures Flat([One(45)] + Ones(ds)) == [45] + ds
  {
    FlatAppend([One(45)], Ones(ds));
    assert [One(45)] == Ones([45]);
    FlatOnes([45]);
    FlatOnes(ds);
  }

  /** `writeInt` writes the usual signed decimal for every 32-bit int but the smallest. */
  lemma IntReadsBack(n: int)
    requires IsInt32(n) && n != -0x8000_0000
    ensures n >= 0 ==> Flat(IntPieces(n)) == Decimal(n)
    ensures n < 0 ==> Flat(IntPieces(n)) == [45] + Digits(-n)
  {
    if n > 0 {
      assert IntPieces(n) == Ones(Digits(n)) by {
        assert [] + Ones(Digits(n)) == Ones(Digits(n));
      }
      FlatOnes(Digits(n));
      assert Decimal(n) == Digits(n);
    } else if n < 0 {
      NegativeInt(n);
    } else {
      assert IntPieces(0) == Ones([48]);
      FlatOnes([48]);
    }
  }

  lemma NegativeInt(n: int)
    requires IsInt32(n) && -0x8000_0000 < n < 0
    ensures Flat(IntPieces(n)) == [45] + Digits(-n)
  {
    assert WrapInt32(-n) == -n;
    assert IntPieces(n) == [One(45)] + Ones(Digits(-n));
    SignedDigits(Digits(-n));
  }

  /** `writeInt(math.MinInt32)` writes only the sign: the negation wraps back to a
      negative value, so the digit loop writes nothing. */
  lemma IntMinWritesSignOnly()
    ensures Flat(IntPieces(-0x8000_0000)) == [45]
  {
    var n := -0x8000_0000;
    assert WrapInt32(-n) == n;
    assert IntPieces(n) == [One(45)] + Ones([]);
    assert [One(45)] + Ones([]) == [One(45)];
    assert [One(45)][..0] == [];
  }

  lemma {:induction false} HexBytesSnoc(bs: seq<Byte>, x: Byte)
    ensures HexBytes(bs + [x]) == HexBytes(bs) + [HexDigit(x / 16), HexDigit(x % 16)]
    decreases |bs|
  {
    if bs == [] {
      assert [x][1..] == [];
    } else {
      assert (bs + [x])[1..] == bs[1..] + [x];
      HexBytesSnoc(bs[1..], x);
    }
  }

  /** `writeHex` writes, in quotes, two lowercase hex digits per byte, high nibble first,
      and the digits read back as the id. */
  lemma {:induction false} HexReadsBack(bs: seq<Byte>)
    ensures Flat(HexPieces(bs)) == HexBytes(bs)
    ensures forall i :: 0 <= i < |Flat(HexPieces(bs))| ==> IsLowerHex(Flat(HexPieces(bs))[i])
    ensures UnhexBytes(Flat(HexPieces(bs))) == bs
    decreases |bs|
  {
    if bs != [] {
      var init := bs[..|bs| - 1];
      var x := bs[|bs| - 1];
      HexReadsBack(init);
      var pair := [One(HexDigit(x / 16)), One(HexDigit(x % 16))];
      FlatAppend(HexPieces(init), pair);
      assert pair == Ones([HexDigit(x / 16), HexDigit(x % 16)]);
      FlatOnes([HexDigit(x / 16), HexDigit(x % 16)]);
      assert bs == init + [x];
      HexBytesSnoc(init, x);
    }
    HexBytesRoundTrip(bs);
  }

  // ---------------------------------------------------------------------------------
  // Joined items
  // ---------------------------------------------------------------------------------

  /** Joining two nonempty runs of items is joining each with one comma between: every
      item is written once, in order, one comma between neighbours. */
  lemma {:induction false} JoinedAppend<T>(a: seq<T>, b: seq<T>, f: T -> seq<Piece>)
    requires a != [] && b != []
    ensures Joined(a + b, f) == Joined(a, f) + [One(Comma)] + Joined(b, f)
    decreases |b|
  {
    var ab := a + b;
    var init, last := b[..|b| - 1], b[|b| - 1];
    assert ab[..|ab| - 1] == a + init;
    assert ab[|ab| - 1] == last;
    if |b| == 1 {
      assert a + init == a;
    } else {
      JoinedAppend(a, init, f);
      var p, j := Joined(a, f) + [One(Comma)], Joined(init, f);
      AppendAssoc(p, j, [One(Comma)]);
      AppendAssoc(p, j + [One(Comma)], f(last));
    }
  }

  // ---------------------------------------------------------------------------------
  // Optional fields
  // ---------------------------------------------------------------------------------

  /** No write in ps is a raw string longer than two bytes. */
  predicate Short(ps: seq<Piece>)
  {
    forall p :: p in ps && p.Raw? ==> |p.s| <= 2
  }

  lemma {:induction false} EscapedShort(s: seq<Byte>)
    ensures Short(Escaped(s))
    decreases |s|
  {
    if s != [] {
      EscapedShort(s[..|s| - 1]);
    }
  }

  lemma {:induction false} HexShort(bs: seq<Byte>)
    ensures Short(HexPieces(bs))
    decreases |bs|
  {
    if bs != [] {
      HexShort(bs[..|bs| - 1]);
    }
  }

  lemma OnesShort(ds: seq<Byte>)
    ensures Short(Ones(ds))
  {
    assert forall p :: p in Ones(ds) ==> p.One?;
  }

  lemma NumbersShort(n: Int64, m: int)
    requires IsInt32(m)
    ensures Short(Int64Pieces(n)) && Short(IntPieces(m))
  {
    OnesShort(Digits(AsUint64(WrapInt64(-(n as int)))));
    OnesShort(Digits(if n > 0 then n else 0));
    var k := if m < 0 then WrapInt32(-m) else m;
    OnesShort(Digits(if k > 0 then k else 0));
  }

  /** A log record carries "traceId" exactly when it was logged with a trace context. */
  lemma TraceIdOnlyWithContext(e: LogEntry)
    ensures Raw(TraceIdKey) in LogPieces(e) <==> e.trace.Some?
  {
    assert |TraceIdKey| == 11;
    NumbersShort(e.timestamp, e.severity);
    EscapedShort(e.body);
    var a := [Raw(TimeKey)] + Int64Pieces(e.timestamp);
    assert |TimeKey| == 16 && Raw(TraceIdKey) !in a;
    var b := a + [Raw(SeverityKey)] + IntPieces(e.severity);
    assert |SeverityKey| == 18 && Raw(TraceIdKey) !in b;
    var c := b + [Raw(BodyKey)] + StringPieces(e.body) + [One(CloseBrace)];
    assert |BodyKey| == 23 && Raw(TraceIdKey) !in c;
    assert c == LogHeadPieces(e);
  }

  /** A span carries "parentSpanId" exactly when its parent id has a nonzero byte. */
  lemma ParentOnlyWhenNonZero(s: Span)
    ensures Raw(ParentKey) in SpanPieces(s) <==> NonZero(s.parentId)
  {
    ParentInIds(s);
    ParentNotInTimes(s);
  }

  lemma ParentInIds(s: Span)
    ensures Raw(ParentKey) in SpanIdPieces(s) <==> NonZero(s.parentId)
  {
    EscapedShort(s.name);
    HexShort(s.traceId);
    HexShort(s.spanId);
    HexShort(s.parentId);
    assert |ParentKey| == 16 && |SpanTraceKey| == 11 && |SpanIdKey| == 10 && |SpanNameKey| == 8;
  }

  lemma ParentNotInTimes(s: Span)
    ensures Raw(ParentKey) !in SpanTimePieces(s)
  {
    var code := if s.statusOK then SpanStatusOK else SpanStatusError;
    assert |ParentKey| == 16;
    NumbersShort(s.startTime, SpanKind);
    NumbersShort(s.endTime, code);
    var a := [Raw(KindKey)] + IntPieces(SpanKind);
    assert |KindKey| == 8 && Raw(ParentKey) !in a;
    var b := a + [Raw(StartKey)] + Int64Pieces(s.startTime);
    assert |StartKey| == 21 && Raw(ParentKey) !in b;
    var c := b + [Raw(EndKey)] + Int64Pieces(s.endTime);
    assert |EndKey| == 19 && Raw(ParentKey) !in c;
    assert |StatusKey| == 18 && |SpanClose| == 2;
  }

  /** A gauge is written as "gauge" and a counter as a "sum", never both. */
  lemma GaugeOrSum(p: MetricPoint)
    ensures Raw(GaugeOpen) in MetricPieces(p) <==> p.isGauge
    ensures Raw(SumOpen) in MetricPieces(p) <==> !p.isGauge
  {
    assert |GaugeOpen| == 40 && |SumOpen| == 38;
    EscapedShort(p.name);
    NumbersShort(p.timestamp, 0);
    NumbersShort(p.value, 0);
    var a := [Raw(NameKey)] + StringPieces(p.name);
    assert |NameKey| == 8 && Raw(GaugeOpen) !in a && Raw(SumOpen) !in a;
    var b := a + (if p.isGauge then [Raw(GaugeOpen)] else [Raw(SumOpen)]);
    var c := b + Int64Pieces(p.timestamp) + [Raw(AsIntKey)] + Int64Pieces(p.value);
    assert |AsIntKey| == 9;
    assert Raw(GaugeOpen) in c <==> Raw(GaugeOpen) in b;
    assert Raw(SumOpen) in c <==> Raw(SumOpen) in b;
    assert |GaugeClose| == 3 && |SumClose| == 49;
  }

  // ---------------------------------------------------------------------------------
  // Spans are sent once
  // ---------------------------------------------------------------------------------

  /** The emitted spans are exactly the completed slots: each emitted span is a completed
      slot, and each completed slot is emitted. */
  lemma {:induction false} EmittedAreCompleted(slots: seq<Span>)
    ensures forall s :: s in Emitted(slots) ==> Completed(s) && s in slots
    ensures forall j :: 0 <= j < |slots| && Completed(slots[j]) ==> slots[j] in Emitted(slots)
    decreases |slots|
  {
    if slots != [] {
      var init := slots[..|slots| - 1];
      EmittedAreCompleted(init);
      forall j | 0 <= j < |slots| && Completed(slots[j])
        ensures slots[j] in Emitted(slots)
      {
        if j < |slots| - 1 {
          assert init[j] == slots[j];
        }
      }
      forall s | s in Emitted(slots)
        ensures Completed(s) && s in slots
      {
        if s in Emitted(init) {
          var k :| 0 <= k < |init| && init[k] == s;
          assert slots[k] == s;
        }
      }
    }
  }

  /** After BuildSpansJSON has cleared the slots, a second build finds nothing to send. */
  lemma {:induction false} ClearedEmitsNothing(slots: seq<Span>)
    ensures Emitted(ClearedSlots(slots)) == []
    decreases |slots|
  {
    if slots != [] {
      var init := slots[..|slots| - 1];
      assert ClearedSlots(slots)[..|slots| - 1] == ClearedSlots(init);
      ClearedEmitsNothing(init);
    }
  }
}
