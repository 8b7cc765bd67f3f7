/** What the console's line editor, password prompt, lockout and formatters promise. */
module ConsoleProperties {
  import opened Common
  import opened Console

  // ---------------------------------------------------------------------------------
  // Line editor
  // ---------------------------------------------------------------------------------

  /** The commands among the events, in order. */
  function Commands(events: seq<Event>): (r: seq<seq<Byte>>)
    ensures |r| <= |events|
  {
    if events == [] then []
    else Commands(events[..|events| - 1])
         + (if events[|events| - 1].Dispatch? then [events[|events| - 1].cmd] else [])
  }

  function Flatten(lines: seq<seq<Byte>>): seq<Byte>
  {
    if lines == [] then [] else Flatten(lines[..|lines| - 1]) + lines[|lines| - 1]
  }

  /** The printable bytes of data, in order. */
  function Printables(data: seq<Byte>): (r: seq<Byte>)
    ensures AllPrintable(r)
  {
    if data == [] then []
    else (if IsPrintable(data[0]) then [data[0]] else []) + Printables(data[1..])
  }

  predicate NoIac(data: seq<Byte>) { forall i :: 0 <= i < |data| ==> data[i] != Iac }

  /** A well-formed command: nonempty, printable, and shorter than the line limit. */
  predicate GoodCommand(e: Event)
  {
    e.Dispatch? ==> e.cmd != [] && AllPrintable(e.cmd) && |e.cmd| < LineLimit
  }

  predicate GoodEvents(events: seq<Event>) { forall i :: 0 <= i < |events| ==> GoodCommand(events[i]) }

  predicate GoodPass(p: Pass)
  {
    0 <= p.skip <= 2 && AllPrintable(p.line) && |p.line| <= LineLimit && GoodEvents(p.events)
  }

  /** Only nonempty lines of printable bytes, shorter than the limit, are ever run, and the
      line kept between reads stays printable and below the limit. */
  lemma {:induction false} ScanGood(p: Pass, data: seq<Byte>)
    requires GoodPass(p)
    ensures GoodPass(Scan(p, data))
    decreases |data|
  {
    if data != [] && |p.line| < LineLimit {
      var q := ByteStep(p, data[0]);
      assert GoodPass(q);
      ScanGood(q, data[1..]);
    }
  }

  /** One read never runs a malformed command, and leaves a printable line shorter than
      the limit (cmdLen < 1023) and at most two bytes of an IAC sequence to skip. */
  lemma ReadGood(line: seq<Byte>, skip: int, data: seq<Byte>)
    requires AllPrintable(line) && |line| < LineLimit && 0 <= skip <= 2
    ensures var r := ReadSpec(line, skip, data);
            GoodEvents(r.events) && AllPrintable(r.line) && |r.line| < LineLimit && 0 <= r.skip <= 2
  {
    ScanGood(Pass(line, skip, false, []), data);
    var p := Scan(Pass(line, skip, false, []), data);
    if |p.line| >= LineLimit {
      assert p.events + [LineTooLong] == ReadSpec(line, skip, data).events;
    }
  }

  /** An IAC byte swallows itself and the next two bytes, whatever they are. */
  lemma IacSkipsThree(p: Pass, x: Byte, y: Byte, rest: seq<Byte>)
    requires p.skip == 0 && |p.line| < LineLimit
    ensures Scan(p, [Iac, x, y] + rest) == Scan(p, rest)
  {
    assert ([Iac, x, y] + rest)[1..] == [x, y] + rest;
    assert ([x, y] + rest)[1..] == [y] + rest;
    assert ([y] + rest)[1..] == rest;
    assert Scan(p, [Iac, x, y] + rest) == Scan(p.(skip := 2), [x, y] + rest);
    assert Scan(p.(skip := 2), [x, y] + rest) == Scan(p.(skip := 1), [y] + rest);
    assert Scan(p.(skip := 1), [y] + rest) == Scan(p.(skip := 0), rest);
  }

  /** The skip count outlives the read: an IAC sequence split across reads is still
      swallowed whole. */
  lemma IacAcrossReads(line: seq<Byte>, x: Byte, y: Byte, rest: seq<Byte>)
    requires |line| < LineLimit
    ensures Scan(Pass(line, 0, false, []), [Iac]).skip == 2
    ensures ReadSpec(line, 2, [x, y] + rest) == ReadSpec(line, 0, rest)
  {
    assert [Iac][1..] == [];
    var p := Pass(line, 2, false, []);
    assert ([x, y] + rest)[1..] == [y] + rest;
    assert ([y] + rest)[1..] == rest;
    assert Scan(p, [x, y] + rest) == Scan(p.(skip := 1), [y] + rest);
    assert Scan(p.(skip := 1), [y] + rest) == Scan(p.(skip := 0), rest);
  }

  /** A newline byte right after a newline does nothing: "\r\n" ends one line, not two. */
  lemma NewlinesCollapse(p: Pass, b: Byte, rest: seq<Byte>)
    requires p.newline && p.skip == 0 && IsNewline(b) && |p.line| < LineLimit
    ensures Scan(p, [b] + rest) == Scan(p, rest)
  {
    assert ([b] + rest)[1..] == rest;
  }

  /** Printable bytes go straight onto the line, up to the limit. */
  lemma {:induction false} ScanPrintable(p: Pass, cmd: seq<Byte>, tail: seq<Byte>)
    requires p.skip == 0 && AllPrintable(cmd) && |p.line| + |cmd| <= LineLimit
    ensures Scan(p, cmd + tail)
            == Scan(Pass(p.line + cmd, 0, if cmd == [] then p.newline else false, p.events), tail)
    decreases |cmd|
  {
    if cmd == [] {
      assert cmd + tail == tail;
      assert p.line + cmd == p.line;
    } else {
      var q := ByteStep(p, cmd[0]);
      assert (cmd + tail)[1..] == cmd[1..] + tail;
      assert q == Pass(p.line + [cmd[0]], 0, false, p.events);
      ScanPrintable(q, cmd[1..], tail);
      assert q.line + cmd[1..] == p.line + cmd;
    }
  }

  /** A command typed in one read and ended with CR LF is run once and followed by one
      prompt, leaving an empty line. */
  lemma OneCommand(cmd: seq<Byte>)
    requires cmd != [] && AllPrintable(cmd) && |cmd| < LineLimit
    ensures ReadSpec([], 0, cmd + [13, 10]) == Pass([], 0, true, [Dispatch(cmd), Prompt])
  {
    var p0 := Pass([], 0, false, []);
    ScanPrintable(p0, cmd, [13, 10]);
    assert [] + cmd == cmd;
    var p1 := Pass(cmd, 0, false, []);
    var p2 := ByteStep(p1, 13);
    assert p2 == Pass([], 0, true, [Dispatch(cmd), Prompt]);
    assert Scan(p1, [13, 10]) == Scan(p2, [10]);
    NewlinesCollapse(p2, 10, []);
    assert [10 as Byte] + [] == [10];
  }

  /** A line that reaches 1023 bytes is thrown away with "Line too long", and the rest of
      that read is dropped unread. */
  lemma LongLineDiscarded(cmd: seq<Byte>, rest: seq<Byte>)
    requires AllPrintable(cmd) && |cmd| == LineLimit
    ensures ReadSpec([], 0, cmd + rest) == Pass([], 0, false, [LineTooLong])
  {
    ScanPrintable(Pass([], 0, false, []), cmd, rest);
    assert [] + cmd == cmd;
  }

  lemma CommandsSnoc(events: seq<Event>, e: Event)
    ensures Commands(events + [e]) == Commands(events) + (if e.Dispatch? then [e.cmd] else [])
  {
    assert (events + [e])[..|events|] == events;
  }

  lemma FlattenSnoc(lines: seq<seq<Byte>>, x: seq<Byte>)
    ensures Flatten(lines + [x]) == Flatten(lines) + x
  {
    assert (lines + [x])[..|lines|] == lines;
  }

  /** One byte that is not IAC, with nothing left to skip, adds exactly its printable
      part to the text of the commands and the line. */
  lemma StepKeepsText(p: Pass, b: Byte)
    requires p.skip == 0 && b != Iac
    ensures var q := ByteStep(p, b);
            q.skip == 0
            && Flatten(Commands(q.events)) + q.line
               == Flatten(Commands(p.events)) + p.line + (if IsPrintable(b) then [b] else [])
  {
    var q := ByteStep(p, b);
    var before := Flatten(Commands(p.events)) + p.line;
    if IsNewline(b) && !p.newline {
      var es := p.events + (if p.line != [] then [Dispatch(p.line)] else []);
      assert q.events == es + [Prompt];
      CommandsSnoc(es, Prompt);
      assert Commands(q.events) == Commands(es);
      if p.line != [] {
        CommandsSnoc(p.events, Dispatch(p.line));
        FlattenSnoc(Commands(p.events), p.line);
        assert Flatten(Commands(es)) == before;
      } else {
        assert es == p.events;
        assert before == Flatten(Commands(p.events));
      }
      assert q.line == [];
    } else if IsPrintable(b) {
      assert q.line == p.line + [b];
      AppendAssoc(Flatten(Commands(p.events)), p.line, [b]);
    }
  }

  /** Nothing typed is lost: when the input holds no IAC byte and no line reaches the
      limit, the commands run, joined, followed by the line still being typed, are the
      line that was pending followed by every printable byte of the input. */
  lemma {:induction false} ScanKeepsText(p: Pass, data: seq<Byte>)
    requires p.skip == 0 && NoIac(data)
    requires |Scan(p, data).line| < LineLimit
    ensures var q := Scan(p, data);
            Flatten(Commands(q.events)) + q.line == Flatten(Commands(p.events)) + p.line + Printables(data)
    decreases |data|
  {
    if data == [] {
      assert Printables(data) == [];
    } else {
      var b := data[0];
      var q := ByteStep(p, b);
      assert Scan(p, data) == Scan(q, data[1..]);
      assert NoIac(data[1..]) by {
        assert forall i :: 0 <= i < |data[1..]| ==> data[1..][i] == data[i + 1];
      }
      ScanKeepsText(q, data[1..]);
      StepKeepsText(p, b);
      var head := if IsPrintable(b) then [b] else [];
      assert Printables(data) == head + Printables(data[1..]);
      AppendAssoc(Flatten(Commands(p.events)) + p.line, head, Printables(data[1..]));
    }
  }

  // ---------------------------------------------------------------------------------
  // Lockout
  // ---------------------------------------------------------------------------------

  /** More failures never mean a shorter lockout. */
  lemma LockoutMonotone(f1: int, f2: int)
    requires f1 <= f2
    ensures LockoutFor(f1) <= LockoutFor(f2)
  {
  }

  /** The thresholds: 3 failures give 5 s, 5 give 30 s and 10 give 5 minutes. */
  lemma LockoutThresholds(f: int)
    ensures 3 <= f < 5 ==> LockoutFor(f) == 5 * Second
    ensures 5 <= f < 10 ==> LockoutFor(f) == 30 * Second
    ensures 10 <= f ==> LockoutFor(f) == 5 * Minute
  {
  }

  /** Every lockout ends: five minutes after the last failure connections are accepted
      again, whatever the count. */
  lemma LockoutExpires(g: AuthGuard, now: int)
    requires now - g.lastFailure >= 5 * Minute
    ensures !g.Locked(now)
  {
  }

  /** From the third failure on, the guard is locked at the moment of the failure and
      stays locked for at least 5 s; below three failures it is never locked. */
  lemma LockedAfterThird(g: AuthGuard, now: int)
    ensures g.failures >= 3 && g.lastFailure <= now < g.lastFailure + 5 * Second ==> g.Locked(now)
    ensures g.failures < 3 ==> !g.Locked(now)
  {
  }

  // ---------------------------------------------------------------------------------
  // Password entry
  // ---------------------------------------------------------------------------------

  /** Printable bytes go straight into the password buffer, up to 63 of them. */
  lemma {:induction false} PassScanPrintable(pass: seq<Byte>, cmd: seq<Byte>, tail: seq<Byte>)
    requires AllPrintable(cmd) && |pass| + |cmd| <= PassLimit
    ensures PassScan(pass, 0, cmd + tail)
            == if |pass| + |cmd| == PassLimit then Typing(pass + cmd, 0) else PassScan(pass + cmd, 0, tail)
    decreases |cmd|
  {
    if cmd == [] {
      assert cmd + tail == tail && pass + cmd == pass;
    } else {
      assert (cmd + tail)[1..] == cmd[1..] + tail;
      PassScanPrintable(pass + [cmd[0]], cmd[1..], tail);
      assert pass + [cmd[0]] + cmd[1..] == pass + cmd;
    }
  }

  /** A password typed in one read and ended with CR LF is what gets compared. */
  lemma PasswordLine(pw: seq<Byte>)
    requires AllPrintable(pw) && |pw| < PassLimit
    ensures EntrySpec([Received(pw + [13, 10])], [], 0) == Entered(pw)
  {
    PassScanPrintable([], pw, [13, 10]);
    assert [] + pw == pw;
  }

  /** A password may arrive over several reads; the parts are joined. */
  lemma PasswordAcrossReads(a: seq<Byte>, b: seq<Byte>)
    requires AllPrintable(a) && AllPrintable(b) && |a| + |b| < PassLimit
    ensures EntrySpec([Received(a), Received(b + [10])], [], 0) == Entered(a + b)
  {
    PassScanPrintable([], a, []);
    assert a + [] == a && [] + a == a;
    PassScanPrintable(a, b, [10]);
    assert [Received(a), Received(b + [10])][1..] == [Received(b + [10])];
  }

  /** Telnet negotiation in front of the password is skipped: IAC and the two bytes after
      it never reach the buffer. */
  lemma NegotiationSkipped(x: Byte, y: Byte, rest: seq<Byte>, later: seq<Incoming>)
    ensures EntrySpec([Received([Iac, x, y] + rest)] + later, [], 0)
            == EntrySpec([Received(rest)] + later, [], 0)
  {
    assert ([Iac, x, y] + rest)[1..] == [x, y] + rest;
    assert ([x, y] + rest)[1..] == [y] + rest;
    assert ([y] + rest)[1..] == rest;
    assert PassScan([], 0, [Iac, x, y] + rest) == PassScan([], 2, [x, y] + rest);
    assert PassScan([], 2, [x, y] + rest) == PassScan([], 1, [y] + rest);
    assert PassScan([], 1, [y] + rest) == PassScan([], 0, rest);
  }

  /** 63 printable bytes without a newline end the attempt as overlong, whatever follows. */
  lemma OverlongPassword(pw: seq<Byte>, tail: seq<Byte>, later: seq<Incoming>)
    requires AllPrintable(pw) && |pw| == PassLimit
    ensures EntrySpec([Received(pw + tail)] + later, [], 0) == Overlong
  {
    PassScanPrintable([], pw, tail);
    assert [] + pw == pw;
  }

  /** Reads that bring nothing keep the prompt waiting until the deadline. */
  lemma {:induction false} SilenceTimesOut(incoming: seq<Incoming>, pass: seq<Byte>, skip: int)
    requires |pass| < PassLimit
    requires forall i :: 0 <= i < |incoming| ==> incoming[i] == Received([])
    ensures EntrySpec(incoming, pass, skip) == TimedOut
    decreases |incoming|
  {
    if incoming != [] {
      assert incoming[0] == Received([]);
      SilenceTimesOut(incoming[1..], pass, skip);
    }
  }

  // ---------------------------------------------------------------------------------
  // parseDuration
  // ---------------------------------------------------------------------------------

  /** A digit string's value is never negative and never smaller than that of the string
      without its last digit. */
  lemma DecimalPrefix(ds: seq<Byte>)
    requires AllDigits(ds) && ds != []
    ensures 0 <= DecimalValue(ds[..|ds| - 1]) <= DecimalValue(ds)
  {
    DecimalNonnegative(ds[..|ds| - 1]);
  }

  lemma {:induction false} DecimalNonnegative(ds: seq<Byte>)
    requires AllDigits(ds)
    ensures DecimalValue(ds) >= 0
    decreases |ds|
  {
    if ds != [] {
      DecimalNonnegative(ds[..|ds| - 1]);
    }
  }

  /** While the value fits in 32 bits the wrapping digit loop computes it exactly. */
  lemma {:induction false} AccumulateExact(ds: seq<Byte>)
    requires AllDigits(ds) && DecimalValue(ds) < 0x8000_0000
    ensures AccumulateInt32(ds) == DecimalValue(ds)
    decreases |ds|
  {
    if ds != [] {
      DecimalPrefix(ds);
      AccumulateExact(ds[..|ds| - 1]);
    }
  }

  /** The digit run of digits followed by a non-digit is exactly the digits. */
  lemma {:induction false} DigitRunOf(ds: seq<Byte>, tail: seq<Byte>)
    requires AllDigits(ds) && (tail == [] || !IsDigit(tail[0]))
    ensures DigitRun(ds + tail) == |ds|
    decreases |ds|
  {
    if ds != [] {
      assert (ds + tail)[1..] == ds[1..] + tail;
      DigitRunOf(ds[1..], tail);
    }
  }

  /** Up to two million hours fit in a 64-bit count of nanoseconds. */
  lemma ProductFits(v: int, u: int)
    requires 0 <= v <= 2_000_000 && (u == Second || u == Minute || u == Hour)
    ensures IsInt64(v * u)
  {
    if u == Second {
      assert v * u <= 2_000_000 * Second;
    } else if u == Minute {
      assert v * u <= 2_000_000 * Minute;
    } else {
      assert v * u <= 2_000_000 * Hour;
    }
  }

  /** `parseDuration` on a nonempty input whose leading number is of reasonable size:
      that number in the unit the next byte selects. */
  lemma DurationIs(s: seq<Byte>, n: nat)
    requires s != [] && n == DigitRun(s) && DecimalValue(s[..n]) <= 2_000_000
    ensures DurationSpec(s) == DecimalValue(s[..n]) * UnitAt(s, n)
  {
    var ds := s[..n];
    DecimalNonnegative(ds);
    AccumulateExact(ds);
    ProductFits(DecimalValue(ds), UnitAt(s, n));
  }

  /** `parseDuration` on a number of reasonable size: seconds with no unit, for s/S or
      for an unknown unit; minutes for m/M; hours for h/H. Empty input gives 0. */
  lemma DurationUnits(ds: seq<Byte>, u: Byte, rest: seq<Byte>)
    requires AllDigits(ds) && DecimalValue(ds) <= 2_000_000 && !IsDigit(u)
    ensures DurationSpec([]) == 0
    ensures ds != [] ==> DurationSpec(ds) == DecimalValue(ds) * Second
    ensures (u == 109 || u == 77) ==> DurationSpec(ds + [u] + rest) == DecimalValue(ds) * Minute
    ensures (u == 104 || u == 72) ==> DurationSpec(ds + [u] + rest) == DecimalValue(ds) * Hour
    ensures !(u == 109 || u == 77 || u == 104 || u == 72)
            ==> DurationSpec(ds + [u] + rest) == DecimalValue(ds) * Second
  {
    if ds != [] {
      DigitRunOf(ds, []);
      assert ds + [] == ds && ds[..|ds|] == ds;
      DurationIs(ds, |ds|);
    }
    var s := ds + [u] + rest;
    assert s == ds + ([u] + rest);
    DigitRunOf(ds, [u] + rest);
    assert s[..|ds|] == ds;
    assert s[|ds|] == u;
    DurationIs(s, |ds|);
  }

  /** "ota-enable 5m" opens the window for five minutes; "ota-enable 0" leaves the
      timeout at 0, which means the 10-minute default. */
  lemma OtaEnableExamples()
    ensures DurationSpec([53, 109]) == 5 * Minute
    ensures DurationSpec([48]) == 0
  {
    assert [53 as Byte, 109][..1] == [53];
    assert DecimalValue([53]) == 5;
    assert DecimalValue([48]) == 0;
    DurationUnits([53], 109, []);
    DurationUnits([48], 32, []);
    assert [53 as Byte] + [109] + [] == [53, 109];
  }

  // ---------------------------------------------------------------------------------
  // Formatters
  // ---------------------------------------------------------------------------------

  /** The hex digits of n read back as n. */
  lemma {:induction false} HexDigitsRoundTrip(n: nat)
    ensures forall i :: 0 <= i < |HexDigitsOf(n)| ==> IsLowerHex(HexDigitsOf(n)[i])
    ensures HexStringValue(HexDigitsOf(n)) == n
  {
    if n > 0 {
      HexDigitsRoundTrip(n / 16);
      var s := HexDigitsOf(n);
      assert s[..|s| - 1] == HexDigitsOf(n / 16);
    }
  }

  /** `writeHex` prints lowercase hex with at least one digit and no leading zero (other
      than "0" itself), at most eight digits for a uint32, and it reads back as n. */
  lemma HexTextRoundTrip(n: nat)
    requires IsU32(n)
    ensures 1 <= |HexText(n)| <= 8
    ensures forall i :: 0 <= i < |HexText(n)| ==> IsLowerHex(HexText(n)[i])
    ensures HexText(n)[0] == 48 ==> n == 0
    ensures HexStringValue(HexText(n)) == n
  {
    if n == 0 {
      assert HexStringValue([48]) == HexStringValue([]) * 16 + 0;
    } else {
      HexDigitsRoundTrip(n);
      HexDigitsLead(n);
      assert Pow16(8) == 0x1_0000_0000;
      HexFixedPadded(n, 8);
    }
  }

  /** `writeInt2` on a two-digit value reads back as that value, and "07" is 7 padded. */
  lemma Int2Padded()
    ensures WriteInt2(7) == [48, 55]
    ensures WriteInt2(42) == [52, 50]
  {
  }

  /** The position of the first dot, or |s|. */
  function FirstDot(s: seq<Byte>): (k: nat)
    ensures k <= |s| && (k < |s| ==> s[k] == 46)
    ensures forall i :: 0 <= i < k ==> s[i] != 46
  {
    if s == [] || s[0] == 46 then 0 else 1 + FirstDot(s[1..])
  }

  /** The dot-separated fields of s. */
  function Fields(s: seq<Byte>): (r: seq<seq<Byte>>)
    decreases |s|
  {
    var k := FirstDot(s);
    if k == |s| then [s] else [s[..k]] + Fields(s[k + 1..])
  }

  predicate NoDot(x: seq<Byte>) { forall i :: 0 <= i < |x| ==> x[i] != 46 }

  lemma {:induction false} FirstDotAfter(x: seq<Byte>, y: seq<Byte>)
    requires NoDot(x)
    ensures FirstDot(x + y) == |x| + FirstDot(y)
    decreases |x|
  {
    if x != [] {
      assert (x + y)[1..] == x[1..] + y;
      FirstDotAfter(x[1..], y);
    } else {
      assert x + y == y;
    }
  }

  lemma FieldsCons(x: seq<Byte>, y: seq<Byte>)
    requires NoDot(x)
    ensures Fields(x + [46] + y) == [x] + Fields(y)
  {
    var s := x + [46] + y;
    assert s == x + ([46] + y);
    FirstDotAfter(x, [46] + y);
    assert s[..|x|] == x && s[|x| + 1..] == y;
  }

  lemma FieldsSingle(x: seq<Byte>)
    requires NoDot(x)
    ensures Fields(x) == [x]
  {
    FirstDotAfter(x, []);
    assert x + [] == x;
  }

  lemma DecimalNoDot(n: nat)
    ensures NoDot(Decimal(n))
  {
    DecimalRoundTrip(n);
  }

  /** Four dot-free fields joined by dots split back into those fields. */
  lemma FourFields(d0: seq<Byte>, d1: seq<Byte>, d2: seq<Byte>, d3: seq<Byte>)
    requires NoDot(d0) && NoDot(d1) && NoDot(d2) && NoDot(d3)
    ensures Fields(d0 + [46] + d1 + [46] + d2 + [46] + d3) == [d0, d1, d2, d3]
  {
    assert d0 + [46] + d1 + [46] + d2 + [46] + d3 == d0 + [46] + (d1 + [46] + (d2 + [46] + d3));
    var t2 := d2 + [46] + d3;
    var t1 := d1 + [46] + t2;
    FieldsSingle(d3);
    FieldsCons(d2, d3);
    assert Fields(t2) == [d2, d3];
    FieldsCons(d1, t2);
    assert Fields(t1) == [d1, d2, d3];
    FieldsCons(d0, t1);
  }

  /** `formatRemoteIP` round trip: the text splits at its dots into exactly four fields,
      and each field reads back as its address byte. */
  lemma DottedRoundTrip(addr: seq<Byte>)
    requires |addr| == 4
    ensures |Fields(Dotted(addr))| == 4
    ensures forall i :: 0 <= i < 4 ==> DecimalValue(Fields(Dotted(addr))[i]) == addr[i]
    ensures 7 <= |Dotted(addr)| <= 15
  {
    var d0, d1, d2, d3 := Decimal(addr[0]), Decimal(addr[1]), Decimal(addr[2]), Decimal(addr[3]);
    DecimalNoDot(addr[0]); DecimalNoDot(addr[1]); DecimalNoDot(addr[2]); DecimalNoDot(addr[3]);
    DecimalRoundTrip(addr[0]); DecimalRoundTrip(addr[1]); DecimalRoundTrip(addr[2]); DecimalRoundTrip(addr[3]);
    DecimalShort(addr[0]); DecimalShort(addr[1]); DecimalShort(addr[2]); DecimalShort(addr[3]);
    FourFields(d0, d1, d2, d3);
    assert Fields(Dotted(addr)) == [d0, d1, d2, d3];
  }
}
