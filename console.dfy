/** The Telnet debug console of console.go: the line editor of `handleConsoleSession`, the
    password prompt of `authenticateConsole` with its brute-force lockout, the `ota-enable`
    argument and the small number formatters. The connection is a sequence of reads; the
    commands themselves (`processCommand`) are what the editor hands on. */
module Console {
  import opened Common
  import opened OtaServer
  import Mqtt

  const ConsoleBufSize: nat := 1024
  /** The editor stores bytes while cmdLen < len(consoleBuf) - 1. */
  const LineLimit: nat := ConsoleBufSize - 1
  const PassBufSize: nat := 64
  const PassLimit: nat := PassBufSize - 1
  const Iac: Byte := 0xFF

  predicate IsPrintable(b: int) { 32 <= b < 127 }

  predicate IsNewline(b: int) { b == 10 || b == 13 }

  predicate AllPrintable(s: seq<Byte>) { forall i :: 0 <= i < |s| ==> IsPrintable(s[i]) }

  // ---------------------------------------------------------------------------------
  // Line assembly (handleConsoleSession)
  // ---------------------------------------------------------------------------------

  /** What one read makes the editor do, in order: run a command, send the "> " prompt,
      or report "Line too long". */
  datatype Event = Dispatch(cmd: seq<Byte>) | Prompt | LineTooLong

  /** The editor part-way through one read: the line so far, the IAC bytes still to skip,
      whether the last byte handled was a newline, and the events so far. */
  datatype Pass = Pass(line: seq<Byte>, skip: int, newline: bool, events: seq<Event>)

  /** One byte of the inner loop. An IAC byte skips itself and the next two bytes, whatever
      they are; the first CR or LF of a run ends the line, running it when it is nonempty
      and prompting again; a printable byte is stored; anything else is dropped. */
  function ByteStep(p: Pass, b: Byte): Pass
  {
    if p.skip > 0 then p.(skip := p.skip - 1)
    else if b == Iac then p.(skip := 2)
    else if IsNewline(b) then
      if p.newline then p
      else Pass([], 0, true, p.events + (if p.line != [] then [Dispatch(p.line)] else []) + [Prompt])
    else if IsPrintable(b) then p.(line := p.line + [b], newline := false)
    else p
  }

  /** The inner loop over the bytes of one read; it stops early once the line holds
      LineLimit bytes. */
  function Scan(p: Pass, data: seq<Byte>): Pass
    decreases |data|
  {
    if data == [] || |p.line| >= LineLimit then p
    else Scan(ByteStep(p, data[0]), data[1..])
  }

  /** One read from the connection: the inner loop, then the overflow check that discards
      a line that reached the limit. The newline flag starts afresh with every read. */
  function ReadSpec(line: seq<Byte>, skip: int, data: seq<Byte>): Pass
  {
    var p := Scan(Pass(line, skip, false, []), data);
    if |p.line| >= LineLimit then p.(line := [], events := p.events + [LineTooLong]) else p
  }

  /** The session's editing state: the global consoleBuf, and the locals cmdLen and
      skipIAC, which outlive each read. */
  class LineEditor {
    var buf: array<Byte>
    var cmdLen: int
    var skipIAC: int

    ghost predicate Valid()
      reads this, buf
    {
      buf.Length == ConsoleBufSize && 0 <= cmdLen < LineLimit && 0 <= skipIAC <= 2
      && AllPrintable(buf[..cmdLen])
    }

    ghost function Line(): seq<Byte>
      reads this, buf
      requires Valid()
    {
      buf[..cmdLen]
    }

    constructor ()
      ensures Valid() && Line() == [] && skipIAC == 0
    {
      buf := new Byte[ConsoleBufSize](_ => 0);
      cmdLen, skipIAC := 0, 0;
    }

    /** One byte of the inner loop, on the buffer. */
    method Feed(b: Byte, newline: bool) returns (newline': bool, events: seq<Event>)
      requires Valid() && cmdLen < LineLimit
      modifies this`cmdLen, this`skipIAC, buf
      ensures buf == old(buf) && buf.Length == ConsoleBufSize
      ensures 0 <= cmdLen <= LineLimit && buf[..cmdLen] == ByteStep(Pass(old(Line()), old(skipIAC), newline, []), b).line
      ensures var q := ByteStep(Pass(old(Line()), old(skipIAC), newline, []), b);
              skipIAC == q.skip && newline' == q.newline && events == q.events
    {
      newline', events := newline, [];
      if skipIAC > 0 {
        skipIAC := skipIAC - 1;
      } else if b == Iac {
        skipIAC := 2;
      } else if IsNewline(b) {
        if !newline {
          newline' := true;
          if cmdLen > 0 {
            events := [Dispatch(buf[..cmdLen])];
          }
          cmdLen := 0;
          events := events + [Prompt];
        }
      } else if IsPrintable(b) {
        buf[cmdLen] := b;
        cmdLen := cmdLen + 1;
        newline' := false;
      }
    }

    /** One read of `data`: the events it causes and the line and skip count it leaves. */
    method Read(data: seq<Byte>) returns (events: seq<Event>)
      requires Valid()
      modifies this`cmdLen, this`skipIAC, buf
      ensures Valid() && buf == old(buf)
      ensures var p := ReadSpec(old(Line()), old(skipIAC), data);
              events == p.events && Line() == p.line && skipIAC == p.skip
    {
      ghost var p0 := Pass(Line(), skipIAC, false, []);
      var newline := false;
      events := [];
      var i := 0;
      while i < |data| && cmdLen < LineLimit
        invariant 0 <= i <= |data|
        invariant buf == old(buf) && buf.Length == ConsoleBufSize
        invariant 0 <= cmdLen <= LineLimit && 0 <= skipIAC <= 2 && AllPrintable(buf[..cmdLen])
        invariant Scan(Pass(buf[..cmdLen], skipIAC, newline, events), data[i..]) == Scan(p0, data)
        decreases |data| - i
      {
        ghost var before := Pass(buf[..cmdLen], skipIAC, newline, events);
        var evs;
        newline, evs := Feed(data[i], newline);
        StepAppends(before, data[i]);
        events := events + evs;
        assert data[i..][1..] == data[i + 1..];
        i := i + 1;
      }
      if cmdLen >= LineLimit {
        cmdLen := 0;
        events := events + [LineTooLong];
      }
    }
  }

  /** ByteStep on a pass with earlier events appends to them, and keeps a printable line
      printable and within the limit. */
  lemma StepAppends(p: Pass, b: Byte)
    requires 0 <= p.skip <= 2 && AllPrintable(p.line) && |p.line| < LineLimit
    ensures var q := ByteStep(p, b);
            var r := ByteStep(p.(events := []), b);
            q == r.(events := p.events + r.events)
            && 0 <= q.skip <= 2 && AllPrintable(q.line) && |q.line| <= LineLimit
  {
  }

  // ---------------------------------------------------------------------------------
  // Brute-force lockout (getLockoutDuration, checkLockout, recordFailure, resetFailures)
  // ---------------------------------------------------------------------------------

  /** `getLockoutDuration` for a failure count: none below three failures, then 5 s,
      30 s and 5 minutes from three, five and ten failures on. */
  function LockoutFor(failures: int): (d: int)
    ensures 0 <= d <= 5 * Minute
    ensures d == 0 <==> failures < 3
  {
    if failures >= 10 then 5 * Minute
    else if failures >= 5 then 30 * Second
    else if failures >= 3 then 5 * Second
    else 0
  }

  /** The globals authFailures and lastFailureTime (a monotonic clock reading). */
  class AuthGuard {
    var failures: int
    var lastFailure: int

    constructor ()
      ensures failures == 0 && lastFailure == 0
    {
      failures, lastFailure := 0, 0;
    }

    /** `checkLockout` at time now: new connections are refused while the lockout for the
        current failure count has not yet run out since the last failure. */
    predicate Locked(now: int)
      reads this
    {
      var lockout := LockoutFor(failures);
      lockout != 0 && now - lastFailure < lockout
    }

    /** `recordFailure`. */
    method RecordFailure(now: int)
      modifies this
      ensures failures == old(failures) + 1 && lastFailure == now
    {
      failures := failures + 1;
      lastFailure := now;
    }

    /** `resetFailures`: the count goes back to zero; the time of the last failure stays. */
    method ResetFailures()
      modifies this
      ensures failures == 0 && lastFailure == old(lastFailure)
    {
      failures := 0;
    }

    /** `authenticateConsole` after the prompt: the password is read from `incoming` (the reads
        that happen before the 10-second deadline) and compared with `expected`. A correct
        password resets the failure count; a wrong one, an overlong one or running out of
        time records exactly one failure at `now`; a dropped connection records nothing. */
    method Authenticate(incoming: seq<Incoming>, expected: seq<Byte>, now: int) returns (ok: bool)
      modifies this
      ensures var e := EntrySpec(incoming, [], 0);
              (ok <==> e == Entered(expected))
              && (ok ==> failures == 0 && lastFailure == old(lastFailure))
              && (!ok && e != Disconnected ==> failures == old(failures) + 1 && lastFailure == now)
              && (e == Disconnected ==> failures == old(failures) && lastFailure == old(lastFailure))
    {
      var e := ReadPassword(incoming);
      if e.Entered? {
        var same := Mqtt.BytesEqual(e.pass, expected);
        if same {
          ResetFailures();
          return true;
        }
      }
      if !e.Disconnected? {
        RecordFailure(now);
      }
      return false;
    }
  }

  // ---------------------------------------------------------------------------------
  // Password entry (the read loop of authenticateConsole)
  // ---------------------------------------------------------------------------------

  /** One read of the connection: some bytes (possibly none), or the connection found
      closed (a closed or closing state, io.EOF or net.ErrClosed). */
  datatype Incoming = Received(data: seq<Byte>) | Closed

  /** The password buffer after the bytes of one read: still being typed (with the IAC
      bytes still to skip), or submitted by a CR or LF. */
  datatype Entry = Typing(pass: seq<Byte>, skip: int) | Submitted(pass: seq<Byte>)

  /** The inner loop over one read, which stops once 63 bytes are stored. The same IAC
      and printable rules as the line editor, but the first CR or LF submits. */
  function PassScan(pass: seq<Byte>, skip: int, data: seq<Byte>): Entry
    decreases |data|
  {
    if data == [] || |pass| >= PassLimit then Typing(pass, skip)
    else if skip > 0 then PassScan(pass, skip - 1, data[1..])
    else if data[0] == Iac then PassScan(pass, 2, data[1..])
    else if IsNewline(data[0]) then Submitted(pass)
    else if IsPrintable(data[0]) then PassScan(pass + [data[0]], skip, data[1..])
    else PassScan(pass, skip, data[1..])
  }

  /** How password entry ends. */
  datatype AuthEnd = Entered(pass: seq<Byte>) | Overlong | TimedOut | Disconnected

  /** The outer loop: read after read until a submission, a full buffer, a closed
      connection, or the deadline (no reads left). */
  function EntrySpec(incoming: seq<Incoming>, pass: seq<Byte>, skip: int): AuthEnd
    decreases |incoming|
  {
    if incoming == [] then TimedOut
    else if incoming[0].Closed? then Disconnected
    else
      match PassScan(pass, skip, incoming[0].data)
      case Submitted(p) => Entered(p)
      case Typing(p, k) => if |p| >= PassLimit then Overlong else EntrySpec(incoming[1..], p, k)
  }

  /** The inner loop on passBuf. */
  method TypePassword(passBuf: array<Byte>, passLen: int, skip: int, data: seq<Byte>)
    returns (passLen': int, skip': int, submitted: bool)
    requires passBuf.Length == PassBufSize && 0 <= passLen <= PassLimit
    modifies passBuf
    ensures 0 <= passLen' <= PassLimit
    ensures PassScan(old(passBuf[..passLen]), skip, data)
            == if submitted then Submitted(passBuf[..passLen']) else Typing(passBuf[..passLen'], skip')
  {
    passLen', skip', submitted := passLen, skip, false;
    var i := 0;
    while i < |data| && passLen' < PassLimit
      invariant 0 <= i <= |data| && 0 <= passLen' <= PassLimit
      invariant PassScan(passBuf[..passLen'], skip', data[i..]) == PassScan(old(passBuf[..passLen]), skip, data)
      decreases |data| - i
    {
      var b := data[i];
      assert data[i..][1..] == data[i + 1..];
      if skip' > 0 {
        skip' := skip' - 1;
      } else if b == Iac {
        skip' := 2;
      } else if IsNewline(b) {
        return passLen', skip', true;
      } else if IsPrintable(b) {
        passBuf[passLen'] := b;
        assert passBuf[..passLen' + 1] == passBuf[..passLen'] + [b];
        passLen' := passLen' + 1;
      }
      i := i + 1;
    }
  }

  /** The read loop of `authenticateConsole` up to the password check. */
  method ReadPassword(incoming: seq<Incoming>) returns (e: AuthEnd)
    ensures e == EntrySpec(incoming, [], 0)
  {
    var passBuf := new Byte[PassBufSize](_ => 0);
    var passLen, skip := 0, 0;
    var j := 0;
    while j < |incoming|
      invariant 0 <= j <= |incoming| && 0 <= passLen < PassLimit
      invariant EntrySpec(incoming[j..], passBuf[..passLen], skip) == EntrySpec(incoming, [], 0)
      decreases |incoming| - j
    {
      if incoming[j].Closed? {
        return Disconnected;
      }
      var submitted;
      passLen, skip, submitted := TypePassword(passBuf, passLen, skip, incoming[j].data);
      if submitted {
        return Entered(passBuf[..passLen]);
      }
      if passLen >= PassLimit {
        return Overlong;
      }
      assert incoming[j..][1..] == incoming[j + 1..];
      j := j + 1;
    }
    return TimedOut;
  }

  // ---------------------------------------------------------------------------------
  // parseDuration, hasPrefix and the ota-enable argument
  // ---------------------------------------------------------------------------------

  /** The length of the leading run of decimal digits. */
  function DigitRun(s: seq<Byte>): (n: nat)
    ensures n <= |s| && AllDigits(s[..n])
    ensures n < |s| ==> !IsDigit(s[n])
  {
    if s == [] || !IsDigit(s[0]) then 0
    else
      var n := 1 + DigitRun(s[1..]);
      assert s[..n] == [s[0]] + s[1..][..n - 1];
      n
  }

  /** The number the loop `num = num*10 + int(s[i]-'0')` builds in 32-bit arithmetic. */
  function AccumulateInt32(ds: seq<Byte>): int
  {
    if ds == [] then 0 else WrapInt32(AccumulateInt32(ds[..|ds| - 1]) * 10 + (ds[|ds| - 1] as int - 48))
  }

  /** The unit the byte after the digits selects: minutes for m/M, hours for h/H, and
      seconds for s/S, for any other byte, and when the digits run to the end. */
  function UnitAt(s: seq<Byte>, i: nat): (u: int)
    ensures u == Second || u == Minute || u == Hour
  {
    if i >= |s| then Second
    else if s[i] == 109 || s[i] == 77 then Minute
    else if s[i] == 104 || s[i] == 72 then Hour
    else Second
  }

  /** `parseDuration`, in nanoseconds. */
  function DurationSpec(s: seq<Byte>): int
  {
    if s == [] then 0
    else
      var n := DigitRun(s);
      WrapInt64(AccumulateInt32(s[..n]) * UnitAt(s, n))
  }

  /** `parseDuration`: the digit loop and the unit switch. */
  method ParseDuration(s: seq<Byte>) returns (d: int)
    ensures d == DurationSpec(s)
  {
    if |s| == 0 {
      return 0;
    }
    var num := 0;
    var i := 0;
    while i < |s| && IsDigit(s[i])
      invariant 0 <= i <= DigitRun(s)
      invariant num == AccumulateInt32(s[..i])
      decreases |s| - i
    {
      num := WrapInt32(num * 10 + (s[i] as int - 48));
      assert s[..i + 1][..i] == s[..i];
      i := i + 1;
    }
    if i >= |s| {
      return WrapInt64(num * Second);
    }
    var b := s[i];
    if b == 115 || b == 83 {
      d := WrapInt64(num * Second);
    } else if b == 109 || b == 77 {
      d := WrapInt64(num * Minute);
    } else if b == 104 || b == 72 {
      d := WrapInt64(num * Hour);
    } else {
      d := WrapInt64(num * Second);
    }
  }

  /** `hasPrefix`. */
  method HasPrefix(cmd: seq<Byte>, prefix: seq<Byte>) returns (r: bool)
    ensures r <==> |prefix| <= |cmd| && cmd[..|prefix|] == prefix
  {
    if |cmd| < |prefix| {
      return false;
    }
    for i := 0 to |prefix|
      invariant cmd[..i] == prefix[..i]
    {
      if cmd[i] != prefix[i] {
        return false;
      }
      assert cmd[..i + 1] == cmd[..i] + [cmd[i]];
      assert prefix[..i + 1] == prefix[..i] + [prefix[i]];
    }
    assert prefix[..|prefix|] == prefix;
    return true;
  }

  /** "ota-enable" */
  const OtaEnableWord: seq<Byte> := [111, 116, 97, 45, 101, 110, 97, 98, 108, 101]

  /** The `ota-enable` case of `processCommand`: the command is the bare word or the word
      and a space; the timeout stays 0 (the default) unless the argument after the space
      parses to a positive duration. */
  method OtaEnableTimeout(cmd: seq<Byte>) returns (matched: bool, timeout: int)
    ensures matched <==> cmd == OtaEnableWord || (|cmd| >= 11 && cmd[..11] == OtaEnableWord + [32])
    ensures timeout >= 0
    ensures |cmd| > 11 && DurationSpec(cmd[11..]) > 0 ==> timeout == DurationSpec(cmd[11..])
    ensures !(|cmd| > 11 && DurationSpec(cmd[11..]) > 0) ==> timeout == 0
  {
    var bare := Mqtt.BytesEqual(cmd, OtaEnableWord);
    var spaced := HasPrefix(cmd, OtaEnableWord + [32]);
    matched := bare || spaced;
    timeout := 0;
    if |cmd| > |OtaEnableWord| + 1 {
      var parsed := ParseDuration(cmd[|OtaEnableWord| + 1..]);
      if parsed > 0 {
        timeout := parsed;
      }
    }
  }

  /** Running `ota-enable`: the OTA window opens at now, for the parsed duration when the
      argument gives a positive one and for the 10-minute default otherwise. */
  method OtaEnableCommand(window: AccessWindow, cmd: seq<Byte>, now: int) returns (matched: bool)
    modifies window
    ensures matched <==> cmd == OtaEnableWord || (|cmd| >= 11 && cmd[..11] == OtaEnableWord + [32])
    ensures matched ==> window.enabled && window.enabledAt == now
    ensures matched && |cmd| > 11 && DurationSpec(cmd[11..]) > 0 ==> window.timeout == DurationSpec(cmd[11..])
    ensures matched && !(|cmd| > 11 && DurationSpec(cmd[11..]) > 0) ==> window.timeout == OtaDefaultTimeout
    ensures !matched ==> window.enabled == old(window.enabled) && window.enabledAt == old(window.enabledAt)
                         && window.timeout == old(window.timeout)
  {
    var timeout;
    matched, timeout := OtaEnableTimeout(cmd);
    if matched {
      window.Enable(timeout, now);
    }
  }

  // ---------------------------------------------------------------------------------
  // Number formatters (writeInt2, writeHex, writeIntToBuf, formatRemoteIP)
  // ---------------------------------------------------------------------------------

  /** `writeInt2`: two bytes, the byte conversions truncating as Go's do. Values 0..99
      come out as two decimal digits, zero-padded. */
  function WriteInt2(n: int): (r: seq<Byte>)
    ensures |r| == 2
    ensures 0 <= n < 100 ==> AllDigits(r) && DecimalValue(r) == n
  {
    if n < 10 then
      var r := [48, (48 + n) % 256];
      assert 0 <= n ==> r[1] == 48 + n;
      assert DecimalValue(r[..1]) == 0 by {
        assert r[..1][..0] == [];
      }
      assert r[..|r| - 1] == r[..1];
      r
    else
      var r := [(48 + n / 10) % 256, (48 + n % 10) % 256];
      assert 0 <= n < 100 ==> r[0] == 48 + n / 10 && r[1] == 48 + n % 10;
      assert 0 <= n < 100 ==> DecimalValue(r[..1]) == n / 10 by {
        assert r[..1][..0] == [];
      }
      assert r[..|r| - 1] == r[..1];
      r
  }

  /** The hex digits of n, most significant first, with no leading zero; empty for 0. */
  function HexDigitsOf(n: nat): seq<Byte>
  {
    if n == 0 then [] else HexDigitsOf(n / 16) + [HexDigit(n % 16)]
  }

  /** "0" repeated k times. */
  function ZeroDigits(k: nat): (r: seq<Byte>)
    ensures |r| == k && forall i :: 0 <= i < k ==> r[i] == 48
  {
    if k == 0 then [] else ZeroDigits(k - 1) + [48]
  }

  /** The fixed-width rendering is the digits padded with zeros on the left. */
  lemma {:induction false} HexFixedPadded(n: nat, k: nat)
    requires n < Pow16(k)
    ensures |HexDigitsOf(n)| <= k
    ensures HexFixed(n, k) == ZeroDigits(k - |HexDigitsOf(n)|) + HexDigitsOf(n)
  {
    if k > 0 {
      HexFixedPadded(n / 16, k - 1);
      if n == 0 {
        assert HexFixed(0, k) == HexFixed(0, k - 1) + [HexDigit(0)];
      } else {
        AppendAssoc(ZeroDigits(k - |HexDigitsOf(n)|), HexDigitsOf(n / 16), [HexDigit(n % 16)]);
      }
    }
  }

  /** HexDigitsOf of a positive value starts with a nonzero digit. */
  lemma {:induction false} HexDigitsLead(n: nat)
    requires n > 0
    ensures |HexDigitsOf(n)| > 0 && HexDigitsOf(n)[0] != 48
  {
    if n / 16 > 0 {
      HexDigitsLead(n / 16);
    } else {
      assert HexDigitsOf(n) == [HexDigit(n)];
    }
  }

  /** `writeHex`'s text: the hex digits without leading zeros, "0" for zero. */
  function HexText(n: nat): seq<Byte>
  {
    if n == 0 then [48] else HexDigitsOf(n)
  }

  /** `writeHex`: eight digits filled from the right, then the leading zeros skipped,
      keeping at least one digit. */
  method WriteHex(n: int) returns (out: seq<Byte>)
    requires IsU32(n)
    ensures out == HexText(n)
  {
    var buf := new Byte[8];
    var m := n;
    var i := 8;
    while i > 0
      invariant 0 <= i <= 8 && m >= 0
      invariant HexFixed(m, i) + buf[i..] == HexFixed(n, 8)
      decreases i
    {
      i := i - 1;
      buf[i] := HexDigit(m % 16);
      assert buf[i..] == [buf[i]] + buf[i + 1..];
      m := m / 16;
    }
    assert buf[..] == HexFixed(n, 8) by {
      assert buf[0..] == buf[..];
    }
    assert n < Pow16(8) by {
      assert Pow16(8) == 0x1_0000_0000;
    }
    HexFixedPadded(n, 8);
    var pad := if n == 0 then 7 else 8 - |HexDigitsOf(n)|;
    if n > 0 {
      HexDigitsLead(n);
    }
    var start := 0;
    while start < 7 && buf[start] == 48
      invariant 0 <= start <= pad
      decreases 7 - start
    {
      start := start + 1;
    }
    out := buf[start..];
    if n == 0 {
      assert HexDigitsOf(0) == [];
    } else {
      assert buf[pad] == HexDigitsOf(n)[0];
      assert buf[pad..] == HexDigitsOf(n);
    }
  }

  /** The digits `writeIntToBuf` produces: at most the three lowest decimal digits,
      "0" for zero and nothing for a negative value. */
  function LowDigits(n: int, k: nat): (r: seq<Byte>)
    ensures |r| <= k
  {
    if n <= 0 || k == 0 then [] else LowDigits(n / 10, k - 1) + [48 + n % 10]
  }

  function IntField(n: int): (r: seq<Byte>)
    ensures 1 <= |r| <= 3 || (n < 0 && r == [])
  {
    if n == 0 then [48] else LowDigits(n, 3)
  }

  /** The digit loop of `writeIntToBuf`: up to three digits filled from the right. */
  method LowField(n: int) returns (field: seq<Byte>)
    ensures field == IntField(n)
  {
    if n == 0 {
      return [48];
    }
    var digits := new Byte[3];
    var i := 3;
    var m := n;
    while m > 0 && i > 0
      invariant 0 <= i <= 3
      invariant LowDigits(m, i) + digits[i..] == LowDigits(n, 3)
      decreases i
    {
      i := i - 1;
      digits[i] := 48 + m % 10;
      assert digits[i..] == [digits[i]] + digits[i + 1..];
      m := m / 10;
    }
    field := digits[i..];
  }

  /** `writeIntToBuf(buf[pos:], n)`: the field, copied as far as it fits; the count
      returned is the field's length whether or not it all fitted. */
  method WriteIntToBuf(buf: array<Byte>, pos: int, n: int) returns (count: int)
    requires 0 <= pos <= buf.Length && (n == 0 ==> pos < buf.Length)
    modifies buf
    ensures count == |IntField(n)|
    ensures var c := Min(count, buf.Length - pos);
            buf[..] == old(buf[..pos]) + IntField(n)[..c] + old(buf[pos + c..])
  {
    var field := LowField(n);
    count := |field|;
    CopyInto(buf, pos, field[..Min(count, buf.Length - pos)]);
  }

  /** The dotted-decimal text of a four-byte address. */
  function Dotted(addr: seq<Byte>): seq<Byte>
    requires |addr| == 4
  {
    Decimal(addr[0]) + [46] + Decimal(addr[1]) + [46] + Decimal(addr[2]) + [46] + Decimal(addr[3])
  }

  /** The first k fields of the dotted text. */
  function DottedPrefix(addr: seq<Byte>, k: nat): seq<Byte>
    requires k <= |addr|
  {
    if k == 0 then [] else if k == 1 then Decimal(addr[0])
    else DottedPrefix(addr, k - 1) + [46] + Decimal(addr[k - 1])
  }

  /** "unknown" */
  const Unknown: seq<Byte> := [117, 110, 107, 110, 111, 119, 110]

  /** `formatRemoteIP`: a four-byte address as dotted decimal in a 15-byte buffer, any
      other length as "unknown". */
  method FormatRemoteIP(addr: seq<Byte>) returns (s: seq<Byte>)
    ensures |addr| == 4 ==> s == Dotted(addr)
    ensures |addr| != 4 ==> s == Unknown
  {
    if |addr| != 4 {
      return Unknown;
    }
    var buf := new Byte[15];
    var pos := 0;
    for i := 0 to 4
      invariant 0 <= pos <= 4 * i - (if i > 0 then 1 else 0)
      invariant buf[..pos] == DottedPrefix(addr, i)
    {
      pos := PutField(buf, pos, addr, i);
    }
    s := buf[..pos];
    DottedComplete(addr);
  }

  lemma DottedComplete(addr: seq<Byte>)
    requires |addr| == 4
    ensures DottedPrefix(addr, 4) == Dotted(addr)
  {
    assert DottedPrefix(addr, 2) == Decimal(addr[0]) + [46] + Decimal(addr[1]);
    assert DottedPrefix(addr, 3) == DottedPrefix(addr, 2) + [46] + Decimal(addr[2]);
  }

  /** One pass of the loop of `formatRemoteIP`: a dot before every field but the first,
      then the field. */
  method PutField(buf: array<Byte>, pos: int, addr: seq<Byte>, i: nat) returns (pos': int)
    requires buf.Length == 15 && |addr| == 4 && i < 4
    requires 0 <= pos <= 4 * i - (if i > 0 then 1 else 0) && buf[..pos] == DottedPrefix(addr, i)
    modifies buf
    ensures pos <= pos' <= 4 * i + 3 && buf[..pos'] == DottedPrefix(addr, i + 1)
  {
    pos' := pos;
    if i > 0 {
      buf[pos'] := 46;
      assert buf[..pos' + 1] == buf[..pos'] + [46];
      pos' := pos' + 1;
    }
    DecimalShort(addr[i]);
    ghost var before := buf[..pos'];
    var count := WriteIntToBuf(buf, pos', addr[i]);
    assert buf[..pos'] == before;
    assert buf[pos'..pos' + count] == Decimal(addr[i]);
    assert buf[..pos' + count] == buf[..pos'] + buf[pos'..pos' + count];
    pos' := pos' + count;
  }

  /** A byte's field is its decimal rendering, at most three digits. */
  lemma DecimalShort(n: Byte)
    ensures IntField(n) == Decimal(n) && |Decimal(n)| <= 3
  {
    if n > 0 {
      LowDigitsAreDigits(n, 3);
      assert Pow10(3) == 1000;
      DigitsLength(n, 3);
    }
  }

  /** Three low digits of a value below 1000 are its digits. */
  lemma {:induction false} LowDigitsAreDigits(n: nat, k: nat)
    requires n < Pow10(k)
    ensures LowDigits(n, k) == Digits(n)
  {
    if n > 0 {
      LowDigitsAreDigits(n / 10, k - 1);
    }
  }
}
