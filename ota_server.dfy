/** The firmware-update receiver of ota_server.go: the access window that opens the OTA port
    for a limited time, and the session state machine that takes "OTA", length-prefixed
    chunks and a "DONE <sha256>" line, erases flash sectors on demand, programs the chunks
    into the inactive partition, verifies the digest and reboots into the new image.
    The connection is an abstract sequence of frames, SHA-256 is a function parameter, and
    the flash and boot ROM are the injected objects of module Partitions. */
module OtaServer {
  import opened Common
  import opened Partitions
  import Telemetry
  import TelemetryFlush
  import Bindicator

  const OtaBufSize: int := 4096 + 64
  const OtaMaxFwSize: int := 1984 * 1024
  const OtaDefaultTimeout: int := 10 * Minute

  /** Length of the per-session erasedSectors table (2 MiB worth of sectors). */
  const TrackedSectors: int := 512

  /** Room in the 128-byte read buffer after the 4 header bytes. */
  const DoneRestCapacity: int := 124

  // ---------------------------------------------------------------------------------
  // Text helpers
  // ---------------------------------------------------------------------------------

  /** `formatHex`: "0x" followed by exactly eight lowercase hex digits of a uint32. */
  function FormatHex(n: int): (r: seq<Byte>)
    requires IsU32(n)
    ensures |r| == 10 && r[..2] == [48, 120]
    ensures forall i :: 2 <= i < 10 ==> IsLowerHex(r[i])
    ensures HexStringValue(r[2..]) == n
  {
    HexFixedRoundTrip(n, 8);
    assert Pow16(8) == U32;
    var r := [48, 120] + HexFixed(n, 8);
    assert r[2..] == HexFixed(n, 8);
    r
  }

  /** `formatHashHex`: two lowercase hex digits per digest byte, and nothing is lost. */
  function FormatHashHex(hash: seq<Byte>): (r: seq<Byte>)
    ensures |r| == 2 * |hash|
    ensures forall i :: 0 <= i < |r| ==> IsLowerHex(r[i])
    ensures UnhexBytes(r) == hash
  {
    HexBytesRoundTrip(hash);
    HexBytes(hash)
  }

  /** The only bytes `trimSpace` strips: space, newline and carriage return (not tab). */
  predicate IsTrimByte(b: Byte) { b == 32 || b == 10 || b == 13 }

  function LeadingTrim(s: seq<Byte>): (n: nat)
    ensures n <= |s|
    ensures forall k :: 0 <= k < n ==> IsTrimByte(s[k])
    ensures n < |s| ==> !IsTrimByte(s[n])
  {
    if s == [] || !IsTrimByte(s[0]) then 0 else 1 + LeadingTrim(s[1..])
  }

  function TrailingTrim(s: seq<Byte>): (n: nat)
    ensures n <= |s|
    ensures forall k :: |s| - n <= k < |s| ==> IsTrimByte(s[k])
    ensures n < |s| ==> !IsTrimByte(s[|s| - 1 - n])
  {
    if s == [] || !IsTrimByte(s[|s| - 1]) then 0 else 1 + TrailingTrim(s[..|s| - 1])
  }

  /** `trimSpace`: the middle of s left after dropping space, newline and carriage-return
      bytes from both ends; whatever is dropped is one of those, and what is kept neither
      starts nor ends with one. */
  function TrimSpace(s: seq<Byte>): (r: seq<Byte>)
    ensures r == [] || (!IsTrimByte(r[0]) && !IsTrimByte(r[|r| - 1]))
    ensures var a := LeadingTrim(s);
              a + |r| <= |s| && s[a..a + |r|] == r
              && (forall k :: 0 <= k < a ==> IsTrimByte(s[k]))
              && (forall k :: a + |r| <= k < |s| ==> IsTrimByte(s[k]))
  {
    var a := LeadingTrim(s);
    var rest := s[a..];
    var b := TrailingTrim(rest);
    var r := rest[..|rest| - b];
    assert s[a..a + |r|] == r;
    assert forall k :: a + |r| <= k < |s| ==> s[k] == rest[k - a];
    r
  }

  /** Trimming twice is trimming once. */
  lemma TrimSpaceIdempotent(s: seq<Byte>)
    ensures TrimSpace(TrimSpace(s)) == TrimSpace(s)
  {
    var t := TrimSpace(s);
    assert LeadingTrim(t) == 0;
    assert TrailingTrim(t[LeadingTrim(t)..]) == 0;
    assert t[0..][..|t| - 0] == t;
  }

  /** `truncate`: s itself when it fits in maxLen, else its first maxLen bytes and "...". */
  function Truncate(s: seq<Byte>, maxLen: nat): (r: seq<Byte>)
    ensures |s| <= maxLen ==> r == s
    ensures |s| > maxLen ==> |r| == maxLen + 3 && r[..maxLen] == s[..maxLen] && r[maxLen..] == [46, 46, 46]
  {
    if |s| <= maxLen then s else s[..maxLen] + [46, 46, 46]
  }

  // ---------------------------------------------------------------------------------
  // Access window: OTAEnable / OTADisable / OTAIsEnabled / OTATimeRemaining
  // ---------------------------------------------------------------------------------

  /** The guarded globals otaEnabled, otaEnabledAt and otaTimeout; the mutex makes every
      method atomic, and `now` is the monotonic clock reading at the call. */
  class AccessWindow {
    var enabled: bool
    var enabledAt: int
    var timeout: int

    constructor ()
      ensures !enabled && enabledAt == 0 && timeout == 0
    {
      enabled, enabledAt, timeout := false, 0, 0;
    }

    /** The window is open at `now`: enabled and no more than `timeout` has elapsed. */
    predicate Open(now: int)
      reads this
    {
      enabled && now - enabledAt <= timeout
    }

    /** `OTAEnable`: a zero timeout means the 10-minute default; any other value, a
        negative one included, is taken as given. */
    method Enable(t: int, now: int)
      modifies this
      ensures enabled && enabledAt == now
      ensures timeout == (if t == 0 then OtaDefaultTimeout else t)
    {
      var d := t;
      if d == 0 {
        d := OtaDefaultTimeout;
      }
      enabled, enabledAt, timeout := true, now, d;
    }

    /** `OTADisable`. */
    method Disable()
      modifies this
      ensures !enabled && enabledAt == old(enabledAt) && timeout == old(timeout)
    {
      enabled := false;
    }

    /** `OTAIsEnabled`: reports whether the window is open, and closes it for good once
        the elapsed time exceeds the timeout. */
    method IsEnabled(now: int) returns (r: bool)
      modifies this
      ensures r <==> old(Open(now))
      ensures enabled == r
      ensures enabledAt == old(enabledAt) && timeout == old(timeout)
    {
      if !enabled {
        return false;
      }
      if now - enabledAt > timeout {
        enabled := false;
        return false;
      }
      return true;
    }

    /** `OTATimeRemaining`: never negative, zero when disabled, and otherwise the time
        left before the window closes. */
    function TimeRemaining(now: int): (r: int)
      reads this
      ensures r >= 0
      ensures !enabled ==> r == 0
      ensures enabled && now - enabledAt <= timeout ==> r == timeout - (now - enabledAt)
      ensures enabled && now - enabledAt > timeout ==> r == 0
    {
      if !enabled then 0
      else
        var remaining := timeout - (now - enabledAt);
        if remaining < 0 then 0 else remaining
    }
  }

  /** Time remaining and openness agree: a positive remainder means the window is open,
      and an open window reports the exact remainder, zero only at the very deadline. */
  lemma RemainingMatchesOpen(w: AccessWindow, now: int)
    ensures w.TimeRemaining(now) > 0 ==> w.Open(now)
    ensures w.Open(now) ==> w.TimeRemaining(now) == w.timeout - (now - w.enabledAt)
  {
  }

  // ---------------------------------------------------------------------------------
  // The session protocol
  // ---------------------------------------------------------------------------------

  type Header = h: seq<Byte> | |h| == 4 witness [0, 0, 0, 0]

  /** One unit the session reads after READY: a 4-byte header and what followed it.
      When the header is "DONE", `body` is what the single follow-up read returned (the
      rest of the DONE line, possibly cut short). Otherwise the header is a little-endian
      chunk length and `body` is the data the peer delivered for it; fewer bytes than the
      length means that read timed out or the peer closed. The end of the sequence is a
      header read that failed. */
  datatype Message = Frame(header: Header, body: seq<Byte>)

  /** "DONE" */
  const DoneHeader: Header := [68, 79, 78, 69]

  /** "OTA" */
  const InitMagic: seq<Byte> := [79, 84, 65]

  datatype Reply =
    | Ready(maxSize: nat)
    | Ack(total: nat)
    | Verified
    | ErrChunkTooLarge
    | ErrFirmwareTooLarge
    | ErrHashMismatch

  /** The bytes each reply puts on the wire. */
  function ReplyText(r: Reply): seq<Byte>
  {
    match r
    case Ready(n) => Ascii("READY ") + Decimal(n) + [10]
    case Ack(n) => Ascii("ACK ") + Decimal(n) + [10]
    case Verified => Ascii("VERIFIED\n")
    case ErrChunkTooLarge => Ascii("ERROR chunk too large\n")
    case ErrFirmwareTooLarge => Ascii("ERROR firmware too large\n")
    case ErrHashMismatch => Ascii("ERROR hash mismatch\n")
  }

  function Wire(rs: seq<Reply>): seq<Byte>
  {
    if rs == [] then [] else Wire(rs[..|rs| - 1]) + ReplyText(rs[|rs| - 1])
  }

  /** How a session ends. Reboot means the digest was accepted and a reboot into the
      partition was requested. */
  datatype Outcome =
    | NoInit
    | BadInit
    | ConnectionLost
    | ChunkTooLarge
    | FirmwareTooLarge
    | HashMismatch
    | Reboot(partition: int)

  /** The session's running state: bytes received so far, the erasedSectors table and
      every accepted data byte in order (what the hasher has consumed). */
  datatype Progress = Progress(total: int, erased: seq<bool>, received: seq<Byte>)

  predicate ValidProgress(p: Progress)
  {
    |p.erased| == TrackedSectors && 0 <= p.total <= OtaMaxFwSize && |p.received| == p.total
  }

  /** The erasedSectors table at the start of a session: nothing erased. */
  function NoSectorsErased(): (r: seq<bool>)
    ensures |r| == TrackedSectors && forall k :: 0 <= k < TrackedSectors ==> !r[k]
  {
    seq(TrackedSectors, _ => false)
  }

  datatype Erasure = Erasure(ops: seq<FlashOp>, erased: seq<bool>)

  /** The erase loop for sectors s..hi: each tracked sector not yet erased is erased at
      partition base + sector * 4096 and marked; untracked sectors (>= 512) are skipped. */
  function EraseSectors(erased: seq<bool>, s: int, hi: int, base: int): (r: Erasure)
    requires |erased| == TrackedSectors && s >= 0
    ensures |r.erased| == TrackedSectors
    decreases hi + 1 - s
  {
    if s > hi then Erasure([], erased)
    else if s < TrackedSectors && !erased[s] then
      var rest := EraseSectors(erased[s := true], s + 1, hi, base);
      Erasure([Erase(base + s * SectorSize, SectorSize)] + rest.ops, rest.erased)
    else EraseSectors(erased, s + 1, hi, base)
  }

  /** The first and last sector the code erases for a chunk, in uint32 arithmetic:
      for an empty chunk at total 0 the last sector index wraps to 0xFFFFFFFF / 4096. */
  function FirstSector(total: int): int requires total >= 0 { total / SectorSize }

  function LastSector(total: int, len: int): int
    requires total >= 0 && len >= 0
  {
    ((total + len - 1) % U32) / SectorSize
  }

  /** The hash text of a DONE line: the line is "DONE" plus at most 124 further bytes;
      byte 5 onwards, trimmed, when the line is longer than 5 bytes, otherwise empty. */
  function ExpectedHash(rest: seq<Byte>): seq<Byte>
  {
    var line := DoneHeader + rest[..Min(|rest|, DoneRestCapacity)];
    if |line| > 5 then TrimSpace(line[5..]) else []
  }

  /** The digest check: an empty expectation passes, otherwise an exact match with the
      lowercase hex of the digest is required. */
  predicate HashAccepted(expected: seq<Byte>, digest: seq<Byte>)
  {
    expected == [] || expected == FormatHashHex(digest)
  }

  datatype StepResult =
    | Continue(next: Progress, replies: seq<Reply>, ops: seq<FlashOp>)
    | Stop(outcome: Outcome, replies: seq<Reply>)

  /** One iteration of the receive loop. */
  function Step(p: Progress, m: Message, base: int, target: int, sha: seq<Byte> -> seq<Byte>): (r: StepResult)
    requires ValidProgress(p)
    ensures r.Continue? ==> ValidProgress(r.next) && r.next.total >= p.total
  {
    if m.header == DoneHeader then
      if HashAccepted(ExpectedHash(m.body), sha(p.received)) then Stop(Reboot(target), [Verified])
      else Stop(HashMismatch, [ErrHashMismatch])
    else
      var len := LE32(m.header);
      if len > OtaBufSize then Stop(ChunkTooLarge, [ErrChunkTooLarge])
      else if p.total + len > OtaMaxFwSize then Stop(FirmwareTooLarge, [ErrFirmwareTooLarge])
      else if |m.body| < len then Stop(ConnectionLost, [])
      else
        var data := m.body[..len];
        var er := EraseSectors(p.erased, FirstSector(p.total), LastSector(p.total, len), base);
        var write := if len > 0 then [Program(base + p.total, data)] else [];
        Continue(Progress(p.total + len, er.erased, p.received + data), [Ack(p.total + len)], er.ops + write)
  }

  /** What a session produces: the replies sent, the flash operations issued, how it ended,
      the final total, every accepted byte, how many frames it read and how many of those
      were chunks it accepted. */
  datatype Session = Session(replies: seq<Reply>, ops: seq<FlashOp>, outcome: Outcome,
                             total: int, received: seq<Byte>, consumed: nat, accepted: nat)

  /** The receive loop from state p over the frames still to come. */
  function Run(p: Progress, msgs: seq<Message>, base: int, target: int, sha: seq<Byte> -> seq<Byte>): (r: Session)
    requires ValidProgress(p)
    ensures r.accepted <= r.consumed <= |msgs|
    ensures p.total <= r.total <= OtaMaxFwSize && |r.received| == r.total
    ensures r.outcome.Reboot? ==> r.outcome.partition == target
    decreases |msgs|
  {
    if msgs == [] then Session([], [], ConnectionLost, p.total, p.received, 0, 0)
    else
      match Step(p, msgs[0], base, target, sha)
      case Stop(o, rs) => Session(rs, [], o, p.total, p.received, 1, 0)
      case Continue(q, rs, ops) =>
        var rest := Run(q, msgs[1..], base, target, sha);
        Session(rs + rest.replies, ops + rest.ops, rest.outcome, rest.total, rest.received,
                rest.consumed + 1, rest.accepted + 1)
  }

  /** The initiation read delivered at least three bytes and they spell "OTA". */
  predicate InitAccepted(init: Option<seq<Byte>>)
  {
    init.Some? && |init.value| >= 3 && init.value[..3] == InitMagic
  }

  /** The whole session: the initiation read (None when it failed), then the frames. */
  function SessionSpec(init: Option<seq<Byte>>, msgs: seq<Message>, target: int, sha: seq<Byte> -> seq<Byte>): (r: Session)
    ensures r.accepted <= r.consumed <= |msgs|
    ensures 0 <= r.total <= OtaMaxFwSize && |r.received| == r.total
    ensures r.replies != [] <==> InitAccepted(init)
    ensures r.replies != [] ==> r.replies[0] == Ready(2031616)
    ensures !InitAccepted(init) ==> r.ops == [] && (r.outcome == NoInit || r.outcome == BadInit)
  {
    if init.None? || |init.value| < 3 then Session([], [], NoInit, 0, [], 0, 0)
    else if init.value[..3] != InitMagic then Session([], [], BadInit, 0, [], 0, 0)
    else
      var run := Run(Progress(0, NoSectorsErased(), []), msgs, PartitionOffset(target), target, sha);
      Session([Ready(OtaMaxFwSize)] + run.replies, run.ops, run.outcome, run.total, run.received,
              run.consumed, run.accepted)
  }

  /** Run in the shape of the receive loop: frames from index i on, with the replies and
      operations produced so far carried along. */
  function RunFrom(p: Progress, msgs: seq<Message>, i: nat, base: int, target: int, sha: seq<Byte> -> seq<Byte>,
                   replies: seq<Reply>, ops: seq<FlashOp>): Session
    requires ValidProgress(p) && i <= |msgs|
    decreases |msgs| - i
  {
    if i == |msgs| then Session(replies, ops, ConnectionLost, p.total, p.received, i, i)
    else
      match Step(p, msgs[i], base, target, sha)
      case Stop(o, rs) => Session(replies + rs, ops, o, p.total, p.received, i + 1, i)
      case Continue(q, rs, os) => RunFrom(q, msgs, i + 1, base, target, sha, replies + rs, ops + os)
  }

  /** RunFrom, unfolded once at frame i. */
  lemma RunFromUnfold(p: Progress, msgs: seq<Message>, i: nat, base: int, target: int, sha: seq<Byte> -> seq<Byte>,
                      replies: seq<Reply>, ops: seq<FlashOp>)
    requires ValidProgress(p) && i < |msgs|
    ensures var st := Step(p, msgs[i], base, target, sha);
            RunFrom(p, msgs, i, base, target, sha, replies, ops)
            == if st.Stop? then Session(replies + st.replies, ops, st.outcome, p.total, p.received, i + 1, i)
               else RunFrom(st.next, msgs, i + 1, base, target, sha, replies + st.replies, ops + st.ops)
  {
  }

  lemma {:induction false} RunFromIsRun(p: Progress, msgs: seq<Message>, i: nat, base: int, target: int,
                                        sha: seq<Byte> -> seq<Byte>, replies: seq<Reply>, ops: seq<FlashOp>)
    requires ValidProgress(p) && i <= |msgs|
    ensures var r := Run(p, msgs[i..], base, target, sha);
            RunFrom(p, msgs, i, base, target, sha, replies, ops)
            == Session(replies + r.replies, ops + r.ops, r.outcome, r.total, r.received, i + r.consumed, i + r.accepted)
    decreases |msgs| - i
  {
    if i < |msgs| {
      assert msgs[i..][0] == msgs[i] && msgs[i..][1..] == msgs[i + 1..];
      match Step(p, msgs[i], base, target, sha)
      case Stop(o, rs) =>
      case Continue(q, rs, os) =>
        RunFromIsRun(q, msgs, i + 1, base, target, sha, replies + rs, ops + os);
        var r := Run(q, msgs[i + 1..], base, target, sha);
        AppendAssoc(replies, rs, r.replies);
        AppendAssoc(ops, os, r.ops);
    } else {
      assert msgs[i..] == [];
      assert replies + [] == replies && ops + [] == ops;
    }
  }

  lemma WireAppend(rs: seq<Reply>, x: Reply)
    ensures Wire(rs + [x]) == Wire(rs) + ReplyText(x)
  {
    assert (rs + [x])[..|rs|] == rs;
  }

  /** The on-demand erase loop of `handleOTASession`: walks sectors startSector..endSector,
      erasing (at the partition base plus sector * 4096) and marking each tracked sector
      not yet marked, as EraseSectors describes. */
  method EraseChunkSectors(flash: Flash, erasedSectors: array<bool>, startSector: int, endSector: int, base: int)
    requires erasedSectors.Length == TrackedSectors && 0 <= startSector <= endSector + 1
    modifies flash, erasedSectors
    ensures flash.romAvailable == old(flash.romAvailable)
    ensures var er := EraseSectors(old(erasedSectors[..]), startSector, endSector, base);
            erasedSectors[..] == er.erased
            && flash.ops == old(flash.ops) + (if flash.romAvailable then er.ops else [])
  {
    ghost var e0 := erasedSectors[..];
    ghost var eraseOps: seq<FlashOp> := [];
    var sector := startSector;
    while sector <= endSector
      invariant startSector <= sector <= endSector + 1
      invariant flash.romAvailable == old(flash.romAvailable)
      invariant flash.ops == old(flash.ops) + (if flash.romAvailable then eraseOps else [])
      invariant var er := EraseSectors(erasedSectors[..], sector, endSector, base);
                EraseSectors(e0, startSector, endSector, base) == Erasure(eraseOps + er.ops, er.erased)
      decreases endSector + 1 - sector
    {
      if sector < TrackedSectors && !erasedSectors[sector] {
        flash.EraseSector(base + sector * SectorSize);
        eraseOps := eraseOps + [Erase(base + sector * SectorSize, SectorSize)];
        erasedSectors[sector] := true;
      }
      sector := sector + 1;
    }
  }

  /** Writing one reply: `writeOTA` of the fixed text, with `writeOTAInt` for numbers. */
  method Render(r: Reply) returns (text: seq<Byte>)
    requires r.Ready? ==> IsInt32(r.maxSize)
    requires r.Ack? ==> IsInt32(r.total)
    ensures text == ReplyText(r)
  {
    match r
    case Ready(n) =>
      var digits := FormatInt(n);
      text := Ascii("READY ") + digits + [10];
    case Ack(n) =>
      var digits := FormatInt(n);
      text := Ascii("ACK ") + digits + [10];
    case Verified => text := Ascii("VERIFIED\n");
    case ErrChunkTooLarge => text := Ascii("ERROR chunk too large\n");
    case ErrFirmwareTooLarge => text := Ascii("ERROR firmware too large\n");
    case ErrHashMismatch => text := Ascii("ERROR hash mismatch\n");
  }

  /** An accepted chunk: erase what it needs, program it at the partition base plus the
      bytes received so far, and advance the total and the hashed bytes. */
  method AcceptChunk(flash: Flash, erasedSectors: array<bool>, total: int, received: seq<Byte>,
                     data: seq<Byte>, base: int)
    returns (newTotal: int, newReceived: seq<Byte>)
    requires ValidProgress(Progress(total, erasedSectors[..], received))
    requires total + |data| <= OtaMaxFwSize
    modifies flash, erasedSectors
    ensures flash.romAvailable == old(flash.romAvailable)
    ensures newTotal == total + |data| && newReceived == received + data
    ensures var er := EraseSectors(old(erasedSectors[..]), FirstSector(total), LastSector(total, |data|), base);
            erasedSectors[..] == er.erased
            && flash.ops == old(flash.ops)
               + (if flash.romAvailable then er.ops + (if |data| > 0 then [Program(base + total, data)] else []) else [])
  {
    var startSector := total / SectorSize;
    var endSector := ((total + |data| - 1) % U32) / SectorSize;
    EraseChunkSectors(flash, erasedSectors, startSector, endSector, base);
    flash.WriteChunk(base + total, data);
    newTotal := total + |data|;
    newReceived := received + data;
  }

  /** One pass of the receive loop for one frame, proved against Step: a DONE line is
      checked against the digest of everything received; a length header is checked
      against the chunk buffer (4160 bytes) and against the size limit before any data is
      read; an accepted chunk is erased for, programmed and acknowledged. */
  method ReceiveFrame(m: Message, sha: seq<Byte> -> seq<Byte>, flash: Flash, erasedSectors: array<bool>,
                      total: int, received: seq<Byte>, base: int, target: int)
    returns (stop: bool, outcome: Outcome, replies: seq<Reply>, newTotal: int, newReceived: seq<Byte>)
    requires ValidProgress(Progress(total, erasedSectors[..], received))
    modifies flash, erasedSectors
    ensures flash.romAvailable == old(flash.romAvailable)
    ensures var st := Step(Progress(total, old(erasedSectors[..]), received), m, base, target, sha);
            stop == st.Stop? && replies == st.replies
            && (stop ==> outcome == st.outcome && flash.ops == old(flash.ops) && newTotal == total
                         && newReceived == received && erasedSectors[..] == old(erasedSectors[..]))
            && (!stop ==> st.next == Progress(newTotal, erasedSectors[..], newReceived)
                          && flash.ops == old(flash.ops) + (if flash.romAvailable then st.ops else []))
  {
    newTotal, newReceived := total, received;
    if m.header == DoneHeader {
      var expected := ExpectedHash(m.body);
      var digest := FormatHashHex(sha(received));
      if expected != [] && expected != digest {
        return true, HashMismatch, [ErrHashMismatch], total, received;
      }
      return true, Reboot(target), [Verified], total, received;
    }
    var chunkLen := LE32(m.header);
    if chunkLen > OtaBufSize {
      return true, ChunkTooLarge, [ErrChunkTooLarge], total, received;
    }
    if total + chunkLen > OtaMaxFwSize {
      return true, FirmwareTooLarge, [ErrFirmwareTooLarge], total, received;
    }
    if |m.body| < chunkLen {
      return true, ConnectionLost, [], total, received;
    }
    var data := m.body[..chunkLen];
    newTotal, newReceived := AcceptChunk(flash, erasedSectors, total, received, data, base);
    stop, outcome, replies := false, ConnectionLost, [Ack(newTotal)];
  }

  /** Sending the replies of one loop pass: each is rendered and appended to the wire. */
  method Emit(replies: seq<Reply>, sent: seq<Byte>, rs: seq<Reply>) returns (replies': seq<Reply>, sent': seq<Byte>)
    requires sent == Wire(replies) && |rs| <= 1
    requires forall k :: 0 <= k < |rs| ==> (rs[k].Ready? ==> IsInt32(rs[k].maxSize)) && (rs[k].Ack? ==> IsInt32(rs[k].total))
    ensures replies' == replies + rs && sent' == Wire(replies')
  {
    if rs == [] {
      return replies, sent;
    }
    var text := Render(rs[0]);
    WireAppend(replies, rs[0]);
    assert rs == [rs[0]];
    replies', sent' := replies + rs, sent + text;
  }

  /** One pass of the receive loop together with sending its replies, stated in the
      accumulator form RunFrom: either the session stops here with everything RunFrom
      promised, or RunFrom from the next frame still promises the same. */
  method ReceivePass(msgs: seq<Message>, i: nat, next: nat, sha: seq<Byte> -> seq<Byte>, flash: Flash,
                     erasedSectors: array<bool>, total: int, received: seq<Byte>, base: int, target: int,
                     replies: seq<Reply>, sent: seq<Byte>, ghost ops0: seq<FlashOp>, ghost issued: seq<FlashOp>,
                     ghost whole: Session)
    returns (stop: bool, outcome: Outcome, newTotal: int, newReceived: seq<Byte>,
             replies': seq<Reply>, sent': seq<Byte>, ghost issued': seq<FlashOp>)
    requires i < |msgs| && next == i + 1 && ValidProgress(Progress(total, erasedSectors[..], received))
    requires sent == Wire(replies)
    requires flash.ops == ops0 + (if flash.romAvailable then issued else [])
    requires RunFrom(Progress(total, erasedSectors[..], received), msgs, i, base, target, sha, replies, issued) == whole
    modifies flash, erasedSectors
    ensures flash.romAvailable == old(flash.romAvailable)
    ensures ValidProgress(Progress(newTotal, erasedSectors[..], newReceived))
    ensures flash.ops == ops0 + (if flash.romAvailable then issued' else [])
    ensures sent' == Wire(replies')
    ensures stop ==> whole.replies == replies' && whole.ops == issued' && whole.outcome == outcome
    ensures !stop ==> RunFrom(Progress(newTotal, erasedSectors[..], newReceived), msgs, next, base, target, sha,
                              replies', issued') == whole
  {
    ghost var st := Step(Progress(total, erasedSectors[..], received), msgs[i], base, target, sha);
    RunFromUnfold(Progress(total, erasedSectors[..], received), msgs, i, base, target, sha, replies, issued);
    var rs;
    stop, outcome, rs, newTotal, newReceived := ReceiveFrame(msgs[i], sha, flash, erasedSectors, total, received, base, target);
    replies', sent' := Emit(replies, sent, rs);
    if stop {
      issued' := issued;
    } else {
      if flash.romAvailable {
        AppendAssoc(ops0, issued, st.ops);
      }
      issued' := issued + st.ops;
    }
  }

  /** The receive loop of `handleOTASession` from an empty erasedSectors table, after
      READY: proved against Run, appending to the replies and wire bytes sent so far. */
  method ReceiveLoop(msgs: seq<Message>, sha: seq<Byte> -> seq<Byte>, flash: Flash,
                     target: int, replies0: seq<Reply>, sent0: seq<Byte>)
    returns (replies: seq<Reply>, sent: seq<Byte>, outcome: Outcome)
    requires sent0 == Wire(replies0)
    modifies flash
    ensures var r := Run(Progress(0, NoSectorsErased(), []), msgs, PartitionOffset(target), target, sha);
            replies == replies0 + r.replies && outcome == r.outcome
            && flash.ops == old(flash.ops) + (if flash.romAvailable then r.ops else [])
    ensures sent == Wire(replies)
    ensures flash.romAvailable == old(flash.romAvailable)
  {
    replies, sent := replies0, sent0;
    var base := PartitionOffset(target);
    var erasedSectors := new bool[TrackedSectors](i => false);
    assert erasedSectors[..] == NoSectorsErased();
    var total := 0;
    var received: seq<Byte> := [];
    ghost var issued: seq<FlashOp> := [];
    ghost var p0 := Progress(0, NoSectorsErased(), []);
    ghost var whole := RunFrom(p0, msgs, 0, base, target, sha, replies0, []);
    ghost var r := Run(p0, msgs, base, target, sha);
    RunFromIsRun(p0, msgs, 0, base, target, sha, replies0, []);
    assert msgs[0..] == msgs && [] + r.ops == r.ops;
    assert whole.replies == replies0 + r.replies && whole.ops == r.ops && whole.outcome == r.outcome;
    var i := 0;
    while i < |msgs|
      invariant 0 <= i <= |msgs|
      invariant flash.romAvailable == old(flash.romAvailable)
      invariant ValidProgress(Progress(total, erasedSectors[..], received))
      invariant flash.ops == old(flash.ops) + (if flash.romAvailable then issued else [])
      invariant sent == Wire(replies)
      invariant RunFrom(Progress(total, erasedSectors[..], received), msgs, i, base, target, sha, replies, issued) == whole
    {
      var stop, o;
      var next := i + 1;
      stop, o, total, received, replies, sent, issued :=
        ReceivePass(msgs, i, next, sha, flash, erasedSectors, total, received, base, target, replies, sent,
                    old(flash.ops), issued, whole);
      if stop {
        return replies, sent, o;
      }
      i := next;
    }
    outcome := ConnectionLost;
  }

  /** The part of `handleOTASession` between the pause and the reboot: no reply at all unless
      the initiation read delivered at least three bytes starting with "OTA"; then READY with
      the size limit, and the receive loop into the partition the boot ROM does not report
      as running. */
  method Receive(init: Option<seq<Byte>>, msgs: seq<Message>, sha: seq<Byte> -> seq<Byte>,
                 flash: Flash, rom: BootRom)
    returns (replies: seq<Reply>, sent: seq<Byte>, outcome: Outcome)
    requires ValidSysInfo(rom.sysInfo)
    modifies flash
    ensures var s := SessionSpec(init, msgs, RomTargetPartition(rom), sha);
            replies == s.replies && outcome == s.outcome
            && flash.ops == old(flash.ops) + (if flash.romAvailable then s.ops else [])
    ensures sent == Wire(replies)
    ensures flash.romAvailable == old(flash.romAvailable)
  {
    if init.None? || |init.value| < 3 {
      return [], [], NoInit;
    }
    if init.value[..3] != InitMagic {
      return [], [], BadInit;
    }
    var readyText := Render(Ready(OtaMaxFwSize));
    WireAppend([], Ready(OtaMaxFwSize));
    var target := RomTargetPartition(rom);
    replies, sent, outcome := ReceiveLoop(msgs, sha, flash, target, [Ready(OtaMaxFwSize)], readyText);
  }

  /** The deferred function of `handleOTASession`: the bindicator and telemetry resume and
      every telemetry queue is flushed. */
  method ResumeBackgroundTasks(t: Telemetry.Telemetry, ind: Bindicator.Indicator,
                               version: seq<Byte>, gitSha: seq<Byte>, delivered: bool)
    requires t.Valid()
    modifies ind`paused, t`paused
    modifies t`logHead, t`logCount, t`metricHead, t`metricCount, t`spanCount
    modifies t`sentLogs, t`sentMetrics, t`sentSpans, t`sendErrors, t.body, t.spanQueue
    ensures t.Valid() && !t.paused && !ind.paused
    ensures t.enabled ==> t.logCount == 0 && t.metricCount == 0 && t.spanCount == 0
  {
    ind.SetBindicatorPaused(false);
    t.Resume();
    var _, _, _ := TelemetryFlush.Flush(t, version, gitSha, delivered);
  }

  /** The reboot step of `handleOTASession`: telemetry is resumed and flushed, then the boot
      ROM is asked to reboot into the partition; reset tells whether the device went down. */
  method FlushAndReboot(t: Telemetry.Telemetry, rom: BootRom, ota: Ota, partition: int,
                        version: seq<Byte>, gitSha: seq<Byte>, delivered: bool)
    returns (reset: bool)
    requires t.Valid()
    modifies rom, ota, t`paused
    modifies t`logHead, t`logCount, t`metricHead, t`metricCount, t`spanCount
    modifies t`sentLogs, t`sentMetrics, t`sentSpans, t`sendErrors, t.body, t.spanQueue
    ensures t.Valid() && !t.paused
    ensures t.enabled ==> t.logCount == 0 && t.metricCount == 0 && t.spanCount == 0
    ensures rom.sysInfo == old(rom.sysInfo) && rom.rebootFn == old(rom.rebootFn)
    ensures rom.explicitBuyFn == old(rom.explicitBuyFn)
    ensures rom.rebootCalls == old(rom.rebootCalls)
                               + (if rom.rebootFn.Some? then [RebootArgs(partition)] else [])
    ensures ota.wifiShutdownRegistered == old(ota.wifiShutdownRegistered)
    ensures ota.lastRebootResult == (if rom.rebootFn.Some? then rom.rebootFn.value else -1)
    ensures reset <==> ota.lastRebootResult == 0
  {
    t.Resume();
    var _, _, _ := TelemetryFlush.Flush(t, version, gitSha, delivered);
    var returned := ota.RebootToPartition(rom, partition);
    if returned {
      var errCode := ota.RebootResult();
    }
    reset := !returned;
  }

  /** `handleOTASession`: telemetry and the bindicator are paused for the session; the
      session itself is `Receive`; on a Reboot outcome telemetry is resumed and flushed and
      the device reboots into the target partition; every return runs the deferred resume
      and flush. */
  method HandleSession(init: Option<seq<Byte>>, msgs: seq<Message>, sha: seq<Byte> -> seq<Byte>,
                       flash: Flash, rom: BootRom, ota: Ota, t: Telemetry.Telemetry,
                       ind: Bindicator.Indicator, version: seq<Byte>, gitSha: seq<Byte>, delivered: bool)
    returns (replies: seq<Reply>, sent: seq<Byte>, outcome: Outcome)
    requires ValidSysInfo(rom.sysInfo)
    requires t.Valid()
    modifies flash, rom, ota, ind`paused, t`paused
    modifies t`logHead, t`logCount, t`metricHead, t`metricCount, t`spanCount
    modifies t`sentLogs, t`sentMetrics, t`sentSpans, t`sendErrors, t.body, t.spanQueue
    ensures rom.sysInfo == old(rom.sysInfo) && rom.rebootFn == old(rom.rebootFn)
    ensures rom.explicitBuyFn == old(rom.explicitBuyFn)
    ensures var s := SessionSpec(init, msgs, RomTargetPartition(rom), sha);
            replies == s.replies && outcome == s.outcome
            && flash.ops == old(flash.ops) + (if flash.romAvailable then s.ops else [])
    ensures sent == Wire(replies)
    ensures flash.romAvailable == old(flash.romAvailable)
    ensures rom.rebootCalls == old(rom.rebootCalls)
            + (if outcome.Reboot? && rom.rebootFn.Some? then [RebootArgs(outcome.partition)] else [])
    ensures ota.wifiShutdownRegistered == old(ota.wifiShutdownRegistered)
    ensures !outcome.Reboot? ==> ota.lastRebootResult == old(ota.lastRebootResult)
                                 && ota.wifiShutdownCalls == old(ota.wifiShutdownCalls)
    ensures outcome.Reboot? ==> ota.lastRebootResult == (if rom.rebootFn.Some? then rom.rebootFn.value else -1)
    // background work is paused for the session and resumed afterwards; only a reboot that
    // reset the device leaves the bindicator paused
    ensures t.Valid() && !t.paused
    ensures ind.paused <==> outcome.Reboot? && ota.lastRebootResult == 0
    // telemetry recorded before or during the session has been flushed
    ensures t.enabled ==> t.logCount == 0 && t.metricCount == 0 && t.spanCount == 0
  {
    t.Pause();
    ind.SetBindicatorPaused(true);
    var reset := false;
    replies, sent, outcome := Receive(init, msgs, sha, flash, rom);
    if outcome.Reboot? {
      reset := FlushAndReboot(t, rom, ota, outcome.partition, version, gitSha, delivered);
    }
    // the deferred resume runs on every return; a successful reboot never returns
    if !reset {
      ResumeBackgroundTasks(t, ind, version, gitSha, delivered);
    }
  }

  /** One round of `otaServerLoop`: a connection is served only while the access window is
      open (the wait loops and the TCP handshake are not modelled), and whatever the session's
      outcome, the window is closed after it. */
  method ServeOnce(window: AccessWindow, now: int, init: Option<seq<Byte>>, msgs: seq<Message>,
                   sha: seq<Byte> -> seq<Byte>, flash: Flash, rom: BootRom, ota: Ota,
                   t: Telemetry.Telemetry, ind: Bindicator.Indicator,
                   version: seq<Byte>, gitSha: seq<Byte>, delivered: bool)
    returns (served: bool, replies: seq<Reply>, sent: seq<Byte>, outcome: Outcome)
    requires ValidSysInfo(rom.sysInfo)
    requires t.Valid()
    modifies window, flash, rom, ota, ind`paused, t`paused
    modifies t`logHead, t`logCount, t`metricHead, t`metricCount, t`spanCount
    modifies t`sentLogs, t`sentMetrics, t`sentSpans, t`sendErrors, t.body, t.spanQueue
    ensures served <==> old(window.Open(now))
    ensures rom.sysInfo == old(rom.sysInfo)
    ensures !window.enabled
    ensures window.enabledAt == old(window.enabledAt) && window.timeout == old(window.timeout)
    ensures t.Valid()
    ensures !served ==> replies == [] && sent == [] && flash.ops == old(flash.ops) && rom.rebootCalls == old(rom.rebootCalls)
    ensures !served ==> ind.paused == old(ind.paused) && t.paused == old(t.paused)
                        && t.logCount == old(t.logCount) && t.metricCount == old(t.metricCount)
                        && t.spanCount == old(t.spanCount)
    ensures served ==> var s := SessionSpec(init, msgs, RomTargetPartition(rom), sha);
                       replies == s.replies && outcome == s.outcome && sent == Wire(replies)
                       && flash.ops == old(flash.ops) + (if flash.romAvailable then s.ops else [])
    ensures served ==> !t.paused && (ind.paused <==> outcome.Reboot? && ota.lastRebootResult == 0)
                       && (t.enabled ==> t.logCount == 0 && t.metricCount == 0 && t.spanCount == 0)
  {
    served := window.IsEnabled(now);
    if !served {
      return false, [], [], ConnectionLost;
    }
    replies, sent, outcome := HandleSession(init, msgs, sha, flash, rom, ota, t, ind, version, gitSha, delivered);
    window.Disable();
  }
}
