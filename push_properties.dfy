/** The host tool and the device's OTA receive loop together: the frames and the DONE line
    that `otaPush` writes are what `handleOTASession` accepts, and the device reboots
    exactly when the digest it computes over the firmware matches the one the host sent. */
module PushProperties {
  import opened Common
  import opened Partitions
  import opened OtaServer
  import opened OtaServerProperties
  import opened Cli
  import opened CliProperties

  /** The chunk writes as the device reads them: the length prefix is the frame header. */
  function ToMessages(writes: seq<ChunkWrite>): (r: seq<Message>)
    ensures |r| == |writes|
    ensures forall i :: 0 <= i < |r| ==> r[i] == Frame(writes[i].lenBuf, writes[i].chunk)
  {
    if writes == [] then [] else [Frame(writes[0].lenBuf, writes[0].chunk)] + ToMessages(writes[1..])
  }

  /** What the device reads while the host pushes fw and then the DONE line for hash. */
  function PushMessages(fw: seq<Byte>, hash: seq<Byte>): seq<Message>
  {
    var line := DoneLine(hash);
    ToMessages(Frames(fw)) + [Frame(line[..4], line[4..])]
  }

  /** Pushed at running total `total`, every frame is one the device accepts, and the bytes
      it keeps are the firmware. */
  lemma {:induction false} FramesAccepted(fw: seq<Byte>, total: int)
    requires 0 <= total && total + |fw| <= OtaMaxFwSize
    ensures AllAcceptable(total, ToMessages(Frames(fw)))
    ensures ChunkData(ToMessages(Frames(fw))) == fw
    decreases |fw|
  {
    if fw != [] {
      var n := Min(|fw|, ChunkSize);
      FramesAccepted(fw[n..], total + n);
      LE32RoundTrip(n);
      var ms := ToMessages(Frames(fw));
      var m := Frame(EncodeLE32(n), fw[..n]);
      assert ms == [m] + ToMessages(Frames(fw[n..]));
      assert EncodeLE32(n)[2] == 0;
      assert IsChunk(m);
      assert ChunkBytes(m) == fw[..n];
      assert ms[1..] == ToMessages(Frames(fw[n..]));
      assert fw[..n] + fw[n..] == fw;
    }
  }

  /** The frames of an acceptable run are all chunks. */
  lemma {:induction false} AcceptableAreChunks(total: int, ms: seq<Message>, i: nat)
    requires AllAcceptable(total, ms) && i < |ms|
    ensures IsChunk(ms[i])
    decreases |ms|
  {
    if i > 0 {
      AcceptableAreChunks(total + ChunkLen(ms[0]), ms[1..], i - 1);
    }
  }

  /** The receive loop accepts at least a leading run of acceptable frames. */
  lemma {:induction false} AcceptablePrefix(p: Progress, ms: seq<Message>, tail: seq<Message>, base: int,
                                            target: int, sha: seq<Byte> -> seq<Byte>)
    requires ValidProgress(p) && AllAcceptable(p.total, ms)
    ensures Run(p, ms + tail, base, target, sha).accepted >= |ms|
    decreases |ms|
  {
    if ms != [] {
      StepFacts(p, ms[0], base, target, sha);
      var q := Step(p, ms[0], base, target, sha).next;
      assert (ms + tail)[0] == ms[0] && (ms + tail)[1..] == ms[1..] + tail;
      AcceptablePrefix(q, ms[1..], tail, base, target, sha);
    }
  }

  /** The device's reading of " <hex>\n" after the DONE header is the hex text. */
  lemma DoneRestRead(hex: seq<Byte>)
    requires |hex| <= DoneRestCapacity - 2
    requires forall k :: 0 <= k < |hex| ==> IsLowerHex(hex[k])
    ensures ExpectedHash([32] + hex + [10]) == hex
  {
    var rest := [32] + hex + [10];
    assert rest[..Min(|rest|, DoneRestCapacity)] == rest;
    var line := DoneHeader + rest;
    var s := hex + [10];
    assert line[5..] == s;
    if hex == [] {
      assert s == [10];
      return;
    }
    assert s[0] == hex[0];
    assert LeadingTrim(s) == 0;
    assert s[..|s| - 1] == hex;
    assert IsLowerHex(hex[|hex| - 1]);
    assert TrailingTrim(s) == 1;
    assert s[0..] == s;
  }

  lemma DoneLineSplit(hex: seq<Byte>)
    ensures (DonePrefix + hex + [10])[..4] == DoneHeader
    ensures (DonePrefix + hex + [10])[4..] == [32] + hex + [10]
  {
  }

  /** The DONE line starts with the DONE header, and the device's trimmed reading of the
      rest is the hex digest. */
  lemma DoneLineRead(hash: seq<Byte>)
    requires |hash| <= 61
    ensures DoneLine(hash)[..4] == DoneHeader
    ensures ExpectedHash(DoneLine(hash)[4..]) == HexBytes(hash)
  {
    var hex := HexBytes(hash);
    DoneLineSplit(hex);
    HexBytesRoundTrip(hash);
    DoneRestRead(hex);
  }

  /** A nonempty DONE digest is accepted exactly when it is the digest of the bytes. */
  lemma DigestAccepted(hash: seq<Byte>, digest: seq<Byte>)
    requires hash != []
    ensures HashAccepted(HexBytes(hash), digest) <==> hash == digest
  {
    if HexBytes(hash) == FormatHashHex(digest) {
      HexBytesInjective(hash, digest);
    }
  }

  /** The receive loop accepts every chunk of a push and stops at the DONE line, whose
      verdict is the digest comparison. */
  lemma PushStopsAtDone(init: Option<seq<Byte>>, fw: seq<Byte>, hash: seq<Byte>, target: int,
                        sha: seq<Byte> -> seq<Byte>)
    requires InitAccepted(init) && |fw| <= OtaMaxFwSize && 1 <= |hash| <= 61
    ensures var s := SessionSpec(init, PushMessages(fw, hash), target, sha);
            s.accepted == |Frames(fw)| && s.received == fw
            && s.replies == [Ready(OtaMaxFwSize)] + AckReplies(0, ToMessages(Frames(fw))) + StopReplies(s.outcome)
            && s.outcome == (if sha(fw) == hash then Reboot(target) else HashMismatch)
  {
    var chunks := ToMessages(Frames(fw));
    var line := DoneLine(hash);
    var done := Frame(line[..4], line[4..]);
    var msgs := chunks + [done];
    FramesAccepted(fw, 0);
    SessionShape(init, msgs, target, sha);
    var s := SessionSpec(init, msgs, target, sha);
    var p0 := Progress(0, NoSectorsErased(), []);
    AcceptablePrefix(p0, chunks, [done], PartitionOffset(target), target, sha);
    DoneLineRead(hash);
    if s.accepted == |msgs| {
      RunAccepts(p0, msgs, PartitionOffset(target), target, sha);
      assert msgs[..s.accepted] == msgs;
      AcceptableAreChunks(0, msgs, |chunks|);
      assert false;
    }
    assert msgs[..s.accepted] == chunks;
    assert msgs[s.accepted] == done;
    DigestAccepted(hash, sha(fw));
  }

  /** A whole push of fw with digest hash to a device that accepted the initiation: every
      chunk is acknowledged with the running total, the device keeps exactly fw, and it
      answers VERIFIED and reboots into the target exactly when the SHA-256 it computes
      over fw equals hash, answering "ERROR hash mismatch" otherwise. */
  lemma PushSession(init: Option<seq<Byte>>, fw: seq<Byte>, hash: seq<Byte>, target: int,
                    sha: seq<Byte> -> seq<Byte>)
    requires InitAccepted(init) && |fw| <= OtaMaxFwSize && 1 <= |hash| <= 61
    ensures var s := SessionSpec(init, PushMessages(fw, hash), target, sha);
            s.accepted == |Frames(fw)| && s.received == fw
            && s.replies == [Ready(OtaMaxFwSize)] + AckReplies(0, ToMessages(Frames(fw)))
                            + (if sha(fw) == hash then [Verified] else [ErrHashMismatch])
            && (s.outcome == Reboot(target) <==> sha(fw) == hash)
            && (sha(fw) != hash ==> s.outcome == HashMismatch)
  {
    PushStopsAtDone(init, fw, hash, target, sha);
  }
}
