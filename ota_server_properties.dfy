/** What the OTA session of ota_server.go guarantees, proved about OtaServer.SessionSpec:
    the handshake, the size bounds, where each chunk lands in flash, which sectors are
    erased and when, and the digest verdict. */
module OtaServerProperties {
  import opened Common
  import opened Partitions
  import opened OtaServer

  /** The sector of the partition at `base` that holds flash offset `offset`. */
  function SectorIndex(offset: int, base: int): int
  {
    (offset - base) / SectorSize
  }

  /** The erase of one whole tracked sector of the partition at `base`. */
  function SectorErase(sector: int, base: int): FlashOp
  {
    Erase(base + sector * SectorSize, SectorSize)
  }

  predicate IsTrackedSectorErase(op: FlashOp, base: int)
  {
    op.Erase? && 0 <= SectorIndex(op.offset, base) < TrackedSectors
    && op == SectorErase(SectorIndex(op.offset, base), base)
  }

  /** No sector is erased twice. */
  predicate EraseOnce(ops: seq<FlashOp>)
  {
    forall j, k :: 0 <= j < k < |ops| && ops[j].Erase? && ops[k].Erase? ==> ops[j].offset != ops[k].offset
  }

  lemma SectorEraseIndex(sector: int, base: int)
    ensures SectorIndex(SectorErase(sector, base).offset, base) == sector
  {
  }

  /** The erase loop for sectors lo..hi issues only erases of tracked sectors in that
      range that were not yet marked. */
  lemma {:induction false} EraseSectorsOps(e: seq<bool>, lo: int, hi: int, base: int)
    requires |e| == TrackedSectors && lo >= 0
    ensures forall k :: 0 <= k < |EraseSectors(e, lo, hi, base).ops| ==>
              IsTrackedSectorErase(EraseSectors(e, lo, hi, base).ops[k], base)
              && lo <= SectorIndex(EraseSectors(e, lo, hi, base).ops[k].offset, base) <= hi
              && !e[SectorIndex(EraseSectors(e, lo, hi, base).ops[k].offset, base)]
    decreases hi + 1 - lo
  {
    if lo <= hi {
      if lo < TrackedSectors && !e[lo] {
        var e1 := e[lo := true];
        EraseSectorsOps(e1, lo + 1, hi, base);
        var rest := EraseSectors(e1, lo + 1, hi, base);
        var r := EraseSectors(e, lo, hi, base);
        assert r.ops == [SectorErase(lo, base)] + rest.ops;
        SectorEraseIndex(lo, base);
        forall k | 0 <= k < |r.ops|
          ensures IsTrackedSectorErase(r.ops[k], base) && lo <= SectorIndex(r.ops[k].offset, base) <= hi
                  && !e[SectorIndex(r.ops[k].offset, base)]
        {
          if k > 0 {
            assert r.ops[k] == rest.ops[k - 1];
          }
        }
      } else {
        EraseSectorsOps(e, lo + 1, hi, base);
      }
    }
  }

  /** ... and erases each of them once, in increasing order of sector. */
  lemma {:induction false} EraseSectorsOnce(e: seq<bool>, lo: int, hi: int, base: int)
    requires |e| == TrackedSectors && lo >= 0
    ensures EraseOnce(EraseSectors(e, lo, hi, base).ops)
    decreases hi + 1 - lo
  {
    if lo <= hi {
      if lo < TrackedSectors && !e[lo] {
        var e1 := e[lo := true];
        EraseSectorsOnce(e1, lo + 1, hi, base);
        EraseSectorsOps(e1, lo + 1, hi, base);
        var rest := EraseSectors(e1, lo + 1, hi, base);
        var r := EraseSectors(e, lo, hi, base);
        assert r.ops == [SectorErase(lo, base)] + rest.ops;
        forall j, k | 0 <= j < k < |r.ops| && r.ops[j].Erase? && r.ops[k].Erase?
          ensures r.ops[j].offset != r.ops[k].offset
        {
          assert r.ops[k] == rest.ops[k - 1];
          if j > 0 {
            assert r.ops[j] == rest.ops[j - 1];
          } else {
            SectorEraseIndex(lo, base);
          }
        }
      } else {
        EraseSectorsOnce(e, lo + 1, hi, base);
      }
    }
  }

  /** The erase loop marks exactly the tracked sectors of lo..hi, keeping earlier marks. */
  lemma {:induction false} EraseSectorsMarks(e: seq<bool>, lo: int, hi: int, base: int)
    requires |e| == TrackedSectors && lo >= 0
    ensures forall t :: 0 <= t < TrackedSectors ==> (EraseSectors(e, lo, hi, base).erased[t] <==> e[t] || lo <= t <= hi)
    decreases hi + 1 - lo
  {
    if lo <= hi {
      if lo < TrackedSectors && !e[lo] {
        EraseSectorsMarks(e[lo := true], lo + 1, hi, base);
      } else {
        EraseSectorsMarks(e, lo + 1, hi, base);
      }
    }
  }

  /** Every tracked sector of lo..hi not marked before is erased by the loop. */
  lemma {:induction false} EraseSectorsCovers(e: seq<bool>, lo: int, hi: int, base: int)
    requires |e| == TrackedSectors && lo >= 0
    ensures forall t :: 0 <= t < TrackedSectors && lo <= t <= hi && !e[t] ==> SectorErase(t, base) in EraseSectors(e, lo, hi, base).ops
    decreases hi + 1 - lo
  {
    if lo <= hi {
      if lo < TrackedSectors && !e[lo] {
        EraseSectorsCovers(e[lo := true], lo + 1, hi, base);
      } else {
        EraseSectorsCovers(e, lo + 1, hi, base);
      }
    }
  }

  // ---------------------------------------------------------------------------------
  // The shape of a session: accepted chunks, their acknowledgements, and the stop
  // ---------------------------------------------------------------------------------

  /** Every frame whose header is not "DONE" announces a chunk of LE32(header) bytes. */
  predicate IsChunk(m: Message) { m.header != DoneHeader }

  function ChunkLen(m: Message): int { LE32(m.header) }

  /** The chunk bytes a frame delivers (no more than announced). */
  function ChunkBytes(m: Message): seq<Byte>
  {
    m.body[..Min(ChunkLen(m), |m.body|)]
  }

  /** A frame the receive loop accepts when `total` bytes have been received: a chunk that
      fits the 4160-byte buffer, keeps the total within the partition, and arrived whole. */
  predicate Acceptable(m: Message, total: int)
  {
    IsChunk(m) && ChunkLen(m) <= OtaBufSize && total + ChunkLen(m) <= OtaMaxFwSize && |m.body| >= ChunkLen(m)
  }

  /** Each frame of ms is acceptable at the total the frames before it leave. */
  predicate AllAcceptable(total: int, ms: seq<Message>)
    decreases |ms|
  {
    ms == [] || (Acceptable(ms[0], total) && AllAcceptable(total + ChunkLen(ms[0]), ms[1..]))
  }

  /** The chunk bytes of ms, in order. */
  function ChunkData(ms: seq<Message>): seq<Byte>
    decreases |ms|
  {
    if ms == [] then [] else ChunkBytes(ms[0]) + ChunkData(ms[1..])
  }

  /** One ACK per chunk, carrying the cumulative total after it. */
  function AckReplies(total: nat, ms: seq<Message>): seq<Reply>
    decreases |ms|
  {
    if ms == [] then []
    else
      var t := total + |ChunkBytes(ms[0])|;
      [Ack(t)] + AckReplies(t, ms[1..])
  }

  /** How the first unacceptable frame ends the session, given the bytes received before it. */
  function StopOutcome(m: Message, total: int, received: seq<Byte>, target: int, sha: seq<Byte> -> seq<Byte>): Outcome
  {
    if !IsChunk(m) then
      if HashAccepted(ExpectedHash(m.body), sha(received)) then Reboot(target) else HashMismatch
    else if ChunkLen(m) > OtaBufSize then ChunkTooLarge
    else if total + ChunkLen(m) > OtaMaxFwSize then FirmwareTooLarge
    else ConnectionLost
  }

  /** The reply (if any) that goes with each way of ending. */
  function StopReplies(o: Outcome): seq<Reply>
  {
    match o
    case Reboot(_) => [Verified]
    case HashMismatch => [ErrHashMismatch]
    case ChunkTooLarge => [ErrChunkTooLarge]
    case FirmwareTooLarge => [ErrFirmwareTooLarge]
    case _ => []
  }

  /** The first ACK of a run of chunks, and the rest. */
  lemma AckRepliesCons(total: nat, ms: seq<Message>)
    requires ms != []
    ensures var t := total + |ChunkBytes(ms[0])|;
            AckReplies(total, ms) == [Ack(t)] + AckReplies(t, ms[1..])
  {
  }

  /** Run after its first frame: a stop ends it there, a continue goes on from the next state. */
  lemma RunCons(p: Progress, msgs: seq<Message>, base: int, target: int, sha: seq<Byte> -> seq<Byte>)
    requires ValidProgress(p) && msgs != []
    ensures var st := Step(p, msgs[0], base, target, sha);
            var r := Run(p, msgs, base, target, sha);
            (st.Stop? ==> r == Session(st.replies, [], st.outcome, p.total, p.received, 1, 0))
            && (st.Continue? ==>
                  var rest := Run(st.next, msgs[1..], base, target, sha);
                  r == Session(st.replies + rest.replies, st.ops + rest.ops, rest.outcome, rest.total,
                               rest.received, rest.consumed + 1, rest.accepted + 1))
  {
  }

  lemma AllAcceptableCons(total: int, ms: seq<Message>)
    requires ms != []
    ensures AllAcceptable(total, ms)
            == (Acceptable(ms[0], total) && AllAcceptable(total + ChunkLen(ms[0]), ms[1..]))
  {
  }

  /** The first frames of a nonempty prefix. */
  lemma PrefixSplit(msgs: seq<Message>, a: nat)
    requires 1 <= a <= |msgs|
    ensures msgs[..a][0] == msgs[0] && msgs[..a][1..] == msgs[1..][..a - 1]
  {
  }

  /** One pass of the loop in the terms above: it continues exactly on an acceptable
      frame, acknowledging the new total and hashing the chunk bytes; otherwise StopOutcome
      and StopReplies say how it ends. */
  lemma StepFacts(p: Progress, m: Message, base: int, target: int, sha: seq<Byte> -> seq<Byte>)
    requires ValidProgress(p)
    ensures var st := Step(p, m, base, target, sha);
            (st.Continue? <==> Acceptable(m, p.total))
            && (st.Continue? ==> st.next.total == p.total + ChunkLen(m) == p.total + |ChunkBytes(m)|
                                 && st.next.received == p.received + ChunkBytes(m)
                                 && st.replies == [Ack(st.next.total)])
            && (st.Stop? ==> st.outcome == StopOutcome(m, p.total, p.received, target, sha)
                             && st.replies == StopReplies(st.outcome))
  {
    var st := Step(p, m, base, target, sha);
    if IsChunk(m) {
      var len := ChunkLen(m);
      if Acceptable(m, p.total) {
        assert ChunkBytes(m) == m.body[..len];
        assert st.Continue?;
      } else {
        assert st.Stop?;
      }
    } else {
      assert !Acceptable(m, p.total) && st.Stop?;
    }
  }

  /** The receive loop accepts a run of frames, each acceptable at the running total, and
      has hashed exactly their bytes; it reads one frame more only when it met one it could
      not accept. */
  lemma {:induction false} RunAccepts(p: Progress, msgs: seq<Message>, base: int, target: int, sha: seq<Byte> -> seq<Byte>)
    requires ValidProgress(p)
    ensures var r := Run(p, msgs, base, target, sha);
            r.accepted <= |msgs| && r.consumed == (if r.accepted < |msgs| then r.accepted + 1 else r.accepted)
            && AllAcceptable(p.total, msgs[..r.accepted])
            && r.received == p.received + ChunkData(msgs[..r.accepted])
            && r.total == p.total + |ChunkData(msgs[..r.accepted])|
    decreases |msgs|
  {
    if msgs == [] {
      assert msgs[..0] == [];
    } else {
      StepFacts(p, msgs[0], base, target, sha);
      RunCons(p, msgs, base, target, sha);
      var st := Step(p, msgs[0], base, target, sha);
      if st.Continue? {
        RunAccepts(st.next, msgs[1..], base, target, sha);
        AcceptsCons(p, st.next, msgs, Run(st.next, msgs[1..], base, target, sha), Run(p, msgs, base, target, sha));
      } else {
        assert msgs[..0] == [];
      }
    }
  }

  /** The inductive step of RunAccepts, apart from the loop itself: one more acceptable
      frame in front of a run that had the property. */
  lemma AcceptsCons(p: Progress, q: Progress, msgs: seq<Message>, rest: Session, r: Session)
    requires msgs != [] && Acceptable(msgs[0], p.total)
    requires q.total == p.total + ChunkLen(msgs[0]) == p.total + |ChunkBytes(msgs[0])|
    requires q.received == p.received + ChunkBytes(msgs[0])
    requires rest.accepted <= |msgs| - 1
             && rest.consumed == (if rest.accepted < |msgs| - 1 then rest.accepted + 1 else rest.accepted)
             && AllAcceptable(q.total, msgs[1..][..rest.accepted])
             && rest.received == q.received + ChunkData(msgs[1..][..rest.accepted])
             && rest.total == q.total + |ChunkData(msgs[1..][..rest.accepted])|
    requires r.accepted == rest.accepted + 1 && r.consumed == rest.consumed + 1
    requires r.received == rest.received && r.total == rest.total
    ensures r.accepted <= |msgs| && r.consumed == (if r.accepted < |msgs| then r.accepted + 1 else r.accepted)
            && AllAcceptable(p.total, msgs[..r.accepted])
            && r.received == p.received + ChunkData(msgs[..r.accepted])
            && r.total == p.total + |ChunkData(msgs[..r.accepted])|
  {
    var a := r.accepted;
    var m := msgs[0];
    PrefixSplit(msgs, a);
    assert ChunkData(msgs[..a]) == ChunkBytes(m) + ChunkData(msgs[1..][..a - 1]);
    AppendAssoc(p.received, ChunkBytes(m), ChunkData(msgs[1..][..a - 1]));
    AllAcceptableCons(p.total, msgs[..a]);
  }

  /** The replies of the receive loop: one ACK per accepted chunk with the cumulative total,
      then the reply of the way it ended (none when the connection was lost). */
  lemma {:induction false} RunReplies(p: Progress, msgs: seq<Message>, base: int, target: int, sha: seq<Byte> -> seq<Byte>)
    requires ValidProgress(p)
    ensures var r := Run(p, msgs, base, target, sha);
            r.accepted <= |msgs|
            && r.replies == AckReplies(p.total, msgs[..r.accepted]) + StopReplies(r.outcome)
    decreases |msgs|
  {
    if msgs == [] {
      assert msgs[..0] == [];
    } else {
      StepFacts(p, msgs[0], base, target, sha);
      RunCons(p, msgs, base, target, sha);
      var st := Step(p, msgs[0], base, target, sha);
      if st.Continue? {
        RunReplies(st.next, msgs[1..], base, target, sha);
        RepliesCons(p.total, st.next.total, msgs, Run(st.next, msgs[1..], base, target, sha),
                    Run(p, msgs, base, target, sha));
      } else {
        assert msgs[..0] == [];
      }
    }
  }

  /** The inductive step of RunReplies: one more ACK in front. */
  lemma RepliesCons(total: nat, next: nat, msgs: seq<Message>, rest: Session, r: Session)
    requires msgs != [] && next == total + |ChunkBytes(msgs[0])|
    requires rest.accepted <= |msgs| - 1
             && rest.replies == AckReplies(next, msgs[1..][..rest.accepted]) + StopReplies(rest.outcome)
    requires r.accepted == rest.accepted + 1 && r.outcome == rest.outcome
    requires r.replies == [Ack(next)] + rest.replies
    ensures r.accepted <= |msgs|
            && r.replies == AckReplies(total, msgs[..r.accepted]) + StopReplies(r.outcome)
  {
    var a := r.accepted;
    PrefixSplit(msgs, a);
    AckRepliesCons(total, msgs[..a]);
    var acks := AckReplies(next, msgs[1..][..a - 1]);
    AppendAssoc([Ack(next)], acks, StopReplies(rest.outcome));
  }

  /** How the receive loop ends: running out of frames loses the connection; otherwise the
      first frame it cannot accept decides, judged against the final total and every byte
      received before it. */
  lemma {:induction false} RunStops(p: Progress, msgs: seq<Message>, base: int, target: int, sha: seq<Byte> -> seq<Byte>)
    requires ValidProgress(p)
    ensures var r := Run(p, msgs, base, target, sha);
            r.accepted <= |msgs|
            && (r.accepted == |msgs| ==> r.outcome == ConnectionLost)
            && (r.accepted < |msgs| ==> !Acceptable(msgs[r.accepted], r.total)
                                        && r.outcome == StopOutcome(msgs[r.accepted], r.total, r.received, target, sha))
    decreases |msgs|
  {
    if msgs != [] {
      StepFacts(p, msgs[0], base, target, sha);
      var st := Step(p, msgs[0], base, target, sha);
      if st.Continue? {
        RunStops(st.next, msgs[1..], base, target, sha);
        var rest := Run(st.next, msgs[1..], base, target, sha);
        assert rest.accepted < |msgs[1..]| ==> msgs[1..][rest.accepted] == msgs[rest.accepted + 1];
      }
    }
  }

  // ---------------------------------------------------------------------------------
  // Where the chunks land
  // ---------------------------------------------------------------------------------

  /** The bytes programmed by ops, in order. */
  function ProgramData(ops: seq<FlashOp>): seq<Byte>
    decreases |ops|
  {
    if ops == [] then []
    else (if ops[0].Program? then ops[0].data else []) + ProgramData(ops[1..])
  }

  /** The programs among ops are nonempty and back to back from `addr` on: each one starts
      where the bytes programmed before it end. */
  predicate ProgramsAt(ops: seq<FlashOp>, addr: int)
    decreases |ops|
  {
    ops == []
    || (ops[0].Erase? && ProgramsAt(ops[1..], addr))
    || (ops[0].Program? && ops[0].offset == addr && |ops[0].data| > 0
        && ProgramsAt(ops[1..], addr + |ops[0].data|))
  }

  predicate OnlyErases(ops: seq<FlashOp>)
  {
    forall k :: 0 <= k < |ops| ==> ops[k].Erase?
  }

  lemma {:induction false} ErasesProgramNothing(ops: seq<FlashOp>, addr: int)
    requires OnlyErases(ops)
    ensures ProgramData(ops) == [] && ProgramsAt(ops, addr)
    decreases |ops|
  {
    if ops != [] {
      ErasesProgramNothing(ops[1..], addr);
    }
  }

  lemma {:induction false} ProgramsAppend(a: seq<FlashOp>, b: seq<FlashOp>, addr: int)
    requires ProgramsAt(a, addr) && ProgramsAt(b, addr + |ProgramData(a)|)
    ensures ProgramsAt(a + b, addr) && ProgramData(a + b) == ProgramData(a) + ProgramData(b)
    decreases |a|
  {
    if a == [] {
      assert a + b == b;
    } else {
      assert (a + b)[1..] == a[1..] + b;
      var d := if a[0].Program? then a[0].data else [];
      ProgramsAppend(a[1..], b, addr + |d|);
      AppendAssoc(d, ProgramData(a[1..]), ProgramData(b));
    }
  }

  /** The flash operations of an accepted chunk: the erase loop over its sectors, then one
      program of its bytes unless it is empty. */
  function ChunkWrite(addr: int, data: seq<Byte>): seq<FlashOp>
  {
    if |data| > 0 then [Program(addr, data)] else []
  }

  lemma StepOps(p: Progress, m: Message, base: int, target: int, sha: seq<Byte> -> seq<Byte>)
    requires ValidProgress(p) && Step(p, m, base, target, sha).Continue?
    ensures Step(p, m, base, target, sha).ops
            == EraseSectors(p.erased, FirstSector(p.total), LastSector(p.total, ChunkLen(m)), base).ops
               + ChunkWrite(base + p.total, ChunkBytes(m))
    ensures Step(p, m, base, target, sha).next.erased
            == EraseSectors(p.erased, FirstSector(p.total), LastSector(p.total, ChunkLen(m)), base).erased
  {
  }

  lemma ChunkWriteFacts(addr: int, data: seq<Byte>)
    ensures ProgramsAt(ChunkWrite(addr, data), addr) && ProgramData(ChunkWrite(addr, data)) == data
  {
    var write := ChunkWrite(addr, data);
    if |data| > 0 {
      assert write[1..] == [] && data + [] == data;
      assert ProgramData(write) == write[0].data + ProgramData(write[1..]);
    } else {
      assert data == [];
    }
  }

  lemma ChunkOpsChain(eops: seq<FlashOp>, addr: int, data: seq<Byte>, after: seq<FlashOp>)
    requires OnlyErases(eops) && ProgramsAt(after, addr + |data|)
    ensures ProgramsAt(eops + ChunkWrite(addr, data) + after, addr)
    ensures ProgramData(eops + ChunkWrite(addr, data) + after) == data + ProgramData(after)
  {
    var write := ChunkWrite(addr, data);
    ErasesProgramNothing(eops, addr);
    ChunkWriteFacts(addr, data);
    ProgramsAppend(eops, write, addr);
    assert ProgramData(eops + write) == data;
    ProgramsAppend(eops + write, after, addr);
  }

  /** One accepted chunk is programmed in one piece at the partition base plus the bytes
      received before it (nothing at all is programmed for an empty chunk), so it chains
      with whatever is programmed after it. */
  lemma StepWrites(p: Progress, m: Message, base: int, target: int, sha: seq<Byte> -> seq<Byte>, after: seq<FlashOp>)
    requires ValidProgress(p) && Step(p, m, base, target, sha).Continue?
    requires ProgramsAt(after, base + p.total + |ChunkBytes(m)|)
    ensures ProgramsAt(Step(p, m, base, target, sha).ops + after, base + p.total)
    ensures ProgramData(Step(p, m, base, target, sha).ops + after) == ChunkBytes(m) + ProgramData(after)
  {
    StepOps(p, m, base, target, sha);
    EraseSectorsOps(p.erased, FirstSector(p.total), LastSector(p.total, ChunkLen(m)), base);
    ChunkOpsChain(EraseSectors(p.erased, FirstSector(p.total), LastSector(p.total, ChunkLen(m)), base).ops,
                  base + p.total, ChunkBytes(m), after);
  }

  /** Each accepted chunk is programmed right after the previous one: the programs of the
      session are back to back from the partition base plus the bytes received before, and
      together they hold exactly the bytes received (and hashed). */
  lemma {:induction false} RunWrites(p: Progress, msgs: seq<Message>, base: int, target: int, sha: seq<Byte> -> seq<Byte>)
    requires ValidProgress(p)
    ensures ProgramsAt(Run(p, msgs, base, target, sha).ops, base + p.total)
    ensures p.received + ProgramData(Run(p, msgs, base, target, sha).ops) == Run(p, msgs, base, target, sha).received
    decreases |msgs|
  {
    if msgs == [] || Step(p, msgs[0], base, target, sha).Stop? {
      assert p.received + [] == p.received;
    } else {
      var st := Step(p, msgs[0], base, target, sha);
      StepFacts(p, msgs[0], base, target, sha);
      var rest := Run(st.next, msgs[1..], base, target, sha);
      RunWrites(st.next, msgs[1..], base, target, sha);
      StepWrites(p, msgs[0], base, target, sha, rest.ops);
      AppendAssoc(p.received, ChunkBytes(msgs[0]), ProgramData(rest.ops));
    }
  }

  // ---------------------------------------------------------------------------------
  // Erase before write, erase once
  // ---------------------------------------------------------------------------------

  /** Every sector the erasedSectors table marks has been erased in hist. */
  predicate MarkedAreErased(e: seq<bool>, hist: seq<FlashOp>, base: int)
    requires |e| == TrackedSectors
  {
    forall t :: 0 <= t < TrackedSectors && e[t] ==> SectorErase(t, base) in hist
  }

  /** Every erase in hist is of a whole tracked sector that the table marks. */
  predicate ErasedAreMarked(e: seq<bool>, hist: seq<FlashOp>, base: int)
    requires |e| == TrackedSectors
  {
    forall j :: 0 <= j < |hist| && hist[j].Erase? ==>
      IsTrackedSectorErase(hist[j], base) && e[SectorIndex(hist[j].offset, base)]
  }

  /** Every sector a write of len bytes at offset touches has been erased in hist. */
  predicate WriteCovered(hist: seq<FlashOp>, offset: int, len: int, base: int)
  {
    forall t :: SectorIndex(offset, base) <= t <= SectorIndex(offset + len - 1, base) ==> SectorErase(t, base) in hist
  }

  /** Each program in ops comes after the erase of every sector it writes to. */
  predicate EraseBeforeWrite(ops: seq<FlashOp>, base: int)
  {
    forall j :: 0 <= j < |ops| && ops[j].Program? ==> WriteCovered(ops[..j], ops[j].offset, |ops[j].data|, base)
  }

  /** What holds of the erasedSectors table and the flash operations issued so far, at every
      pass of the receive loop. */
  predicate EraseInvariant(e: seq<bool>, hist: seq<FlashOp>, base: int)
  {
    |e| == TrackedSectors && MarkedAreErased(e, hist, base) && ErasedAreMarked(e, hist, base)
    && EraseOnce(hist) && EraseBeforeWrite(hist, base)
  }

  lemma ChunkMarks(e: seq<bool>, hist: seq<FlashOp>, lo: int, hi: int, base: int, write: seq<FlashOp>)
    requires EraseInvariant(e, hist, base) && lo >= 0
    ensures MarkedAreErased(EraseSectors(e, lo, hi, base).erased, hist + EraseSectors(e, lo, hi, base).ops + write, base)
  {
    var er := EraseSectors(e, lo, hi, base);
    EraseSectorsMarks(e, lo, hi, base);
    EraseSectorsCovers(e, lo, hi, base);
    forall t | 0 <= t < TrackedSectors && er.erased[t]
      ensures SectorErase(t, base) in hist + er.ops + write
    {
      if e[t] {
        assert SectorErase(t, base) in hist;
      } else {
        assert SectorErase(t, base) in er.ops;
      }
    }
  }

  lemma ChunkErasesMarked(e: seq<bool>, hist: seq<FlashOp>, lo: int, hi: int, base: int, addr: int, data: seq<Byte>)
    requires EraseInvariant(e, hist, base) && lo >= 0
    ensures ErasedAreMarked(EraseSectors(e, lo, hi, base).erased, hist + EraseSectors(e, lo, hi, base).ops + ChunkWrite(addr, data), base)
  {
    var er := EraseSectors(e, lo, hi, base);
    var all := hist + er.ops + ChunkWrite(addr, data);
    EraseSectorsMarks(e, lo, hi, base);
    EraseSectorsOps(e, lo, hi, base);
    forall j | 0 <= j < |all| && all[j].Erase?
      ensures IsTrackedSectorErase(all[j], base) && er.erased[SectorIndex(all[j].offset, base)]
    {
      if j < |hist| {
        assert all[j] == hist[j];
      } else {
        assert j - |hist| < |er.ops| && all[j] == er.ops[j - |hist|];
      }
    }
  }

  lemma ChunkEraseOnce(e: seq<bool>, hist: seq<FlashOp>, lo: int, hi: int, base: int, addr: int, data: seq<Byte>)
    requires EraseInvariant(e, hist, base) && lo >= 0
    ensures EraseOnce(hist + EraseSectors(e, lo, hi, base).ops + ChunkWrite(addr, data))
  {
    var er := EraseSectors(e, lo, hi, base);
    var all := hist + er.ops + ChunkWrite(addr, data);
    EraseSectorsOps(e, lo, hi, base);
    EraseSectorsOnce(e, lo, hi, base);
    forall j, k | 0 <= j < k < |all| && all[j].Erase? && all[k].Erase?
      ensures all[j].offset != all[k].offset
    {
      assert k < |hist| + |er.ops|;
      if k < |hist| {
        assert all[j] == hist[j] && all[k] == hist[k];
      } else if j < |hist| {
        assert all[j] == hist[j] && all[k] == er.ops[k - |hist|];
        assert e[SectorIndex(all[j].offset, base)] && !e[SectorIndex(all[k].offset, base)];
      } else {
        assert all[j] == er.ops[j - |hist|] && all[k] == er.ops[k - |hist|];
      }
    }
  }

  lemma ChunkEraseBeforeWrite(e: seq<bool>, hist: seq<FlashOp>, total: int, len: int, base: int, data: seq<Byte>)
    requires EraseInvariant(e, hist, base) && 0 <= total && total + len <= OtaMaxFwSize && |data| == len
    ensures EraseBeforeWrite(hist + EraseSectors(e, FirstSector(total), LastSector(total, len), base).ops
                             + ChunkWrite(base + total, data), base)
  {
    var lo, hi := FirstSector(total), LastSector(total, len);
    var er := EraseSectors(e, lo, hi, base);
    var write := ChunkWrite(base + total, data);
    var all := hist + er.ops + write;
    EraseSectorsOps(e, lo, hi, base);
    EraseSectorsCovers(e, lo, hi, base);
    forall j | 0 <= j < |all| && all[j].Program?
      ensures WriteCovered(all[..j], all[j].offset, |all[j].data|, base)
    {
      if j < |hist| {
        assert all[j] == hist[j] && all[..j] == hist[..j];
      } else if j < |hist| + |er.ops| {
        assert false;
      } else {
        assert len > 0 && j == |hist| + |er.ops| && all[j] == Program(base + total, data);
        assert all[..j] == hist + er.ops;
        assert SectorIndex(base + total, base) == lo;
        assert SectorIndex(base + total + len - 1, base) == hi < 496;
        forall t | lo <= t <= hi
          ensures SectorErase(t, base) in hist + er.ops
        {
          if e[t] {
            assert SectorErase(t, base) in hist;
          } else {
            assert SectorErase(t, base) in er.ops;
          }
        }
      }
    }
  }

  /** An accepted chunk of len bytes at `total` keeps the erase invariant: the erase loop over
      its sectors, then its program. */
  lemma ChunkErasure(e: seq<bool>, hist: seq<FlashOp>, total: int, len: int, base: int, data: seq<Byte>)
    requires EraseInvariant(e, hist, base) && 0 <= total && total + len <= OtaMaxFwSize && |data| == len
    ensures var er := EraseSectors(e, FirstSector(total), LastSector(total, len), base);
            EraseInvariant(er.erased, hist + (er.ops + ChunkWrite(base + total, data)), base)
  {
    var lo, hi := FirstSector(total), LastSector(total, len);
    var er := EraseSectors(e, lo, hi, base);
    var write := ChunkWrite(base + total, data);
    ChunkMarks(e, hist, lo, hi, base, write);
    ChunkErasesMarked(e, hist, lo, hi, base, base + total, data);
    ChunkEraseOnce(e, hist, lo, hi, base, base + total, data);
    ChunkEraseBeforeWrite(e, hist, total, len, base, data);
    AppendAssoc(hist, er.ops, write);
  }

  /** One pass of the receive loop keeps the erase invariant. */
  lemma StepErasure(p: Progress, m: Message, base: int, target: int, sha: seq<Byte> -> seq<Byte>, hist: seq<FlashOp>)
    requires ValidProgress(p) && Step(p, m, base, target, sha).Continue?
    requires EraseInvariant(p.erased, hist, base)
    ensures EraseInvariant(Step(p, m, base, target, sha).next.erased, hist + Step(p, m, base, target, sha).ops, base)
  {
    StepOps(p, m, base, target, sha);
    StepFacts(p, m, base, target, sha);
    ChunkErasure(p.erased, hist, p.total, ChunkLen(m), base, ChunkBytes(m));
  }

  /** Every erase in ops is of one whole tracked sector of the partition at base. */
  predicate TrackedErases(ops: seq<FlashOp>, base: int)
  {
    forall j :: 0 <= j < |ops| && ops[j].Erase? ==> IsTrackedSectorErase(ops[j], base)
  }

  /** Through the whole receive loop, every erase is of a whole tracked sector, no sector is
      erased twice, and every program comes after the erase of each sector it writes. */
  lemma {:induction false} RunErasure(p: Progress, msgs: seq<Message>, base: int, target: int,
                                      sha: seq<Byte> -> seq<Byte>, hist: seq<FlashOp>)
    requires ValidProgress(p) && EraseInvariant(p.erased, hist, base)
    ensures TrackedErases(hist + Run(p, msgs, base, target, sha).ops, base)
    ensures EraseOnce(hist + Run(p, msgs, base, target, sha).ops)
    ensures EraseBeforeWrite(hist + Run(p, msgs, base, target, sha).ops, base)
    decreases |msgs|
  {
    if msgs == [] || Step(p, msgs[0], base, target, sha).Stop? {
      assert hist + Run(p, msgs, base, target, sha).ops == hist;
    } else {
      var st := Step(p, msgs[0], base, target, sha);
      StepErasure(p, msgs[0], base, target, sha, hist);
      var rest := Run(st.next, msgs[1..], base, target, sha);
      RunErasure(st.next, msgs[1..], base, target, sha, hist + st.ops);
      AppendAssoc(hist, st.ops, rest.ops);
    }
  }

  /** The erase guarantees of a whole session, from its empty erasedSectors table. */
  lemma SessionErasure(init: Option<seq<Byte>>, msgs: seq<Message>, target: int, sha: seq<Byte> -> seq<Byte>)
    ensures var s := SessionSpec(init, msgs, target, sha);
            TrackedErases(s.ops, PartitionOffset(target)) && EraseOnce(s.ops)
            && EraseBeforeWrite(s.ops, PartitionOffset(target))
  {
    if InitAccepted(init) {
      var p0 := Progress(0, NoSectorsErased(), []);
      RunErasure(p0, msgs, PartitionOffset(target), target, sha, []);
      assert [] + Run(p0, msgs, PartitionOffset(target), target, sha).ops == Run(p0, msgs, PartitionOffset(target), target, sha).ops;
    }
  }

  // ---------------------------------------------------------------------------------
  // Erases stay inside the target partition, except after an empty first chunk
  // ---------------------------------------------------------------------------------

  /** A chunk header announcing zero bytes. */
  predicate EmptyChunk(m: Message) { IsChunk(m) && ChunkLen(m) == 0 }

  /** Every erase in ops lies inside the partition that starts at base. */
  predicate ErasesWithin(ops: seq<FlashOp>, base: int)
  {
    forall j :: 0 <= j < |ops| && ops[j].Erase? ==>
      base <= ops[j].offset && ops[j].offset + ops[j].count <= base + PartitionMaxSize
  }

  lemma ErasesWithinAppend(a: seq<FlashOp>, b: seq<FlashOp>, base: int)
    requires ErasesWithin(a, base) && ErasesWithin(b, base)
    ensures ErasesWithin(a + b, base)
  {
    forall j | 0 <= j < |a + b| && (a + b)[j].Erase?
      ensures base <= (a + b)[j].offset && (a + b)[j].offset + (a + b)[j].count <= base + PartitionMaxSize
    {
      if j >= |a| {
        assert (a + b)[j] == b[j - |a|];
      }
    }
  }

  /** The erase loop of a chunk stays inside the partition, because the size limit keeps
      its last sector at 495 or below, unless the chunk is empty and nothing was received. */
  lemma StepErasesWithin(p: Progress, m: Message, base: int, target: int, sha: seq<Byte> -> seq<Byte>)
    requires ValidProgress(p) && Step(p, m, base, target, sha).Continue?
    requires p.total > 0 || !EmptyChunk(m)
    ensures ErasesWithin(Step(p, m, base, target, sha).ops, base)
    ensures Step(p, m, base, target, sha).next.total > 0
  {
    StepOps(p, m, base, target, sha);
    StepFacts(p, m, base, target, sha);
    var lo, hi := FirstSector(p.total), LastSector(p.total, ChunkLen(m));
    var er := EraseSectors(p.erased, lo, hi, base);
    assert hi <= 495;
    EraseSectorsOps(p.erased, lo, hi, base);
    forall j | 0 <= j < |er.ops|
      ensures base <= er.ops[j].offset && er.ops[j].offset + er.ops[j].count <= base + PartitionMaxSize
    {
      var t := SectorIndex(er.ops[j].offset, base);
      assert er.ops[j] == SectorErase(t, base) && 0 <= t <= 495;
    }
    ErasesWithinAppend(er.ops, ChunkWrite(base + p.total, ChunkBytes(m)), base);
  }

  /** Unless the very first frame is an empty chunk, every erase of the receive loop lies
      inside the target partition. */
  lemma {:induction false} RunErasesWithin(p: Progress, msgs: seq<Message>, base: int, target: int, sha: seq<Byte> -> seq<Byte>)
    requires ValidProgress(p)
    requires p.total > 0 || msgs == [] || !EmptyChunk(msgs[0])
    ensures ErasesWithin(Run(p, msgs, base, target, sha).ops, base)
    decreases |msgs|
  {
    if msgs != [] && Step(p, msgs[0], base, target, sha).Continue? {
      var st := Step(p, msgs[0], base, target, sha);
      StepErasesWithin(p, msgs[0], base, target, sha);
      RunErasesWithin(st.next, msgs[1..], base, target, sha);
      ErasesWithinAppend(st.ops, Run(st.next, msgs[1..], base, target, sha).ops, base);
    }
  }

  /** A session whose first frame is not an empty chunk erases nothing outside the target
      partition. */
  lemma SessionErasesWithin(init: Option<seq<Byte>>, msgs: seq<Message>, target: int, sha: seq<Byte> -> seq<Byte>)
    requires msgs == [] || !EmptyChunk(msgs[0])
    ensures ErasesWithin(SessionSpec(init, msgs, target, sha).ops, PartitionOffset(target))
  {
    if InitAccepted(init) {
      RunErasesWithin(Progress(0, NoSectorsErased(), []), msgs, PartitionOffset(target), target, sha);
    }
  }

  /** As written, the last sector of an empty chunk at total 0 is computed in uint32 and
      wraps: (0 + 0 - 1) / 4096 is 0xFFFFF, far past the 512 tracked sectors. */
  lemma EmptyFirstChunkSpan()
    ensures FirstSector(0) == 0 && LastSector(0, 0) == 0xF_FFFF
  {
  }

  /** As written: a session whose first frame is an empty chunk erases all 512 tracked
      sectors, 2 MiB from the partition start. For target A that includes the first 16
      sectors (64 KiB) of partition B, the partition the device is running from; for target B it runs 16
      sectors past the end of partition B. */
  lemma {:induction false} EmptyFirstChunkErasesAll(init: Option<seq<Byte>>, msgs: seq<Message>, target: int,
                                                     sha: seq<Byte> -> seq<Byte>)
    requires InitAccepted(init) && msgs != [] && EmptyChunk(msgs[0])
    ensures forall t :: 0 <= t < TrackedSectors ==> SectorErase(t, PartitionOffset(target)) in SessionSpec(init, msgs, target, sha).ops
    ensures target == PartitionA ==>
              forall k :: 0 <= k < 16 ==>
                Erase(PartitionBOffset + k * SectorSize, SectorSize) in SessionSpec(init, msgs, target, sha).ops
                && InPartition(PartitionB, PartitionBOffset + k * SectorSize)
    ensures !ErasesWithin(SessionSpec(init, msgs, target, sha).ops, PartitionOffset(target))
  {
    var base := PartitionOffset(target);
    var p0 := Progress(0, NoSectorsErased(), []);
    var st := Step(p0, msgs[0], base, target, sha);
    StepFacts(p0, msgs[0], base, target, sha);
    StepOps(p0, msgs[0], base, target, sha);
    EmptyFirstChunkSpan();
    var er := EraseSectors(NoSectorsErased(), 0, 0xF_FFFF, base);
    EraseSectorsCovers(NoSectorsErased(), 0, 0xF_FFFF, base);
    assert ChunkBytes(msgs[0]) == [];
    assert st.ops == er.ops + [];
    var ops := SessionSpec(init, msgs, target, sha).ops;
    assert ops == st.ops + Run(st.next, msgs[1..], base, target, sha).ops;
    forall t | 0 <= t < TrackedSectors
      ensures SectorErase(t, base) in ops
    {
      assert SectorErase(t, base) in er.ops;
    }
    var last := SectorErase(TrackedSectors - 1, base);
    assert last in ops;
    var j :| 0 <= j < |ops| && ops[j] == last;
    assert !(last.offset + last.count <= base + PartitionMaxSize);
    if target == PartitionA {
      forall k | 0 <= k < 16
        ensures Erase(PartitionBOffset + k * SectorSize, SectorSize) in ops
      {
        assert SectorErase(496 + k, base) == Erase(PartitionBOffset + k * SectorSize, SectorSize);
      }
    }
  }

  /** The evidently intended last sector of a chunk: (total + len - 1) / 4096 with floor
      division on unbounded integers, so that an empty chunk at total 0 ends before sector 0
      and covers no sector at all. */
  function IntendedLastSector(total: int, len: int): int
  {
    (total + len - 1) / SectorSize
  }

  /** With the intended computation every sector any chunk within the size limit erases is
      inside the partition, and for every nonempty chunk it agrees with the code. */
  lemma IntendedSpanInsidePartition(total: int, len: int)
    requires 0 <= total && 0 <= len && total + len <= OtaMaxFwSize
    ensures IntendedLastSector(total, len) < PartitionMaxSize / SectorSize
    ensures total == 0 && len == 0 ==> IntendedLastSector(total, len) < FirstSector(total)
    ensures len > 0 ==> IntendedLastSector(total, len) == LastSector(total, len)
  {
  }

  // ---------------------------------------------------------------------------------
  // Whole sessions
  // ---------------------------------------------------------------------------------

  /** The frame that ends the loop leaves no trace in flash: a rejected length header, a
      short read or a DONE line issues no erase and no program. */
  lemma {:induction false} StopFrameTouchesNothing(p: Progress, msgs: seq<Message>, base: int, target: int,
                                                   sha: seq<Byte> -> seq<Byte>)
    requires ValidProgress(p)
    ensures Run(p, msgs, base, target, sha).accepted <= |msgs|
    ensures Run(p, msgs, base, target, sha).ops
            == Run(p, msgs[..Run(p, msgs, base, target, sha).accepted], base, target, sha).ops
    decreases |msgs|
  {
    if msgs != [] {
      var st := Step(p, msgs[0], base, target, sha);
      var r := Run(p, msgs, base, target, sha);
      if st.Continue? {
        StopFrameTouchesNothing(st.next, msgs[1..], base, target, sha);
        var a := r.accepted;
        PrefixSplit(msgs, a);
        assert msgs[..a] != [] && msgs[..a][0] == msgs[0];
      } else {
        assert msgs[..0] == [];
      }
    }
  }

  /** A run of acceptable frames is accepted whole, and the loop then waits for more. */
  lemma {:induction false} AcceptableRunAccepted(p: Progress, msgs: seq<Message>, base: int, target: int,
                                                 sha: seq<Byte> -> seq<Byte>)
    requires ValidProgress(p) && AllAcceptable(p.total, msgs)
    ensures Run(p, msgs, base, target, sha).accepted == |msgs|
    ensures Run(p, msgs, base, target, sha).outcome == ConnectionLost
    decreases |msgs|
  {
    if msgs != [] {
      StepFacts(p, msgs[0], base, target, sha);
      AcceptableRunAccepted(Step(p, msgs[0], base, target, sha).next, msgs[1..], base, target, sha);
    }
  }

  /** A whole session after a good initiation: READY with the size limit, one ACK per
      accepted chunk with the running total, then the reply of the way it ended; the bytes
      hashed are exactly those of the accepted chunks. */
  lemma SessionShape(init: Option<seq<Byte>>, msgs: seq<Message>, target: int, sha: seq<Byte> -> seq<Byte>)
    requires InitAccepted(init)
    ensures var s := SessionSpec(init, msgs, target, sha);
            s.accepted <= |msgs|
            && s.replies == [Ready(OtaMaxFwSize)] + AckReplies(0, msgs[..s.accepted]) + StopReplies(s.outcome)
            && s.received == ChunkData(msgs[..s.accepted])
            && (s.accepted == |msgs| ==> s.outcome == ConnectionLost)
            && (s.accepted < |msgs| ==> s.outcome == StopOutcome(msgs[s.accepted], s.total, s.received, target, sha))
  {
    var p0 := Progress(0, NoSectorsErased(), []);
    var base := PartitionOffset(target);
    RunAccepts(p0, msgs, base, target, sha);
    RunReplies(p0, msgs, base, target, sha);
    RunStops(p0, msgs, base, target, sha);
    var r := Run(p0, msgs, base, target, sha);
    AppendAssoc([Ready(OtaMaxFwSize)], AckReplies(0, msgs[..r.accepted]), StopReplies(r.outcome));
  }

  /** The digest verdict: the device answers VERIFIED and reboots into the target exactly
      when the session reaches a DONE line whose trimmed hash text is empty or equals the
      lowercase hex SHA-256 of every accepted chunk byte, in order; a DONE line with any
      other text gets "ERROR hash mismatch" and no reboot. */
  lemma SessionVerdict(init: Option<seq<Byte>>, msgs: seq<Message>, target: int, sha: seq<Byte> -> seq<Byte>)
    ensures var s := SessionSpec(init, msgs, target, sha);
            var done := InitAccepted(init) && s.accepted < |msgs| && !IsChunk(msgs[s.accepted]);
            (s.outcome.Reboot? <==>
              done && HashAccepted(ExpectedHash(msgs[s.accepted].body), sha(ChunkData(msgs[..s.accepted]))))
            && (s.outcome == HashMismatch <==>
              done && !HashAccepted(ExpectedHash(msgs[s.accepted].body), sha(ChunkData(msgs[..s.accepted]))))
            && (s.outcome.Reboot? ==> s.outcome.partition == target && s.replies[|s.replies| - 1] == Verified)
            && (s.outcome == HashMismatch ==> s.replies[|s.replies| - 1] == ErrHashMismatch)
  {
    var s := SessionSpec(init, msgs, target, sha);
    if InitAccepted(init) {
      SessionShape(init, msgs, target, sha);
      if s.accepted < |msgs| {
        StopVerdict(s.outcome, s.replies, [Ready(OtaMaxFwSize)] + AckReplies(0, msgs[..s.accepted]),
                    msgs[s.accepted], s.total, s.received, target, sha);
      }
    }
  }

  /** The verdict and last reply of a loop that stopped at frame m. */
  lemma StopVerdict(o: Outcome, replies: seq<Reply>, head: seq<Reply>, m: Message, total: int,
                    received: seq<Byte>, target: int, sha: seq<Byte> -> seq<Byte>)
    requires o == StopOutcome(m, total, received, target, sha) && replies == head + StopReplies(o)
    ensures (o.Reboot? <==> !IsChunk(m) && HashAccepted(ExpectedHash(m.body), sha(received)))
            && (o == HashMismatch <==> !IsChunk(m) && !HashAccepted(ExpectedHash(m.body), sha(received)))
            && (o.Reboot? ==> o.partition == target && replies[|replies| - 1] == Verified)
            && (o == HashMismatch ==> replies[|replies| - 1] == ErrHashMismatch)
  {
  }

  /** Chunks of 4096, 4096 and 1808 bytes are acknowledged with 4096, 8192 and 10000. */
  lemma AckRunningTotals(init: Option<seq<Byte>>, m1: Message, m2: Message, m3: Message, target: int,
                         sha: seq<Byte> -> seq<Byte>)
    requires InitAccepted(init) && IsChunk(m1) && IsChunk(m2) && IsChunk(m3)
    requires ChunkLen(m1) == 4096 == |m1.body| && ChunkLen(m2) == 4096 == |m2.body| && ChunkLen(m3) == 1808 == |m3.body|
    ensures SessionSpec(init, [m1, m2, m3], target, sha).replies == [Ready(2031616), Ack(4096), Ack(8192), Ack(10000)]
  {
    var msgs := [m1, m2, m3];
    assert msgs[1..] == [m2, m3] && msgs[1..][1..] == [m3] && msgs[1..][1..][1..] == [];
    assert AllAcceptable(8192, [m3]) by { assert [m3][1..] == []; }
    assert AllAcceptable(4096, [m2, m3]);
    assert AllAcceptable(0, msgs);
    assert |ChunkBytes(m1)| == 4096 && |ChunkBytes(m2)| == 4096 && |ChunkBytes(m3)| == 1808;
    assert AckReplies(8192, [m3]) == [Ack(10000)] by { assert [m3][1..] == []; }
    assert AckReplies(0, msgs) == [Ack(4096), Ack(8192), Ack(10000)];
    AcceptableRunAccepted(Progress(0, NoSectorsErased(), []), msgs, PartitionOffset(target), target, sha);
    SessionShape(init, msgs, target, sha);
    assert msgs[..3] == msgs;
  }
}
