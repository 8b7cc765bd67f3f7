/** What the host tool's UF2 extraction, telnet stripping, firmware framing and `.env`
    handling promise, proved about the functions of module Cli. */
module CliProperties {
  import opened Common
  import opened Cli

  // ---------------------------------------------------------------------------------------
  // UF2 blocks: encoding and decoding
  // ---------------------------------------------------------------------------------------

  /** Decoding an encoded block gives the block back. */
  lemma DecodeEncodeBlock(b: Block)
    requires Encodable(b)
    ensures DecodeBlock(EncodeBlock(b)) == b
  {
    var r := EncodeBlock(b);
    assert r[0..4] == EncodeLE32(b.magic0);
    assert r[4..8] == EncodeLE32(b.magic1);
    assert r[12..16] == EncodeLE32(b.target);
    assert r[16..20] == EncodeLE32(b.size);
    assert r[32..508] == b.payload;
    assert r[508..512] == EncodeLE32(b.magicEnd);
    LE32RoundTrip(b.magic0);
    LE32RoundTrip(b.magic1);
    LE32RoundTrip(b.target);
    LE32RoundTrip(b.size);
    LE32RoundTrip(b.magicEnd);
  }

  /** Cutting a file written block by block gives the blocks back. */
  lemma {:induction false} BlocksOfEncoded(blocks: seq<Block>)
    requires forall i :: 0 <= i < |blocks| ==> Encodable(blocks[i])
    ensures |EncodeBlocks(blocks)| % BlockSize == 0
    ensures Blocks(EncodeBlocks(blocks)) == blocks
  {
    DivModUnique(BlockSize * |blocks|, BlockSize, |blocks|, 0);
    if blocks != [] {
      var data := EncodeBlocks(blocks);
      BlocksOfEncoded(blocks[1..]);
      DecodeEncodeBlock(blocks[0]);
      assert data[..BlockSize] == EncodeBlock(blocks[0]);
      assert data[BlockSize..] == EncodeBlocks(blocks[1..]);
    }
  }

  /** The smallest target, when one block has it and none is below it. */
  lemma {:induction false} MinTargetIs(blocks: seq<Block>, v: int, w: nat)
    requires AllWellFormed(blocks) && w < |blocks| && blocks[w].target == v
    requires forall i :: 0 <= i < |blocks| ==> v <= blocks[i].target
    ensures MinTarget(blocks) == v
  {
    var init := blocks[..|blocks| - 1];
    if w < |blocks| - 1 {
      MinTargetIs(init, v, w);
    } else if init != [] {
      MinTargetAtLeast(init, v);
    }
  }

  lemma {:induction false} MinTargetAtLeast(blocks: seq<Block>, v: int)
    requires AllWellFormed(blocks) && v < U32
    requires forall i :: 0 <= i < |blocks| ==> v <= blocks[i].target
    ensures v <= MinTarget(blocks)
  {
    if blocks != [] {
      MinTargetAtLeast(blocks[..|blocks| - 1], v);
    }
  }

  /** The largest wrapped end, when one block has it and none is above it. */
  lemma {:induction false} MaxEndIs(blocks: seq<Block>, v: int, w: nat)
    requires w < |blocks| && End(blocks[w]) == v
    requires forall i :: 0 <= i < |blocks| ==> End(blocks[i]) <= v
    ensures MaxEnd(blocks) == v
  {
    var init := blocks[..|blocks| - 1];
    if w < |blocks| - 1 {
      MaxEndIs(init, v, w);
    } else {
      MaxEndAtMost(init, v);
    }
  }

  lemma {:induction false} MaxEndAtMost(blocks: seq<Block>, v: int)
    requires 0 <= v
    requires forall i :: 0 <= i < |blocks| ==> End(blocks[i]) <= v
    ensures MaxEnd(blocks) <= v
  {
    if blocks != [] {
      MaxEndAtMost(blocks[..|blocks| - 1], v);
    }
  }

  // ---------------------------------------------------------------------------------------
  // UF2 extraction: outcome
  // ---------------------------------------------------------------------------------------

  /** An accepted file is at least one block, a whole number of blocks, carries the three
      magics in every block, and yields max(end) - min(target) bytes, at most 4 MiB. */
  lemma Uf2Accepted(data: seq<Byte>)
    requires ExtractUF2(data).Binary?
    ensures |data| >= BlockSize && |data| % BlockSize == 0
    ensures var blocks := Blocks(data);
            (forall i :: 0 <= i < |blocks| ==> ValidMagic(blocks[i]))
            && |ExtractUF2(data).image| == (MaxEnd(blocks) - MinTarget(blocks)) % U32
            && |ExtractUF2(data).image| <= MaxOutput
  {
  }

  /** The errors, each exactly when its condition holds and every earlier one does not. */
  lemma Uf2Rejected(data: seq<Byte>)
    ensures ExtractUF2(data) == Failure(TooSmall) <==> |data| < BlockSize
    ensures ExtractUF2(data) == Failure(NotMultiple)
            <==> |data| >= BlockSize && |data| % BlockSize != 0
    ensures |data| >= BlockSize && |data| % BlockSize == 0 ==>
            forall i: nat :: ExtractUF2(data) == Failure(BadMagic(i))
              <==> i < |Blocks(data)| && !ValidMagic(Blocks(data)[i])
                   && forall j :: 0 <= j < i ==> ValidMagic(Blocks(data)[j])
  {
    if |data| >= BlockSize && |data| % BlockSize == 0 {
      var blocks := Blocks(data);
      forall i: nat | ExtractUF2(data) != Failure(BadMagic(i)) && i < |blocks|
        && forall j :: 0 <= j < i ==> ValidMagic(blocks[j])
        ensures ValidMagic(blocks[i])
      {
        assert FirstBadMagic(blocks) >= i;
      }
    }
  }

  // ---------------------------------------------------------------------------------------
  // UF2 extraction: the bytes of the image
  // ---------------------------------------------------------------------------------------

  /** The byte at output position p after the first k blocks: the payload byte of the last
      of them whose copy covers p, or zero when none does. */
  function Cover(blocks: seq<Block>, lo: int, p: int, k: nat): Byte
    requires AllWellFormed(blocks) && k <= |blocks|
  {
    if k == 0 then 0
    else
      var b := blocks[k - 1];
      var off := Offset(b, lo);
      if off <= p < off + Take(b) then b.payload[p - off] else Cover(blocks, lo, p, k - 1)
  }

  lemma {:induction false} PaintCover(blocks: seq<Block>, lo: int, size: nat, k: nat)
    requires AllWellFormed(blocks) && k <= |blocks|
    requires Paint(blocks, lo, size, k).Copied?
    ensures forall p :: 0 <= p < size ==> Paint(blocks, lo, size, k).image[p] == Cover(blocks, lo, p, k)
  {
    if k > 0 {
      var prev := Paint(blocks, lo, size, k - 1);
      assert prev.Copied?;
      PaintCover(blocks, lo, size, k - 1);
      var b := blocks[k - 1];
      var off := Offset(b, lo);
      var hi := (off + Take(b)) % U32;
      UnwrappedSum(off, Take(b));
      var image := prev.image[..off] + b.payload[..hi - off] + prev.image[hi..];
      assert Paint(blocks, lo, size, k).image == image;
      forall p | 0 <= p < size
        ensures image[p] == Cover(blocks, lo, p, k)
      {
        if p < off {
          assert image[p] == prev.image[p];
        } else if p < hi {
          assert image[p] == b.payload[p - off];
        } else {
          assert image[p] == prev.image[p];
        }
      }
    }
  }

  /** Every byte of an extracted image comes from the last block covering it, or is zero:
      gaps stay zero and later blocks win where they overlap. */
  lemma ImageBytes(data: seq<Byte>)
    requires ExtractUF2(data).Binary?
    ensures var blocks := Blocks(data);
            var image := ExtractUF2(data).image;
            forall p :: 0 <= p < |image| ==>
              image[p] == Cover(blocks, MinTarget(blocks), p, |blocks|)
  {
    var blocks := Blocks(data);
    var lo := MinTarget(blocks);
    var size := (MaxEnd(blocks) - lo) % U32;
    PaintCover(blocks, lo, size, |blocks|);
  }

  // ---------------------------------------------------------------------------------------
  // UF2 extraction: panics
  // ---------------------------------------------------------------------------------------

  lemma {:induction false} PaintSucceeds(blocks: seq<Block>, lo: int, size: nat, k: nat)
    requires AllWellFormed(blocks) && k <= |blocks| && size < U32
    requires forall i :: 0 <= i < |blocks| ==> Offset(blocks[i], lo) + Take(blocks[i]) <= size
    ensures Paint(blocks, lo, size, k).Copied?
  {
    if k > 0 {
      PaintSucceeds(blocks, lo, size, k - 1);
      var b := blocks[k - 1];
      assert (Offset(b, lo) + Take(b)) % U32 == Offset(b, lo) + Take(b);
    }
  }

  /** Blocks whose target + payloadSize fit in 32 bits never drive a copy out of range. */
  lemma NoWrapNoPanic(blocks: seq<Block>)
    requires AllWellFormed(blocks) && blocks != []
    requires forall i :: 0 <= i < |blocks| ==> !Wraps(blocks[i])
    ensures !ExtractFromBlocks(blocks).Panic?
  {
    if FirstBadMagic(blocks) == |blocks| {
      var lo, hi := MinTarget(blocks), MaxEnd(blocks);
      assert End(blocks[0]) == blocks[0].target + blocks[0].size;
      var size := (hi - lo) % U32;
      assert size == hi - lo;
      if size <= MaxOutput {
        forall i | 0 <= i < |blocks|
          ensures Offset(blocks[i], lo) + Take(blocks[i]) <= size
        {
          assert End(blocks[i]) == blocks[i].target + blocks[i].size;
        }
        PaintSucceeds(blocks, lo, size, |blocks|);
      }
    }
  }

  /** The wrap the source does not check: a block at 0xFFFFFF00 with 256 bytes ends at 0
      after the uint32 sum, so with a second block at 0 the range is 256 bytes while the
      first block's copy starts at 0xFFFFFF00. */
  const Zeros: seq<Byte> := seq(PayloadArea, _ => 0)
  const WrapFirst: Block := Block(MagicStart0, MagicStart1, MagicEnd, 0xFFFF_FF00, 0x100, Zeros)
  const WrapSecond: Block := Block(MagicStart0, MagicStart1, MagicEnd, 0, 0x100, Zeros)

  /** The two blocks make the second pass panic at the first one. */
  lemma WrapBlocksPanic()
    ensures ExtractFromBlocks([WrapFirst, WrapSecond]) == Panic(0)
  {
    var blocks := [WrapFirst, WrapSecond];
    MinTargetIs(blocks, 0, 1);
    assert End(WrapFirst) == 0 && End(WrapSecond) == 0x100;
    MaxEndIs(blocks, 0x100, 1);
    assert Paint(blocks, 0, 0x100, 1) == OutOfRange(0);
    PanicPersists(blocks, 0, 0x100, 1, 2);
  }

  /** extractUF2Binary panics on the 1024-byte file holding those two blocks. */
  lemma WrapPanics()
    ensures ExtractUF2(EncodeBlocks([WrapFirst, WrapSecond])) == Panic(0)
  {
    BlocksOfEncoded([WrapFirst, WrapSecond]);
    WrapBlocksPanic();
  }

  /** The same file is rejected by the corrected extraction. */
  lemma WrapRejectedWhenChecked()
    ensures ExtractChecked(EncodeBlocks([WrapFirst, WrapSecond])) == Failure(AddressWraps(0))
  {
    BlocksOfEncoded([WrapFirst, WrapSecond]);
    assert Wraps(WrapFirst);
  }

  /** With wrapping blocks rejected, extraction never panics. */
  lemma CheckedNeverPanics(data: seq<Byte>)
    ensures !ExtractChecked(data).Panic?
  {
    if |data| >= BlockSize && |data| % BlockSize == 0 {
      var blocks := Blocks(data);
      if FirstWrap(blocks) == |blocks| {
        NoWrapNoPanic(blocks);
      }
    }
  }

  /** On files without a wrapping block the check changes nothing. */
  lemma CheckedAgrees(data: seq<Byte>)
    requires |data| % BlockSize == 0 ==> FirstWrap(Blocks(data)) == |Blocks(data)|
    ensures ExtractChecked(data) == ExtractUF2(data)
  {
  }

  // ---------------------------------------------------------------------------------------
  // UF2 extraction: consecutive blocks
  // ---------------------------------------------------------------------------------------

  /** Blocks of 256 bytes at consecutive addresses from base, as a UF2 writer emits them. */
  predicate Consecutive(blocks: seq<Block>, base: int)
  {
    forall i :: 0 <= i < |blocks| ==>
      ValidMagic(blocks[i]) && blocks[i].target == base + 256 * i && blocks[i].size == 256
  }

  lemma {:induction false} CoverConsecutive(blocks: seq<Block>, base: int, k: nat, i: nat, j: nat)
    requires AllWellFormed(blocks) && Consecutive(blocks, base) && 0 <= base
    requires i < k <= |blocks| && j < 256
    ensures Cover(blocks, base, 256 * i + j, k) == blocks[i].payload[j]
  {
    var b := blocks[k - 1];
    assert Offset(b, base) == 256 * (k - 1);
    if k - 1 > i {
      CoverConsecutive(blocks, base, k - 1, i, j);
    }
  }

  /** Past the magic and size checks, extraction is the painted image. */
  lemma ExtractIsPaint(blocks: seq<Block>, lo: int, size: nat)
    requires AllWellFormed(blocks) && FirstBadMagic(blocks) == |blocks|
    requires MinTarget(blocks) == lo && MaxEnd(blocks) - lo == size <= MaxOutput
    requires !ExtractFromBlocks(blocks).Panic?
    ensures Paint(blocks, lo, size, |blocks|).Copied?
    ensures ExtractFromBlocks(blocks) == Binary(Paint(blocks, lo, size, |blocks|).image)
  {
    assert (MaxEnd(blocks) - lo) % U32 == size;
  }

  /** A file of consecutive 256-byte blocks extracts to their payloads back to back. */
  lemma ConsecutiveRoundTrip(blocks: seq<Block>, base: int)
    requires AllWellFormed(blocks) && blocks != [] && Consecutive(blocks, base)
    requires 0 <= base && base + 256 * |blocks| < U32 && 256 * |blocks| <= MaxOutput
    ensures ExtractFromBlocks(blocks).Binary?
    ensures |ExtractFromBlocks(blocks).image| == 256 * |blocks|
    ensures forall i, j :: 0 <= i < |blocks| && 0 <= j < 256 ==>
              ExtractFromBlocks(blocks).image[256 * i + j] == blocks[i].payload[j]
  {
    var n := |blocks|;
    var size := 256 * n;
    MinTargetIs(blocks, base, 0);
    forall i | 0 <= i < n
      ensures End(blocks[i]) == base + 256 * i + 256 <= base + size
    {
    }
    MaxEndIs(blocks, base + size, n - 1);
    assert FirstBadMagic(blocks) == n;
    forall i | 0 <= i < n
      ensures !Wraps(blocks[i])
    {
    }
    NoWrapNoPanic(blocks);
    ExtractIsPaint(blocks, base, size);
    var image := Paint(blocks, base, size, n).image;
    PaintCover(blocks, base, size, n);
    forall i, j | 0 <= i < n && 0 <= j < 256
      ensures image[256 * i + j] == blocks[i].payload[j]
    {
      CoverConsecutive(blocks, base, n, i, j);
    }
  }

  // ---------------------------------------------------------------------------------------
  // Telnet negotiation
  // ---------------------------------------------------------------------------------------

  predicate NoIac(s: seq<Byte>) { forall k :: 0 <= k < |s| ==> s[k] != Iac }

  /** Bytes before the first IAC pass through unchanged. */
  lemma {:induction false} StripPlainPrefix(a: seq<Byte>, b: seq<Byte>)
    requires NoIac(a)
    ensures StripIac(a + b) == a + StripIac(b)
  {
    if a != [] {
      StripPlainPrefix(a[1..], b);
      assert (a + b)[0] == a[0] && (a + b)[1..] == a[1..] + b;
      calc {
        StripIac(a + b);
        [a[0]] + StripIac(a[1..] + b);
        [a[0]] + (a[1..] + StripIac(b));
        { AppendAssoc([a[0]], a[1..], StripIac(b)); }
        ([a[0]] + a[1..]) + StripIac(b);
        { assert [a[0]] + a[1..] == a; }
        a + StripIac(b);
      }
    } else {
      assert a + b == b;
    }
  }

  /** Input without IAC is returned as it is, and an IAC in the last position survives. */
  lemma StripPlain(a: seq<Byte>)
    requires NoIac(a)
    ensures StripIac(a) == a
    ensures StripIac(a + [Iac]) == a + [Iac]
  {
    StripPlainPrefix(a, []);
    assert a + [] == a;
    StripPlainPrefix(a, [Iac]);
  }

  /** IAC + command is dropped, and IAC + WILL/WONT/DO/DONT + option as a whole. */
  lemma StripCommands(cmd: Byte, option: Byte, rest: seq<Byte>)
    ensures !TakesOption(cmd) ==> StripIac([Iac, cmd] + rest) == StripIac(rest)
    ensures TakesOption(cmd) ==> StripIac([Iac, cmd, option] + rest) == StripIac(rest)
  {
    assert ([Iac, cmd] + rest)[2..] == rest;
    assert ([Iac, cmd, option] + rest)[3..] == rest;
  }

  /** Stripping never lengthens the data, and the only IAC that can survive is the last
      byte of both input and output. */
  lemma {:induction false} StripShape(d: seq<Byte>)
    ensures |StripIac(d)| <= |d|
    ensures forall k :: 0 <= k < |StripIac(d)| && StripIac(d)[k] == Iac ==>
              k == |StripIac(d)| - 1 && d[|d| - 1] == Iac
    decreases |d|
  {
    if d != [] {
      if d[0] == Iac && 1 < |d| {
        var n := if TakesOption(d[1]) && 2 < |d| then 3 else 2;
        StripShape(d[n..]);
        if |d| > n {
          assert d[n..][|d[n..]| - 1] == d[|d| - 1];
        }
      } else {
        StripShape(d[1..]);
        var r := StripIac(d);
        assert r == [d[0]] + StripIac(d[1..]);
        if |d| > 1 {
          assert d[1..][|d[1..]| - 1] == d[|d| - 1];
        }
      }
    }
  }

  /** The telnet server's WILL ECHO before a prompt leaves the prompt alone. */
  lemma NegotiationThenPrompt()
    ensures StripIac([Iac, 0xFB, 0x01] + Ascii("> ")) == Ascii("> ")
  {
    StripCommands(0xFB, 0x01, Ascii("> "));
    StripPlain(Ascii("> "));
  }

  // ---------------------------------------------------------------------------------------
  // Firmware framing
  // ---------------------------------------------------------------------------------------

  /** The chunks of the writes, back to back. */
  function Payload(writes: seq<ChunkWrite>): seq<Byte>
  {
    if writes == [] then [] else writes[0].chunk + Payload(writes[1..])
  }

  /** ceil(n / 4096) chunks, whose concatenation is the firmware. */
  lemma {:induction false} FramesRoundTrip(fw: seq<Byte>)
    ensures |Frames(fw)| == (|fw| + ChunkSize - 1) / ChunkSize
    ensures Payload(Frames(fw)) == fw
    decreases |fw|
  {
    if fw != [] {
      var n := Min(|fw|, ChunkSize);
      FramesRoundTrip(fw[n..]);
      assert fw[..n] + fw[n..] == fw;
    }
  }

  /** Every chunk is 1 to 4096 bytes, all but the last exactly 4096, and its prefix is its
      length in little-endian order. */
  lemma {:induction false} FramesShape(fw: seq<Byte>)
    ensures forall k :: 0 <= k < |Frames(fw)| ==>
              var w := Frames(fw)[k];
              0 < |w.chunk| <= ChunkSize && (k < |Frames(fw)| - 1 ==> |w.chunk| == ChunkSize)
              && w.lenBuf == EncodeLE32(|w.chunk|) && LE32(w.lenBuf) == |w.chunk|
    decreases |fw|
  {
    if fw != [] {
      var n := Min(|fw|, ChunkSize);
      FramesShape(fw[n..]);
      LE32RoundTrip(n);
      var ws := Frames(fw);
      assert ws == [ws[0]] + Frames(fw[n..]);
      assert forall k :: 1 <= k < |ws| ==> ws[k] == Frames(fw[n..])[k - 1];
      if |ws| > 1 {
        assert n == ChunkSize;
      }
    }
  }

  // ---------------------------------------------------------------------------------------
  // The `.env` file
  // ---------------------------------------------------------------------------------------

  /** A variable that is already set keeps its value, and no variable disappears. */
  lemma {:induction false} NeverOverwrites(env: map<string, string>, lines: seq<string>)
    ensures env.Keys <= ApplyLines(env, lines).Keys
    ensures forall k :: k in env && env[k] != "" ==> ApplyLines(env, lines)[k] == env[k]
  {
    if lines != [] {
      NeverOverwrites(env, lines[..|lines| - 1]);
    }
  }

  /** A file of blank lines, comments and lines without '=' sets nothing. */
  lemma {:induction false} NothingAssigned(env: map<string, string>, lines: seq<string>)
    requires forall k :: 0 <= k < |lines| ==> Assignment(lines[k]).None?
    ensures ApplyLines(env, lines) == env
  {
    if lines != [] {
      NothingAssigned(env, lines[..|lines| - 1]);
    }
  }

  /** A string that starts and ends with something other than white space is its own trim. */
  lemma TrimUnspaced(s: string)
    requires s != [] && !IsSpace(s[0]) && !IsSpace(s[|s| - 1])
    ensures Trim(s) == s
  {
    assert LeadingSpace(s) == 0;
    assert TrailingSpace(s) == 0;
  }

  /** A key usable on the left of '=': not blank at either end, not a comment, no '='. */
  predicate PlainKey(key: string)
  {
    key != [] && !IsSpace(key[0]) && !IsSpace(key[|key| - 1]) && key[0] != '#'
    && forall k :: 0 <= k < |key| ==> key[k] != '='
  }

  /** The line KEY="VALUE" a user writes for a variable. */
  function QuotedLine(key: string, value: string): string
  {
    key + "=\"" + value + "\""
  }

  /** KEY="VALUE" is read as the key KEY and the value VALUE, quotes removed. */
  lemma QuotedAssignment(key: string, value: string)
    requires PlainKey(key)
    ensures Assignment(QuotedLine(key, value)) == Some((key, value))
  {
    var line := QuotedLine(key, value);
    TrimUnspaced(line);
    EqualsAfterKey(key, value);
    assert line[..|key|] == key;
    TrimUnspaced(key);
    assert line[|key| + 1..] == "\"" + value + "\"";
    QuotedValue(value);
    AssignmentSplits(line, key, value);
  }

  /** A trimmed, uncommented line with an '=' splits at its first '='. */
  lemma AssignmentSplits(line: string, key: string, value: string)
    requires Trim(line) == line && line != [] && line[0] != '#' && IndexOf(line, '=') < |line|
    requires Trim(line[..IndexOf(line, '=')]) == key
    requires Unquote(Trim(line[IndexOf(line, '=') + 1..])) == value
    ensures Assignment(line) == Some((key, value))
  {
  }

  /** A double-quoted value reads back without its quotes. */
  lemma QuotedValue(value: string)
    ensures Unquote(Trim("\"" + value + "\"")) == value
  {
    var rhs := "\"" + value + "\"";
    assert |rhs| >= 2 && rhs[0] == '"' && rhs[|rhs| - 1] == '"';
    TrimUnspaced(rhs);
    assert rhs[1..|rhs| - 1] == value;
    assert Unquote(rhs) == value;
  }

  lemma EqualsAfterKey(key: string, value: string)
    requires PlainKey(key)
    ensures IndexOf(QuotedLine(key, value), '=') == |key|
  {
    var line := QuotedLine(key, value);
    assert line[|key|] == '=';
    assert forall k :: 0 <= k < |key| ==> line[k] == key[k];
  }

  /** KEY="VALUE" assigns exactly VALUE to KEY, and only when KEY is not already set. */
  lemma QuotedLineRoundTrip(env: map<string, string>, key: string, value: string)
    requires PlainKey(key)
    ensures ApplyLine(env, QuotedLine(key, value))
            == if Getenv(env, key) == "" && SetenvAccepts(key, value) then env[key := value] else env
  {
    QuotedAssignment(key, value);
  }
}
