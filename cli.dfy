/** The pure logic of the host command-line tool (cmd/cli/main.go): unpacking a UF2 file,
    stripping telnet negotiation, framing firmware for the OTA port, the final DONE line and
    the `.env` rules. */
module Cli {
  import opened Common

  // ---------------------------------------------------------------------------------------
  // UF2 extraction (`extractUF2Binary`)
  // ---------------------------------------------------------------------------------------

  const BlockSize: nat := 512
  const PayloadStart: nat := 32
  const PayloadArea: nat := 476
  const MaxOutput: int := 4 * 1024 * 1024
  const MagicStart0: int := 0x0A32_4655
  const MagicStart1: int := 0x9E5D_5157
  const MagicEnd: int := 0x0AB1_6F30

  /** The fields of one 512-byte block that extraction looks at: the three magics, the
      target address, the payload size and the 476-byte payload area at offset 32. */
  datatype Block = Block(magic0: int, magic1: int, magicEnd: int, target: int, size: int,
                         payload: seq<Byte>)

  predicate WellFormed(b: Block)
  {
    IsU32(b.target) && IsU32(b.size) && |b.payload| == PayloadArea
  }

  predicate AllWellFormed(blocks: seq<Block>)
  {
    forall i :: 0 <= i < |blocks| ==> WellFormed(blocks[i])
  }

  function DecodeBlock(b: seq<Byte>): (r: Block)
    requires |b| == BlockSize
    ensures WellFormed(r)
    ensures r.payload == b[PayloadStart..BlockSize - 4]
  {
    Block(LE32(b[0..4]), LE32(b[4..8]), LE32(b[508..512]), LE32(b[12..16]), LE32(b[16..20]),
          b[32..508])
  }

  predicate Encodable(b: Block)
  {
    WellFormed(b) && IsU32(b.magic0) && IsU32(b.magic1) && IsU32(b.magicEnd)
  }

  /** A block laid out as a UF2 writer does, with zero flags, block number, count and
      family: the inverse of DecodeBlock. */
  function EncodeBlock(b: Block): (r: seq<Byte>)
    requires Encodable(b)
    ensures |r| == BlockSize
  {
    EncodeLE32(b.magic0) + EncodeLE32(b.magic1) + EncodeLE32(0) + EncodeLE32(b.target)
    + EncodeLE32(b.size) + seq(12, _ => 0) + b.payload + EncodeLE32(b.magicEnd)
  }

  function EncodeBlocks(blocks: seq<Block>): (r: seq<Byte>)
    requires forall i :: 0 <= i < |blocks| ==> Encodable(blocks[i])
    ensures |r| == BlockSize * |blocks|
  {
    if blocks == [] then [] else EncodeBlock(blocks[0]) + EncodeBlocks(blocks[1..])
  }

  /** The file cut into consecutive 512-byte blocks. */
  function Blocks(data: seq<Byte>): (r: seq<Block>)
    requires |data| % BlockSize == 0
    ensures |r| == |data| / BlockSize
    ensures AllWellFormed(r)
  {
    if data == [] then [] else [DecodeBlock(data[..BlockSize])] + Blocks(data[BlockSize..])
  }

  predicate ValidMagic(b: Block)
  {
    b.magic0 == MagicStart0 && b.magic1 == MagicStart1 && b.magicEnd == MagicEnd
  }

  /** The index of the first block with a wrong magic, or |blocks| when all are right. */
  function FirstBadMagic(blocks: seq<Block>): (r: nat)
    ensures r <= |blocks|
    ensures forall j :: 0 <= j < r ==> ValidMagic(blocks[j])
    ensures r < |blocks| ==> !ValidMagic(blocks[r])
  {
    if blocks == [] || !ValidMagic(blocks[0]) then 0 else 1 + FirstBadMagic(blocks[1..])
  }

  /** Where a block's payload ends, as the source's uint32 sum computes it. */
  function End(b: Block): int
  {
    (b.target + b.size) % U32
  }

  /** `minAddr` after the first pass: starts at 0xFFFFFFFF and keeps the smallest target. */
  function MinTarget(blocks: seq<Block>): (r: int)
    requires AllWellFormed(blocks)
    ensures IsU32(r)
    ensures forall i :: 0 <= i < |blocks| ==> r <= blocks[i].target
  {
    if blocks == [] then U32 - 1
    else
      var init := blocks[..|blocks| - 1];
      var rest := MinTarget(init);
      assert forall i :: 0 <= i < |init| ==> init[i] == blocks[i];
      Min(rest, blocks[|blocks| - 1].target)
  }

  /** `maxAddr` after the first pass: starts at 0 and keeps the largest wrapped end. */
  function MaxEnd(blocks: seq<Block>): (r: int)
    ensures IsU32(r)
    ensures forall i :: 0 <= i < |blocks| ==> End(blocks[i]) <= r
  {
    if blocks == [] then 0
    else
      var init := blocks[..|blocks| - 1];
      var rest := MaxEnd(init);
      assert forall i :: 0 <= i < |init| ==> init[i] == blocks[i];
      Max(rest, End(blocks[|blocks| - 1]))
  }

  /** Where a block lands in the output, and how many payload bytes it contributes. */
  function Offset(b: Block, lo: int): int { (b.target - lo) % U32 }
  function Take(b: Block): int { Min(b.size, PayloadArea) }

  /** The state of the second pass: the output so far, or the block whose
      `output[offset:offset+payloadSize]` slice is out of range (a run-time panic). */
  datatype Copy = Copied(image: seq<Byte>) | OutOfRange(block: nat)

  /** The second pass over the first k blocks of an output of `size` zero bytes. */
  function Paint(blocks: seq<Block>, lo: int, size: nat, k: nat): (r: Copy)
    requires AllWellFormed(blocks) && k <= |blocks|
    ensures r.Copied? ==> |r.image| == size
    ensures r.OutOfRange? ==> r.block < k
  {
    if k == 0 then Copied(seq(size, _ => 0))
    else
      match Paint(blocks, lo, size, k - 1)
      case OutOfRange(j) => OutOfRange(j)
      case Copied(image) =>
        var b := blocks[k - 1];
        var off := Offset(b, lo);
        var n := Take(b);
        var hi := (off + n) % U32;
        if off <= hi <= |image| then Copied(image[..off] + b.payload[..hi - off] + image[hi..])
        else OutOfRange(k - 1)
  }

  datatype Uf2Error = TooSmall | NotMultiple | BadMagic(block: nat) | TooLarge(size: int)
                    | AddressWraps(block: nat)

  /** What `extractUF2Binary` does: returns the image, returns an error, or panics at a block. */
  datatype Uf2Outcome = Binary(image: seq<Byte>) | Failure(err: Uf2Error) | Panic(block: nat)

  function ExtractFromBlocks(blocks: seq<Block>): Uf2Outcome
    requires AllWellFormed(blocks)
  {
    var bad := FirstBadMagic(blocks);
    if bad < |blocks| then Failure(BadMagic(bad))
    else
      var lo := MinTarget(blocks);
      var size := (MaxEnd(blocks) - lo) % U32;
      if size > MaxOutput then Failure(TooLarge(size))
      else
        match Paint(blocks, lo, size, |blocks|)
        case Copied(image) => Binary(image)
        case OutOfRange(j) => Panic(j)
  }

  /** `extractUF2Binary` as written. */
  function ExtractUF2(data: seq<Byte>): Uf2Outcome
  {
    if |data| < BlockSize then Failure(TooSmall)
    else if |data| % BlockSize != 0 then Failure(NotMultiple)
    else ExtractFromBlocks(Blocks(data))
  }

  /** A block whose target + payloadSize does not fit in 32 bits. */
  predicate Wraps(b: Block) { b.target + b.size >= U32 }

  function FirstWrap(blocks: seq<Block>): (r: nat)
    ensures r <= |blocks|
    ensures forall j :: 0 <= j < r ==> !Wraps(blocks[j])
    ensures r < |blocks| ==> Wraps(blocks[r])
  {
    if blocks == [] || Wraps(blocks[0]) then 0 else 1 + FirstWrap(blocks[1..])
  }

  /** Extraction with the missing check: a block whose address range wraps is an error
      reported after the magic check, instead of corrupting minAddr/maxAddr. */
  function ExtractChecked(data: seq<Byte>): Uf2Outcome
  {
    if |data| < BlockSize || |data| % BlockSize != 0 then ExtractUF2(data)
    else
      var blocks := Blocks(data);
      var w := FirstWrap(blocks);
      if FirstBadMagic(blocks) == |blocks| && w < |blocks| then Failure(AddressWraps(w))
      else ExtractFromBlocks(blocks)
  }

  /** The i-th block of the file is decoded from bytes i*512 up to (i+1)*512. */
  lemma {:induction false} BlocksAt(data: seq<Byte>, i: nat)
    requires |data| % BlockSize == 0 && i < |data| / BlockSize
    ensures (i + 1) * BlockSize <= |data|
    ensures Blocks(data)[i] == DecodeBlock(data[i * BlockSize..(i + 1) * BlockSize])
  {
    if i > 0 {
      var rest := data[BlockSize..];
      BlocksAt(rest, i - 1);
      assert rest[(i - 1) * BlockSize..i * BlockSize] == data[i * BlockSize..(i + 1) * BlockSize];
    }
  }

  /** `block := uf2Data[i*512 : (i+1)*512]` and the little-endian reads of its fields. */
  method ReadBlock(data: seq<Byte>, i: nat) returns (block: Block)
    requires |data| % BlockSize == 0 && i < |data| / BlockSize
    ensures block == Blocks(data)[i]
  {
    BlocksAt(data, i);
    block := DecodeBlock(data[i * BlockSize..(i + 1) * BlockSize]);
  }

  lemma MagicStep(blocks: seq<Block>, i: nat)
    requires FirstBadMagic(blocks) >= i && i < |blocks| && ValidMagic(blocks[i])
    ensures FirstBadMagic(blocks) >= i + 1
  {
  }

  /** A uint32 sum that does not come out below its first operand did not wrap. */
  lemma UnwrappedSum(a: int, b: int)
    requires IsU32(a) && IsU32(b) && (a + b) % U32 >= a
    ensures (a + b) % U32 == a + b
  {
  }

  /** One step of the second pass that copies: the payload lands between off and hi. */
  lemma PaintCopies(blocks: seq<Block>, lo: int, size: nat, i: nat, image: seq<Byte>,
                    off: int, hi: int, src: seq<Byte>)
    requires AllWellFormed(blocks) && i < |blocks|
    requires Paint(blocks, lo, size, i) == Copied(image)
    requires off == Offset(blocks[i], lo) && hi == (off + Take(blocks[i])) % U32
    requires off <= hi <= |image| && src == blocks[i].payload[..hi - off]
    ensures Paint(blocks, lo, size, i + 1) == Copied(image[..off] + src + image[hi..])
  {
  }

  /** One step of the second pass whose slice is out of range. */
  lemma PaintPanics(blocks: seq<Block>, lo: int, size: nat, i: nat, image: seq<Byte>,
                    off: int, hi: int)
    requires AllWellFormed(blocks) && i < |blocks|
    requires Paint(blocks, lo, size, i) == Copied(image)
    requires off == Offset(blocks[i], lo) && hi == (off + Take(blocks[i])) % U32
    requires !(off <= hi <= |image|)
    ensures Paint(blocks, lo, size, i + 1) == OutOfRange(i)
  {
  }

  /** Once a slice is out of range the second pass has panicked for good. */
  lemma {:induction false} PanicPersists(blocks: seq<Block>, lo: int, size: nat, k: nat, m: nat)
    requires AllWellFormed(blocks) && k <= m <= |blocks|
    requires Paint(blocks, lo, size, k).OutOfRange?
    ensures Paint(blocks, lo, size, m) == Paint(blocks, lo, size, k)
    decreases m - k
  {
    if k < m {
      PanicPersists(blocks, lo, size, k, m - 1);
    }
  }

  /** Extending the scanned prefix by one block updates the range by that block. */
  lemma RangeStep(blocks: seq<Block>, i: nat)
    requires AllWellFormed(blocks) && i < |blocks|
    ensures MinTarget(blocks[..i + 1]) == Min(MinTarget(blocks[..i]), blocks[i].target)
    ensures MaxEnd(blocks[..i + 1]) == Max(MaxEnd(blocks[..i]), End(blocks[i]))
  {
    assert blocks[..i + 1][..i] == blocks[..i];
  }

  /** The extraction loop: a first pass that checks the magics and tracks the address
      range, then an output array filled block by block. A slice out of range in the
      second pass is reported as `Panic`. */
  method ExtractUF2Binary(data: seq<Byte>) returns (r: Uf2Outcome)
    ensures r == ExtractUF2(data)
  {
    if |data| < BlockSize {
      return Failure(TooSmall);
    }
    if |data| % BlockSize != 0 {
      return Failure(NotMultiple);
    }
    var bad, minAddr, maxAddr := ScanBlocks(data);
    if bad < |data| / BlockSize {
      return Failure(BadMagic(bad));
    }
    var outputSize := (maxAddr - minAddr) % U32;
    if outputSize > MaxOutput {
      return Failure(TooLarge(outputSize));
    }
    r := CopyPayloads(data, minAddr, outputSize);
  }

  /** The first pass: the first block with a wrong magic (or the block count), and the
      address range of the blocks before it. */
  method ScanBlocks(data: seq<Byte>) returns (bad: nat, minAddr: int, maxAddr: int)
    requires |data| % BlockSize == 0
    ensures bad == FirstBadMagic(Blocks(data))
    ensures bad == |data| / BlockSize ==>
      minAddr == MinTarget(Blocks(data)) && maxAddr == MaxEnd(Blocks(data))
  {
    var numBlocks := |data| / BlockSize;
    ghost var blocks := Blocks(data);
    minAddr, maxAddr := U32 - 1, 0;
    for i := 0 to numBlocks
      invariant FirstBadMagic(blocks) >= i
      invariant minAddr == MinTarget(blocks[..i]) && maxAddr == MaxEnd(blocks[..i])
    {
      var block := ReadBlock(data, i);
      if block.magic0 != MagicStart0 || block.magic1 != MagicStart1 || block.magicEnd != MagicEnd {
        return i, minAddr, maxAddr;
      }
      MagicStep(blocks, i);
      RangeStep(blocks, i);
      if block.target < minAddr {
        minAddr := block.target;
      }
      if End(block) > maxAddr {
        maxAddr := End(block);
      }
    }
    assert blocks[..numBlocks] == blocks;
    bad := numBlocks;
  }

  /** The second pass: each payload, capped at 476 bytes, copied to target - minAddr in an
      output of outputSize zero bytes. */
  method CopyPayloads(data: seq<Byte>, minAddr: int, outputSize: nat) returns (r: Uf2Outcome)
    requires |data| % BlockSize == 0
    ensures r == match Paint(Blocks(data), minAddr, outputSize, |data| / BlockSize)
                 case Copied(image) => Binary(image)
                 case OutOfRange(j) => Panic(j)
  {
    var numBlocks := |data| / BlockSize;
    ghost var blocks := Blocks(data);
    var output := new Byte[outputSize](_ => 0);
    var i, ok := 0, true;
    while i < numBlocks && ok
      invariant 0 <= i <= numBlocks
      invariant ok ==> Paint(blocks, minAddr, outputSize, i) == Copied(output[..])
      invariant !ok ==> 0 < i && Paint(blocks, minAddr, outputSize, numBlocks) == OutOfRange(i - 1)
    {
      var block := ReadBlock(data, i);
      var copied := CopyBlock(output, block, minAddr, blocks, i);
      if !copied {
        PanicPersists(blocks, minAddr, outputSize, i + 1, numBlocks);
        ok := false;
      }
      i := i + 1;
    }
    if ok {
      r := Binary(output[..]);
    } else {
      r := Panic(i - 1);
    }
  }

  /** One iteration of the second pass: the payload, capped at 476 bytes, copied to
      target - minAddr; false when that slice of the output is out of range. */
  method CopyBlock(output: array<Byte>, block: Block, minAddr: int, ghost blocks: seq<Block>,
                   ghost i: nat) returns (copied: bool)
    requires AllWellFormed(blocks) && i < |blocks| && block == blocks[i]
    requires Paint(blocks, minAddr, output.Length, i) == Copied(output[..])
    modifies output
    ensures copied ==> Paint(blocks, minAddr, output.Length, i + 1) == Copied(output[..])
    ensures !copied ==> Paint(blocks, minAddr, output.Length, i + 1) == OutOfRange(i)
  {
    var payloadSize := block.size;
    if payloadSize > PayloadArea {
      payloadSize := PayloadArea;
    }
    var offset := (block.target - minAddr) % U32;
    var hi := (offset + payloadSize) % U32;
    ghost var image := output[..];
    if !(offset <= hi <= output.Length) {
      PaintPanics(blocks, minAddr, output.Length, i, image, offset, hi);
      return false;
    }
    UnwrappedSum(offset, payloadSize);
    var src := block.payload[..hi - offset];
    PaintCopies(blocks, minAddr, output.Length, i, image, offset, hi, src);
    CopyInto(output, offset, src);
    assert output[..] == image[..offset] + src + image[hi..];
    return true;
  }

  // ---------------------------------------------------------------------------------------
  // Telnet negotiation (`stripTelnetIAC`)
  // ---------------------------------------------------------------------------------------

  const Iac: Byte := 0xFF

  /** WILL, WONT, DO and DONT: the commands followed by an option byte. */
  predicate TakesOption(cmd: Byte) { 0xFB <= cmd <= 0xFE }

  /** The input with every IAC command removed: IAC plus its command byte, and the option
      byte too after WILL/WONT/DO/DONT when there is one; an IAC in the last position is an
      ordinary byte. */
  function StripIac(data: seq<Byte>): seq<Byte>
  {
    if data == [] then []
    else if data[0] == Iac && 1 < |data| then
      if TakesOption(data[1]) && 2 < |data| then StripIac(data[3..]) else StripIac(data[2..])
    else [data[0]] + StripIac(data[1..])
  }

  /** The scanning loop of `stripTelnetIAC`. */
  method StripTelnetIac(data: seq<Byte>) returns (result: seq<Byte>)
    ensures result == StripIac(data)
  {
    result := [];
    var i := 0;
    while i < |data|
      invariant i <= |data|
      invariant result + StripIac(data[i..]) == StripIac(data)
    {
      var rest := data[i..];
      if data[i] == Iac && i + 1 < |data| {
        var cmd := data[i + 1];
        if TakesOption(cmd) && i + 2 < |data| {
          assert rest[3..] == data[i + 3..];
          i := i + 3;
        } else {
          assert rest[2..] == data[i + 2..];
          i := i + 2;
        }
      } else {
        assert rest[1..] == data[i + 1..];
        AppendAssoc(result, [data[i]], StripIac(data[i + 1..]));
        result := result + [data[i]];
        i := i + 1;
      }
    }
  }

  // ---------------------------------------------------------------------------------------
  // Firmware framing and the DONE line (`otaPush`)
  // ---------------------------------------------------------------------------------------

  const ChunkSize: nat := 4096

  /** What one iteration of the send loop writes: the 4-byte little-endian length, then the
      chunk. */
  datatype ChunkWrite = ChunkWrite(lenBuf: LenBuf, chunk: seq<Byte>)

  type LenBuf = b: seq<Byte> | |b| == 4 witness [0, 0, 0, 0]

  /** The writes that send fw: 4096-byte chunks, the last one shorter. */
  function Frames(fw: seq<Byte>): seq<ChunkWrite>
    decreases |fw|
  {
    if fw == [] then []
    else
      var n := Min(|fw|, ChunkSize);
      [ChunkWrite(EncodeLE32(n), fw[..n])] + Frames(fw[n..])
  }

  /** The chunk loop of `otaPush`, without the waits for each ACK. */
  method FrameFirmware(fw: seq<Byte>) returns (writes: seq<ChunkWrite>)
    ensures writes == Frames(fw)
  {
    writes := [];
    var i := 0;
    while i < |fw|
      invariant 0 <= i
      invariant writes + Frames(fw[Min(i, |fw|)..]) == Frames(fw)
      decreases |fw| - i
    {
      var end := i + ChunkSize;
      if end > |fw| {
        end := |fw|;
      }
      var chunk := fw[i..end];
      var lenBuf := EncodeLE32(|chunk|);
      assert fw[i..][..|chunk|] == chunk && fw[i..][|chunk|..] == fw[end..];
      assert Frames(fw[i..]) == [ChunkWrite(lenBuf, chunk)] + Frames(fw[end..]);
      AppendAssoc(writes, [ChunkWrite(lenBuf, chunk)], Frames(fw[end..]));
      writes := writes + [ChunkWrite(lenBuf, chunk)];
      i := i + ChunkSize;
    }
  }

  /** "DONE " */
  const DonePrefix: seq<Byte> := [68, 79, 78, 69, 32]

  /** The completion line "DONE <hex digest>\n", the digest in lowercase hex. */
  function DoneLine(hash: seq<Byte>): (r: seq<Byte>)
    ensures |r| == 2 * |hash| + 6
  {
    DonePrefix + HexBytes(hash) + [10]
  }

  // ---------------------------------------------------------------------------------------
  // The `.env` file (`loadEnvFile`)
  // ---------------------------------------------------------------------------------------

  /** The white space `strings.TrimSpace` removes, that is `unicode.IsSpace`: the ASCII
      tab, newline, vertical tab, form feed, carriage return and space, and the Unicode
      NEL, NO-BREAK SPACE, OGHAM SPACE MARK, the spaces U+2000 to U+200A, LINE SEPARATOR,
      PARAGRAPH SEPARATOR, NARROW NO-BREAK SPACE, MEDIUM MATHEMATICAL SPACE and
      IDEOGRAPHIC SPACE. */
  predicate IsSpace(c: char)
  {
    c == ' ' || c == '\t' || c == '\n' || c == '\r' || c == 11 as char || c == 12 as char
    || c == 0x85 as char || c == 0xA0 as char || c == 0x1680 as char
    || (0x2000 as char <= c <= 0x200A as char)
    || c == 0x2028 as char || c == 0x2029 as char || c == 0x202F as char
    || c == 0x205F as char || c == 0x3000 as char
  }

  function LeadingSpace(s: string): (n: nat)
    ensures n <= |s|
    ensures forall k :: 0 <= k < n ==> IsSpace(s[k])
    ensures n < |s| ==> !IsSpace(s[n])
  {
    if s == [] || !IsSpace(s[0]) then 0 else 1 + LeadingSpace(s[1..])
  }

  function TrailingSpace(s: string): (n: nat)
    ensures n <= |s|
    ensures forall k :: |s| - n <= k < |s| ==> IsSpace(s[k])
    ensures n < |s| ==> !IsSpace(s[|s| - 1 - n])
  {
    if s == [] || !IsSpace(s[|s| - 1]) then 0 else 1 + TrailingSpace(s[..|s| - 1])
  }

  /** `strings.TrimSpace`: the middle of s between its leading and trailing white space. */
  function Trim(s: string): (r: string)
    ensures r == [] || (!IsSpace(r[0]) && !IsSpace(r[|r| - 1]))
    ensures var a := LeadingSpace(s);
            a + |r| <= |s| && s[a..a + |r|] == r
            && (forall k :: a + |r| <= k < |s| ==> IsSpace(s[k]))
  {
    var a := LeadingSpace(s);
    var rest := s[a..];
    var b := TrailingSpace(rest);
    var r := rest[..|rest| - b];
    assert r != [] ==> r[0] == s[a] && r[|r| - 1] == rest[|rest| - 1 - b];
    assert s[a..a + |r|] == r;
    assert forall k :: a + |r| <= k < |s| ==> s[k] == rest[k - a];
    r
  }

  /** The index of the first c in s, or |s| when there is none. */
  function IndexOf(s: string, c: char): (r: nat)
    ensures r <= |s|
    ensures r < |s| ==> s[r] == c
    ensures forall k :: 0 <= k < r ==> s[k] != c
  {
    if s == [] || s[0] == c then 0 else 1 + IndexOf(s[1..], c)
  }

  /** `strings.Split(s, "\n")`: the pieces between newlines, one more than there are
      newlines. */
  function SplitLines(s: string): (r: seq<string>)
    ensures |r| >= 1
    decreases |s|
  {
    var i := IndexOf(s, '\n');
    if i == |s| then [s] else [s[..i]] + SplitLines(s[i + 1..])
  }

  /** `value[1:len-1]` when value is at least two characters wrapped in one matching pair
      of double or single quotes. */
  function Unquote(value: string): (r: string)
  {
    if |value| >= 2 && ((value[0] == '"' && value[|value| - 1] == '"')
                        || (value[0] == '\'' && value[|value| - 1] == '\''))
    then value[1..|value| - 1]
    else value
  }

  /** `os.Getenv`: the empty string for a variable that is not set. */
  function Getenv(env: map<string, string>, key: string): string
  {
    if key in env then env[key] else ""
  }

  /** When `os.Setenv` refuses: an empty key, a key holding '=' or NUL, a value holding NUL. */
  predicate SetenvAccepts(key: string, value: string)
  {
    key != [] && (forall k :: 0 <= k < |key| ==> key[k] != '=' && key[k] != 0 as char)
    && forall k :: 0 <= k < |value| ==> value[k] != 0 as char
  }

  /** The key and value a line assigns, if any: trimmed, not blank, not a comment, holding
      an '='; both sides trimmed and the value unquoted. */
  function Assignment(line: string): Option<(string, string)>
  {
    var t := Trim(line);
    if t == [] || t[0] == '#' then None
    else
      var eq := IndexOf(t, '=');
      if eq == |t| then None else Some((Trim(t[..eq]), Unquote(Trim(t[eq + 1..]))))
  }

  /** One line of the file applied to the environment. */
  function ApplyLine(env: map<string, string>, line: string): map<string, string>
  {
    match Assignment(line)
    case None => env
    case Some((key, value)) =>
      if Getenv(env, key) == "" && SetenvAccepts(key, value) then env[key := value] else env
  }

  /** The lines of the file applied in order. */
  function ApplyLines(env: map<string, string>, lines: seq<string>): map<string, string>
  {
    if lines == [] then env else ApplyLine(ApplyLines(env, lines[..|lines| - 1]), lines[|lines| - 1])
  }

  /** The process environment that `loadEnvFile` reads and sets. */
  class Environment {
    var vars: map<string, string>

    constructor(initial: map<string, string>)
      ensures vars == initial
    {
      vars := initial;
    }

    /** `os.Setenv`: fails and changes nothing on a key or value it refuses. */
    method Setenv(key: string, value: string) returns (ok: bool)
      modifies this
      ensures ok == SetenvAccepts(key, value)
      ensures vars == if ok then old(vars)[key := value] else old(vars)
    {
      ok := key != [];
      for k := 0 to |key|
        invariant ok == (key != [] && forall j :: 0 <= j < k ==> key[j] != '=' && key[j] != 0 as char)
      {
        if key[k] == '=' || key[k] == 0 as char {
          ok := false;
        }
      }
      for k := 0 to |value|
        invariant ok == (SetenvAccepts(key, []) && forall j :: 0 <= j < k ==> value[j] != 0 as char)
      {
        if value[k] == 0 as char {
          ok := false;
        }
      }
      if ok {
        vars := vars[key := value];
      }
    }

    /** The body of the loop over the lines of the file. */
    method LoadLine(raw: string)
      modifies this
      ensures vars == ApplyLine(old(vars), raw)
    {
      var line := Trim(raw);
      if line != [] && line[0] != '#' {
        var eq := IndexOf(line, '=');
        if eq < |line| {
          var key := Trim(line[..eq]);
          var value := Trim(line[eq + 1..]);
          value := Unquote(value);
          assert Assignment(raw) == Some((key, value));
          if Getenv(vars, key) == "" {
            var _ := Setenv(key, value);
          }
        }
      }
    }

    /** `loadEnvFile`: file is the content of ".env", or None when it cannot be read. */
    method LoadEnvFile(file: Option<string>)
      modifies this
      ensures file.None? ==> vars == old(vars)
      ensures file.Some? ==> vars == ApplyLines(old(vars), SplitLines(file.value))
    {
      if file.None? {
        return;
      }
      var lines := SplitLines(file.value);
      for n := 0 to |lines|
        invariant vars == ApplyLines(old(vars), lines[..n])
      {
        assert lines[..n + 1][..n] == lines[..n];
        LoadLine(lines[n]);
      }
      assert lines[..|lines|] == lines;
    }
  }
}
