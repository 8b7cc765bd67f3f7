/** The A/B partition layout of the RP2350 flash, boot-partition detection, and the
    thin wrappers around boot-ROM calls (reboot, explicit buy, flash erase and program)
    of ota/ota.go. The ROM itself is foreign: it is injected as the `BootRom` and `Flash`
    objects below, whose fields say what the ROM answers and which record every call. */
module Partitions {
  import opened Common

  const PartitionA: int := 0
  const PartitionB: int := 1

  /** Flash erase block and program page. */
  const SectorSize: int := 4096
  const PageSize: int := 256

  /** Layout: partition table (8 KiB) | A (1984 KiB) | B (1984 KiB) | reserved. */
  const XipBase: int := 0x1000_0000
  const PartitionAOffset: int := 0x2000
  const PartitionBOffset: int := 0x1F_2000
  const PartitionMaxSize: int := 0x1F_0000

  /** Raw flash offset of a partition: 0 is A, every other value is B. */
  function PartitionOffset(partition: int): (r: int)
    ensures r == PartitionAOffset + (if partition == PartitionA then 0 else PartitionMaxSize)
    ensures r % SectorSize == 0
  {
    if partition == PartitionA then PartitionAOffset else PartitionBOffset
  }

  /** Execute-in-place address of a partition, as the reboot ROM call expects it. */
  function PartitionXipAddr(partition: int): (r: int)
    ensures r - XipBase == PartitionOffset(partition) && IsU32(r)
  {
    XipBase + PartitionOffset(partition)
  }

  /** Largest image either partition holds: 0x1F0000 = 1984 KiB = 496 sectors. */
  function PartitionMaxSizeBytes(): (r: int)
    ensures r == 1984 * 1024 && r == 496 * SectorSize
  {
    PartitionMaxSize
  }

  /** The byte range [lo, hi) of a partition's slot. */
  function PartitionEnd(partition: int): int
  {
    PartitionOffset(partition) + PartitionMaxSize
  }

  predicate InPartition(partition: int, offset: int)
  {
    PartitionOffset(partition) <= offset < PartitionEnd(partition)
  }

  /** A ends exactly where B starts, so the two slots are adjacent and never overlap,
      and both lie after the 8 KiB partition table and below 4 MiB. */
  lemma PartitionsAdjacentAndDisjoint(offset: int)
    ensures PartitionEnd(PartitionA) == PartitionOffset(PartitionB)
    ensures !(InPartition(PartitionA, offset) && InPartition(PartitionB, offset))
    ensures InPartition(PartitionA, offset) || InPartition(PartitionB, offset)
        <==> 0x2000 <= offset < 0x3E_2000
  {
  }

  /** The partition an update is written to: B when running from A, A otherwise. */
  function TargetPartition(current: int): (r: int)
    ensures r == PartitionA || r == PartitionB
    ensures r == PartitionB <==> current == PartitionA
    ensures r != current
  {
    if current == PartitionA then PartitionB else PartitionA
  }

  /** The update target and the running image occupy different slots whatever the
      boot diagnostics decoded to (0, 1, or another byte the ROM reported). */
  lemma TargetNeverRunningSlot(current: int, offset: int)
    requires current == PartitionA || current == PartitionB
    ensures !(InPartition(TargetPartition(current), offset) && InPartition(current, offset))
  {
  }

  /** What the ROM `get_sys_info` call yields: the lookup can fail, otherwise the call
      returns a status and fills a 5-word buffer (section 5.4.8.17 of the RP2350 datasheet:
      word 0 echoes the supported flags, word 1 is 0xttppbbdd with pp the boot partition). */
  datatype SysInfo = LookupFailed | SysInfoResult(ret: int, words: seq<int>)

  predicate ValidSysInfo(info: SysInfo)
  {
    info.SysInfoResult? ==> |info.words| == 5 && forall i :: 0 <= i < 5 ==> IsU32(info.words[i])
  }

  const SysInfoBootInfo: int := 0x40

  /** Bit 6 (0x40, BOOT_INFO) of a 32-bit word. */
  predicate HasBootInfoFlag(w: int) { (w / 0x40) % 2 == 1 }

  /** The 'pp' byte of word 1: (word1 >> 16) & 0xFF. */
  function BootPartitionByte(w: int): (r: int)
    requires IsU32(w)
    ensures 0 <= r < 256
  {
    (w / 0x1_0000) % 256
  }

  /** `ota_get_current_partition`: 0 (A) whenever the lookup fails, the call reports an
      error, BOOT_INFO is not flagged, or the partition byte is 0xFF ("none");
      otherwise that byte, unchecked, so values above 1 come through. */
  function DecodeCurrentPartition(info: SysInfo): (r: int)
    requires ValidSysInfo(info)
    ensures 0 <= r < 0xFF
    ensures r != 0 ==> info.SysInfoResult? && info.ret >= 0 && HasBootInfoFlag(info.words[0])
    ensures (info.SysInfoResult? && info.ret >= 0 && HasBootInfoFlag(info.words[0])
             && BootPartitionByte(info.words[1]) != 0xFF) ==> r == BootPartitionByte(info.words[1])
  {
    match info
    case LookupFailed => 0
    case SysInfoResult(ret, words) =>
      if ret < 0 then 0
      else if !HasBootInfoFlag(words[0]) then 0
      else if BootPartitionByte(words[1]) == 0xFF then 0
      else BootPartitionByte(words[1])
  }

  /** The flags of the reboot ROM call: REBOOT_TYPE_FLASH_UPDATE | NO_RETURN_ON_SUCCESS. */
  const RebootTypeFlashUpdate: int := 0x4
  const RebootNoReturnOnSuccess: int := 0x100

  /** One call of the ROM `reboot` function (section 5.4.8.24 of the RP2350 datasheet). */
  datatype RebootCall = RebootCall(flags: int, delayMs: int, p0: int, p1: int)

  /** The arguments `ota_reboot_to_partition` passes: flash-update reboot, 1000 ms delay,
      p0 the XIP address of the partition, p1 zero. */
  function RebootArgs(partition: int): (r: RebootCall)
    ensures r.flags == 0x104 && r.delayMs == 1000 && r.p1 == 0
    ensures r.p0 == XipBase + PartitionOffset(partition)
  {
    RebootCall(RebootTypeFlashUpdate + RebootNoReturnOnSuccess, 1000, PartitionXipAddr(partition), 0)
  }

  datatype ConfirmError = ErrConfirmFailed

  /** The boot ROM as seen through its function table. `None` is a failed lookup (the
      wrapper then reports -1, or partition A for get_sys_info); `Some(x)` is the value
      the ROM function returns. Reboot calls are recorded. */
  class BootRom {
    var rebootFn: Option<int>
    var explicitBuyFn: Option<int>
    var sysInfo: SysInfo
    var rebootCalls: seq<RebootCall>

    constructor (reboot: Option<int>, explicitBuy: Option<int>, info: SysInfo)
      requires ValidSysInfo(info)
      ensures rebootFn == reboot && explicitBuyFn == explicitBuy && sysInfo == info
      ensures rebootCalls == []
    {
      rebootFn, explicitBuyFn, sysInfo := reboot, explicitBuy, info;
      rebootCalls := [];
    }

    /** `ota_confirm_partition`: -1 when the lookup fails, else the ROM's result. */
    function ExplicitBuyResult(): int
      reads this
    {
      match explicitBuyFn
      case None => -1
      case Some(x) => x
    }
  }

  /** `GetCurrentPartition`. */
  function CurrentPartition(rom: BootRom): (r: int)
    reads rom
    requires ValidSysInfo(rom.sysInfo)
    ensures 0 <= r < 0xFF
  {
    DecodeCurrentPartition(rom.sysInfo)
  }

  /** `GetTargetPartition`: the complement of the decoded current partition. */
  function RomTargetPartition(rom: BootRom): (r: int)
    reads rom
    requires ValidSysInfo(rom.sysInfo)
    ensures r == PartitionA || r == PartitionB
    ensures r != CurrentPartition(rom)
  {
    TargetPartition(CurrentPartition(rom))
  }

  /** `ConfirmPartition`: success exactly when the explicit-buy ROM call returns 0;
      a failed lookup (-1) and every non-zero code become ErrConfirmFailed. */
  method ConfirmPartition(rom: BootRom) returns (err: Option<ConfirmError>)
    ensures err == None <==> rom.explicitBuyFn == Some(0)
  {
    var ret := rom.ExplicitBuyResult();
    if ret != 0 {
      return Some(ErrConfirmFailed);
    }
    return None;
  }

  /** The mutable state of ota/ota.go: the static `last_reboot_result` and the registered
      WiFi shutdown callback (counted, since its effect is foreign). */
  class Ota {
    var lastRebootResult: int
    var wifiShutdownRegistered: bool
    var wifiShutdownCalls: nat

    constructor ()
      ensures lastRebootResult == 0 && !wifiShutdownRegistered && wifiShutdownCalls == 0
    {
      lastRebootResult, wifiShutdownRegistered, wifiShutdownCalls := 0, false, 0;
    }

    /** `SetWiFiShutdown`. */
    method SetWiFiShutdown()
      modifies this
      ensures wifiShutdownRegistered
      ensures lastRebootResult == old(lastRebootResult) && wifiShutdownCalls == old(wifiShutdownCalls)
    {
      wifiShutdownRegistered := true;
    }

    /** `RebootToPartition`: runs the shutdown callback, then calls the ROM reboot with
        RebootArgs(partition) and stores its result. `returned` is false when the ROM
        accepted (result 0): the device then resets and the call never returns. */
    method RebootToPartition(rom: BootRom, partition: int) returns (returned: bool)
      modifies this, rom
      ensures wifiShutdownRegistered == old(wifiShutdownRegistered)
      ensures wifiShutdownCalls == old(wifiShutdownCalls) + (if wifiShutdownRegistered then 1 else 0)
      ensures rom.rebootFn == old(rom.rebootFn) && rom.explicitBuyFn == old(rom.explicitBuyFn)
      ensures rom.sysInfo == old(rom.sysInfo)
      ensures rom.rebootCalls == old(rom.rebootCalls)
                                 + (if rom.rebootFn.Some? then [RebootArgs(partition)] else [])
      ensures lastRebootResult == (if rom.rebootFn.Some? then rom.rebootFn.value else -1)
      ensures returned <==> lastRebootResult != 0
    {
      if wifiShutdownRegistered {
        wifiShutdownCalls := wifiShutdownCalls + 1;
      }
      if rom.rebootFn.None? {
        lastRebootResult := -1;
      } else {
        rom.rebootCalls := rom.rebootCalls + [RebootArgs(partition)];
        lastRebootResult := rom.rebootFn.value;
      }
      returned := lastRebootResult != 0;
    }

    /** `GetRebootResult`. */
    function RebootResult(): int
      reads this
    {
      lastRebootResult
    }
  }

  /** One flash operation as issued to the ROM: erase `count` bytes, or program `data`,
      both at a raw offset from the start of flash. */
  datatype FlashOp = Erase(offset: int, count: int) | Program(offset: int, data: seq<Byte>)

  /** The flash as an injected capability: whether the ROM flash routines were found
      (when one is missing the wrappers silently do nothing), and the log of operations
      issued, from which the flash contents follow (see ByteAt). */
  class Flash {
    var romAvailable: bool
    var ops: seq<FlashOp>

    constructor (available: bool)
      ensures romAvailable == available && ops == []
    {
      romAvailable, ops := available, [];
    }

    /** `WriteChunk`: nothing for empty data; never reports an error. */
    method WriteChunk(offset: int, data: seq<Byte>)
      modifies this
      ensures romAvailable == old(romAvailable)
      ensures ops == old(ops) + (if |data| > 0 && romAvailable then [Program(offset, data)] else [])
    {
      if |data| == 0 {
        return;
      }
      if romAvailable {
        ops := ops + [Program(offset, data)];
      }
    }

    /** `EraseSector`: exactly one 4096-byte sector at the raw offset; never an error. */
    method EraseSector(offset: int)
      modifies this
      ensures romAvailable == old(romAvailable)
      ensures ops == old(ops) + (if romAvailable then [Erase(offset, SectorSize)] else [])
    {
      if romAvailable {
        ops := ops + [Erase(offset, SectorSize)];
      }
    }

    /** `ErasePartition`: the whole 1984 KiB slot; never an error. */
    method ErasePartition(partition: int)
      modifies this
      ensures romAvailable == old(romAvailable)
      ensures ops == old(ops) + (if romAvailable then [Erase(PartitionOffset(partition), PartitionMaxSize)] else [])
    {
      var offset := PartitionOffset(partition);
      var maxSize := PartitionMaxSizeBytes();
      if romAvailable {
        ops := ops + [Erase(offset, maxSize)];
      }
    }
  }

  /** NOR-flash semantics: erasing sets bytes to 0xFF, programming can only clear bits. */
  function ProgramByte(old_: Byte, d: Byte): Byte
  {
    ((old_ as bv8) & (d as bv8)) as int
  }

  /** The byte at `addr` after applying `ops` to a flash whose byte there was `initial`. */
  function ByteAt(ops: seq<FlashOp>, addr: int, initial: Byte): Byte
  {
    if ops == [] then initial
    else
      var before := ByteAt(ops[..|ops| - 1], addr, initial);
      match ops[|ops| - 1]
      case Erase(o, c) => if o <= addr < o + c then 0xFF else before
      case Program(o, d) => if o <= addr < o + |d| then ProgramByte(before, d[addr - o]) else before
  }

  /** Programming an erased byte stores exactly the data byte. */
  lemma ProgramErased(d: Byte)
    ensures ProgramByte(0xFF, d) == d
  {
    assert (0xFF as bv8) & (d as bv8) == d as bv8;
  }
}
