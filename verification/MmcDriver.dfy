/**
 The eMMC driver above the command engine: mounting a card, the driver's copy of EXT_CSD, partition selection
 (emmc_init.c, emmc_mount.c, emmc_utility.c) and chunked multi-block writes (emmc_write.c). The card is a small
 abstract model; every command may succeed or fail, and a command that fails may have taken effect or not.
 */
module MmcDriver {
  import opened Words
  import opened CardRegister
  import opened MmcCommand

  type U8 = b: nat | b < 256

  const EXT_CSD_PARTITION_CONFIG := 179
  const EXT_CSD_BUS_WIDTH := 183
  const EXT_CSD_HS_TIMING := 185
  const EXT_CSD_CARD_TYPE := 196
  const RW_SECTOR_COUNT_MAX := 0xFFFF
  const CMD1_TIMEOUT := 3000
  const STATE_TRAN := 4

  // clock divisors of 133 MHz
  const MMC_400KHZ := 512
  const MMC_20MHZ := 8
  const MMC_26MHZ := 8
  const MMC_52MHZ := 4

  function Zeros(n: nat): (s: seq<U8>)
    ensures |s| == n
  {
    seq(n, _ => 0)
  }

  // ---------- the card ----------

  /** The effect of CMD6 on EXT_CSD: bits 25..24 of the argument choose how the byte at bits 23..16 changes. */
  function Switched(e: seq<U8>, arg: Uint32): (r: seq<U8>)
    requires |e| == 512
    ensures |r| == 512
  {
    var access, index, value := arg / 0x100_0000 % 4, arg / 0x1_0000 % 256, arg / 0x100 % 256;
    if access == 3 then e[index := value]
    else if access == 1 then e[index := Or(e[index], value) % 256]
    else if access == 2 then e[index := And(e[index], 255 - value)]
    else e
  }

  /** An area after n 512-byte sectors from `sector` on were written from `src`, starting at `at`. */
  function Written(area: seq<Byte>, sector: nat, src: seq<Byte>, at: nat, n: nat): (r: seq<Byte>)
    requires at + 512 * n <= |src|
    ensures |r| == |area|
  {
    seq(|area|, j requires 0 <= j < |area| =>
      if 512 * sector <= j < 512 * (sector + n) then src[at + (j - 512 * sector)] else area[j])
  }

  /** SEC_COUNT is a 32-bit field, so an area has fewer than 2^32 sectors. */
  predicate SmallArea(area: seq<Byte>) {
    |area| < 0x200_0000_0000
  }

  /** A CMD23/CMD25 pair that the card accepted. */
  datatype Chunk = Chunk(sector: nat, at: nat, count: nat)

  class Card {
    var extCsd: seq<U8>
    var areas: seq<seq<Byte>>   // user area, boot partitions, ..., by PARTITION_ACCESS
    var blockCount: nat         // from CMD23, for the next CMD25
    var switchError: bool       // a rejected CMD6, reported by the next status
    ghost var chunks: seq<Chunk>

    constructor (extCsd: seq<U8>, areas: seq<seq<Byte>>)
      requires |extCsd| == 512 && |areas| == 8 && forall p :: 0 <= p < 8 ==> SmallArea(areas[p])
      ensures Valid() && this.extCsd == extCsd && this.areas == areas && chunks == []
    {
      this.extCsd, this.areas, blockCount, switchError, chunks := extCsd, areas, 0, false, [];
    }

    ghost predicate Valid()
      reads this
    {
      |extCsd| == 512 && |areas| == 8 && forall p :: 0 <= p < 8 ==> SmallArea(areas[p])
    }

    function Access(): (p: nat)
      requires Valid()
      reads this
      ensures p < 8
    {
      extCsd[EXT_CSD_PARTITION_CONFIG] % 8
    }

    /** CMD0 resets the modes, and with them parts of EXT_CSD. */
    method GoIdle()
      requires Valid()
      modifies `extCsd, `blockCount, `switchError
      ensures Valid()
    {
      assert |seq<U8>(512, _ => 0)| == 512;
      var e: seq<U8> :| |e| == 512;
      extCsd, blockCount, switchError := e, 0, *;
    }

    /** CMD6 takes effect, or is rejected and noted for the next status. */
    method Switch(arg: Uint32)
      requires Valid()
      modifies `extCsd, `switchError
      ensures Valid()
      ensures || (extCsd == Switched(old(extCsd), arg) && switchError == old(switchError))
              || (extCsd == old(extCsd) && switchError)
    {
      if * {
        extCsd := Switched(extCsd, arg);
      } else {
        switchError := true;
      }
    }

    /** CMD25 for the blocks announced by CMD23: all of them on success, some first ones otherwise. */
    method Write(sector: nat, src: seq<Byte>, at: nat, count: nat) returns (ok: bool)
      requires Valid() && at + 512 * count <= |src|
      modifies `areas, `blockCount, `chunks
      ensures Valid() && (forall p :: 0 <= p < 8 && p != Access() ==> areas[p] == old(areas)[p])
      ensures exists n: nat :: n <= count && areas[Access()] == Written(old(areas)[Access()], sector, src, at, n)
      ensures ok ==> areas[Access()] == Written(old(areas)[Access()], sector, src, at, count)
      ensures ok ==> old(blockCount) == count && 512 * (sector + count) <= |areas[Access()]|
      ensures chunks == if ok then old(chunks) + [Chunk(sector, at, count)] else old(chunks)
    {
      var n: nat :| n <= count;
      ok := n == count && blockCount == count && 512 * (sector + count) <= |areas[Access()]|;
      areas := areas[Access() := Written(areas[Access()], sector, src, at, n)];
      assert areas[Access()] == Written(old(areas)[Access()], sector, src, at, n);
      blockCount := 0;
      if ok {
        chunks := chunks + [Chunk(sector, at, count)];
      }
    }
  }

  // ---------- the commands sent ----------

  /** One call of emmc_exec_cmd: the command index, its argument, the result, and the card status kept after it. */
  datatype Answered = Answered(index: nat, arg: Uint32, code: Code, status: Uint32)

  type Plan = seq<(nat, Uint32)>

  function Commands(t: seq<Answered>): (p: Plan)
    ensures |p| == |t|
  {
    seq(|t|, i requires 0 <= i < |t| => (t[i].index, t[i].arg))
  }

  predicate AllOk(t: seq<Answered>) {
    forall i :: 0 <= i < |t| ==> t[i].code == Success
  }

  /** The commands of the plan are sent in order, and none after one that failed. */
  predicate Sends(t: seq<Answered>, plan: Plan) {
    Commands(t) <= plan && forall i :: 0 <= i < |t| - 1 ==> t[i].code == Success
  }

  function LastCode(t: seq<Answered>): Code {
    if t == [] then Success else t[|t| - 1].code
  }

  lemma SendsMore(t: seq<Answered>, plan: Plan, u: seq<Answered>, rest: Plan)
    requires Sends(t, plan) && AllOk(t) && |t| == |plan| && Sends(u, rest)
    ensures Sends(t + u, plan + rest) && (AllOk(t + u) <==> AllOk(u))
    ensures u != [] ==> LastCode(t + u) == LastCode(u)
  {
    assert Commands(t) == plan;
    assert forall i :: 0 <= i < |u| ==> (t + u)[|t| + i] == u[i];
  }

  lemma SendsPart(t: seq<Answered>, plan: Plan, rest: Plan)
    requires Sends(t, plan)
    ensures Sends(t, plan + rest)
  {
  }

  lemma NothingSent(plan: Plan)
    ensures Sends([], plan) && AllOk([])
  {
  }

  lemma OneMoreSent(t: seq<Answered>, plan: Plan, a: Answered)
    requires Sends(t, plan) && AllOk(t) && |t| < |plan| && plan[|t|] == (a.index, a.arg)
    ensures Sends(t + [a], plan) && (AllOk(t + [a]) <==> a.code == Success) && LastCode(t + [a]) == a.code
  {
    assert (t + [a])[|t|] == a;
    assert forall i :: 0 <= i < |t| ==> (t + [a])[i] == t[i];
  }

  const RCA: Uint32 := 0x1_0000
  const HOST_OCR: Uint32 := 0x40FF_8080

  /** CMD1, n times. */
  function PollPlan(n: nat): (p: Plan)
    ensures |p| == n
  {
    seq(n, _ => (1, 0x40FF_8080))
  }

  lemma OneMorePoll(t: seq<Answered>, a: Answered)
    requires Sends(t, PollPlan(|t|)) && AllOk(t) && (a.index, a.arg) == (1, 0x40FF_8080)
    ensures Sends(t + [a], PollPlan(|t + [a]|)) && (AllOk(t + [a]) <==> a.code == Success)
    ensures LastCode(t + [a]) == a.code
  {
    hide Sends, AllOk, LastCode;
    SendsPart(t, PollPlan(|t|), [(1, 0x40FF_8080)]);
    assert PollPlan(|t|) + [(1, 0x40FF_8080)] == PollPlan(|t| + 1);
    OneMoreSent(t, PollPlan(|t| + 1), a);
  }

  const SELECT_PLAN: Plan := [(2, 0), (3, 0x1_0000), (9, 0x1_0000), (7, 0x1_0000)]
  const SETUP_PLAN: Plan := [(16, 512), (8, 0)]
  const HIGH_SPEED_PLAN: Plan := [(6, 0x03B9_0100), (13, 0x1_0000)]

  function SwitchPlan(arg: Uint32): Plan {
    [(6, arg), (13, 0x1_0000), (8, 0)]
  }

  function IdentifyPlan(polls: nat): Plan {
    PollPlan(polls) + SELECT_PLAN
  }

  /** The commands of a card initialization with this number of CMD1 polls. */
  function InitPlan(polls: nat): Plan {
    [(0, 0)] + (IdentifyPlan(polls) + SETUP_PLAN)
  }

  /** The commands of a mount: the initialization, high-speed timing, and 8-bit width. */
  function MountPlan(polls: nat): Plan {
    InitPlan(polls) + HIGH_SPEED_PLAN + SwitchPlan(0x03B7_0200)
  }

  // ---------- the commands of a write ----------

  /** The commands of one chunk. */
  function BlockPlan(sector: nat, count: nat): Plan {
    if sector < TWO_32 && count <= 65535 then
      [(16, 512), (23, 0x8000_0000 + count), (25, sector), (13, 0x1_0000)]
    else []
  }

  function WritePlan(chunks: seq<Chunk>): Plan {
    if chunks == [] then [] else BlockPlan(chunks[0].sector, chunks[0].count) + WritePlan(chunks[1..])
  }

  /** What a write makes of one answer: after CMD13 the card must be ready, and in the transfer state. */
  function Verdict(a: Answered): Code {
    if a.code != Success then a.code
    else if a.index == 13 && Bits(a.status, 8, 8) == 0 then ErrCardBusy
    else if a.index == 13 && Bits(a.status, 12, 9) != 4 then ErrCardState
    else Success
  }

  predicate AllFine(t: seq<Answered>) {
    forall i :: 0 <= i < |t| ==> Verdict(t[i]) == Success
  }

  /** The commands of the plan are sent in order, and none after an answer that is not fine. */
  predicate SendsBlocks(t: seq<Answered>, plan: Plan) {
    Commands(t) <= plan && forall i :: 0 <= i < |t| - 1 ==> Verdict(t[i]) == Success
  }

  lemma NoBlocks(plan: Plan)
    ensures SendsBlocks([], plan) && AllFine([])
  {
  }

  lemma OneMoreBlock(t: seq<Answered>, plan: Plan, a: Answered)
    requires SendsBlocks(t, plan) && AllFine(t) && |t| < |plan| && plan[|t|] == (a.index, a.arg)
    ensures SendsBlocks(t + [a], plan) && (AllFine(t + [a]) <==> Verdict(a) == Success)
    ensures a.code != Success ==> Verdict(a) == a.code
    ensures a.code == Success && a.index != 13 ==> Verdict(a) == Success
    ensures a.code == Success && a.index == 13 ==>
      (Verdict(a)
       == if Bits(a.status, 8, 8) == 0 then ErrCardBusy
          else if Bits(a.status, 12, 9) != 4 then ErrCardState
          else Success)
  {
    hide Bits;
    assert (t + [a])[|t|] == a;
    assert forall i :: 0 <= i < |t| ==> (t + [a])[i] == t[i];
  }

  lemma MoreBlocks(t: seq<Answered>, plan: Plan, u: seq<Answered>, sector: nat, at: nat, remain: nat)
    requires SendsBlocks(t, plan) && AllFine(t) && |t| == |plan| && remain > 0 && sector < TWO_32 && u != []
    requires var n := if remain < RW_SECTOR_COUNT_MAX then remain else RW_SECTOR_COUNT_MAX;
      SendsBlocks(u, BlockPlan(sector, n)) && (Verdict(u[|u| - 1]) == Success ==> |u| == 4)
    ensures var n := if remain < RW_SECTOR_COUNT_MAX then remain else RW_SECTOR_COUNT_MAX;
      var next := BlockPlan(sector, n);
      var rest := WritePlan(Chunks(sector + n, at + 512 * n, remain - n));
      && WritePlan(Chunks(sector, at, remain)) == next + rest
      && plan + WritePlan(Chunks(sector, at, remain)) == (plan + next) + rest
      && SendsBlocks(t + u, plan + next) && SendsBlocks(t + u, (plan + next) + rest)
      && (Verdict(u[|u| - 1]) == Success ==> AllFine(t + u) && |t + u| == |plan + next|)
      && (t + u)[|t + u| - 1] == u[|u| - 1]
  {
    hide Chunks, Verdict;
    var n := if remain < RW_SECTOR_COUNT_MAX then remain else RW_SECTOR_COUNT_MAX;
    ChunksNext(sector, at, remain);
    var c := Chunk(sector, at, n);
    assert ([c] + Chunks(sector + n, at + 512 * n, remain - n))[1..] == Chunks(sector + n, at + 512 * n, remain - n);
    assert Commands(t) == plan;
    assert Commands(t + u) == Commands(t) + Commands(u);
  }

  lemma NoMoreBlocks(t: seq<Answered>, plan: Plan, sector: nat, at: nat)
    requires AllFine(t)
    ensures plan + WritePlan(Chunks(sector, at, 0)) == plan
    ensures t != [] ==> Verdict(t[|t| - 1]) == Success
  {
  }

  // ---------- the driver object ----------

  class Driver {
    const card: Card
    const ram: array<Byte>
    var initialize: bool
    var cardPowerEnable: bool
    var clockEnable: bool
    var mount: bool
    var selected: bool
    var currentFreq: nat
    var maxFreq: nat
    var busWidth: nat
    var hsTiming: nat
    var csdData: seq<nat>
    var extCsdData: seq<U8>
    var r1CardStatus: Uint32
    var r3Ocr: Uint32
    var currentState: nat
    ghost var answers: seq<Answered>   // the commands sent so far
    ghost var busySeen: nat            // how often a check of SD_INFO2_CBSY found the controller busy

    constructor (card: Card, ram: array<Byte>)
      requires card.Valid()
      ensures Valid() && this.card == card && this.ram == ram && !mount
    {
      this.card, this.ram := card, ram;
      initialize, cardPowerEnable, clockEnable, mount, selected := false, false, false, false, false;
      currentFreq, maxFreq, busWidth, hsTiming := 0, 0, 0, 0;
      csdData, extCsdData := Zeros(16), Zeros(512);
      r1CardStatus, r3Ocr, currentState := 0, 0, 0;
      answers, busySeen := [], 0;
    }

    ghost predicate Valid()
      reads this, card
    {
      card.Valid() && |extCsdData| == 512 && |csdData| == 16 && AreBytes(csdData)
    }

    /** The driver's copy of EXT_CSD is the card's. */
    ghost predicate Agrees()
      reads `extCsdData, card
    {
      extCsdData == card.extCsd
    }

    /** What a mounted card relies on. */
    ghost predicate MountSafe()
      reads this
    {
      mount ==> initialize && cardPowerEnable && selected
    }

    ghost predicate ClockSafe()
      reads this
    {
      mount ==> clockEnable
    }

    /** SD_INFO2_CBSY. */
    method Busy() returns (b: bool)
      modifies `busySeen
      ensures busySeen == if b then old(busySeen) + 1 else old(busySeen)
    {
      b := *;
      busySeen := if b then busySeen + 1 else busySeen;
    }

    // ---------- commands ----------

    ghost method Note(index: nat, arg: Uint32, code: Code)
      modifies `answers
      ensures answers == old(answers) + [Answered(index, arg, code, r1CardStatus)]
    {
      answers := answers + [Answered(index, arg, code, r1CardStatus)];
    }

    /** The result of one emmc_exec_cmd: without a clock a state error, otherwise any result of a started command. */
    method Answer() returns (r: Code)
      ensures r == ErrState <==> !clockEnable
      ensures clockEnable ==> RunCode(r)
    {
      if !clockEnable {
        return ErrState;
      }
      r := *;
      if !RunCode(r) {
        r := ErrResponse;
      }
    }

    /** A command without an effect that is modelled. */
    method Exec(index: nat, arg: Uint32) returns (r: Code)
      modifies `answers
      ensures answers == old(answers) + [Answered(index, arg, r, r1CardStatus)]
      ensures (r == ErrState <==> !clockEnable) && (clockEnable ==> RunCode(r))
    {
      r := Answer();
      Note(index, arg, r);
    }

    /** CMD0. */
    method ExecGoIdle(arg: Uint32) returns (r: Code)
      requires Valid()
      modifies `answers, card`extCsd, card`blockCount, card`switchError
      ensures Valid() && answers == old(answers) + [Answered(0, arg, r, r1CardStatus)]
      ensures (r == ErrState <==> !clockEnable) && (clockEnable ==> RunCode(r))
    {
      r := Exec(0, arg);
      if r != ErrState {
        card.GoIdle();
      }
    }

    /** CMD1. */
    method ExecOpCond() returns (r: Code)
      modifies `r3Ocr, `answers
      ensures answers == old(answers) + [Answered(1, HOST_OCR, r, r1CardStatus)]
      ensures (r == ErrState <==> !clockEnable) && (clockEnable ==> RunCode(r))
    {
      r := Exec(1, HOST_OCR);
      r3Ocr := *;
    }

    /** CMD9 into the CSD buffer. */
    method ExecSendCsd() returns (r: Code)
      modifies `csdData, `answers
      ensures |csdData| == 16 && AreBytes(csdData)
      ensures answers == old(answers) + [Answered(9, RCA, r, r1CardStatus)]
      ensures (r == ErrState <==> !clockEnable) && (clockEnable ==> RunCode(r))
    {
      r := Exec(9, RCA);
      csdData := AnyBytes(16);
    }

    /**
     CMD8 into the driver's copy of EXT_CSD: SUCCESS is taken to mean that
     the data came; else the copy holds anything.
     */
    method ExecSendExtCsd() returns (r: Code)
      requires Valid()
      modifies `extCsdData, `answers
      ensures Valid() && (r == Success ==> Agrees())
      ensures answers == old(answers) + [Answered(8, 0, r, r1CardStatus)]
      ensures (r == ErrState <==> !clockEnable) && (clockEnable ==> RunCode(r))
    {
      r := Exec(8, 0);
      var received := AnyBytes(512);
      extCsdData := if r == Success then card.extCsd else received;
    }

    /** CMD6. */
    method ExecSwitch(arg: Uint32) returns (r: Code)
      requires Valid()
      modifies `answers, card`extCsd, card`switchError
      ensures Valid() && answers == old(answers) + [Answered(6, arg, r, r1CardStatus)]
      ensures (r == ErrState <==> !clockEnable) && (clockEnable ==> RunCode(r))
      ensures card.extCsd == Switched(old(card.extCsd), arg) || card.extCsd == old(card.extCsd)
      ensures r == Success ==> card.extCsd == Switched(old(card.extCsd), arg) || card.switchError
    {
      r := Exec(6, arg);
      var received: bool := *;
      if r == Success || (r != ErrState && received) {
        card.Switch(arg);
      }
    }

    /** CMD13: the status reports a rejected switch as an error. */
    method ExecSendStatus() returns (r: Code)
      modifies `r1CardStatus, `currentState, `answers, card`switchError
      ensures answers == old(answers) + [Answered(13, RCA, r, r1CardStatus)]
      ensures r == Success ==> !old(card.switchError)
      ensures r == Success ==> currentState == CardState(r1CardStatus)
      ensures (r == ErrState <==> !clockEnable) && (clockEnable ==> RunCode(r))
    {
      hide CardState;
      r := Answer();
      if r == Success && card.switchError {
        r := ErrCardStatusBit;
      }
      if r != ErrState {
        r1CardStatus, card.switchError := *, false;
        currentState := CardState(r1CardStatus);
      }
      Note(13, RCA, r);
    }

    /** CMD23 with the reliable-write bit and a 16-bit count. */
    method ExecSetBlockCount(arg: Uint32) returns (r: Code)
      requires Valid()
      modifies `answers, card`blockCount
      ensures Valid() && (r == Success ==> card.blockCount == arg % 0x1_0000)
      ensures answers == old(answers) + [Answered(23, arg, r, r1CardStatus)]
    {
      r := Exec(23, arg);
      card.blockCount := *;
      if r == Success {
        card.blockCount := arg % 0x1_0000;
      }
    }

    /** CMD25: SUCCESS is taken to mean that all blocks are stored. */
    method ExecWriteMultiple(sector: Uint32, at: nat, count: nat) returns (r: Code)
      requires Valid() && at + 512 * count <= ram.Length
      modifies `answers, card`areas, card`blockCount, card`chunks
      ensures Valid() && PartWritten(card.areas, old(card.areas), card.Access(), sector, ram[..], at, count)
      ensures answers == old(answers) + [Answered(25, sector, r, r1CardStatus)]
      ensures r == Success ==>
        && card.areas[card.Access()] == Written(old(card.areas)[card.Access()], sector, ram[..], at, count)
        && old(card.blockCount) == count && 512 * (sector + count) <= |card.areas[card.Access()]|
        && card.chunks == old(card.chunks) + [Chunk(sector, at, count)]
      ensures r != Success ==>
        card.chunks == old(card.chunks) || card.chunks == old(card.chunks) + [Chunk(sector, at, count)]
    {
      r := Answer();
      if r != ErrState {
        var ok := card.Write(sector, ram[..], at, count);
        if !ok && r == Success {
          r := ErrInfo2;
        }
      } else {
        NothingWritten(card.areas, card.Access(), sector, ram[..], at, count);
      }
      Note(25, sector, r);
    }

    // ---------- emmc_init.c ----------

    /** emmc_init: the driver object is zeroed, and the host set up with its clock off. */
    method Init()
      requires Valid()
      modifies this
      ensures answers == old(answers) && busySeen == old(busySeen)
      ensures Valid() && initialize && !mount && !cardPowerEnable && !clockEnable && !selected && DataCleared()
    {
      Clear();
      initialize := true;
    }

    /** The frequencies, modes and register copies are zero. */
    ghost predicate DataCleared()
      reads this
    {
      && currentFreq == maxFreq == busWidth == hsTiming == 0 && r1CardStatus == r3Ocr == currentState == 0
      && csdData == Zeros(16) && extCsdData == Zeros(512)
    }

    /** emmc_memset on the driver object. */
    method Clear()
      modifies this
      ensures answers == old(answers) && busySeen == old(busySeen)
      ensures !initialize && !cardPowerEnable && !clockEnable && !mount && !selected && DataCleared()
    {
      ClearRegisters();
      currentFreq, maxFreq, busWidth, hsTiming := 0, 0, 0, 0;
      initialize, cardPowerEnable, clockEnable, mount, selected := false, false, false, false, false;
    }

    method ClearRegisters()
      modifies `csdData, `extCsdData, `r1CardStatus, `r3Ocr, `currentState
      ensures r1CardStatus == r3Ocr == currentState == 0 && csdData == Zeros(16) && extCsdData == Zeros(512)
    {
      csdData, extCsdData := Zeros(16), Zeros(512);
      r1CardStatus, r3Ocr, currentState := 0, 0, 0;
    }

    /** emmc_memcard_power. */
    method MemcardPower(on: bool)
      modifies `cardPowerEnable, `mount, `selected
      ensures cardPowerEnable == on
      ensures mount == (on && old(mount)) && selected == (on && old(selected))
      ensures old(MountSafe()) ==> MountSafe()
      ensures old(ClockSafe()) ==> ClockSafe()
    {
      cardPowerEnable := on;
      if !on {
        mount, selected := false, false;
      }
    }

    /** emmc_terminate: the card is powered off and the driver object zeroed, whatever state it was in. */
    method Terminate() returns (r: Code)
      requires Valid()
      modifies this
      ensures r == Success && Valid() && MountSafe() && ClockSafe()
      ensures answers == old(answers) && busySeen == old(busySeen)
      ensures !initialize && !cardPowerEnable && !clockEnable && !mount && !selected && DataCleared()
    {
      MemcardPower(false);
      Clear();
      r := Success;
    }

    // ---------- emmc_mount.c ----------

    /** emmc_clock_ctrl. */
    method ClockCtrl(on: bool) returns (r: Code)
      modifies `clockEnable, `busySeen
      ensures || (r == Success && clockEnable == on && busySeen == old(busySeen))
              || (r == Err && clockEnable == old(clockEnable) && busySeen == old(busySeen) + 1)
    {
      var busy := Busy();
      if busy {
        return Err;
      }
      clockEnable, r := on, Success;
    }

    /** emmc_set_request_mmc_clock. */
    method SetRequestClock(freq: nat) returns (r: Code)
      modifies `clockEnable, `currentFreq, `busySeen
      ensures r == ErrState <==> !(initialize && cardPowerEnable)
      ensures r == Success <==> initialize && cardPowerEnable && busySeen == old(busySeen)
      ensures r == Err <==> initialize && cardPowerEnable && busySeen == old(busySeen) + 1
      ensures r == Success || r == Err || r == ErrState
      ensures r == Success ==> clockEnable && currentFreq == freq
      ensures r == Err && clockEnable ==> old(clockEnable) && currentFreq == old(currentFreq)
      ensures r == ErrState ==>
        clockEnable == old(clockEnable) && currentFreq == old(currentFreq) && busySeen == old(busySeen)
    {
      if !initialize || !cardPowerEnable {
        return ErrState;
      }
      if clockEnable && currentFreq == freq {
        return Success;
      }
      var busy := Busy();
      if busy {
        return Err;
      }
      currentFreq, clockEnable := freq, false;
      r := ClockCtrl(true);
    }

    /** emmc_send_idle_cmd (emmc_utility.c). */
    method SendIdle(arg: Uint32) returns (r: Code, ghost t: seq<Answered>)
      requires Valid()
      modifies `mount, `selected, `busWidth, `maxFreq, `currentState, `clockEnable, `currentFreq, `answers, `busySeen,
        card`extCsd, card`blockCount, card`switchError
      ensures Valid() && !mount && !selected && busWidth == 0 && maxFreq == 8 && currentState == 0
      ensures r == Success ==> clockEnable && currentFreq == 512
      ensures answers == old(answers) + t && |t| == 1 && Sends(t, [(0, arg)])
      ensures r == if t[0].code != Success then t[0].code
                   else if !initialize || !cardPowerEnable then ErrState
                   else if busySeen == old(busySeen) then Success else Err
      ensures !AllOk(t) ==>
        busySeen == old(busySeen) && (r == ErrState || RunCode(r)) && (old(clockEnable) ==> RunCode(r))
      ensures busySeen == old(busySeen) || busySeen == old(busySeen) + 1
    {
      hide Sends, AllOk, LastCode;
      t := [];
      NothingSent([(0, arg)]);
      mount, selected := false, false;
      busWidth, maxFreq, currentState := 0, MMC_20MHZ, 0;
      r := ExecGoIdle(arg);
      OneMoreSent(t, [(0, arg)], Answered(0, arg, r, r1CardStatus));
      t := t + [Answered(0, arg, r, r1CardStatus)];
      assert answers == old(answers) + t;
      if r != Success {
        return;
      }
      r := SetRequestClock(MMC_400KHZ);
    }

    /** The CMD1 loop: up to CMD1_TIMEOUT times, until a command fails or the card has powered up. */
    method WaitPowerUp() returns (r: Code, ghost t: seq<Answered>)
      modifies `r3Ocr, `answers
      ensures answers == old(answers) + t && 1 <= |t| <= 3000 && Sends(t, PollPlan(|t|))
      ensures !AllOk(t) ==> LastCode(t) != Success && (clockEnable ==> RunCode(r))
      ensures r == if !AllOk(t) then LastCode(t) else if PoweredUp(r3Ocr) then Success else ErrTimeout
      ensures AllOk(t) && !PoweredUp(r3Ocr) ==> |t| == 3000
    {
      hide PoweredUp, Sends, AllOk, LastCode, PollPlan;
      var retry := CMD1_TIMEOUT;
      t := [];
      NothingSent(PollPlan(0));
      while retry > 0
        invariant |t| + retry == 3000 && 0 <= retry
        invariant answers == old(answers) + t && Sends(t, PollPlan(|t|)) && AllOk(t)
        invariant t != [] ==> !PoweredUp(r3Ocr)
      {
        r := ExecOpCond();
        OneMorePoll(t, Answered(1, HOST_OCR, r, r1CardStatus));
        t := t + [Answered(1, HOST_OCR, r, r1CardStatus)];
        assert answers == old(answers) + t;
        if r != Success || PoweredUp(r3Ocr) {
          return;
        }
        retry := retry - 1;
      }
      r := ErrTimeout;
    }

    /**
     What the driver asks of a card: powered up, sector mode, version 4 or later, and a speed that is not
     reserved.
     */
    predicate CardOk()
      reads `r3Ocr, `csdData
    {
      PowerOk() && VersionOk() && SpeedOk()
    }

    predicate PowerOk()
      reads `r3Ocr
    {
      Bits(r3Ocr, 31, 31) == 1 && Bits(r3Ocr, 30, 29) == 2
    }

    predicate VersionOk()
      reads `csdData
    {
      Bits(Value(csdData), 125, 122) >= 4
    }

    predicate SpeedOk()
      reads `csdData
    {
      var speed := Bits(Value(csdData), 103, 96);
      speed % 8 <= 3 && speed / 8 % 16 != 0
    }

    /** The reasons for which the card initialization stops although no command failed. */
    predicate InitStops(r: Code, busy: bool)
      reads `initialize, `cardPowerEnable, `r3Ocr, `csdData
    {
      match r
      case Success => initialize && cardPowerEnable && !busy && CardOk()
      case ErrState => busy || !initialize || !cardPowerEnable
      case Err => busy || (Bits(r3Ocr, 31, 31) == 1 && Bits(r3Ocr, 30, 29) != 2)
      case ErrTimeout => Bits(r3Ocr, 31, 31) != 1
      case ErrIllegalCard => PowerOk() && (!VersionOk() || !SpeedOk())
      case _ => false
    }

    /** emmc_card_init. */
    method CardInit() returns (r: Code, ghost t: seq<Answered>, ghost polls: nat)
      requires Valid()
      modifies this`mount, `selected, `busWidth, `maxFreq, `currentState, `clockEnable, `currentFreq, `r3Ocr, `csdData,
        `extCsdData, `r1CardStatus, `answers, `busySeen, card`extCsd, card`blockCount, card`switchError
      ensures Valid()
      ensures mount ==> old(mount) && selected == old(selected) && r != Success
      ensures mount ==> card.extCsd == old(card.extCsd) && extCsdData == old(extCsdData)
      ensures r == Success ==> initialize && cardPowerEnable && selected && clockEnable && Agrees()
      ensures r == Success ==> currentFreq == maxFreq && TranSpeed(Bits(Value(csdData), 103, 96)) == Some(maxFreq)
      ensures answers == old(answers) + t && 1 <= polls <= 3000 && Sends(t, InitPlan(polls))
      ensures r == Success ==> |t| == |InitPlan(polls)|
      ensures busySeen == old(busySeen) || busySeen == old(busySeen) + 1
      ensures r == ErrTimeout || r == ErrIllegalCard ==> busySeen == old(busySeen)
      ensures if AllOk(t) then InitStops(r, busySeen != old(busySeen))
              else r == LastCode(t) && (r == ErrState || RunCode(r)) && r != Success && busySeen == old(busySeen)
    {
      hide BitField, PoweredUp, SectorMode, Bits, Value, Sends, PowerOk, VersionOk, SpeedOk, TranSpeed, InitPlan, AllOk,
        LastCode;
      t, polls := [], 1;
      NothingSent(InitPlan(1));
      var busy := Busy();
      if !initialize || !cardPowerEnable || busy {
        return ErrState, t, polls;
      }
      currentFreq, maxFreq := 0, MMC_20MHZ;
      r := SetRequestClock(MMC_400KHZ);
      if r != Success {
        return Err, t, polls;
      }
      r, t, polls := ResetCard();
    }

    /** emmc_card_init from CMD0 on. */
    method ResetCard() returns (r: Code, ghost t: seq<Answered>, ghost polls: nat)
      requires Valid() && initialize && cardPowerEnable && clockEnable
      modifies this`mount, `selected, `busWidth, `maxFreq, `currentState, `clockEnable, `currentFreq, `r3Ocr, `csdData,
        `extCsdData, `r1CardStatus, `answers, `busySeen, card`extCsd, card`blockCount, card`switchError
      ensures Valid() && !mount
      ensures r == Success ==> selected && clockEnable && Agrees()
      ensures r == Success ==> currentFreq == maxFreq && TranSpeed(Bits(Value(csdData), 103, 96)) == Some(maxFreq)
      ensures answers == old(answers) + t && 1 <= polls <= 3000 && Sends(t, InitPlan(polls))
      ensures r == Success ==> |t| == |InitPlan(polls)|
      ensures busySeen == old(busySeen) || busySeen == old(busySeen) + 1
      ensures r == ErrTimeout || r == ErrIllegalCard ==> busySeen == old(busySeen)
      ensures if AllOk(t) then InitStops(r, busySeen != old(busySeen))
              else r == LastCode(t) && RunCode(r) && r != Success && busySeen == old(busySeen)
    {
      hide Bits, Value, Sends, InitStops, TranSpeed, IdentifyPlan, AllOk, LastCode, RunCode;
      polls := 1;
      r, t := SendIdle(0);
      SendsPart(t, [(0, 0)], IdentifyPlan(1) + SETUP_PLAN);
      OneAnswer(t);
      StopsHere(true);
      if r != Success {
        return;
      }
      ghost var u;
      r, u, polls := SetUpCard();
      SendsMore(t, [(0, 0)], u, IdentifyPlan(polls) + SETUP_PLAN);
      t := t + u;
    }

    /** emmc_card_init from CMD1 on. */
    method SetUpCard() returns (r: Code, ghost t: seq<Answered>, ghost polls: nat)
      requires Valid() && initialize && cardPowerEnable && clockEnable
      modifies `r3Ocr, `csdData, `selected, `maxFreq, `clockEnable, `currentFreq, `extCsdData, `answers, `busySeen
      ensures Valid() && (r == Success ==> selected && clockEnable && Agrees())
      ensures r == Success ==> currentFreq == maxFreq && TranSpeed(Bits(Value(csdData), 103, 96)) == Some(maxFreq)
      ensures answers == old(answers) + t && t != [] && 1 <= polls <= 3000
      ensures Sends(t, IdentifyPlan(polls) + SETUP_PLAN)
      ensures r == Success ==> |t| == |IdentifyPlan(polls) + SETUP_PLAN|
      ensures busySeen == old(busySeen) || busySeen == old(busySeen) + 1
      ensures r == ErrTimeout || r == ErrIllegalCard ==> busySeen == old(busySeen)
      ensures if AllOk(t) then InitStops(r, busySeen != old(busySeen))
              else r == LastCode(t) && RunCode(r) && r != Success && busySeen == old(busySeen)
    {
      hide Bits, Value, Sends, VersionOk, SpeedOk, TranSpeed, IdentifyPlan, AllOk, LastCode;
      r, t, polls := Identify();
      SendsPart(t, IdentifyPlan(polls), SETUP_PLAN);
      if r != Success {
        return;
      }
      ghost var u;
      r, u := SetUpTransfer();
      SendsMore(t, IdentifyPlan(polls), u, SETUP_PLAN);
      t := t + u;
    }

    lemma StopsHere(busy: bool)
      ensures busy || !initialize || !cardPowerEnable ==> InitStops(ErrState, busy)
      ensures busy ==> InitStops(Err, busy)
    {
    }

    lemma StopsBusy(r: Code, busy: bool)
      requires InitStops(r, busy) && r != Success
      ensures InitStops(r, true)
    {
    }

    lemma OneAnswer(t: seq<Answered>)
      requires |t| == 1
      ensures AllOk(t) <==> t[0].code == Success
      ensures LastCode(t) == t[0].code
    {
    }

    /** CMD1 to CMD7: power up, identify and select the card. */
    method Identify() returns (r: Code, ghost t: seq<Answered>, ghost polls: nat)
      requires Valid() && clockEnable
      modifies `r3Ocr, `csdData, `selected, `answers
      ensures Valid() && selected == (old(selected) || r == Success)
      ensures answers == old(answers) + t && t != [] && 1 <= polls <= 3000 && Sends(t, IdentifyPlan(polls))
      ensures r == Success ==> |t| == |IdentifyPlan(polls)| && AllOk(t)
      ensures if !AllOk(t) then r == LastCode(t) && RunCode(r) && r != Success
              else if Bits(r3Ocr, 31, 31) != 1 then r == ErrTimeout
              else if Bits(r3Ocr, 30, 29) != 2 then r == Err
              else if !VersionOk() then r == ErrIllegalCard
              else r == Success
    {
      hide BitField, PoweredUp, SectorMode, Bits, Value, Sends, PollPlan, AllOk, LastCode;
      r, t := WaitPowerUp();
      polls := |t|;
      OcrBits(r3Ocr);
      SendsPart(t, PollPlan(polls), SELECT_PLAN);
      if r != Success {
        return;
      }
      if !SectorMode(r3Ocr) {
        return Err, t, polls;
      }
      ghost var u;
      r, u := SelectCard();
      SendsMore(t, PollPlan(polls), u, SELECT_PLAN);
      t := t + u;
    }

    /** CMD2, CMD3, CMD9, the version check, and CMD7. */
    method SelectCard() returns (r: Code, ghost t: seq<Answered>)
      requires Valid() && clockEnable
      modifies `csdData, `selected, `answers
      ensures Valid() && selected == (old(selected) || r == Success)
      ensures answers == old(answers) + t && t != [] && Sends(t, SELECT_PLAN)
      ensures r == Success ==> |t| == |SELECT_PLAN| && AllOk(t)
      ensures if !AllOk(t) then r == LastCode(t) && RunCode(r) && r != Success
              else r == if VersionOk() then Success else ErrIllegalCard
    {
      hide BitField, Bits, Value, Sends, AllOk, LastCode;
      t := [];
      NothingSent(SELECT_PLAN);
      r := Exec(2, 0);
      OneMoreSent(t, SELECT_PLAN, Answered(2, 0, r, r1CardStatus));
      t := t + [Answered(2, 0, r, r1CardStatus)];
      assert answers == old(answers) + t;
      if r != Success {
        return;
      }
      r := Exec(3, RCA);
      OneMoreSent(t, SELECT_PLAN, Answered(3, RCA, r, r1CardStatus));
      t := t + [Answered(3, RCA, r, r1CardStatus)];
      assert answers == old(answers) + t;
      if r != Success {
        return;
      }
      r := ExecSendCsd();
      OneMoreSent(t, SELECT_PLAN, Answered(9, RCA, r, r1CardStatus));
      t := t + [Answered(9, RCA, r, r1CardStatus)];
      assert answers == old(answers) + t;
      if r != Success {
        return;
      }
      FieldIsBits(csdData, 125, 122);
      if BitField(csdData, 125, 122) < 4 {
        return ErrIllegalCard, t;
      }
      r := Exec(7, RCA);
      OneMoreSent(t, SELECT_PLAN, Answered(7, RCA, r, r1CardStatus));
      t := t + [Answered(7, RCA, r, r1CardStatus)];
      assert answers == old(answers) + t;
      if r == Success {
        selected := true;
      }
    }

    /** The rest of emmc_card_init: clock from TRAN_SPEED, CMD16, and CMD8 into the driver's copy. */
    method SetUpTransfer() returns (r: Code, ghost t: seq<Answered>)
      requires Valid() && initialize && cardPowerEnable
      modifies `maxFreq, `clockEnable, `currentFreq, `extCsdData, `answers, `busySeen
      ensures Valid() && (r == Success ==> clockEnable && Agrees())
      ensures r == Success ==> currentFreq == maxFreq && TranSpeed(Bits(Value(csdData), 103, 96)) == Some(maxFreq)
      ensures answers == old(answers) + t && Sends(t, SETUP_PLAN)
      ensures busySeen == old(busySeen) || busySeen == old(busySeen) + 1
      ensures r == Success ==> |t| == |SETUP_PLAN|
      ensures if !AllOk(t) then t != [] && r == LastCode(t) && RunCode(r) && r != Success && busySeen == old(busySeen)
              else if !SpeedOk() then r == ErrIllegalCard && busySeen == old(busySeen)
              else r == if busySeen == old(busySeen) then Success else Err
    {
      hide BitField, Bits, Value, TranSpeed, Sends, AllOk, LastCode;
      t := [];
      NothingSent(SETUP_PLAN);
      FieldIsBits(csdData, 103, 96);
      TranSpeedIs(Bits(Value(csdData), 103, 96));
      var freq := TranSpeed(BitField(csdData, 103, 96));
      if freq == None {
        return ErrIllegalCard, t;
      }
      maxFreq := freq.value;
      r := SetRequestClock(freq.value);
      if r != Success {
        return Err, t;
      }
      r := Exec(16, 512);
      OneMoreSent(t, SETUP_PLAN, Answered(16, 512, r, r1CardStatus));
      t := t + [Answered(16, 512, r, r1CardStatus)];
      assert answers == old(answers) + t;
      if r != Success {
        return;
      }
      r := ExecSendExtCsd();
      OneMoreSent(t, SETUP_PLAN, Answered(8, 0, r, r1CardStatus));
      t := t + [Answered(8, 0, r, r1CardStatus)];
      assert answers == old(answers) + t;
    }

    /** emmc_high_speed. MMC_26MHZ and MMC_20MHZ are the same divisor, so HS_TIMING is always switched. */
    method HighSpeed() returns (r: Code, ghost t: seq<Answered>)
      requires Valid() && initialize && cardPowerEnable
      modifies `hsTiming, `maxFreq, `clockEnable, `currentFreq, `r1CardStatus, `currentState, `answers, `busySeen,
        card`extCsd, card`switchError
      ensures Valid() && (r == Success ==> selected && clockEnable)
      ensures r == Success ==> card.extCsd == old(card.extCsd)[185 := 1] && hsTiming == 1
      ensures r == Success ==>
        currentFreq == maxFreq == (if extCsdData[196] / 2 % 2 == 1 then 4 else 8)
      ensures answers == old(answers) + t && Sends(t, HIGH_SPEED_PLAN)
      ensures r == Success ==> |t| == |HIGH_SPEED_PLAN|
      ensures busySeen == old(busySeen) || busySeen == old(busySeen) + 1
      ensures if !AllOk(t) then t != [] && r == LastCode(t) && r != Success && busySeen == old(busySeen)
              else if !selected then r == ErrState && t == [] && busySeen == old(busySeen)
              else r == if busySeen == old(busySeen) then Success else Err
    {
      hide Switched, Sends, AllOk, LastCode, RunCode;
      t := [];
      NothingSent(HIGH_SPEED_PLAN);
      NothingSent([(6, 0x03B9_0100)]);
      assert HIGH_SPEED_PLAN == [(6, 0x03B9_0100)] + [(13, 0x1_0000)];
      if !selected {
        return ErrState, t;
      }
      WriteByteArgument(card.extCsd, EXT_CSD_HS_TIMING, 1);
      var cardType := extCsdData[EXT_CSD_CARD_TYPE];
      var freq := if cardType / 2 % 2 == 1 then MMC_52MHZ else if cardType % 2 == 1 then MMC_26MHZ else MMC_20MHZ;
      if freq == MMC_52MHZ || freq == MMC_26MHZ {
        r := ExecSwitch(0x03B9_0100);
        OneMoreSent(t, [(6, 0x03B9_0100)], Answered(6, 0x03B9_0100, r, r1CardStatus));
        t := t + [Answered(6, 0x03B9_0100, r, r1CardStatus)];
        SendsPart(t, [(6, 0x03B9_0100)], [(13, 0x1_0000)]);
        if r != Success {
          return;
        }
        hsTiming := 1;
      }
      ghost var u;
      r, u := RunAt(freq);
      SendsMore(t, [(6, 0x03B9_0100)], u, [(13, 0x1_0000)]);
      t := t + u;
    }

    /** The end of emmc_high_speed: the new clock, and CMD13 under it. */
    method RunAt(freq: nat) returns (r: Code, ghost t: seq<Answered>)
      requires Valid() && initialize && cardPowerEnable
      modifies `maxFreq, `clockEnable, `currentFreq, `r1CardStatus, `currentState, `answers, `busySeen, card`switchError
      ensures Valid()
      ensures r == Success ==> clockEnable && currentFreq == maxFreq == freq && !old(card.switchError)
      ensures answers == old(answers) + t && Sends(t, [(13, 0x1_0000)])
      ensures r == Success ==> |t| == 1
      ensures busySeen == old(busySeen) || busySeen == old(busySeen) + 1
      ensures if !AllOk(t) then t != [] && r == LastCode(t) && r != Success && busySeen == old(busySeen)
              else r == if busySeen == old(busySeen) then Success else Err
    {
      hide CardState, Sends, AllOk, LastCode;
      t := [];
      NothingSent([(13, 0x1_0000)]);
      maxFreq := freq;
      r := SetRequestClock(freq);
      if r != Success {
        return Err, t;
      }
      r := ExecSendStatus();
      OneMoreSent(t, [(13, 0x1_0000)], Answered(13, RCA, r, r1CardStatus));
      t := t + [Answered(13, RCA, r, r1CardStatus)];
    }

    /** emmc_bus_width. */
    method BusWidth(width: nat) returns (r: Code, ghost t: seq<Answered>)
      requires Valid()
      modifies `busWidth, `extCsdData, `r1CardStatus, `currentState, `answers, card`extCsd, card`switchError
      ensures Valid() && (r == Success ==> selected && clockEnable && Agrees() && busWidth == width / 4)
      ensures r == Success ==> width in {1, 4, 8} && card.extCsd == old(card.extCsd)[183 := width / 4]
      ensures answers == old(answers) + t
      ensures if width !in {1, 4, 8} then r == ErrParam && t == []
              else if !selected then r == ErrState && t == []
              else
                && t != [] && Sends(t, SwitchPlan(0x03B7_0000 + 0x100 * (width / 4)))
                && r == LastCode(t) && (r == Success ==> |t| == 3) && (AllOk(t) <==> r == Success)
    {
      hide Switched, CardState, Sends, AllOk, LastCode;
      t := [];
      if width != 8 && width != 4 && width != 1 {
        return ErrParam, t;
      }
      if !selected {
        return ErrState, t;
      }
      busWidth := width / 4;
      WriteByteArgument(card.extCsd, EXT_CSD_BUS_WIDTH, busWidth);
      var arg := 0x03B7_0000 + 0x100 * busWidth;
      NothingSent(SwitchPlan(arg));
      r := ExecSwitch(arg);
      OneMoreSent(t, SwitchPlan(arg), Answered(6, arg, r, r1CardStatus));
      t := t + [Answered(6, arg, r, r1CardStatus)];
      assert answers == old(answers) + t;
      if r != Success {
        busWidth := 0;
        return;
      }
      r := ExecSendStatus();
      OneMoreSent(t, SwitchPlan(arg), Answered(13, RCA, r, r1CardStatus));
      t := t + [Answered(13, RCA, r, r1CardStatus)];
      assert answers == old(answers) + t;
      if r != Success {
        return;
      }
      r := ExecSendExtCsd();
      OneMoreSent(t, SwitchPlan(arg), Answered(8, 0, r, r1CardStatus));
      t := t + [Answered(8, 0, r, r1CardStatus)];
      assert answers == old(answers) + t;
    }

    /** The rest of emmc_mount: high-speed timing, then the 8-bit bus. */
    method Raise() returns (r: Code, ghost t: seq<Answered>)
      requires Valid() && initialize && cardPowerEnable && selected
      modifies `hsTiming, `maxFreq, `clockEnable, `currentFreq, `r1CardStatus, `currentState, `busWidth, `extCsdData,
        `answers, `busySeen, card`extCsd, card`switchError
      ensures Valid()
      ensures r == Success ==>
        && clockEnable && Agrees() && busWidth == 2
        && card.extCsd == old(card.extCsd)[185 := 1][183 := 2]
      ensures answers == old(answers) + t && Sends(t, HIGH_SPEED_PLAN + SwitchPlan(0x03B7_0200))
      ensures r == Success ==> |t| == |HIGH_SPEED_PLAN + SwitchPlan(0x03B7_0200)|
      ensures busySeen == old(busySeen) || busySeen == old(busySeen) + 1
      ensures if !AllOk(t) then t != [] && r == LastCode(t) && r != Success
              else r == if busySeen == old(busySeen) then Success else Err
    {
      hide Sends, AllOk, LastCode, Switched;
      r, t := HighSpeed();
      SendsPart(t, HIGH_SPEED_PLAN, SwitchPlan(0x03B7_0200));
      if r != Success {
        return;
      }
      ghost var u;
      r, u := BusWidth(8);
      SendsMore(t, HIGH_SPEED_PLAN, u, SwitchPlan(0x03B7_0200));
      t := t + u;
    }

    /** The steps of emmc_mount, without the clock that a failed one switches off. */
    method Prepare() returns (r: Code, ghost t: seq<Answered>, ghost polls: nat)
      requires Valid() && initialize && cardPowerEnable
      modifies `mount, `selected, `busWidth, `maxFreq, `currentState, `clockEnable, `currentFreq, `r3Ocr, `csdData,
        `extCsdData, `r1CardStatus, `hsTiming, `answers, `busySeen, card`extCsd, card`blockCount, card`switchError
      ensures Valid()
      ensures r == Success ==>
        && selected && clockEnable && Agrees() && busWidth == 2
        && card.extCsd[185] == 1 && card.extCsd[183] == 2
      ensures mount ==> old(mount) && selected == old(selected) && r != Success
      ensures mount ==> card.extCsd == old(card.extCsd) && extCsdData == old(extCsdData)
      ensures answers == old(answers) + t && 1 <= polls <= 3000 && Sends(t, MountPlan(polls))
      ensures r == Success ==> |t| == |MountPlan(polls)|
      ensures busySeen >= old(busySeen)
      ensures if AllOk(t) then InitStops(r, busySeen != old(busySeen)) else r == LastCode(t) && r != Success
    {
      hide Sends, InitPlan, InitStops, AllOk, LastCode, BitField, Switched, TranSpeed, Bits, Value, Commands;
      r, t, polls := CardInit();
      SendsPart(t, InitPlan(polls), HIGH_SPEED_PLAN + SwitchPlan(0x03B7_0200));
      assert InitPlan(polls) + (HIGH_SPEED_PLAN + SwitchPlan(0x03B7_0200)) == MountPlan(polls);
      if r != Success {
        return;
      }
      ghost var u;
      r, u := Raise();
      SendsMore(t, InitPlan(polls), u, HIGH_SPEED_PLAN + SwitchPlan(0x03B7_0200));
      t := t + u;
      assert answers == old(answers) + t;
      if r != Success {
        StopsHere(true);
      }
    }

    /** emmc_mount. */
    method Mount() returns (r: Code, ghost t: seq<Answered>, ghost polls: nat)
      requires Valid()
      modifies this, card`extCsd, card`blockCount, card`switchError
      ensures Valid() && initialize == old(initialize) && cardPowerEnable == old(cardPowerEnable)
      ensures r == Success ==> mount && initialize && cardPowerEnable && selected && clockEnable && Agrees()
      ensures r == Success ==>
        card.extCsd[185] == 1 && card.extCsd[183] == 2 && busWidth == 2
      ensures r != Success && mount ==> old(mount) && selected == old(selected)
      ensures r != Success && mount ==> card.extCsd == old(card.extCsd) && extCsdData == old(extCsdData)
      ensures answers == old(answers) + t && 1 <= polls <= 3000 && Sends(t, MountPlan(polls))
      ensures r == Success ==> |t| == |MountPlan(polls)|
      ensures busySeen >= old(busySeen)
      ensures if AllOk(t) then InitStops(r, busySeen != old(busySeen)) else r == LastCode(t) && r != Success
    {
      hide Sends, MountPlan, InitStops, AllOk, LastCode;
      t, polls := [], 1;
      NothingSent(MountPlan(1));
      var busy := Busy();
      StopsHere(busy);
      if !initialize || !cardPowerEnable || busy {
        return ErrState, t, polls;
      }
      r, t, polls := Prepare();
      if r != Success {
        if AllOk(t) {
          StopsBusy(r, busySeen != old(busySeen));
        }
        var off := ClockCtrl(false);
        return;
      }
      mount := true;
    }

    /** emmc_set_ext_csd: on success the switch has taken effect and the copy is fresh. */
    method SetExtCsd(arg: Uint32) returns (r: Code, ghost t: seq<Answered>)
      requires Valid()
      modifies `extCsdData, `r1CardStatus, `currentState, `answers, card`extCsd, card`switchError
      ensures Valid()
      ensures r == Success ==> Agrees() && card.extCsd == Switched(old(card.extCsd), arg)
      ensures card.extCsd == old(card.extCsd) || card.extCsd == Switched(old(card.extCsd), arg)
      ensures answers == old(answers) + t && t != [] && Sends(t, SwitchPlan(arg))
      ensures r == LastCode(t) && (r == Success ==> |t| == 3)
    {
      hide Switched, CardState, Sends, AllOk, LastCode;
      t := [];
      NothingSent(SwitchPlan(arg));
      r := ExecSwitch(arg);
      OneMoreSent(t, SwitchPlan(arg), Answered(6, arg, r, r1CardStatus));
      t := t + [Answered(6, arg, r, r1CardStatus)];
      assert answers == old(answers) + t;
      if r != Success {
        return;
      }
      r := ExecSendStatus();
      OneMoreSent(t, SwitchPlan(arg), Answered(13, RCA, r, r1CardStatus));
      t := t + [Answered(13, RCA, r, r1CardStatus)];
      assert answers == old(answers) + t;
      if r != Success {
        return;
      }
      r := ExecSendExtCsd();
      OneMoreSent(t, SwitchPlan(arg), Answered(8, 0, r, r1CardStatus));
      t := t + [Answered(8, 0, r, r1CardStatus)];
      assert answers == old(answers) + t;
    }

    /**
     emmc_select_partition. It trusts the driver's copy: if that names the area already, nothing is sent; otherwise
     PARTITION_ACCESS becomes `id` and the other bits of the card's byte become those of the copy.
     */
    method SelectPartition(id: Uint32) returns (r: Code, ghost t: seq<Answered>)
      requires Valid()
      modifies `extCsdData, `r1CardStatus, `currentState, `answers, card`extCsd, card`switchError
      ensures answers == old(answers) + t && (mount && id < 8 ==> r == LastCode(t))
      ensures !mount || id >= 8 || old(extCsdData[EXT_CSD_PARTITION_CONFIG]) % 8 == id ==> t == []
      ensures mount && id < 8 && old(extCsdData[EXT_CSD_PARTITION_CONFIG]) % 8 != id ==>
        && t != [] && (r == Success ==> |t| == 3)
        && Sends(t, SwitchPlan(0x03B3_0000 + 0x100 * WithAccess(old(extCsdData[EXT_CSD_PARTITION_CONFIG]), id)))
      ensures Valid()
      ensures r == ErrState <== !mount
      ensures mount && id >= 8 ==> r == ErrParam
      ensures !mount || id >= 8 || old(extCsdData[EXT_CSD_PARTITION_CONFIG]) % 8 == id ==>
        unchanged(this) && unchanged(card)
      ensures mount && id < 8 && old(extCsdData[EXT_CSD_PARTITION_CONFIG]) % 8 == id ==> r == Success
      ensures r == Success && old(extCsdData[EXT_CSD_PARTITION_CONFIG]) % 8 != id ==>
        && Agrees() && id < 8
        && var c := EXT_CSD_PARTITION_CONFIG; card.extCsd == old(card.extCsd)[c := WithAccess(old(extCsdData[c]), id)]
      ensures r == Success && old(Agrees()) ==>
        && Agrees() && id < 8 && card.Access() == id
        && var c := EXT_CSD_PARTITION_CONFIG; card.extCsd == old(card.extCsd)[c := WithAccess(old(card.extCsd[c]), id)]
      ensures r == Success ==>
        (card.Access() == id <==> old(card.Access()) == id || old(extCsdData[EXT_CSD_PARTITION_CONFIG]) % 8 != id)
    {
      hide Switched;
      t := [];
      if !mount {
        return ErrState, t;
      }
      if id >= 8 {
        return ErrParam, t;
      }
      var config := extCsdData[EXT_CSD_PARTITION_CONFIG];
      if config % 8 == id {
        return Success, t;
      }
      var arg := PartitionArgument(config, id);
      r, t := SetExtCsd(arg);
    }

    // ---------- emmc_write.c ----------

    /** emmc_multiple_block_write: CMD16, CMD23, CMD25, CMD13, then the ready and state checks. */
    method MultipleBlockWrite(at: nat, sector: Uint32, count: nat) returns (r: Code, ghost t: seq<Answered>)
      requires Valid() && at + 512 * count <= ram.Length
      modifies `r1CardStatus, `currentState, `answers, card`areas, card`blockCount, card`chunks, card`switchError
      ensures Valid() && PartWritten(card.areas, old(card.areas), card.Access(), sector, ram[..], at, count)
      ensures answers == old(answers) + t
      ensures if 0 < count <= 65535 then
                t != [] && SendsBlocks(t, BlockPlan(sector, count)) && r == Verdict(t[|t| - 1])
              else t == [] && r == ErrParam
      ensures r == Success ==>
        && |t| == 4 && 512 * (sector + count) <= |card.areas[card.Access()]|
        && card.areas[card.Access()] == Written(old(card.areas)[card.Access()], sector, ram[..], at, count)
        && card.chunks == old(card.chunks) + [Chunk(sector, at, count)]
    {
      hide Written, CardState, And, Bits, Verdict, SendsBlocks, AllFine;
      NothingWritten(card.areas, card.Access(), sector, ram[..], at, count);
      t := [];
      NoBlocks(BlockPlan(sector, count));
      if count > RW_SECTOR_COUNT_MAX || count == 0 {
        return ErrParam, t;
      }
      r := Exec(16, 512);
      OneMoreBlock(t, BlockPlan(sector, count), Answered(16, 512, r, r1CardStatus));
      t := t + [Answered(16, 512, r, r1CardStatus)];
      assert answers == old(answers) + t;
      if r != Success {
        return;
      }
      var arg := BlockCountArgument(count);
      r := ExecSetBlockCount(arg);
      OneMoreBlock(t, BlockPlan(sector, count), Answered(23, arg, r, r1CardStatus));
      t := t + [Answered(23, arg, r, r1CardStatus)];
      assert answers == old(answers) + t;
      if r != Success {
        return;
      }
      r := ExecWriteMultiple(sector, at, count);
      OneMoreBlock(t, BlockPlan(sector, count), Answered(25, sector, r, r1CardStatus));
      t := t + [Answered(25, sector, r, r1CardStatus)];
      assert answers == old(answers) + t;
      if r != Success {
        return;
      }
      ghost var a;
      r, a := CheckStored();
      OneMoreBlock(t, BlockPlan(sector, count), a);
      t := t + [a];
    }

    /** The end of emmc_multiple_block_write: CMD13, then the ready and state checks. */
    method CheckStored() returns (r: Code, ghost a: Answered)
      requires Valid()
      modifies `r1CardStatus, `currentState, `answers, card`switchError
      ensures Valid() && answers == old(answers) + [a] && a.index == 13 && a.arg == 0x1_0000 && r == Verdict(a)
    {
      hide CardState, And, Bits;
      r := ExecSendStatus();
      a := Answered(13, RCA, r, r1CardStatus);
      StateBits(r1CardStatus);
      ReadyBit(r1CardStatus);
      if r != Success {
        return;
      }
      if And(r1CardStatus, 0x100) == 0 {
        return ErrCardBusy, a;
      }
      if currentState != STATE_TRAN {
        return ErrCardState, a;
      }
    }

    /** emmc_write_sector. */
    method WriteSector(at: nat, sector: Uint32, count: Uint32) returns (r: Code, ghost t: seq<Answered>)
      requires Valid() && at + 512 * count <= ram.Length
      modifies `r1CardStatus, `currentState, `answers, card`areas, card`blockCount, card`chunks, card`switchError
      ensures Valid() && PartWritten(card.areas, old(card.areas), card.Access(), sector, ram[..], at, count)
      ensures answers == old(answers) + t
      ensures if count == 0 then t == [] && r == ErrParam
              else if !mount then t == [] && r == ErrState
              else t != [] && SendsBlocks(t, WritePlan(Chunks(sector, at, count))) && r == Verdict(t[|t| - 1])
      ensures r == Success ==>
        && mount && 0 < count && |t| == |WritePlan(Chunks(sector, at, count))|
        && card.areas[card.Access()] == Written(old(card.areas)[card.Access()], sector, ram[..], at, count)
        && 512 * (sector + count) <= |card.areas[card.Access()]|
        && card.chunks == old(card.chunks) + Chunks(sector, at, count)
    {
      hide Written, Chunks, Sofar, WritePlan, SendsBlocks, Verdict;
      ghost var p, before, log := card.Access(), card.areas, card.chunks;
      NothingWritten(before, p, sector, ram[..], at, count);
      t := [];
      if count == 0 {
        return ErrParam, t;
      }
      if !mount {
        return ErrState, t;
      }
      var buffer, sectorNumber := at, sector;
      var remain: nat := count;
      ghost var done: nat := 0;
      SofarNone(before, log, p, sector, at, count);
      ghost var plan: Plan := [];
      NoBlocks([]);
      assert plan + WritePlan(Chunks(sector, at, count)) == WritePlan(Chunks(sector, at, count));
      while remain != 0
        invariant Valid() && done + remain == count && buffer == at + 512 * done
        invariant Sofar(before, log, p, sector, at, count, done)
        invariant sectorNumber == sector + done
        invariant answers == old(answers) + t && |t| == |plan| && SendsBlocks(t, plan) && AllFine(t)
        invariant done > 0 ==> t != []
        invariant plan + WritePlan(Chunks(sector + done, at + 512 * done, remain))
          == WritePlan(Chunks(sector, at, count))
        decreases remain
      {
        var transCount := if remain < RW_SECTOR_COUNT_MAX then remain else RW_SECTOR_COUNT_MAX;
        ghost var u;
        r, u := WriteChunk(buffer, sectorNumber, transCount, before, log, p, sector, at, count, done);
        MoreBlocks(t, plan, u, sector + done, buffer, remain);
        plan := plan + BlockPlan(sectorNumber, transCount);
        t := t + u;
        if r != Success {
          return;
        }
        buffer, sectorNumber := buffer + 512 * transCount, Wrap32(sectorNumber + transCount);
        remain := remain - transCount;
        done := done + transCount;
      }
      SofarAll(before, log, p, sector, at, count);
      NoMoreBlocks(t, plan, sector + count, at + 512 * count);
      r := Success;
    }

    /** The first `done` sectors of a request are written, and its chunks so far logged. */
    ghost predicate Sofar(before: seq<seq<Byte>>, log: seq<Chunk>, p: nat, sector: nat, at: nat, count: nat, done: nat)
      reads ram, card
    {
      && done <= count && at + 512 * count <= ram.Length && card.Valid() && card.Access() == p && |before| == 8
      && (forall q :: 0 <= q < 8 && q != p ==> card.areas[q] == before[q])
      && card.areas[p] == Written(before[p], sector, ram[..], at, done)
      && (done > 0 ==> 512 * (sector + done) <= |card.areas[p]|)
      && card.chunks + Chunks(sector + done, at + 512 * done, count - done) == log + Chunks(sector, at, count)
    }

    lemma SofarNone(before: seq<seq<Byte>>, log: seq<Chunk>, p: nat, sector: nat, at: nat, count: nat)
      requires card.Valid() && card.areas == before && card.chunks == log && card.Access() == p
      requires at + 512 * count <= ram.Length
      ensures Sofar(before, log, p, sector, at, count, 0)
    {
      hide Written;
      WrittenNone(before[p], sector, ram[..], at);
    }

    lemma SofarAll(before: seq<seq<Byte>>, log: seq<Chunk>, p: nat, sector: nat, at: nat, count: nat)
      requires Sofar(before, log, p, sector, at, count, count) && count > 0
      ensures PartWritten(card.areas, before, p, sector, ram[..], at, count)
      ensures card.areas[p] == Written(before[p], sector, ram[..], at, count)
      ensures 512 * (sector + count) <= |card.areas[p]|
      ensures card.chunks == log + Chunks(sector, at, count)
    {
      hide Written;
    }

    method WriteChunk(buffer: nat, sectorNumber: Uint32, transCount: nat, ghost before: seq<seq<Byte>>,
                      ghost log: seq<Chunk>, ghost p: nat, ghost sector: nat, ghost at: nat, ghost count: nat,
                      ghost done: nat)
      returns (r: Code, ghost t: seq<Answered>)
      requires Valid() && Sofar(before, log, p, sector, at, count, done) && done < count
      requires transCount == if count - done < RW_SECTOR_COUNT_MAX then count - done else RW_SECTOR_COUNT_MAX
      requires buffer == at + 512 * done && sectorNumber == sector + done
      modifies `r1CardStatus, `currentState, `answers, card`areas, card`blockCount, card`chunks, card`switchError
      ensures answers == old(answers) + t && t != [] && SendsBlocks(t, BlockPlan(sectorNumber, transCount))
      ensures r == Verdict(t[|t| - 1]) && (r == Success ==> |t| == 4)
      ensures Valid() && |before| == 8 && at + 512 * count <= ram.Length && p == card.Access()
      ensures PartWritten(card.areas, before, p, sector, ram[..], at, count)
      ensures r == Success ==> Sofar(before, log, p, sector, at, count, done + transCount)
      ensures r == Success ==> sectorNumber + transCount < TWO_32
    {
      hide Written, Chunks, SendsBlocks, Verdict;
      ghost var between, logged := card.areas, card.chunks;
      r, t := MultipleBlockWrite(buffer, sectorNumber, transCount);
      PartAfter(card.areas, between, before, p, sector, ram[..], at, done, transCount, count);
      if r == Success {
        WrittenMore(before[p], sector, ram[..], at, done, transCount);
        ChunksNext(sector + done, buffer, count - done);
        ghost var rest := Chunks(sector + done + transCount, buffer + 512 * transCount, count - done - transCount);
        assert logged + ([Chunk(sector + done, buffer, transCount)] + rest) == card.chunks + rest;
      }
    }

    // ---------- runs ----------

    /**
     Any sequence of driver calls, with any answers from the card. `mounts` tells for each call whether a card was
     mounted when it was made, and at the end.
     */
    method Run(calls: seq<Call>) returns (codes: seq<Code>, ghost mounts: seq<bool>)
      requires Valid() && MountSafe() && ClockSafe()
      requires forall c :: c in calls && c.CallWrite? ==> c.at + 512 * c.count <= ram.Length
      modifies this, card
      ensures Valid() && |codes| == |calls| && |mounts| == |calls| + 1
      ensures mounts[0] == old(mount) && mounts[|calls|] == mount
      ensures forall i :: 0 <= i < |calls| ==> MountStep(calls[i], codes[i], mounts[i], mounts[i + 1])
      ensures MountSafe()
      ensures Undisturbed(calls, codes, mounts) ==> ClockSafe()
      ensures (old(mount) ==> old(Agrees())) && AllSucceed(codes) ==> (mount ==> Agrees())
    {
      hide Switched, Written, Chunks, PartWritten;
      codes, mounts := [], [mount];
      for i := 0 to |calls|
        invariant Valid() && MountSafe() && |codes| == i && |mounts| == i + 1
        invariant mounts[0] == old(mount) && mounts[i] == mount
        invariant forall k :: 0 <= k < i ==> MountStep(calls[k], codes[k], mounts[k], mounts[k + 1])
        invariant Undisturbed(calls, codes, mounts) ==> ClockSafe()
        invariant (old(mount) ==> old(Agrees())) && AllSucceed(codes) ==> (mount ==> Agrees())
      {
        ghost var earlier, mountsBefore := codes, mounts;
        var r := Perform(calls[i]);
        codes, mounts := codes + [r], mounts + [mount];
        assert earlier == codes[..i] && codes[i] == r && mountsBefore == mounts[..i + 1];
        assert AllSucceed(codes) ==> AllSucceed(earlier) && r == Success;
        assert Undisturbed(calls, codes, mounts) ==>
          Undisturbed(calls, earlier, mountsBefore) && !Disturbs(calls[i], r, mounts[i]);
      }
    }

    method Perform(call: Call) returns (c: Code)
      requires Valid() && MountSafe()
      requires call.CallWrite? ==> call.at + 512 * call.count <= ram.Length
      modifies this, card
      ensures Valid() && MountSafe()
      ensures old(ClockSafe()) && !Disturbs(call, c, old(mount)) ==> ClockSafe()
      ensures MountStep(call, c, old(mount), mount)
      ensures (old(mount) ==> old(Agrees())) && c == Success ==> (mount ==> Agrees())
    {
      hide Switched, Written, Chunks, PartWritten;
      match call
      case CallInit =>
        Init();
        c := Success;
      case CallPower(on) =>
        MemcardPower(on);
        c := Success;
      case CallMount =>
        ghost var t, polls;
        c, t, polls := Mount();
      case CallSelect(id) =>
        ghost var t;
        c, t := SelectPartition(id);
      case CallSetExtCsd(arg) =>
        ghost var t;
        c, t := SetExtCsd(arg);
      case CallWrite(at, sector, count) =>
        ghost var t;
        c, t := WriteSector(at, sector, count);
      case CallClock(freq) =>
        c := SetRequestClock(freq);
      case CallIdle(arg) =>
        ghost var t;
        c, t := SendIdle(arg);
      case CallTerminate =>
        c := Terminate();
    }
  }

  predicate AllSucceed(codes: seq<Code>) {
    forall i :: 0 <= i < |codes| ==> codes[i] == Success
  }

  datatype Call = CallInit | CallPower(on: bool) | CallMount | CallSelect(id: Uint32) | CallSetExtCsd(arg: Uint32)
    | CallWrite(at: nat, sector: Uint32, count: Uint32) | CallClock(freq: nat) | CallIdle(arg: Uint32)
    | CallTerminate

  /** The calls after which no card is mounted. */
  predicate Unmounts(call: Call) {
    call.CallInit? || call.CallIdle? || call.CallTerminate? || (call.CallPower? && !call.on)
  }

  /** What a call does to the mount: only a mount call sets it, and only these and failed mount calls clear it. */
  predicate MountStep(call: Call, code: Code, before: bool, after: bool) {
    && (Unmounts(call) ==> !after)
    && (call.CallMount? && code == Success ==> after)
    && (!Unmounts(call) && !call.CallMount? ==> after == before)
    && (call.CallMount? && after && code != Success ==> before)
  }

  /**
   The calls that may leave a mounted card without a clock: a mount that fails, and a change of the clock while the
   controller is busy.
   */
  predicate Disturbs(call: Call, code: Code, mounted: bool) {
    mounted && ((call.CallMount? && code != Success) || (call.CallClock? && code == Err))
  }

  predicate Undisturbed(calls: seq<Call>, codes: seq<Code>, mounts: seq<bool>)
    requires |codes| <= |calls| && |codes| < |mounts|
  {
    forall i :: 0 <= i < |codes| ==> !Disturbs(calls[i], codes[i], mounts[i])
  }

  /** No mount follows another without a call that unmounts; `unmounted` says that the first needs none before it. */
  predicate NoRemount(calls: seq<Call>, unmounted: bool) {
    calls != [] ==>
      && (calls[0].CallMount? ==> unmounted)
      && NoRemount(calls[1..], Unmounts(calls[0]) || (unmounted && !calls[0].CallMount?))
  }

  /** A condition on the calls alone, for runs in which no change of the clock finds the controller busy. */
  lemma {:induction false} NoRemountUndisturbed(calls: seq<Call>, codes: seq<Code>, mounts: seq<bool>, unmounted: bool)
    requires |codes| == |calls| && |mounts| == |calls| + 1 && NoRemount(calls, unmounted) && (unmounted ==> !mounts[0])
    requires forall i :: 0 <= i < |calls| ==> MountStep(calls[i], codes[i], mounts[i], mounts[i + 1])
    requires forall i :: 0 <= i < |calls| && mounts[i] && calls[i].CallClock? ==> codes[i] != Err
    ensures Undisturbed(calls, codes, mounts)
  {
    if calls != [] {
      assert MountStep(calls[0], codes[0], mounts[0], mounts[1]);
      var next := Unmounts(calls[0]) || (unmounted && !calls[0].CallMount?);
      assert forall i :: 0 <= i < |calls| - 1 ==>
        MountStep(calls[1..][i], codes[1..][i], mounts[1..][i], mounts[1..][i + 1]);
      NoRemountUndisturbed(calls[1..], codes[1..], mounts[1..], next);
      forall i | 0 <= i < |codes| ensures !Disturbs(calls[i], codes[i], mounts[i]) {
        if i > 0 {
          assert calls[i] == calls[1..][i - 1] && codes[i] == codes[1..][i - 1] && mounts[i] == mounts[1..][i - 1];
        }
      }
    }
  }

  // ---------- chunks ----------

  /** The pairs of CMD23 and CMD25 for one request. */
  function Chunks(sector: nat, at: nat, count: nat): seq<Chunk>
    decreases count
  {
    if count == 0 then []
    else
      var n := if count < RW_SECTOR_COUNT_MAX then count else RW_SECTOR_COUNT_MAX;
      [Chunk(sector, at, n)] + Chunks(sector + n, at + 512 * n, count - n)
  }

  lemma ChunksNext(sector: nat, at: nat, count: nat)
    requires count > 0
    ensures var n := if count < RW_SECTOR_COUNT_MAX then count else RW_SECTOR_COUNT_MAX;
      Chunks(sector, at, count) == [Chunk(sector, at, n)] + Chunks(sector + n, at + 512 * n, count - n)
  {
  }

  /**
   They partition the request, in order: 1 to 65535 sectors each, all but the last of them 65535, end to end, each
   from its own part of the buffer.
   */
  lemma {:induction false} ChunksPartition(sector: nat, at: nat, count: nat)
    ensures var s := Chunks(sector, at, count);
      && (s == [] <==> count == 0) && (s != [] ==> s[0].sector == sector)
      && forall i :: 0 <= i < |s| ==>
           && 1 <= s[i].count <= 0xFFFF && s[i].at == at + 512 * (s[i].sector - sector)
           && s[i].sector + s[i].count == (if i + 1 < |s| then s[i + 1].sector else sector + count)
           && (i + 1 < |s| ==> s[i].count == 0xFFFF)
    decreases count
  {
    if count > 0 {
      var n := if count < RW_SECTOR_COUNT_MAX then count else RW_SECTOR_COUNT_MAX;
      ChunksPartition(sector + n, at + 512 * n, count - n);
    }
  }

  lemma WrittenNone(area: seq<Byte>, sector: nat, src: seq<Byte>, at: nat)
    requires at <= |src|
    ensures Written(area, sector, src, at, 0) == area
  {
  }

  lemma WrittenMore(area: seq<Byte>, sector: nat, src: seq<Byte>, at: nat, n: nat, m: nat)
    requires at + 512 * (n + m) <= |src|
    ensures Written(Written(area, sector, src, at, n), sector + n, src, at + 512 * n, m)
      == Written(area, sector, src, at, n + m)
  {
  }

  /** A partly written chunk after whole ones leaves the request partly written. */
  lemma PartAfter(areas: seq<seq<Byte>>, between: seq<seq<Byte>>, before: seq<seq<Byte>>, p: nat, sector: nat,
                  src: seq<Byte>, at: nat, done: nat, m: nat, count: nat)
    requires |areas| == |between| == |before| == 8 && p < 8 && done + m <= count && at + 512 * count <= |src|
    requires forall q :: 0 <= q < 8 && q != p ==> between[q] == before[q]
    requires between[p] == Written(before[p], sector, src, at, done)
    requires PartWritten(areas, between, p, sector + done, src, at + 512 * done, m)
    ensures PartWritten(areas, before, p, sector, src, at, count)
  {
    hide Written;
    var n: nat :| n <= m && areas[p] == Written(between[p], sector + done, src, at + 512 * done, n);
    WrittenMore(before[p], sector, src, at, done, n);
    assert done + n <= count && areas[p] == Written(before[p], sector, src, at, done + n);
  }

  /** Any received bytes. */
  method AnyBytes(n: nat) returns (s: seq<U8>)
    ensures |s| == n
  {
    assert |seq<U8>(n, _ => 0)| == n;
    s :| |s| == n;
  }

  lemma OcrBits(ocr: Uint32)
    ensures PoweredUp(ocr) <==> Bits(ocr, 31, 31) == 1
    ensures SectorMode(ocr) <==> Bits(ocr, 30, 29) == 2
  {
    hide And, Shr;
    Pow2Of32();
    assert Pow2(32) == 2 * Pow2(31) && Pow2(31) == 2 * Pow2(30) && Pow2(30) == 2 * Pow2(29);
    assert Pow2(1) == 2 && Pow2(2) == 4;
    AndShifted(ocr, 1, 31);
    AndLowMask(Shr(ocr, 31), 1);
    AndShifted(ocr, 3, 29);
    AndLowMask(Shr(ocr, 29), 2);
  }

  lemma ReadyBit(status: Uint32)
    ensures And(status, 0x100) == 0 <==> Bits(status, 8, 8) == 0
  {
    hide And, Shr;
    assert Pow2(8) == 0x100 && Pow2(1) == 2;
    AndShifted(status, 1, 8);
    AndLowMask(Shr(status, 8), 1);
  }

  /**
   The clock divisor of a TRAN_SPEED byte, without the tables: bits 2..0 are the unit, a reserved one above 3, and
   bits 6..3 the multiplier, reserved if 0. From 52 MHz on the divisor is 4, from 20 MHz on 8, and below that 512.
   */
  lemma TranSpeedIs(speed: nat)
    ensures TranSpeed(speed).Some? <==> speed % 8 <= 3 && speed / 8 % 16 != 0
    ensures TranSpeed(speed).Some? ==>
      (TranSpeed(speed).value
       == if speed % 8 == 3 || (speed % 8 == 2 && speed / 8 % 16 >= 11) then 4
          else if speed % 8 == 2 && speed / 8 % 16 >= 5 then 8
          else 512)
    ensures TranSpeed(0x32) == Some(8) && TranSpeed(0x2A) == Some(8) && TranSpeed(0x5A) == Some(4)
  {
  }

  /** The card's power-up status bit, and sector addressing in the access-mode bits. */
  predicate PoweredUp(ocr: Uint32) {
    And(ocr, 0x8000_0000) != 0
  }

  predicate SectorMode(ocr: Uint32) {
    And(ocr, 0x6000_0000) == 0x4000_0000
  }

  /** emmc_calc_tran_speed: the clock divisor for a TRAN_SPEED byte, unless the byte is not a valid speed. */
  function TranSpeed(speed: nat): Option<nat> {
    var unit := [10000, 100000, 1000000, 10000000, 0, 0, 0, 0][speed % 8];
    var mult := [0, 10, 12, 13, 15, 20, 26, 30, 35, 40, 45, 52, 55, 60, 70, 80][speed / 8 % 16];
    var maxFreq := unit * mult;
    if maxFreq == 0 then None
    else if 52000000 <= maxFreq then Some(MMC_52MHZ)
    else if 26000000 <= maxFreq then Some(MMC_26MHZ)
    else if 20000000 <= maxFreq then Some(MMC_20MHZ)
    else Some(MMC_400KHZ)
  }

  /** PARTITION_CONFIG with PARTITION_ACCESS, bits 2..0, replaced. */
  function WithAccess(config: U8, id: nat): (r: U8)
    requires id < 8
    ensures r % 8 == id && r / 8 == config / 8
  {
    config - config % 8 + id
  }

  /** `0x03B30000 | (((config & ~7) | id) << 8)`. */
  method PartitionArgument(config: U8, id: nat) returns (arg: Uint32)
    requires id < 8
    ensures arg == 0x03B3_0000 + 0x100 * WithAccess(config, id)
    ensures forall e: seq<U8> :: |e| == 512 ==>
      Switched(e, arg) == e[EXT_CSD_PARTITION_CONFIG := WithAccess(config, id)]
  {
    hide And, Or, Switched, WithAccess;
    PartitionBits(config, id);
    arg := Or(0x03B3_0000, 0x100 * Or(And(config, 0xFFFF_FFF8), id));
    forall e: seq<U8> | |e| == 512
      ensures Switched(e, arg) == e[EXT_CSD_PARTITION_CONFIG := WithAccess(config, id)]
    {
      WriteByteArgument(e, EXT_CSD_PARTITION_CONFIG, WithAccess(config, id));
    }
  }

  /** A CMD6 argument with access mode 3 writes one byte. */
  lemma WriteByteArgument(e: seq<U8>, index: U8, value: U8)
    requires |e| == 512
    ensures Switched(e, 0x0300_0000 + 0x1_0000 * index + 0x100 * value) == e[index := value]
  {
    SwitchFields(0x0300_0000 + 0x1_0000 * index + 0x100 * value, index, value);
  }

  lemma SwitchFields(arg: nat, index: U8, value: U8)
    requires arg == 0x0300_0000 + 0x1_0000 * index + 0x100 * value
    ensures arg / 0x100_0000 % 4 == 3 && arg / 0x1_0000 % 256 == index && arg / 0x100 % 256 == value
  {
    assert arg / 0x100_0000 == 3 && arg / 0x1_0000 == 0x300 + index && arg / 0x100 == 0x3_0000 + 0x100 * index + value;
  }

  lemma PartitionBits(config: U8, id: nat)
    requires id < 8
    ensures Or(0x03B3_0000, 0x100 * Or(And(config, 0xFFFF_FFF8), id)) == 0x03B3_0000 + 0x100 * WithAccess(config, id)
  {
    hide And, Or;
    AccessBits(config, id);
    Pow2Of32();
    OrDisjoint(0x03B3, 0x100 * WithAccess(config, id), 16);
  }

  lemma AccessBits(config: U8, id: nat)
    requires id < 8
    ensures Or(And(config, 0xFFFF_FFF8), id) == WithAccess(config, id)
  {
    hide And, Or;
    assert And(config, 0xFFFF_FFF8) == config - config % 8 by { ConfigBits(config); }
    assert Pow2(3) == 8;
    OrDisjoint(config / 8, id, 3);
  }

  lemma ConfigBits(config: U8)
    ensures And(config, 0xFFFF_FFF8) == config - config % 8
  {
    hide And;
    Pow2Of32();
    assert Pow2(3) == 8;
    AndHighMask(config, 32, 3);
    LowBitsIsMod(config, 3);
  }

  /** `0x80000000 | count`. */
  method BlockCountArgument(count: nat) returns (arg: Uint32)
    requires count <= RW_SECTOR_COUNT_MAX
    ensures arg == 0x8000_0000 + count && arg % 0x1_0000 == count
  {
    hide Or;
    Pow2Of32();
    OrDisjoint(0x8000, count, 16);
    arg := Or(0x8000_0000, count);
  }

  /** At most a first part of the blocks was written, to the selected area; the other areas are as before. */
  ghost predicate PartWritten(areas: seq<seq<Byte>>, before: seq<seq<Byte>>, p: nat, sector: nat, src: seq<Byte>,
                              at: nat, count: nat)
    requires |areas| == |before| == 8 && p < 8 && at + 512 * count <= |src|
  {
    && (forall q :: 0 <= q < 8 && q != p ==> areas[q] == before[q])
    && exists n: nat :: n <= count && areas[p] == Written(before[p], sector, src, at, n)
  }

  lemma NothingWritten(areas: seq<seq<Byte>>, p: nat, sector: nat, src: seq<Byte>, at: nat, count: nat)
    requires |areas| == 8 && p < 8 && at + 512 * count <= |src|
    ensures PartWritten(areas, areas, p, sector, src, at, count)
  {
    assert areas[p] == Written(areas[p], sector, src, at, 0);
  }
}
