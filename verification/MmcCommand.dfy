/**
 The eMMC command engine: the state machine of emmc_exec_cmd (emmc_cmd.c) and the polled event routine
 emmc_interrupt (emmc_interrupt.c), which share the flags and mask registers of one driver object. The
 registers that the card and the controller drive are an arbitrary sequence of snapshots, one per pass of the
 command loop; a run that uses them up is still waiting.
 */
module MmcCommand {
  import opened Words
  import opened CardRegister

  type Word64 = w: int | 0 <= w < 0x1_0000_0000_0000_0000

  // ---------- registers ----------

  /** A status or mask register: the numbers of the bits that are 1. */
  type Register = set<nat>

  const INFO1_INFO0: Register := {0}        // response end
  const INFO1_INFO2: Register := {2}        // access end
  const INFO2_CBSY: Register := {14}
  const INFO2_BWE: Register := {9}
  const INFO2_BRE: Register := {8}
  const INFO2_DAT0: Register := {7}
  const INFO2_ALL_ERR: Register := {0, 1, 2, 3, 4, 5, 6, 15}
  const INFO2_CLEAR: Register := {11}
  const DM_CH0: Register := {16}
  const DM_CH1: Register := {17}
  const DM_MASK_CH0: Register := set b: nat | b < 32 && b != 17 // DM_CM_INFO_MASK_CLEAR | DM_CM_INFO_CH0_ENABLE
  const DM_MASK_CH1: Register := set b: nat | b < 32 && b != 16 // DM_CM_INFO_MASK_CLEAR | DM_CM_INFO_CH1_ENABLE

  const R1_STATE_MASK: Uint32 := 0x1E00
  const R4_STATUS: Uint32 := 0x8000

  const RESPONSE_NONE: Uint32 := 0x000
  const RESPONSE_R1: Uint32 := 0x100
  const RESPONSE_R1B: Uint32 := 0x200
  const RESPONSE_R2: Uint32 := 0x300
  const RESPONSE_R4: Uint32 := 0x500

  /** What one pass of the command loop reads. */
  datatype Snapshot = Snapshot(info1: Register, info2: Register, dm1: Register, dm2: Register,
                               rsp76: Uint32, rsp54: Uint32, rsp32: Uint32, rsp10: Uint32)

  predicate Any(x: Register, bits: Register) {
    x * bits != {}
  }

  predicate Covers(mask: Register, bits: Register) {
    bits <= mask
  }

  lemma Masked(x: Register, m: Register, bits: Register)
    ensures !Any(m, bits) ==> !Any(x * m, bits)
    ensures Any(x * m, bits) ==> Any(x, bits)
    ensures Covers(m, bits) && !Any(x * m, bits) ==> !Any(x, bits)
  {
    assert Covers(m, bits) ==> x * m * bits == x * bits;
    if Any(x * m, bits) {
      var b :| b in x * m * bits;
      assert b in m * bits && b in x * bits;
    }
  }

  lemma SameMasked(x: Register, m: Register)
    ensures m == INFO1_INFO0 ==> (Any(x * m, INFO1_INFO0) <==> Any(x, INFO1_INFO0))
  {
    if m == INFO1_INFO0 {
      assert x * m * INFO1_INFO0 == x * INFO1_INFO0;
    }
  }

  /** The FIFO event of one direction. */
  function FifoReady(write: bool): Register {
    if write then INFO2_BWE else INFO2_BRE
  }

  lemma OneSide(write: bool)
    ensures !Any(FifoReady(write) + INFO2_ALL_ERR + INFO2_CLEAR, FifoReady(!write))
  {
  }

  lemma OtherSideMasked(x: Register, m: Register, write: bool)
    ensures Any(x * m, INFO2_BWE + INFO2_BRE) && !Any(m, FifoReady(!write)) ==> Any(x, FifoReady(write))
  {
    if Any(x * m, INFO2_BWE + INFO2_BRE) && !Any(m, FifoReady(!write)) {
      var b :| b in x * m * (INFO2_BWE + INFO2_BRE);
      assert b !in m * FifoReady(!write);
      assert b in x * FifoReady(write);
    }
  }

  lemma ReadyMasked(x: Register, m: Register, write: bool)
    ensures !Any(x * m, INFO2_BWE + INFO2_BRE) && Covers(m, FifoReady(write)) ==> !Any(x, FifoReady(write))
  {
    assert Covers(m, FifoReady(write)) ==> x * FifoReady(write) <= x * m * (INFO2_BWE + INFO2_BRE);
  }

  lemma EitherChannel(dm: Register)
    ensures Any(dm, DM_CH0) || Any(dm, DM_CH1) <==> Any(dm, DM_CH0 + DM_CH1)
  {
    assert dm * (DM_CH0 + DM_CH1) == dm * DM_CH0 + dm * DM_CH1;
  }

  lemma NoneAny(bits: Register)
    ensures !Any({}, bits)
    ensures !Any(INFO2_CLEAR, INFO2_BWE + INFO2_BRE) && !Any(INFO2_ALL_ERR + INFO2_CLEAR, INFO2_BWE + INFO2_BRE)
    ensures Covers(bits + INFO2_ALL_ERR + INFO2_CLEAR, INFO2_ALL_ERR)
    ensures Covers(INFO2_ALL_ERR + INFO2_CLEAR, INFO2_ALL_ERR)
    ensures Covers(bits + INFO2_ALL_ERR + INFO2_CLEAR, bits)
  {
  }

  function ResponseType(cmd: Uint32): Uint32 {
    And(cmd, 0xF00)
  }

  /** The command moves data: cmd_type >= HAL_MEMCARD_COMMAND_TYPE_ADTC_WRITE. */
  predicate IsData(cmd: Uint32) {
    And(cmd, 0x7000) >= 0x3000
  }

  function CardState(status: Uint32): Uint32 {
    And(status, R1_STATE_MASK) / 512
  }

  // ---------- outcomes ----------

  datatype Code = Success | Err | ErrParam | ErrState | ErrCardBusy | ErrInfo2 | ErrResponse | ErrCardStatusBit
    | ErrFromDmacTransfer | ErrForceTerminate | ErrTimeout | ErrIllegalCard | ErrCardState

  datatype Outcome = Returned(code: Code) | Waiting

  datatype State = Begin | NonRespCmd | RcvResp | RcvResponseBusy | CheckResponseComplete | DataTransfer
    | DataTransferComplete | AccessEnd | TransferError | Error | End

  /** The codes of a command that was started. */
  predicate RunCode(c: Code) {
    c in {Success, ErrCardBusy, ErrInfo2, ErrResponse, ErrCardStatusBit, ErrFromDmacTransfer, ErrForceTerminate}
  }

  /** The order in which the machine moves through its states. */
  function Rank(s: State): nat {
    match s
    case Begin => 0
    case NonRespCmd => 1
    case RcvResp => 1
    case RcvResponseBusy => 2
    case CheckResponseComplete => 3
    case DataTransfer => 4
    case DataTransferComplete => 5
    case AccessEnd => 6
    case TransferError => 6
    case Error => 7
    case End => 7
  }

  /** The states that wait for an event. */
  predicate Waits(s: State) {
    s.NonRespCmd? || s.RcvResp? || s.DataTransferComplete? || s.AccessEnd?
  }

  /** The states that look at the error bits of their poll. */
  predicate SeesErrors(s: State) {
    s.NonRespCmd? || s.RcvResp? || s.RcvResponseBusy? || s.DataTransferComplete?
  }

  predicate AfterResponse(s: State) {
    s.RcvResponseBusy? || s.CheckResponseComplete? || s.DataTransfer? || s.DataTransferComplete?
  }

  /** How much of the command has been seen to succeed: 1 the response, 2 the busy release, 3 the data. */
  function Level(s: State, rtn: Code): nat {
    match s
    case Begin => 0
    case NonRespCmd => 0
    case RcvResp => 0
    case RcvResponseBusy => 1
    case CheckResponseComplete => 2
    case DataTransfer => 2
    case DataTransferComplete => 2
    case AccessEnd => 3
    case TransferError => 0
    case Error => if rtn == Success then 3 else 0
    case End => 3
  }

  datatype Event = Failure | Fifo | Channel0 | Channel1 | ResponseEnd | AccessEnded | Nothing

  /** The branch that emmc_interrupt takes on masked registers. */
  function Decode(int1: Register, int2: Register, dm1: Register): Event {
    if Any(int2, INFO2_ALL_ERR) then Failure
    else if Any(int2, INFO2_BWE + INFO2_BRE) then Fifo
    else if Any(dm1, DM_CH0) then Channel0
    else if Any(dm1, DM_CH1) then Channel1
    else if Any(int1, INFO1_INFO0) then ResponseEnd
    else if Any(int1, INFO1_INFO2) then AccessEnded
    else Nothing
  }

  /** The events by their bits, in the order of their precedence. */
  lemma DecodeIs(int1: Register, int2: Register, dm1: Register)
    ensures var e, failed, moving := Decode(int1, int2, dm1),
        exists b :: b in int2 && b in {0, 1, 2, 3, 4, 5, 6, 15}, 8 in int2 || 9 in int2;
      && (e == Failure <==> failed)
      && (e == Fifo <==> !failed && moving)
      && (e == Channel0 <==> !failed && !moving && 16 in dm1)
      && (e == Channel1 <==> !failed && !moving && 16 !in dm1 && 17 in dm1)
      && (e == ResponseEnd <==> !failed && !moving && 16 !in dm1 && 17 !in dm1 && 0 in int1)
      && (e == AccessEnded <==> !failed && !moving && 16 !in dm1 && 17 !in dm1 && 0 !in int1 && 2 in int1)
  {
    if b :| b in int2 && b in {0, 1, 2, 3, 4, 5, 6, 15} {
      assert b in int2 * INFO2_ALL_ERR;
    }
    assert 8 in int2 ==> 8 in int2 * (INFO2_BWE + INFO2_BRE);
    assert 9 in int2 ==> 9 in int2 * (INFO2_BWE + INFO2_BRE);
    assert 16 in dm1 ==> 16 in dm1 * DM_CH0;
    assert 17 in dm1 ==> 17 in dm1 * DM_CH1;
    assert 0 in int1 ==> 0 in int1 * INFO1_INFO0;
    assert 2 in int1 ==> 2 in int1 * INFO1_INFO2;
  }

  lemma FifoNeedsMask(s: Snapshot, info1Mask: Register, info2Mask: Register, dm1Mask: Register)
    ensures Decode(s.info1 * info1Mask, s.info2 * info2Mask, s.dm1 * dm1Mask) == Fifo ==>
      Any(info2Mask, INFO2_BWE + INFO2_BRE) && Any(s.info2, INFO2_BWE + INFO2_BRE)
  {
    hide Any;
    Masked(s.info2, info2Mask, INFO2_BWE + INFO2_BRE);
  }

  /** The passes at which a command saw its response, the release of DAT0, and the end of its data. */
  datatype Evidence = Evidence(response: nat, release: nat, data: nat)

  datatype Flags = Flags(stateMachineBlocking: bool, forceTerminate: bool, duringTransfer: bool,
                         duringDmaTransfer: bool, dmaErrorFlag: bool, info1Mask: Register, info2Mask: Register)

  /** The data side of the driver object, as it is when a transfer starts. */
  datatype Start = Start(ram: seq<Word64>, sent: seq<Word64>, fifoPos: nat, transfers: nat,
                         remainSize: Uint32, buffer: Option<nat>)

  /** How far a command that started at pass `from` has come. */
  datatype Position = Position(state: State, rtn: Code, from: nat, errorMask: Uint32, start: Start, ev: Evidence)

  datatype Request = NonTrans(cmd: Uint32)
    | Trans(cmd: Uint32, buffer: Option<nat>, len: Uint32, write: bool, dma: bool)

  /** The states that a data command with an R1 response goes through. */
  const PIO_STATES: seq<State> :=
    [Begin, RcvResp, CheckResponseComplete, DataTransfer, DataTransferComplete, AccessEnd, End]

  class Engine {
    // the environment
    const env: seq<Snapshot>
    const fifo: nat -> Word64         // words the card puts into the FIFO
    const resetPolls: nat -> Register   // SD_INFO2 as the soft reset reads it
    const ram: array<Word64>
    var pass: nat
    var polled: nat
    var fifoPos: nat
    var sent: seq<Word64>             // words written to the FIFO
    ghost var transfers: nat        // sector transfers that copied data

    // mask registers
    var info1Mask: Register
    var info2Mask: Register
    var dm1Mask: Register
    var dm2Mask: Register

    // mmc_drv_obj
    var clockEnable: bool
    var duringCmdProcessing: bool
    var duringTransfer: bool
    var duringDmaTransfer: bool
    var dmaErrorFlag: bool
    var stateMachineBlocking: bool
    var forceTerminate: bool
    var cmd: Uint32
    var write: bool                 // cmd_info.dir
    var dma: bool                   // transfer_mode
    var remainSize: Uint32
    var buffer: Option<nat>         // buff_address_virtual, as an index of 64-bit words
    var responseLength: nat
    var response: Uint32
    var longResponse: seq<nat>
    var currentState: Uint32
    var info2: Register
    var intEvent1: Register
    var intEvent2: Register
    var dmEvent1: Register
    var dmEvent2: Register

    /**
     The driver after emmc_init: flags zeroed, every event of the SD interface
     masked; the DMA masks are as they were.
     */
    constructor (env: seq<Snapshot>, fifo: nat -> Word64, resetPolls: nat -> Register, ram: array<Word64>,
                 dm1Mask: Register, dm2Mask: Register)
      ensures Idle() && !clockEnable && !dmaErrorFlag && pass == 0
      ensures this.env == env && this.fifo == fifo && this.resetPolls == resetPolls && this.ram == ram
    {
      this.env, this.fifo, this.resetPolls, this.ram := env, fifo, resetPolls, ram;
      pass, polled, fifoPos, sent, transfers := 0, 0, 0, [], 0;
      info1Mask, info2Mask, this.dm1Mask, this.dm2Mask := {}, INFO2_CLEAR, dm1Mask, dm2Mask;
      clockEnable, duringCmdProcessing, duringTransfer, duringDmaTransfer := false, false, false, false;
      dmaErrorFlag, stateMachineBlocking, forceTerminate := false, false, false;
      cmd, write, dma, remainSize, buffer, responseLength := 0, false, true, 0, None, 0;
      response, longResponse, currentState := 0, [], 0;
      info2, intEvent1, intEvent2, dmEvent1, dmEvent2 := {}, {}, {}, {}, {};
    }

    /** No command is under way, and the FIFO events are masked. */
    ghost predicate Idle()
      reads this
    {
      && !duringCmdProcessing && !duringTransfer && !duringDmaTransfer && !stateMachineBlocking && !forceTerminate
      && !Any(info2Mask, INFO2_BWE + INFO2_BRE) && pass <= |env|
    }

    // ---------- emmc_interrupt.c ----------

    /** The first n words of the buffer of `start` have gone through the FIFO, and nothing else has. */
    ghost predicate MovedWords(start: Start, n: nat)
      reads `write, `sent, `fifoPos, ram
    {
      && start.buffer.Some? && |start.ram| == ram.Length && start.buffer.value + n <= ram.Length
      && var b := start.buffer.value;
      && if write then
           sent == start.sent + start.ram[b..b + n] && ram[..] == start.ram && fifoPos == start.fifoPos
         else
           && sent == start.sent && fifoPos == start.fifoPos + n
           && forall i :: 0 <= i < ram.Length ==>
                ram[i] == if b <= i < b + n then fifo(start.fifoPos + (i - b)) else start.ram[i]
    }

    /** The data of the transfer that `start` describes has been moved once. */
    ghost predicate Transferred(start: Start)
      reads `write, `sent, `fifoPos, `transfers, ram
    {
      MovedWords(start, start.remainSize / 8) && transfers == start.transfers + 1
    }

    ghost predicate Still(start: Start)
      reads `sent, `fifoPos, `transfers, ram
    {
      ram[..] == start.ram && sent == start.sent && fifoPos == start.fifoPos && transfers == start.transfers
    }

    ghost function Now(): Start
      reads `sent, `fifoPos, `transfers, ram, `remainSize, `buffer
    {
      Start(ram[..], sent, fifoPos, transfers, remainSize, buffer)
    }

    /** emmc_trans_sector: the whole remaining size, in 64-bit words. */
    method TransSector() returns (ok: bool)
      requires buffer.Some? && duringTransfer ==> buffer.value + remainSize / 8 <= ram.Length
      modifies `sent, `fifoPos, `transfers, ram
      ensures ok <==> buffer.Some? && duringTransfer && remainSize != 0
      ensures if ok then Transferred(old(Now())) else Still(old(Now()))
    {
      hide MovedWords;
      if buffer.None? {
        return false;
      }
      if !duringTransfer || remainSize == 0 {
        return false;
      }
      ghost var start := Now();
      var n := remainSize / 8;
      NoneMoved(start);
      var i := 0;
      while i < n
        invariant i <= n && MovedWords(start, i) && transfers == start.transfers
      {
        MoveWord(buffer.value + i, i, start);
        i := i + 1;
      }
      transfers := transfers + 1;
      ok := true;
    }

    /** One word from the buffer to the FIFO, or back. */
    method MoveWord(at: nat, ghost i: nat, ghost start: Start)
      requires MovedWords(start, i) && at == start.buffer.value + i < ram.Length
      modifies `sent, `fifoPos, ram
      ensures MovedWords(start, i + 1)
    {
      if write {
        assert start.ram[at - i..at + 1] == start.ram[at - i..at] + [start.ram[at]];
        sent := sent + [ram[at]];
      } else {
        ram[at] := fifo(fifoPos);
        fifoPos := fifoPos + 1;
      }
    }

    lemma NoneMoved(start: Start)
      requires start == Now() && buffer.Some? && buffer.value <= ram.Length
      ensures MovedWords(start, 0)
    {
    }

    method MaskAll()
      modifies `info1Mask, `info2Mask
      ensures info1Mask == {} && info2Mask == INFO2_CLEAR
    {
      info1Mask, info2Mask := {}, INFO2_CLEAR;
    }

    function Beyond(buffer: Option<nat>): (r: Option<nat>) {
      if buffer.Some? then Some(buffer.value + 256) else None
    }

    /** The BWE/BRE branch. */
    method FifoEvent()
      requires buffer.Some? && duringTransfer ==> buffer.value + remainSize / 8 <= ram.Length
      modifies `sent, `fifoPos, `transfers, ram, `remainSize, `buffer, `info1Mask, `info2Mask, `forceTerminate,
        `duringTransfer, `stateMachineBlocking
      ensures var ok := old(buffer).Some? && old(duringTransfer) && old(remainSize) != 0;
        && !stateMachineBlocking
        && (if ok then Transferred(old(Now())) else Still(old(Now())))
        && forceTerminate == (old(forceTerminate) || !ok) && duringTransfer == (old(duringTransfer) && !ok)
        && (if ok then info1Mask == old(info1Mask) && info2Mask == old(info2Mask)
            else info1Mask == {} && info2Mask == INFO2_CLEAR)
        && buffer == Beyond(old(buffer)) && remainSize == Wrap32(old(remainSize) - 512)
    {
      hide Transferred, Still;
      var ok := TransSector();
      buffer := Beyond(buffer);   // by 512 elements of type uint32_t
      remainSize := Wrap32(remainSize - 512);
      if !ok {
        MaskAll();
        forceTerminate := true;
      } else {
        duringTransfer := false;
      }
      stateMachineBlocking := false;
    }

    /** One DMA channel has completed or failed. */
    method ChannelEvent(channel: Register)
      modifies `dmaErrorFlag, `duringDmaTransfer, `duringTransfer, `stateMachineBlocking
      ensures !stateMachineBlocking
      ensures dmaErrorFlag == (old(dmaErrorFlag) || Any(dmEvent2, channel))
      ensures duringDmaTransfer == (old(duringDmaTransfer) && Any(dmEvent2, channel))
      ensures duringTransfer == (old(duringTransfer) && Any(dmEvent2, channel))
    {
      if Any(dmEvent2, channel) {
        dmaErrorFlag := true;
      } else {
        duringDmaTransfer, duringTransfer := false, false;
      }
      stateMachineBlocking := false;
    }

    method ReadEvents()
      requires pass < |env|
      modifies `pass, `info2, `intEvent1, `intEvent2, `dmEvent1, `dmEvent2
      ensures pass == old(pass) + 1 && info2 == env[old(pass)].info2
      ensures intEvent1 == env[old(pass)].info1 * info1Mask && intEvent2 == env[old(pass)].info2 * info2Mask
      ensures dmEvent1 == env[old(pass)].dm1 * dm1Mask && dmEvent2 == env[old(pass)].dm2 * dm2Mask
    {
      var s := env[pass];
      info2 := s.info2;
      intEvent1, intEvent2 := s.info1 * info1Mask, s.info2 * info2Mask;
      dmEvent1, dmEvent2 := s.dm1 * dm1Mask, s.dm2 * dm2Mask;
      pass := pass + 1;
    }

    ghost function FlagsNow(): Flags
      reads `stateMachineBlocking, `forceTerminate, `duringTransfer, `duringDmaTransfer, `dmaErrorFlag, `info1Mask,
        `info2Mask
    {
      Flags(stateMachineBlocking, forceTerminate, duringTransfer, duringDmaTransfer, dmaErrorFlag, info1Mask, info2Mask)
    }

    /**
     What an event does to a driver object with the given flags and transfer; `dmEvent2` tells a failed DMA channel
     from a finished one.
     */
    ghost predicate Handled(e: Event, f: Flags, t: Start)
      reads this, ram
    {
      var copied := e == Fifo && t.buffer.Some? && f.duringTransfer && t.remainSize != 0;
      var failed := e == Fifo && !copied;
      var onChannel := e == Channel0 || e == Channel1;
      var dmaFailed := Any(dmEvent2, if e == Channel0 then DM_CH0 else DM_CH1);
      && stateMachineBlocking == (f.stateMachineBlocking && e == Nothing)
      && (if copied then Transferred(t) else Still(t))
      && (e != Fifo ==> remainSize == t.remainSize && buffer == t.buffer)
      && forceTerminate == (f.forceTerminate || failed)
      && duringTransfer == (f.duringTransfer && !copied && !(onChannel && !dmaFailed))
      && duringDmaTransfer == (f.duringDmaTransfer && !(onChannel && !dmaFailed))
      && dmaErrorFlag == (f.dmaErrorFlag || (onChannel && dmaFailed))
      && info1Mask == (if e == Failure || failed then {} else f.info1Mask)
      && info2Mask == (if e == Failure || failed then INFO2_CLEAR else f.info2Mask)
    }

    method Handle(e: Event, ghost f: Flags, ghost t: Start)
      requires f == FlagsNow() && t == Now()
      requires e == Fifo && buffer.Some? && duringTransfer ==> buffer.value + remainSize / 8 <= ram.Length
      modifies `sent, `fifoPos, `transfers, ram, `remainSize, `buffer, `info1Mask, `info2Mask, `forceTerminate,
        `duringTransfer, `duringDmaTransfer, `dmaErrorFlag, `stateMachineBlocking
      ensures Handled(e, f, t)
    {
      hide Any, Covers, Transferred;
      match e
      case Failure =>
        MaskAll();
        stateMachineBlocking := false;
      case Fifo =>
        FifoEvent();
      case Channel0 =>
        ChannelEvent(DM_CH0);
      case Channel1 =>
        ChannelEvent(DM_CH1);
      case ResponseEnd =>
        stateMachineBlocking := false;
      case AccessEnded =>
        stateMachineBlocking := false;
      case Nothing =>
    }

    function NewEvent(): Event
      reads `intEvent1, `intEvent2, `dmEvent1
    {
      Decode(intEvent1, intEvent2, dmEvent1)
    }

    /** The events of one more pass, and their effect. */
    twostate predicate Polled(e: Event)
      reads this, ram
    {
      && old(pass) < |env| && pass == old(pass) + 1
      && var s := env[old(pass)];
      && info2 == s.info2
      && intEvent1 == s.info1 * old(info1Mask) && intEvent2 == s.info2 * old(info2Mask)
      && dmEvent1 == s.dm1 * old(dm1Mask) && dmEvent2 == s.dm2 * old(dm2Mask)
      && unchanged(`dm1Mask, `dm2Mask, `cmd, `write, `dma, `currentState, `response, `responseLength)
      && unchanged(`duringCmdProcessing)
      && e == NewEvent() && Handled(e, old(FlagsNow()), old(Now()))
    }

    /** emmc_interrupt: one poll of the registers and the branch it takes. */
    method Interrupt()
      requires pass < |env|
      requires Any(info2Mask, INFO2_BWE + INFO2_BRE) && buffer.Some? && duringTransfer ==>
        buffer.value + remainSize / 8 <= ram.Length
      modifies `pass, `info2, `intEvent1, `intEvent2, `dmEvent1, `dmEvent2, `sent, `fifoPos, `transfers, ram,
        `remainSize, `buffer, `info1Mask, `info2Mask, `forceTerminate, `duringTransfer, `duringDmaTransfer,
        `dmaErrorFlag, `stateMachineBlocking
      ensures Polled(NewEvent())
    {
      hide Any, Covers, Transferred, Decode, Handled;
      ReadEvents();
      assert Now() == old(Now());
      var event := Decode(intEvent1, intEvent2, dmEvent1);
      FifoNeedsMask(env[old(pass)], info1Mask, info2Mask, dm1Mask);
      Handle(event, old(FlagsNow()), old(Now()));
    }

    // ---------- what holds while a command runs ----------

    /** Nothing has been moved yet. */
    ghost predicate Fresh(start: Start)
      reads `sent, `fifoPos, `transfers, ram, `remainSize, `buffer
    {
      Still(start) && remainSize == start.remainSize && buffer == start.buffer
    }

    /** The PIO buffer of a data command has room for its size. */
    ghost predicate Fits(start: Start) {
      start.buffer.Some? ==> start.buffer.value + start.remainSize / 8 <= ram.Length
    }

    function Channel(): Register
      reads `write
    {
      if write then DM_CH0 else DM_CH1
    }

    /** The DMA events that a transfer in this direction leaves unmasked. */
    function ChannelMask(): Register
      reads `write
    {
      if write then DM_MASK_CH0 else DM_MASK_CH1
    }

    /** A response came, without an error bit, and its status bits let the command go on. */
    ghost predicate Responded(s: Snapshot, errorMask: Uint32)
      reads `cmd, `currentState, `response, `responseLength
    {
      && Any(s.info1, INFO1_INFO0) && !Any(s.info2, INFO2_ALL_ERR)
      && CheckedResponse(cmd, s.rsp10, errorMask) == Success
      && (HasCardStatus(cmd) ==> currentState == CardState(s.rsp10))
      && (ResponseType(cmd) != RESPONSE_NONE && responseLength != 17 ==> response == s.rsp10)
    }

    /**
     What ended the wait for the data: the DMA channel, without error; or the FIFO event of a PIO transfer, which
     copied the data. Without that event a PIO transfer is ended by an unmasked DMA event, and then nothing is copied.
     */
    ghost predicate DataDone(s: Snapshot, start: Start)
      reads `dma, `write, `sent, `fifoPos, `transfers, `dm1Mask, ram
    {
      && !Any(s.info2, INFO2_ALL_ERR)
      && if dma then Any(s.dm1, Channel()) && !Any(s.dm2, Channel()) && dm1Mask == ChannelMask()
         else if Any(s.info2, FifoReady(write)) then Transferred(start)
         else Still(start) && Any(s.dm1 * dm1Mask, DM_CH0 + DM_CH1)
    }

    /** What the passes since `from` have shown. */
    ghost predicate Evident(level: nat, from: nat, errorMask: Uint32, start: Start, ev: Evidence)
      requires pass <= |env|
      reads `pass, `cmd, `currentState, `response, `responseLength, `dma, `write, `sent, `fifoPos, `transfers,
        `dm1Mask, ram
    {
      && (level >= 1 ==> from <= ev.response < pass && Responded(env[ev.response], errorMask))
      && (level >= 2 && ResponseType(cmd) == RESPONSE_R1B ==>
            && ev.response < ev.release < pass
            && Any(env[ev.release].info2, INFO2_DAT0) && !Any(env[ev.release].info2, INFO2_ALL_ERR))
      && (level >= 3 && IsData(cmd) && ResponseType(cmd) != RESPONSE_NONE ==>
            ev.response < ev.data < pass && DataDone(env[ev.data], start))
    }

    /** What holds both before and after a poll. */
    ghost predicate Sound(state: State, rtn: Code, from: nat, start: Start)
      reads this, ram
    {
      && from <= pass <= |env| && RunCode(rtn)
      && (state.TransferError? ==> rtn != Success) && (state.TransferError? || state.Error? || rtn == Success)
      && (Still(start) || Transferred(start)) && (dma || Fits(start))
      && (Rank(state) < 5 ==> Fresh(start))
      && (duringDmaTransfer ==> dma && (state.DataTransferComplete? || state.AccessEnd? || state.TransferError?))
      && (state.Begin? ==> !duringCmdProcessing && !duringTransfer)
      && (Any(info2Mask, INFO2_BWE + INFO2_BRE) ==>
            && (state.DataTransferComplete? || state.TransferError?) && IsData(cmd) && !dma
            && (duringTransfer ==> Fresh(start)))
      && (state.NonRespCmd? ==> ResponseType(cmd) == RESPONSE_NONE)
      && (Rank(state) >= 3 && Rank(state) <= 6 && !state.CheckResponseComplete? ==> IsData(cmd))
    }

    /** The invariant of the command loop. */
    ghost predicate Inv(state: State, rtn: Code, from: nat, errorMask: Uint32, start: Start, ev: Evidence)
      reads this, ram
    {
      && Sound(state, rtn, from, start)
      && (stateMachineBlocking <==> Waits(state))
      && (forceTerminate ==> state.AccessEnd? || state.TransferError?)
      && (SeesErrors(state) ==> Covers(info2Mask, INFO2_ALL_ERR))
      && (AfterResponse(state) ==> info1Mask == {})
      && (state.NonRespCmd? || state.RcvResp? ==> info1Mask == INFO1_INFO0)
      && (state.AccessEnd? && !forceTerminate ==> info1Mask == INFO1_INFO2)
      && (state.DataTransferComplete? ==> Fresh(start) && (dma ==> DmaStarted()))
      && (state.DataTransferComplete? && !dma ==>
            duringTransfer && !Any(info2Mask, FifoReady(!write)) && Covers(info2Mask, FifoReady(write)))
      && (!forceTerminate ==> Evident(Level(state, rtn), from, errorMask, start, ev))
    }

    ghost predicate DmaStarted()
      reads this
    {
      && duringDmaTransfer && !dmaErrorFlag && !Any(info2Mask, INFO2_BWE + INFO2_BRE)
      && dm1Mask == dm2Mask == ChannelMask()
    }

    /** What an unblocking poll leaves to the state that was waiting for it. */
    ghost predicate Go(state: State, rtn: Code, from: nat, errorMask: Uint32, start: Start, ev: Evidence)
      reads this, ram
    {
      && Sound(state, rtn, from, start) && from < pass && !stateMachineBlocking
      && info2 == env[pass - 1].info2
      && (Any(intEvent1, INFO1_INFO0) ==> Any(env[pass - 1].info1, INFO1_INFO0))
      && (forceTerminate ==> state.DataTransferComplete? || state.TransferError?)
      && (SeesErrors(state) ==>
            Any(intEvent2, INFO2_ALL_ERR) ||
            (!Any(env[pass - 1].info2, INFO2_ALL_ERR) && (!forceTerminate ==> Covers(info2Mask, INFO2_ALL_ERR))))
      && (AfterResponse(state) ==> info1Mask == {})
      && (state.DataTransferComplete? && !Any(intEvent2, INFO2_ALL_ERR) && !dmaErrorFlag ==>
            !duringDmaTransfer && (forceTerminate || DataDone(env[pass - 1], start)))
      && (!forceTerminate ==> Evident(Level(state, rtn), from, errorMask, start, ev))
      && (!forceTerminate && Level(state, rtn) > 0 ==> ev.response < pass - 1)
    }

    /** emmc_interrupt at the head of a pass. */
    method Poll(ghost state: State, ghost rtn: Code, ghost from: nat, ghost errorMask: Uint32, ghost start: Start,
                ghost ev: Evidence)
      requires Inv(state, rtn, from, errorMask, start, ev) && !forceTerminate && pass < |env|
      modifies `pass, `info2, `intEvent1, `intEvent2, `dmEvent1, `dmEvent2, `sent, `fifoPos, `transfers, ram,
        `remainSize, `buffer, `info1Mask, `info2Mask, `forceTerminate, `duringTransfer, `duringDmaTransfer,
        `dmaErrorFlag, `stateMachineBlocking
      ensures pass == old(pass) + 1
      ensures stateMachineBlocking ==> Inv(state, rtn, from, errorMask, start, ev) && !forceTerminate
      ensures !stateMachineBlocking ==> Go(state, rtn, from, errorMask, start, ev)
      ensures !stateMachineBlocking ==> Witnessed(state)
      ensures !Waits(state) ==> !stateMachineBlocking
      ensures forall k :: 0 <= k < 6 && old(OnShow(k, state, rtn, start)) && env[old(pass)] == Shown(state) ==>
        !stateMachineBlocking && PolledShow(k, state, rtn, start)
    {
      hide Inv, Go, Any, Polled, NewEvent, OnShow, PolledShow, Shown, Witnessed;
      PollFits(state, rtn, from, errorMask, start, ev);
      Interrupt();
      AfterPoll(Position(state, rtn, from, errorMask, start, ev));
      WitnessAfter(Position(state, rtn, from, errorMask, start, ev));
      NotBlocked(Position(state, rtn, from, errorMask, start, ev));
      ShownPoll(Position(state, rtn, from, errorMask, start, ev));
    }

    /** What the masked events of the last poll say about its registers. */
    ghost predicate Witnessed(state: State)
      reads this
    {
      && 0 < pass <= |env|
      && var s := env[pass - 1];
      && (Any(intEvent2, INFO2_ALL_ERR) ==> Any(s.info2, INFO2_ALL_ERR))
      && (state.NonRespCmd? || state.RcvResp? ==> (Any(intEvent1, INFO1_INFO0) <==> Any(s.info1, INFO1_INFO0)))
      && (state.DataTransferComplete? ==> IsData(cmd) && (dma && dmaErrorFlag ==> Any(s.dm2, Channel())))
      && (forceTerminate ==> !dma && IsData(cmd) && Any(s.info2, INFO2_BWE + INFO2_BRE))
    }

    twostate lemma NotBlocked(p: Position)
      requires old(Inv(p.state, p.rtn, p.from, p.errorMask, p.start, p.ev))
      requires Polled(NewEvent())
      ensures !Waits(p.state) ==> !stateMachineBlocking
    {
      hide Any, Covers, Transferred, Still, Fits, Evident, IsData, ResponseType, Decode, Sound;
    }

    twostate lemma WitnessAfter(p: Position)
      requires old(Inv(p.state, p.rtn, p.from, p.errorMask, p.start, p.ev) && !forceTerminate)
      requires Polled(NewEvent())
      ensures Witnessed(p.state)
    {
      hide Any, Covers, Transferred, Still, Fits, Evident, IsData, ResponseType, Decode;
      ErrorsAfter();
      Masked(env[pass - 1].info2, old(info2Mask), INFO2_ALL_ERR);
      SameMasked(env[pass - 1].info1, old(info1Mask));
      OnlyChannel(env[pass - 1].dm2, old(dm2Mask), write);
    }

    /** A failed DMA event under the mask of one direction is that of its channel. */
    lemma OnlyChannel(x: Register, m: Register, write: bool)
      ensures m == (if write then DM_MASK_CH0 else DM_MASK_CH1) && (Any(x * m, DM_CH0) || Any(x * m, DM_CH1)) ==>
        Any(x, if write then DM_CH0 else DM_CH1)
    {
      if m == (if write then DM_MASK_CH0 else DM_MASK_CH1) && (Any(x * m, DM_CH0) || Any(x * m, DM_CH1)) {
        var b :| b in x * m && b in DM_CH0 + DM_CH1;
        assert b in x * (if write then DM_CH0 else DM_CH1);
      }
    }

    lemma PollFits(state: State, rtn: Code, from: nat, errorMask: Uint32, start: Start, ev: Evidence)
      requires Inv(state, rtn, from, errorMask, start, ev)
      ensures Any(info2Mask, INFO2_BWE + INFO2_BRE) && buffer.Some? && duringTransfer ==>
        buffer.value + remainSize / 8 <= ram.Length
    {
      hide Any, Covers, Evident, Transferred;
    }

    twostate lemma AfterPoll(p: Position)
      requires old(Inv(p.state, p.rtn, p.from, p.errorMask, p.start, p.ev) && !forceTerminate)
      requires Polled(NewEvent())
      ensures pass == old(pass) + 1
      ensures stateMachineBlocking ==> Inv(p.state, p.rtn, p.from, p.errorMask, p.start, p.ev) && !forceTerminate
      ensures !stateMachineBlocking ==> Go(p.state, p.rtn, p.from, p.errorMask, p.start, p.ev)
    {
      hide Any, Covers, Transferred, Responded, DataDone, IsData, ResponseType, Decode, Evident;
      SoundAfter(p);
      EvidentAfter(p);
      ErrorsAfter();
      DataAfter(p);
    }

    twostate lemma SoundAfter(p: Position)
      requires old(Inv(p.state, p.rtn, p.from, p.errorMask, p.start, p.ev) && !forceTerminate)
      requires Polled(NewEvent())
      ensures Sound(p.state, p.rtn, p.from, p.start)
      ensures NewEvent() != Fifo && old(Fresh(p.start)) ==> Fresh(p.start)
    {
      hide Any, Covers, Responded, DataDone, IsData, ResponseType, Evident, Decode;
      ErrorsAfter();
      NoneAny(INFO2_BWE);
    }

    /** What has been seen stays seen. */
    twostate lemma EvidentAfter(p: Position)
      requires old(Inv(p.state, p.rtn, p.from, p.errorMask, p.start, p.ev) && !forceTerminate)
      requires Polled(NewEvent())
      ensures Evident(Level(p.state, p.rtn), p.from, p.errorMask, p.start, p.ev)
      ensures Level(p.state, p.rtn) > 0 ==> p.ev.response < pass - 1
    {
      hide Any, Covers, IsData, ResponseType, CheckedResponse, HasCardStatus, CardState, Decode;
      ErrorsAfter();
    }

    twostate lemma ErrorsAfter()
      requires Polled(NewEvent())
      ensures old(Covers(info2Mask, INFO2_ALL_ERR)) ==>
        Any(intEvent2, INFO2_ALL_ERR) || !Any(env[pass - 1].info2, INFO2_ALL_ERR)
      ensures Any(intEvent1, INFO1_INFO0) ==> Any(env[pass - 1].info1, INFO1_INFO0)
      ensures NewEvent() == Failure <==> Any(intEvent2, INFO2_ALL_ERR)
      ensures NewEvent() == Fifo ==>
        Any(env[pass - 1].info2, INFO2_BWE + INFO2_BRE) && old(Any(info2Mask, INFO2_BWE + INFO2_BRE))
      ensures old(info1Mask) == {} ==> NewEvent() != ResponseEnd && NewEvent() != AccessEnded
      ensures NewEvent() == Fifo && old(!Any(info2Mask, FifoReady(!write))) ==>
        Any(env[pass - 1].info2, FifoReady(write))
      ensures NewEvent() != Failure && NewEvent() != Fifo && old(Covers(info2Mask, FifoReady(write))) ==>
        !Any(env[pass - 1].info2, FifoReady(write))
      ensures NewEvent() == Channel0 || NewEvent() == Channel1 ==> Any(env[pass - 1].dm1 * dm1Mask, DM_CH0 + DM_CH1)
    {
      hide Any, Covers, Handled;
      ReadyMasked(env[pass - 1].info2, old(info2Mask), write);
      EitherChannel(dmEvent1);
      Masked(env[pass - 1].info2, old(info2Mask), INFO2_ALL_ERR);
      Masked(env[pass - 1].info2, old(info2Mask), INFO2_BWE + INFO2_BRE);
      OtherSideMasked(env[pass - 1].info2, old(info2Mask), write);
      Masked(env[pass - 1].info1, old(info1Mask), INFO1_INFO0);
      Masked(env[pass - 1].info1, old(info1Mask), INFO1_INFO2);
      NoneAny(INFO1_INFO0);
      NoneAny(INFO1_INFO2);
    }

    twostate lemma DataAfter(p: Position)
      requires old(Inv(p.state, p.rtn, p.from, p.errorMask, p.start, p.ev) && !forceTerminate)
      requires Polled(NewEvent())
      ensures p.state.DataTransferComplete? && !stateMachineBlocking && !dmaErrorFlag && NewEvent() != Failure ==>
        !duringDmaTransfer && (forceTerminate || DataDone(env[pass - 1], p.start))
    {
    }

    // ---------- emmc_cmd.c ----------

    /** The code that the arm of `state` leaves in rtn_code, from the events of the poll before it. */
    function ArmCode(state: State, errorMask: Uint32): Code
      requires 0 < pass <= |env|
      reads `pass, `cmd, `intEvent1, `intEvent2, `dmaErrorFlag
    {
      if SeesErrors(state) && Any(intEvent2, INFO2_ALL_ERR) then ErrInfo2
      else match state
        case NonRespCmd => if Any(intEvent1, INFO1_INFO0) then Success else ErrResponse
        case RcvResp =>
          if Any(intEvent1, INFO1_INFO0) then CheckedResponse(cmd, env[pass - 1].rsp10, errorMask) else ErrResponse
        case DataTransferComplete => if dmaErrorFlag then ErrFromDmacTransfer else Success
        case _ => Success
    }

    /** The state that the arm of `state` moves to when it leaves `rtn`. */
    function NextState(state: State, rtn: Code): State
      reads `cmd, `info2, `intEvent1
    {
      match state
      case Begin => if ResponseType(cmd) == RESPONSE_NONE then NonRespCmd else RcvResp
      case NonRespCmd => if rtn == Success then End else Error
      case RcvResp =>
        if rtn != Success then Error
        else if ResponseType(cmd) == RESPONSE_R1B then RcvResponseBusy else CheckResponseComplete
      case RcvResponseBusy =>
        if rtn != Success then Error else if Any(info2, INFO2_DAT0) then CheckResponseComplete else RcvResponseBusy
      case CheckResponseComplete => if IsData(cmd) then DataTransfer else End
      case DataTransfer => DataTransferComplete
      case DataTransferComplete => if rtn == Success then AccessEnd else TransferError
      case AccessEnd => if Any(intEvent1, INFO1_INFO2) then End else Error
      case _ => End
    }

    /** BEGIN and ISSUE_CMD: unless the card is busy, unmask the response events and issue the command. */
    method IssueCommand(ghost from: nat, ghost errorMask: Uint32, ghost start: Start, ghost ev: Evidence)
      returns (busy: bool, state: State)
      requires Go(Begin, Success, from, errorMask, start, ev)
      modifies `info1Mask, `info2Mask, `duringCmdProcessing, `stateMachineBlocking
      ensures busy <==> Any(info2, INFO2_CBSY)
      ensures busy ==> Idle() && Still(start)
      ensures !busy ==> Inv(state, Success, from, errorMask, start, ev) && state == NextState(Begin, Success)
    {
      hide Any, Covers, ResponseType, IsData, Responded, DataDone, Transferred, Fits;
      busy, state := Any(info2, INFO2_CBSY), Begin;
      if busy {
        return;
      }
      UnmaskResponse();
      state := if ResponseType(cmd) == RESPONSE_NONE then NonRespCmd else RcvResp;
    }

    method UnmaskResponse()
      modifies `info1Mask, `info2Mask, `duringCmdProcessing, `stateMachineBlocking
      ensures stateMachineBlocking && duringCmdProcessing && info1Mask == INFO1_INFO0
      ensures Covers(info2Mask, INFO2_ALL_ERR) && !Any(info2Mask, INFO2_BWE + INFO2_BRE)
    {
      hide Any, Covers;
      NoneAny({});
      info1Mask, info2Mask := INFO1_INFO0, INFO2_ALL_ERR + INFO2_CLEAR;
      duringCmdProcessing, stateMachineBlocking := true, true;
    }

    /** The checks of NON_RESP_CMD. */
    method CheckEnded() returns (rtn: Code)
      modifies `info1Mask, `info2Mask
      ensures info1Mask == {} && !Any(info2Mask, INFO2_BWE + INFO2_BRE)
      ensures rtn == if Any(intEvent2, INFO2_ALL_ERR) then ErrInfo2
                     else if !Any(intEvent1, INFO1_INFO0) then ErrResponse else Success
    {
      hide Any;
      MaskAll();
      NoneAny({});
      rtn := Success;
      if Any(intEvent2, INFO2_ALL_ERR) {
        rtn := ErrInfo2;
      } else if !Any(intEvent1, INFO1_INFO0) {
        rtn := ErrResponse;
      }
    }

    /** NON_RESP_CMD. */
    method FinishWithoutResponse(ghost from: nat, ghost errorMask: Uint32, ghost start: Start, ghost ev0: Evidence)
      returns (state: State, rtn: Code, ghost ev: Evidence)
      requires Go(NonRespCmd, Success, from, errorMask, start, ev0) && !forceTerminate
      modifies `info1Mask, `info2Mask
      ensures Inv(state, rtn, from, errorMask, start, ev)
      ensures rtn == old(ArmCode(NonRespCmd, errorMask)) && state == NextState(NonRespCmd, rtn)
    {
      hide Any, Covers, ResponseType, IsData, DataDone, Transferred, CardState, Still, Fresh, Fits;
      ev := Evidence(pass - 1, 0, 0);
      rtn := CheckEnded();
      state := if rtn == Success then End else Error;
    }

    /** emmc_read_response. */
    method ReadResponse()
      requires 0 < pass <= |env|
      modifies `response, `longResponse
      ensures responseLength != 17 ==> response == env[pass - 1].rsp10 && longResponse == old(longResponse)
      ensures responseLength == 17 ==> response == old(response)
      ensures responseLength == 17 ==>
        && |longResponse| == 16 && AreBytes(longResponse)
        && var s := env[pass - 1]; Value(longResponse) == RegisterOf(s.rsp76, s.rsp54, s.rsp32, s.rsp10)
    {
      hide Value, RegisterOf, AreBytes;
      var s := env[pass - 1];
      if responseLength == 17 {
        ResponseBytes(s.rsp76, s.rsp54, s.rsp32, s.rsp10);
        longResponse := LongResponse(s.rsp76, s.rsp54, s.rsp32, s.rsp10);
      } else {
        response := s.rsp10;
      }
    }

    /** emmc_response_check, which also records the card state of an R1 response. */
    method CheckResponse(errorMask: Uint32, word: Uint32) returns (rtn: Code)
      modifies `currentState
      ensures rtn == CheckedResponse(cmd, word, errorMask)
      ensures rtn == if Rejects(cmd, word, errorMask) then ErrCardStatusBit else Success
      ensures currentState == if Bits(cmd, 11, 8) in {1, 2} then Bits(word, 12, 9) else old(currentState)
    {
      hide CardState, Bits, And, ResponseType, CheckedResponse, Rejects;
      CommandWord(cmd);
      CheckedIs(cmd, word, errorMask);
      StateBits(word);
      if HasCardStatus(cmd) {
        currentState := CardState(word);
      }
      rtn := CheckedResponse(cmd, word, errorMask);
    }

    method TakeResponse(errorMask: Uint32) returns (rtn: Code)
      requires 0 < pass <= |env| && Any(env[pass - 1].info1, INFO1_INFO0) && !Any(env[pass - 1].info2, INFO2_ALL_ERR)
      requires responseLength == 17 ==> ResponseType(cmd) == RESPONSE_R2
      modifies `response, `longResponse, `currentState
      ensures rtn == Success ==> Responded(env[pass - 1], errorMask)
      ensures rtn == CheckedResponse(cmd, env[pass - 1].rsp10, errorMask) && (rtn == Success || rtn == ErrCardStatusBit)
    {
      hide Any, Covers, ResponseType, CardState, CheckedResponse, HasCardStatus, Bits, IsSet;
      ReadResponse();
      CheckedCodes(cmd, env[pass - 1].rsp10, errorMask);
      CommandWord(cmd);
      StatusKinds(cmd);
      StateBits(env[pass - 1].rsp10);
      rtn := CheckResponse(errorMask, env[pass - 1].rsp10);
    }

    /** The checks of RCV_RESP. */
    method Receive(errorMask: Uint32) returns (state: State, rtn: Code)
      requires 0 < pass <= |env|
      requires Any(intEvent1, INFO1_INFO0) ==> Any(env[pass - 1].info1, INFO1_INFO0)
      requires Any(intEvent2, INFO2_ALL_ERR) || !Any(env[pass - 1].info2, INFO2_ALL_ERR)
      requires responseLength == 17 ==> ResponseType(cmd) == RESPONSE_R2
      modifies `info1Mask, `info2Mask, `response, `longResponse, `currentState
      ensures info1Mask == {} && !Any(info2Mask, INFO2_BWE + INFO2_BRE) && RunCode(rtn)
      ensures rtn == if Any(intEvent2, INFO2_ALL_ERR) then ErrInfo2
                     else if !Any(intEvent1, INFO1_INFO0) then ErrResponse
                     else CheckedResponse(cmd, env[pass - 1].rsp10, errorMask)
      ensures rtn == Success ==> Responded(env[pass - 1], errorMask)
      ensures state == if rtn != Success then Error
                       else if ResponseType(cmd) == RESPONSE_R1B then RcvResponseBusy else CheckResponseComplete
      ensures state == RcvResponseBusy ==> Covers(info2Mask, INFO2_ALL_ERR)
    {
      hide Any, Covers, ResponseType, Responded, CheckedResponse;
      MaskAll();
      NoneAny({});
      state, rtn := Error, Success;
      if Any(intEvent2, INFO2_ALL_ERR) {
        rtn := ErrInfo2;
      } else if !Any(intEvent1, INFO1_INFO0) {
        rtn := ErrResponse;
      } else {
        rtn := TakeResponse(errorMask);
        if rtn != Success {
        } else if ResponseType(cmd) == RESPONSE_R1B {
          info2Mask := INFO2_ALL_ERR + INFO2_CLEAR;
          state := RcvResponseBusy;
        } else {
          state := CheckResponseComplete;
        }
      }
    }

    /** RCV_RESP. */
    method ReceiveResponse(errorMask: Uint32, ghost from: nat, ghost start: Start, ghost ev0: Evidence)
      returns (state: State, rtn: Code, ghost ev: Evidence)
      requires Go(RcvResp, Success, from, errorMask, start, ev0) && !forceTerminate
      requires responseLength == 17 ==> ResponseType(cmd) == RESPONSE_R2
      modifies `info1Mask, `info2Mask, `response, `longResponse, `currentState
      ensures Inv(state, rtn, from, errorMask, start, ev)
      ensures rtn == old(ArmCode(RcvResp, errorMask)) && state == NextState(RcvResp, rtn)
    {
      hide Any, Covers, ResponseType, IsData, DataDone, Transferred, Responded, Still, Fresh, Fits;
      ev := Evidence(pass - 1, 0, 0);
      state, rtn := Receive(errorMask);
    }

    /** RCV_RESPONSE_BUSY: wait until the card releases DAT0. */
    method WaitReleased(ghost from: nat, ghost errorMask: Uint32, ghost start: Start, ghost ev0: Evidence)
      returns (state: State, rtn: Code, ghost ev: Evidence)
      requires Go(RcvResponseBusy, Success, from, errorMask, start, ev0) && !forceTerminate
      ensures Inv(state, rtn, from, errorMask, start, ev)
      ensures rtn == ArmCode(RcvResponseBusy, errorMask) && state == NextState(RcvResponseBusy, rtn)
    {
      hide Any, Covers, ResponseType, IsData, Responded, DataDone, Transferred, Still, Fresh, Fits;
      state, rtn, ev := RcvResponseBusy, Success, ev0;
      if Any(intEvent2, INFO2_ALL_ERR) {
        state, rtn := Error, ErrInfo2;
      } else if Any(info2, INFO2_DAT0) {
        state, ev := CheckResponseComplete, ev0.(release := pass - 1);
      }
    }

    /** CHECK_RESPONSE_COMPLETE. */
    method AfterCheck(ghost from: nat, ghost errorMask: Uint32, ghost start: Start, ghost ev: Evidence)
      returns (state: State)
      requires Go(CheckResponseComplete, Success, from, errorMask, start, ev) && !forceTerminate
      ensures Inv(state, Success, from, errorMask, start, ev) && state == NextState(CheckResponseComplete, Success)
    {
      hide Any, Covers, ResponseType, Responded, DataDone, Transferred;
      state := if IsData(cmd) then DataTransfer else End;
    }

    /** DATA_TRANSFER: start the DMA channel, or unmask the FIFO events. */
    method StartData(ghost from: nat, ghost errorMask: Uint32, ghost start: Start, ghost ev: Evidence)
      requires Go(DataTransfer, Success, from, errorMask, start, ev) && !forceTerminate
      modifies `duringTransfer, `stateMachineBlocking, `duringDmaTransfer, `dmaErrorFlag, `info1Mask, `info2Mask,
        `dm1Mask, `dm2Mask
      ensures Inv(DataTransferComplete, Success, from, errorMask, start, ev)
      ensures !dma ==> dm1Mask == old(dm1Mask) && dmaErrorFlag == old(dmaErrorFlag)
    {
      hide Any, Covers, ResponseType, IsData, Responded, DataDone, Transferred, Still, Fresh, Fits;
      BeginTransfer();
    }

    /** DMA starts a channel; PIO unmasks the FIFO event of its direction. */
    method BeginTransfer()
      modifies `duringTransfer, `stateMachineBlocking, `duringDmaTransfer, `dmaErrorFlag, `info1Mask, `info2Mask,
        `dm1Mask, `dm2Mask
      ensures duringTransfer && stateMachineBlocking && Covers(info2Mask, INFO2_ALL_ERR)
      ensures dma ==> DmaStarted() && info1Mask == {}
      ensures !dma ==>
        && duringDmaTransfer == old(duringDmaTransfer) && info1Mask == old(info1Mask)
        && dm1Mask == old(dm1Mask) && dmaErrorFlag == old(dmaErrorFlag)
        && !Any(info2Mask, FifoReady(!write)) && Covers(info2Mask, FifoReady(write))
    {
      hide Any, Covers;
      duringTransfer, stateMachineBlocking := true, true;
      if dma {
        TransferDma();
      } else {
        var ready := FifoReady(write);
        NoneAny(ready);
        OneSide(write);
        info2Mask := ready + INFO2_ALL_ERR + INFO2_CLEAR;
      }
    }

    /** emmc_data_transfer_dma: unmask the events of the channel for this direction only. */
    method TransferDma()
      modifies `duringDmaTransfer, `dmaErrorFlag, `info1Mask, `info2Mask, `dm1Mask, `dm2Mask
      ensures DmaStarted() && info1Mask == {} && Covers(info2Mask, INFO2_ALL_ERR)
    {
      hide Any, Covers;
      NoneAny({});
      duringDmaTransfer, dmaErrorFlag := true, false;
      info1Mask, info2Mask := {}, INFO2_ALL_ERR + INFO2_CLEAR;
      var mask := ChannelMask();
      dm1Mask, dm2Mask := mask, mask;
    }

    /** DATA_TRANSFER_COMPLETE. */
    method FinishData(ghost from: nat, ghost errorMask: Uint32, ghost start: Start, ghost ev0: Evidence)
      returns (state: State, rtn: Code, ghost ev: Evidence)
      requires Go(DataTransferComplete, Success, from, errorMask, start, ev0)
      modifies `info1Mask, `info2Mask, `stateMachineBlocking
      ensures Inv(state, rtn, from, errorMask, start, ev)
      ensures rtn == old(ArmCode(DataTransferComplete, errorMask)) && state == NextState(DataTransferComplete, rtn)
    {
      hide Any, Covers, ResponseType, IsData, Responded, DataDone, Transferred, Still, Fresh, Fits;
      state, rtn, ev := TransferError, Success, ev0.(data := pass - 1);
      if Any(intEvent2, INFO2_ALL_ERR) {
        rtn := ErrInfo2;
      } else if dmaErrorFlag {
        rtn := ErrFromDmacTransfer;
      } else if duringDmaTransfer {
        rtn := Err;
      } else {
        UnmaskAccess();
        state := AccessEnd;
      }
    }

    method UnmaskAccess()
      modifies `info1Mask, `info2Mask, `stateMachineBlocking
      ensures stateMachineBlocking && !Any(info2Mask, INFO2_BWE + INFO2_BRE) && info1Mask == INFO1_INFO2
    {
      hide Any, Covers;
      NoneAny({});
      info1Mask, info2Mask := INFO1_INFO2, INFO2_ALL_ERR + INFO2_CLEAR;
      stateMachineBlocking := true;
    }

    /** ACCESS_END: without the access-end event the machine goes to ERROR, but the code stays SUCCESS. */
    method FinishAccess(ghost from: nat, ghost errorMask: Uint32, ghost start: Start, ghost ev: Evidence)
      returns (state: State)
      requires Go(AccessEnd, Success, from, errorMask, start, ev) && !forceTerminate
      modifies `duringDmaTransfer, `info1Mask, `info2Mask
      ensures Inv(state, Success, from, errorMask, start, ev) && state == NextState(AccessEnd, Success)
    {
      hide Any, Covers, ResponseType, IsData, Responded, DataDone, Transferred, Still, Fresh, Fits;
      if dma {
        duringDmaTransfer := false;
      }
      MaskAll();
      NoneAny({});
      state := if Any(intEvent1, INFO1_INFO2) then End else Error;
    }

    /** emmc_softreset: clear the flags, wait a bounded time for the controller, and mask everything. */
    method SoftReset()
      requires pass <= |env|
      modifies `duringCmdProcessing, `duringTransfer, `duringDmaTransfer, `stateMachineBlocking, `forceTerminate,
        `dmaErrorFlag, `info1Mask, `info2Mask, `polled
      ensures Idle() && !dmaErrorFlag && old(polled) < polled <= old(polled) + 10_010_001
      ensures Any(resetPolls(polled - 1), INFO2_CBSY) ==> polled == old(polled) + 10_010_001
    {
      duringCmdProcessing, duringTransfer, duringDmaTransfer := false, false, false;
      stateMachineBlocking, forceTerminate, dmaErrorFlag := false, false, false;
      WaitCommandSequence();
      MaskAll();
      NoneAny({});
    }

    /** The two nested countdowns of the soft reset, the inner one refilled from the outer. */
    method WaitCommandSequence()
      modifies `polled
      ensures old(polled) < polled <= old(polled) + 10_010_001
      ensures Any(resetPolls(polled - 1), INFO2_CBSY) ==> polled == old(polled) + 10_010_001
    {
      hide Any;
      var loop, retry := 10000, 1000;
      polled := polled + 1;
      if Any(resetPolls(polled - 1), INFO2_CBSY) {
        while loop > 0
          invariant 0 <= loop <= 10000 && 0 <= retry <= 1000 && (loop == 0 ==> retry == 0)
          invariant polled == old(polled) + 1 + (10000 - loop) + 10000 * (1000 - retry)
          invariant Any(resetPolls(polled - 1), INFO2_CBSY)
          decreases retry, loop
        {
          polled := polled + 1;
          if !Any(resetPolls(polled - 1), INFO2_CBSY) {
            break;
          }
          loop := loop - 1;
          if loop == 0 && retry > 0 {
            loop := 10000;
            retry := retry - 1;
          }
        }
      }
    }

    lemma GoPassed(state: State, rtn: Code, from: nat, errorMask: Uint32, start: Start, ev: Evidence)
      requires Go(state, rtn, from, errorMask, start, ev)
      ensures 0 < pass <= |env|
    {
      hide Any, Covers, ResponseType, IsData, Evident, Transferred, Still;
    }

    /** One pass of the switch, for the states before an error. */
    method Advance(state0: State, errorMask: Uint32, ghost from: nat, ghost start: Start, ghost ev0: Evidence)
      returns (busy: bool, state: State, rtn: Code, ghost ev: Evidence)
      requires Go(state0, Success, from, errorMask, start, ev0) && !state0.TransferError? && !state0.Error?
      requires state0 != End
      requires !forceTerminate || state0.DataTransferComplete?
      requires responseLength == 17 ==> ResponseType(cmd) == RESPONSE_R2
      modifies `info1Mask, `info2Mask, `dm1Mask, `dm2Mask, `duringCmdProcessing, `duringTransfer, `duringDmaTransfer,
        `dmaErrorFlag, `stateMachineBlocking, `response, `longResponse, `currentState
      ensures busy ==> Idle() && Still(start)
      ensures busy <==> state0 == Begin && Any(info2, INFO2_CBSY)
      ensures !busy ==> Inv(state, rtn, from, errorMask, start, ev)
      ensures !busy ==> rtn == old(ArmCode(state0, errorMask)) && state == NextState(state0, rtn)
      ensures !busy ==> Rank(state) > Rank(state0) || (state == state0 == RcvResponseBusy && !Any(info2, INFO2_DAT0))
      ensures !busy && !dma ==> dm1Mask == old(dm1Mask) && dmaErrorFlag == old(dmaErrorFlag)
    {
      hide Any, Covers, ResponseType, IsData, Go, Inv, Idle, Still, CheckedResponse;
      GoPassed(state0, Success, from, errorMask, start, ev0);
      busy, rtn, ev := false, Success, ev0;
      match state0
      case Begin =>
        busy, state := IssueCommand(from, errorMask, start, ev0);
      case NonRespCmd =>
        state, rtn, ev := FinishWithoutResponse(from, errorMask, start, ev0);
      case RcvResp =>
        state, rtn, ev := ReceiveResponse(errorMask, from, start, ev0);
      case RcvResponseBusy =>
        state, rtn, ev := WaitReleased(from, errorMask, start, ev0);
      case CheckResponseComplete =>
        state := AfterCheck(from, errorMask, start, ev0);
      case DataTransfer =>
        StartData(from, errorMask, start, ev0);
        state := DataTransferComplete;
      case DataTransferComplete =>
        state, rtn, ev := FinishData(from, errorMask, start, ev0);
      case AccessEnd =>
        state := FinishAccess(from, errorMask, start, ev0);
    }

    /** TRANSFER_ERROR and ERROR. */
    method Abort(state: State, ghost rtn: Code, ghost from: nat, ghost errorMask: Uint32, ghost start: Start,
                 ghost ev: Evidence)
      requires Go(state, rtn, from, errorMask, start, ev) && (state.TransferError? || state.Error?)
      modifies `duringCmdProcessing, `duringTransfer, `duringDmaTransfer, `stateMachineBlocking, `forceTerminate,
        `dmaErrorFlag, `info1Mask, `info2Mask, `polled
      ensures Idle() && (Still(start) || Transferred(start)) && polled <= old(polled) + 10_010_001
      ensures RunCode(rtn) && (rtn == Success ==> Evident(3, from, errorMask, start, ev))
    {
      hide Any, Covers, ResponseType, Transferred, Still, Fits, Evident, Idle;
      if state.TransferError? && dma {
        duringDmaTransfer := false;
      }
      SoftReset();
    }

    lemma Starting(errorMask: Uint32, start: Start, ev: Evidence)
      requires Idle() && start == Now() && (dma || Fits(start))
      ensures Inv(Begin, Success, pass, errorMask, start, ev)
    {
      hide Any, Covers, ResponseType, Transferred, Fits;
    }

    lemma Bounds(state: State, rtn: Code, from: nat, errorMask: Uint32, start: Start, ev: Evidence)
      requires Inv(state, rtn, from, errorMask, start, ev)
      ensures pass <= |env| && (Still(start) || Transferred(start)) && Rank(state) <= 7
      ensures state == End && !forceTerminate ==>
        && Evident(3, from, errorMask, start, ev)
        && !duringDmaTransfer && !stateMachineBlocking && !Any(info2Mask, INFO2_BWE + INFO2_BRE)
    {
      hide Any, Covers, ResponseType, Transferred, Still, Fits, Evident;
    }

    lemma NoErrorYet(state: State, rtn: Code, from: nat, errorMask: Uint32, start: Start, ev: Evidence)
      requires Go(state, rtn, from, errorMask, start, ev) && !state.TransferError? && !state.Error?
      ensures rtn == Success && (forceTerminate ==> state.DataTransferComplete?)
    {
      hide Any, Covers, ResponseType, Transferred, Still, Fits, Evident;
    }

    lemma StillNow(start: Start)
      requires start == Now()
      ensures Still(start)
    {
    }

    /** What the registers of a poll must show for the arm after it to end the command with code `c`. */
    ghost predicate Blame(c: Code, s: Snapshot, errorMask: Uint32)
      reads `cmd, `dma, `write
    {
      match c
      case ErrInfo2 => exists b :: b in s.info2 && b in {0, 1, 2, 3, 4, 5, 6, 15}
      case ErrResponse => 0 !in s.info1
      case ErrCardStatusBit => 0 in s.info1 && Rejects(cmd, s.rsp10, errorMask)
      case ErrFromDmacTransfer => Bits(cmd, 14, 12) >= 3 && (dma ==> (if write then 16 else 17) in s.dm2)
      case _ => false
    }

    lemma BlameOf(state: State, errorMask: Uint32)
      requires Witnessed(state)
      ensures ArmCode(state, errorMask) != Success ==> Blame(ArmCode(state, errorMask), env[pass - 1], errorMask)
    {
      hide IsData, ResponseType, Bits, And, CheckedResponse, Rejects;
      var s := env[pass - 1];
      CommandWord(cmd);
      CheckedIs(cmd, s.rsp10, errorMask);
      if Any(s.info2, INFO2_ALL_ERR) {
        var b :| b in s.info2 * INFO2_ALL_ERR;
        assert b in s.info2 && b in {0, 1, 2, 3, 4, 5, 6, 15};
      }
      assert Any(s.info1, INFO1_INFO0) <==> 0 in s.info1 by {
        assert 0 in s.info1 ==> 0 in s.info1 * INFO1_INFO0;
      }
    }

    lemma BusyBit(state: State, rtn: Code, from: nat, errorMask: Uint32, start: Start, ev: Evidence)
      requires Go(state, rtn, from, errorMask, start, ev)
      ensures 0 < pass <= |env| && (Any(info2, INFO2_CBSY) ==> 14 in env[pass - 1].info2)
    {
      hide Covers, ResponseType, IsData, Evident, Transferred, Still;
    }

    /** What the passes since `from` show when the command ends with code `c`. */
    ghost predicate Justified(c: Code, from: nat, errorMask: Uint32)
      reads `pass, `cmd, `dma, `write
    {
      && from < pass <= |env|
      && match c
         case Success => true
         case ErrCardBusy => pass == from + 1 && 14 in env[from].info2
         case ErrForceTerminate =>
           !dma && Bits(cmd, 14, 12) >= 3 && (8 in env[pass - 1].info2 || 9 in env[pass - 1].info2)
         case _ => from + 1 < pass && Blame(c, env[pass - 2], errorMask)
    }

    lemma EndJustified(c: Code, from: nat, errorMask: Uint32)
      requires from < pass <= |env|
      requires || c == Success || (c == ErrCardBusy && pass == from + 1 && 14 in env[from].info2)
               || (from + 1 < pass && Blame(c, env[pass - 2], errorMask))
      ensures Justified(c, from, errorMask)
    {
      hide Bits, Rejects;
    }

    lemma ForceJustified(from: nat, errorMask: Uint32)
      requires from < pass <= |env| && !dma && Bits(cmd, 14, 12) >= 3
      requires 8 in env[pass - 1].info2 || 9 in env[pass - 1].info2
      ensures Justified(ErrForceTerminate, from, errorMask)
    {
      hide Bits;
    }

    /** The switch of one pass: the arms that end the command, and those that go on. */
    method Switch(state0: State, rtn0: Code, errorMask: Uint32, ghost from: nat, ghost start: Start,
                  ghost ev0: Evidence)
      returns (ended: bool, state: State, rtn: Code, ghost ev: Evidence)
      requires Go(state0, rtn0, from, errorMask, start, ev0) && Witnessed(state0) && state0 != End
      requires responseLength == 17 ==> ResponseType(cmd) == RESPONSE_R2
      modifies `info1Mask, `info2Mask, `dm1Mask, `dm2Mask, `duringCmdProcessing, `duringTransfer, `duringDmaTransfer,
        `dmaErrorFlag, `stateMachineBlocking, `forceTerminate, `response, `longResponse, `currentState, `polled
      ensures ended ==> Idle() && RunCode(rtn) && (rtn == Success ==> Evident(3, from, errorMask, start, ev))
      ensures ended ==> (Still(start) || Transferred(start)) && polled <= old(polled) + 10_010_001
      ensures !ended ==> Inv(state, rtn, from, errorMask, start, ev) && polled == old(polled)
      ensures !ended ==> Rank(state) > Rank(state0) || (state == state0 == RcvResponseBusy && !Any(info2, INFO2_DAT0))
      ensures state0.TransferError? || state0.Error? ==> ended && rtn == rtn0
      ensures !(state0.TransferError? || state0.Error?) && ended ==>
        rtn == ErrCardBusy && state0 == Begin && 14 in env[pass - 1].info2
      ensures !ended && rtn != Success ==> Blame(rtn, env[pass - 1], errorMask)
      ensures !ended ==> forceTerminate == old(forceTerminate)
      ensures forall k :: 0 <= k < 6 && old(PolledShow(k, state0, rtn0, start)) ==>
        !ended && OnShow(k + 1, state, rtn, start)
    {
      hide Any, ResponseType, Inv, Go, Idle, Still, Transferred, Evident, ArmCode, NextState, Witnessed, Blame;
      state, rtn, ev := state0, rtn0, ev0;
      if state0.TransferError? || state0.Error? {
        Abort(state0, rtn0, from, errorMask, start, ev0);
        return true, state, rtn, ev;
      }
      NoErrorYet(state0, rtn0, from, errorMask, start, ev0);
      ShownArm(state0, rtn0, errorMask, from, start, ev0);
      BlameOf(state0, errorMask);
      BusyBit(state0, rtn0, from, errorMask, start, ev0);
      ended, state, rtn, ev := Advance(state0, errorMask, from, start, ev0);
      if ended {
        rtn := ErrCardBusy;
      }
    }

    /** One pass: the poll and, unless it leaves the machine blocked, the switch. */
    method Pass(state0: State, rtn0: Code, errorMask: Uint32, ghost from: nat, ghost start: Start, ghost ev0: Evidence)
      returns (ended: bool, state: State, rtn: Code, ghost ev: Evidence)
      requires Inv(state0, rtn0, from, errorMask, start, ev0) && !forceTerminate && pass < |env| && state0 != End
      requires responseLength == 17 ==> ResponseType(cmd) == RESPONSE_R2
      modifies `pass, `polled, `fifoPos, `sent, `transfers, ram, `info1Mask, `info2Mask, `dm1Mask, `dm2Mask,
        `duringCmdProcessing, `duringTransfer, `duringDmaTransfer, `dmaErrorFlag, `stateMachineBlocking,
        `forceTerminate, `remainSize, `buffer, `response, `longResponse, `currentState, `info2, `intEvent1, `intEvent2,
        `dmEvent1, `dmEvent2
      ensures pass == old(pass) + 1
      ensures ended ==> Idle() && RunCode(rtn) && (rtn == Success ==> Evident(3, from, errorMask, start, ev))
      ensures ended ==> (Still(start) || Transferred(start)) && polled <= old(polled) + 10_010_001
      ensures !ended ==> Inv(state, rtn, from, errorMask, start, ev) && polled == old(polled)
      ensures !ended ==> Rank(state) >= Rank(state0) && state != Begin
      ensures rtn0 != Success ==> ended && rtn == rtn0
      ensures rtn0 == Success && ended && rtn != Success ==>
        rtn == ErrCardBusy && state0 == Begin && 14 in env[old(pass)].info2
      ensures !ended && rtn != Success ==> Blame(rtn, env[old(pass)], errorMask)
      ensures !ended && forceTerminate ==>
        !dma && Bits(cmd, 14, 12) >= 3 && (8 in env[old(pass)].info2 || 9 in env[old(pass)].info2)
      ensures forall k :: 0 <= k < 6 && old(OnShow(k, state0, rtn0, start)) && env[old(pass)] == Shown(state0) ==>
        !ended && OnShow(k + 1, state, rtn, start)
    {
      hide Any, ResponseType, Inv, Go, Idle, Still, Transferred, Evident, OnShow, PolledShow, Shown, Witnessed, Blame,
        Bits;
      Failing(state0, rtn0, from, errorMask, start, ev0);
      Poll(state0, rtn0, from, errorMask, start, ev0);
      if stateMachineBlocking {
        return false, state0, rtn0, ev0;
      }
      if forceTerminate {
        ForcedBy(state0);
      }
      ended, state, rtn, ev := Switch(state0, rtn0, errorMask, from, start, ev0);
    }

    lemma Failing(state: State, rtn: Code, from: nat, errorMask: Uint32, start: Start, ev: Evidence)
      requires Inv(state, rtn, from, errorMask, start, ev)
      ensures rtn != Success ==> state.TransferError? || state.Error?
      ensures state.TransferError? ==> rtn != Success
    {
      hide Any, Covers, ResponseType, IsData, Evident, Transferred, Still;
    }

    lemma ForcedBy(state: State)
      requires Witnessed(state) && forceTerminate
      ensures !dma && Bits(cmd, 14, 12) >= 3 && (8 in env[pass - 1].info2 || 9 in env[pass - 1].info2)
    {
      hide IsData, Bits;
      CommandWord(cmd);
    }

    /** The command loop and what follows it. */
    method Run(errorMask: Uint32, ghost start: Start) returns (r: Outcome, ghost ev: Evidence, ghost steps: nat)
      requires Idle() && start == Now() && (dma || Fits(start))
      requires responseLength == 17 ==> ResponseType(cmd) == RESPONSE_R2
      modifies `pass, `polled, `fifoPos, `sent, `transfers, ram, `info1Mask, `info2Mask, `dm1Mask, `dm2Mask,
        `duringCmdProcessing, `duringTransfer, `duringDmaTransfer, `dmaErrorFlag, `stateMachineBlocking,
        `forceTerminate, `remainSize, `buffer, `response, `longResponse, `currentState, `info2, `intEvent1, `intEvent2,
        `dmEvent1, `dmEvent2
      ensures r.Returned? ==> Idle() && RunCode(r.code)
      ensures r == Returned(Success) ==> Evident(3, old(pass), errorMask, start, ev)
      ensures Still(start) || Transferred(start)
      ensures r == Waiting ==> pass == |env|
      ensures steps <= 8 && polled <= old(polled) + 10_010_001
      ensures r.Returned? ==> Justified(r.code, old(pass), errorMask)
      ensures old(OpenPio() && ShowsDmaEvent(pass)) ==> r == Returned(Success) && Still(start)
    {
      hide Any, Covers, ResponseType, Transferred, Still, Fits, Evident, Level, Sound, Inv, Go, OnShow, PolledShow,
        Shown, ShowsDmaEvent, OpenPio, Blame, Bits, Justified;
      ghost var shown := OpenPio() && ShowsDmaEvent(pass);
      if shown {
        ShowBegins(start);
      }
      ghost var from := pass;
      ev, steps := Evidence(0, 0, 0), 0;
      var state, rtn := Begin, Success;
      Starting(errorMask, start, ev);
      while !forceTerminate && state != End
        invariant Inv(state, rtn, from, errorMask, start, ev) && steps <= Rank(state) && polled == old(polled)
        invariant from <= pass && (pass == from ==> state == Begin) && (state == Begin ==> pass == from)
        invariant rtn != Success ==> from < pass <= |env| && Blame(rtn, env[pass - 1], errorMask)
        invariant forceTerminate ==> Justified(ErrForceTerminate, from, errorMask)
        invariant shown ==> from <= pass && OnShow(pass - from, state, rtn, start)
        decreases |env| - pass
      {
        Bounds(state, rtn, from, errorMask, start, ev);
        if shown {
          ShowGoesOn(from, state, rtn, start);
        }
        if pass >= |env| {
          return Waiting, ev, steps;
        }
        var ended;
        ghost var rank := Rank(state);
        ended, state, rtn, ev := Pass(state, rtn, errorMask, from, start, ev);
        if !ended && forceTerminate {
          ForceJustified(from, errorMask);
        }
        if ended {
          EndJustified(rtn, from, errorMask);
          return Returned(rtn), ev, steps + 1;
        }
        steps := if Rank(state) > rank then steps + 1 else steps;
      }
      Bounds(state, rtn, from, errorMask, start, ev);
      if shown {
        ShowEnds(pass - from, state, rtn, start);
      }
      if !forceTerminate {
        EndJustified(Success, from, errorMask);
      }
      r := Conclude();
    }

    /** After the loop: a forced end, or success. */
    method Conclude() returns (r: Outcome)
      requires pass <= |env|
      requires forceTerminate || (!duringDmaTransfer && !stateMachineBlocking && !Any(info2Mask, INFO2_BWE + INFO2_BRE))
      modifies `duringCmdProcessing, `duringTransfer, `duringDmaTransfer, `stateMachineBlocking, `forceTerminate,
        `dmaErrorFlag, `info1Mask, `info2Mask, `polled
      ensures Idle() && r == Returned(if old(forceTerminate) then ErrForceTerminate else Success)
      ensures polled <= old(polled) + 10_010_001
    {
      hide Any;
      if forceTerminate {
        duringDmaTransfer := false;
        SoftReset();
        return Returned(ErrForceTerminate);
      }
      duringCmdProcessing, duringTransfer := false, false;
      r := Returned(Success);
    }

    /**
     emmc_exec_cmd. A PIO command in SUCCESS has seen its FIFO event and moved its data, or has seen only a DMA event
     and moved nothing. `steps` counts the unblocked passes, apart from those that find DAT0 still busy. */
    method ExecCmd(errorMask: Uint32, hasBuffer: bool) returns (r: Outcome, ghost ev: Evidence, ghost steps: nat)
      requires Idle() || stateMachineBlocking
      requires (dma || Fits(Now())) && (responseLength == 17 ==> ResponseType(cmd) == RESPONSE_R2)
      modifies `pass, `polled, `fifoPos, `sent, `transfers, ram, `info1Mask, `info2Mask, `dm1Mask, `dm2Mask,
        `duringCmdProcessing, `duringTransfer, `duringDmaTransfer, `dmaErrorFlag, `stateMachineBlocking,
        `forceTerminate, `remainSize, `buffer, `response, `longResponse, `currentState, `info2, `intEvent1, `intEvent2,
        `dmEvent1, `dmEvent2
      ensures r == Returned(ErrParam) <==> !hasBuffer
      ensures r == Returned(ErrState) <==> hasBuffer && !clockEnable
      ensures r == Returned(Err) <==> hasBuffer && clockEnable && old(stateMachineBlocking)
      ensures r.Returned? && hasBuffer && clockEnable && !old(stateMachineBlocking) ==> RunCode(r.code)
      ensures old(Idle()) && r.Returned? ==> Idle()
      ensures r.Returned? && hasBuffer && clockEnable && !old(stateMachineBlocking) ==>
        Justified(r.code, old(pass), errorMask)
      ensures r == Returned(Success) ==> Evident(3, old(pass), errorMask, old(Now()), ev)
      ensures r == Returned(Success) ==> Seen(old(pass), errorMask, old(Now()), ev)
      ensures r == Returned(Success) && (cmd == 0xC108 || cmd == 0x4108 || cmd == 0x3119) ==>
        ev.response < ev.data < pass <= |env| && DataSeen(env[ev.data], old(Now()))
      ensures r == Returned(Success) && IsPioData() ==>
        && ev.data < pass <= |env|
        && if Any(env[ev.data].info2, FifoReady(write)) then Transferred(old(Now())) else Still(old(Now()))
      ensures r == Returned(Success) && IsPioData() && NoDmaEvent(old(pass)) ==> Transferred(old(Now()))
      ensures old(Idle()) ==> Still(old(Now())) || Transferred(old(Now()))
      ensures r == Waiting ==> pass == |env|
      ensures steps <= 8 && polled <= old(polled) + 10_010_001
      ensures hasBuffer && clockEnable && old(Idle() && OpenPio() && ShowsDmaEvent(pass)) ==>
        r == Returned(Success) && Still(old(Now()))
    {
      hide Any, Covers, ResponseType, Transferred, Still, Fits, Evident, Level, OpenPio, ShowsDmaEvent, Justified,
        DataSeen, Bits, Rejects;
      ghost var start := Now();
      ev, steps := Evidence(0, 0, 0), 0;
      assert Still(start) by { StillNow(start); }
      if !hasBuffer {
        return Returned(ErrParam), ev, steps;
      }
      if !clockEnable {
        return Returned(ErrState), ev, steps;
      }
      if stateMachineBlocking {
        return Returned(Err), ev, steps;
      }
      r, ev, steps := Run(errorMask, start);
      if r == Returned(Success) {
        EvidentSeen(old(pass), errorMask, start, ev);
        DataWords();
      }
      if r == Returned(Success) && IsPioData() {
        PioMoves(old(pass), errorMask, start, ev);
      }
    }

    /**
     The register bits that a successful command has seen: the response, for R1b the release of DAT0, and the
     data.
     */
    ghost predicate Seen(from: nat, errorMask: Uint32, start: Start, ev: Evidence)
      reads `pass, `cmd, `currentState, `dma, `write, `sent, `fifoPos, `transfers, ram
    {
      var kind := Bits(cmd, 11, 8);
      && from <= ev.response < pass <= |env|
      && var s := env[ev.response];
      && 0 in s.info1 && NoErrors(s) && !Rejects(cmd, s.rsp10, errorMask)
      && (kind == 1 || kind == 2 ==> currentState == Bits(s.rsp10, 12, 9))
      && (kind == 2 ==> ev.response < ev.release < pass && 7 in env[ev.release].info2 && NoErrors(env[ev.release]))
      && (kind != 0 && Bits(cmd, 14, 12) >= 3 ==> ev.response < ev.data < pass && DataSeen(env[ev.data], start))
    }

    predicate NoErrors(s: Snapshot) {
      forall b :: b in s.info2 ==> b !in {0, 1, 2, 3, 4, 5, 6, 15}
    }

    /**
     The end of the data: bit 16 or 17 of a DMA channel, or bit 9 or 8 of the FIFO, or a DMA bit that moves
     nothing.
     */
    ghost predicate DataSeen(s: Snapshot, start: Start)
      reads `dma, `write, `sent, `fifoPos, `transfers, ram
    {
      && NoErrors(s)
      && var channel := if write then 16 else 17;
      && if dma then channel in s.dm1 && channel !in s.dm2
         else if (if write then 9 else 8) in s.info2 then Transferred(start)
         else Still(start) && (16 in s.dm1 || 17 in s.dm1)
    }

    lemma EvidentSeen(from: nat, errorMask: Uint32, start: Start, ev: Evidence)
      requires pass <= |env| && Evident(3, from, errorMask, start, ev)
      ensures Seen(from, errorMask, start, ev)
    {
      hide Any, Bits, IsData, ResponseType, CheckedResponse, Rejects, CardState, DataDone, DataSeen, NoErrors;
      var s := env[ev.response];
      CommandWord(cmd);
      StatusKinds(cmd);
      CheckedIs(cmd, s.rsp10, errorMask);
      StateBits(s.rsp10);
      ErrorBits(s);
      assert 0 in s.info1 by { AnyOne(s.info1, 0); }
      if Bits(cmd, 11, 8) == 2 {
        ErrorBits(env[ev.release]);
        AnyOne(env[ev.release].info2, 7);
      }
      if Bits(cmd, 11, 8) != 0 && Bits(cmd, 14, 12) >= 3 {
        DataBits(env[ev.data], start);
      }
    }

    lemma AnyOne(x: Register, b: nat)
      ensures Any(x, {b}) <==> b in x
    {
      assert b in x ==> b in x * {b};
    }

    lemma ErrorBits(s: Snapshot)
      ensures NoErrors(s) <==> !Any(s.info2, INFO2_ALL_ERR)
    {
      if b :| b in s.info2 && b in INFO2_ALL_ERR {
        assert b in s.info2 * INFO2_ALL_ERR;
      }
    }

    lemma DataBits(s: Snapshot, start: Start)
      requires DataDone(s, start)
      ensures DataSeen(s, start)
    {
      hide Any, NoErrors, Transferred, Still;
      ErrorBits(s);
      AnyOne(s.info2, if write then 9 else 8);
      AnyOne(s.dm1, if write then 16 else 17);
      AnyOne(s.dm2, if write then 16 else 17);
      assert Any(s.dm1 * dm1Mask, DM_CH0 + DM_CH1) ==> 16 in s.dm1 || 17 in s.dm1 by { AnyDma(s.dm1, dm1Mask); }
    }

    lemma AnyDma(x: Register, m: Register)
      ensures Any(x * m, DM_CH0 + DM_CH1) ==> 16 in x || 17 in x
    {
    }

    predicate IsPioData()
      reads `dma, `cmd
    {
      !dma && IsData(cmd) && ResponseType(cmd) != RESPONSE_NONE
    }

    /** No unmasked DMA event has shown since pass `from`. */
    ghost predicate NoDmaEvent(from: nat)
      reads `pass, `dm1Mask
    {
      pass <= |env| && forall i :: from <= i < pass ==> !Any(env[i].dm1 * dm1Mask, DM_CH0 + DM_CH1)
    }

    /** A PIO command that ended in SUCCESS moved its data, or nothing at all after a DMA event. */
    lemma PioMoves(from: nat, errorMask: Uint32, start: Start, ev: Evidence)
      requires pass <= |env| && Evident(3, from, errorMask, start, ev) && IsPioData()
      ensures ev.data < pass
      ensures Transferred(start) <==> Any(env[ev.data].info2, FifoReady(write))
      ensures Transferred(start) <==> !Still(start)
      ensures Still(start) ==> Any(env[ev.data].dm1 * dm1Mask, DM_CH0 + DM_CH1)
      ensures NoDmaEvent(from) ==> Transferred(start)
    {
      hide Any, MovedWords, Responded;
    }

    /** A DMA write that ended in SUCCESS leaves the mask of its channel open. */
    lemma DmaWriteLeavesMask(from: nat, errorMask: Uint32, start: Start, ev: Evidence)
      requires pass <= |env| && Evident(3, from, errorMask, start, ev) && IsData(cmd)
      requires ResponseType(cmd) != RESPONSE_NONE
      requires dma && write
      ensures DM_CH0 <= dm1Mask
    {
      hide Any, Responded, IsData, ResponseType;
    }

    // ---------- a PIO transfer that moves nothing ----------

    /**
     Registers that end each wait of a data command with an R1 response, without an SD error or a FIFO event: the
     wait for the data ends with a DMA event.
     */
    function Shown(state: State): Snapshot {
      match state
      case RcvResp => Quiet(INFO1_INFO0, {})
      case DataTransferComplete => Quiet({}, DM_CH0)
      case AccessEnd => Quiet(INFO1_INFO2, {})
      case _ => Quiet({}, {})
    }

    function Quiet(info1: Register, dm1: Register): Snapshot {
      Snapshot(info1, {}, dm1, {}, 0, 0, 0, 0)
    }

    /** A PIO data command with an R1 response, and a DMA mask as a DMA write leaves it. */
    ghost predicate OpenPio()
      reads `dma, `dmaErrorFlag, `dm1Mask, `cmd, `responseLength
    {
      && !dma && !dmaErrorFlag && DM_CH0 <= dm1Mask
      && IsData(cmd) && ResponseType(cmd) == RESPONSE_R1 && responseLength != 17
    }

    /** The poll of such registers ends the wait, without a FIFO event. */
    twostate lemma ShownPoll(p: Position)
      requires old(Inv(p.state, p.rtn, p.from, p.errorMask, p.start, p.ev) && !forceTerminate)
      requires Polled(NewEvent())
      ensures forall k :: 0 <= k < 6 && old(OnShow(k, p.state, p.rtn, p.start)) && env[old(pass)] == Shown(p.state) ==>
        !stateMachineBlocking && PolledShow(k, p.state, p.rtn, p.start)
    {
      hide Evident, Transferred, Sound, IsData, ResponseType, Covers;
      hide Any, Decode, MovedWords, Shown;
      if k :| 0 <= k < 6 && old(OnShow(k, p.state, p.rtn, p.start)) && env[old(pass)] == Shown(p.state) {
        ShownDecode(k, old(info1Mask), old(info2Mask), old(dm1Mask), old(dm2Mask));
      }
    }

    /** The event that such registers raise under the masks of their state. */
    lemma ShownDecode(k: nat, m1: Register, m2: Register, d1: Register, d2: Register)
      requires k < 6 && DM_CH0 <= d1 && (k == 1 ==> m1 == INFO1_INFO0) && (k == 5 ==> m1 == INFO1_INFO2)
      ensures var s := Shown(PIO_STATES[k]);
        var e := Decode(s.info1 * m1, s.info2 * m2, s.dm1 * d1);
        && e != Failure && e != Fifo && (k == 1 || k == 4 || k == 5 ==> e != Nothing)
        && s.info2 == s.info2 * m2 == {} && s.rsp10 == 0
        && !Any(s.dm2 * d2, DM_CH0) && !Any(s.dm2 * d2, DM_CH1)
        && (k == 1 ==> Any(s.info1 * m1, INFO1_INFO0)) && (k == 5 ==> Any(s.info1 * m1, INFO1_INFO2))
    {
      var s := Shown(PIO_STATES[k]);
      assert s.info2 * m2 == {} && s.dm2 * d2 == {};
      assert k == 1 ==> 0 in s.info1 * m1 * INFO1_INFO0;
      assert k == 5 ==> 2 in s.info1 * m1 * INFO1_INFO2;
      assert k == 4 ==> 16 in s.dm1 * d1 * DM_CH0;
    }

    /** What the arm of each state makes of it. */
    lemma ShownArm(state: State, rtn: Code, errorMask: Uint32, from: nat, start: Start, ev: Evidence)
      requires Go(state, rtn, from, errorMask, start, ev)
      ensures 0 < pass <= |env|
      ensures forall k :: 0 <= k < 6 && PolledShow(k, state, rtn, start) ==>
        && !Any(info2, INFO2_CBSY) && ArmCode(state, errorMask) == Success
        && NextState(state, Success) == PIO_STATES[k + 1]
    {
      hide Any, IsData, ResponseType, And, Sound, Evident;
      GoPassed(state, rtn, from, errorMask, start, ev);
      NoneAny(INFO2_CBSY);
      NoneAny(INFO2_ALL_ERR);
      assert And(0, errorMask) == 0 && And(0, R4_STATUS) == 0;
    }

    /** The registers of one command, pass by pass. */
    ghost predicate ShowsDmaEvent(from: nat) {
      from + 6 <= |env| && forall k :: 0 <= k < 6 ==> env[from + k] == Shown(PIO_STATES[k])
    }

    /** A run over such registers that has come to its k-th state without moving a word. */
    ghost predicate OnShow(k: nat, state: State, rtn: Code, start: Start)
      reads `dma, `dmaErrorFlag, `dm1Mask, `cmd, `responseLength, `forceTerminate, `transfers
    {
      OpenPio() && !forceTerminate && rtn == Success && k <= 6 && state == PIO_STATES[k] && transfers == start.transfers
    }

    /** The same after the poll of the next pass. */
    ghost predicate PolledShow(k: nat, state: State, rtn: Code, start: Start)
      reads `dma, `dmaErrorFlag, `dm1Mask, `cmd, `responseLength, `forceTerminate, `transfers, `info2, `intEvent1,
        `intEvent2, `pass
    {
      && OnShow(k, state, rtn, start) && info2 == intEvent2 == {}
      && (k == 1 ==> Any(intEvent1, INFO1_INFO0)) && (k == 5 ==> Any(intEvent1, INFO1_INFO2))
      && 0 < pass <= |env| && env[pass - 1].rsp10 == 0
    }

    lemma ShowBegins(start: Start)
      requires OpenPio() && !forceTerminate && start == Now()
      ensures OnShow(0, Begin, Success, start)
    {
    }

    lemma ShowGoesOn(from: nat, state: State, rtn: Code, start: Start)
      requires from <= pass && OnShow(pass - from, state, rtn, start) && state != End && ShowsDmaEvent(from)
      ensures pass - from < 6 && pass < |env| && env[pass] == Shown(state)
    {
      hide OpenPio, Shown;
    }

    /** Not a word has been moved at the end. */
    lemma ShowEnds(k: nat, state: State, rtn: Code, start: Start)
      requires OnShow(k, state, rtn, start) && (Still(start) || Transferred(start))
      ensures !forceTerminate && Still(start)
    {
      hide MovedWords, OpenPio;
    }

    /** emmc_exec_cmd over such registers ends in SUCCESS, and not one word has been moved. */
    method DmaEventEndsPio(errorMask: Uint32) returns (r: Outcome)
      requires Idle() && clockEnable && Fits(Now()) && OpenPio() && ShowsDmaEvent(pass)
      modifies `pass, `polled, `fifoPos, `sent, `transfers, ram, `info1Mask, `info2Mask, `dm1Mask, `dm2Mask,
        `duringCmdProcessing, `duringTransfer, `duringDmaTransfer, `dmaErrorFlag, `stateMachineBlocking,
        `forceTerminate, `remainSize, `buffer, `response, `longResponse, `currentState, `info2, `intEvent1, `intEvent2,
        `dmEvent1, `dmEvent2
      ensures r == Returned(Success) && Still(old(Now()))
    {
      hide Any, ResponseType, IsData, Still, Fits, Evident, ShowsDmaEvent;
      ghost var ev, steps;
      r, ev, steps := ExecCmd(errorMask, true);
    }

    // ---------- emmc_utility.c ----------

    /** emmc_make_nontrans_cmd. */
    method MakeNontransCmd(cmd: Uint32)
      modifies `cmd, `write, `remainSize, `buffer, `responseLength
      ensures this.cmd == cmd && !write && remainSize == 0 && buffer == None
      ensures responseLength == 17 <==> ResponseType(cmd) == RESPONSE_R2
    {
      hide ResponseType;
      this.cmd, write, remainSize, buffer := cmd, false, 0, None;
      responseLength :=
        if ResponseType(cmd) == RESPONSE_NONE then 0 else if ResponseType(cmd) == RESPONSE_R2 then 17 else 6;
    }

    /** emmc_make_trans_cmd. */
    method MakeTransCmd(cmd: Uint32, buffer: Option<nat>, len: Uint32, write: bool, dma: bool)
      modifies `cmd, `write, `remainSize, `buffer, `responseLength, `dma
      ensures this.cmd == cmd && this.write == write && remainSize == len && this.buffer == buffer && this.dma == dma
      ensures responseLength == 17 <==> ResponseType(cmd) == RESPONSE_R2
    {
      hide ResponseType;
      MakeNontransCmd(cmd);
      this.write, this.buffer, remainSize, this.dma := write, buffer, len, dma;
    }

    /** Make a command: whatever command was made before it, an idle driver can execute this one. */
    method Prepare(request: Request)
      requires Idle() && (request.Trans? ==> request.dma || FitsRequest(request))
      modifies `cmd, `write, `remainSize, `buffer, `responseLength, `dma
      ensures Idle() && (dma || Fits(Now())) && (responseLength == 17 ==> ResponseType(cmd) == RESPONSE_R2)
      ensures cmd == request.cmd
      ensures if request.Trans? then
                Now() == old(Now()).(remainSize := request.len, buffer := request.buffer)
                && write == request.write && dma == request.dma
              else Now() == old(Now()).(remainSize := 0, buffer := None) && !write && dma == old(dma)
    {
      hide ResponseType, Any;
      match request
      case NonTrans(cmd) =>
        MakeNontransCmd(cmd);
      case Trans(cmd, buffer, len, write, dma) =>
        MakeTransCmd(cmd, buffer, len, write, dma);
    }

    predicate FitsRequest(request: Request)
      requires request.Trans?
    {
      request.buffer.Some? ==> request.buffer.value + request.len / 8 <= ram.Length
    }

    /**
     Any sequence of commands from an idle driver with its clock on: whatever the registers say, none is rejected
     as blocked, unstarted or malformed, and the driver is idle again after the last.
     */
    method Session(requests: seq<Request>, errorMask: Uint32) returns (codes: seq<Code>)
      requires Idle() && clockEnable
      requires forall r :: r in requests && r.Trans? ==> r.dma || FitsRequest(r)
      modifies this, ram
      ensures |codes| <= |requests| && (|codes| < |requests| ==> pass == |env|)
      ensures forall c :: c in codes ==> RunCode(c)
      ensures |codes| == |requests| ==> Idle() && clockEnable
    {
      hide ResponseType, Any, Still, Transferred, Evident;
      codes := [];
      for i := 0 to |requests|
        invariant |codes| == i && Idle() && clockEnable
        invariant forall c :: c in codes ==> RunCode(c)
      {
        assert requests[i] in requests;
        Prepare(requests[i]);
        var r, ev, steps := ExecCmd(errorMask, true);
        if r == Waiting {
          return;
        }
        codes := codes + [r.code];
      }
    }
  }

  /** Bit k of a word is 1. */
  predicate IsSet(x: nat, k: nat) {
    Shr(x, k) % 2 == 1
  }

  lemma {:induction false} SharedBit(x: nat, y: nat)
    ensures And(x, y) != 0 <==> exists k :: IsSet(x, k) && IsSet(y, k)
  {
    if x == 0 || y == 0 {
      forall k ensures !(IsSet(x, k) && IsSet(y, k)) {
        ShrZero(k);
      }
    } else {
      SharedBit(x / 2, y / 2);
      if x % 2 == 1 && y % 2 == 1 {
        assert IsSet(x, 0) && IsSet(y, 0);
      } else if k: nat :| IsSet(x / 2, k) && IsSet(y / 2, k) {
        assert IsSet(x, k + 1) && IsSet(y, k + 1);
      } else if k: nat :| IsSet(x, k) && IsSet(y, k) {
        assert IsSet(x / 2, k - 1) && IsSet(y / 2, k - 1);
      }
    }
  }

  lemma {:induction false} AndShifted(x: nat, m: nat, k: nat)
    ensures And(x, Pow2(k) * m) == Pow2(k) * And(Shr(x, k), m)
  {
    hide And;
    if k > 0 {
      var p, h := Pow2(k - 1), And(Shr(x / 2, k - 1), m);
      AndShifted(x / 2, m, k - 1);
      AndEvenMask(x, p * m);
      TwiceProduct(p, m);
      TwiceProduct(p, h);
    }
  }

  lemma TwiceProduct(p: nat, m: nat)
    ensures 2 * p * m == 2 * (p * m)
  {
  }

  lemma StatusBit(word: nat)
    ensures And(word, R4_STATUS) != 0 <==> IsSet(word, 15)
  {
    assert Pow2(15) == 0x8000;
    AndShifted(word, 1, 15);
    assert And(Shr(word, 15), 1) == Shr(word, 15) % 2;
  }

  lemma StateBits(word: Uint32)
    ensures CardState(word) == Bits(word, 12, 9)
  {
    hide And, Shr;
    assert Pow2(9) == 512 && Pow2(4) == 16;
    AndShifted(word, 15, 9);
    AndLowMask(Shr(word, 9), 4);
  }

  // ---------- command words ----------

  /** The response type of a command word, and its command type: 3 and 4 are the commands that move data. */
  lemma CommandWord(w: Uint32)
    ensures ResponseType(w) == 0x100 * Bits(w, 11, 8)
    ensures IsData(w) <==> Bits(w, 14, 12) >= 3
  {
    hide And, Shr;
    assert Pow2(8) == 0x100 && Pow2(12) == 0x1000 && Pow2(4) == 16 && Pow2(3) == 8;
    AndShifted(w, 15, 8);
    AndLowMask(Shr(w, 8), 4);
    AndShifted(w, 7, 12);
    AndLowMask(Shr(w, 12), 3);
  }

  /** The response type and the transfer bits of a command word with the given fields and number. */
  lemma WordFields(top: nat, kind: nat, number: nat)
    requires kind < 16 && number < 256
    ensures Bits(0x1000 * top + 0x100 * kind + number, 14, 12) == top % 8
    ensures Bits(0x1000 * top + 0x100 * kind + number, 11, 8) == kind
  {
    hide Shr, LowBits;
    assert Pow2(3) == 8 && Pow2(4) == 16 && Pow2(8) == 0x100 && Pow2(12) == 0x1000;
    ShrJoin(16 * top + kind, number, 8);
    ShrJoin(top, 0x100 * kind + number, 12);
    LowBitsIsMod(16 * top + kind, 4);
    LowBitsIsMod(top, 3);
  }

  /** CMD8, with and without its card-type bit, and CMD25 are data commands with an R1 response. */
  lemma DataWords()
    ensures Bits(0xC108, 14, 12) == 4 && Bits(0xC108, 11, 8) == 1
    ensures Bits(0x4108, 14, 12) == 4 && Bits(0x4108, 11, 8) == 1
    ensures Bits(0x3119, 14, 12) == 3 && Bits(0x3119, 11, 8) == 1
  {
    hide Bits;
    WordFields(12, 1, 8);
    WordFields(4, 1, 8);
    WordFields(3, 1, 25);
  }

  /** The status bits of a response let the command of word `cmd` fail. */
  ghost predicate Rejects(cmd: Uint32, word: Uint32, errorMask: Uint32) {
    var kind := Bits(cmd, 11, 8);
    if kind == 1 || kind == 2 then exists k :: IsSet(word, k) && IsSet(errorMask, k) else kind == 5 && IsSet(word, 15)
  }

  lemma StatusKinds(cmd: Uint32)
    ensures HasCardStatus(cmd) <==> Bits(cmd, 11, 8) in {1, 2}
  {
    hide And, Bits, ResponseType;
    CommandWord(cmd);
  }

  lemma CheckedIs(cmd: Uint32, word: Uint32, errorMask: Uint32)
    ensures CheckedResponse(cmd, word, errorMask) == if Rejects(cmd, word, errorMask) then ErrCardStatusBit else Success
  {
    hide And, Bits, IsSet, ResponseType;
    CommandWord(cmd);
    SharedBit(word, errorMask);
    StatusBit(word);
  }

  lemma CheckedCodes(cmd: Uint32, word: Uint32, errorMask: Uint32)
    ensures CheckedResponse(cmd, word, errorMask) in {Success, ErrCardStatusBit}
  {
  }

  predicate HasCardStatus(cmd: Uint32) {
    ResponseType(cmd) == RESPONSE_R1 || ResponseType(cmd) == RESPONSE_R1B
  }

  /** emmc_response_check on the response word. */
  function CheckedResponse(cmd: Uint32, word: Uint32, errorMask: Uint32): Code {
    if HasCardStatus(cmd) then
      if And(word, errorMask) != 0 then ErrCardStatusBit else Success
    else if ResponseType(cmd) == RESPONSE_R4 && And(word, R4_STATUS) != 0 then ErrCardStatusBit
    else Success
  }
}
