/**
 The eMMC write command (dg_emmc_access.c): bring the card up once, load an image into zero-filled work RAM,
 select the partition and write the sectors that the image covers.
 */
module EmmcWrite {
  import opened Words
  import opened SRecord
  import opened SRecordLoader
  import opened CardRegister
  import opened MmcCommand
  import opened MmcDriver
  import FlashCommand

  const USER_AREA := 0
  const WORK_EADD_16M := 0x50FF_FFFF - 0x5000_0000
  const WORK_EADD_512M := 0x6FFF_FFFF - 0x5000_0000

  datatype Result = InitError | LoadFailed(end: LoadEnd) | SelectFailed | WriteFailed(code: Code) | Overread | Complete

  /** The part of the work RAM that is cleared and loaded for a partition. */
  function WorkLimit(partition: nat): nat {
    if partition == USER_AREA then WORK_EADD_512M + 1 else WORK_EADD_16M + 1
  }

  // ---------- sector arithmetic ----------

  /** The number of sectors that hold `size` bytes. */
  function Sectors(size: nat): nat {
    (size + 511) / 512
  }

  /** The 32-bit arithmetic of dg_emmc_write, on byte addresses that are multiples of 512. */
  function SectorCount(sector: Uint32, size: Uint32): Uint32 {
    var start := Wrap32(sector * 512);
    var end := Wrap32(start + (size - 1));
    Wrap32(end / 512 - start / 512 + 1)
  }

  /**
   It is the number of sectors exactly when the byte range does not cross
   a multiple of 4 GB, and is not empty at one.
   */
  lemma SectorCountIff(sector: Uint32, size: Uint32)
    ensures SectorCount(sector, size) == Sectors(size) <==>
      if size == 0 then Wrap32(sector * 512) != 0 else Wrap32(sector * 512) + size <= TWO_32
  {
    hide SectorCount, Wrap32;
    SectorCountIs(sector, size);
  }

  /** Otherwise the count is off by 2^23 sectors, and reaches beyond the work RAM. */
  lemma WrongCountIsTooBig(sector: Uint32, size: Uint32)
    requires size <= WORK_EADD_512M + 1 && SectorCount(sector, size) != Sectors(size)
    ensures 512 * SectorCount(sector, size) > WORK_EADD_512M + 1
  {
    hide SectorCount, Wrap32;
    SectorCountIs(sector, size);
  }

  lemma SectorCountIs(sector: Uint32, size: Uint32)
    ensures var start := Wrap32(sector * 512);
      SectorCount(sector, size) ==
        if size == 0 then (if start == 0 then 0x80_0000 else 0)
        else if start + size <= TWO_32 then Sectors(size)
        else Sectors(size) - 0x80_0000 + if Sectors(size) < 0x80_0000 then TWO_32 else 0
  {
    hide Sectors;
    var start := Wrap32(sector * 512);
    assert start % 512 == 0;
    var end := start + (size - 1);
    EndOfRange(start, size);
    if end >= TWO_32 {
      assert Wrap32(end) == end - TWO_32;
      assert (end - TWO_32) / 512 == end / 512 - 0x80_0000;
    }
  }

  lemma EndOfRange(start: Uint32, size: Uint32)
    requires start % 512 == 0
    ensures (start + (size - 1)) / 512 - start / 512 + 1 == Sectors(size) <= 0x80_0000
    ensures size > 0 ==> Sectors(size) > 0
  {
  }

  // ---------- the command ----------

  /** What a successful write leaves in the selected area: the image, then zeros to the end of its last sector. */
  function Stored(area: seq<Byte>, sector: nat, image: seq<Byte>): seq<Byte> {
    Written(area, sector, image + Fill(512 * Sectors(|image|) - |image|, 0), 0, Sectors(|image|))
  }

  class Tool {
    const driver: Driver
    const loader: Loader
    var emmcInit: bool

    constructor (card: Card, ram: array<Byte>, input: seq<char>)
      requires card.Valid() && ram.Length == 0x2000_0000
      ensures Valid() && !emmcInit && fresh(driver) && fresh(loader) && fresh(loader.str)
      ensures driver.card == card && driver.ram == ram && loader.input == input && loader.pos == 0
    {
      driver := new Driver(card, ram);
      loader := new Loader(input, ram);
      emmcInit := false;
    }

    /** Once initialized, the card is mounted and stays so: later commands rely on it without checking. */
    ghost predicate Valid()
      reads this, driver, driver.card, loader
    {
      && driver.Valid() && loader.Valid() && loader.ram == driver.ram && driver.ram.Length == 0x2000_0000
      && (emmcInit ==> driver.mount && driver.MountSafe() && driver.ClockSafe())
    }

    /** dg_emmc_init. */
    method Bring() returns (r: Code, ghost t: seq<Answered>, ghost polls: nat)
      requires Valid() && !emmcInit
      modifies driver, driver.card
      ensures Valid() && driver.card.areas == old(driver.card.areas)
      ensures r == Success ==> driver.mount && driver.MountSafe() && driver.ClockSafe() && driver.Agrees()
      ensures driver.answers == old(driver.answers) + t && 1 <= polls <= 3000 && Sends(t, MountPlan(polls))
      ensures r == Success <==> AllOk(t) && driver.busySeen == old(driver.busySeen) && driver.CardOk()
    {
      hide Sends, MountPlan, AllOk, LastCode, Bits, Value;
      driver.Init();
      driver.MemcardPower(true);
      r, t, polls := driver.Mount();
    }

    /** dg_emmc_check_init. */
    method CheckInit() returns (r: Code, ghost t: seq<Answered>)
      requires Valid()
      modifies this, driver, driver.card
      ensures Valid() && (r == Success <==> emmcInit)
      ensures old(emmcInit) ==> emmcInit && unchanged(driver) && unchanged(driver.card)
      ensures !old(emmcInit) && emmcInit ==> driver.Agrees()
      ensures driver.card.areas == old(driver.card.areas)
      ensures driver.answers == old(driver.answers) + t && (old(emmcInit) ==> t == [])
      ensures !old(emmcInit) ==> exists polls :: 1 <= polls <= 3000 && Sends(t, MountPlan(polls))
      ensures !old(emmcInit) ==>
        (emmcInit <==> AllOk(t) && driver.busySeen == old(driver.busySeen) && driver.CardOk())
    {
      hide Sends, MountPlan, AllOk, Bits, Value;
      r, t := Success, [];
      if !emmcInit {
        ghost var polls;
        r, t, polls := Bring();
        if r == Success {
          emmcInit := true;
        }
      }
    }

    /** The image that a load leaves in work RAM when it ends normally within the work area. */
    ghost function Image(binary: bool, bin: seq<Byte>, size: Uint32, prgStart: Uint32, pos: nat,
                         limit: nat): Option<seq<Byte>>
    {
      if binary then
        if size <= |bin| && size <= limit then Some(bin[..size]) else None
      else
        var scan := ScanFrom(loader.input, pos);
        var image := Assemble(scan.records, prgStart, 0);
        if scan.end == Done && |image| <= limit then Some(image) else None
    }

    /** The text stream cancels the load, after records that fit the work area. */
    ghost predicate Cancels(binary: bool, prgStart: Uint32, pos: nat, limit: nat) {
      var scan := ScanFrom(loader.input, pos);
      !binary && scan.end == Aborted && |Assemble(scan.records, prgStart, 0)| <= limit
    }

    /** Clear the work RAM with zeros, then load. */
    method LoadImage(binary: bool, bin: seq<Byte>, size: Uint32, prgStart: Uint32, partition: nat)
      returns (end: LoadEnd, loaded: nat, ghost image: seq<Byte>)
      requires Valid()
      modifies driver.ram, loader, loader.str
      ensures Valid()
      ensures end == Loaded <==> Image(binary, bin, size, prgStart, old(loader.pos), WorkLimit(partition)).Some?
      ensures end == Cancelled <==> Cancels(binary, prgStart, old(loader.pos), WorkLimit(partition))
      ensures end == Loaded ==>
        && Image(binary, bin, size, prgStart, old(loader.pos), WorkLimit(partition)) == Some(image)
        && loaded == |image| <= WorkLimit(partition) && ZeroPadded(driver.ram[..], image, WorkLimit(partition))
    {
      hide ScanFrom, Assemble;
      var ram, limit := driver.ram, WorkLimit(partition);
      loaded, image := 0, [];
      FlashCommand.FillData32Bit(ram, 0, limit - 1, [0, 0, 0, 0]);
      ghost var cleared := ram[..];
      ZeroFilled(cleared, old(ram[..]), limit);
      if binary {
        end := LoadBinary(bin, size, limit);
        loaded := size;
      } else {
        var minAdd, maxAdd;
        end, minAdd, maxAdd := loader.Load(prgStart, limit, false, 0);
        if end == Loaded {
          loaded := maxAdd + 1 - minAdd;
        }
      }
      if end == Loaded {
        image := Image(binary, bin, size, prgStart, old(loader.pos), limit).value;
      }
    }

    /** dg_emmc_write_bin_serial; running out of RAM or of input stops the model. */
    method LoadBinary(bin: seq<Byte>, size: nat, limit: nat) returns (end: LoadEnd)
      requires loader.ram == driver.ram && limit <= driver.ram.Length
      modifies driver.ram
      ensures end == if size <= |bin| && size <= limit then Loaded
                     else if |bin| < size && |bin| <= limit then LoadEnd.Waiting else Overrun
      ensures end == Loaded ==> loader.Wrote(old(driver.ram[..]), 0, bin[..size])
    {
      var ram, i := driver.ram, 0;
      while i < size
        invariant i <= size && i <= |bin| && i <= limit
        invariant loader.Wrote(old(driver.ram[..]), 0, bin[..i])
      {
        if i >= |bin| {
          return LoadEnd.Waiting;
        }
        if i >= limit {
          return Overrun;
        }
        ram[i] := bin[i];
        i := i + 1;
      }
      end := Loaded;
    }

    /**
     dg_emmc_write after the console input, with the commands sent to mount, select and write. `Overread` is where the
     source would write from beyond the work RAM.
     */
    method WriteCommand(binary: bool, bin: seq<Byte>, size: Uint32, prgStart: Uint32, partition: nat, sector: Uint32)
      returns (r: Result, ghost mounting: seq<Answered>, ghost select: seq<Answered>, ghost write: seq<Answered>)
      requires Valid() && partition <= 2
      modifies this, driver, driver.card, driver.ram, loader, loader.str
      ensures Valid() && driver.answers == old(driver.answers) + mounting + select + write
      ensures r.InitError? <==> !emmcInit
      ensures old(emmcInit) ==> emmcInit && mounting == []
      ensures !old(emmcInit) ==> exists polls :: 1 <= polls <= 3000 && Sends(mounting, MountPlan(polls))
      ensures !emmcInit ==>
        !AllOk(mounting) || driver.busySeen != old(driver.busySeen) || !driver.CardOk()
      ensures emmcInit ==>
        match Image(binary, bin, size, prgStart, old(loader.pos), WorkLimit(partition))
        case None =>
          && r.LoadFailed? && select == write == []
          && (r == LoadFailed(Cancelled) <==> Cancels(binary, prgStart, old(loader.pos), WorkLimit(partition)))
        case Some(image) =>
          && Saves(r, |image|, sector, select, write)
          && (r == Complete ==>
                && driver.card.areas[driver.card.Access()]
                   == Stored(old(driver.card.areas)[driver.card.Access()], sector, image)
                && (old(!emmcInit || driver.Agrees()) ==> driver.card.Access() == partition))
      ensures OthersKept(driver.card.areas, old(driver.card.areas), driver.card.Access())
      ensures r.InitError? || r.LoadFailed? || r.SelectFailed? || r.Overread? ==>
        driver.card.areas == old(driver.card.areas)
    {
      hide Stored, SectorCount, Sectors, Written, ScanFrom, Assemble, Switched, ZeroPadded, Saves, Sends, MountPlan,
        AllOk,
        Bits, Value;
      var code;
      select, write := [], [];
      code, mounting := CheckInit();
      if code != Success {
        return InitError, mounting, [], [];
      }
      var end, loaded, image := LoadImage(binary, bin, size, prgStart, partition);
      if end != Loaded {
        return LoadFailed(end), mounting, [], [];
      }
      r, select, write := SaveImage(image, loaded, partition, sector);
    }

    /** From the sector arithmetic on: the result is named by the answers and the sector count alone. */
    method SaveImage(ghost image: seq<Byte>, loaded: nat, partition: nat, sector: Uint32)
      returns (r: Result, ghost select: seq<Answered>, ghost write: seq<Answered>)
      requires Valid() && partition <= 2 && emmcInit
      requires loaded == |image| && ZeroPadded(driver.ram[..], image, WorkLimit(partition))
      modifies driver, driver.card
      ensures Valid() && Saves(r, |image|, sector, select, write) && !r.InitError? && !r.LoadFailed?
      ensures driver.answers == old(driver.answers) + select + write
      ensures old(driver.extCsdData[EXT_CSD_PARTITION_CONFIG]) % 8 == partition ==> select == []
      ensures old(driver.extCsdData[EXT_CSD_PARTITION_CONFIG]) % 8 != partition ==>
        && select != []
        && var config := old(driver.extCsdData[EXT_CSD_PARTITION_CONFIG]);
           Sends(select, SwitchPlan(0x03B3_0000 + 0x100 * WithAccess(config, partition)))
      ensures r == Complete ==>
        driver.card.areas[driver.card.Access()]
        == Stored(old(driver.card.areas)[driver.card.Access()], sector, image)
      ensures r == Complete && old(driver.Agrees()) ==> driver.card.Access() == partition
      ensures OthersKept(driver.card.areas, old(driver.card.areas), driver.card.Access())
      ensures r.SelectFailed? || r.Overread? ==> driver.card.areas == old(driver.card.areas)
    {
      hide Stored, SectorCount, Sectors, Switched, ZeroPadded, Sends, LastCode, WithAccess, SwitchPlan, WorkLimit;
      var code;
      code, select := driver.SelectPartition(partition);
      if code != Success {
        return SelectFailed, select, [];
      }
      r, write := WriteImage(image, loaded, partition, sector);
    }

    /** The end of dg_emmc_write, in the selected area. */
    method WriteImage(ghost image: seq<Byte>, loaded: nat, ghost partition: nat, sector: Uint32)
      returns (r: Result, ghost write: seq<Answered>)
      requires Valid() && driver.mount && loaded == |image| && ZeroPadded(driver.ram[..], image, WorkLimit(partition))
      modifies driver, driver.card
      ensures Valid() && Saves(r, |image|, sector, [], write) && (r == Complete || r == Overread || r.WriteFailed?)
      ensures driver.answers == old(driver.answers) + write
      ensures driver.card.extCsd == old(driver.card.extCsd)
      ensures r == Complete ==>
        driver.card.areas[driver.card.Access()]
        == Stored(old(driver.card.areas)[driver.card.Access()], sector, image)
      ensures OthersKept(driver.card.areas, old(driver.card.areas), driver.card.Access())
      ensures r == Overread ==> driver.card.areas == old(driver.card.areas)
    {
      hide Stored, SectorCount, Sectors, Written, Chunks, ZeroPadded, SendsBlocks, WritePlan, Verdict, AllFine;
      ImageSectors(image, driver.ram[..], WorkLimit(partition));
      CountFits(sector, |image|);
      var count := SectorCount(sector, loaded);
      write := [];
      if 512 * count > driver.ram.Length {
        return Overread, write;
      }
      ghost var area := driver.card.areas[driver.card.Access()];
      var code;
      code, write := driver.WriteSector(0, sector, count);
      if write != [] {
        LastBlock(write, WritePlan(Chunks(sector, 0, count)));
      }
      if code != Success {
        return WriteFailed(code), write;
      }
      StoredIs(area, sector, image, driver.ram[..], WorkLimit(partition));
      r := Complete;
    }
  }

  /**
   The result of the write command for an image of this size. It is complete exactly if every command of the selection
   succeeded, the sector count is right, the image is not empty, and every answer to the write is fine, the write being
   all of its commands; otherwise it names what failed first.
   */
  ghost predicate Saves(r: Result, size: Uint32, sector: Uint32, select: seq<Answered>, write: seq<Answered>) {
    if LastCode(select) != Success then r == SelectFailed && write == []
    else if SectorCount(sector, size) != Sectors(size) then r == Overread && write == []
    else if size == 0 then r == WriteFailed(ErrParam) && write == []
    else
      && write != [] && SendsBlocks(write, WritePlan(Chunks(sector, 0, Sectors(size))))
      && if AllFine(write) then r == Complete && |write| == |WritePlan(Chunks(sector, 0, Sectors(size)))|
         else r == WriteFailed(Verdict(write[|write| - 1]))
  }

  lemma LastBlock(t: seq<Answered>, plan: Plan)
    requires t != [] && SendsBlocks(t, plan)
    ensures AllFine(t) <==> Verdict(t[|t| - 1]) == Success
  {
    hide Verdict;
  }

  /**
   The first write command of a session on a printed stream: a '.' command leaves the card's areas alone, and after a
   terminating record a complete write has stored the printed bytes, with zeros in the gaps and up to the last sector.
   */
  method WritePrinted(card: Card, ram: array<Byte>, lines: seq<Line>, e: Ender, prgStart: Uint32, partition: nat,
                      sector: Uint32)
    returns (r: Result, ghost image: seq<Byte>)
    requires (forall i :: 0 <= i < |lines| ==> ValidLine(lines[i])) && ValidEnder(e)
    requires Ascending(RecordsOf(lines), prgStart)
    requires Extent(RecordsOf(lines), prgStart) - prgStart <= if partition == 0 then 0x2000_0000 else 0x100_0000
    requires card.Valid() && ram.Length == 0x2000_0000 && partition <= 2
    modifies card, ram
    ensures card.Valid() && |image| == Extent(RecordsOf(lines), prgStart) - prgStart
    ensures forall x :: 0 <= x < |image| ==>
      image[x] == match Assigned(RecordsOf(lines), prgStart + x) case Some(b) => b case None => 0
    ensures !r.InitError? ==> (r.LoadFailed? <==> !e.Ender?) && (r == LoadFailed(Cancelled) <==> e.Cancel?)
    ensures !e.Ender? ==> card.areas == old(card.areas)
    ensures r == Complete ==>
      card.Access() == partition && card.areas[partition] == Stored(old(card.areas)[partition], sector, image)
    ensures OthersKept(card.areas, old(card.areas), card.Access())
  {
    hide Print, ScanFrom, RecordsOf, ValidLine, ValidEnder, Ascending, Extent, Assemble, Assigned, Stored;
    var tool := new Tool(card, ram, Print(lines, e));
    LoadInvertsPrint(lines, e, prgStart, 0, 0);
    image := Assemble(ScanFrom(Print(lines, e), 0).records, prgStart, 0);
    ghost var mounting, select, write;
    r, mounting, select, write := tool.WriteCommand(false, [], 0, prgStart, partition, sector);
    forall x: nat | x < |image|
      ensures image[x] == match Assigned(RecordsOf(lines), prgStart + x) case Some(b) => b case None => 0
    {
      LoadInvertsPrint(lines, e, prgStart, 0, x);
    }
  }

  ghost predicate OthersKept(areas: seq<seq<Byte>>, before: seq<seq<Byte>>, p: nat) {
    |areas| == |before| && forall q :: 0 <= q < |areas| && q != p ==> areas[q] == before[q]
  }

  lemma CountFits(sector: Uint32, size: nat)
    requires size <= WORK_EADD_512M + 1
    ensures 512 * SectorCount(sector, size) <= WORK_EADD_512M + 1 <==> SectorCount(sector, size) == Sectors(size)
    ensures size == 0 <==> Sectors(size) == 0
  {
    hide SectorCount;
    if SectorCount(sector, size) != Sectors(size) {
      WrongCountIsTooBig(sector, size);
    }
  }

  lemma ImageSectors(image: seq<Byte>, ram: seq<Byte>, limit: nat)
    requires ZeroPadded(ram, image, limit) && limit % 512 == 0
    ensures |image| <= limit && |image| <= 512 * Sectors(|image|) <= limit
  {
  }

  lemma StoredIs(area: seq<Byte>, sector: nat, image: seq<Byte>, ram: seq<Byte>, limit: nat)
    requires ZeroPadded(ram, image, limit) && 512 * Sectors(|image|) <= limit
    ensures Written(area, sector, ram, 0, Sectors(|image|)) == Stored(area, sector, image)
  {
  }

  /** The RAM holds the image, and zeros from there to the limit. */
  ghost predicate ZeroPadded(ram: seq<Byte>, image: seq<Byte>, limit: nat) {
    && |image| <= limit <= |ram|
    && forall i :: 0 <= i < limit ==> ram[i] == if i < |image| then image[i] else 0
  }

  lemma ZeroFilled(ram: seq<Byte>, before: seq<Byte>, limit: nat)
    requires |ram| == 0x2000_0000 && (limit == WORK_EADD_16M + 1 || limit == WORK_EADD_512M + 1)
    requires FlashCommand.Filled(ram, before, 0, FlashCommand.FillStop(0, limit - 1), [0, 0, 0, 0])
    ensures forall i :: 0 <= i < limit ==> ram[i] == 0
  {
  }
}
