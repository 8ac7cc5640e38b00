/**
 XLoadSpiflash0_2 and its helpers as they run: RAM and device are changed in place, and the whole command is
 proved against the update function of FlashUpdate.
 */
module FlashCommand {
  import opened Words
  import opened NorFlash
  import opened SRecord
  import opened SRecordLoader
  import opened FlashUpdate

  datatype Outcome = AddressError | LoadFailed(end: LoadEnd) | OverSize | Declined | Written(first: nat, last: nat)

  /** Where FillData32Bit stops: whole runs of 16 words, and always at least one. */
  function FillStop(start: nat, end: nat): (stop: nat)
    ensures stop >= end && start + 64 <= stop && (stop - start) % 64 == 0
    ensures stop == start + 64 || stop < end + 64
  {
    if end <= start then start + 64 else start + (end - start + 63) / 64 * 64
  }

  /** FillData32Bit (ramckmdl.c): one word, given by its four bytes, over whole 64-byte runs. */
  method FillData32Bit(ram: array<Byte>, start: nat, end: nat, word: seq<Byte>)
    requires |word| == 4 && FillStop(start, end) <= ram.Length
    modifies ram
    ensures Filled(ram[..], old(ram[..]), start, FillStop(start, end), word)
  {
    hide FillStop, Filled, RunDone;
    ghost var before := ram[..];
    NothingFilled(before, start, word);
    var p := start;
    while true
      invariant start <= p < FillStop(start, end) && (p - start) % 4 == 0
      invariant Filled(ram[..], before, start, p, word)
      decreases FillStop(start, end) - p
    {
      ghost var now := ram[..];
      StoreWord(ram, p, word);
      FilledOneMore(ram[..], now, before, start, p, word);
      p := p + 4;
      DoneAtStop(start, p, end);
      if RunDone(start, p, end) {
        return;
      }
    }
  }

  /** The test at the end of each turn of the unrolled loop. */
  predicate RunDone(start: nat, p: nat, end: nat)
    requires start <= p
  {
    (p - start) % 64 == 0 && p >= end
  }

  lemma DoneAtStop(start: nat, p: nat, end: nat)
    requires start < p < FillStop(start, end) + 4 && (p - start) % 4 == 0
    ensures RunDone(start, p, end) <==> p == FillStop(start, end)
    ensures p <= FillStop(start, end)
  {
    var n := (FillStop(start, end) - start) / 64;
    assert FillStop(start, end) == start + 64 * n;
    var k := (p - start) / 4;
    assert p == start + 4 * k && k <= 16 * n;
  }

  lemma NothingFilled(ram: seq<Byte>, start: nat, word: seq<Byte>)
    requires |word| == 4
    ensures Filled(ram, ram, start, start, word)
  {
  }

  /** The words from `start` to `stop` are stored, and nothing else changed. */
  ghost predicate Filled(ram: seq<Byte>, before: seq<Byte>, start: nat, stop: nat, word: seq<Byte>) {
    && |word| == 4 && |ram| == |before|
    && forall i :: 0 <= i < |ram| ==> ram[i] == if start <= i < stop then word[(i - start) % 4] else before[i]
  }

  lemma FilledOneMore(ram: seq<Byte>, now: seq<Byte>, before: seq<Byte>, start: nat, p: nat, word: seq<Byte>)
    requires Filled(now, before, start, p, word) && |ram| == |now| && start <= p && p + 4 <= |ram|
    requires (p - start) % 4 == 0
    requires forall i :: 0 <= i < |ram| ==> ram[i] == if p <= i < p + 4 then word[i - p] else now[i]
    ensures Filled(ram, before, start, p + 4, word)
  {
    assert forall i :: p <= i < p + 4 ==> ram[i] == word[(i - start) % 4];
  }

  method StoreWord(ram: array<Byte>, at: nat, word: seq<Byte>)
    requires |word| == 4 && at + 4 <= ram.Length
    modifies ram
    ensures forall i :: 0 <= i < ram.Length ==> ram[i] == if at <= i < at + 4 then word[i - at] else old(ram[i])
  {
    ram[at], ram[at + 1], ram[at + 2], ram[at + 3] := word[0], word[1], word[2], word[3];
  }

  class Updater {
    const flash: Device
    const ram: array<Byte>
    const driver: Driver
    const loader: Loader
    const sectorSize: nat     // gQspi_sa_size
    const endAddress: nat     // gQspi_end_addess

    constructor (flash: Device, ram: array<Byte>, input: seq<char>, sectorSize: nat, endAddress: nat)
      requires Geometry(flash.mem, sectorSize, endAddress) && ram.Length == 0x3000_0000 && flash.busyFor == 0
      ensures Valid() && fresh(loader) && fresh(loader.str)
      ensures this.flash == flash && this.ram == ram && loader.input == input && loader.pos == 0
      ensures this.sectorSize == sectorSize && this.endAddress == endAddress
    {
      this.flash, this.ram, this.sectorSize, this.endAddress := flash, ram, sectorSize, endAddress;
      driver := new Driver(flash, ram, sectorSize);
      loader := new Loader(input, ram);
    }

    /** A flash part from the ID table: a power-of-two sector size that divides the capacity, at most 256 MB. */
    static ghost predicate Geometry(m: Mem, sectorSize: nat, endAddress: nat) {
      IsSectorSize(sectorSize) && |m| % sectorSize == 0 && endAddress < |m| <= 0x1000_0000
    }

    ghost predicate Valid()
      reads this, flash, loader
    {
      && Geometry(flash.mem, sectorSize, endAddress) && flash.busyFor == 0
      && ram.Length == 0x3000_0000
      && driver.flash == flash && driver.ram == ram && driver.sectorSize == sectorSize
      && loader.ram == ram && loader.Valid()
    }

    /** FastRdQspiFlash: a memory copy out of the flash window. */
    method ReadFlash(source: nat, dest: nat, count: nat)
      requires source + count <= |flash.mem| && dest + count <= ram.Length
      modifies ram
      ensures forall i :: 0 <= i < ram.Length ==>
        ram[i] == if dest <= i < dest + count then flash.mem[source + (i - dest)] else old(ram[i])
    {
      var k := 0;
      while k < count
        invariant k <= count
        invariant forall i :: 0 <= i < ram.Length ==>
          ram[i] == if dest <= i < dest + k then flash.mem[source + (i - dest)] else old(ram[i])
      {
        ram[dest + k] := flash.mem[source + k];
        k := k + 1;
      }
    }

    /** CkSpiFlashAllF: is there a byte other than FF? */
    method CkSpiFlashAllF(at: nat, cap: nat) returns (found: bool)
      requires at + cap <= ram.Length
      ensures !found <==> forall i :: at <= i < at + cap ==> ram[i] == BLANK
    {
      var p := at;
      while p < at + cap
        invariant at <= p <= at + cap
        invariant forall i :: at <= i < p ==> ram[i] == BLANK
      {
        if ram[p] != BLANK {
          return true;
        }
        p := p + 1;
      }
      found := false;
    }

    /**
     CkQspiFlash1ClearSectorSize: read the covering sectors back, and unless they are blank ask, erase them and
     write back what surrounds the image. `yes` is the operator's answer.
     */
    method ClearSectors(readBuffer: nat, lo: nat, hi: nat, start: nat, end: nat, yes: bool) returns (declined: bool)
      requires Valid()
      requires lo <= start <= end <= hi <= |flash.mem| && lo % 256 == 0 && hi % 256 == 0
      requires readBuffer + (hi - lo) <= ram.Length && SectorRun(lo, hi, sectorSize)
      modifies flash, ram
      ensures Valid()
      ensures declined <==> !AllBlank(old(flash.mem), lo, hi) && !yes
      ensures declined || AllBlank(old(flash.mem), lo, hi) ==> flash.mem == old(flash.mem)
      ensures !declined && !AllBlank(old(flash.mem), lo, hi) ==>
        flash.mem == Restored(old(flash.mem), lo, hi, start, end)
      ensures forall i :: 0 <= i < readBuffer ==> ram[i] == old(ram[i])
    {
      hide Restored, SectorRun, IsSectorSize;
      ghost var m := flash.mem;
      var checkSize := hi - lo;
      var deltaS := start - lo;
      var deltaE := PageFloor(hi - end);
      ReadFlash(lo, readBuffer, checkSize);
      var dirty := CkSpiFlashAllF(readBuffer, checkSize);
      BlankCopy(m, lo, ram[..], readBuffer, checkSize);
      if !dirty {
        return false;
      }
      if !yes {
        return true;
      }
      EraseAndRestore(readBuffer, lo, hi, start, end, deltaS, deltaE);
      declined := false;
    }

    /** Erase whole sectors. */
    method EraseRun(lo: nat, hi: nat)
      requires Valid() && lo < hi <= |flash.mem| && SectorRun(lo, hi, sectorSize)
      modifies flash
      ensures Valid() && flash.mem == Erased(old(flash.mem), lo, hi)
    {
      hide Erased, SectorRun, Floor;
      SectorSpan(lo, hi, sectorSize);
      driver.SectorErase(lo, hi - 1);
    }

    method EraseAndRestore(readBuffer: nat, lo: nat, hi: nat, start: nat, end: nat, deltaS: nat, deltaE: nat)
      requires Valid() && lo <= start <= end <= hi <= |flash.mem| && lo < hi && readBuffer + (hi - lo) <= ram.Length
      requires SectorRun(lo, hi, sectorSize) && lo % 256 == 0 && hi % 256 == 0
      requires deltaS == start - lo && deltaE == (hi - end) - (hi - end) % 256
      requires SameBytes(ram[..], readBuffer, flash.mem, lo, hi - lo)
      modifies flash
      ensures Valid()
      ensures flash.mem == Restored(old(flash.mem), lo, hi, start, end)
    {
      hide Saved, Erased, SameBytes, SectorRun, IsSectorSize, PageCount;
      ghost var m := flash.mem;
      PagesFit(lo, hi, start, end);
      EraseRun(lo, hi);
      PutBack(readBuffer, lo, deltaS, m, lo, hi);
      PutBack(readBuffer + (hi - lo) - deltaE, hi - deltaE, deltaE, m, lo, hi);
    }

    /** Program bytes that were read back to where they came from, if there are any. */
    method PutBack(source: nat, at: nat, size: nat, ghost m: Mem, ghost lo: nat, ghost hi: nat)
      requires Valid() && |m| == |flash.mem| && lo <= at && at + 256 * PageCount(size) <= hi <= |m| && source >= at - lo
      requires source - (at - lo) + (hi - lo) <= ram.Length
      requires SameBytes(ram[..], source - (at - lo), m, lo, hi - lo)
      modifies flash
      ensures Valid()
      ensures flash.mem == Saved(old(flash.mem), at, m, at, PageCount(size))
    {
      hide Saved, SameBytes, IsSectorSize;
      SamePart(ram[..], source - (at - lo), m, lo, hi - lo, at - lo, 256 * PageCount(size));
      SavedSameSource(flash.mem, at, ram[..], source, m, at, PageCount(size));
      if size != 0 {
        driver.SaveData(source, at, size);
      } else {
        SavedNothing(flash.mem, at, m, at);
      }
    }

    /** The binary download loop; running out of RAM or of input stops the model. */
    method LoadBinary(bin: seq<Byte>, size: nat, limit: nat) returns (end: LoadEnd)
      requires loader.ram == ram && limit <= ram.Length
      modifies ram
      ensures end == if size <= |bin| && size <= limit then Loaded
                     else if |bin| < size && |bin| <= limit then Waiting else Overrun
      ensures end == Loaded ==> loader.Wrote(old(ram[..]), 0, bin[..size])
    {
      var imageOffset := 0;
      while imageOffset < size
        invariant imageOffset <= size && imageOffset <= |bin| && imageOffset <= limit
        invariant loader.Wrote(old(ram[..]), 0, bin[..imageOffset])
      {
        if imageOffset >= |bin| {
          return Waiting;
        }
        if imageOffset >= limit {
          return Overrun;
        }
        ram[imageOffset] := bin[imageOffset];
        imageOffset := imageOffset + 1;
      }
      end := Loaded;
    }

    /** The image a load leaves in work RAM when it ends normally. */
    ghost function Image(binary: bool, bin: seq<Byte>, size: nat, prgTop: Uint32, pos: nat): Option<seq<Byte>> {
      if binary then
        if size <= |bin| && size <= WORK_SIZE then Some(bin[..size]) else None
      else
        var scan := ScanFrom(loader.input, pos);
        var image := Assemble(scan.records, prgTop, BLANK);
        if scan.end == Done && |image| <= WORK_SIZE then Some(image) else None
    }

    /** The text stream cancels the load, after records that fit the work area. */
    ghost predicate Cancels(binary: bool, prgTop: Uint32, pos: nat) {
      var scan := ScanFrom(loader.input, pos);
      !binary && scan.end == Aborted && |Assemble(scan.records, prgTop, BLANK)| <= WORK_SIZE
    }

    /** Fill the work area with FF, then load: the bytes after the image are FF up to the end of the area. */
    method LoadImage(binary: bool, bin: seq<Byte>, size: nat, prgTop: Uint32)
      returns (end: LoadEnd, minAdd: nat, maxAdd: int, ghost image: seq<Byte>)
      requires Valid()
      modifies ram, loader, loader.str
      ensures Valid()
      ensures (end == Loaded) <==> Image(binary, bin, size, prgTop, old(loader.pos)).Some?
      ensures (end == Cancelled) <==> Cancels(binary, prgTop, old(loader.pos))
      ensures end == Loaded ==>
        && Image(binary, bin, size, prgTop, old(loader.pos)) == Some(image)
        && minAdd == 0 && maxAdd == |image| - 1 && |image| <= WORK_SIZE
        && SameBytes(ram[..], 0, Padded(image), 0, |Padded(image)|)
    {
      hide ScanFrom, Assemble;
      minAdd, maxAdd, image := 0, -1, [];
      FillData32Bit(ram, LS_WORK_DRAM_SADD, LS_WORK_DRAM_EADD, [BLANK, BLANK, BLANK, BLANK]);
      ghost var filled := ram[..];
      AllBlankFilled(filled, old(ram[..]));
      if binary {
        end := LoadBinary(bin, size, WORK_SIZE);
        maxAdd := size - 1;
      } else {
        end, minAdd, maxAdd := loader.Load(prgTop, WORK_SIZE, true, BLANK);
      }
      if end == Loaded {
        image := Image(binary, bin, size, prgTop, old(loader.pos)).value;
        PaddedInRam(ram[..], filled, image);
      }
    }

    /** What the command does to the flash, given the image it loaded. */
    ghost predicate Does(m: Mem, m': Mem, image: seq<Byte>, saveAdd: nat, yes: bool, r: Outcome)
      requires Geometry(m, sectorSize, endAddress)
    {
      if r.Written? then
        && 0 < saveAdd + |image| <= endAddress + 1
        && m' == Command(m, saveAdd, image, sectorSize)
        && (yes || CoverBlank(m, saveAdd, saveAdd + |image|, sectorSize))
        && (saveAdd % 256 == 0 ==> Landed(m, saveAdd, image, m'))
        && r.first == saveAdd && r.last == saveAdd + |image| - 1
      else
        && m' == m && (r == OverSize || r == Declined)
        && (r == OverSize <==> !(0 < saveAdd + |image| <= endAddress + 1))
        && (r == Declined ==> !yes && !CoverBlank(m, saveAdd, saveAdd + |image|, sectorSize))
    }

    /** From the end of the load on: bounds, sectors, clearing and programming. */
    method ProgramImage(ghost image: seq<Byte>, minAdd: nat, maxAdd: int, saveAdd: Uint32, yes: bool)
      returns (r: Outcome)
      requires Valid() && saveAdd <= endAddress
      requires minAdd == 0 && maxAdd == |image| - 1 && |image| <= WORK_SIZE
      requires SameBytes(ram[..], 0, Padded(image), 0, |Padded(image)|)
      modifies flash, ram
      ensures Valid() && Does(old(flash.mem), flash.mem, image, saveAdd, yes, r)
      ensures !r.AddressError? && !r.LoadFailed?
    {
      hide Command, Landed, Padded, IsSectorSize, ClearedFor, CoverBlank;
      ghost var m := flash.mem;
      var prgStart, prgEnd, saveSize := ImageRange(saveAdd, minAdd, maxAdd);
      if prgEnd > endAddress {
        return OverSize;
      }
      var declined := ClearCovering(prgStart, prgEnd, yes);
      if declined {
        return Declined;
      }
      SaveImage(m, image, minAdd, prgStart, saveSize);
      r := Written(prgStart, prgEnd);
    }

    /** The 32-bit arithmetic on the loaded bounds. */
    method ImageRange(saveAdd: Uint32, minAdd: nat, maxAdd: int)
      returns (prgStart: Uint32, prgEnd: Uint32, saveSize: Uint32)
      requires minAdd == 0 && -1 <= maxAdd < WORK_SIZE && saveAdd < 0x1000_0000
      ensures prgStart == saveAdd && prgEnd == (if saveAdd + maxAdd < 0 then 0xFFFF_FFFF else saveAdd + maxAdd)
      ensures saveSize == maxAdd + 1
    {
      prgStart := Wrap32(saveAdd + minAdd);
      prgEnd := Wrap32(prgStart + (maxAdd - minAdd));
      saveSize := Wrap32(prgEnd - prgStart + 1);
    }

    /** The sector arithmetic of the command: `start & mask` and `end | ~mask`. */
    method CoveringSectors(first: Uint32, last: Uint32) returns (top: nat, secEnd: nat)
      requires Valid() && first <= last + 1 <= |flash.mem|
      ensures sectorSize > 0 && top == Floor(first, sectorSize) && secEnd + 1 == Ceil(last + 1, sectorSize)
      ensures SectorRun(top, secEnd + 1, sectorSize) && top % 256 == 0 && (secEnd + 1) % 256 == 0
      ensures secEnd + 1 <= |flash.mem|
    {
      hide SectorRun;
      top := SectorTop(first, sectorSize);
      secEnd := SectorLast(last, sectorSize);
      SectorBounds(first, last + 1, |flash.mem|, sectorSize);
      CoveringRun(first, last, sectorSize);
    }

    method ClearCovering(first: Uint32, last: Uint32, yes: bool) returns (declined: bool)
      requires Valid() && first <= last + 1 <= |flash.mem|
      modifies flash, ram
      ensures Valid()
      ensures declined <==> !yes && !CoverBlank(old(flash.mem), first, last + 1, sectorSize)
      ensures declined ==> flash.mem == old(flash.mem)
      ensures !declined ==> ClearedFor(old(flash.mem), flash.mem, first, last + 1, sectorSize)
      ensures forall i :: 0 <= i < WORK_SPI_LOAD_AREA ==> ram[i] == old(ram[i])
    {
      hide SectorRun, Restored, AllBlank, IsSectorSize;
      var top, secEnd := CoveringSectors(first, last);
      declined := ClearSectors(WORK_SPI_LOAD_AREA, top, secEnd + 1, first, last + 1, yes);
    }

    method SaveImage(ghost m: Mem, ghost image: seq<Byte>, source: nat, start: nat, size: nat)
      requires Valid() && Geometry(m, sectorSize, endAddress) && source == 0 && size == |image| <= WORK_SIZE
      requires start + |image| <= |m| && SameBytes(ram[..], 0, Padded(image), 0, |Padded(image)|)
      requires ClearedFor(m, flash.mem, start, start + |image|, sectorSize)
      modifies flash
      ensures Valid()
      ensures flash.mem == Command(m, start, image, sectorSize)
      ensures start % 256 == 0 ==> Landed(m, start, image, flash.mem)
    {
      hide Command, Landed, Padded, SameBytes, ClearedFor, Saved;
      ghost var cleared := flash.mem;
      SavedSameSource(cleared, start, ram[..], 0, Padded(image), 0, PageCount(|image|));
      driver.SaveData(source, start, size);
      UpdateComposed(m, cleared, start, image, sectorSize);
      if start % 256 == 0 {
        CommandIsExact(m, start, image, sectorSize);
      }
    }

    /** The whole command. `yes` is the operator's answer, if the command asks. */
    method XLoadSpiflash(binary: bool, bin: seq<Byte>, size: nat, prgTop: Uint32, saveAdd: Uint32, yes: bool)
      returns (r: Outcome)
      requires Valid()
      modifies flash, ram, loader, loader.str
      ensures Valid()
      ensures r.AddressError? <==> endAddress < saveAdd
      ensures match Image(binary, bin, size, prgTop, old(loader.pos))
        case Some(image) => saveAdd <= endAddress ==> Does(old(flash.mem), flash.mem, image, saveAdd, yes, r)
        case None => saveAdd <= endAddress ==> r.LoadFailed?
      ensures saveAdd <= endAddress ==> (r == LoadFailed(Cancelled) <==> Cancels(binary, prgTop, old(loader.pos)))
      ensures r.AddressError? || r.LoadFailed? ==> flash.mem == old(flash.mem)
    {
      hide Does;
      if endAddress < saveAdd {
        return AddressError;
      }
      var end, minAdd, maxAdd, image := LoadImage(binary, bin, size, prgTop);
      if end != Loaded {
        return LoadFailed(end);
      }
      r := ProgramImage(image, minAdd, maxAdd, saveAdd, yes);
    }
  }

  /**
   The command on a printed stream: a '.' command leaves the flash alone, and after a terminating record the flash is
   as the update of the printed bytes leaves it.
   */
  method UpdatePrinted(flash: Device, ram: array<Byte>, lines: seq<Line>, e: Ender, sectorSize: nat, endAddress: nat,
                       prgTop: Uint32, saveAdd: Uint32, yes: bool)
    returns (r: Outcome, ghost image: seq<Byte>, updater: Updater)
    requires (forall i :: 0 <= i < |lines| ==> ValidLine(lines[i])) && ValidEnder(e)
    requires Ascending(RecordsOf(lines), prgTop) && Extent(RecordsOf(lines), prgTop) - prgTop <= 0x400_0000
    requires Updater.Geometry(flash.mem, sectorSize, endAddress) && ram.Length == 0x3000_0000 && flash.busyFor == 0
    requires saveAdd <= endAddress
    modifies flash, ram
    ensures |image| == Extent(RecordsOf(lines), prgTop) - prgTop
    ensures forall x :: 0 <= x < |image| ==>
      image[x] == match Assigned(RecordsOf(lines), prgTop + x) case Some(b) => b case None => BLANK
    ensures updater.flash == flash && updater.sectorSize == sectorSize && updater.endAddress == endAddress
    ensures e.Ender? ==> updater.Does(old(flash.mem), flash.mem, image, saveAdd, yes, r)
    ensures r == LoadFailed(Cancelled) <==> e.Cancel?
    ensures r.LoadFailed? <==> !e.Ender?
    ensures r.LoadFailed? ==> flash.mem == old(flash.mem)
  {
    hide Print, ScanFrom, RecordsOf, ValidLine, ValidEnder, Ascending, Extent, Assemble, Assigned;
    updater := new Updater(flash, ram, Print(lines, e), sectorSize, endAddress);
    LoadInvertsPrint(lines, e, prgTop, BLANK, 0);
    image := Assemble(ScanFrom(Print(lines, e), 0).records, prgTop, BLANK);
    r := updater.XLoadSpiflash(false, [], 0, prgTop, saveAdd, yes);
    forall x: nat | x < |image|
      ensures image[x] == match Assigned(RecordsOf(lines), prgTop + x) case Some(b) => b case None => BLANK
    {
      LoadInvertsPrint(lines, e, prgTop, BLANK, x);
    }
  }

  lemma AllBlankFilled(ram: seq<Byte>, before: seq<Byte>)
    requires |ram| == 0x3000_0000
    requires Filled(ram, before, LS_WORK_DRAM_SADD, FillStop(LS_WORK_DRAM_SADD, LS_WORK_DRAM_EADD),
                    [BLANK, BLANK, BLANK, BLANK])
    ensures forall i :: 0 <= i < WORK_SIZE ==> ram[i] == BLANK
  {
  }

  lemma PaddedInRam(ram: seq<Byte>, filled: seq<Byte>, image: seq<Byte>)
    requires |ram| == |filled| == 0x3000_0000 && |image| <= WORK_SIZE
    requires forall i :: 0 <= i < WORK_SIZE ==> filled[i] == BLANK
    requires forall i :: 0 <= i < |ram| ==> ram[i] == if 0 <= i < |image| then image[i] else filled[i]
    ensures SameBytes(ram, 0, Padded(image), 0, |Padded(image)|)
  {
    assert |Padded(image)| <= WORK_SIZE;
  }

  /** The masks of the command select the covering sectors. */
  lemma CoveringRun(first: nat, last: int, sectorSize: nat)
    requires IsSectorSize(sectorSize) && 0 <= last && first <= last + 1
    ensures sectorSize > 0 && Floor(last, sectorSize) + sectorSize == Ceil(last + 1, sectorSize)
    ensures SectorRun(Floor(first, sectorSize), Ceil(last + 1, sectorSize), sectorSize)
  {
    SectorSizeFacts(sectorSize);
    AddUnit(last, sectorSize);
  }

  /** The sectors that meet [start, end) are blank, so the command does not ask. */
  ghost predicate CoverBlank(m: Mem, start: nat, end: nat, sectorSize: nat)
    requires IsSectorSize(sectorSize) && |m| % sectorSize == 0 && start <= end <= |m|
  {
    SectorBounds(start, end, |m|, sectorSize);
    AllBlank(m, Floor(start, sectorSize), Ceil(end, sectorSize))
  }

  /** The device after the clearing step for an image at [start, end). */
  ghost predicate ClearedFor(m: Mem, cleared: Mem, start: nat, end: nat, sectorSize: nat)
    requires IsSectorSize(sectorSize) && |m| % sectorSize == 0 && start <= end <= |m|
  {
    SectorBounds(start, end, |m|, sectorSize);
    var lo, hi := Floor(start, sectorSize), Ceil(end, sectorSize);
    cleared == if AllBlank(m, lo, hi) then m else Restored(m, lo, hi, start, end)
  }

  /** The steps of the command, put together. */
  lemma UpdateComposed(m: Mem, cleared: Mem, start: nat, image: seq<Byte>, sectorSize: nat)
    requires IsSectorSize(sectorSize) && |m| % sectorSize == 0 && start + |image| <= |m|
    requires ClearedFor(m, cleared, start, start + |image|, sectorSize)
    ensures Command(m, start, image, sectorSize) == Saved(cleared, start, Padded(image), 0, PageCount(|image|))
  {
    hide Restored, Saved, AllBlank, Padded;
  }

  lemma SavedNothing(m: Mem, addr: nat, src: seq<Byte>, at: nat)
    requires at <= |src|
    ensures PageCount(0) == 0 && Saved(m, addr, src, at, 0) == m
  {
  }

  lemma BlankCopy(m: Mem, lo: nat, ram: seq<Byte>, at: nat, count: nat)
    requires lo + count <= |m| && at + count <= |ram|
    requires forall i :: at <= i < at + count ==> ram[i] == m[lo + (i - at)]
    ensures SameBytes(ram, at, m, lo, count)
    ensures (forall i :: at <= i < at + count ==> ram[i] == BLANK) <==> AllBlank(m, lo, lo + count)
  {
    if forall i :: at <= i < at + count ==> ram[i] == BLANK {
      forall j | lo <= j < lo + count ensures m[j] == BLANK {
        assert ram[at + (j - lo)] == m[lo + ((at + (j - lo)) - at)];
      }
    }
  }

  /** [lo, hi) is a run of whole sectors. */
  ghost predicate SectorRun(lo: nat, hi: nat, sectorSize: nat) {
    sectorSize > 0 && lo % sectorSize == 0 && hi % sectorSize == 0
  }

  /** Erasing from the first to the last byte of a run of sectors erases exactly that run. */
  lemma SectorSpan(lo: nat, hi: nat, sectorSize: nat)
    requires lo < hi && SectorRun(lo, hi, sectorSize)
    ensures Floor(lo, sectorSize) == lo && Floor(hi - 1, sectorSize) + sectorSize == hi && lo + sectorSize <= hi
  {
    MultiplesApart(lo, hi, sectorSize);
    var q := hi / sectorSize;
    assert hi == sectorSize * q;
    MulAtMost(sectorSize, q, q);
    DivModUnique(hi - 1, sectorSize, q - 1, sectorSize - 1);
  }
}
