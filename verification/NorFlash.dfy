/**
 The serial NOR flash device and the erase and page-program routines that drive it (spiflash1drv.c).
 The device is a small abstract model: erasing sets bytes to FF, programming can only clear bits, a page
 program wraps inside its 256-byte page, and a command that arrives while the device is busy or not
 write-enabled is ignored.
 */
module NorFlash {
  import opened Words

  type Mem = seq<Byte>

  function Erased(m: Mem, lo: nat, hi: nat): (r: Mem)
    ensures |r| == |m|
  {
    seq(|m|, j requires 0 <= j < |m| => if lo <= j < hi then BLANK else m[j])
  }

  /**
   One page program at `addr`, with the 256 bytes of `src` that start at `at`: byte i goes to offset
   (addr + i) mod 256 of the page, AND-ed in.
   */
  function Programmed(m: Mem, addr: nat, src: seq<Byte>, at: nat): (r: Mem)
    requires at + 256 <= |src|
    ensures |r| == |m|
  {
    var base := addr - addr % 256;
    seq(|m|, j requires 0 <= j < |m| =>
      if addr <= j < base + 256 then m[j] & src[at + (j - addr)]
      else if base <= j < addr then m[j] & src[at + 256 - (addr - j)]
      else m[j])
  }

  /** The n pages of `src` that start at `at`, programmed in order from `addr` on. */
  function Saved(m: Mem, addr: nat, src: seq<Byte>, at: nat, n: nat): (r: Mem)
    requires at + 256 * n <= |src|
    ensures |r| == |m|
  {
    if n == 0 then m
    else Programmed(Saved(m, addr, src, at, n - 1), addr + 256 * (n - 1), src, at + 256 * (n - 1))
  }

  /** The number of pages that hold `size` bytes. */
  function PageCount(size: nat): (n: nat)
    ensures size <= 256 * n < size + 256
  {
    (size + 255) / 256
  }

  predicate AllBlank(m: Mem, lo: nat, hi: nat)
    requires lo <= hi <= |m|
  {
    forall j :: lo <= j < hi ==> m[j] == BLANK
  }

  lemma ErasedAt(m: Mem, lo: nat, hi: nat, j: nat)
    requires j < |m|
    ensures Erased(m, lo, hi)[j] == if lo <= j < hi then BLANK else m[j]
  {
  }

  lemma BlankAnd(b: Byte)
    ensures BLANK & b == b
  {
  }

  lemma ProgrammedAt(m: Mem, addr: nat, src: seq<Byte>, at: nat, j: nat)
    requires at + 256 <= |src| && addr % 256 == 0 && j < |m|
    ensures Programmed(m, addr, src, at)[j] == if addr <= j < addr + 256 then m[j] & src[at + (j - addr)] else m[j]
  {
  }

  /** From a page boundary, saving AND-s the source bytes into their places and changes nothing else. */
  lemma {:induction false} SavedAt(m: Mem, addr: nat, src: seq<Byte>, at: nat, n: nat, j: nat)
    requires at + 256 * n <= |src| && addr % 256 == 0 && j < |m|
    ensures Saved(m, addr, src, at, n)[j] == if addr <= j < addr + 256 * n then m[j] & src[at + (j - addr)] else m[j]
  {
    if n > 0 {
      var k := 256 * (n - 1);
      SavedAt(m, addr, src, at, n - 1, j);
      ProgrammedAt(Saved(m, addr, src, at, n - 1), addr + k, src, at + k, j);
    }
  }

  /** The `len` bytes of `src` from `at` on are those of `src'` from `at'` on. */
  ghost predicate SameBytes(src: seq<Byte>, at: nat, src': seq<Byte>, at': nat, len: nat)
    requires at + len <= |src| && at' + len <= |src'|
  {
    forall i :: at <= i < at + len ==> src[i] == src'[at' + (i - at)]
  }

  /** Only the programmed pages of the source matter. */
  lemma {:induction false} SavedSameSource(m: Mem, addr: nat, src: seq<Byte>, at: nat, src': seq<Byte>, at': nat,
                                           n: nat)
    requires at + 256 * n <= |src| && at' + 256 * n <= |src'|
    requires SameBytes(src, at, src', at', 256 * n)
    ensures Saved(m, addr, src, at, n) == Saved(m, addr, src', at', n)
  {
    hide Programmed, SameBytes;
    if n > 0 {
      var k := 256 * (n - 1);
      SamePart(src, at, src', at', 256 * n, 0, k);
      SamePart(src, at, src', at', 256 * n, k, 256);
      SavedSameSource(m, addr, src, at, src', at', n - 1);
      ProgrammedSameSource(Saved(m, addr, src, at, n - 1), addr + k, src, at + k, src', at' + k);
    }
  }

  lemma SamePart(src: seq<Byte>, at: nat, src': seq<Byte>, at': nat, len: nat, off: nat, part: nat)
    requires at + len <= |src| && at' + len <= |src'| && off + part <= len
    requires SameBytes(src, at, src', at', len)
    ensures SameBytes(src, at + off, src', at' + off, part)
  {
  }

  lemma ProgrammedSameSource(m: Mem, addr: nat, src: seq<Byte>, at: nat, src': seq<Byte>, at': nat)
    requires at + 256 <= |src| && at' + 256 <= |src'|
    requires SameBytes(src, at, src', at', 256)
    ensures Programmed(m, addr, src, at) == Programmed(m, addr, src', at')
  {
  }

  /** Programming a page of FF bytes leaves the device as it is. */
  lemma ProgramBlankIsNoOp(m: Mem, addr: nat, src: seq<Byte>, at: nat)
    requires at + 256 <= |src|
    requires forall i :: at <= i < at + 256 ==> src[i] == BLANK
    ensures Programmed(m, addr, src, at) == m
  {
  }

  /** So pages of FF may as well not be programmed at all. */
  lemma {:induction false} SkipBlankPages(m: Mem, addr: nat, src: seq<Byte>, at: nat, k: nat, n: nat)
    requires k <= n && at + 256 * n <= |src|
    requires forall i :: at + 256 * k <= i < at + 256 * n ==> src[i] == BLANK
    ensures Saved(m, addr, src, at, n) == Saved(m, addr, src, at, k)
  {
    hide Programmed;
    if k < n {
      SkipBlankPages(m, addr, src, at, k, n - 1);
      ProgramBlankIsNoOp(Saved(m, addr, src, at, n - 1), addr + 256 * (n - 1), src, at + 256 * (n - 1));
    }
  }

  // ---------- the device ----------

  class Device {
    const prompt: bool          // an operation in progress completes while time passes between two commands
    var mem: Mem
    var writeEnabled: bool
    var busyFor: nat            // status reads that will still show the busy bit
    ghost var programs: nat     // accepted page programs

    constructor (mem: Mem, prompt: bool)
      ensures this.mem == mem && this.prompt == prompt && busyFor == 0 && programs == 0
    {
      this.mem, this.prompt := mem, prompt;
      writeEnabled, busyFor, programs := false, 0, 0;
    }

    method WriteEnable()
      modifies `writeEnabled
      ensures busyFor == 0 ==> writeEnabled
    {
      writeEnabled := writeEnabled || busyFor == 0;
    }

    method ReadStatus() returns (busy: bool)
      modifies `busyFor
      ensures busy <==> old(busyFor) > 0
      ensures busyFor == if busy then old(busyFor) - 1 else 0
    {
      busy := busyFor > 0;
      busyFor := if busy then busyFor - 1 else 0;
    }

    /** Time passes, in which an operation in progress completes or does not. */
    method Elapse()
      modifies `busyFor
      ensures busyFor == if prompt then 0 else old(busyFor)
    {
      if prompt {
        busyFor := 0;
      }
    }

    method Erase(addr: nat, unit: nat)
      requires unit > 0
      modifies this
      ensures programs == old(programs)
      ensures old(busyFor) == 0 && old(writeEnabled) ==>
        mem == Erased(old(mem), Floor(addr, unit), Floor(addr, unit) + unit)
      ensures !(old(busyFor) == 0 && old(writeEnabled)) ==> mem == old(mem)
    {
      if busyFor == 0 && writeEnabled {
        mem, writeEnabled := Erased(mem, Floor(addr, unit), Floor(addr, unit) + unit), false;
        busyFor := *;
      }
    }

    /** The device receives the 256 bytes of `src` that start at `at`; those beyond its end are ignored. */
    method PageProgram(addr: nat, src: seq<Byte>, at: nat)
      requires at + 256 <= |src|
      modifies this
      ensures old(busyFor) == 0 && old(writeEnabled) ==>
        mem == Programmed(old(mem), addr, src, at) && programs == old(programs) + 1
      ensures !(old(busyFor) == 0 && old(writeEnabled)) ==> mem == old(mem) && programs == old(programs)
    {
      if busyFor == 0 && writeEnabled {
        mem, writeEnabled, programs := Programmed(mem, addr, src, at), false, programs + 1;
        busyFor := *;
      }
    }
  }

  // ---------- spiflash1drv.c ----------

  /** The erase and program routines over one device and the RAM they read pages from. */
  class Driver {
    const flash: Device
    const ram: array<Byte>
    const sectorSize: nat   // gQspi_sa_size

    constructor (flash: Device, ram: array<Byte>, sectorSize: nat)
      ensures this.flash == flash && this.ram == ram && this.sectorSize == sectorSize
    {
      this.flash, this.ram, this.sectorSize := flash, ram, sectorSize;
    }

    /** The busy-poll loop that follows every erase and program. */
    method WaitReady()
      modifies flash`busyFor
      ensures flash.busyFor == 0
    {
      while true
        decreases flash.busyFor
      {
        var busy := flash.ReadStatus();
        if !busy {
          break;
        }
      }
    }

    method EraseAndWait(addr: nat, unit: nat)
      requires unit > 0 && flash.busyFor == 0
      modifies flash
      ensures flash.busyFor == 0 && flash.programs == old(flash.programs)
      ensures flash.mem == Erased(old(flash.mem), Floor(addr, unit), Floor(addr, unit) + unit)
    {
      flash.WriteEnable();
      flash.Erase(addr, unit);
      WaitReady();
    }

    /** Program a page and return at once: the device may be busy afterwards. */
    method PageProgramNoWait(addr: nat, source: nat)
      requires source + 256 <= ram.Length && flash.busyFor == 0
      modifies flash
      ensures flash.mem == Programmed(old(flash.mem), addr, ram[..], source)
      ensures flash.programs == old(flash.programs) + 1
    {
      flash.WriteEnable();
      flash.PageProgram(addr, ram[..], source);
    }

    method PageProgramAndWait(addr: nat, source: nat)
      requires source + 256 <= ram.Length && flash.busyFor == 0
      modifies flash
      ensures flash.busyFor == 0
      ensures flash.mem == Programmed(old(flash.mem), addr, ram[..], source)
      ensures flash.programs == old(flash.programs) + 1
    {
      PageProgramNoWait(addr, source);
      WaitReady();
    }

    /** SaveDataWithBuffeQspiFlash: whole pages, so up to 255 bytes after the source range are programmed too. */
    method SaveData(source: nat, addr: nat, size: nat)
      requires source + 256 * PageCount(size) <= ram.Length && flash.busyFor == 0
      requires addr + 256 * PageCount(size) < TWO_32
      modifies flash
      ensures flash.busyFor == 0
      ensures flash.mem == Saved(old(flash.mem), addr, ram[..], source, PageCount(size))
      ensures flash.programs == old(flash.programs) + PageCount(size)
    {
      flash.WriteEnable();
      var writeDataAdd, flashAdd := source, addr;
      ghost var pages: nat := 0;
      while flashAdd < addr + size
        invariant flash.busyFor == 0
        invariant flashAdd == addr + 256 * pages && writeDataAdd == source + 256 * pages
        invariant pages <= PageCount(size)
        invariant flash.mem == Saved(old(flash.mem), addr, ram[..], source, pages)
        invariant flash.programs == old(flash.programs) + pages
        decreases addr + size - flashAdd
      {
        PageProgramAndWait(flashAdd, writeDataAdd);
        writeDataAdd := writeDataAdd + 256;
        flashAdd := flashAdd + 256;
        pages := pages + 1;
      }
    }

    /** The erase loops of SectorEraseQspi_Flash and ParameterSectorEraseQspiFlash, over whole units. */
    method EraseUnits(top: nat, endTop: nat, unit: nat)
      requires unit > 0 && top % unit == 0 && endTop % unit == 0 && flash.busyFor == 0 && endTop + unit < TWO_32
      modifies flash
      ensures flash.busyFor == 0 && flash.programs == old(flash.programs)
      ensures flash.mem == Erased(old(flash.mem), top, if top <= endTop then endTop + unit else top)
    {
      var sectorAd := top;
      while sectorAd <= endTop
        invariant top <= sectorAd && sectorAd % unit == 0
        invariant sectorAd <= if top <= endTop then endTop + unit else top
        invariant flash.busyFor == 0 && flash.programs == old(flash.programs)
        invariant flash.mem == Erased(old(flash.mem), top, sectorAd)
        decreases endTop + unit - sectorAd
      {
        NextMultiple(sectorAd, endTop, unit);
        ErasedOneMore(old(flash.mem), top, sectorAd, sectorAd + unit);
        EraseAndWait(sectorAd, unit);
        sectorAd := sectorAd + unit;
      }
      if top <= endTop {
        MultiplesApart(endTop, sectorAd, unit);
      }
    }

    /**
     SectorEraseQspi_Flash: every sector from that of `start` to that of
     `end`. In the last one below 2^32 it never ends.
     */
    method SectorErase(start: Uint32, end: Uint32)
      requires IsSectorSize(sectorSize) && flash.busyFor == 0 && end < TWO_32 - sectorSize
      modifies flash
      ensures flash.busyFor == 0 && flash.programs == old(flash.programs)
      ensures var top, endTop := Floor(start, sectorSize), Floor(end, sectorSize);
        flash.mem == Erased(old(flash.mem), top, if top <= endTop then endTop + sectorSize else top)
    {
      var top := SectorTop(start, sectorSize);
      var endTop := SectorTop(end, sectorSize);
      EraseUnits(top, endTop, sectorSize);
    }

    /** ParameterSectorEraseQspiFlash: the same for 4 KB sectors. */
    method ParameterSectorErase(start: Uint32, end: Uint32)
      requires flash.busyFor == 0 && end < TWO_32 - 0x1000
      modifies flash
      ensures flash.busyFor == 0 && flash.programs == old(flash.programs)
      ensures var top, endTop := Floor(start, 0x1000), Floor(end, 0x1000);
        flash.mem == Erased(old(flash.mem), top, if top <= endTop then endTop + 0x1000 else top)
    {
      var top := ParameterTop(start);
      var endTop := ParameterTop(end);
      EraseUnits(top, endTop, 0x1000);
    }
  }

  /** A power of two that holds whole pages. */
  ghost predicate IsSectorSize(s: int) {
    exists k: nat :: 8 <= k < 32 && s == Pow2(k)
  }

  /** `x & mask`, with the mask that SectorErase and XLoadSpiflash0_2 build from the sector size. */
  method SectorTop(x: Uint32, sectorSize: nat) returns (top: Uint32)
    requires IsSectorSize(sectorSize)
    ensures top == Floor(x, sectorSize)
  {
    SectorSizeFacts(sectorSize);
    var mask := Wrap32(Not32(sectorSize) + 1);
    assert mask == TWO_32 - sectorSize;
    Masks(x, sectorSize);
    top := And(x, mask);
  }

  /** `x | ~mask`, the last address of the sector of x. */
  method SectorLast(x: Uint32, sectorSize: nat) returns (last: nat)
    requires IsSectorSize(sectorSize)
    ensures last == Floor(x, sectorSize) + sectorSize - 1
  {
    SectorSizeFacts(sectorSize);
    var mask := Wrap32(Not32(sectorSize) + 1);
    assert Not32(mask) == sectorSize - 1;
    Masks(x, sectorSize);
    last := Or(x, Not32(mask));
  }

  /** `x & 0xFFFFFF00`. */
  method PageFloor(x: Uint32) returns (r: Uint32)
    ensures r == x - x % 256
  {
    assert Pow2(32) == TWO_32 && Pow2(8) == 256 by { Pow2Of32(); }
    AndHighMask(x, 32, 8);
    LowBitsIsMod(x, 8);
    r := And(x, 0xFFFF_FF00);
  }

  method ParameterTop(x: Uint32) returns (top: Uint32)
    ensures top == Floor(x, 0x1000)
  {
    ParameterMask(x);
    top := And(x, 0xFFFF_F000);
  }

  lemma SectorSizeFacts(sectorSize: nat)
    requires IsSectorSize(sectorSize)
    ensures 256 <= sectorSize < TWO_32 && sectorSize % 256 == 0
  {
    var k: nat :| 8 <= k < 32 && sectorSize == Pow2(k);
    Pow2Pages(k);
    Pow2Below(k, 32);
    assert Pow2(32) == TWO_32 by { Pow2Of32(); }
  }

  lemma Masks(x: Uint32, size: nat)
    requires IsSectorSize(size) && 0 < size < TWO_32
    ensures And(x, TWO_32 - size) == Floor(x, size)
    ensures Or(x, size - 1) == Floor(x, size) + size - 1
  {
    hide And, Or, LowBits;
    var k: nat :| 8 <= k < 32 && size == Pow2(k);
    assert Pow2(32) == TWO_32 by { Pow2Of32(); }
    AndHighMask(x, 32, k);
    OrLowMask(x, k);
    LowBitsIsMod(x, k);
  }

  lemma {:induction false} Pow2Pages(k: nat)
    requires k >= 8
    ensures Pow2(k) >= 256 && Pow2(k) % 256 == 0
  {
    Pow2Of32();
    if k > 8 {
      Pow2Pages(k - 1);
    }
  }

  lemma ParameterMask(x: Uint32)
    ensures And(x, 0xFFFF_F000) == Floor(x, 0x1000)
  {
    Pow2Of32();
    AndHighMask(x, 32, 12);
    LowBitsIsMod(x, 12);
  }

  lemma ErasedOneMore(m: Mem, lo: nat, mid: nat, hi: nat)
    requires lo <= mid <= hi
    ensures Erased(Erased(m, lo, mid), mid, hi) == Erased(m, lo, hi)
  {
  }

  /** The step of the erase loops: the next sector top is a multiple again and does not pass the last sector. */
  lemma NextMultiple(x: nat, last: nat, unit: nat)
    requires unit > 0 && x % unit == 0 && last % unit == 0 && x <= last
    ensures Floor(x, unit) == x && (x + unit) % unit == 0 && x + unit <= last + unit
  {
    AddUnit(x, unit);
    MultiplesApart(x, last, unit);
  }

  /** Distinct multiples of a unit are at least one unit apart. */
  lemma MultiplesApart(x: nat, y: nat, unit: nat)
    requires unit > 0 && x % unit == 0 && y % unit == 0 && x <= y
    ensures x == y || x + unit <= y
  {
    if x < y < x + unit {
      DivModUnique(y, unit, x / unit, y - x);
    }
  }
}
