/**
 The QSPI flash update command XLoadSpiflash0_2 (dgmodul4.c): load an image into work RAM, clear the covering
 sectors while keeping what surrounds the image, and program the image page by page.
 */
module FlashUpdate {
  import opened Words
  import opened NorFlash
  import opened SRecord
  import opened SRecordLoader

  // RAM addresses are offsets from 0x50000000, where the work area starts.
  const RAM_BASE := 0x5000_0000
  const LS_WORK_DRAM_SADD := 0x5000_0000 - RAM_BASE
  const LS_WORK_DRAM_EADD := 0x53FF_FFFF - RAM_BASE
  const WORK_SPI_LOAD_AREA := 0x5800_0000 - RAM_BASE
  const WORK_SIZE := LS_WORK_DRAM_EADD + 1 - LS_WORK_DRAM_SADD

  // ---------- what an update does to the flash ----------

  /** The source pages: the image, then the FF bytes that the pre-filled work RAM holds. */
  function Padded(image: seq<Byte>): (s: seq<Byte>)
    ensures |s| == 256 * PageCount(|image|)
  {
    image + Fill(256 * PageCount(|image|) - |image|, BLANK)
  }

  /** Erase [lo, hi) and write back what lay before `start` and, in whole pages, what lay after `end`. */
  function Restored(m: Mem, lo: nat, hi: nat, start: nat, end: nat): (r: Mem)
    requires lo <= start <= end <= hi <= |m| && lo % 256 == 0 && hi % 256 == 0
    ensures |r| == |m|
  {
    PagesFit(lo, hi, start, end);
    var deltaE := (hi - end) - (hi - end) % 256;
    var head := Saved(Erased(m, lo, hi), lo, m, lo, PageCount(start - lo));
    Saved(head, hi - deltaE, m, hi - deltaE, PageCount(deltaE))
  }

  function Updated(m: Mem, start: nat, image: seq<Byte>, lo: nat, hi: nat): (r: Mem)
    requires lo <= start && start + |image| <= hi <= |m| && lo % 256 == 0 && hi % 256 == 0
    ensures |r| == |m|
  {
    var cleared := if AllBlank(m, lo, hi) then m else Restored(m, lo, hi, start, start + |image|);
    Saved(cleared, start, Padded(image), 0, PageCount(|image|))
  }

  /** The image at its address, FF up to the end of its last page, every other byte as before. */
  ghost predicate Landed(m: Mem, start: nat, image: seq<Byte>, r: Mem) {
    && |r| == |m|
    && forall j :: 0 <= j < |m| ==>
         r[j] == (if start <= j < start + |image| then image[j - start]
                  else if start + |image| <= j < start + 256 * PageCount(|image|) then BLANK
                  else m[j])
  }

  lemma PagesFit(lo: nat, hi: nat, start: nat, end: nat)
    requires lo <= start <= end <= hi && lo % 256 == 0 && hi % 256 == 0
    ensures 256 * PageCount(start - lo) <= hi - lo
    ensures var deltaE := (hi - end) - (hi - end) % 256; 256 * PageCount(deltaE) == deltaE <= hi - lo
  {
  }

  lemma WholePages(x: nat)
    requires x % 256 == 0
    ensures 256 * PageCount(x) == x
  {
  }

  /** The part written back after the image starts where the last page of the image ends. */
  lemma TailStart(hi: nat, start: nat, end: nat)
    requires start <= end <= hi && hi % 256 == 0 && start % 256 == 0
    ensures var deltaE := (hi - end) - (hi - end) % 256;
      deltaE % 256 == 0 && hi - deltaE == start + 256 * PageCount(end - start)
  {
    hide PageCount;
    var n, k := PageCount(end - start), (hi - start) / 256;
    DivModUnique(hi - end, 256, k - n, 256 * n - (end - start));
  }

  /** Writing p pages back at the start of an erased run, and q pages at its end. */
  lemma WrittenBack(m: Mem, lo: nat, hi: nat, p: nat, q: nat, j: nat)
    requires lo + 256 * p <= hi - 256 * q && lo <= hi <= |m| && lo % 256 == 0 && hi % 256 == 0 && j < |m|
    ensures var head := Saved(Erased(m, lo, hi), lo, m, lo, p);
      Saved(head, hi - 256 * q, m, hi - 256 * q, q)[j] == if lo + 256 * p <= j < hi - 256 * q then BLANK else m[j]
  {
    hide Saved, Erased;
    ErasedAt(m, lo, hi, j);
    BlankAnd(m[j]);
    SavedAt(Erased(m, lo, hi), lo, m, lo, p, j);
    SavedAt(Saved(Erased(m, lo, hi), lo, m, lo, p), hi - 256 * q, m, hi - 256 * q, q, j);
  }

  lemma RestoredAt(m: Mem, lo: nat, hi: nat, start: nat, end: nat, j: nat)
    requires lo <= start <= end <= hi <= |m| && lo % 256 == 0 && hi % 256 == 0 && start % 256 == 0 && j < |m|
    ensures var pageEnd := start + 256 * PageCount(end - start);
      Restored(m, lo, hi, start, end)[j] == if start <= j < pageEnd then BLANK else m[j]
  {
    hide Saved, PageCount, Erased;
    PagesFit(lo, hi, start, end);
    WholePages(start - lo);
    TailStart(hi, start, end);
    var deltaE := (hi - end) - (hi - end) % 256;
    WholePages(deltaE);
    WrittenBack(m, lo, hi, PageCount(start - lo), PageCount(deltaE), j);
  }

  /** From a page boundary the update is exact, on the erase path and on the already-blank path. */
  lemma UpdateIsExact(m: Mem, start: nat, image: seq<Byte>, lo: nat, hi: nat)
    requires lo <= start && start + |image| <= hi <= |m| && lo % 256 == 0 && hi % 256 == 0
    requires start % 256 == 0
    ensures Landed(m, start, image, Updated(m, start, image, lo, hi))
  {
    forall j: nat | j < |m|
      ensures Updated(m, start, image, lo, hi)[j] ==
        (if start <= j < start + |image| then image[j - start]
         else if start + |image| <= j < start + 256 * PageCount(|image|) then BLANK
         else m[j])
    {
      UpdatedAt(m, start, image, lo, hi, j);
    }
  }

  lemma UpdatedAt(m: Mem, start: nat, image: seq<Byte>, lo: nat, hi: nat, j: nat)
    requires lo <= start && start + |image| <= hi <= |m| && lo % 256 == 0 && hi % 256 == 0
    requires start % 256 == 0 && j < |m|
    ensures Updated(m, start, image, lo, hi)[j] ==
      (if start <= j < start + |image| then image[j - start]
       else if start + |image| <= j < start + 256 * PageCount(|image|) then BLANK
       else m[j])
  {
    hide Saved, Restored, PageCount;
    var end := start + |image|;
    PageEndInside(start, end, hi);
    RestoredAt(m, lo, hi, start, end, j);
    var cleared := if AllBlank(m, lo, hi) then m else Restored(m, lo, hi, start, end);
    SavedAt(cleared, start, Padded(image), 0, PageCount(|image|), j);
  }

  lemma PageEndInside(start: nat, end: nat, hi: nat)
    requires start <= end <= hi && hi % 256 == 0 && start % 256 == 0
    ensures start + 256 * PageCount(end - start) <= hi
  {
  }

  /** What the command does to a device whose sectors have this size. */
  function Command(m: Mem, start: nat, image: seq<Byte>, sectorSize: nat): Mem
    requires IsSectorSize(sectorSize) && |m| % sectorSize == 0 && start + |image| <= |m|
  {
    SectorBounds(start, start + |image|, |m|, sectorSize);
    Updated(m, start, image, Floor(start, sectorSize), Ceil(start + |image|, sectorSize))
  }

  lemma SectorBounds(start: nat, end: nat, size: nat, sectorSize: nat)
    requires IsSectorSize(sectorSize) && size % sectorSize == 0 && start <= end <= size
    ensures sectorSize > 0 && Floor(start, sectorSize) % 256 == 0 && Ceil(end, sectorSize) % 256 == 0
    ensures Ceil(end, sectorSize) <= size
  {
    SectorSizeFacts(sectorSize);
    MultipleOfPages(Floor(start, sectorSize), sectorSize);
    MultipleOfPages(Ceil(end, sectorSize), sectorSize);
    if Ceil(end, sectorSize) > size {
      MultiplesApart(size, Ceil(end, sectorSize), sectorSize);
    }
  }

  lemma MultipleOfPages(x: nat, unit: nat)
    requires unit > 0 && unit % 256 == 0 && x % unit == 0
    ensures x % 256 == 0
  {
    var q, k := x / unit, unit / 256;
    assert x == unit * q == (256 * k) * q == 256 * (k * q);
  }

  /**
   The save address is only checked for 4-byte alignment, but the update is exact for every image and every
   flash content if and only if it is page aligned.
   */
  lemma ExactIffPageAligned(start: nat, size: nat, sectorSize: nat)
    requires IsSectorSize(sectorSize) && size % sectorSize == 0 && start < size
    ensures start % 256 == 0 <==>
      forall m: Mem, image: seq<Byte> :: |m| == size && start + |image| <= size
        ==> Landed(m, start, image, Command(m, start, image, sectorSize))
  {
    hide Command, Landed;
    if start % 256 == 0 {
      forall m: Mem, image: seq<Byte> | |m| == size && start + |image| <= size
        ensures Landed(m, start, image, Command(m, start, image, sectorSize))
      {
        CommandIsExact(m, start, image, sectorSize);
      }
    } else {
      var m, image := Fill(size, 0), [BLANK];
      HeadRestoreSpoils(start, size, sectorSize);
      assert |m| == size && start + |image| <= size;
    }
  }

  lemma CommandIsExact(m: Mem, start: nat, image: seq<Byte>, sectorSize: nat)
    requires IsSectorSize(sectorSize) && |m| % sectorSize == 0 && start + |image| <= |m| && start % 256 == 0
    ensures Landed(m, start, image, Command(m, start, image, sectorSize))
  {
    hide Updated, Landed;
    SectorBounds(start, start + |image|, |m|, sectorSize);
    UpdateIsExact(m, start, image, Floor(start, sectorSize), Ceil(start + |image|, sectorSize));
  }

  /**
   On a device of zeros, one byte FF saved off a page boundary: the bytes before it are written back in whole pages,
   the last of which programs a zero over the byte's own place.
   */
  lemma HeadRestoreSpoils(start: nat, size: nat, sectorSize: nat)
    requires IsSectorSize(sectorSize) && size % sectorSize == 0 && start % 256 != 0 && start < size
    ensures !Landed(Fill(size, 0), start, [BLANK], Command(Fill(size, 0), start, [BLANK], sectorSize))
  {
    hide IsSectorSize, Restored, Saved, PageCount, Landed, AllBlank;
    var m := Fill(size, 0);
    SectorBounds(start, start + 1, size, sectorSize);
    var lo, hi := Floor(start, sectorSize), Ceil(start + 1, sectorSize);
    assert !AllBlank(m, lo, hi) by { NotBlank(m, lo, hi); }
    RestoredZero(m, lo, hi, start);
    ZeroStays(Restored(m, lo, hi, start, start + 1), start, Padded([BLANK]), 0, PageCount(1), start);
    ByteMissed(m, start, [BLANK], Command(m, start, [BLANK], sectorSize));
  }

  lemma NotBlank(m: Mem, lo: nat, hi: nat)
    requires lo < hi <= |m| && m[lo] == 0
    ensures !AllBlank(m, lo, hi)
  {
  }

  lemma ByteMissed(m: Mem, start: nat, image: seq<Byte>, r: Mem)
    requires image != [] && start < |m| == |r| && r[start] != image[0]
    ensures !Landed(m, start, image, r)
  {
  }

  /** The head restore reaches past an unaligned `start`. */
  lemma RestoredZero(m: Mem, lo: nat, hi: nat, start: nat)
    requires lo <= start < hi <= |m| && lo % 256 == 0 && hi % 256 == 0 && start % 256 != 0 && m[start] == 0
    ensures Restored(m, lo, hi, start, start + 1)[start] == 0
  {
    hide Saved, PageCount, Erased;
    PagesFit(lo, hi, start, start + 1);
    BeyondStart(lo, start);
    ErasedAt(m, lo, hi, start);
    BlankAnd(m[start]);
    SavedAt(Erased(m, lo, hi), lo, m, lo, PageCount(start - lo), start);
    var deltaE := (hi - (start + 1)) - (hi - (start + 1)) % 256;
    var head := Saved(Erased(m, lo, hi), lo, m, lo, PageCount(start - lo));
    ZeroStays(head, hi - deltaE, m, hi - deltaE, PageCount(deltaE), start);
  }

  lemma BeyondStart(lo: nat, start: nat)
    requires lo <= start && lo % 256 == 0 && start % 256 != 0
    ensures start < lo + 256 * PageCount(start - lo)
  {
  }

  /** Programming never sets a bit. */
  lemma {:induction false} ZeroStays(m: Mem, addr: nat, src: seq<Byte>, at: nat, n: nat, j: nat)
    requires at + 256 * n <= |src| && j < |m| && m[j] == 0
    ensures Saved(m, addr, src, at, n)[j] == 0
  {
    hide Programmed;
    if n > 0 {
      ZeroStays(m, addr, src, at, n - 1, j);
      ZeroStaysOnPage(Saved(m, addr, src, at, n - 1), addr + 256 * (n - 1), src, at + 256 * (n - 1), j);
    }
  }

  lemma ZeroStaysOnPage(m: Mem, addr: nat, src: seq<Byte>, at: nat, j: nat)
    requires at + 256 <= |src| && j < |m| && m[j] == 0
    ensures Programmed(m, addr, src, at)[j] == 0
  {
  }

  /** On a blank device, one page of zeros saved off a page boundary does not reach the next page. */
  lemma UnalignedMisses(start: nat, size: nat, sectorSize: nat)
    requires IsSectorSize(sectorSize) && size % sectorSize == 0
    requires start % 256 != 0 && start + 256 <= size
    ensures !Landed(Fill(size, BLANK), start, Fill(256, 0), Command(Fill(size, BLANK), start, Fill(256, 0), sectorSize))
  {
    hide IsSectorSize, Updated, Saved, Programmed, Landed;
    var m, image := Fill(size, BLANK), Fill(256, 0);
    SectorBounds(start, start + 256, size, sectorSize);
    OnePage(m, start, image, Floor(start, sectorSize), Ceil(start + 256, sectorSize));
    NextPageUntouched(m, start, image, Programmed(m, start, Padded(image), 0));
  }

  lemma OnePage(m: Mem, start: nat, image: seq<Byte>, lo: nat, hi: nat)
    requires lo <= start && start + |image| <= hi <= |m| && lo % 256 == 0 && hi % 256 == 0 && |image| == 256
    requires AllBlank(m, lo, hi)
    ensures Updated(m, start, image, lo, hi) == Programmed(m, start, Padded(image), 0)
  {
    hide Programmed, Padded, Restored;
    assert PageCount(256) == 1;
    assert Saved(m, start, Padded(image), 0, 0) == m;
  }

  lemma NextPageUntouched(m: Mem, start: nat, image: seq<Byte>, r: Mem)
    requires start % 256 != 0 && start + 256 <= |m| && image == Fill(256, 0)
    requires (forall j :: 0 <= j < |m| ==> m[j] == BLANK) && r == Programmed(m, start, Padded(image), 0)
    ensures !Landed(m, start, image, r)
  {
    hide PageCount;
    var j := start - start % 256 + 256;
    assert r[j] == BLANK && start <= j < start + 256 && image[j - start] == 0;
  }
}
