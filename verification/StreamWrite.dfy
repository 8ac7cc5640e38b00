/**
 The commands of the internal-memory build (dgmodul4.c), which have RAM for only two pages: received bytes go
 into one page slot while the device still programs the other.
 */
module StreamWrite {
  import opened Words
  import opened NorFlash
  import opened SRecord
  import opened SRecordLoader
  import opened FlashUpdate
  import opened PageStream

  /** The two page slots and the device behind them. */
  class Streamer {
    const flash: Device
    const driver: Driver
    const ram: array<Byte>
    var bufferIndex: nat     // the slot being filled
    var readCount: nat       // bytes in that slot
    var spiAddr: Uint32      // where its page will be programmed

    constructor (flash: Device, ram: array<Byte>, spiStart: Uint32)
      requires ram.Length >= 512
      ensures Valid() && this.flash == flash && this.ram == ram
      ensures bufferIndex == readCount == 0 && spiAddr == spiStart && fresh(driver)
    {
      this.flash, this.ram := flash, ram;
      driver := new Driver(flash, ram, 0);
      bufferIndex, readCount, spiAddr := 0, 0, spiStart;
    }

    ghost predicate ValidSlots()
      reads this
    {
      driver.flash == flash && driver.ram == ram && ram.Length >= 512 && bufferIndex <= 1
    }

    ghost predicate Valid()
      reads this
    {
      ValidSlots() && readCount < 256
    }

    ghost function Cells(index: nat): Slot
      requires ram.Length >= 512 && index <= 1
      reads ram
    {
      ram[256 * index..256 * index + 256]
    }

    /** The state, as the loader's functions know it. */
    ghost function State(): (s: Stream)
      requires Valid()
      reads this, flash, ram
      ensures s.count == readCount < 256
    {
      Stream(flash.mem, spiAddr, Cells(bufferIndex), Cells(1 - bufferIndex), readCount)
    }

    /** Poll, program the slot without waiting, and move to the other slot. */
    method ProgramSlot()
      requires ValidSlots()
      modifies this, flash
      ensures Valid() && readCount == 0 && bufferIndex == 1 - old(bufferIndex) && spiAddr == old(spiAddr)
      ensures flash.mem == Programmed(old(flash.mem), spiAddr, old(Cells(bufferIndex)), 0)
      ensures flash.programs == old(flash.programs) + 1
    {
      hide Programmed;
      driver.WaitReady();
      driver.PageProgramNoWait(spiAddr, 256 * bufferIndex);
      SlotIsSource(flash.mem);
      ProgrammedSameSource(old(flash.mem), spiAddr, ram[..], 256 * bufferIndex, Cells(bufferIndex), 0);
      bufferIndex, readCount := 1 - bufferIndex, 0;
    }

    lemma SlotIsSource(m: Mem)
      requires ValidSlots()
      ensures SameBytes(ram[..], 256 * bufferIndex, Cells(bufferIndex), 0, 256)
    {
    }

    /** One received byte; a full slot is programmed. */
    method StoreByte(b: Byte)
      requires Valid()
      modifies this, flash, ram
      ensures Valid() && State() == ReceiveByte(old(State()), b)
      ensures flash.programs == old(flash.programs) + if old(readCount) == 255 then 1 else 0
      ensures readCount == if old(readCount) == 255 then 0 else old(readCount) + 1
    {
      hide Programmed;
      ghost var before := State();
      ram[256 * bufferIndex + readCount] := b;
      assert Cells(bufferIndex) == before.current[readCount := b];
      assert Cells(1 - bufferIndex) == before.other;
      readCount := readCount + 1;
      if readCount == 256 {
        ProgramSlot();
        spiAddr := Wrap32(spiAddr + 256);
      }
    }

    /** An address gap: the started page is filled up with FF and programmed, and the address moves on. */
    method CloseGap(gap: nat)
      requires Valid()
      modifies this, flash, ram
      ensures Valid() && State() == ReceiveJump(old(State()), gap)
    {
      hide Programmed;
      ghost var before := State();
      driver.WaitReady();
      var count := readCount;
      if count != 0 {
        PadSlot();
        ProgramSlot();
      } else {
        bufferIndex := 1 - bufferIndex;
      }
      spiAddr := Wrap32(spiAddr + count + gap);
    }

    method PadSlot()
      requires Valid()
      modifies ram
      ensures Cells(bufferIndex) == Topped(old(Cells(bufferIndex)), readCount)
      ensures Cells(1 - bufferIndex) == old(Cells(1 - bufferIndex))
    {
      hide Topped;
      ghost var before := ram[..];
      FillWithFF(256 * bufferIndex + readCount, 256 * bufferIndex + 256);
      SlotPadded(ram[..], before, bufferIndex, readCount);
    }

    method FillWithFF(from: nat, to: nat)
      requires from <= to <= ram.Length
      modifies ram
      ensures forall i :: 0 <= i < ram.Length ==> ram[i] == if from <= i < to then BLANK else old(ram[i])
    {
      var p := from;
      while p < to
        invariant from <= p <= to
        invariant forall i :: 0 <= i < ram.Length ==> ram[i] == if from <= i < p then BLANK else old(ram[i])
      {
        ram[p] := BLANK;
        p := p + 1;
      }
    }

    /** Erase the 4 KB sectors for a download of `size` bytes. */
    method ClearSectors(size: nat)
      requires Valid() && flash.busyFor == 0 && 0 < spiAddr + size <= |flash.mem| <= 0x1000_0000
      modifies flash
      ensures Valid() && State() == old(State()).(mem := Cleared(old(flash.mem), spiAddr, size))
      ensures flash.busyFor == 0 && flash.programs == old(flash.programs)
    {
      hide Cleared, Floor, Erased;
      driver.ParameterSectorErase(spiAddr, spiAddr + size - 1);
      ClearedIs(old(flash.mem), spiAddr, size);
    }

    // ---------- the binary download ----------

    /**
     dgG2LoadSpiflash0_3: erase the covering 4 KB sectors, then receive `size` bytes and stream them out. Every
     program command reaches a ready device (each one is counted), and the last page ends in stale slot bytes.
     */
    method WriteBinary(bin: seq<Byte>, size: nat) returns (last: int, ghost stale: seq<Byte>)
      requires Valid() && readCount == 0 && flash.busyFor == 0
      requires 0 < spiAddr + size <= |flash.mem| <= 0x1000_0000 && size <= |bin|
      modifies this, flash, ram
      ensures |stale| == 256 * PageCount(size) - size
      ensures flash.mem ==
        Saved(Cleared(old(flash.mem), old(spiAddr), size), old(spiAddr), bin[..size] + stale, 0, PageCount(size))
      ensures flash.programs == old(flash.programs) + PageCount(size)
      ensures last == old(spiAddr) + size - 1
    {
      hide Saved, Cleared, PageCount, ReceiveBytes, Floor;
      ghost var start := spiAddr;
      ClearSectors(size);
      ghost var s := State();
      Receive(bin, size);
      BytesAreSaved(s, bin[..size]);
      last := spiAddr + readCount - 1;
      stale := [];
      if readCount != 0 {
        stale := State().current[readCount..];
        LastPageSaved(s, bin[..size]);
        ProgramSlot();
      } else {
        assert bin[..size] + stale == bin[..size];
        WholePagesOnly(size);
      }
    }

    method Receive(bin: seq<Byte>, size: nat)
      requires Valid() && readCount == 0 && size <= |bin|
      modifies this, flash, ram
      ensures Valid() && State() == ReceiveBytes(old(State()), bin[..size])
      ensures flash.programs == old(flash.programs) + size / 256
    {
      hide *;
      ghost var s, pages := State(), 0;
      NoBytes(s, bin);
      var loop: nat := 0;
      while loop < size
        invariant Valid() && loop <= size && State() == ReceiveBytes(s, bin[..loop])
        invariant flash.programs == old(flash.programs) + pages && loop == 256 * pages + readCount && readCount < 256
      {
        NextByte(s, bin, loop);
        pages := if readCount == 255 then pages + 1 else pages;
        StoreByte(bin[loop]);
        loop := loop + 1;
      }
    }

    // ---------- the S-record download ----------

    /**
     dgLS_Load_And_Write_LowMemory: the S-record loader that streams. For every stream, the flash is what the loader's
     functions make of the scanned records. The final flush does not poll: `ready` says whether the device had finished
     by then, as a prompt one has.
     */
    method LoadAndWrite(loader: Loader, prgStat: Uint32) returns (end: LoadEnd, spiEnd: Uint32, ghost ready: bool)
      requires Valid() && readCount == 0 && loader.Valid() && loader.ram == ram
      modifies this, flash, ram, loader`pos, loader.str
      ensures Valid() && loader.Valid()
      ensures var scan := ScanFrom(loader.input, old(loader.pos));
        && end == (match scan.end case Done => Loaded case Aborted => Cancelled case Starved => Waiting)
        && (end == Loaded ==>
              var s := ReceiveRecords(old(State()), scan.records, prgStat);
              flash.mem == Flushed(s, ready) && spiEnd == Wrap32(s.addr + s.count - 1))
        && (end == Cancelled ==> State() == ReceiveRecords(old(State()), scan.records, prgStat))
      ensures end == Loaded && flash.prompt ==> ready
    {
      hide NextHead, ReadRecord, ReceiveRecord, Flushed;
      var prevLoadAddress := prgStat;
      spiEnd, ready := 0, true;
      while true
        invariant Valid() && loader.Valid()
        invariant ScanFrom(loader.input, old(loader.pos)).end == ScanFrom(loader.input, loader.pos).end
        invariant ReceiveRecords(old(State()), ScanFrom(loader.input, old(loader.pos)).records, prgStat)
          == ReceiveRecords(State(), ScanFrom(loader.input, loader.pos).records, prevLoadAddress)
        decreases |loader.input| - loader.pos
      {
        ghost var rest := ScanFrom(loader.input, loader.pos).records;
        var h := loader.SeekHead();
        match h
        case NoHead(why) =>
          end := match why case Done => Loaded case Aborted => Cancelled case Starved => Waiting;
          if why == Done {
            spiEnd, ready := Flush();
          }
          return;
        case Head(addressBytes, _) =>
          end, prevLoadAddress := StreamRecord(loader, addressBytes, prevLoadAddress);
          if end == Waiting {
            return;
          }
      }
    }

    /** One record: the jump before it, then its data bytes. */
    method StreamRecord(loader: Loader, addressBytes: nat, prev: Uint32) returns (end: LoadEnd, prev': Uint32)
      requires Valid() && loader.Valid() && loader.ram == ram && 2 <= addressBytes <= 4
      modifies this, flash, ram, loader`pos, loader.str
      ensures Valid() && loader.Valid() && (end == Loaded || end == Waiting)
      ensures match ReadRecord(loader.input, old(loader.pos), addressBytes)
        case None => end == Waiting
        case Some((r, q)) =>
          end == Loaded && loader.pos == q && prev' == After(r) && State() == ReceiveRecord(old(State()), r, prev)
    {
      hide Field, DataFields, DataCount, ReadRecord, ReceiveRecord, Wrap32;
      ghost var at, s := loader.pos, State();
      prev' := prev;
      var ok, loadGetAddress, n := loader.ReadCountAndAddress(addressBytes);
      if !ok {
        end := Waiting;
        return;
      }
      assert State() == s;
      end := StreamBody(loader, loadGetAddress, prev, n);
      if end == Loaded {
        prev' := Wrap32(loadGetAddress + n);
        ghost var s' := State();
        end := loader.ReadTail();
        assert State() == s';
      }
      RecordOutcome(loader.input, at, addressBytes, loadGetAddress, n);
    }

    method StreamBody(loader: Loader, address: Uint32, prev: Uint32, n: nat) returns (end: LoadEnd)
      requires Valid() && loader.Valid() && loader.ram == ram
      modifies this, flash, ram, loader`pos, loader.str
      ensures Valid() && loader.Valid()
      ensures end == if old(loader.pos) + 2 * n <= |loader.input| then Loaded else Waiting
      ensures end == Loaded ==> loader.pos == old(loader.pos) + 2 * n
      ensures end == Loaded ==>
        State() == ReceiveRecord(old(State()), Record(address, DataFields(loader.input, old(loader.pos), n)), prev)
    {
      hide *;
      ghost var s, at := State(), loader.pos;
      MoveTo(address, prev);
      end := StreamData(loader, n);
      if end == Loaded {
        RecordIs(s, Record(address, DataFields(loader.input, at, n)), prev);
      }
    }

    method MoveTo(address: Uint32, prev: Uint32)
      requires Valid()
      modifies this, flash, ram
      ensures Valid()
      ensures State() == if address == prev then old(State()) else ReceiveJump(old(State()), Wrap32(address - prev))
    {
      if prev != address {
        CloseGap(Wrap32(address - prev));
      }
    }

    method StreamData(loader: Loader, n: nat) returns (end: LoadEnd)
      requires Valid() && loader.Valid() && loader.ram == ram
      modifies this, flash, ram, loader`pos, loader.str
      ensures Valid() && loader.Valid()
      ensures end == if old(loader.pos) + 2 * n <= |loader.input| then Loaded else Waiting
      ensures end == Loaded ==> loader.pos == old(loader.pos) + 2 * n
      ensures end == Loaded ==> State() == ReceiveBytes(old(State()), DataFields(loader.input, old(loader.pos), n))
    {
      hide Field, ToByte, ReceiveByte, DataFields;
      ghost var t, at := loader.input, loader.pos;
      NoFields(t, at);
      var k := 0;
      while k < n
        invariant Valid() && loader.Valid() && k <= n && loader.pos == at + 2 * k <= |t|
        invariant State() == ReceiveBytes(old(State()), DataFields(t, at, k))
      {
        ghost var s := State();
        var ok, field := loader.ReadField(1);
        if !ok {
          return Waiting;
        }
        assert State() == s;
        OneMoreField(t, at, k);
        StoreByte(ToByte(field));
        k := k + 1;
      }
      end := Loaded;
    }

    /** The end of the streaming load: SaveDataWithBuffeQspiFlash on a partly filled slot, without polling first. */
    method Flush() returns (spiEnd: Uint32, ghost ready: bool)
      requires Valid()
      modifies this, flash
      ensures Valid() && flash.mem == Flushed(old(State()), ready)
      ensures ready <==> old(flash.busyFor) == 0 || flash.prompt
      ensures spiEnd == Wrap32(old(spiAddr) + old(readCount) - 1)
    {
      hide Programmed;
      flash.Elapse();
      ready := flash.busyFor == 0;
      if readCount != 0 {
        SlotIsSource(flash.mem);
        ProgrammedSameSource(flash.mem, spiAddr, ram[..], 256 * bufferIndex, Cells(bufferIndex), 0);
        flash.WriteEnable();
        flash.WriteEnable();
        flash.PageProgram(spiAddr, ram[..], 256 * bufferIndex);
        driver.WaitReady();
      }
      spiEnd := Wrap32(spiAddr + readCount - 1);
    }

    /** The streaming form of dgG2LoadSpiflash0_2: erase the sectors for `size` bytes, then load and write. */
    method XLoadStream(loader: Loader, prgStat: Uint32, size: nat)
      returns (end: LoadEnd, spiEnd: Uint32, ghost ready: bool)
      requires Valid() && readCount == 0 && loader.Valid() && loader.ram == ram && flash.busyFor == 0
      requires 0 < spiAddr + size <= |flash.mem| <= 0x1000_0000
      modifies this, flash, ram, loader`pos, loader.str
      ensures Valid() && loader.Valid()
      ensures var scan := ScanFrom(loader.input, old(loader.pos));
        && end == (match scan.end case Done => Loaded case Aborted => Cancelled case Starved => Waiting)
        && (end == Loaded ==>
              var cleared := old(State()).(mem := Cleared(old(flash.mem), old(spiAddr), size));
              var s := ReceiveRecords(cleared, scan.records, prgStat);
              flash.mem == Flushed(s, ready) && spiEnd == Wrap32(s.addr + s.count - 1))
        && (end == Cancelled ==>
              var cleared := old(State()).(mem := Cleared(old(flash.mem), old(spiAddr), size));
              State() == ReceiveRecords(cleared, scan.records, prgStat))
      ensures end == Loaded && flash.prompt ==> ready
    {
      hide Cleared, ScanFrom, ReceiveRecords, Flushed, Floor;
      ClearSectors(size);
      end, spiEnd, ready := LoadAndWrite(loader, prgStat);
    }

    /**
     A clean stream from a page boundary to a prompt device: the image stands in the flash, its last address is
     reported, and beyond its last page the flash is as the erase left it.
     */
    method XLoadClean(loader: Loader, prgStat: Uint32, size: nat) returns (end: LoadEnd, spiEnd: Uint32)
      requires Valid() && readCount == 0 && loader.Valid() && loader.ram == ram && flash.busyFor == 0 && flash.prompt
      requires 0 < spiAddr + size <= |flash.mem| <= 0x1000_0000 && spiAddr % 256 == 0
      requires var scan := ScanFrom(loader.input, loader.pos);
        scan.end == Done && Clean(scan.records, prgStat) && |Assemble(scan.records, prgStat, BLANK)| <= size
      modifies this, flash, ram, loader`pos, loader.str
      ensures end == Loaded
      ensures var image := Assemble(ScanFrom(loader.input, old(loader.pos)).records, prgStat, BLANK);
        Arrived(flash.mem, spiEnd, image, old(spiAddr), Cleared(old(flash.mem), old(spiAddr), size))
    {
      hide Cleared, ScanFrom, ReceiveRecords, Flushed, Clean, Assemble, Arrived, Floor, Wrap32;
      CleanStreamLands(State(), ScanFrom(loader.input, loader.pos).records, prgStat, size);
      ghost var ready;
      end, spiEnd, ready := XLoadStream(loader, prgStat, size);
    }
  }

  /**
   A printed stream through the whole loader, onto a blank and prompt device and with any first contents of the slots:
   the flash is what the loader's functions make of the printed records. A '.' command cancels the load: the pages
   completed before it are programmed, and the bytes that wait in the slot are not.
   */
  method LoadPrinted(lines: seq<Line>, e: Ender, prgStat: Uint32, start: Uint32, size: nat, first: Slot, second: Slot)
    returns (end: LoadEnd, mem: Mem)
    requires (forall i :: 0 <= i < |lines| ==> ValidLine(lines[i])) && ValidEnder(e)
    ensures end == match e case Ender(_, _, _, _) => Loaded case Cancel(_) => Cancelled case Silence => Waiting
    ensures var s := ReceiveRecords(Stream(Fill(size, BLANK), start, first, second, 0), RecordsOf(lines), prgStat);
      match e case Ender(_, _, _, _) => mem == Flushed(s, true) case Cancel(_) => mem == s.mem case Silence => true
  {
    hide Print, ScanFrom, RecordsOf, ReceiveRecords, Flushed, ValidLine, ValidEnder;
    var flash := new Device(Fill(size, BLANK), true);
    var ram := new Byte[512](i requires 0 <= i < 512 => if i < 256 then first[i] else second[i - 256]);
    var t := Print(lines, e);
    assert t[0..|t|] == t;
    ScanInvertsPrint(t, 0, lines, e);
    var loader := new Loader(t, ram);
    var streamer := new Streamer(flash, ram, start);
    assert streamer.Cells(0) == first && streamer.Cells(1) == second;
    var spiEnd;
    ghost var ready;
    end, spiEnd, ready := streamer.LoadAndWrite(loader, prgStat);
    mem := flash.mem;
  }

  /**
   The converse of XLoadClean: for lines whose shape is not clean, a stream with the same addresses and lengths that
   the loader writes wrongly onto a blank and prompt device.
   */
  method LoadFailing(lines: seq<Line>, e: Ender, prgStat: Uint32, start: Uint32, size: nat)
    returns (lines': seq<Line>, mem: Mem)
    requires (forall i :: 0 <= i < |lines| ==> ValidLine(lines[i])) && ValidEnder(e) && e.Ender?
    requires !Clean(RecordsOf(lines), prgStat)
    requires start % 256 == 0 && start + |Assemble(RecordsOf(lines), prgStat, BLANK)| <= size <= 0x1000_0000
    ensures forall i :: 0 <= i < |lines'| ==> ValidLine(lines'[i])
    ensures SameShape(RecordsOf(lines'), RecordsOf(lines))
    ensures !Lands(mem, start, Assemble(RecordsOf(lines'), prgStat, BLANK))
  {
    hide Clean, Assemble, ReceiveRecords, Flushed, Lands, Print, ScanFrom, RecordsOf, ValidLine, ValidEnder,
      FaultChoice,
      FaultLines, SameShape;
    FailingStream(lines, e, prgStat, start, size);
    var c := FaultChoice(RecordsOf(lines), prgStat);
    lines' := FaultLines(lines, prgStat);
    var end;
    end, mem := LoadPrinted(lines', e, prgStat, start, size, c.first, c.second);
  }

  /** The 4 KB sectors that cover a download, erased. */
  function Cleared(m: Mem, start: nat, size: nat): (r: Mem)
    requires start + size > 0
    ensures |r| == |m|
  {
    Erased(m, Floor(start, 0x1000), Floor(start + size - 1, 0x1000) + 0x1000)
  }

  lemma ClearedIs(m: Mem, start: nat, size: nat)
    requires start + size > 0
    ensures var top, endTop := Floor(start, 0x1000), Floor(start + size - 1, 0x1000);
      Cleared(m, start, size) == Erased(m, top, if top <= endTop then endTop + 0x1000 else top)
  {
  }

  lemma ClearedAt(m: Mem, start: nat, size: nat, j: nat)
    requires start + size > 0 && j < |m|
    ensures Cleared(m, start, size)[j] ==
      if Floor(start, 0x1000) <= j < Floor(start + size - 1, 0x1000) + 0x1000 then BLANK else m[j]
  {
    hide Floor;
  }

  // ---------- the binary download ----------

  /** Of `data`, k whole pages are saved, and c more bytes wait in the slot. */
  ghost predicate Saves(s: Stream, r: Stream, data: seq<Byte>, k: nat, c: nat) {
    && |data| == 256 * k + c && c < 256 && r.count == c && r.addr == s.addr + 256 * k
    && (forall i :: 0 <= i < c ==> r.current[i] == data[256 * k + i])
    && r.mem == Saved(s.mem, s.addr, data, 0, k)
  }

  /** Without jumps, whole pages are saved and the rest waits in the slot. */
  lemma {:induction false} BytesAreSaved(s: Stream, data: seq<Byte>)
    requires s.count == 0 && s.addr + |data| <= 0x1000_0000
    ensures Saves(s, ReceiveBytes(s, data), data, |data| / 256, |data| % 256)
  {
    hide Saves, ReceiveByte;
    if data == [] {
      NothingSaved(s);
    } else {
      var n := |data| - 1;
      BytesAreSaved(s, data[..n]);
      OneMoreSaved(s, ReceiveBytes(s, data[..n]), data, n / 256, n % 256);
      NextInPage(n);
    }
  }

  lemma NothingSaved(s: Stream)
    requires s.count == 0
    ensures Saves(s, s, [], 0, 0)
  {
    SavedNone(s.mem, s.addr, []);
  }

  lemma NextInPage(n: nat)
    ensures (n + 1) / 256 == (if n % 256 == 255 then n / 256 + 1 else n / 256)
    ensures (n + 1) % 256 == (if n % 256 == 255 then 0 else n % 256 + 1)
  {
  }

  lemma OneMoreSaved(s: Stream, t: Stream, data: seq<Byte>, k: nat, c: nat)
    requires data != [] && s.addr + |data| <= 0x1000_0000 && Saves(s, t, data[..|data| - 1], k, c)
    ensures Saves(s, ReceiveByte(t, data[|data| - 1]), data, if c == 255 then k + 1 else k,
                  if c == 255 then 0 else c + 1)
  {
    hide Saved, Programmed;
    var n := |data| - 1;
    if c == 255 {
      NextPage(t.mem, s.mem, s.addr, data[..n], data, k, t.current[255 := data[n]]);
    } else {
      SavedSameSource(s.mem, s.addr, data[..n], 0, data, 0, k);
    }
  }

  /** A slot filled up with FF, in the RAM that holds both. */
  lemma SlotPadded(now: seq<Byte>, before: seq<Byte>, index: nat, count: nat)
    requires |now| == |before| >= 512 && index <= 1 && count < 256
    requires forall i :: 0 <= i < |now| ==>
      now[i] == if 256 * index + count <= i < 256 * index + 256 then BLANK else before[i]
    ensures now[256 * index..256 * index + 256] == Topped(before[256 * index..256 * index + 256], count)
    ensures var o := 1 - index; now[256 * o..256 * o + 256] == before[256 * o..256 * o + 256]
  {
    var slot, was := now[256 * index..256 * index + 256], before[256 * index..256 * index + 256];
    assert forall i :: 0 <= i < 256 ==> slot[i] == Topped(was, count)[i];
  }

  lemma RecordIs(s: Stream, r: Record, prev: Uint32)
    requires s.count < 256
    ensures r.addr == prev ==> ReceiveRecord(s, r, prev) == ReceiveBytes(s, r.data)
    ensures r.addr != prev ==>
      ReceiveRecord(s, r, prev) == ReceiveBytes(ReceiveJump(s, Wrap32(r.addr - prev)), r.data)
  {
    hide ReceiveByte, ReceiveJump, Wrap32;
  }

  lemma NoBytes(s: Stream, bin: seq<Byte>)
    requires s.count < 256
    ensures ReceiveBytes(s, bin[..0]) == s
  {
  }

  lemma NextByte(s: Stream, bin: seq<Byte>, n: nat)
    requires s.count < 256 && n < |bin|
    ensures ReceiveBytes(s, bin[..n + 1]) == ReceiveByte(ReceiveBytes(s, bin[..n]), bin[n])
  {
    hide ReceiveByte;
    assert bin[..n + 1][..n] == bin[..n];
  }

  lemma NoFields(t: seq<char>, pos: nat)
    requires pos <= |t|
    ensures DataFields(t, pos, 0) == []
  {
  }

  lemma OneMoreField(t: seq<char>, pos: nat, k: nat)
    requires pos + 2 * (k + 1) <= |t|
    ensures var data := DataFields(t, pos, k + 1);
      data[..k] == DataFields(t, pos, k) && data[k] == ToByte(Field(t, pos + 2 * k, 1))
  {
    hide Field;
  }

  /** The partly filled slot at the end is one more page: the rest of the data, then stale bytes. */
  lemma LastPageSaved(s: Stream, data: seq<Byte>)
    requires s.count == 0 && s.addr + |data| <= 0x1000_0000 && |data| % 256 != 0
    ensures var r := ReceiveBytes(s, data);
      var stale := r.current[r.count..];
      && |stale| == 256 * PageCount(|data|) - |data|
      && Programmed(r.mem, r.addr, r.current, 0) == Saved(s.mem, s.addr, data + stale, 0, PageCount(|data|))
  {
    hide Saved, Programmed, ReceiveBytes;
    BytesAreSaved(s, data);
    var r := ReceiveBytes(s, data);
    NextPage(r.mem, s.mem, s.addr, data, data + r.current[r.count..], |data| / 256, r.current);
  }

  /** Programming page k, whose bytes are those of `data'`. */
  lemma NextPage(m: Mem, erased: Mem, start: nat, data: seq<Byte>, data': seq<Byte>, k: nat, slot: Slot)
    requires 256 * k <= |data| && data <= data' && 256 * k + 256 <= |data'|
    requires m == Saved(erased, start, data, 0, k)
    requires forall i :: 0 <= i < 256 ==> slot[i] == data'[256 * k + i]
    ensures Programmed(m, start + 256 * k, slot, 0) == Saved(erased, start, data', 0, k + 1)
  {
    hide Programmed;
    SavedSameSource(erased, start, data, 0, data', 0, k);
    ProgrammedSameSource(m, start + 256 * k, slot, 0, data', 256 * k);
  }

  lemma SavedNone(m: Mem, addr: nat, src: seq<Byte>)
    ensures Saved(m, addr, src, 0, 0) == m
  {
  }

  lemma WholePagesOnly(size: nat)
    requires size % 256 == 0
    ensures 256 * PageCount(size) == size && PageCount(size) == size / 256
  {
  }

  /**
   What a page-aligned download leaves behind: the image at its address, FF in the rest of the erased sectors except
   for the stale end of the last page, and every other byte untouched.
   */
  lemma DownloadLands(m: Mem, start: nat, image: seq<Byte>, stale: seq<Byte>, j: nat)
    requires start % 256 == 0 && image != [] && j < |m|
    requires |stale| == 256 * PageCount(|image|) - |image|
    ensures var r := Saved(Cleared(m, start, |image|), start, image + stale, 0, PageCount(|image|));
      var lo, hi := Floor(start, 0x1000), Floor(start + |image| - 1, 0x1000) + 0x1000;
      && (start <= j < start + |image| ==> r[j] == image[j - start])
      && (start + |image| <= j < start + |image| + |stale| ==> r[j] == stale[j - start - |image|])
      && (lo <= j < hi && !(start <= j < start + |image| + |stale|) ==> r[j] == BLANK)
      && (!(lo <= j < hi) ==> r[j] == m[j])
  {
    hide *;
    SavedAt(Cleared(m, start, |image|), start, image + stale, 0, PageCount(|image|), j);
    LastPageInSector(start, |image|);
    ClearedAt(m, start, |image|, j);
    BlankAnd((image + stale)[if start <= j < start + |image| + |stale| then j - start else 0]);
  }

  lemma LastPageInSector(start: nat, size: nat)
    requires start % 256 == 0 && size > 0
    ensures start + 256 * PageCount(size) <= Floor(start + size - 1, 0x1000) + 0x1000
  {
    var b := (start + size - 1) / 0x1000;
    assert Floor(start + size - 1, 0x1000) == 0x1000 * b;
    var a := start / 256 + PageCount(size);
    assert start + 256 * PageCount(size) == 256 * a;
    assert a <= 16 * b + 16;
  }

  // ---------- the streaming load against the load through RAM ----------

  /**
   From a page boundary, with sectors erased for at least the image's size and a ready device at the end, a clean load
   leaves the same byte at every image address as the loader that goes through RAM, and reports the same end address.
   */
  lemma StreamMatchesUpdate(m: Mem, start: nat, size: nat, first: Slot, second: Slot, records: seq<Record>,
                            prgStat: Uint32, sectorSize: nat, j: nat)
    requires IsSectorSize(sectorSize) && |m| % sectorSize == 0 && start % 256 == 0 && Clean(records, prgStat)
    requires var image := Assemble(records, prgStat, BLANK);
      0 < |image| <= size && start + |image| <= |m| <= 0x1000_0000 && start <= j < start + |image|
    ensures var image := Assemble(records, prgStat, BLANK);
      var s := ReceiveRecords(Stream(Cleared(m, start, size), start, first, second, 0), records, prgStat);
      && Flushed(s, true)[j] == image[j - start] == Command(m, start, image, sectorSize)[j]
      && Wrap32(s.addr + s.count - 1) == start + |image| - 1
  {
    hide Command, Cleared, Clean, ReceiveRecords, Flushed, Assemble;
    var image := Assemble(records, prgStat, BLANK);
    ClearedBlank(m, start, size, |image|);
    CleanLoadLands(records, prgStat, start, Cleared(m, start, size), first, second);
    CommandIsExact(m, start, image, sectorSize);
  }

  /**
   The image stands in flash `m` from `start` on, `spiEnd` is its last address, and beyond its last page the flash is
   as `erased`.
   */
  ghost predicate Arrived(m: Mem, spiEnd: Uint32, image: seq<Byte>, start: nat, erased: Mem) {
    && Lands(m, start, image) && spiEnd == Wrap32(start + |image| - 1) && |m| == |erased|
    && forall j :: 0 <= j < |m| && !(start <= j < start + 256 * PageCount(|image|)) ==> m[j] == erased[j]
  }

  /** A clean load from a page boundary after the erase. */
  lemma CleanStreamLands(s: Stream, records: seq<Record>, prgStat: Uint32, size: nat)
    requires s.count == 0 && s.addr % 256 == 0 && 0 < s.addr + size <= |s.mem| <= 0x1000_0000
    requires Clean(records, prgStat) && |Assemble(records, prgStat, BLANK)| <= size
    ensures var image, cleared := Assemble(records, prgStat, BLANK), Cleared(s.mem, s.addr, size);
      var r := ReceiveRecords(s.(mem := cleared), records, prgStat);
      Arrived(Flushed(r, true), Wrap32(r.addr + r.count - 1), image, s.addr, cleared)
  {
    hide Cleared, ReceiveRecords, Flushed, Clean, Assemble, Lands, PageCount;
    var cleared := Cleared(s.mem, s.addr, size);
    ClearedBlank(s.mem, s.addr, size, |Assemble(records, prgStat, BLANK)|);
    CleanLoadLands(records, prgStat, s.addr, cleared, s.current, s.other);
    assert s.(mem := cleared) == Stream(cleared, s.addr, s.current, s.other, 0);
  }

  lemma ClearedBlank(m: Mem, start: nat, size: nat, n: nat)
    requires n <= size && 0 < start + size && start + n <= |m|
    ensures AllBlank(Cleared(m, start, size), start, start + n)
  {
    hide Cleared, Floor;
    forall j | start <= j < start + n ensures Cleared(m, start, size)[j] == BLANK {
      ClearedAt(m, start, size, j);
    }
  }
}
