/**
 The S-record loaders that fill work RAM: dgLS_Load_Offset (dgmodul4.c) and dg_emmc_mot_load
 (dg_emmc_access.c). The two differ in one place: the first fills address gaps with FF, the second leaves them.
 */
module SRecordLoader {
  import opened Words
  import opened HexText
  import opened SRecord

  /** How a load ends. `Overrun` is where the source would write past the work area; the model stops there. */
  datatype LoadEnd = Loaded | Cancelled | Waiting | Overrun

  /** Memory `now` is `before` with the bytes `s` stored from `at` on. */
  ghost predicate PutAt(now: seq<Byte>, before: seq<Byte>, at: nat, s: seq<Byte>) {
    && |now| == |before| && at + |s| <= |now|
    && forall i :: 0 <= i < |now| ==> now[i] == if at <= i < at + |s| then s[i - at] else before[i]
  }

  lemma PutNone(m: seq<Byte>, at: nat)
    requires at <= |m|
    ensures PutAt(m, m, at, [])
  {
  }

  lemma PutTwice(now: seq<Byte>, between: seq<Byte>, before: seq<Byte>, at: nat, a: seq<Byte>, b: seq<Byte>)
    requires PutAt(between, before, at, a) && PutAt(now, between, at + |a|, b)
    ensures PutAt(now, before, at, a + b)
  {
  }

  /** Storing does not disturb what lies beyond. */
  lemma PutBelow(now: seq<Byte>, before: seq<Byte>, s: seq<Byte>, limit: nat, fill: Byte)
    requires PutAt(now, before, 0, s) && limit <= |before|
    requires forall i :: 0 <= i < limit ==> before[i] == fill
    ensures forall i :: |s| <= i < limit ==> now[i] == fill
  {
  }

  class Loader {
    const input: seq<char>    // the serial stream
    var pos: nat              // characters received so far
    const str: array<char>    // the 12-character scratch buffer
    const ram: array<Byte>

    constructor (input: seq<char>, ram: array<Byte>)
      ensures Valid() && this.input == input && this.ram == ram && pos == 0 && fresh(str)
    {
      this.input, this.ram, pos := input, ram, 0;
      str := new char[12];
    }

    ghost predicate Valid()
      reads this
    {
      pos <= |input| && str.Length == 12 && (str as object) != ram
    }

    method GetChar() returns (ok: bool, c: char)
      requires Valid()
      modifies `pos
      ensures Valid()
      ensures ok <==> old(pos) < |input|
      ensures pos == (if ok then old(pos) + 1 else old(pos)) && (ok ==> c == input[old(pos)])
    {
      ok, c := pos < |input|, ' ';
      if ok {
        c, pos := input[pos], pos + 1;
      }
    }

    /** The loops that read on until one of the given characters. */
    method SkipPast(stops: set<char>) returns (ok: bool)
      requires Valid()
      modifies `pos
      ensures Valid()
      ensures (if ok then Some(pos) else None) == SkipTo(input, old(pos), stops)
    {
      while true
        invariant Valid() && SkipTo(input, pos, stops) == SkipTo(input, old(pos), stops)
        decreases |input| - pos
      {
        var c;
        ok, c := GetChar();
        if !ok || c in stops {
          return;
        }
      }
    }

    /** From anywhere to the start of the next data record, over header records and other text. */
    method SeekHead() returns (h: Head)
      requires Valid()
      modifies `pos
      ensures Valid() && h == NextHead(input, old(pos))
      ensures h.Head? ==> h.pos == pos
    {
      while true
        invariant Valid() && NextHead(input, pos) == NextHead(input, old(pos))
        decreases |input| - pos
      {
        var ok, c := GetChar();
        if !ok {
          return NoHead(Starved);
        }
        if !Starts(c) {
          continue;
        }
        if c == '.' {
          ok := SkipPast({CR});
          return NoHead(if ok then Aborted else Starved);
        }
        ok, c := GetChar();
        if !ok {
          return NoHead(Starved);
        }
        match c
        case '0' =>
          ok := SkipPast({CR, LF});
          if !ok {
            return NoHead(Starved);
          }
        case '1' => return Head(2, pos);
        case '2' => return Head(3, pos);
        case '3' => return Head(4, pos);
        case _ =>
          ok := SkipPast({CR, LF});
          return NoHead(if ok then Done else Starved);
      }
    }

    /** GetStr_ByteCount: n digit pairs into the scratch buffer, then a NUL. */
    method GetStrByteCount(n: nat) returns (ok: bool)
      requires Valid() && n <= 4
      modifies `pos, str
      ensures Valid() && (ok <==> old(pos) + 2 * n <= |input|)
      ensures ok ==> pos == old(pos) + 2 * n && str[..2 * n] == input[old(pos)..pos] && str[2 * n] == NUL
    {
      var i := 0;
      while i < 2 * n
        invariant Valid() && i <= 2 * n && pos == old(pos) + i
        invariant str[..i] == input[old(pos)..pos]
      {
        var c;
        ok, c := GetChar();
        if !ok {
          return;
        }
        str[i] := c;
        i := i + 1;
      }
      str[i] := NUL;
      ok := true;
    }

    /** GetStr_ByteCount followed by HexAscii2Data, whose return code the loaders ignore. */
    method ReadField(n: nat) returns (ok: bool, data: nat)
      requires Valid() && n <= 4
      modifies `pos, str
      ensures Valid() && (ok <==> old(pos) + 2 * n <= |input|)
      ensures ok ==> pos == old(pos) + 2 * n && data == Field(input, old(pos), n)
    {
      hide CString, HexOf, Upper;
      ok := GetStrByteCount(n);
      data := 0;
      if ok {
        CStringOfBuffer(str[..], input[old(pos)..pos]);
        var ret;
        ret, data := HexAscii2Data(str, 4);
      }
    }

    /** RAM is `before` with the bytes `s` stored from `at` on. */
    ghost predicate Wrote(before: seq<Byte>, at: nat, s: seq<Byte>)
      reads ram
    {
      PutAt(ram[..], before, at, s)
    }

    method MemSet(at: nat, value: Byte, n: nat)
      requires at + n <= ram.Length
      modifies ram
      ensures Wrote(old(ram[..]), at, Fill(n, value))
    {
      var p := at;
      while p < at + n
        invariant at <= p <= at + n
        invariant Wrote(old(ram[..]), at, Fill(p - at, value))
      {
        ram[p] := value;
        p := p + 1;
      }
    }

    /** The data loop of one record. */
    method ReadData(at: nat, n: nat, limit: nat) returns (end: LoadEnd)
      requires Valid() && limit <= ram.Length && at <= limit
      modifies `pos, str, ram
      ensures Valid()
      ensures end == Waiting ==> old(pos) + 2 * n > |input|
      ensures end == Overrun ==> at + n > limit
      ensures end == Waiting || end == Overrun || end == Loaded
      ensures end == Loaded ==> pos == old(pos) + 2 * n && at + n <= limit
      ensures end == Loaded ==> Wrote(old(ram[..]), at, DataFields(input, old(pos), n))
    {
      hide Field, ToByte;
      var k := 0;
      while k < n
        invariant Valid() && k <= n && at + k <= limit && pos == old(pos) + 2 * k
        invariant Wrote(old(ram[..]), at, DataFields(input, old(pos), k))
      {
        var ok, data := ReadField(1);
        if !ok {
          return Waiting;
        }
        if at + k >= limit {
          return Overrun;
        }
        ram[at + k] := ToByte(data);
        k := k + 1;
      }
      end := Loaded;
    }

    /**
     One data record after its head: count, address, the gap, the data, the checksum and one more character.
     `fillGaps` tells the flash loader from the eMMC loader, which relies on RAM that already holds `fill`.
     */
    method LoadRecord(addressBytes: nat, prev: Uint32, ptr: nat, limit: nat, fillGaps: bool, ghost fill: Byte)
      returns (end: LoadEnd, prev': Uint32, ptr': nat)
      requires Valid() && 2 <= addressBytes <= 4 && ptr <= limit <= ram.Length
      requires if fillGaps then fill == BLANK else forall i :: ptr <= i < limit ==> ram[i] == fill
      modifies `pos, str, ram
      ensures Valid() && end != Cancelled
      ensures end == Waiting ==> ReadRecord(input, old(pos), addressBytes) == None
      ensures end == Overrun ==> match ReadRecord(input, old(pos), addressBytes)
        case None => true
        case Some((r, _)) => ptr + Gap(r, prev) + |r.data| > limit
      ensures end == Loaded ==> match ReadRecord(input, old(pos), addressBytes)
        case None => false
        case Some((r, q)) =>
          && pos == q && prev' == After(r) && ptr' == ptr + Gap(r, prev) + |r.data| <= limit
          && Wrote(old(ram[..]), ptr, Fill(Gap(r, prev), fill) + r.data)
    {
      hide Field, DataFields, DataCount, ReadRecord;
      prev', ptr' := prev, ptr;
      ghost var at := pos;
      var ok, loadGetAddress, n := ReadCountAndAddress(addressBytes);
      if !ok {
        end := Waiting;
        return;
      }
      end, ptr' := LeaveGap(prev, loadGetAddress, ptr, limit, fillGaps, fill);
      if end == Loaded {
        ghost var gapped := ram[..];
        end := ReadData(ptr', n, limit);
        if end == Loaded {
          PutTwice(ram[..], gapped, old(ram[..]), ptr, Fill(ptr' - ptr, fill),
                   DataFields(input, at + 2 + 2 * addressBytes, n));
          ptr', prev' := ptr' + n, Wrap32(loadGetAddress + n);
          end := ReadTail();
        }
      }
      RecordOutcome(input, at, addressBytes, loadGetAddress, n);
    }

    method ReadCountAndAddress(addressBytes: nat) returns (ok: bool, address: Uint32, n: nat)
      requires Valid() && 2 <= addressBytes <= 4
      modifies `pos, str
      ensures Valid() && (ok <==> old(pos) + 2 + 2 * addressBytes <= |input|)
      ensures !ok ==> ReadRecord(input, old(pos), addressBytes) == None
      ensures ok ==> pos == old(pos) + 2 + 2 * addressBytes && IsHeader(input, old(pos), addressBytes, address, n)
    {
      hide Field, DataFields, DataCount;
      address, n := 0, 0;
      var loadGetCount, data;
      ok, loadGetCount := ReadField(1);
      if ok {
        ok, data := ReadField(addressBytes);
        if ok {
          address := Wrap32(data);
          n := DataCount(loadGetCount, addressBytes);
        }
      }
    }

    /** Moving `ptr` on when the record does not continue the previous one. */
    method LeaveGap(prev: Uint32, address: Uint32, ptr: nat, limit: nat, fillGaps: bool, ghost fill: Byte)
      returns (end: LoadEnd, ptr': nat)
      requires Valid() && ptr <= limit <= ram.Length
      requires if fillGaps then fill == BLANK else forall i :: ptr <= i < limit ==> ram[i] == fill
      modifies ram
      ensures Valid() && ptr' == ptr + Wrap32(address - prev)
      ensures if ptr' > limit then end == Overrun else end == Loaded && Wrote(old(ram[..]), ptr, Fill(ptr' - ptr, fill))
    {
      ptr' := ptr;
      if prev != address {
        var gap := Wrap32(address - prev);
        ptr' := ptr + gap;
        if ptr' > limit {
          return Overrun, ptr';
        }
        if fillGaps {
          MemSet(ptr, BLANK, gap);
        }
      }
      end := Loaded;
    }

    /** The checksum, which is never compared, and the character after it. */
    method ReadTail() returns (end: LoadEnd)
      requires Valid()
      modifies `pos, str
      ensures Valid()
      ensures end == if old(pos) + 3 <= |input| then Loaded else Waiting
      ensures end == Loaded ==> pos == old(pos) + 3
    {
      var ok, data := ReadField(1);
      if ok {
        var c;
        ok, c := GetChar();
      }
      end := if ok then Loaded else Waiting;
    }

    /**
     The whole load from `prgStartAdd`: on a normal end the work area holds exactly the image the records
     describe, and the returned bounds are its first and last byte.
     */
    method Load(prgStartAdd: Uint32, limit: nat, fillGaps: bool, ghost fill: Byte)
      returns (end: LoadEnd, minAdd: nat, maxAdd: int)
      requires Valid() && limit <= ram.Length
      requires if fillGaps then fill == BLANK else forall i :: 0 <= i < limit ==> ram[i] == fill
      modifies `pos, str, ram
      ensures Valid()
      ensures var scan := ScanFrom(input, old(pos));
        && var image := Assemble(scan.records, prgStartAdd, fill);
        && (end == Loaded ==>
              scan.end == Done && minAdd == 0 && maxAdd == |image| - 1 < limit && Wrote(old(ram[..]), 0, image))
        && (end == Cancelled ==> scan.end == Aborted && |image| <= limit && Wrote(old(ram[..]), 0, image))
        && (end == Waiting ==> scan.end == Starved)
        && (end == Overrun ==> scan.end == Starved || |image| > limit)
    {
      hide Assemble, NextHead, ReadRecord, Fill, Gap, After, PutAt;
      var prevLoadAddress, ptr, workAddMax := prgStartAdd, 0, 0;
      ghost var whole, image: seq<Byte> := Assemble(ScanFrom(input, pos).records, prgStartAdd, fill), [];
      minAdd, maxAdd := 0, -1;
      PutNone(ram[..], 0);
      while true
        invariant Valid() && ptr == workAddMax == |image| <= limit
        invariant Wrote(old(ram[..]), 0, image)
        invariant ScanFrom(input, old(pos)).end == ScanFrom(input, pos).end
        invariant whole == image + Assemble(ScanFrom(input, pos).records, prevLoadAddress, fill)
        decreases |input| - pos
      {
        ghost var rest := ScanFrom(input, pos).records;
        ghost var prev := prevLoadAddress;
        var h := SeekHead();
        match h
        case NoHead(why) =>
          AssembleNone(prev, fill);
          assert image + [] == image;
          end := match why case Done => Loaded case Aborted => Cancelled case Starved => Waiting;
          if why == Done {
            maxAdd := workAddMax - 1;
          }
          return;
        case Head(addressBytes, _) =>
          var ptr';
          ghost var between := ram[..];
          if !fillGaps {
            PutBelow(ram[..], old(ram[..]), image, limit, fill);
          }
          end, prevLoadAddress, ptr' := LoadRecord(addressBytes, prevLoadAddress, ptr, limit, fillGaps, fill);
          if end == Waiting {
            return;
          }
          if end == Overrun {
            if rest != [] { AssembleNext(rest, prev, fill); }
            return;
          }
          ImageNext(whole, image, rest, prev, fill);
          ghost var piece := Fill(Gap(rest[0], prev), fill) + rest[0].data;
          PutTwice(ram[..], between, old(ram[..]), 0, image, piece);
          image := image + piece;
          workAddMax := workAddMax + (ptr' - ptr);
          ptr := ptr';
      }
    }
  }

  /**
   The round trip through the loader: after a printed stream of ascending records, RAM holds each data byte at its
   address minus the top address, the fill byte in the gaps, and past the last record what it held before. A '.'
   command cancels the load, and leaves in RAM the records before it.
   */
  method LoadPrinted(lines: seq<Line>, e: Ender, top: Uint32, ram: array<Byte>, limit: nat, fillGaps: bool,
                     ghost fill: Byte)
    returns (end: LoadEnd, minAdd: nat, maxAdd: int)
    requires (forall i :: 0 <= i < |lines| ==> ValidLine(lines[i])) && ValidEnder(e)
    requires Ascending(RecordsOf(lines), top) && Extent(RecordsOf(lines), top) - top <= limit <= ram.Length
    requires if fillGaps then fill == BLANK else forall i :: 0 <= i < limit ==> ram[i] == fill
    modifies ram
    ensures (end == Loaded <==> e.Ender?) && (end == Cancelled <==> e.Cancel?)
    ensures end == Loaded ==> minAdd == 0 && maxAdd == Extent(RecordsOf(lines), top) - top - 1
    ensures end == Loaded || end == Cancelled ==>
      forall x :: 0 <= x < ram.Length ==>
        ram[x] == if x >= Extent(RecordsOf(lines), top) - top then old(ram[x])
                  else match Assigned(RecordsOf(lines), top + x) case Some(b) => b case None => fill
  {
    hide Print, ScanFrom, RecordsOf, ValidLine, ValidEnder, Ascending, Extent, Assemble, Assigned;
    var loader := new Loader(Print(lines, e), ram);
    LoadInvertsPrint(lines, e, top, fill, 0);
    ghost var image := Assemble(ScanFrom(Print(lines, e), 0).records, top, fill);
    end, minAdd, maxAdd := loader.Load(top, limit, fillGaps, fill);
    forall x: nat | x < |image|
      ensures image[x] == match Assigned(RecordsOf(lines), top + x) case Some(b) => b case None => fill
    {
      LoadInvertsPrint(lines, e, top, fill, x);
    }
  }

  lemma AssembleNone(prev: Uint32, fill: Byte)
    ensures Assemble([], prev, fill) == []
  {
  }

  lemma AssembleNext(records: seq<Record>, prev: Uint32, fill: Byte)
    requires records != []
    ensures Assemble(records, prev, fill)
      == (Fill(Gap(records[0], prev), fill) + records[0].data) + Assemble(records[1..], After(records[0]), fill)
  {
  }

  lemma ImageNext(whole: seq<Byte>, image: seq<Byte>, records: seq<Record>, prev: Uint32, fill: Byte)
    requires whole == image + Assemble(records, prev, fill) && records != []
    ensures whole == image + (Fill(Gap(records[0], prev), fill) + records[0].data)
                     + Assemble(records[1..], After(records[0]), fill)
  {
    hide Assemble, Fill, Gap, After;
    AssembleNext(records, prev, fill);
  }

  /** The count and address fields at `pos` give the load address and the number of data bytes. */
  ghost predicate IsHeader(t: seq<char>, pos: nat, addressBytes: nat, address: Uint32, n: nat) {
    && pos + 2 + 2 * addressBytes <= |t|
    && n == DataCount(Field(t, pos, 1), addressBytes) && address == Wrap32(Field(t, pos + 2, addressBytes))
  }

  lemma RecordOutcome(t: seq<char>, pos: nat, addressBytes: nat, address: Uint32, n: nat)
    requires IsHeader(t, pos, addressBytes, address, n)
    ensures ReadRecord(t, pos, addressBytes) ==
      if pos + 2 * addressBytes + 2 * n + 5 > |t| then None
      else Some((Record(address, DataFields(t, pos + 2 + 2 * addressBytes, n)), pos + 2 * addressBytes + 2 * n + 5))
  {
    hide Field, DataFields, DataCount;
  }

  lemma CStringOfBuffer(buffer: seq<char>, text: seq<char>)
    requires |text| < |buffer| && buffer[..|text|] == text && buffer[|text|] == NUL
    ensures CString(buffer) == CString(text) && NUL in buffer
  {
    assert buffer[|text|] in buffer;
    var n := |CString(text)|;
    assert CString(text) == text[..n] == buffer[..n];
    assert n < |text| ==> text[n] == NUL == buffer[n] by {
      CStringStops(text);
    }
    CStringIs(buffer, n);
  }

  lemma {:induction false} CStringStops(s: seq<char>)
    ensures |CString(s)| < |s| ==> s[|CString(s)|] == NUL
  {
    if s != [] && s[0] != NUL {
      CStringStops(s[1..]);
    }
  }
}
