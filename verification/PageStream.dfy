/**
 What the low-memory S-record loader does to the flash (dgmodul4.c): a function of the records, of the two page
 slots it starts with, and of nothing else; and the exact condition under which the image lands.
 */
module PageStream {
  import opened Words
  import opened NorFlash
  import opened SRecord

  /** A page slot in RAM. */
  type Slot = s: seq<Byte> | |s| == 256 witness seq(256, _ => BLANK)

  /** The flash, the address of the next page program, the slot being filled, the other one, and the fill count. */
  datatype Stream = Stream(mem: Mem, addr: Uint32, current: Slot, other: Slot, count: nat)

  // ---------- the loader as a function ----------

  /** One data byte: a full slot is programmed and the slots change places. */
  function ReceiveByte(s: Stream, b: Byte): (r: Stream)
    requires s.count < 256
    ensures r.count < 256 && |r.mem| == |s.mem|
  {
    var filled: Slot := s.current[s.count := b];
    if s.count < 255 then s.(current := filled, count := s.count + 1)
    else Stream(Programmed(s.mem, s.addr, filled, 0), Wrap32(s.addr + 256), s.other, filled, 0)
  }

  function ReceiveBytes(s: Stream, data: seq<Byte>): (r: Stream)
    requires s.count < 256
    ensures r.count < 256 && |r.mem| == |s.mem|
  {
    if data == [] then s
    else ReceiveByte(ReceiveBytes(s, data[..|data| - 1]), data[|data| - 1])
  }

  /** A slot filled up with FF from its count on. */
  function Topped(slot: Slot, count: nat): Slot
    requires count <= 256
  {
    slot[..count] + Fill(256 - count, BLANK)
  }

  /** A jump in the addresses: a started slot is filled up and programmed, and the slots change places in any case. */
  function ReceiveJump(s: Stream, gap: nat): (r: Stream)
    requires s.count < 256
    ensures r.count < 256 && |r.mem| == |s.mem|
  {
    var slot := if s.count == 0 then s.current else Topped(s.current, s.count);
    var mem := if s.count == 0 then s.mem else Programmed(s.mem, s.addr, slot, 0);
    Stream(mem, Wrap32(s.addr + s.count + gap), s.other, slot, 0)
  }

  function ReceiveRecord(s: Stream, r: Record, prev: Uint32): (r': Stream)
    requires s.count < 256
    ensures r'.count < 256 && |r'.mem| == |s.mem|
  {
    ReceiveBytes(if r.addr == prev then s else ReceiveJump(s, Gap(r, prev)), r.data)
  }

  function ReceiveRecords(s: Stream, records: seq<Record>, prev: Uint32): (r: Stream)
    requires s.count < 256
    ensures r.count < 256 && |r.mem| == |s.mem|
    decreases records
  {
    if records == [] then s
    else ReceiveRecords(ReceiveRecord(s, records[0], prev), records[1..], After(records[0]))
  }

  /** The final program of a partly filled slot, which a device that is still busy ignores. */
  function Flushed(s: Stream, ready: bool): (m: Mem)
    requires s.count < 256
    ensures |m| == |s.mem|
  {
    if s.count > 0 && ready then Programmed(s.mem, s.addr, s.current, 0) else s.mem
  }

  // ---------- when it goes wrong ----------

  /** Where the bytes of a slot come from: the image from some offset on, or the slot as the load found it. */
  datatype Source = Sent(at: nat) | Initial(slot: nat)

  /** What a slot still holds from its last use: `len` bytes, then FF. */
  datatype Past = Past(source: Source, len: nat)

  /** The sizes in a state: image bytes so far, fill count, and the past of both slots. */
  datatype Shape = Shape(n: nat, count: nat, cur: Past, other: Past)

  /**
   The page programmed at image offset `full` wraps, and cell k of its
   slot, which may not be FF, hits earlier bytes.
   */
  datatype Fault = Fault(full: nat, k: nat, source: Source)

  const BEGIN := Shape(0, 0, Past(Initial(0), 256), Past(Initial(1), 256))

  /** From offset o inside a page, a slot may hold at most 256 - o bytes before its FF. */
  predicate Fits(full: nat, len: nat) {
    full % 256 == 0 || full % 256 + len <= 256
  }

  /** A slot whose first `count` bytes are new and whose first `len` may differ from FF, programmed at `full`. */
  function PageFault(full: nat, count: nat, len: nat, past: Past): Option<Fault> {
    if Fits(full, len) then None
    else Some(Fault(full, len - 1, if len - 1 < count then Sent(full) else past.source))
  }

  function ByteFault(h: Shape): Option<Fault>
    requires h.count <= h.n
  {
    if h.count < 255 then None else PageFault(h.n - h.count, 256, 256, h.cur)
  }

  function ByteShape(h: Shape): (r: Shape)
    requires h.count <= h.n && h.count < 256
    ensures r.count <= r.n && r.count < 256
  {
    if h.count < 255 then h.(n := h.n + 1, count := h.count + 1)
    else Shape(h.n + 1, 0, h.other, Past(Sent(h.n - h.count), 256))
  }

  function BytesShape(h: Shape, k: nat): (r: Shape)
    requires h.count <= h.n && h.count < 256
    ensures r.count <= r.n == h.n + k && r.count < 256
  {
    if k == 0 then h else ByteShape(BytesShape(h, k - 1))
  }

  function BytesFault(h: Shape, k: nat): Option<Fault>
    requires h.count <= h.n && h.count < 256
  {
    if k == 0 then None
    else if BytesFault(h, k - 1).Some? then BytesFault(h, k - 1)
    else ByteFault(BytesShape(h, k - 1))
  }

  function JumpFault(h: Shape): Option<Fault>
    requires h.count <= h.n
  {
    if h.count == 0 then None else PageFault(h.n - h.count, h.count, h.count, h.cur)
  }

  function JumpShape(h: Shape, gap: nat): (r: Shape)
    requires h.count <= h.n
    ensures r.count <= r.n == h.n + gap && r.count < 256
  {
    Shape(h.n + gap, 0, h.other, if h.count == 0 then h.cur else Past(Sent(h.n - h.count), h.count))
  }

  /** The last slot is not filled up, so what it held before counts. */
  function EndFault(h: Shape): Option<Fault>
    requires h.count <= h.n
  {
    if h.count == 0 then None
    else PageFault(h.n - h.count, h.count, if h.count > h.cur.len then h.count else h.cur.len, h.cur)
  }

  function FirstFault(records: seq<Record>, prev: Uint32, h: Shape): Option<Fault>
    requires h.count <= h.n && h.count < 256
    decreases records
  {
    if records == [] then EndFault(h)
    else
      var r := records[0];
      var jump := r.addr != prev;
      var h' := if jump then JumpShape(h, Gap(r, prev)) else h;
      if jump && JumpFault(h).Some? then JumpFault(h)
      else if BytesFault(h', |r.data|).Some? then BytesFault(h', |r.data|)
      else FirstFault(records[1..], After(r), BytesShape(h', |r.data|))
  }

  /**
   The condition on addresses and lengths alone. A run of records without jumps that starts inside a page must end
   with a jump before the page does; if it is the last run, its slot must hold FF from an earlier jump instead.
   */
  predicate Clean(records: seq<Record>, prev: Uint32) {
    FirstFault(records, prev, BEGIN) == None
  }

  predicate SameShape(a: seq<Record>, b: seq<Record>) {
    |a| == |b| && forall i :: 0 <= i < |a| ==> a[i].addr == b[i].addr && |a[i].data| == |b[i].data|
  }

  /** The image stands in the flash. */
  ghost predicate Lands(m: Mem, start: nat, image: seq<Byte>) {
    start + |image| <= |m| && forall x :: 0 <= x < |image| ==> m[start + x] == image[x]
  }

  // ---------- clean loads land ----------

  predicate Sized(s: Stream, h: Shape) {
    s.count == h.count <= h.n && h.count < 256
  }

  /** The bytes before the current slot are in the flash, and every other byte is as in `m`. */
  ghost predicate Landing(m: Mem, start: nat, s: Stream, h: Shape, image: seq<Byte>) {
    && start % 256 == 0 && start + |image| <= |m| == |s.mem| <= 0x1000_0000 && h.cur.len <= 256 && h.other.len <= 256
    && |image| == h.n && Sized(s, h) && s.addr == start + (h.n - h.count)
    && (forall j :: 0 <= j < |m| ==>
          s.mem[j] == if start <= j < start + (h.n - h.count) then image[j - start] else m[j])
    && (forall i :: 0 <= i < h.count ==> s.current[i] == image[h.n - h.count + i])
    && (forall i :: 0 <= i < 256 && i >= h.count && i >= h.cur.len ==> s.current[i] == BLANK)
    && (forall i :: 0 <= i < 256 && i >= h.other.len ==> s.other[i] == BLANK)
  }

  /** A fitting slot with `count` image bytes and FF from `len` on, programmed at its place on blank flash. */
  lemma PageLands(m: Mem, mem: Mem, start: nat, full: nat, slot: Slot, count: nat, len: nat, j: nat)
    requires start % 256 == 0 && start + full + count <= |m| == |mem| && count <= len <= 256 && j < |m|
    requires count > 0 && Fits(full, len)
    requires mem[j] == m[j] || start <= j < start + full
    requires start + full <= j < start + full + count ==> m[j] == BLANK
    requires forall i :: len <= i < 256 ==> slot[i] == BLANK
    ensures Programmed(mem, start + full, slot, 0)[j] ==
      if start + full <= j < start + full + count then slot[j - start - full]
      else if start + full + count <= j < start + full + len then m[j] & slot[j - start - full]
      else mem[j]
  {
    var addr := start + full;
    var base := addr - addr % 256;
    SameOffset(start, full);
    BlankAnd(mem[j]);
    if addr <= j < base + 256 {
      BlankAnd(slot[j - addr]);
    }
  }

  lemma ByteLands(m: Mem, start: nat, s: Stream, h: Shape, image: seq<Byte>, b: Byte)
    requires Sized(s, h) && Landing(m, start, s, h, image) && ByteFault(h) == None
    requires start + |image| + 1 <= |m| && AllBlank(m, start, start + |image| + 1)
    ensures Sized(ReceiveByte(s, b), ByteShape(h)) && Landing(m, start, ReceiveByte(s, b), ByteShape(h), image + [b])
  {
    hide Fits, Programmed;
    if s.count == 255 {
      var filled: Slot := s.current[255 := b];
      var full := h.n - 255;
      forall j: nat | j < |m|
        ensures Programmed(s.mem, s.addr, filled, 0)[j] ==
          if start <= j < start + full + 256 then (image + [b])[j - start] else m[j]
      {
        PageLands(m, s.mem, start, full, filled, 256, 256, j);
      }
    }
  }

  lemma {:induction false} BytesLand(m: Mem, start: nat, s: Stream, h: Shape, image: seq<Byte>, data: seq<Byte>)
    requires Sized(s, h) && Landing(m, start, s, h, image) && BytesFault(h, |data|) == None
    requires start + |image| + |data| <= |m| && AllBlank(m, start, start + |image| + |data|)
    ensures Sized(ReceiveBytes(s, data), BytesShape(h, |data|))
    ensures Landing(m, start, ReceiveBytes(s, data), BytesShape(h, |data|), image + data)
  {
    hide Landing, ByteFault, ByteShape, ReceiveByte;
    if data == [] {
      assert image + data == image;
    } else {
      var n := |data| - 1;
      assert image + data == image + data[..n] + [data[n]];
      BytesLand(m, start, s, h, image, data[..n]);
      ByteLands(m, start, ReceiveBytes(s, data[..n]), BytesShape(h, n), image + data[..n], data[n]);
    }
  }

  lemma JumpLands(m: Mem, start: nat, s: Stream, h: Shape, image: seq<Byte>, gap: nat)
    requires Sized(s, h) && Landing(m, start, s, h, image) && JumpFault(h) == None
    requires start + |image| + gap <= |m| && AllBlank(m, start, start + |image| + gap)
    ensures Sized(ReceiveJump(s, gap), JumpShape(h, gap))
    ensures Landing(m, start, ReceiveJump(s, gap), JumpShape(h, gap), image + Fill(gap, BLANK))
  {
    hide Fits, Programmed, Topped, Wrap32;
    var r := ReceiveJump(s, gap);
    assert r.addr == start + (h.n + gap) by { NoWrapAt(s.addr + s.count + gap); }
    if s.count > 0 {
      ToppedLands(m, start, s, h, image);
      ToppedBlank(s.current, s.count);
    }
  }

  lemma NoWrapAt(a: nat)
    requires a < TWO_32
    ensures Wrap32(a) == a
  {
  }

  lemma ToppedBlank(slot: Slot, count: nat)
    requires count <= 256
    ensures forall i :: count <= i < 256 ==> Topped(slot, count)[i] == BLANK
  {
  }

  /** The page that a jump closes. */
  lemma ToppedLands(m: Mem, start: nat, s: Stream, h: Shape, image: seq<Byte>)
    requires Sized(s, h) && Landing(m, start, s, h, image) && JumpFault(h) == None && s.count > 0
    requires start + |image| <= |m| && AllBlank(m, start, start + |image|)
    ensures var r := Programmed(s.mem, s.addr, Topped(s.current, s.count), 0);
      forall j :: 0 <= j < |m| ==> r[j] == if start <= j < start + h.n then image[j - start] else m[j]
  {
    hide Fits, Programmed;
    var slot, full := Topped(s.current, s.count), h.n - h.count;
    forall j: nat | j < |m|
      ensures Programmed(s.mem, s.addr, slot, 0)[j] == if start <= j < start + h.n then image[j - start] else m[j]
    {
      PageLands(m, s.mem, start, full, slot, h.count, h.count, j);
    }
  }

  lemma RecordLands(m: Mem, start: nat, s: Stream, h: Shape, image: seq<Byte>, r: Record, prev: Uint32,
                    rest: seq<Record>)
    requires Sized(s, h) && Landing(m, start, s, h, image) && FirstFault([r] + rest, prev, h) == None
    requires var more := Gap(r, prev) + |r.data|;
      start + |image| + more <= |m| && AllBlank(m, start, start + |image| + more)
    ensures var h' := if r.addr == prev then h else JumpShape(h, Gap(r, prev));
      && Sized(ReceiveRecord(s, r, prev), BytesShape(h', |r.data|))
      && Landing(m, start, ReceiveRecord(s, r, prev), BytesShape(h', |r.data|),
                 image + (Fill(Gap(r, prev), BLANK) + r.data))
      && FirstFault(rest, After(r), BytesShape(h', |r.data|)) == None
  {
    hide Landing, JumpShape, JumpFault, BytesFault, BytesShape, ReceiveBytes, ReceiveJump, EndFault, After;
    var gap := Gap(r, prev);
    assert ([r] + rest)[1..] == rest;
    assert image + (Fill(gap, BLANK) + r.data) == (image + Fill(gap, BLANK)) + r.data;
    if r.addr == prev {
      assert image + Fill(gap, BLANK) == image;
      BytesLand(m, start, s, h, image, r.data);
    } else {
      JumpLands(m, start, s, h, image, gap);
      BytesLand(m, start, ReceiveJump(s, gap), JumpShape(h, gap), image + Fill(gap, BLANK), r.data);
    }
  }

  /** A clean rest of the records lands, except for the last page if the device was not ready for it. */
  lemma {:induction false} RecordsLand(m: Mem, start: nat, s: Stream, h: Shape, image: seq<Byte>, records: seq<Record>,
                                       prev: Uint32)
    requires Sized(s, h) && Landing(m, start, s, h, image) && FirstFault(records, prev, h) == None
    requires var all := image + Assemble(records, prev, BLANK);
      start + |all| <= |m| && AllBlank(m, start, start + |all|)
    ensures var all, s' := image + Assemble(records, prev, BLANK), ReceiveRecords(s, records, prev);
      && s'.count <= |all| && s'.addr == start + (|all| - s'.count)
      && Lands(Flushed(s', true), start, all)
      && Lands(Flushed(s', false), start, all[..|all| - s'.count])
      && (forall j, ready :: 0 <= j < |m| && !(start <= j < start + 256 * PageCount(|all|)) ==>
            Flushed(s', ready)[j] == m[j])
    decreases records
  {
    hide Landing, BytesShape, JumpShape, ReceiveRecord, After, Flushed, Lands, PageCount;
    if records == [] {
      assert image + Assemble(records, prev, BLANK) == image;
      FlushLands(m, start, s, h, image);
    } else {
      var r, rest := records[0], records[1..];
      assert records == [r] + rest;
      var more := Fill(Gap(r, prev), BLANK) + r.data;
      assert image + Assemble(records, prev, BLANK) == (image + more) + Assemble(rest, After(r), BLANK);
      RecordLands(m, start, s, h, image, r, prev, rest);
      var h' := if r.addr == prev then h else JumpShape(h, Gap(r, prev));
      RecordsLand(m, start, ReceiveRecord(s, r, prev), BytesShape(h', |r.data|), image + more, rest, After(r));
    }
  }

  lemma FlushLands(m: Mem, start: nat, s: Stream, h: Shape, image: seq<Byte>)
    requires Sized(s, h) && Landing(m, start, s, h, image) && EndFault(h) == None
    requires AllBlank(m, start, start + |image|)
    ensures s.count <= |image| && s.addr == start + (|image| - s.count)
    ensures Lands(Flushed(s, true), start, image) && Lands(Flushed(s, false), start, image[..|image| - s.count])
    ensures forall j, ready :: 0 <= j < |m| && !(start <= j < start + 256 * PageCount(|image|)) ==>
      Flushed(s, ready)[j] == m[j]
  {
    hide Fits, Programmed, PageCount, EndFault;
    InLastPage(h.n, 0, 0);
    if s.count > 0 {
      forall j: nat | j < |m|
        ensures start <= j < start + h.n ==> Programmed(s.mem, s.addr, s.current, 0)[j] == image[j - start]
        ensures !(start <= j < start + 256 * PageCount(h.n)) ==> Programmed(s.mem, s.addr, s.current, 0)[j] == m[j]
      {
        LastPageLands(m, start, s, h, image, j);
      }
    }
  }

  lemma LastPageLands(m: Mem, start: nat, s: Stream, h: Shape, image: seq<Byte>, j: nat)
    requires Sized(s, h) && Landing(m, start, s, h, image) && EndFault(h) == None && s.count > 0 && j < |m|
    requires AllBlank(m, start, start + |image|)
    ensures start <= j < start + h.n ==> Programmed(s.mem, s.addr, s.current, 0)[j] == image[j - start]
    ensures !(start <= j < start + 256 * PageCount(h.n)) ==> Programmed(s.mem, s.addr, s.current, 0)[j] == m[j]
  {
    hide Fits, Programmed, PageCount;
    var full, len := h.n - h.count, if h.count > h.cur.len then h.count else h.cur.len;
    PageLands(m, s.mem, start, full, s.current, h.count, len, j);
    InLastPage(full, h.count, len);
  }

  lemma InLastPage(full: nat, count: nat, len: nat)
    requires count == 0 ==> len == 0
    requires (count > 0 ==> Fits(full, len)) && len <= 256
    ensures full + len <= 256 * PageCount(full + count)
  {
  }

  // ---------- other loads do not, for some data ----------

  lemma ProgramKeepsZero(m: Mem, addr: nat, src: seq<Byte>, a: nat)
    requires |src| == 256 && a < |m| && m[a] == 0
    ensures Programmed(m, addr, src, 0)[a] == 0
  {
    AndZero(src[if addr <= a < addr + 256 then a - addr else 0]);
  }

  lemma AndZero(b: Byte)
    ensures 0 & b == 0 && b & 0 == 0
  {
  }

  lemma {:induction false} BytesKeepZero(s: Stream, data: seq<Byte>, a: nat)
    requires s.count < 256 && a < |s.mem| && s.mem[a] == 0
    ensures ReceiveBytes(s, data).mem[a] == 0
  {
    hide Programmed;
    if data != [] {
      var n := |data| - 1;
      BytesKeepZero(s, data[..n], a);
      var t := ReceiveBytes(s, data[..n]);
      ProgramKeepsZero(t.mem, t.addr, t.current[t.count := data[n]], a);
    }
  }

  lemma JumpKeepsZero(s: Stream, gap: nat, a: nat)
    requires s.count < 256 && a < |s.mem| && s.mem[a] == 0
    ensures ReceiveJump(s, gap).mem[a] == 0
  {
    hide Programmed;
    ProgramKeepsZero(s.mem, s.addr, Topped(s.current, s.count), a);
  }

  lemma {:induction false} RecordsKeepZero(s: Stream, records: seq<Record>, prev: Uint32, a: nat)
    requires s.count < 256 && a < |s.mem| && s.mem[a] == 0
    ensures Flushed(ReceiveRecords(s, records, prev), true)[a] == 0
    decreases records
  {
    hide Programmed, ReceiveBytes, ReceiveJump;
    if records == [] {
      ProgramKeepsZero(s.mem, s.addr, s.current, a);
    } else {
      var r := records[0];
      JumpKeepsZero(s, Gap(r, prev), a);
      BytesKeepZero(if r.addr == prev then s else ReceiveJump(s, Gap(r, prev)), r.data, a);
      RecordsKeepZero(ReceiveRecord(s, r, prev), records[1..], After(r), a);
    }
  }

  /** Data chosen by image offset, and the first contents of the slots. */
  datatype Choice = Choice(byteAt: nat -> Byte, first: Slot, second: Slot)

  /** Everything FF but the one byte that the faulty page takes to the wrong place. */
  ghost predicate Blames(c: Choice, f: Fault) {
    && (forall x :: c.byteAt(x) == if f.source.Sent? && x == f.source.at + f.k then 0 else BLANK)
    && (forall i :: 0 <= i < 256 ==> c.first[i] == if f.source == Initial(0) && i == f.k then 0 else BLANK)
    && (forall i :: 0 <= i < 256 ==> c.second[i] == if f.source == Initial(1) && i == f.k then 0 else BLANK)
  }

  function PastCell(p: Past, i: nat, c: Choice): Byte
    requires i < 256
  {
    if i >= p.len then BLANK
    else match p.source
      case Sent(at) => c.byteAt(at + i)
      case Initial(slot) => if slot == 0 then c.first[i] else c.second[i]
  }

  predicate PastOk(p: Past) {
    p.len <= 256 && match p.source
      case Sent(at) => Fits(at, p.len)
      case Initial(slot) => slot <= 1
  }

  /** The slots hold what the choice put there. */
  ghost predicate Tracks(start: nat, s: Stream, h: Shape, image: seq<Byte>, c: Choice) {
    && start % 256 == 0 && start + |image| <= |s.mem| <= 0x1000_0000
    && |image| == h.n && Sized(s, h) && s.addr == start + (h.n - h.count)
    && PastOk(h.cur) && PastOk(h.other)
    && (forall x :: 0 <= x < h.n ==> image[x] == c.byteAt(x) || image[x] == BLANK)
    && (forall i :: 0 <= i < h.count ==> s.current[i] == c.byteAt(h.n - h.count + i))
    && (forall i :: h.count <= i < 256 ==> s.current[i] == PastCell(h.cur, i, c))
    && (forall i :: 0 <= i < 256 ==> s.other[i] == PastCell(h.other, i, c))
  }

  /** The address that the faulty page spoils, as an image offset. */
  function Spoiled(f: Fault): int {
    f.full + f.k - 256
  }

  lemma PageSpoils(mem: Mem, start: nat, full: nat, slot: Slot, count: nat, len: nat, past: Past, image: seq<Byte>,
                   c: Choice)
    requires start % 256 == 0 && start + full <= |mem| && full <= |image| && count <= len <= 256
    requires !Fits(full, len) && PastOk(past) && (len <= count || len == past.len)
    requires var f := PageFault(full, count, len, past).value; Blames(c, f)
    requires forall x :: 0 <= x < |image| ==> image[x] == c.byteAt(x) || image[x] == BLANK
    requires forall i :: 0 <= i < count ==> slot[i] == c.byteAt(full + i)
    requires forall i :: count <= i < len ==> slot[i] == PastCell(past, i, c)
    ensures var f := PageFault(full, count, len, past).value; var y := Spoiled(f);
      && 0 <= y < full && image[y] == BLANK && Programmed(mem, start + full, slot, 0)[start + y] == 0
  {
    hide Programmed, Blames;
    var f := PageFault(full, count, len, past).value;
    WrapsTo(mem, start, full, slot, f.k);
    assert slot[f.k] == 0 by { BlamedCell(full, count, len, past, c); }
    AndZero(mem[start + Spoiled(f)]);
    NotItsOwnPlace(full, count, len, past);
    assert c.byteAt(Spoiled(f)) == BLANK by { Elsewhere(c, f, Spoiled(f)); }
  }

  /** A cell that does not fit hits its page 256 bytes too early. */
  lemma WrapsTo(mem: Mem, start: nat, full: nat, slot: Slot, k: nat)
    requires start % 256 == 0 && start + full <= |mem| && k < 256 <= full % 256 + k
    ensures var y := full + k - 256; 0 <= y < full
    ensures var y := full + k - 256; Programmed(mem, start + full, slot, 0)[start + y] == mem[start + y] & slot[k]
  {
    SameOffset(start, full);
    ProgramWraps(mem, start + full, slot, k);
  }

  lemma SameOffset(start: nat, full: nat)
    requires start % 256 == 0
    ensures (start + full) % 256 == full % 256 <= full
  {
  }

  lemma ProgramWraps(mem: Mem, addr: nat, slot: Slot, k: nat)
    requires addr <= |mem| && k < 256 <= addr % 256 + k && addr % 256 <= addr
    ensures Programmed(mem, addr, slot, 0)[addr + k - 256] == mem[addr + k - 256] & slot[k]
  {
    assert 256 - (addr - (addr + k - 256)) == k;
  }

  lemma BlamedCell(full: nat, count: nat, len: nat, past: Past, c: Choice)
    requires count <= len <= 256 && !Fits(full, len) && PastOk(past) && (len <= count || len == past.len)
    requires var f := PageFault(full, count, len, past).value; Blames(c, f)
    ensures if len - 1 < count then c.byteAt(full + (len - 1)) == 0 else PastCell(past, len - 1, c) == 0
  {
  }

  lemma Elsewhere(c: Choice, f: Fault, x: nat)
    requires Blames(c, f) && (f.source.Sent? ==> x != f.source.at + f.k)
    ensures c.byteAt(x) == BLANK
  {
  }

  /** The misplaced byte is not one that belongs where it lands. */
  lemma NotItsOwnPlace(full: nat, count: nat, len: nat, past: Past)
    requires count <= len <= 256 && !Fits(full, len) && PastOk(past) && (len <= count || len == past.len)
    ensures var f := PageFault(full, count, len, past).value; f.source.Sent? ==> f.source.at + f.k != Spoiled(f)
  {
  }

  ghost predicate Spoilt(mem: Mem, start: nat, image: seq<Byte>, f: Fault) {
    && 0 <= Spoiled(f) < |image| && start + |image| <= |mem|
    && image[Spoiled(f)] == BLANK && mem[start + Spoiled(f)] == 0
  }

  lemma ByteGoes(start: nat, s: Stream, h: Shape, image: seq<Byte>, c: Choice, b: Byte)
    requires Sized(s, h) && Tracks(start, s, h, image, c) && start + |image| + 1 <= |s.mem| && b == c.byteAt(h.n)
    ensures ByteFault(h) == None ==> Tracks(start, ReceiveByte(s, b), ByteShape(h), image + [b], c)
    ensures match ByteFault(h)
      case None => true
      case Some(f) => Blames(c, f) ==> Spoilt(ReceiveByte(s, b).mem, start, image + [b], f)
  {
    hide Programmed, Blames;
    if h.count == 255 {
      if ByteFault(h).Some? && Blames(c, ByteFault(h).value) {
        FullSlotSpoils(start, s, h, image, c, b);
      }
    }
  }

  lemma FullSlotSpoils(start: nat, s: Stream, h: Shape, image: seq<Byte>, c: Choice, b: Byte)
    requires Sized(s, h) && Tracks(start, s, h, image, c) && start + |image| + 1 <= |s.mem| && b == c.byteAt(h.n)
    requires h.count == 255 && ByteFault(h).Some? && Blames(c, ByteFault(h).value)
    ensures Spoilt(ReceiveByte(s, b).mem, start, image + [b], ByteFault(h).value)
  {
    hide Fits, Programmed, Blames;
    var filled: Slot := s.current[255 := b];
    PageSpoils(s.mem, start, h.n - 255, filled, 256, 256, h.cur, image + [b], c);
  }

  lemma {:induction false} BytesGo(start: nat, s: Stream, h: Shape, image: seq<Byte>, c: Choice, data: seq<Byte>)
    requires Sized(s, h) && Tracks(start, s, h, image, c) && start + |image| + |data| <= |s.mem|
    requires forall i :: 0 <= i < |data| ==> data[i] == c.byteAt(h.n + i)
    ensures Sized(ReceiveBytes(s, data), BytesShape(h, |data|))
    ensures BytesFault(h, |data|) == None ==>
      Tracks(start, ReceiveBytes(s, data), BytesShape(h, |data|), image + data, c)
    ensures match BytesFault(h, |data|)
      case None => true
      case Some(f) => Blames(c, f) ==> Spoilt(ReceiveBytes(s, data).mem, start, image + data, f)
  {
    hide Tracks, ByteFault, ByteShape, ReceiveByte, Blames;
    if data == [] {
      assert image + data == image;
    } else {
      var n := |data| - 1;
      assert image + data == image + data[..n] + [data[n]];
      BytesGo(start, s, h, image, c, data[..n]);
      StaysSized(ReceiveBytes(s, data[..n]), BytesShape(h, n), data[n]);
      var t := ReceiveBytes(s, data[..n]);
      if BytesFault(h, n) == None {
        ByteGoes(start, t, BytesShape(h, n), image + data[..n], c, data[n]);
      } else if Blames(c, BytesFault(h, n).value) {
        OneByteKeepsZero(t, data[n], start + Spoiled(BytesFault(h, n).value));
      }
    }
  }

  lemma StaysSized(s: Stream, h: Shape, b: Byte)
    requires Sized(s, h)
    ensures Sized(ReceiveByte(s, b), ByteShape(h))
  {
    hide Programmed;
  }

  lemma OneByteKeepsZero(s: Stream, b: Byte, a: nat)
    requires s.count < 256 && a < |s.mem| && s.mem[a] == 0
    ensures ReceiveByte(s, b).mem[a] == 0
  {
    hide Programmed;
    ProgramKeepsZero(s.mem, s.addr, s.current[s.count := b], a);
  }

  lemma JumpGoes(start: nat, s: Stream, h: Shape, image: seq<Byte>, c: Choice, gap: nat)
    requires Sized(s, h) && Tracks(start, s, h, image, c) && start + |image| + gap <= |s.mem|
    ensures Sized(ReceiveJump(s, gap), JumpShape(h, gap))
    ensures JumpFault(h) == None ==> Tracks(start, ReceiveJump(s, gap), JumpShape(h, gap), image + Fill(gap, BLANK), c)
    ensures match JumpFault(h)
      case None => true
      case Some(f) => Blames(c, f) ==> Spoilt(ReceiveJump(s, gap).mem, start, image + Fill(gap, BLANK), f)
  {
    hide Tracks, JumpFault, JumpShape, ReceiveJump, Blames, Spoilt;
    match JumpFault(h)
    case None =>
      JumpTracks(start, s, h, image, c, gap);
    case Some(f) =>
      JumpSized(s, h, gap);
      if Blames(c, f) {
        JumpSpoils(start, s, h, image, c, gap);
      }
  }

  lemma JumpTracks(start: nat, s: Stream, h: Shape, image: seq<Byte>, c: Choice, gap: nat)
    requires Sized(s, h) && Tracks(start, s, h, image, c) && start + |image| + gap <= |s.mem| && JumpFault(h) == None
    ensures Sized(ReceiveJump(s, gap), JumpShape(h, gap))
    ensures Tracks(start, ReceiveJump(s, gap), JumpShape(h, gap), image + Fill(gap, BLANK), c)
  {
    hide Programmed, Wrap32, Topped;
    NoWrapAt(s.addr + s.count + gap);
    if s.count > 0 {
      forall i | 0 <= i < 256
        ensures Topped(s.current, s.count)[i] == PastCell(Past(Sent(h.n - h.count), h.count), i, c)
      {
        ToppedAt(s.current, s.count, i);
      }
    }
    forall x | h.n <= x < h.n + gap ensures (image + Fill(gap, BLANK))[x] == BLANK {
    }
  }

  lemma JumpSized(s: Stream, h: Shape, gap: nat)
    requires Sized(s, h)
    ensures Sized(ReceiveJump(s, gap), JumpShape(h, gap))
  {
  }

  lemma ToppedAt(slot: Slot, count: nat, i: nat)
    requires count <= 256 && i < 256
    ensures Topped(slot, count)[i] == if i < count then slot[i] else BLANK
  {
  }

  lemma JumpSpoils(start: nat, s: Stream, h: Shape, image: seq<Byte>, c: Choice, gap: nat)
    requires Sized(s, h) && Tracks(start, s, h, image, c) && start + |image| + gap <= |s.mem|
    requires JumpFault(h).Some? && Blames(c, JumpFault(h).value)
    ensures Spoilt(ReceiveJump(s, gap).mem, start, image + Fill(gap, BLANK), JumpFault(h).value)
  {
    hide Fits, Programmed, Blames, Wrap32;
    PageSpoils(s.mem, start, h.n - h.count, Topped(s.current, s.count), h.count, h.count, h.cur, image, c);
  }

  lemma EndGoes(start: nat, s: Stream, h: Shape, image: seq<Byte>, c: Choice)
    requires Sized(s, h) && Tracks(start, s, h, image, c) && EndFault(h).Some? && Blames(c, EndFault(h).value)
    ensures Spoilt(Flushed(s, true), start, image, EndFault(h).value)
  {
    hide Fits, Programmed, Blames;
    var len := if h.count > h.cur.len then h.count else h.cur.len;
    PageSpoils(s.mem, start, h.n - h.count, s.current, h.count, len, h.cur, image, c);
  }

  /** The records carry the chosen data. */
  ghost predicate Carry(records: seq<Record>, prev: Uint32, n: nat, c: Choice)
    decreases records
  {
    records != [] ==>
      var r := records[0];
      var at := n + Gap(r, prev);
      && (forall i :: 0 <= i < |r.data| ==> r.data[i] == c.byteAt(at + i))
      && Carry(records[1..], After(r), at + |r.data|, c)
  }

  /** A fault spoils the image, when the data are chosen to show it. */
  lemma {:induction false} RecordsSpoil(start: nat, s: Stream, h: Shape, image: seq<Byte>, c: Choice,
                                        records: seq<Record>, prev: Uint32, f: Fault)
    requires Sized(s, h) && Tracks(start, s, h, image, c) && Carry(records, prev, h.n, c)
    requires FirstFault(records, prev, h) == Some(f) && Blames(c, f)
    requires start + |image + Assemble(records, prev, BLANK)| <= |s.mem| && |image| == h.n
    ensures Spoilt(Flushed(ReceiveRecords(s, records, prev), true), start, image + Assemble(records, prev, BLANK), f)
    decreases records, 0
  {
    hide Tracks, BytesShape, JumpShape, JumpFault, BytesFault, ReceiveJump, ReceiveBytes, ReceiveRecords, After,
      Flushed, EndFault, Blames, Spoilt;
    if records == [] {
      assert image + Assemble(records, prev, BLANK) == image;
      assert ReceiveRecords(s, records, prev) == s by { NoMoreRecords(s, prev); }
      EndGoes(start, s, h, image, c);
    } else {
      var r, rest := records[0], records[1..];
      var gap := Fill(Gap(r, prev), BLANK);
      assert image + Assemble(records, prev, BLANK) == ((image + gap) + r.data) + Assemble(rest, After(r), BLANK);
      OneMoreRecord(s, records, prev);
      if r.addr == prev {
        assert image + gap == image;
        DataSpoils(start, s, h, image, c, r, rest, f);
      } else {
        JumpGoes(start, s, h, image, c, |gap|);
        var t := ReceiveJump(s, |gap|);
        if JumpFault(h).Some? {
          SpoiltStays(start, t, image + gap, r.data, rest, After(r), f);
        } else {
          DataSpoils(start, t, JumpShape(h, |gap|), image + gap, c, r, rest, f);
        }
      }
    }
  }

  /** The same from the data of the first record on. */
  lemma DataSpoils(start: nat, s: Stream, h: Shape, image: seq<Byte>, c: Choice, r: Record, rest: seq<Record>, f: Fault)
    requires Sized(s, h) && Tracks(start, s, h, image, c) && |image| == h.n && Blames(c, f)
    requires forall i :: 0 <= i < |r.data| ==> r.data[i] == c.byteAt(h.n + i)
    requires Carry(rest, After(r), h.n + |r.data|, c)
    requires start + |(image + r.data) + Assemble(rest, After(r), BLANK)| <= |s.mem|
    requires if BytesFault(h, |r.data|).Some? then BytesFault(h, |r.data|) == Some(f)
             else FirstFault(rest, After(r), BytesShape(h, |r.data|)) == Some(f)
    ensures Spoilt(Flushed(ReceiveRecords(ReceiveBytes(s, r.data), rest, After(r)), true), start,
                   (image + r.data) + Assemble(rest, After(r), BLANK), f)
    decreases rest, 1
  {
    hide Tracks, BytesShape, BytesFault, ReceiveBytes, ReceiveRecords, After, Flushed, Blames, Spoilt, FirstFault,
      Carry;
    BytesGo(start, s, h, image, c, r.data);
    var t := ReceiveBytes(s, r.data);
    if BytesFault(h, |r.data|).Some? {
      assert t == ReceiveBytes(t, []) by { NoMoreBytes(t); }
      assert (image + r.data) + [] == image + r.data;
      SpoiltStays(start, t, image + r.data, [], rest, After(r), f);
    } else {
      RecordsSpoil(start, t, BytesShape(h, |r.data|), image + r.data, c, rest, After(r), f);
    }
  }

  lemma NoMoreBytes(s: Stream)
    requires s.count < 256
    ensures ReceiveBytes(s, []) == s
  {
  }

  lemma NoMoreRecords(s: Stream, prev: Uint32)
    requires s.count < 256
    ensures ReceiveRecords(s, [], prev) == s
  {
  }

  lemma OneMoreRecord(s: Stream, records: seq<Record>, prev: Uint32)
    requires s.count < 256 && records != []
    ensures ReceiveRecords(s, records, prev)
      == ReceiveRecords(ReceiveRecord(s, records[0], prev), records[1..], After(records[0]))
  {
  }

  /** A spoilt byte stays wrong, whatever follows. */
  lemma SpoiltStays(start: nat, s: Stream, image: seq<Byte>, data: seq<Byte>, rest: seq<Record>, prev: Uint32, f: Fault)
    requires s.count < 256 && Spoilt(s.mem, start, image, f)
    requires start + |(image + data) + Assemble(rest, prev, BLANK)| <= |s.mem|
    ensures Spoilt(Flushed(ReceiveRecords(ReceiveBytes(s, data), rest, prev), true), start,
                   (image + data) + Assemble(rest, prev, BLANK), f)
  {
    hide ReceiveBytes, ReceiveRecords, Flushed, Assemble;
    BytesKeepZero(s, data, start + Spoiled(f));
    RecordsKeepZero(ReceiveBytes(s, data), rest, prev, start + Spoiled(f));
  }

  // ---------- the exact condition ----------

  /** The same addresses and lengths, with the chosen data. */
  function Chosen(shape: seq<Record>, prev: Uint32, n: nat, c: Choice): seq<Record>
    decreases shape
  {
    if shape == [] then []
    else
      var r := shape[0];
      var at := n + Gap(r, prev);
      [Record(r.addr, seq(|r.data|, i requires 0 <= i => c.byteAt(at + i)))]
      + Chosen(shape[1..], After(r), at + |r.data|, c)
  }

  lemma {:induction false} ChosenCarry(shape: seq<Record>, prev: Uint32, n: nat, c: Choice)
    ensures SameShape(Chosen(shape, prev, n, c), shape) && Carry(Chosen(shape, prev, n, c), prev, n, c)
    decreases shape
  {
    if shape != [] {
      var r := shape[0];
      var at := n + Gap(r, prev);
      ChosenCarry(shape[1..], After(r), at + |r.data|, c);
      assert Chosen(shape, prev, n, c)[1..] == Chosen(shape[1..], After(r), at + |r.data|, c);
    }
  }

  /** Faults and image length depend on addresses and lengths only. */
  lemma {:induction false} SameFaults(a: seq<Record>, b: seq<Record>, prev: Uint32, h: Shape)
    requires SameShape(a, b) && h.count <= h.n && h.count < 256
    ensures FirstFault(a, prev, h) == FirstFault(b, prev, h) && |Assemble(a, prev, BLANK)| == |Assemble(b, prev, BLANK)|
    decreases a
  {
    hide JumpShape, BytesShape, JumpFault, BytesFault, EndFault;
    if a != [] {
      var h' := if a[0].addr == prev then h else JumpShape(h, Gap(a[0], prev));
      SameFaults(a[1..], b[1..], After(a[0]), BytesShape(h', |a[0].data|));
    }
  }

  /** FF everywhere, but a zero in the byte that the first fault of the shape moves to an earlier place. */
  function FaultChoice(shape: seq<Record>, prev: Uint32): Choice
    requires !Clean(shape, prev)
  {
    var f := FirstFault(shape, prev, BEGIN).value;
    Choice(x => if f.source.Sent? && x == f.source.at + f.k then 0 else BLANK,
           seq(256, i => if f.source == Initial(0) && i == f.k then 0 else BLANK),
           seq(256, i => if f.source == Initial(1) && i == f.k then 0 else BLANK))
  }

  /** The records of the shape with these bytes. */
  function FaultRecords(shape: seq<Record>, prev: Uint32): (records: seq<Record>)
    requires !Clean(shape, prev)
    ensures |records| == |shape|
  {
    ChosenCarry(shape, prev, 0, FaultChoice(shape, prev));
    Chosen(shape, prev, 0, FaultChoice(shape, prev))
  }

  /** With these data and first slot contents the load of records of this shape onto blank flash goes wrong. */
  lemma FaultyLoad(shape: seq<Record>, prev: Uint32, start: nat, size: nat)
    requires start % 256 == 0 && start + |Assemble(shape, prev, BLANK)| <= size <= 0x1000_0000 && !Clean(shape, prev)
    ensures var c, records := FaultChoice(shape, prev), FaultRecords(shape, prev);
      var s := ReceiveRecords(Stream(Fill(size, BLANK), start, c.first, c.second, 0), records, prev);
      && SameShape(records, shape) && !Lands(Flushed(s, true), start, Assemble(records, prev, BLANK))
  {
    hide FirstFault, Carry, Chosen, ReceiveRecords, Assemble, Flushed;
    var f, c, records := FirstFault(shape, prev, BEGIN).value, FaultChoice(shape, prev), FaultRecords(shape, prev);
    ChosenCarry(shape, prev, 0, c);
    SameFaults(records, shape, prev, BEGIN);
    var s := Stream(Fill(size, BLANK), start, c.first, c.second, 0);
    assert [] + Assemble(records, prev, BLANK) == Assemble(records, prev, BLANK);
    RecordsSpoil(start, s, BEGIN, [], c, records, prev, f);
  }

  lemma CleanLoadLands(records: seq<Record>, prev: Uint32, start: nat, m: Mem, first: Slot, second: Slot)
    requires start % 256 == 0 && Clean(records, prev)
    requires var image := Assemble(records, prev, BLANK);
      start + |image| <= |m| <= 0x1000_0000 && AllBlank(m, start, start + |image|)
    ensures var image := Assemble(records, prev, BLANK);
      var s := ReceiveRecords(Stream(m, start, first, second, 0), records, prev);
      && s.count <= |image| && s.addr == start + (|image| - s.count)
      && Lands(Flushed(s, true), start, image)
      && Lands(Flushed(s, false), start, image[..|image| - s.count])
      && (forall j, ready :: 0 <= j < |m| && !(start <= j < start + 256 * PageCount(|image|)) ==>
            Flushed(s, ready)[j] == m[j])
  {
    hide FirstFault, ReceiveRecords, Assemble, Flushed, Lands, PageCount;
    assert [] + Assemble(records, prev, BLANK) == Assemble(records, prev, BLANK);
    RecordsLand(m, start, Stream(m, start, first, second, 0), BEGIN, [], records, prev);
  }

  /**
   From a page boundary, with a ready device at the end: every load of records with these addresses and lengths lands,
   whatever the data, the rest of the flash and the slots hold, if and only if the shape is clean.
   */
  lemma LandsIffClean(shape: seq<Record>, prev: Uint32, start: nat, size: nat)
    requires start % 256 == 0 && start + |Assemble(shape, prev, BLANK)| <= size <= 0x1000_0000
    ensures Clean(shape, prev) <==>
      forall records: seq<Record>, m: Mem, first: Slot, second: Slot ::
        SameShape(records, shape) && |m| == size && AllBlank(m, start, start + |Assemble(shape, prev, BLANK)|)
        ==> Lands(Flushed(ReceiveRecords(Stream(m, start, first, second, 0), records, prev), true), start,
                  Assemble(records, prev, BLANK))
  {
    hide FirstFault, ReceiveRecords, Assemble, Flushed, Lands, PageCount, Programmed;
    if Clean(shape, prev) {
      forall records: seq<Record>, m: Mem, first: Slot, second: Slot |
        SameShape(records, shape) && |m| == size && AllBlank(m, start, start + |Assemble(shape, prev, BLANK)|)
        ensures Lands(Flushed(ReceiveRecords(Stream(m, start, first, second, 0), records, prev), true), start,
                      Assemble(records, prev, BLANK))
      {
        SameFaults(records, shape, prev, BEGIN);
        CleanLoadLands(records, prev, start, m, first, second);
      }
    } else {
      FaultyLoad(shape, prev, start, size);
      var records, c := FaultRecords(shape, prev), FaultChoice(shape, prev);
      var m: Mem := Fill(size, BLANK);
      assert SameShape(records, shape) && |m| == size && AllBlank(m, start, start + |Assemble(shape, prev, BLANK)|);
    }
  }

  // ---------- simple sufficient and other cases ----------

  /** Every jump lands a whole number of pages after the start of the image; n bytes precede. */
  predicate PageGaps(records: seq<Record>, prev: Uint32, n: nat)
    decreases records
  {
    records != [] ==>
      && (records[0].addr == prev || (n + Gap(records[0], prev)) % 256 == 0)
      && PageGaps(records[1..], After(records[0]), n + Gap(records[0], prev) + |records[0].data|)
  }

  lemma PageGapsAreClean(records: seq<Record>, prev: Uint32)
    requires PageGaps(records, prev, 0)
    ensures Clean(records, prev)
  {
    NoFaults(records, prev, BEGIN);
  }

  lemma {:induction false} NoFaults(records: seq<Record>, prev: Uint32, h: Shape)
    requires h.count <= h.n && h.count < 256 && (h.n - h.count) % 256 == 0 && PageGaps(records, prev, h.n)
    ensures FirstFault(records, prev, h) == None
    decreases records
  {
    if records != [] {
      var h' := if records[0].addr == prev then h else JumpShape(h, Gap(records[0], prev));
      NoByteFaults(h', |records[0].data|);
      NoFaults(records[1..], After(records[0]), BytesShape(h', |records[0].data|));
    }
  }

  lemma {:induction false} NoByteFaults(h: Shape, k: nat)
    requires h.count <= h.n && h.count < 256 && (h.n - h.count) % 256 == 0
    ensures BytesFault(h, k) == None
    ensures var r := BytesShape(h, k); (r.n - r.count) % 256 == 0
  {
    if k > 0 {
      NoByteFaults(h, k - 1);
    }
  }

  /** A run inside a page that the next jump closes does no harm. */
  lemma CleanWithoutPageGaps(b0: Byte, b1: Byte, b2: Byte)
    ensures var records := [Record(0, [b0]), Record(2, [b1]), Record(256, [b2])];
      Clean(records, 0) && !PageGaps(records, 0, 0)
  {
    hide FirstFault, BytesShape, BytesFault, PageGaps;
    var r0, r1, r2 := Record(0, [b0]), Record(2, [b1]), Record(256, [b2]);
    var initial, used := Past(Initial(0), 256), Past(Initial(1), 256);
    OneByteRecord(r0, [r1, r2], 0, BEGIN, Shape(1, 1, initial, used));
    OneByteRecord(r1, [r2], 1, Shape(1, 1, initial, used), Shape(3, 1, used, Past(Sent(0), 1)));
    var end := Shape(257, 1, Past(Sent(0), 1), Past(Sent(2), 1));
    OneByteRecord(r2, [], 3, Shape(3, 1, used, Past(Sent(0), 1)), end);
    assert [r0, r1, r2] == [r0] + [r1, r2] && [r1, r2] == [r1] + [r2] && [r2] == [r2] + [];
    NoRecordsLeft(257, end);
    OffPage(r0, r1, [r2]);
    assert [r0, r1] + [r2] == [r0, r1, r2];
  }

  lemma OneByteRecord(r: Record, rest: seq<Record>, prev: Uint32, h: Shape, h': Shape)
    requires |r.data| == 1 && h.count <= h.n && h.count < 256
    requires var j := if r.addr == prev then h else JumpShape(h, Gap(r, prev));
      j.count == 0 && h' == j.(n := j.n + 1, count := 1) && (r.addr != prev ==> JumpFault(h) == None)
    ensures FirstFault([r] + rest, prev, h) == FirstFault(rest, After(r), h')
  {
    hide JumpFault, JumpShape, EndFault;
    var j := if r.addr == prev then h else JumpShape(h, Gap(r, prev));
    assert BytesShape(j, 0) == j && BytesFault(j, 0) == None;
    assert ([r] + rest)[1..] == rest;
  }

  lemma NoRecordsLeft(prev: Uint32, h: Shape)
    requires h.count <= h.n && h.count < 256
    ensures FirstFault([], prev, h) == EndFault(h)
  {
  }

  lemma OffPage(r0: Record, r1: Record, rest: seq<Record>)
    requires r0.addr == 0 && |r0.data| == 1 && r1.addr == 2
    ensures !PageGaps([r0, r1] + rest, 0, 0)
  {
    assert ([r0, r1] + rest)[1..][0] == r1;
    assert After(r0) == 1 && Gap(r1, 1) == 1;
  }

  // ---------- printed streams ----------

  /** The lines with other records of the same shape. */
  function Refilled(lines: seq<Line>, records: seq<Record>): seq<Line>
    requires |records| == |RecordsOf(lines)|
  {
    if lines == [] then []
    else if lines[0].Data? then [lines[0].(record := records[0])] + Refilled(lines[1..], records[1..])
    else [lines[0]] + Refilled(lines[1..], records)
  }

  lemma {:induction false} RefilledLines(lines: seq<Line>, records: seq<Record>)
    requires SameShape(records, RecordsOf(lines)) && forall i :: 0 <= i < |lines| ==> ValidLine(lines[i])
    ensures RecordsOf(Refilled(lines, records)) == records
    ensures forall i :: 0 <= i < |Refilled(lines, records)| ==> ValidLine(Refilled(lines, records)[i])
  {
    hide ValidLine;
    if lines == [] {
    } else if lines[0].Data? {
      ShapeTail(lines, records);
      RefilledLines(lines[1..], records[1..]);
      StaysValid(lines[0], records[0]);
      ValidFrom(lines[0].(record := records[0]), Refilled(lines[1..], records[1..]));
    } else {
      RefilledLines(lines[1..], records);
      ValidFrom(lines[0], Refilled(lines[1..], records));
    }
  }

  lemma ShapeTail(lines: seq<Line>, records: seq<Record>)
    requires SameShape(records, RecordsOf(lines)) && lines != [] && lines[0].Data?
    ensures records != [] && SameShape(records[1..], RecordsOf(lines[1..]))
    ensures records[0].addr == lines[0].record.addr && |records[0].data| == |lines[0].record.data|
  {
    assert RecordsOf(lines) == [lines[0].record] + RecordsOf(lines[1..]);
    assert RecordsOf(lines)[1..] == RecordsOf(lines[1..]) && RecordsOf(lines)[0] == lines[0].record;
  }

  lemma ValidFrom(line: Line, lines: seq<Line>)
    requires ValidLine(line) && forall i :: 0 <= i < |lines| ==> ValidLine(lines[i])
    ensures forall i :: 0 <= i < |[line] + lines| ==> ValidLine(([line] + lines)[i])
  {
    hide ValidLine;
  }

  lemma StaysValid(line: Line, record: Record)
    requires line.Data? && ValidLine(line) && record.addr == line.record.addr && |record.data| == |line.record.data|
    ensures ValidLine(line.(record := record))
  {
  }

  /** The lines with the bytes that make the load fail. */
  function FaultLines(lines: seq<Line>, prev: Uint32): seq<Line>
    requires !Clean(RecordsOf(lines), prev)
  {
    Refilled(lines, FaultRecords(RecordsOf(lines), prev))
  }

  /** For lines whose shape is not clean there is a stream with these addresses and lengths that is loaded wrongly. */
  lemma FailingStream(lines: seq<Line>, e: Ender, prev: Uint32, start: nat, size: nat)
    requires (forall i :: 0 <= i < |lines| ==> ValidLine(lines[i])) && ValidEnder(e) && e.Ender?
    requires !Clean(RecordsOf(lines), prev)
    requires start % 256 == 0 && start + |Assemble(RecordsOf(lines), prev, BLANK)| <= size <= 0x1000_0000
    ensures var c, lines' := FaultChoice(RecordsOf(lines), prev), FaultLines(lines, prev);
      var scan := ScanFrom(Print(lines', e), 0);
      var s := Stream(Fill(size, BLANK), start, c.first, c.second, 0);
      && (forall i :: 0 <= i < |lines'| ==> ValidLine(lines'[i])) && SameShape(RecordsOf(lines'), RecordsOf(lines))
      && scan == Scan(RecordsOf(lines'), Done)
      && !Lands(Flushed(ReceiveRecords(s, scan.records, prev), true), start, Assemble(scan.records, prev, BLANK))
  {
    hide Clean, Assemble, ReceiveRecords, Flushed, Lands, Print, ScanFrom, RecordsOf, Refilled, ValidLine, ValidEnder;
    hide FaultChoice, FaultRecords;
    FaultyLoad(RecordsOf(lines), prev, start, size);
    var lines' := FaultLines(lines, prev);
    RefilledLines(lines, FaultRecords(RecordsOf(lines), prev));
    var t := Print(lines', e);
    assert t[0..|t|] == t;
    ScanInvertsPrint(t, 0, lines', e);
  }
}
