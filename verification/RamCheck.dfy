/**
 The byte-wise RAM march test (ddrcheck.c), run on a memory that may be faulty: several addresses may
 select the same cell, and any bit of any cell may be stuck at 0 or at 1.
 */
module RamCheck {

  /** A memory with an arbitrary address decoder and arbitrary stuck bits. */
  class Memory {
    const decode: seq<nat>      // the cell selected by each address
    const stuckHigh: seq<bv8>   // for each cell, the bits that always read 1
    const stuckLow: seq<bv8>    // for each cell, the bits that always read 0
    const cells: array<bv8>

    constructor (decode: seq<nat>, stuckHigh: seq<bv8>, stuckLow: seq<bv8>)
      requires |stuckHigh| == |stuckLow|
      requires forall a :: 0 <= a < |decode| ==> decode[a] < |stuckHigh|
      ensures Valid() && fresh(cells)
      ensures this.decode == decode && this.stuckHigh == stuckHigh && this.stuckLow == stuckLow
    {
      this.decode, this.stuckHigh, this.stuckLow := decode, stuckHigh, stuckLow;
      cells := new bv8[|stuckHigh|](_ => 0);
    }

    predicate Valid() {
      && |stuckHigh| == |stuckLow| == cells.Length
      && forall a :: 0 <= a < |decode| ==> decode[a] < cells.Length
    }

    /** What cell `c` shows when `v` was stored in it. A bit stuck both ways reads 0. */
    function Sense(c: nat, v: bv8): bv8
      requires Valid() && c < cells.Length
    {
      (v | stuckHigh[c]) & !stuckLow[c]
    }

    function Read(a: nat): bv8
      requires Valid() && a < |decode|
      reads cells
    {
      Sense(decode[a], cells[decode[a]])
    }

    /** The cells selected by the addresses of [start, stop). */
    ghost function Selected(start: nat, stop: nat): set<nat>
      requires stop <= |decode|
    {
      set a {:trigger decode[a]} | start <= a < stop :: decode[a]
    }

    /**
     The reading of one address in a pass that checks for `checkData` and then writes `writeData`: the check
     succeeds at `a`, where a cell already reached through a lower address stores `writeData` by then.
     */
    ghost predicate PassedAt(start: nat, a: nat, writeData: bv8, checkData: bv8)
      requires Valid() && a < |decode|
    {
      Sense(decode[a], if decode[a] in Selected(start, a) then writeData else checkData) == checkData
    }

    /** PassedAt for cells that stored `before` when the pass began. */
    ghost predicate ShownAt(start: nat, a: nat, writeData: bv8, before: seq<bv8>, checkData: bv8)
      requires Valid() && a < |decode| && |before| == cells.Length
    {
      Sense(decode[a], if decode[a] in Selected(start, a) then writeData else before[decode[a]]) == checkData
    }

    ghost predicate Injective(start: nat, stop: nat)
      requires stop <= |decode|
    {
      forall a, b :: start <= a < b < stop ==> decode[a] != decode[b]
    }

    /** The decoder is injective on [start, stop) and no bit selected there is stuck. */
    ghost predicate Faultless(start: nat, stop: nat)
      requires Valid() && stop <= |decode|
    {
      && Injective(start, stop)
      && (forall a :: start <= a < stop ==> stuckHigh[decode[a]] == 0 && stuckLow[decode[a]] == 0)
    }

    /** Every address of [start, stop) selects a cell that stores `v`. */
    ghost predicate Stores(start: nat, stop: nat, v: bv8)
      requires Valid() && stop <= |decode|
      reads cells
    {
      forall a :: start <= a < stop ==> cells[decode[a]] == v
    }

    /**
     Each cell selected from [start, stop) stores the value of a byte counter that was written through the last
     address that selects it.
     */
    ghost predicate Counts(start: nat, stop: nat, first: bv8)
      requires Valid() && stop <= |decode|
      reads cells
    {
      CountsIn(cells[..], start, stop, first)
    }

    ghost predicate CountsIn(content: seq<bv8>, start: nat, stop: nat, first: bv8)
      requires Valid() && stop <= |decode| && |content| == cells.Length
    {
      forall a :: start <= a < stop && decode[a] !in Selected(a + 1, stop) ==>
        content[decode[a]] == Counter(first, a - start)
    }

    lemma CountsNext(content: seq<bv8>, start: nat, p: nat, first: bv8)
      requires Valid() && start <= p < |decode| && |content| == cells.Length && CountsIn(content, start, p, first)
      ensures CountsIn(content[decode[p] := Counter(first, p - start)], start, p + 1, first)
    {
      hide Counter;
      forall a | start <= a < p && decode[a] !in Selected(a + 1, p + 1)
        ensures decode[a] != decode[p] && decode[a] !in Selected(a + 1, p)
      {
        assert forall b :: a + 1 <= b < p + 1 ==> decode[b] in Selected(a + 1, p + 1);
      }
    }

    /** Only cells selected by an address of [start, stop) differ from `before`. */
    ghost predicate OnlyTouches(start: nat, stop: nat, before: seq<bv8>)
      requires stop <= |decode| && |before| == cells.Length
      reads cells
    {
      forall c :: 0 <= c < cells.Length && c !in Selected(start, stop) ==> cells[c] == before[c]
    }

    /** A check-and-fill pass over [start, stop) that has reached `p`. */
    ghost predicate HalfFilled(start: nat, p: nat, stop: nat, writeData: bv8, before: seq<bv8>)
      requires Valid() && p <= stop <= |decode| && |before| == cells.Length
      reads cells
    {
      forall a :: start <= a < stop ==>
        cells[decode[a]] == (if decode[a] in Selected(start, p) then writeData else before[decode[a]])
    }

    method Write(a: nat, v: bv8)
      requires Valid() && a < |decode|
      modifies cells
      ensures cells[decode[a]] == v
      ensures forall c :: 0 <= c < cells.Length && c != decode[a] ==> cells[c] == old(cells[c])
    {
      cells[decode[a]] := v;
    }
  }

  /** Where the passes stop: whole blocks of 16 bytes, and always at least one. */
  function Stop(start: nat, end: nat): (stop: nat)
    ensures stop >= end && stop > start && (stop - start) % 16 == 0
    ensures stop == start + 16 || stop < end + 16
  {
    if end <= start then start + 16 else start + (end - start + 15) / 16 * 16
  }

  /** The test at the end of each turn of the unrolled loops. */
  predicate BlockDone(start: nat, p: nat, end: nat)
    requires start <= p
  {
    (p - start) % 16 == 0 && p >= end
  }

  lemma DoneAtStop(start: nat, p: nat, end: nat)
    requires start < p <= Stop(start, end)
    ensures BlockDone(start, p, end) <==> p == Stop(start, end)
  {
    var k, n := (p - start) / 16, (Stop(start, end) - start) / 16;
    assert Stop(start, end) == start + 16 * n;
    if (p - start) % 16 == 0 {
      assert p == start + 16 * k;
    }
  }

  /** The k-th value of a byte counter that starts at `first` and wraps. */
  function Counter(first: bv8, k: nat): bv8 {
    if k == 0 then first else Counter(first, k - 1) + 1
  }

  function ByteValue(v: bv8): nat {
    v as nat
  }

  lemma {:induction false} CounterIs(first: bv8, k: nat)
    ensures ByteValue(Counter(first, k)) == (ByteValue(first) + k) % 256
  {
    hide ByteValue, Counter;
    if k == 0 {
      CounterStarts(first);
      ByteFits(first);
    } else {
      CounterIs(first, k - 1);
      CounterNext(first, k - 1, Counter(first, k - 1));
      NextByte(Counter(first, k - 1));
      assert ((ByteValue(first) + k - 1) % 256 + 1) % 256 == (ByteValue(first) + k) % 256;
    }
  }

  lemma ByteFits(v: bv8)
    ensures ByteValue(v) < 256
  {
  }

  lemma ByteZero()
    ensures ByteValue(0) == 0
  {
  }

  lemma NextByte(v: bv8)
    ensures ByteValue(v + 1) == (ByteValue(v) + 1) % 256
  {
  }

  lemma CounterStarts(first: bv8)
    ensures Counter(first, 0) == first
  {
  }

  lemma CounterNext(first: bv8, k: nat, v: bv8)
    requires v == Counter(first, k)
    ensures Counter(first, k + 1) == v + 1 && (v + 1) - 1 == v
  {
  }

  class Checker {
    const mem: Memory
    var gSubErrAdd: nat
    var gSubErrData: bv8
    var gSubTrueData: bv8

    constructor (mem: Memory)
      ensures this.mem == mem
    {
      this.mem := mem;
      gSubErrAdd, gSubErrData, gSubTrueData := 0, 0, 0;
    }

    predicate Covers(start: nat, end: nat) {
      mem.Valid() && Stop(start, end) <= |mem.decode|
    }

    /** The globals describe a genuine mismatch inside the tested range. */
    predicate Reports(start: nat, end: nat)
      requires Covers(start, end)
      reads this, mem.cells
    {
      && start <= gSubErrAdd < Stop(start, end)
      && gSubErrData == mem.Read(gSubErrAdd)
      && gSubErrData != gSubTrueData
    }

    method FillData8Bit(start: nat, end: nat, writeData: bv8)
      requires Covers(start, end)
      modifies mem.cells
      ensures mem.Stores(start, Stop(start, end), writeData)
      ensures mem.OnlyTouches(start, Stop(start, end), old(mem.cells[..]))
    {
      hide Stop, BlockDone;
      var p := start;
      while true
        invariant start <= p < Stop(start, end)
        invariant mem.Stores(start, p, writeData)
        invariant mem.OnlyTouches(start, p, old(mem.cells[..]))
        decreases Stop(start, end) - p
      {
        mem.Write(p, writeData);
        p := p + 1;
        DoneAtStop(start, p, end);
        if BlockDone(start, p, end) {
          return;
        }
      }
    }

    /**
     Passes exactly when every address reads `checkData` at its turn, where a cell already visited through another
     address holds `writeData`.
     */
    method CheckAndFillData8Bit(start: nat, end: nat, writeData: bv8, checkData: bv8) returns (failed: bool)
      requires Covers(start, end)
      modifies this, mem.cells
      ensures !failed <==> forall a :: start <= a < Stop(start, end) ==>
        mem.ShownAt(start, a, writeData, old(mem.cells[..]), checkData)
      ensures !failed ==> mem.Stores(start, Stop(start, end), writeData)
      ensures failed ==> Reports(start, end) && gSubTrueData == checkData
      ensures mem.OnlyTouches(start, Stop(start, end), old(mem.cells[..]))
    {
      hide Stop, BlockDone;
      ghost var before := mem.cells[..];
      var p := start;
      while true
        invariant start <= p < Stop(start, end)
        invariant mem.HalfFilled(start, p, Stop(start, end), writeData, before)
        invariant forall a :: start <= a < p ==> mem.ShownAt(start, a, writeData, before, checkData)
        invariant mem.OnlyTouches(start, p, before)
        decreases Stop(start, end) - p
      {
        if mem.Read(p) != checkData {
          break;
        }
        mem.Write(p, writeData);
        p := p + 1;
        DoneAtStop(start, p, end);
        if BlockDone(start, p, end) {
          return false;
        }
      }
      assert !mem.ShownAt(start, p, writeData, before, checkData);
      gSubErrAdd, gSubErrData, gSubTrueData := p, mem.Read(p), checkData;
      return true;
    }

    method CheckData8Bit(start: nat, end: nat, checkData: bv8) returns (failed: bool)
      requires Covers(start, end)
      modifies this
      ensures !failed <==> forall a :: start <= a < Stop(start, end) ==> mem.Read(a) == checkData
      ensures failed ==> Reports(start, end) && gSubTrueData == checkData
    {
      hide Stop, BlockDone;
      var p := start;
      while true
        invariant start <= p < Stop(start, end)
        invariant forall a :: start <= a < p ==> mem.Read(a) == checkData
        decreases Stop(start, end) - p
      {
        p := p + 1;
        if mem.Read(p - 1) != checkData {
          break;
        }
        DoneAtStop(start, p, end);
        if BlockDone(start, p, end) {
          return false;
        }
      }
      p := p - 1;
      gSubErrAdd, gSubErrData, gSubTrueData := p, mem.Read(p), checkData;
      assert mem.Read(p) != checkData;
      return true;
    }

    method WriteIncData8Bit(start: nat, end: nat, first: bv8)
      requires Covers(start, end)
      modifies mem.cells
      ensures mem.Counts(start, Stop(start, end), first)
      ensures mem.OnlyTouches(start, Stop(start, end), old(mem.cells[..]))
    {
      hide Stop, BlockDone, Memory.Counts, Memory.OnlyTouches;
      var p, startData := start, first;
      NothingCounted(start, first);
      while true
        invariant start <= p < Stop(start, end)
        invariant startData == Counter(first, p - start)
        invariant mem.Counts(start, p, first)
        invariant mem.OnlyTouches(start, p, old(mem.cells[..]))
        decreases Stop(start, end) - p
      {
        WriteNext(start, p, Stop(start, end), first, startData, old(mem.cells[..]));
        p, startData := p + 1, startData + 1;
        DoneAtStop(start, p, end);
        if BlockDone(start, p, end) {
          return;
        }
      }
    }

    lemma NothingCounted(start: nat, first: bv8)
      requires mem.Valid() && start <= |mem.decode|
      ensures mem.Counts(start, start, first) && mem.OnlyTouches(start, start, mem.cells[..])
    {
    }

    /** One more value of the counter. */
    method WriteNext(start: nat, p: nat, ghost stop: nat, ghost first: bv8, v: bv8, ghost before: seq<bv8>)
      requires mem.Valid() && start <= p < stop <= |mem.decode| && |before| == mem.cells.Length
      requires v == Counter(first, p - start)
      requires mem.Counts(start, p, first) && mem.OnlyTouches(start, p, before)
      modifies mem.cells
      ensures mem.Counts(start, p + 1, first) && mem.OnlyTouches(start, p + 1, before)
    {
      hide Counter, Memory.Sense, Memory.CountsIn;
      mem.CountsNext(mem.cells[..], start, p, first);
      mem.Write(p, v);
      assert mem.cells[..] == old(mem.cells[..])[mem.decode[p] := v];
    }

    method CheckIncData8Bit(start: nat, end: nat, first: bv8) returns (failed: bool)
      requires Covers(start, end)
      modifies this
      ensures !failed <==> forall a :: start <= a < Stop(start, end) ==> mem.Read(a) == Counter(first, a - start)
      ensures failed ==> Reports(start, end) && gSubTrueData == Counter(first, gSubErrAdd - start)
    {
      hide Stop, BlockDone, Counter, Memory.Sense;
      CounterStarts(first);
      var p, startData := start, first;
      while true
        invariant start <= p < Stop(start, end)
        invariant startData == Counter(first, p - start)
        invariant forall a :: start <= a < p ==> mem.Read(a) == Counter(first, a - start)
        decreases Stop(start, end) - p
      {
        var shown, wanted := mem.Read(p), startData;
        CounterNext(first, p - start, startData);
        p, startData := p + 1, startData + 1;
        if shown != wanted {
          break;
        }
        DoneAtStop(start, p, end);
        if BlockDone(start, p, end) {
          return false;
        }
      }
      p, startData := p - 1, startData - 1;
      gSubErrAdd, gSubErrData, gSubTrueData := p, mem.Read(p), startData;
      assert mem.Read(p) != Counter(first, p - start);
      return true;
    }

    /**
     The whole march test. It passes exactly when the covered range is free of address-decoder faults and
     stuck bits, and it never changes a cell outside that range.
     */
    method TPRAMCK(start: nat, end: nat) returns (failed: bool)
      requires Covers(start, end)
      modifies this, mem.cells
      ensures !failed <==> mem.Faultless(start, Stop(start, end))
      ensures failed ==> Reports(start, end)
      ensures !failed ==> forall a :: start <= a < Stop(start, end) ==> ByteValue(mem.Read(a)) == (a - start) % 256
      ensures mem.OnlyTouches(start, Stop(start, end), old(mem.cells[..]))
    {
      hide Stop, Counter, Memory.Sense, Memory.PassedAt, Memory.ShownAt, Memory.Faultless, Memory.Counts,
        Memory.Stores, Memory.Injective;
      FillData8Bit(start, end, 0x00);
      StoredShown(mem, start, Stop(start, end), 0x55, 0x00);
      failed := CheckAndFillData8Bit(start, end, 0x55, 0x00);
      if failed { FaultFound(mem, start, Stop(start, end), 0x55, 0x00); return; }
      StoredShown(mem, start, Stop(start, end), 0xAA, 0x55);
      failed := CheckAndFillData8Bit(start, end, 0xAA, 0x55);
      if failed { FaultFound(mem, start, Stop(start, end), 0xAA, 0x55); return; }
      NoSharing(mem, start, Stop(start, end));
      StoredShown(mem, start, Stop(start, end), 0xFF, 0xAA);
      failed := CheckAndFillData8Bit(start, end, 0xFF, 0xAA);
      if failed { FaultFound(mem, start, Stop(start, end), 0xFF, 0xAA); return; }
      StoredReads(mem, start, Stop(start, end), 0xFF);
      failed := CheckData8Bit(start, end, 0xFF);
      if failed { return; }
      NothingStuck(mem, start, Stop(start, end));
      WriteIncData8Bit(start, end, 0x00);
      AllCount(mem, start, Stop(start, end), 0x00);
      failed := CheckIncData8Bit(start, end, 0x00);
      if !failed { CountedBytes(mem, start, Stop(start, end)); }
    }
  }

  /** Where every address selects a cell that stores `checkData`. */
  lemma StoredShown(mem: Memory, start: nat, stop: nat, writeData: bv8, checkData: bv8)
    requires mem.Valid() && stop <= |mem.decode| && mem.Stores(start, stop, checkData)
    ensures forall a :: start <= a < stop ==>
      (mem.ShownAt(start, a, writeData, mem.cells[..], checkData) <==> mem.PassedAt(start, a, writeData, checkData))
  {
  }

  lemma AllCount(mem: Memory, start: nat, stop: nat, first: bv8)
    requires mem.Valid() && stop <= |mem.decode| && mem.Faultless(start, stop) && mem.Counts(start, stop, first)
    ensures forall a :: start <= a < stop ==> mem.Read(a) == Counter(first, a - start)
  {
    hide Counter;
  }

  lemma CountedBytes(mem: Memory, start: nat, stop: nat)
    requires mem.Valid() && stop <= |mem.decode|
    requires forall a :: start <= a < stop ==> mem.Read(a) == Counter(0, a - start)
    ensures forall a :: start <= a < stop ==> ByteValue(mem.Read(a)) == (a - start) % 256
  {
    hide Counter, ByteValue, Memory.Read, Memory.Sense;
    ByteZero();
    forall a | start <= a < stop ensures ByteValue(mem.Read(a)) == (a - start) % 256 {
      CounterIs(0, a - start);
    }
  }

  lemma StoredReads(mem: Memory, start: nat, stop: nat, v: bv8)
    requires mem.Valid() && stop <= |mem.decode| && mem.Stores(start, stop, v)
    ensures mem.Faultless(start, stop) ==> forall a :: start <= a < stop ==> mem.Read(a) == v
  {
  }

  lemma FaultFound(mem: Memory, start: nat, stop: nat, writeData: bv8, checkData: bv8)
    requires mem.Valid() && stop <= |mem.decode|
    requires !forall a :: start <= a < stop ==> mem.PassedAt(start, a, writeData, checkData)
    ensures !mem.Faultless(start, stop)
  {
  }

  /** No two addresses can share a cell that reads 00 after 55 was stored and 55 after AA was stored. */
  lemma NoSharing(mem: Memory, start: nat, stop: nat)
    requires mem.Valid() && stop <= |mem.decode|
    requires forall a :: start <= a < stop ==> mem.PassedAt(start, a, 0x55, 0x00) && mem.PassedAt(start, a, 0xAA, 0x55)
    ensures mem.Injective(start, stop)
  {
    forall a, b | start <= a < b < stop ensures mem.decode[a] != mem.decode[b] {
      assert mem.PassedAt(start, b, 0x55, 0x00) && mem.PassedAt(start, b, 0xAA, 0x55);
    }
  }

  lemma NothingStuck(mem: Memory, start: nat, stop: nat)
    requires mem.Valid() && stop <= |mem.decode|
    requires mem.Injective(start, stop)
    requires forall a :: start <= a < stop ==> mem.PassedAt(start, a, 0x55, 0x00)
    requires mem.Stores(start, stop, 0xFF) && forall a :: start <= a < stop ==> mem.Read(a) == 0xFF
    ensures mem.Faultless(start, stop)
  {
    forall a | start <= a < stop ensures mem.stuckHigh[mem.decode[a]] == 0 && mem.stuckLow[mem.decode[a]] == 0 {
      assert mem.PassedAt(start, a, 0x55, 0x00);
      assert mem.Read(a) == 0xFF;
    }
  }
}
