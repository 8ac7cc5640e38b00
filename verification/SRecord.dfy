/**
 Motorola S-record text as the three loaders read it: the scan of a character stream into records, a printer
 for such streams, and the proof that scanning inverts printing.
 */
module SRecord {
  import opened Words
  import opened HexText

  const CR: char := '\r'
  const LF: char := '\n'

  datatype Record = Record(addr: Uint32, data: seq<Byte>)

  /** Why a load ends: a terminator (or unknown) record, the '.' command, or a stream that ends too early. */
  datatype End = Done | Aborted | Starved

  datatype Scan = Scan(records: seq<Record>, end: End)

  /** The start of a data record with its address width in bytes, or the end of the load. */
  datatype Head = Head(addressBytes: nat, pos: nat) | NoHead(end: End)

  // ---------- scanning ----------

  /** The position after the first character, from `pos` on, that is one of `stops`. */
  function SkipTo(t: seq<char>, pos: nat, stops: set<char>): (r: Option<nat>)
    ensures r.Some? ==> pos < r.value <= |t|
    decreases |t| - pos
  {
    if pos >= |t| then None
    else if t[pos] in stops then Some(pos + 1)
    else SkipTo(t, pos + 1, stops)
  }

  predicate Starts(c: char) {
    c == '.' || c == 's' || c == 'S'
  }

  function NextHead(t: seq<char>, pos: nat): (h: Head)
    ensures h.Head? ==> pos < h.pos <= |t| && 2 <= h.addressBytes <= 4
    decreases |t| - pos
  {
    if pos >= |t| then NoHead(Starved)
    else if !Starts(t[pos]) then NextHead(t, pos + 1)
    else if t[pos] == '.' then NoHead(if SkipTo(t, pos + 1, {CR}).Some? then Aborted else Starved)
    else if pos + 1 >= |t| then NoHead(Starved)
    else
      match t[pos + 1]
      case '0' =>
        var line := SkipTo(t, pos + 2, {CR, LF});
        if line.Some? then NextHead(t, line.value) else NoHead(Starved)
      case '1' => Head(2, pos + 2)
      case '2' => Head(3, pos + 2)
      case '3' => Head(4, pos + 2)
      case _ => NoHead(if SkipTo(t, pos + 2, {CR, LF}).Some? then Done else Starved)
  }

  /** The number stored for a field of n digit pairs; the conversion's error code is ignored. */
  function Field(t: seq<char>, pos: nat, n: nat): nat
    requires pos + 2 * n <= |t|
  {
    HexOf(CString(t[pos..pos + 2 * n]), 4).data
  }

  /** The C cast to `unsigned char`. */
  function ToByte(v: nat): Byte {
    if v < 0x100 then v as Byte else (v % 0x100) as Byte
  }

  function DataFields(t: seq<char>, pos: nat, n: nat): (s: seq<Byte>)
    requires pos + 2 * n <= |t|
    ensures |s| == n
  {
    if n == 0 then [] else DataFields(t, pos, n - 1) + [ToByte(Field(t, pos + 2 * (n - 1), 1))]
  }

  /** How often the data loop runs: the count covers address, data and checksum, in 32-bit arithmetic. */
  function DataCount(count: nat, addressBytes: nat): nat {
    var rest := Wrap32(count - addressBytes);
    if rest > 1 then rest - 1 else 0
  }

  /**
   For a byte count: one less than what is left after the address, the last one being the checksum. A count that does
   not cover its address wraps.
   */
  lemma DataCountIs(count: nat, addressBytes: nat)
    requires count <= 255 && 2 <= addressBytes <= 4
    ensures DataCount(count, addressBytes)
      == if count > addressBytes then count - addressBytes - 1
         else if count == addressBytes then 0
         else 0xFFFF_FFFF - (addressBytes - count)
  {
    if count < addressBytes {
      assert Wrap32(count - addressBytes) == 0x1_0000_0000 + count - addressBytes;
    }
  }

  /** A record after its head: count, address, data, an unchecked checksum, and one more character. */
  function ReadRecord(t: seq<char>, pos: nat, addressBytes: nat): (r: Option<(Record, nat)>)
    ensures r.Some? ==> pos < r.value.1 <= |t|
  {
    if pos + 2 + 2 * addressBytes > |t| then None
    else
      var n := DataCount(Field(t, pos, 1), addressBytes);
      var at := pos + 2 + 2 * addressBytes;
      if at + 2 * n + 3 > |t| then None
      else Some((Record(Wrap32(Field(t, pos + 2, addressBytes)), DataFields(t, at, n)), at + 2 * n + 3))
  }

  function ScanFrom(t: seq<char>, pos: nat): Scan
    decreases |t| - pos
  {
    match NextHead(t, pos)
    case NoHead(end) => Scan([], end)
    case Head(addressBytes, p) =>
      match ReadRecord(t, p, addressBytes)
      case None => Scan([], Starved)
      case Some((r, q)) =>
        var next := ScanFrom(t, q);
        Scan([r] + next.records, next.end)
  }

  // ---------- the loaded image ----------

  function Fill(n: nat, b: Byte): (s: seq<Byte>)
    ensures |s| == n && forall i :: 0 <= i < n ==> s[i] == b
  {
    seq(n, _ => b)
  }

  /** The gap the loaders leave before a record, in 32-bit arithmetic. */
  function Gap(r: Record, prev: Uint32): Uint32 {
    Wrap32(r.addr - prev)
  }

  /** It is the one gap that leads to the record's address; an address below the previous end makes it nearly 2^32. */
  lemma GapIs(r: Record, prev: Uint32)
    ensures Wrap32(prev + Gap(r, prev)) == r.addr
    ensures Gap(r, prev) == if r.addr >= prev then r.addr - prev else 0x1_0000_0000 - (prev - r.addr)
  {
    if r.addr < prev {
      assert Wrap32(r.addr - prev) == r.addr - prev + 0x1_0000_0000;
    }
  }

  function After(r: Record): Uint32 {
    Wrap32(r.addr + |r.data|)
  }

  /** The bytes a loader leaves in work RAM, with `fill` in the gaps. */
  function Assemble(records: seq<Record>, prev: Uint32, fill: Byte): seq<Byte> {
    if records == [] then []
    else Fill(Gap(records[0], prev), fill) + records[0].data + Assemble(records[1..], After(records[0]), fill)
  }

  /** Records with ascending addresses, starting at or after `top`, that end at 2^32 or below. */
  predicate Ascending(records: seq<Record>, top: nat) {
    records != [] ==>
      && top <= records[0].addr && records[0].addr + |records[0].data| <= TWO_32
      && Ascending(records[1..], records[0].addr + |records[0].data|)
  }

  /** The first address after the last record. */
  function Extent(records: seq<Record>, top: nat): nat {
    if records == [] then top else Extent(records[1..], records[0].addr + |records[0].data|)
  }

  /** The byte that the records assign to an address. */
  function Assigned(records: seq<Record>, a: nat): Option<Byte> {
    if records == [] then None
    else
      var r := records[0];
      if r.addr <= a < r.addr + |r.data| then Some(r.data[a - r.addr]) else Assigned(records[1..], a)
  }

  lemma {:induction false} AssignedFrom(records: seq<Record>, top: nat, a: nat)
    requires Ascending(records, top) && a < top
    ensures Assigned(records, a) == None
  {
    if records != [] {
      AssignedFrom(records[1..], records[0].addr + |records[0].data|, a);
    }
  }

  /** The image holds every assigned byte at address - top, the fill byte elsewhere, and ends with the last record. */
  lemma {:induction false} AssembledImage(records: seq<Record>, top: Uint32, fill: Byte, x: nat)
    requires Ascending(records, top)
    ensures |Assemble(records, top, fill)| == Extent(records, top) - top
    ensures x < |Assemble(records, top, fill)| ==>
      Assemble(records, top, fill)[x] == (match Assigned(records, top + x) case Some(b) => b case None => fill)
  {
    hide Gap, After;
    if records != [] {
      var r, rest := records[0], records[1..];
      var n, next := r.addr - top + |r.data|, r.addr + |r.data|;
      NoWrap(r, top);
      if next == TWO_32 {
        assert rest == [];
      } else {
        AssembledImage(rest, next, fill, if x < n then 0 else x - n);
      }
      if x < n {
        AssignedFrom(rest, next, top + x);
      }
    }
  }

  lemma NoWrap(r: Record, top: Uint32)
    requires top <= r.addr && r.addr + |r.data| <= TWO_32
    ensures Gap(r, top) == r.addr - top && (r.addr + |r.data| < TWO_32 ==> After(r) == r.addr + |r.data|)
  {
  }

  // ---------- printing ----------

  /**
   One printed line. A data line chooses its letter, its address width (kind 1, 2 or 3), any checksum byte, the
   case of every digit, and its line end; a header line may carry any text.
   */
  datatype Line =
    | Data(letter: char, kind: nat, record: Record, sum: Byte, lower: int -> bool, eol: seq<char>)
    | Header(letter: char, text: seq<char>, eol: seq<char>)

  /**
   How a printed stream stops: a record of a kind that holds no data (S7, S8 or S9, but also S5 or anything unknown)
   up to one line-end character, the '.' command up to its CR, or nothing more being sent.
   */
  datatype Ender = Ender(letter: char, kind: char, text: seq<char>, eol: char) | Cancel(text: seq<char>) | Silence

  /** CR, LF, CR LF, or more generally a line-end character and then anything that cannot start a record. */
  predicate ValidEol(eol: seq<char>) {
    eol != [] && eol[0] in {CR, LF} && forall i :: 1 <= i < |eol| ==> !Starts(eol[i])
  }

  predicate ValidText(text: seq<char>) {
    forall i :: 0 <= i < |text| ==> text[i] !in {CR, LF}
  }

  /** The address fits the address width and the count fits one byte. */
  predicate Printable(kind: nat, record: Record) {
    1 <= kind <= 3 && record.addr < Pow16(2 * (kind + 1)) && |record.data| + kind + 2 <= 255
  }

  predicate ValidLine(line: Line) {
    && line.letter in {'s', 'S'} && ValidEol(line.eol)
    && match line
       case Data(_, kind, record, _, _, _) => Printable(kind, record)
       case Header(_, text, _) => ValidText(text)
  }

  predicate ValidEnder(e: Ender) {
    match e
    case Ender(letter, kind, text, eol) =>
      letter in {'s', 'S'} && kind !in {'0', '1', '2', '3'} && ValidText(text) && eol in {CR, LF}
    case Cancel(text) => '\r' !in text
    case Silence => true
  }

  function EnderText(e: Ender): seq<char> {
    match e
    case Ender(letter, kind, text, eol) => [letter, kind] + text + [eol]
    case Cancel(text) => ['.'] + text + ['\r']
    case Silence => []
  }

  function DataText(data: seq<Byte>, lower: int -> bool, from: int): (s: seq<char>)
    ensures |s| == 2 * |data|
  {
    if data == [] then []
    else
      var n := |data| - 1;
      DataText(data[..n], lower, from) + HexDigits(data[n] as nat, 2, lower, from + 2 * n)
  }

  /** The fields of a data line, after its two letters and before its line end. */
  function FieldText(kind: nat, record: Record, sum: Byte, lower: int -> bool): seq<char> {
    var n := |record.data|;
    HexDigits(n + kind + 2, 2, lower, 0) + HexDigits(record.addr, 2 * (kind + 1), lower, 2)
      + DataText(record.data, lower, 4 + 2 * kind) + HexDigits(sum as nat, 2, lower, 4 + 2 * kind + 2 * n)
  }

  function KindChar(kind: nat): char {
    if kind == 1 then '1' else if kind == 2 then '2' else '3'
  }

  function LineText(line: Line): seq<char> {
    match line
    case Data(letter, kind, record, sum, lower, eol) =>
      [letter, KindChar(kind)] + FieldText(kind, record, sum, lower) + eol
    case Header(letter, text, eol) => [letter, '0'] + text + eol
  }

  function Print(lines: seq<Line>, e: Ender): seq<char> {
    if lines == [] then EnderText(e)
    else LineText(lines[0]) + Print(lines[1..], e)
  }

  function RecordsOf(lines: seq<Line>): seq<Record> {
    if lines == [] then []
    else (if lines[0].Data? then [lines[0].record] else []) + RecordsOf(lines[1..])
  }

  // ---------- scanning inverts printing ----------

  /** The text `s` stands in `t` at `pos`. */
  predicate At(t: seq<char>, pos: nat, s: seq<char>) {
    pos + |s| <= |t| && t[pos..pos + |s|] == s
  }

  lemma AtSplit(t: seq<char>, pos: nat, a: seq<char>, b: seq<char>)
    requires At(t, pos, a + b)
    ensures At(t, pos, a) && At(t, pos + |a|, b)
  {
    var ab := t[pos..pos + |a| + |b|];
    assert ab[..|a|] == a && ab[|a|..] == b;
    assert t[pos..pos + |a|] == ab[..|a|];
    assert t[pos + |a|..pos + |a| + |b|] == ab[|a|..];
  }

  lemma AtChar(t: seq<char>, pos: nat, s: seq<char>, i: nat)
    requires At(t, pos, s) && i < |s|
    ensures t[pos + i] == s[i]
  {
    assert t[pos..pos + |s|][i] == t[pos + i];
  }

  lemma FieldAt(t: seq<char>, pos: nat, v: nat, n: nat, lower: int -> bool, from: int)
    requires n <= 4 && v < Pow16(2 * n) && At(t, pos, HexDigits(v, 2 * n, lower, from))
    ensures Field(t, pos, n) == v
  {
    HexRoundTrip(v, 2 * n, lower, from, 4);
    var s := HexDigits(v, 2 * n, lower, from);
    assert s[..2 * n] == s;
    CStringIs(s, 2 * n);
  }

  lemma ByteField(b: Byte)
    ensures (b as nat) < Pow16(2) && ToByte(b as nat) == b
  {
    assert Pow16(2) == 256;
    var v := b as nat;
    assert v as Byte == b;
  }

  lemma AtParts(t: seq<char>, pos: nat, a: seq<char>, b: seq<char>, c: seq<char>, d: seq<char>)
    requires At(t, pos, a + b + c + d)
    ensures At(t, pos, a) && At(t, pos + |a|, b) && At(t, pos + |a| + |b|, c) && At(t, pos + |a| + |b| + |c|, d)
  {
    AtSplit(t, pos, a + b + c, d);
    AtSplit(t, pos, a + b, c);
    AtSplit(t, pos, a, b);
  }

  lemma {:induction false} DataAt(t: seq<char>, pos: nat, data: seq<Byte>, lower: int -> bool, from: int)
    requires At(t, pos, DataText(data, lower, from))
    ensures DataFields(t, pos, |data|) == data
  {
    hide HexDigits, Field;
    if data != [] {
      var n := |data| - 1;
      AtSplit(t, pos, DataText(data[..n], lower, from), HexDigits(data[n] as nat, 2, lower, from + 2 * n));
      DataAt(t, pos, data[..n], lower, from);
      ByteFieldAt(t, pos + 2 * n, data[n], lower, from + 2 * n);
      assert data == data[..n] + [data[n]];
    }
  }

  lemma ByteFieldAt(t: seq<char>, pos: nat, b: Byte, lower: int -> bool, from: int)
    requires At(t, pos, HexDigits(b as nat, 2, lower, from))
    ensures ToByte(Field(t, pos, 1)) == b
  {
    ByteField(b);
    FieldAt(t, pos, b as nat, 1, lower, from);
  }

  lemma FieldTextLength(kind: nat, record: Record, sum: Byte, lower: int -> bool)
    ensures |FieldText(kind, record, sum, lower)| == 2 * |record.data| + 2 * kind + 6
  {
  }

  /** The four fields of a printed record, each at its place. */
  lemma FieldsAt(t: seq<char>, pos: nat, kind: nat, record: Record, sum: Byte, lower: int -> bool)
    requires Printable(kind, record) && At(t, pos, FieldText(kind, record, sum, lower))
    ensures pos + 2 * |record.data| + 2 * kind + 6 <= |t|
    ensures Field(t, pos, 1) == |record.data| + kind + 2
    ensures Field(t, pos + 2, kind + 1) == record.addr
    ensures DataFields(t, pos + 4 + 2 * kind, |record.data|) == record.data
  {
    hide HexDigits, DataText, Field, DataFields, Pow16;
    var n := |record.data|;
    FieldTextLength(kind, record, sum, lower);
    AtParts(t, pos, HexDigits(n + kind + 2, 2, lower, 0), HexDigits(record.addr, 2 * (kind + 1), lower, 2),
            DataText(record.data, lower, 4 + 2 * kind), HexDigits(sum as nat, 2, lower, 4 + 2 * kind + 2 * n));
    CountAt(t, pos, n + kind + 2, lower);
    FieldAt(t, pos + 2, record.addr, kind + 1, lower, 2);
    DataAt(t, pos + 4 + 2 * kind, record.data, lower, 4 + 2 * kind);
  }

  /** A printed record is read back, whatever the checksum and whatever character follows. */
  lemma RecordAt(t: seq<char>, pos: nat, kind: nat, record: Record, sum: Byte, lower: int -> bool)
    requires Printable(kind, record) && At(t, pos, FieldText(kind, record, sum, lower))
    requires pos + 2 * |record.data| + 2 * kind + 6 < |t|
    ensures ReadRecord(t, pos, kind + 1) == Some((record, pos + 2 * |record.data| + 2 * kind + 7))
  {
    hide FieldText, Field, DataFields, ReadRecord, At, DataCount, Pow16;
    FieldsAt(t, pos, kind, record, sum, lower);
    PrintedCount(|record.data|, kind);
    ReadStep(t, pos, kind + 1, |record.data| + kind + 2, |record.data|);
  }

  lemma ReadStep(t: seq<char>, pos: nat, addressBytes: nat, count: nat, n: nat)
    requires pos + 2 * addressBytes + 2 * n + 5 <= |t|
    requires Field(t, pos, 1) == count && DataCount(count, addressBytes) == n
    ensures ReadRecord(t, pos, addressBytes) == Some((
      Record(Wrap32(Field(t, pos + 2, addressBytes)), DataFields(t, pos + 2 + 2 * addressBytes, n)),
      pos + 2 * addressBytes + 2 * n + 5))
  {
    hide Field, DataFields;
  }

  lemma CountAt(t: seq<char>, pos: nat, count: nat, lower: int -> bool)
    requires count < 256 && At(t, pos, HexDigits(count, 2, lower, 0))
    ensures Field(t, pos, 1) == count
  {
    assert Pow16(2) == 256;
    FieldAt(t, pos, count, 1, lower, 0);
  }

  lemma PrintedCount(n: nat, kind: nat)
    requires n + kind + 2 <= 255
    ensures DataCount(n + kind + 2, kind + 1) == n
  {
  }

  /** Characters that cannot start a record are skipped. */
  lemma {:induction false} SkipJunk(t: seq<char>, pos: nat, n: nat)
    requires pos + n <= |t| && forall i :: pos <= i < pos + n ==> !Starts(t[i])
    ensures NextHead(t, pos) == NextHead(t, pos + n)
    decreases n
  {
    if n > 0 {
      SkipJunk(t, pos + 1, n - 1);
    }
  }

  lemma SameHead(t: seq<char>, p: nat, q: nat)
    requires NextHead(t, p) == NextHead(t, q)
    ensures ScanFrom(t, p) == ScanFrom(t, q)
  {
    hide NextHead, ReadRecord;
  }

  lemma {:induction false} SkipText(t: seq<char>, pos: nat, n: nat, stops: set<char>)
    requires pos + n < |t| && t[pos + n] in stops && forall i :: pos <= i < pos + n ==> t[i] !in stops
    ensures SkipTo(t, pos, stops) == Some(pos + n + 1)
    decreases n
  {
    if n > 0 {
      SkipText(t, pos + 1, n - 1, stops);
    }
  }

  /** After the first character of a line end, the rest of it is skipped. */
  lemma SkipEol(t: seq<char>, pos: nat, eol: seq<char>)
    requires At(t, pos, eol) && ValidEol(eol)
    ensures ScanFrom(t, pos + 1) == ScanFrom(t, pos + |eol|) && NextHead(t, pos + 1) == NextHead(t, pos + |eol|)
  {
    hide ScanFrom, NextHead;
    forall i | pos + 1 <= i < pos + |eol| ensures !Starts(t[i]) {
      AtChar(t, pos, eol, i - pos);
    }
    SkipJunk(t, pos + 1, |eol| - 1);
    SameHead(t, pos + 1, pos + |eol|);
  }

  lemma TwoCharsAt(t: seq<char>, pos: nat, a: char, b: char, rest: seq<char>, eol: seq<char>)
    requires At(t, pos, [a, b] + rest + eol)
    ensures pos + 2 <= |t| && t[pos] == a && t[pos + 1] == b && At(t, pos + 2, rest) && At(t, pos + 2 + |rest|, eol)
  {
    AtSplit(t, pos, [a, b] + rest, eol);
    AtSplit(t, pos, [a, b], rest);
    AtChar(t, pos, [a, b], 0);
    AtChar(t, pos, [a, b], 1);
  }

  lemma HeadAt(t: seq<char>, pos: nat, kind: nat)
    requires 1 <= kind <= 3 && pos + 2 <= |t| && t[pos] in {'s', 'S'} && t[pos + 1] == KindChar(kind)
    ensures NextHead(t, pos) == Head(kind + 1, pos + 2)
  {
  }

  lemma ScanStep(t: seq<char>, pos: nat, addressBytes: nat, p: nat, r: Record, q: nat)
    requires NextHead(t, pos) == Head(addressBytes, p) && ReadRecord(t, p, addressBytes) == Some((r, q))
    ensures ScanFrom(t, pos) == Scan([r] + ScanFrom(t, q).records, ScanFrom(t, q).end)
  {
    hide NextHead, ReadRecord;
  }

  lemma DataLineAt(t: seq<char>, pos: nat, line: Line)
    requires line.Data? && ValidLine(line) && At(t, pos, LineText(line))
    ensures var next := ScanFrom(t, pos + |LineText(line)|);
      ScanFrom(t, pos) == Scan([line.record] + next.records, next.end)
  {
    hide ScanFrom, NextHead, ReadRecord, FieldText, KindChar, At, Pow16, Starts;
    var fields := FieldText(line.kind, line.record, line.sum, line.lower);
    TwoCharsAt(t, pos, line.letter, KindChar(line.kind), fields, line.eol);
    FieldTextLength(line.kind, line.record, line.sum, line.lower);
    RecordAt(t, pos + 2, line.kind, line.record, line.sum, line.lower);
    SkipEol(t, pos + 2 + |fields|, line.eol);
    HeadAt(t, pos, line.kind);
    ScanStep(t, pos, line.kind + 1, pos + 2, line.record, pos + 3 + |fields|);
  }

  lemma HeaderHead(t: seq<char>, pos: nat, p: nat)
    requires pos + 2 <= |t| && t[pos] in {'s', 'S'} && t[pos + 1] == '0' && SkipTo(t, pos + 2, {CR, LF}) == Some(p)
    ensures NextHead(t, pos) == NextHead(t, p)
  {
  }

  lemma HeaderLineAt(t: seq<char>, pos: nat, line: Line)
    requires line.Header? && ValidLine(line) && At(t, pos, LineText(line))
    ensures ScanFrom(t, pos) == ScanFrom(t, pos + |LineText(line)|)
  {
    hide ScanFrom, NextHead, SkipTo, At, Starts, ValidText;
    TwoCharsAt(t, pos, line.letter, '0', line.text, line.eol);
    var p := pos + 2 + |line.text|;
    AtChar(t, p, line.eol, 0);
    TextIsSkipped(t, pos + 2, line.text);
    SkipEol(t, p, line.eol);
    HeaderHead(t, pos, p + 1);
    SameHead(t, pos, p + |line.eol|);
  }

  lemma TextIsSkipped(t: seq<char>, pos: nat, text: seq<char>)
    requires At(t, pos, text) && ValidText(text) && pos + |text| < |t| && t[pos + |text|] in {CR, LF}
    ensures SkipTo(t, pos, {CR, LF}) == Some(pos + |text| + 1)
  {
    forall i | pos <= i < pos + |text| ensures t[i] !in {CR, LF} {
      AtChar(t, pos, text, i - pos);
    }
    SkipText(t, pos, |text|, {CR, LF});
  }

  lemma NoHeadScan(t: seq<char>, pos: nat, end: End)
    requires NextHead(t, pos) == NoHead(end)
    ensures ScanFrom(t, pos) == Scan([], end)
  {
    hide NextHead, ReadRecord;
  }

  lemma FinalHead(t: seq<char>, pos: nat)
    requires pos + 2 <= |t| && t[pos] in {'s', 'S'} && t[pos + 1] !in {'0', '1', '2', '3'}
    requires SkipTo(t, pos + 2, {CR, LF}).Some?
    ensures NextHead(t, pos) == NoHead(Done)
  {
    hide SkipTo;
  }

  lemma CancelHead(t: seq<char>, pos: nat)
    requires pos < |t| && t[pos] == '.' && SkipTo(t, pos + 1, {CR}).Some?
    ensures NextHead(t, pos) == NoHead(Aborted)
  {
    hide SkipTo;
  }

  /** The '.' command, up to its CR. */
  lemma CancelAt(t: seq<char>, pos: nat, text: seq<char>)
    requires '\r' !in text && At(t, pos, ['.'] + text + ['\r'])
    ensures NextHead(t, pos) == NoHead(Aborted)
  {
    hide NextHead, SkipTo, At;
    AtSplit(t, pos, ['.'] + text, ['\r']);
    AtSplit(t, pos, ['.'], text);
    AtChar(t, pos, ['.'], 0);
    AtChar(t, pos + 1 + |text|, ['\r'], 0);
    forall i | pos + 1 <= i < pos + 1 + |text| ensures t[i] !in {CR} {
      AtChar(t, pos + 1, text, i - (pos + 1));
    }
    assert pos + 1 + |text| < |t| by { AtFits(t, pos + 1 + |text|, ['\r']); }
    SkipText(t, pos + 1, |text|, {CR});
    CancelHead(t, pos);
  }

  lemma AtFits(t: seq<char>, pos: nat, s: seq<char>)
    requires At(t, pos, s)
    ensures pos + |s| <= |t|
  {
  }

  lemma FinalAt(t: seq<char>, pos: nat, letter: char, kind: char, text: seq<char>, eol: char)
    requires letter in {'s', 'S'} && kind !in {'0', '1', '2', '3'} && ValidText(text) && eol in {CR, LF}
    requires At(t, pos, [letter, kind] + text + [eol])
    ensures NextHead(t, pos) == NoHead(Done)
  {
    hide NextHead, SkipTo, At, ValidText;
    TwoCharsAt(t, pos, letter, kind, text, [eol]);
    AtChar(t, pos + 2 + |text|, [eol], 0);
    AtFits(t, pos + 2 + |text|, [eol]);
    TextIsSkipped(t, pos + 2, text);
    FinalHead(t, pos);
  }

  lemma EnderAt(t: seq<char>, pos: nat, e: Ender)
    requires ValidEnder(e) && At(t, pos, EnderText(e)) && (e.Silence? ==> pos == |t|)
    ensures ScanFrom(t, pos)
      == Scan([], match e case Ender(_, _, _, _) => Done case Cancel(_) => Aborted case Silence => Starved)
  {
    hide ScanFrom, At, ValidText;
    match e
    case Ender(letter, kind, text, eol) =>
      FinalAt(t, pos, letter, kind, text, eol);
      NoHeadScan(t, pos, Done);
    case Cancel(text) =>
      CancelAt(t, pos, text);
      NoHeadScan(t, pos, Aborted);
    case Silence =>
      NoHeadScan(t, pos, Starved);
  }

  /** Scanning a printed stream gives exactly its data records, in order, and the end that was printed. */
  lemma {:induction false} ScanInvertsPrint(t: seq<char>, pos: nat, lines: seq<Line>, e: Ender)
    requires (forall i :: 0 <= i < |lines| ==> ValidLine(lines[i])) && ValidEnder(e)
    requires At(t, pos, Print(lines, e)) && (e.Silence? ==> pos + |Print(lines, e)| == |t|)
    decreases lines
    ensures ScanFrom(t, pos).records == RecordsOf(lines)
    ensures ScanFrom(t, pos).end
      == match e case Ender(_, _, _, _) => Done case Cancel(_) => Aborted case Silence => Starved
  {
    hide ScanFrom, LineText, ValidLine, ValidEnder, At;
    if lines == [] {
      EnderAt(t, pos, e);
    } else {
      AtSplit(t, pos, LineText(lines[0]), Print(lines[1..], e));
      ScanInvertsPrint(t, pos + |LineText(lines[0])|, lines[1..], e);
      if lines[0].Data? {
        DataLineAt(t, pos, lines[0]);
      } else {
        HeaderLineAt(t, pos, lines[0]);
      }
    }
  }

  /**
   The round trip: loading a printed stream of ascending, possibly gapped records gives an image that ends where
   the last record ends and holds each data byte at its address minus the top address, and the fill byte elsewhere.
   The load ends normally for a stream with a terminating record, and is cancelled for one with a '.' command.
   */
  lemma LoadInvertsPrint(lines: seq<Line>, e: Ender, top: Uint32, fill: Byte, x: nat)
    requires (forall i :: 0 <= i < |lines| ==> ValidLine(lines[i])) && ValidEnder(e)
    requires Ascending(RecordsOf(lines), top)
    ensures var scan := ScanFrom(Print(lines, e), 0);
      var image := Assemble(scan.records, top, fill);
      && (scan.end == Done <==> e.Ender?) && (scan.end == Aborted <==> e.Cancel?)
      && |image| == Extent(RecordsOf(lines), top) - top
      && (x < |image| ==> image[x] == match Assigned(RecordsOf(lines), top + x) case Some(b) => b case None => fill)
  {
    hide ScanFrom, Print, Assemble, RecordsOf, Assigned;
    var t := Print(lines, e);
    assert t[0..|t|] == t;
    ScanInvertsPrint(t, 0, lines, e);
    AssembledImage(RecordsOf(lines), top, fill, x);
  }

  /** The two loaders (gaps FF, gaps 0) agree exactly at the assigned addresses. */
  lemma LoadersAgreeExactlyOnData(records: seq<Record>, top: Uint32, x: nat)
    requires Ascending(records, top) && x < Extent(records, top) - top
    ensures |Assemble(records, top, BLANK)| == |Assemble(records, top, 0)| == Extent(records, top) - top
    ensures Assemble(records, top, BLANK)[x] == Assemble(records, top, 0)[x] <==> Assigned(records, top + x).Some?
  {
    AssembledImage(records, top, BLANK, x);
    AssembledImage(records, top, 0, x);
  }
}
