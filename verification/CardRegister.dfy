/**
 The 128-bit CSD and CID registers: how the driver stores an R2 response (emmc_cmd.c) and how it cuts bit
 fields out of the stored bytes (emmc_utility.c).
 */
module CardRegister {
  import opened Words

  /** emmc_little_to_big. */
  function BigEndian(w: Uint32): (bytes: seq<nat>)
    ensures |bytes| == 4
  {
    [w / 0x100_0000, w / 0x1_0000 % 256, w / 0x100 % 256, w % 256]
  }

  /** The last 24 bits of one response register and the first 8 of the next: `(a << 8) | (b >> 24)`. */
  function Joined(a: Uint32, b: Uint32): Uint32 {
    Wrap32(Or(Wrap32(256 * a), b / 0x100_0000))
  }

  /** The 16 bytes that emmc_read_response stores for an R2 response. */
  function LongResponse(rsp76: Uint32, rsp54: Uint32, rsp32: Uint32, rsp10: Uint32): (bytes: seq<nat>)
    ensures |bytes| == 16
  {
    BigEndian(Joined(rsp76, rsp54)) + BigEndian(Joined(rsp54, rsp32)) + BigEndian(Joined(rsp32, rsp10))
    + BigEndian(Wrap32(256 * rsp10))
  }

  // ---------- the register as a number ----------

  predicate AreBytes(data: seq<nat>) {
    forall i :: 0 <= i < |data| ==> data[i] < 256
  }

  function Value(data: seq<nat>): nat {
    if data == [] then 0 else 256 * Value(data[..|data| - 1]) + data[|data| - 1]
  }

  /** The C operator `>>`. */
  function Shr(x: nat, k: nat): nat {
    if k == 0 then x else Shr(x / 2, k - 1)
  }

  /** Bits top..bottom of a number. */
  function Bits(x: nat, top: nat, bottom: nat): nat
    requires bottom <= top
  {
    LowBits(Shr(x, bottom), top - bottom + 1)
  }

  /** emmc_bit_field. */
  function BitField(data: seq<nat>, top: nat, bottom: nat): nat
    requires |data| == 16 && bottom <= top < 128
  {
    And(Shr(Gathered(data, 15 - top / 8, 15 - bottom / 8), bottom % 8), Pow2(top - bottom + 1) - 1)
  }

  /** The bytes from the top one on: as many as the field spans, but at most four. */
  function Gathered(data: seq<nat>, indexTop: nat, indexBottom: nat): nat
    requires indexTop <= indexBottom < |data|
  {
    if indexTop == indexBottom then data[indexTop]
    else if indexTop + 1 == indexBottom then Or(0x100 * data[indexTop], data[indexBottom])
    else if indexTop + 2 == indexBottom then
      Or(Or(0x1_0000 * data[indexTop], 0x100 * data[indexTop + 1]), data[indexTop + 2])
    else
      Or(Or(Or(0x100_0000 * data[indexTop], 0x1_0000 * data[indexTop + 1]), 0x100 * data[indexTop + 2]),
         data[indexTop + 3])
  }

  // ---------- what they compute ----------

  /** A field under 32 bits wide is extracted right from every register exactly when it spans at most four bytes. */
  lemma FieldExactIffFourBytes(top: nat, bottom: nat)
    requires bottom <= top < 128 && top - bottom < 31
    ensures top / 8 - bottom / 8 <= 3 <==>
      forall data: seq<nat> ::
        |data| == 16 && AreBytes(data) ==> BitField(data, top, bottom) == Bits(Value(data), top, bottom)
  {
    hide Bits, BitField, Value;
    if top / 8 - bottom / 8 <= 3 {
      forall data: seq<nat> | |data| == 16 && AreBytes(data)
        ensures BitField(data, top, bottom) == Bits(Value(data), top, bottom)
      {
        FieldIsBits(data, top, bottom);
      }
    } else {
      FifthByteIsLost(top, bottom);
    }
  }

  /** The driver reads a field of the card's 120 response bits wherever it lies above the CRC byte. */
  lemma ResponseField(rsp76: Uint32, rsp54: Uint32, rsp32: Uint32, rsp10: Uint32, top: nat, bottom: nat)
    requires 8 <= bottom <= top < 128 && top - bottom < 31 && top / 8 - bottom / 8 <= 3
    ensures BitField(LongResponse(rsp76, rsp54, rsp32, rsp10), top, bottom)
      == Bits(RegisterOf(rsp76, rsp54, rsp32, rsp10), top, bottom)
  {
    hide Bits, BitField, Value, LongResponse;
    ResponseBytes(rsp76, rsp54, rsp32, rsp10);
    FieldIsBits(LongResponse(rsp76, rsp54, rsp32, rsp10), top, bottom);
  }

  /** The 128-bit register whose bits 127..8 the four response registers show; its CRC byte is stored as 0. */
  function RegisterOf(rsp76: Uint32, rsp54: Uint32, rsp32: Uint32, rsp10: Uint32): nat {
    256 * (TWO_32 * (TWO_32 * (TWO_32 * (rsp76 % 0x100_0000) + rsp54) + rsp32) + rsp10)
  }

  lemma ResponseBytes(rsp76: Uint32, rsp54: Uint32, rsp32: Uint32, rsp10: Uint32)
    ensures AreBytes(LongResponse(rsp76, rsp54, rsp32, rsp10))
    ensures Value(LongResponse(rsp76, rsp54, rsp32, rsp10)) == RegisterOf(rsp76, rsp54, rsp32, rsp10)
  {
    hide Value, Joined, Or, BigEndian;
    var w0, w1, w2, w3 := Joined(rsp76, rsp54), Joined(rsp54, rsp32), Joined(rsp32, rsp10), Wrap32(256 * rsp10);
    JoinedIs(rsp76, rsp54);
    JoinedIs(rsp54, rsp32);
    JoinedIs(rsp32, rsp10);
    var b0, b1, b2, b3 := BigEndian(w0), BigEndian(w1), BigEndian(w2), BigEndian(w3);
    AppendWord([], w0);
    assert [] + b0 == b0;
    AppendWord(b0, w1);
    AppendWord(b0 + b1, w2);
    AppendWord(b0 + b1 + b2, w3);
    assert Value([]) == 0 by { ValueNone(); }
  }

  lemma ValueNone()
    ensures Value([]) == 0
  {
  }

  lemma JoinedIs(a: Uint32, b: Uint32)
    ensures Joined(a, b) == 256 * (a % 0x100_0000) + b / 0x100_0000
  {
    hide Or;
    assert Pow2(8) == 256;
    assert Wrap32(256 * a) == 256 * (a % 0x100_0000);
    OrDisjoint(a % 0x100_0000, b / 0x100_0000, 8);
  }

  lemma AppendWord(s: seq<nat>, w: Uint32)
    requires AreBytes(s)
    ensures AreBytes(s + BigEndian(w)) && Value(s + BigEndian(w)) == 0x1_0000_0000 * Value(s) + w
  {
    hide Value, BigEndian;
    WordBytes(w);
    var b := BigEndian(w);
    AppendByte(s, b[0]);
    AppendByte(s + [b[0]], b[1]);
    AppendByte(s + [b[0]] + [b[1]], b[2]);
    AppendByte(s + [b[0]] + [b[1]] + [b[2]], b[3]);
    assert s + b == s + [b[0]] + [b[1]] + [b[2]] + [b[3]];
  }

  lemma WordBytes(w: Uint32)
    ensures AreBytes(BigEndian(w))
    ensures var b := BigEndian(w); 0x100_0000 * b[0] + 0x1_0000 * b[1] + 0x100 * b[2] + b[3] == w
  {
    assert w / 0x1_0000 / 256 == w / 0x100_0000;
    assert w / 0x100 / 256 == w / 0x1_0000;
  }

  lemma AppendByte(s: seq<nat>, b: nat)
    ensures Value(s + [b]) == 256 * Value(s) + b
  {
    assert (s + [b])[..|s|] == s;
  }

  lemma FieldIsBits(data: seq<nat>, top: nat, bottom: nat)
    requires |data| == 16 && AreBytes(data)
    requires bottom <= top < 128 && top / 8 - bottom / 8 <= 3
    ensures BitField(data, top, bottom) == Bits(Value(data), top, bottom)
  {
    hide Or, And, Bits, Gathered, Value, Shr;
    var i, j := 15 - top / 8, 16 - bottom / 8;
    GatheredValue(data, i, j);
    AndLowMask(Shr(Gathered(data, i, j - 1), bottom % 8), top - bottom + 1);
    CutBits(data, i, j, top, bottom);
  }

  /** Up to four bytes are put together as one big-endian number. */
  lemma GatheredValue(data: seq<nat>, i: nat, j: nat)
    requires i < j <= |data| && j - i <= 4 && AreBytes(data)
    ensures Gathered(data, i, j - 1) == Value(data[i..j])
  {
    hide Or, Value;
    ValueNone();
    assert data[i..i] == [];
    SliceByte(data, i, i);
    OrBytes(data, i, j);
    if j > i + 1 { SliceByte(data, i, i + 1); }
    if j > i + 2 { SliceByte(data, i, i + 2); }
    if j > i + 3 { SliceByte(data, i, i + 3); }
  }

  lemma SliceByte(data: seq<nat>, i: nat, j: nat)
    requires i <= j < |data|
    ensures Value(data[i..j + 1]) == 256 * Value(data[i..j]) + data[j]
  {
    assert data[i..j + 1] == data[i..j] + [data[j]];
    AppendByte(data[i..j], data[j]);
  }

  lemma OrBytes(data: seq<nat>, i: nat, j: nat)
    requires i < j <= |data| && j - i <= 4 && AreBytes(data)
    ensures j - i == 2 ==> Or(0x100 * data[i], data[i + 1]) == 0x100 * data[i] + data[i + 1]
    ensures j - i == 3 ==>
      (Or(Or(0x1_0000 * data[i], 0x100 * data[i + 1]), data[i + 2])
       == 0x1_0000 * data[i] + 0x100 * data[i + 1] + data[i + 2])
    ensures j - i == 4 ==>
      (Or(Or(Or(0x100_0000 * data[i], 0x1_0000 * data[i + 1]), 0x100 * data[i + 2]), data[i + 3])
       == 0x100_0000 * data[i] + 0x1_0000 * data[i + 1] + 0x100 * data[i + 2] + data[i + 3])
  {
    hide Or;
    assert Pow2(8) == 0x100;
    assert Pow2(16) == 0x1_0000;
    assert Pow2(24) == 0x100_0000;
    var a := data[i];
    if j - i == 2 {
      OrDisjoint(a, data[i + 1], 8);
    } else if j - i == 3 {
      var b, c := data[i + 1], data[i + 2];
      OrDisjoint(a, 0x100 * b, 16);
      OrDisjoint(0x100 * a + b, c, 8);
    } else if j - i == 4 {
      var b, c, d := data[i + 1], data[i + 2], data[i + 3];
      OrDisjoint(a, 0x1_0000 * b, 24);
      OrDisjoint(0x100 * a + b, 0x100 * c, 16);
      OrDisjoint(0x1_0000 * a + 0x100 * b + c, d, 8);
    }
  }

  // ---------- cutting bits out of a number ----------

  lemma CutBits(data: seq<nat>, i: nat, j: nat, top: nat, bottom: nat)
    requires |data| == 16 && AreBytes(data) && bottom <= top < 128 && i == 15 - top / 8 && j == 16 - bottom / 8
    ensures Bits(Value(data), top, bottom) == LowBits(Shr(Value(data[i..j]), bottom % 8), top - bottom + 1)
  {
    hide Value, Shr, LowBits, Pow2;
    ValueSplit(data, j);
    ValueSplit(data[..j], i);
    assert data[..j][..i] == data[..i] && data[..j][i..] == data[i..j];
    ValueBound(data[j..]);
    var q, r := 8 * (16 - j), bottom % 8;
    assert q + r == bottom;
    ShrAdd(Value(data), q, r);
    ShrJoin(Value(data[..j]), Value(data[j..]), q);
    LowOfShr(Value(data[..i]), Value(data[i..j]), 8 * (j - i), r, top - bottom + 1);
  }

  lemma {:induction false} ValueSplit(s: seq<nat>, i: nat)
    requires i <= |s|
    ensures Value(s) == Value(s[..i]) * Pow2(8 * (|s| - i)) + Value(s[i..])
  {
    hide Pow2;
    if i == |s| {
      assert s[..i] == s && s[i..] == [];
      assert Pow2(0) == 1 by { PowZero(); }
    } else {
      var n := |s| - 1;
      ValueSplit(s[..n], i);
      assert s[..n][..i] == s[..i] && s[..n][i..] == s[i..][..n - i];
      EightMore(8 * (n - i));
      Widen(Value(s[..i]), Pow2(8 * (n - i)), Value(s[..n][i..]), s[n]);
    }
  }

  lemma PowZero()
    ensures Pow2(0) == 1
  {
  }

  lemma Widen(v: nat, p: nat, w: nat, b: nat)
    ensures 256 * (v * p + w) + b == v * (256 * p) + (256 * w + b)
  {
  }

  lemma EightMore(k: nat)
    ensures Pow2(k + 8) == 256 * Pow2(k)
  {
    PowAdd(k, 8);
    assert Pow2(8) == 256;
  }

  lemma {:induction false} ValueBound(s: seq<nat>)
    requires AreBytes(s)
    ensures Value(s) < Pow2(8 * |s|)
  {
    if s != [] {
      ValueBound(s[..|s| - 1]);
      EightMore(8 * (|s| - 1));
    }
  }

  lemma {:induction false} PowAdd(a: nat, b: nat)
    ensures Pow2(a + b) == Pow2(a) * Pow2(b)
  {
    if b > 0 {
      PowAdd(a, b - 1);
      assert Pow2(a) * (2 * Pow2(b - 1)) == 2 * (Pow2(a) * Pow2(b - 1));
    }
  }

  lemma {:induction false} ShrAdd(x: nat, a: nat, b: nat)
    ensures Shr(x, a + b) == Shr(Shr(x, a), b)
  {
    if a > 0 {
      ShrAdd(x / 2, a - 1, b);
    }
  }

  lemma HalfOfSum(x: nat, low: nat, q: nat)
    requires q > 0
    ensures (x * Pow2(q) + low) / 2 == x * Pow2(q - 1) + low / 2 && (x * Pow2(q) + low) % 2 == low % 2
  {
    var h := x * Pow2(q - 1);
    assert x * Pow2(q) == 2 * h;
  }

  /** Shifting out the low part of a number. */
  lemma {:induction false} ShrJoin(x: nat, low: nat, q: nat)
    requires low < Pow2(q)
    ensures Shr(x * Pow2(q) + low, q) == x
  {
    if q > 0 {
      HalfOfSum(x, low, q);
      ShrJoin(x, low / 2, q - 1);
    }
  }

  /** Bits that lie inside the low n bits do not depend on what is above. */
  lemma {:induction false} LowOfShr(high: nat, low: nat, n: nat, r: nat, w: nat)
    requires r + w <= n
    ensures LowBits(Shr(high * Pow2(n) + low, r), w) == LowBits(Shr(low, r), w)
  {
    hide LowBits, Pow2;
    if r == 0 {
      LowOfSum(high, low, n, w);
    } else {
      HalfOfSum(high, low, n);
      LowOfShr(high, low / 2, n - 1, r - 1, w);
    }
  }

  lemma {:induction false} LowOfSum(high: nat, low: nat, n: nat, w: nat)
    requires w <= n
    ensures LowBits(high * Pow2(n) + low, w) == LowBits(low, w)
  {
    if w > 0 {
      HalfOfSum(high, low, n);
      LowOfSum(high, low / 2, n - 1, w - 1);
    }
  }

  // ---------- wider spans ----------

  /** A register that is zero but for the lowest bit of a field over five bytes reads as zero. */
  lemma FifthByteIsLost(top: nat, bottom: nat)
    requires bottom <= top < 128 && top - bottom < 31 && top / 8 - bottom / 8 > 3
    ensures exists data: seq<nat> ::
      |data| == 16 && AreBytes(data) && BitField(data, top, bottom) != Bits(Value(data), top, bottom)
  {
    hide Value, Bits, Gathered, Or, And, Shr;
    var zeros := seq(16, _ => 0);
    var j := 15 - bottom / 8;
    var data := zeros[j := Pow2(bottom % 8)];
    SmallPow(bottom % 8);
    assert AreBytes(data);
    ZeroGathered(data, 15 - top / 8, j);
    ShrZero(bottom % 8);
    AndZero(Pow2(top - bottom + 1) - 1);
    OneBit(zeros, j, top, bottom);
  }

  lemma SmallPow(r: nat)
    requires r < 8
    ensures Pow2(r) < 256
  {
    assert Pow2(7) == 128;
    if r < 7 { Pow2Below(r, 7); }
  }

  lemma ZeroGathered(data: seq<nat>, i: nat, j: nat)
    requires i + 3 < j < |data| && forall k :: i <= k < j ==> data[k] == 0
    ensures Gathered(data, i, j) == 0
  {
  }

  lemma OneBit(zeros: seq<nat>, j: nat, top: nat, bottom: nat)
    requires |zeros| == 16 && (forall k :: 0 <= k < 16 ==> zeros[k] == 0)
    requires bottom <= top < 128 && j == 15 - bottom / 8
    requires top / 8 - bottom / 8 > 3
    ensures Bits(Value(zeros[j := Pow2(bottom % 8)]), top, bottom) == 1
  {
    hide Value, Pow2, Shr, LowBits;
    var i, p := 15 - top / 8, Pow2(bottom % 8);
    var data := zeros[j := p];
    assert AreBytes(data) by { SmallPow(bottom % 8); }
    CutBits(data, i, j + 1, top, bottom);
    assert data[i..j + 1] == zeros[i..j] + [p];
    AppendByte(zeros[i..j], p);
    ZeroValue(zeros[i..j]);
    ShrOfPow(bottom % 8);
    LowOfOne(top - bottom + 1);
  }

  lemma {:induction false} ShrOfPow(k: nat)
    ensures Shr(Pow2(k), k) == 1
  {
    if k > 0 {
      ShrOfPow(k - 1);
    }
  }

  lemma LowOfOne(w: nat)
    requires w > 0
    ensures LowBits(1, w) == 1
  {
    LowOfZero(w - 1);
  }

  lemma {:induction false} LowOfZero(w: nat)
    ensures LowBits(0, w) == 0
  {
    if w > 0 {
      LowOfZero(w - 1);
    }
  }

  lemma {:induction false} ShrZero(k: nat)
    ensures Shr(0, k) == 0
  {
    if k > 0 {
      ShrZero(k - 1);
    }
  }

  lemma AndZero(m: nat)
    ensures And(0, m) == 0
  {
  }

  lemma {:induction false} ZeroValue(s: seq<nat>)
    requires forall k :: 0 <= k < |s| ==> s[k] == 0
    ensures Value(s) == 0
  {
    if s != [] {
      ZeroValue(s[..|s| - 1]);
    }
  }
}
