/**
 Machine words. Bytes are bit vectors; 32-bit addresses and sizes are bounded integers, with the C mask
 operators the firmware applies to them defined bit by bit.
 */
module Words {

  datatype Option<T> = None | Some(value: T)

  type Byte = bv8

  type Uint32 = w: int | 0 <= w < 0x1_0000_0000

  const TWO_32 := 0x1_0000_0000
  const BLANK: Byte := 0xFF

  function Pow2(k: nat): (p: nat)
    ensures p >= 1
  {
    if k == 0 then 1 else 2 * Pow2(k - 1)
  }

  /** The C operator `&`. */
  function And(x: nat, y: nat): (r: nat)
    ensures r <= x && r <= y
  {
    if x == 0 || y == 0 then 0
    else 2 * And(x / 2, y / 2) + (if x % 2 == 1 && y % 2 == 1 then 1 else 0)
  }

  /** The C operator `|`. */
  function Or(x: nat, y: nat): nat
  {
    if x == 0 then y
    else if y == 0 then x
    else 2 * Or(x / 2, y / 2) + (if x % 2 == 1 || y % 2 == 1 then 1 else 0)
  }

  /** The C operator `~` on a 32-bit word. */
  function Not32(x: Uint32): Uint32 {
    0xFFFF_FFFF - x
  }

  /** The result of 32-bit unsigned arithmetic whose exact value is `x`. */
  function Wrap32(x: int): Uint32 {
    x % 0x1_0000_0000
  }

  /** The address rounded down to a multiple of `unit`. */
  function Floor(x: nat, unit: nat): (r: nat)
    requires unit > 0
    ensures r <= x < r + unit && r % unit == 0
  {
    FloorIsMultiple(x, unit);
    x - x % unit
  }

  /** The length rounded up to a multiple of `unit`. */
  function Ceil(x: nat, unit: nat): (r: nat)
    requires unit > 0
    ensures x <= r < x + unit && r % unit == 0
  {
    Floor(x + unit - 1, unit)
  }

  lemma FloorIsMultiple(x: nat, unit: nat)
    requires unit > 0
    ensures (x - x % unit) % unit == 0
  {
    assert x == unit * (x / unit) + x % unit;
    MultipleHasNoRemainder(x / unit, unit);
    assert x - x % unit == (x / unit) * unit;
  }

  lemma {:induction false} MultipleHasNoRemainder(q: nat, unit: nat)
    requires unit > 0
    ensures (q * unit) % unit == 0
  {
    if q > 0 {
      MultipleHasNoRemainder(q - 1, unit);
      assert q * unit == (q - 1) * unit + unit;
      AddUnit((q - 1) * unit, unit);
    }
  }

  lemma AddUnit(x: nat, unit: nat)
    requires unit > 0
    ensures (x + unit) % unit == x % unit
    ensures (x + unit) / unit == x / unit + 1
  {
    var q, r := x / unit, x % unit;
    assert x + unit == unit * (q + 1) + r by {
      assert x == unit * q + r;
    }
    DivModUnique(x + unit, unit, q + 1, r);
  }

  lemma DivModUnique(x: nat, d: nat, q: nat, r: nat)
    requires d > 0 && r < d && x == d * q + r
    ensures x / d == q && x % d == r
  {
    var q' := x / d;
    assert x == d * q' + x % d;
    if q' < q {
      MulAtMost(d, q' + 1, q);
      assert false;
    } else if q < q' {
      MulAtMost(d, q + 1, q');
      assert false;
    }
  }

  lemma MulAtMost(d: nat, a: nat, b: nat)
    requires a <= b
    ensures d * a <= d * b
    ensures d * a == d * (a - 1) + d
  {
  }

  lemma SmallMod(x: nat, d: nat)
    requires x < d
    ensures x % d == x && x / d == 0
  {
    DivModUnique(x, d, 0, x);
  }

  /** The value of the low k bits. */
  function LowBits(x: nat, k: nat): nat {
    if k == 0 then 0 else 2 * LowBits(x / 2, k - 1) + x % 2
  }

  lemma ModTwice(x: nat, p: nat)
    requires p > 0
    ensures x % (2 * p) == 2 * ((x / 2) % p) + x % 2
  {
    var q, r := (x / 2) / p, (x / 2) % p;
    assert x / 2 == p * q + r;
    assert x == (2 * p) * q + (2 * r + x % 2) by {
      assert x == 2 * (x / 2) + x % 2;
      assert 2 * (p * q) == (2 * p) * q;
    }
    DivModUnique(x, 2 * p, q, 2 * r + x % 2);
  }

  lemma {:induction false} LowBitsIsMod(x: nat, k: nat)
    ensures LowBits(x, k) == x % Pow2(k)
  {
    if k > 0 {
      LowBitsIsMod(x / 2, k - 1);
      ModTwice(x, Pow2(k - 1));
    }
  }

  lemma AndOddMask(x: nat, m: nat)
    ensures And(x, 2 * m + 1) == 2 * And(x / 2, m) + x % 2
  {
    assert (2 * m + 1) / 2 == m && (2 * m + 1) % 2 == 1;
  }

  lemma AndEvenMask(x: nat, m: nat)
    ensures And(x, 2 * m) == 2 * And(x / 2, m)
  {
    assert (2 * m) / 2 == m && (2 * m) % 2 == 0;
  }

  lemma OrOddMask(x: nat, m: nat)
    ensures Or(x, 2 * m + 1) == 2 * Or(x / 2, m) + 1
  {
    assert (2 * m + 1) / 2 == m && (2 * m + 1) % 2 == 1;
  }

  /** Masking with 2^k - 1 keeps the low k bits. */
  lemma {:induction false} AndLowMask(x: nat, k: nat)
    ensures And(x, Pow2(k) - 1) == LowBits(x, k)
  {
    if k > 0 {
      AndLowMask(x / 2, k - 1);
      AndOddMask(x, Pow2(k - 1) - 1);
    }
  }

  /** Masking an n-bit word with 2^n - 2^k (which is `~(2^k) + 1`) clears the low k bits. */
  lemma {:induction false} AndHighMask(x: nat, n: nat, k: nat)
    requires k <= n && x < Pow2(n)
    ensures Pow2(k) <= Pow2(n)
    ensures And(x, Pow2(n) - Pow2(k)) == x - LowBits(x, k)
  {
    hide And;
    if k == 0 {
      AndLowMask(x, n);
      AllBits(x, n);
    } else {
      AndHighMask(x / 2, n - 1, k - 1);
      AndEvenMask(x, Pow2(n - 1) - Pow2(k - 1));
    }
  }

  lemma {:induction false} AllBits(x: nat, n: nat)
    requires x < Pow2(n)
    ensures LowBits(x, n) == x
  {
    if n > 0 {
      AllBits(x / 2, n - 1);
    }
  }

  /** Or-ing with 2^k - 1 sets the low k bits. */
  lemma {:induction false} OrLowMask(x: nat, k: nat)
    ensures Or(x, Pow2(k) - 1) == x - LowBits(x, k) + (Pow2(k) - 1)
  {
    if k == 0 {
      OrZero(x);
    }
    hide Or;
    if k > 0 {
      OrLowMask(x / 2, k - 1);
      OrOddMask(x, Pow2(k - 1) - 1);
    }
  }

  /** Shifting left past another number and or-ing it in is adding it. */
  lemma {:induction false} OrDisjoint(a: nat, b: nat, k: nat)
    requires b < Pow2(k)
    ensures Or(Pow2(k) * a, b) == Pow2(k) * a + b
  {
    hide Or;
    if k == 0 {
      OrZero(a);
    } else {
      OrDisjoint(a, b / 2, k - 1);
      var h := Pow2(k - 1) * a;
      assert Pow2(k) * a == 2 * h;
      OrEven(h, b);
    }
  }

  lemma OrZero(a: nat)
    ensures Or(a, 0) == a
  {
  }

  lemma OrEven(h: nat, b: nat)
    ensures Or(2 * h, b) == 2 * Or(h, b / 2) + b % 2
  {
    assert (2 * h) / 2 == h && (2 * h) % 2 == 0;
  }

  lemma {:induction false} Pow2Below(j: nat, k: nat)
    requires j < k
    ensures Pow2(j) < Pow2(k)
  {
    if j < k - 1 {
      Pow2Below(j, k - 1);
    }
  }

  lemma Pow2Of32()
    ensures Pow2(32) == TWO_32 && Pow2(8) == 0x100 && Pow2(12) == 0x1000 && Pow2(16) == 0x1_0000
  {
    assert Pow2(4) == 16;
    assert Pow2(8) == 256;
    assert Pow2(12) == 0x1000;
    assert Pow2(16) == 0x1_0000;
    assert Pow2(20) == 0x10_0000;
    assert Pow2(24) == 0x100_0000;
    assert Pow2(28) == 0x1000_0000;
  }
}
