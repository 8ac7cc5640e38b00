/** Numbers as text: the hexadecimal and decimal conversions of common.c, on NUL-terminated character buffers. */
module HexText {
  import opened Words

  const NUL: char := '\0'

  /** The case choice of a printer that always uses upper case. */
  const UPPER: int -> bool := _ => false

  // ---------- hexadecimal text ----------

  function Upper(c: char): char {
    if 'a' <= c <= 'z' then (c as int - 0x20) as char else c
  }

  predicate IsHexDigit(c: char) {
    '0' <= c <= '9' || 'A' <= Upper(c) <= 'F'
  }

  function DigitValue(c: char): (v: nat)
    requires IsHexDigit(c)
    ensures v < 16
  {
    if '0' <= c <= '9' then c as int - '0' as int else Upper(c) as int - 55
  }

  function DigitChar(v: nat, lower: bool): (c: char)
    requires v < 16
    ensures IsHexDigit(c) && DigitValue(c) == v
  {
    if v < 10 then ('0' as int + v) as char
    else if lower then (v + 87) as char
    else (v + 55) as char
  }

  function Pow16(n: nat): (p: nat)
    ensures p >= 1
  {
    if n == 0 then 1 else 16 * Pow16(n - 1)
  }

  /**
   `v` as n digits, most significant first; the digit at position i
   of the text is lower case when lower(from + i).
   */
  function HexDigits(v: nat, n: nat, lower: int -> bool, from: int): (s: seq<char>)
    ensures |s| == n
  {
    if n == 0 then []
    else HexDigits(v / 16, n - 1, lower, from) + [DigitChar(v % 16, lower(from + n - 1))]
  }

  /** The number a run of digits denotes. */
  function HexValue(s: seq<char>): (v: nat)
    requires forall c :: c in s ==> IsHexDigit(c)
    ensures v < Pow16(|s|)
  {
    if s == [] then 0
    else 16 * HexValue(s[..|s| - 1]) + DigitValue(s[|s| - 1])
  }

  /** The length of the longest prefix made of hexadecimal digits. */
  function DigitRun(s: seq<char>): (n: nat)
    ensures n <= |s| && (forall i :: 0 <= i < n ==> IsHexDigit(s[i])) && (n < |s| ==> !IsHexDigit(s[n]))
  {
    if s == [] || !IsHexDigit(s[0]) then 0 else 1 + DigitRun(s[1..])
  }

  datatype HexResult = HexResult(ret: nat, data: nat)

  /** What HexAscii2Data (size 4) and HexAscii2Data_64 (size 8) return and store for the string `s`. */
  function HexOf(s: seq<char>, size: nat): HexResult {
    if s != [] && s[0] == '@' then HexResult(3, 0) else Converted(s, size)
  }

  /** The conversion loop: it stops at the first other character and after one digit too many. */
  function Converted(s: seq<char>, size: nat): HexResult {
    var n := DigitRun(s);
    if n > 2 * size then HexResult(1, HexValue(s[..2 * size + 1]) % Pow16(2 * size))
    else HexResult(if n < |s| then 1 else 0, HexValue(s[..n]))
  }

  /** The characters before the first NUL. */
  function CString(s: seq<char>): (r: seq<char>)
    ensures r <= s && NUL !in r && (NUL in s ==> |r| < |s| && s[|r|] == NUL)
  {
    if s == [] || s[0] == NUL then [] else [s[0]] + CString(s[1..])
  }

  lemma {:induction false} CStringIs(s: seq<char>, n: nat)
    requires n <= |s| && NUL !in s[..n] && (n < |s| ==> s[n] == NUL)
    ensures CString(s) == s[..n]
  {
    if n > 0 {
      assert s[0] == s[..n][0] && s[..n] == [s[0]] + s[1..][..n - 1];
      CStringIs(s[1..], n - 1);
    }
  }

  /** ChgLtl2Lrg, in place. */
  method ChgLtl2Lrg(str: array<char>)
    requires NUL in str[..]
    modifies str
    ensures forall i :: 0 <= i < str.Length ==>
      str[i] == if i < |CString(old(str[..]))| && 'a' <= old(str[i]) <= 'z' then (old(str[i]) as int - 0x20) as char
                else old(str[i])
  {
    ghost var text := CString(old(str[..]));
    var i := 0;
    while str[i] != NUL
      invariant i <= |text| < str.Length
      invariant forall j :: 0 <= j < str.Length ==> str[j] == if j < i then Upper(old(str[j])) else old(str[j])
      decreases |text| - i
    {
      if 'a' <= str[i] <= 'z' {
        str[i] := (str[i] as int - 0x20) as char;
      }
      i := i + 1;
    }
    assert i == |text|;
  }

  /**
   The two digit branches of the conversion loop: shift in one digit of
   an upper-case character, in a word of `size` bytes.
   */
  method AddDigit(c: char, data: nat, size: nat) returns (ok: bool, data': nat)
    ensures ok <==> '0' <= c <= '9' || 'A' <= c <= 'F'
    ensures !ok ==> data' == data
    ensures ok ==> data' == Shifted(data, DigitValue(c), size)
  {
    if '0' <= c <= '9' {
      return true, (16 * data + (c as int - '0' as int)) % Pow16(2 * size);
    } else if 'A' <= c <= 'F' {
      return true, (16 * data + (c as int - 55)) % Pow16(2 * size);
    } else {
      return false, data;
    }
  }

  function Shifted(data: nat, digit: nat, size: nat): nat {
    (16 * data + digit) % Pow16(2 * size)
  }

  lemma ShiftedFits(data: nat, digit: nat, i: nat, size: nat)
    requires digit < 16 && i < 2 * size && data < Pow16(i)
    ensures Shifted(data, digit, size) == 16 * data + digit
  {
    Pow16Monotone(i + 1, 2 * size);
    SmallMod(16 * data + digit, Pow16(2 * size));
  }

  lemma UpperKeepsDigits(c: char)
    ensures IsHexDigit(c) <==> '0' <= Upper(c) <= '9' || 'A' <= Upper(c) <= 'F'
    ensures IsHexDigit(c) ==> DigitValue(Upper(c)) == DigitValue(c)
    ensures c == '@' <==> Upper(c) == '@'
    ensures c == NUL <==> Upper(c) == NUL
  {
  }

  /** The value and the fate of a string whose first i characters are digits, from its next character. */
  lemma NextDigit(text: seq<char>, i: nat)
    requires i < |text| && i <= DigitRun(text)
    ensures i < DigitRun(text) <==> IsHexDigit(text[i])
    ensures i < DigitRun(text) ==> HexValue(text[..i + 1]) == 16 * HexValue(text[..i]) + DigitValue(text[i])
  {
    assert text[..i + 1][..i] == text[..i];
  }

  /** The buffer holds the string `text` in upper case. */
  ghost predicate HoldsUpper(buf: array<char>, text: seq<char>)
    reads buf
  {
    && |text| < buf.Length && buf[|text|] == NUL && NUL !in text
    && forall j :: 0 <= j < |text| ==> buf[j] == Upper(text[j])
  }

  /** One pass of the conversion loop, at a character that is not the NUL. */
  method ConvertNext(buf: array<char>, ghost text: seq<char>, i: nat, data: nat, size: nat)
    returns (ok: bool, data': nat)
    requires HoldsUpper(buf, text) && i < |text| && i <= DigitRun(text) && i <= 2 * size && data == HexValue(text[..i])
    ensures ok <==> i < DigitRun(text)
    ensures !ok ==> data' == data
    ensures ok && i < 2 * size ==> data' == HexValue(text[..i + 1])
    ensures ok && i == 2 * size ==> data' == HexValue(text[..i + 1]) % Pow16(2 * size)
  {
    UpperKeepsDigits(text[i]);
    NextDigit(text, i);
    ok, data' := AddDigit(buf[i], data, size);
    if ok && i < 2 * size {
      ShiftedFits(data, DigitValue(text[i]), i, size);
    }
  }

  method ConvertDigits(buf: array<char>, ghost text: seq<char>, size: nat) returns (ret: nat, data: nat)
    requires HoldsUpper(buf, text)
    ensures HexResult(ret, data) == Converted(text, size)
  {
    data := 0;
    var i := 0;
    while buf[i] != NUL
      invariant i <= |text| && i <= DigitRun(text) && i <= 2 * size
      invariant data == HexValue(text[..i])
      decreases |text| - i
    {
      var ok;
      ok, data := ConvertNext(buf, text, i, data, size);
      if !ok {
        return 1, data;
      }
      i := i + 1;
      if i > 2 * size {
        return 1, data;
      }
    }
    if i < |text| {
      UpperKeepsDigits(text[i]);
    }
    ret := 0;
  }

  /** HexAscii2Data and its 64-bit twin: upper-cases the buffer in place, then accumulates digits until the NUL. */
  method HexAscii2Data(buf: array<char>, size: nat) returns (ret: nat, data: nat)
    requires NUL in buf[..]
    modifies buf
    ensures HexResult(ret, data) == HexOf(CString(old(buf[..])), size)
    ensures forall i :: 0 <= i < buf.Length ==>
      buf[i] == if i < |CString(old(buf[..]))| then Upper(old(buf[i])) else old(buf[i])
  {
    ghost var text := CString(old(buf[..]));
    ChgLtl2Lrg(buf);
    UpperKeepsDigits(old(buf[0]));
    if buf[0] == '@' {
      return 3, 0;
    }
    ret, data := ConvertDigits(buf, text, size);
  }

  /** Reading printed digits gives the printed number back. */
  lemma {:induction false} HexValueOfDigits(v: nat, n: nat, lower: int -> bool, from: int)
    requires v < Pow16(n)
    ensures forall c :: c in HexDigits(v, n, lower, from) ==> IsHexDigit(c)
    ensures HexValue(HexDigits(v, n, lower, from)) == v
  {
    DigitsAreHex(v, n, lower, from);
    if n > 0 {
      var s := HexDigits(v, n, lower, from);
      assert s[..n - 1] == HexDigits(v / 16, n - 1, lower, from);
      HexValueOfDigits(v / 16, n - 1, lower, from);
    }
  }

  lemma {:induction false} DigitsAreHex(v: nat, n: nat, lower: int -> bool, from: int)
    ensures forall c :: c in HexDigits(v, n, lower, from) ==> IsHexDigit(c)
  {
    if n > 0 {
      DigitsAreHex(v / 16, n - 1, lower, from);
    }
  }

  lemma {:induction false} Pow16Monotone(m: nat, n: nat)
    requires m <= n
    ensures Pow16(m) <= Pow16(n)
  {
    if m < n {
      Pow16Monotone(m, n - 1);
    }
  }

  /** The text round trip: for every value of every width, whatever the case of the digits. */
  lemma HexRoundTrip(v: nat, n: nat, lower: int -> bool, from: int, size: nat)
    requires n <= 2 * size && v < Pow16(n)
    ensures HexOf(HexDigits(v, n, lower, from), size) == HexResult(0, v)
    ensures NUL !in HexDigits(v, n, lower, from)
  {
    var s := HexDigits(v, n, lower, from);
    HexValueOfDigits(v, n, lower, from);
    ConvertAll(s, size);
    assert NUL !in s && (s != [] ==> s[0] in s);
  }

  lemma ConvertAll(s: seq<char>, size: nat)
    requires |s| <= 2 * size && forall c :: c in s ==> IsHexDigit(c)
    ensures Converted(s, size) == HexResult(0, HexValue(s))
  {
    AllDigits(s);
    assert s[..|s|] == s;
  }

  lemma {:induction false} AllDigits(s: seq<char>)
    requires forall c :: c in s ==> IsHexDigit(c)
    ensures DigitRun(s) == |s|
  {
    if s != [] {
      AllDigits(s[1..]);
    }
  }

  /** The digits are the usual ones, in either case. */
  lemma DigitTable(v: nat)
    requires v < 16
    ensures IsHexDigit("0123456789ABCDEF"[v]) && HexValue(["0123456789ABCDEF"[v]]) == v
    ensures IsHexDigit("0123456789abcdef"[v]) && HexValue(["0123456789abcdef"[v]]) == v
    ensures DigitChar(v, false) == "0123456789ABCDEF"[v] && DigitChar(v, true) == "0123456789abcdef"[v]
  {
    OneDigit("0123456789ABCDEF"[v]);
    OneDigit("0123456789abcdef"[v]);
  }

  lemma OneDigit(c: char)
    requires IsHexDigit(c)
    ensures HexValue([c]) == DigitValue(c)
  {
    assert [c][..0] == [];
  }

  /** A number is its upper digits shifted plus its lower ones. */
  lemma {:induction false} HexValueJoins(a: seq<char>, b: seq<char>)
    requires forall c :: c in a + b ==> IsHexDigit(c)
    ensures (forall c :: c in a ==> IsHexDigit(c)) && forall c :: c in b ==> IsHexDigit(c)
    ensures HexValue(a + b) == HexValue(a) * Pow16(|b|) + HexValue(b)
    decreases |b|
  {
    forall c | c in a ensures IsHexDigit(c) {
      assert c in a + b;
    }
    forall c | c in b ensures IsHexDigit(c) {
      assert c in a + b;
    }
    if b == [] {
      assert a + b == a;
    } else {
      var m := |b| - 1;
      assert (a + b)[..|a + b| - 1] == a + b[..m];
      HexValueJoins(a, b[..m]);
      ShiftSum(HexValue(a), Pow16(m), HexValue(b[..m]));
    }
  }

  lemma ShiftSum(x: nat, p: nat, y: nat)
    ensures 16 * (x * p + y) == x * (16 * p) + 16 * y
  {
  }

  /**
   Every outcome of reading a string of which n digits are consumed: a leading '@' is code 3 and stores 0; another
   character that is no digit is code 1, with the digits before it; so is one digit too many, modulo the word.
   */
  lemma HexOfIs(s: seq<char>, size: nat, n: nat)
    requires n <= |s| && n <= 2 * size + 1
    requires forall i :: 0 <= i < n ==> '0' <= s[i] <= '9' || 'A' <= s[i] <= 'F' || 'a' <= s[i] <= 'f'
    requires n <= 2 * size && n < |s| ==> !('0' <= s[n] <= '9' || 'A' <= s[n] <= 'F' || 'a' <= s[n] <= 'f')
    ensures HexOf(s, size)
      == if s != [] && s[0] == '@' then HexResult(3, 0)
         else if n == 2 * size + 1 then HexResult(1, HexValue(s[..n]) % Pow16(2 * size))
         else HexResult(if n < |s| then 1 else 0, HexValue(s[..n]))
  {
    assert forall i :: 0 <= i < n ==> IsHexDigit(s[i]);
    assert n <= 2 * size ==> DigitRun(s) == n;
    assert n == 2 * size + 1 ==> DigitRun(s) >= n;
  }

  // ---------- printing hexadecimal ----------

  lemma {:induction false} Pow16Add(a: nat, b: nat)
    ensures Pow16(a + b) == Pow16(a) * Pow16(b)
  {
    if a > 0 {
      Pow16Add(a - 1, b);
      assert 16 * Pow16(a - 1) * Pow16(b) == 16 * (Pow16(a - 1) * Pow16(b));
    }
  }

  /** Peeling off the most significant digit. */
  lemma {:induction false} TopDigit(v: nat, d: nat, r: nat, n: nat, lower: int -> bool, from: int)
    requires d < 16 && r < Pow16(n) && v == d * Pow16(n) + r
    ensures HexDigits(v, n + 1, lower, from) == [DigitChar(d, lower(from))] + HexDigits(r, n, lower, from + 1)
  {
    if n == 0 {
      assert v == d;
      HexDigitsStep(d, 0, lower, from);
    } else {
      assert v == d * (16 * Pow16(n - 1)) + r;
      DropDigit(d, Pow16(n - 1), r);
      assert v / 16 == d * Pow16(n - 1) + r / 16 && v % 16 == r % 16;
      TopDigit(v / 16, d, r / 16, n - 1, lower, from);
      HexDigitsStep(v, n, lower, from);
      HexDigitsStep(r, n - 1, lower, from + 1);
      PrefixGrows([DigitChar(d, lower(from))], HexDigits(r / 16, n - 1, lower, from + 1),
                  [DigitChar(r % 16, lower(from + n))]);
    }
  }

  lemma HexDigitsStep(v: nat, n: nat, lower: int -> bool, from: int)
    ensures HexDigits(v, n + 1, lower, from) == HexDigits(v / 16, n, lower, from) + [DigitChar(v % 16, lower(from + n))]
  {
  }

  lemma DropDigit(d: nat, p: nat, r: nat)
    ensures (d * (16 * p) + r) / 16 == d * p + r / 16 && (d * (16 * p) + r) % 16 == r % 16
  {
    var k := d * p;
    assert d * (16 * p) == 16 * k;
  }

  /** The printing loop's word: the digits still to print, moved to the top of a word of w digits. */
  ghost predicate Aligned(data: nat, rest: nat, left: nat, w: nat) {
    left <= w && rest < Pow16(left) && data == rest * Pow16(w - left)
  }

  lemma ScaleSplit(p: nat, q: nat, r: nat, s: nat)
    ensures (p * q + r) * s == (p * s) * q + r * s
  {
    assert (p * q + r) * s == (p * q) * s + r * s;
    assert (p * q) * s == p * (q * s) == p * (s * q) == (p * s) * q;
  }

  lemma ScaledBelow(r: nat, p: nat, s: nat)
    requires r < p && s >= 1
    ensures r * s < p * s
  {
  }

  /** Dividing a scaled number by a scaled divisor. */
  lemma ScaledDivMod(v: nat, p: nat, s: nat)
    requires p > 0 && s > 0
    ensures p * s > 0 && (v * s) / (p * s) == v / p && (v * s) % (p * s) == (v % p) * s
  {
    var q, r := v / p, v % p;
    ScaledBelow(0, p, s);
    ScaledBelow(r, p, s);
    ScaleSplit(p, q, r, s);
    assert v == p * q + r;
    DivModUnique(v * s, p * s, q, r * s);
  }

  lemma AlignedStart(value: nat, n: nat, w: nat)
    requires n <= w
    ensures Aligned((value * Pow16(w - n)) % Pow16(w), value % Pow16(n), n, w)
  {
    Pow16Add(n, w - n);
    ScaledDivMod(value, Pow16(n), Pow16(w - n));
  }

  lemma QuotientBelow(v: nat, p: nat)
    requires p > 0 && v < 16 * p
    ensures v / p < 16 && v == (v / p) * p + v % p
  {
    var q := v / p;
    assert v == p * q + v % p;
    if q >= 16 {
      MulAtMost(p, 16, q);
      assert false;
    }
  }

  lemma ShiftOnce(x: nat, s: nat)
    ensures 16 * (x * s) == x * (16 * s)
  {
  }

  /** Taking the top digit off the word and shifting the rest up. */
  lemma AlignedStep(data: nat, rest: nat, left: nat, w: nat)
    requires left > 0 && Aligned(data, rest, left, w)
    ensures var d, rest' := rest / Pow16(left - 1), rest % Pow16(left - 1);
      && d < 16 && d == data / Pow16(w - 1) && rest == d * Pow16(left - 1) + rest'
      && Aligned((16 * data) % Pow16(w), rest', left - 1, w)
  {
    var p, s := Pow16(left - 1), Pow16(w - left);
    QuotientBelow(rest, p);
    Pow16Add(left - 1, w - left);
    ScaledDivMod(rest, p, s);
    Pow16Add(left - 1, w - left + 1);
    ScaledDivMod(rest, p, 16 * s);
    ShiftOnce(rest, s);
  }

  /** Data2HexAscii (wordSize 4) and Data2HexAscii_64 (wordSize 8): the low `size` bytes in upper case, then a NUL. */
  method Data2HexAscii(value: nat, buf: array<char>, size: nat, wordSize: nat)
    requires 0 < size <= wordSize && 2 * size < buf.Length
    modifies buf
    ensures buf[..2 * size] == HexDigits(value % Pow16(2 * size), 2 * size, UPPER, 0)
    ensures buf[2 * size] == NUL
    ensures forall i :: 2 * size < i < buf.Length ==> buf[i] == old(buf[i])
  {
    var w, n := 2 * wordSize, 2 * size;
    var data: nat := (value * Pow16(w - n)) % Pow16(w);
    AlignedStart(value, n, w);
    ghost var rest: nat := value % Pow16(n);
    ghost var text := HexDigits(rest, n, UPPER, 0);
    for i := 0 to n
      invariant Printing(buf, i, data, rest, n, w, text)
      invariant forall k :: n <= k < buf.Length ==> buf[k] == old(buf[k])
    {
      data, rest := PrintNext(buf, i, data, rest, n, w, text);
    }
    buf[n] := NUL;
    assert buf[..n] == text;
  }

  /** i digits of `text` are in the buffer, and the word holds the rest. */
  ghost predicate Printing(buf: array<char>, i: nat, data: nat, rest: nat, n: nat, w: nat, text: seq<char>)
    reads buf
  {
    i <= n < buf.Length && Aligned(data, rest, n - i, w) && buf[..i] + HexDigits(rest, n - i, UPPER, i) == text
  }

  method PrintNext(buf: array<char>, i: nat, data: nat, ghost rest: nat, n: nat, w: nat, ghost text: seq<char>)
    returns (data': nat, ghost rest': nat)
    requires i < n && Printing(buf, i, data, rest, n, w, text)
    modifies buf
    ensures Printing(buf, i + 1, data', rest', n, w, text)
    ensures forall k :: i < k < buf.Length ==> buf[k] == old(buf[k])
  {
    NextTop(data, rest, n - i, w, i);
    rest' := rest % Pow16(n - i - 1);
    ghost var d := rest / Pow16(n - i - 1);
    PrefixGrows(buf[..i], [DigitChar(d, false)], HexDigits(rest', n - i - 1, UPPER, i + 1));
    PrintDigit(buf, i, data / Pow16(w - 1));
    data' := (16 * data) % Pow16(w);
    assert buf[..i + 1] == old(buf[..i]) + [DigitChar(d, false)];
  }

  lemma PrefixGrows(prefix: seq<char>, next: seq<char>, tail: seq<char>)
    ensures prefix + (next + tail) == (prefix + next) + tail
  {
  }

  lemma NextTop(data: nat, rest: nat, left: nat, w: nat, from: nat)
    requires left > 0 && Aligned(data, rest, left, w)
    ensures var p := Pow16(left - 1);
      && rest / p < 16 && rest / p == data / Pow16(w - 1)
      && Aligned((16 * data) % Pow16(w), rest % p, left - 1, w)
      && HexDigits(rest, left, UPPER, from)
         == [DigitChar(rest / p, false)] + HexDigits(rest % p, left - 1, UPPER, from + 1)
  {
    hide Aligned, HexDigits;
    AlignedStep(data, rest, left, w);
    TopDigit(rest, rest / Pow16(left - 1), rest % Pow16(left - 1), left - 1, UPPER, from);
  }

  method PrintDigit(buf: array<char>, i: nat, d: nat)
    requires i < buf.Length && d < 16
    modifies buf
    ensures buf[i] == DigitChar(d, false)
    ensures forall k :: 0 <= k < buf.Length && k != i ==> buf[k] == old(buf[k])
  {
    if d < 0x0a {
      buf[i] := ('0' as int + d) as char;
    } else {
      buf[i] := (d + 55) as char;
    }
  }

  /** HexAscii2Data after Data2HexAscii, through the same buffer. */
  method PrintAndRead(value: nat, buf: array<char>, size: nat, wordSize: nat) returns (ret: nat, data: nat)
    requires 0 < size <= wordSize && 2 * size < buf.Length && value < Pow16(2 * size)
    modifies buf
    ensures ret == 0 && data == value
  {
    SmallMod(value, Pow16(2 * size));
    HexRoundTrip(value, 2 * size, UPPER, 0, wordSize);
    Data2HexAscii(value, buf, size, wordSize);
    CStringIs(buf[..], 2 * size);
    assert buf[..][..2 * size] == buf[..2 * size];
    assert buf[..][2 * size] == NUL;
    ret, data := HexAscii2Data(buf, wordSize);
  }

  // ---------- printing decimal ----------

  function DecChar(d: nat): (c: char)
    requires d < 10
    ensures '0' <= c <= '9' && c as int - '0' as int == d
  {
    ('0' as int + d) as char
  }

  /** The canonical decimal text. */
  function Decimal(v: nat): (s: seq<char>)
    ensures s != []
  {
    if v < 10 then [DecChar(v)] else Decimal(v / 10) + [DecChar(v % 10)]
  }

  function DecimalValue(s: seq<char>): nat
    requires forall i :: 0 <= i < |s| ==> '0' <= s[i] <= '9'
  {
    if s == [] then 0 else 10 * DecimalValue(s[..|s| - 1]) + (s[|s| - 1] as int - '0' as int)
  }

  /** The text denotes the number, uses digits only, and starts with 0 only when the number is 0. */
  lemma {:induction false} DecimalIsCanonical(v: nat)
    ensures forall i :: 0 <= i < |Decimal(v)| ==> '0' <= Decimal(v)[i] <= '9'
    ensures DecimalValue(Decimal(v)) == v
    ensures Decimal(v)[0] == '0' <==> v == 0
  {
    if v < 10 {
      assert Decimal(v)[..0] == [];
    } else {
      DecimalIsCanonical(v / 10);
      assert Decimal(v)[..|Decimal(v)| - 1] == Decimal(v / 10);
    }
  }

  function Pow10(n: nat): (p: nat)
    ensures p >= 1
  {
    if n == 0 then 1 else 10 * Pow10(n - 1)
  }

  /** Exactly n decimal digits. */
  function Padded(v: nat, n: nat): (s: seq<char>)
    ensures |s| == n
  {
    if n == 0 then [] else Padded(v / 10, n - 1) + [DecChar(v % 10)]
  }

  lemma PaddedStep(v: nat, n: nat)
    ensures Padded(v, n + 1) == Padded(v / 10, n) + [DecChar(v % 10)]
  {
  }

  lemma {:induction false} TopDecimal(v: nat, d: nat, r: nat, n: nat)
    requires d < 10 && r < Pow10(n) && v == d * Pow10(n) + r
    ensures Padded(v, n + 1) == [DecChar(d)] + Padded(r, n)
  {
    if n == 0 {
      PaddedStep(v, 0);
    } else {
      DropDecimal(d, Pow10(n - 1), r);
      TopDecimal(v / 10, d, r / 10, n - 1);
      PaddedStep(v, n);
      PaddedStep(r, n - 1);
      PrefixGrows([DecChar(d)], Padded(r / 10, n - 1), [DecChar(r % 10)]);
    }
  }

  lemma DropDecimal(d: nat, p: nat, r: nat)
    ensures (d * (10 * p) + r) / 10 == d * p + r / 10 && (d * (10 * p) + r) % 10 == r % 10
  {
    var k := d * p;
    assert d * (10 * p) == 10 * k;
  }

  lemma {:induction false} DecimalIsPadded(v: nat, n: nat)
    requires Pow10(n) <= v < Pow10(n + 1)
    ensures Decimal(v) == Padded(v, n + 1)
  {
    PaddedStep(v, n);
    if n > 0 {
      DecimalIsPadded(v / 10, n - 1);
    }
  }

  /** One position of the decimal loop: subtract its power of ten as often as possible. */
  method CountDown(rest: nat, dataL: nat) returns (dataB: nat, rest': nat)
    requires dataL > 0 && rest < Pow10(dataL)
    ensures dataB < 10 && rest' < Pow10(dataL - 1) && rest == dataB * Pow10(dataL - 1) + rest'
  {
    var comp, i: nat := 1, 1;
    while i < dataL
      invariant 1 <= i <= dataL && comp == Pow10(i - 1)
    {
      comp, i := comp * 10, i + 1;
    }
    dataB, rest' := 0, rest;
    while rest' >= comp
      invariant rest == dataB * comp + rest'
    {
      TimesNext(dataB, comp);
      rest', dataB := rest' - comp, dataB + 1;
    }
    if dataB >= 10 {
      MulAtMost(comp, 10, dataB);
    }
  }

  lemma TimesNext(a: nat, b: nat)
    ensures (a + 1) * b == a * b + b
  {
  }

  /** Hex2DecAscii, for every 32-bit value. */
  method Hex2DecAscii(value: Uint32, str: array<char>) returns (chcnt: nat)
    requires str.Length >= 11
    modifies str
    ensures chcnt <= 10 && str[..chcnt] == Decimal(value) && str[chcnt] == NUL
  {
    var rest: nat, dataL: nat := value, 10;
    var countstart := false;
    chcnt := 0;
    assert Pow10(10) == 10000000000 by { assert Pow10(5) == 100000; }
    while dataL > 0
      invariant dataL <= 10 && rest < Pow10(dataL) && chcnt <= 10 - dataL
      invariant countstart ==> str[..chcnt] + Padded(rest, dataL) == Decimal(value)
      invariant !countstart ==> chcnt == 0 && rest == value
    {
      chcnt, rest, countstart := PrintPosition(value, str, chcnt, rest, dataL, countstart);
      dataL := dataL - 1;
    }
    if chcnt == 0 {
      str[0] := '0';
      chcnt := 1;
    }
    str[chcnt] := NUL;
  }

  method PrintPosition(value: nat, str: array<char>, chcnt: nat, rest: nat, dataL: nat, countstart: bool)
    returns (chcnt': nat, rest': nat, countstart': bool)
    requires 0 < dataL && rest < Pow10(dataL) && chcnt < str.Length
    requires countstart ==> str[..chcnt] + Padded(rest, dataL) == Decimal(value)
    requires !countstart ==> chcnt == 0 && rest == value
    modifies str
    ensures rest' < Pow10(dataL - 1) && chcnt' <= chcnt + 1
    ensures countstart' ==> str[..chcnt'] + Padded(rest', dataL - 1) == Decimal(value)
    ensures !countstart' ==> chcnt' == 0 && rest' == value
  {
    var dataB;
    dataB, rest' := CountDown(rest, dataL);
    countstart' := countstart || dataB > 0;
    chcnt' := chcnt;
    if countstart' {
      if !countstart {
        FirstDigit(value, dataB, rest', dataL - 1);
        assert str[..0] == [];
      }
      NextDecimal(str[..chcnt], rest, dataB, rest', dataL - 1);
      str[chcnt] := ('0' as int + dataB) as char;
      chcnt' := chcnt + 1;
      assert str[..chcnt'] == old(str[..chcnt]) + [DecChar(dataB)];
    }
  }

  lemma FirstDigit(v: nat, d: nat, r: nat, n: nat)
    requires 0 < d && v < Pow10(n + 1) && v == d * Pow10(n) + r
    ensures [] + Padded(v, n + 1) == Decimal(v)
  {
    MulAtMost(Pow10(n), 1, d);
    DecimalIsPadded(v, n);
  }

  lemma NextDecimal(prefix: seq<char>, v: nat, d: nat, r: nat, n: nat)
    requires d < 10 && r < Pow10(n) && v == d * Pow10(n) + r
    ensures prefix + Padded(v, n + 1) == (prefix + [DecChar(d)]) + Padded(r, n)
  {
    TopDecimal(v, d, r, n);
    PrefixGrows(prefix, [DecChar(d)], Padded(r, n));
  }
}
