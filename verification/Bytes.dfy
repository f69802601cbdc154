/**
 Fixed-width integers and the byte orders the programs move them through.
 `!H`, `!I` and `!Q` of Python's struct are big-endian; a BPF map dump without
 type information lists a value's bytes little-endian.
 */
module Bytes {

  type byte = x: int | 0 <= x < 0x100
  type u16 = x: int | 0 <= x < 0x1_0000
  type u32 = x: int | 0 <= x < 0x1_0000_0000
  type u64 = x: int | 0 <= x < 0x1_0000_0000_0000_0000

  /** The 16-bit word whose network-order bytes are `hi`, `lo`. */
  function Word(hi: byte, lo: byte): u16 { 0x100 * hi + lo }

  function Hi(w: u16): byte { w / 0x100 }

  function Lo(w: u16): byte { w % 0x100 }

  lemma WordBytes(hi: byte, lo: byte)
    ensures Hi(Word(hi, lo)) == hi && Lo(Word(hi, lo)) == lo
  {
  }

  lemma SplitWord(w: u16)
    ensures Word(Hi(w), Lo(w)) == w
  {
  }

  /** The network-order word at offset `i` of `f`. */
  function U16At(f: seq<byte>, i: nat): u16
    requires i + 2 <= |f|
  {
    Word(f[i], f[i + 1])
  }

  /** 256 to the power `n`: the number of values of an `n`-byte field. */
  function Range(n: nat): (r: nat)
    ensures r > 0
  {
    if n == 0 then 1 else 0x100 * Range(n - 1)
  }

  function BigEndian(n: nat, v: nat): (b: seq<byte>)
    ensures |b| == n
  {
    if n == 0 then [] else BigEndian(n - 1, v / 0x100) + [v % 0x100]
  }

  function FromBigEndian(b: seq<byte>): nat {
    if b == [] then 0 else 0x100 * FromBigEndian(b[..|b| - 1]) + b[|b| - 1]
  }

  function LittleEndian(n: nat, v: nat): (b: seq<byte>)
    ensures |b| == n
  {
    if n == 0 then [] else [v % 0x100] + LittleEndian(n - 1, v / 0x100)
  }

  function FromLittleEndian(b: seq<byte>): nat {
    if b == [] then 0 else b[0] + 0x100 * FromLittleEndian(b[1..])
  }

  lemma {:induction false} BigEndianRoundTrip(n: nat, v: nat)
    requires v < Range(n)
    ensures FromBigEndian(BigEndian(n, v)) == v
  {
    if n > 0 {
      BigEndianRoundTrip(n - 1, v / 0x100);
      assert BigEndian(n, v)[..n - 1] == BigEndian(n - 1, v / 0x100);
    }
  }

  lemma {:induction false} LittleEndianRoundTrip(n: nat, v: nat)
    requires v < Range(n)
    ensures FromLittleEndian(LittleEndian(n, v)) == v
  {
    if n > 0 {
      LittleEndianRoundTrip(n - 1, v / 0x100);
      assert LittleEndian(n, v)[1..] == LittleEndian(n - 1, v / 0x100);
    }
  }

  function DecimalDigits(v: nat): seq<nat> {
    if v < 10 then [v] else DecimalDigits(v / 10) + [v % 10]
  }

  function FromDecimal(digits: seq<nat>): nat {
    if digits == [] then 0 else 10 * FromDecimal(digits[..|digits| - 1]) + digits[|digits| - 1]
  }

  lemma {:induction false} DecimalRoundTrip(v: nat)
    ensures FromDecimal(DecimalDigits(v)) == v
  {
    if v >= 10 {
      DecimalRoundTrip(v / 10);
      assert DecimalDigits(v)[..|DecimalDigits(v)| - 1] == DecimalDigits(v / 10);
    } else {
      assert DecimalDigits(v)[..0] == [];
    }
  }

  /** The byte at position `i` of a big-endian field counts as much as the bytes behind it have values. */
  lemma {:induction false} BigEndianAt(n: nat, v: nat, i: nat)
    requires i < n
    ensures BigEndian(n, v)[i] == v / Range(n - 1 - i) % 0x100
  {
    if i < n - 1 {
      BigEndianAt(n - 1, v / 0x100, i);
      DivDiv(v, Range(n - 2 - i));
    } else {
      assert Range(0) == 1 && v / 1 == v;
    }
  }

  lemma {:induction false} LittleEndianAt(n: nat, v: nat, i: nat)
    requires i < n
    ensures LittleEndian(n, v)[i] == v / Range(i) % 0x100
  {
    if i > 0 {
      LittleEndianAt(n - 1, v / 0x100, i - 1);
      DivDiv(v, Range(i - 1));
    } else {
      assert Range(0) == 1 && v / 1 == v;
    }
  }

  lemma DivDiv(v: nat, r: nat)
    requires r > 0
    ensures v / 0x100 / r == v / (0x100 * r)
  {
    var q := v / 0x100 / r;
    var rest := v / 0x100 % r;
    assert v / 0x100 == q * r + rest;
    assert v == 0x100 * (q * r + rest) + v % 0x100;
    var d := 0x100 * r;
    assert v == q * d + (0x100 * rest + v % 0x100);
    assert 0 <= 0x100 * rest + v % 0x100 < d;
    QuotientIs(v, d, q, 0x100 * rest + v % 0x100);
  }

  lemma QuotientIs(v: nat, d: nat, q: nat, r: nat)
    requires d > 0 && v == q * d + r && r < d
    ensures v / d == q
  {
    var q' := v / d;
    assert v == q' * d + v % d;
    assert q' < q ==> (q' + 1) * d <= q * d;
    assert q' > q ==> (q + 1) * d <= q' * d;
  }

  /** Decimal digits are digits, and each one to the left counts ten times as much. */
  lemma {:induction false} DecimalDigitsAre(v: nat, digits: seq<nat>, d: nat)
    ensures forall i | 0 <= i < |DecimalDigits(v)| :: DecimalDigits(v)[i] < 10
    ensures FromDecimal([]) == 0 && FromDecimal(digits + [d]) == 10 * FromDecimal(digits) + d
  {
    assert (digits + [d])[..|digits|] == digits;
    if v >= 10 {
      DecimalDigitsAre(v / 10, digits, d);
    }
  }

  lemma FieldRanges()
    ensures Range(4) == 0x1_0000_0000
    ensures Range(8) == 0x1_0000_0000_0000_0000
  {
    assert Range(1) == 0x100 && Range(2) == 0x1_0000 && Range(3) == 0x100_0000;
    assert Range(5) == 0x100_0000_0000 && Range(6) == 0x1_0000_0000_0000;
    assert Range(7) == 0x100_0000_0000_0000;
  }
}
