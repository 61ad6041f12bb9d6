/** Byte strings read as numbers: powers of two, big-endian and little-endian
    values, and the digits an arbitrary precision integer exports. */
module Bytes {
  type byte = x: int | 0 <= x < 256
  type Bytes = seq<byte>

  function Pow2(e: nat): (p: nat)
    ensures p >= 1
  {
    if e == 0 then 1 else 2 * Pow2(e - 1)
  }

  lemma {:induction false} Pow2Add(a: nat, b: nat)
    ensures Pow2(a + b) == Pow2(a) * Pow2(b)
  {
    if b != 0 {
      Pow2Add(a, b - 1);
      assert a + b - 1 == a + (b - 1);
    }
  }

  lemma {:induction false} Pow2Monotone(a: nat, b: nat)
    requires a <= b
    ensures Pow2(a) <= Pow2(b)
  {
    if a < b {
      Pow2Monotone(a, b - 1);
    }
  }

  lemma Pow2Strict(a: nat, b: nat)
    requires a < b
    ensures 2 * Pow2(a) <= Pow2(b)
  {
    Pow2Monotone(a + 1, b);
  }

  lemma Pow2Byte(n: nat)
    ensures Pow2(8 * (n + 1)) == 256 * Pow2(8 * n)
  {
    Pow2Add(8 * n, 8);
    assert Pow2(8) == 256 by { Pow2Small(); }
  }

  lemma Pow2Small()
    ensures Pow2(0) == 1 && Pow2(1) == 2 && Pow2(2) == 4 && Pow2(3) == 8 && Pow2(4) == 16
    ensures Pow2(5) == 32 && Pow2(6) == 64 && Pow2(7) == 128 && Pow2(8) == 256
  {
    assert Pow2(3) == 8;
    assert Pow2(5) == 32;
  }

  lemma Pow2Words()
    ensures Pow2(31) == 0x8000_0000 && Pow2(32) == 0x1_0000_0000
    ensures Pow2(63) == 0x8000_0000_0000_0000 && Pow2(64) == 0x1_0000_0000_0000_0000
  {
    Pow2Small();
    Pow2Add(8, 8);
    Pow2Add(16, 16);
    Pow2Add(32, 32);
    assert Pow2(32) == 2 * Pow2(31);
    assert Pow2(64) == 2 * Pow2(63);
  }

  /** The number a byte string denotes, most significant byte first (mpz_import). */
  function Value(bs: Bytes): nat
  {
    if bs == [] then 0 else Value(bs[..|bs| - 1]) * 256 + bs[|bs| - 1]
  }

  /** The low n base-256 digits of v, most significant first. */
  function Fixed(v: nat, n: nat): (bs: Bytes)
    ensures |bs| == n
  {
    if n == 0 then [] else Fixed(v / 256, n - 1) + [v % 256]
  }

  /** The digits of v without leading zeros (mpz_export); none at all for zero. */
  function Export(v: nat): Bytes
  {
    if v == 0 then [] else Export(v / 256) + [v % 256]
  }

  function Zeros(n: nat): (bs: Bytes)
    ensures |bs| == n
    ensures forall i :: 0 <= i < n ==> bs[i] == 0
  {
    seq(n, i => 0)
  }

  /** What the first n bytes of a buffer hold after v was exported to it and padded:
      the n digits of v when they suffice, else the n most significant digits. */
  function Fit(v: nat, n: nat): (bs: Bytes)
    ensures |bs| == n
  {
    if |Export(v)| <= n then Fixed(v, n) else Export(v)[..n]
  }

  lemma {:induction false} ValueBound(bs: Bytes)
    ensures Value(bs) < Pow2(8 * |bs|)
  {
    if bs != [] {
      ValueBound(bs[..|bs| - 1]);
      Pow2Byte(|bs| - 1);
    }
  }

  lemma {:induction false} ValueOfFixed(v: nat, n: nat)
    requires v < Pow2(8 * n)
    ensures Value(Fixed(v, n)) == v
  {
    if n != 0 {
      Pow2Byte(n - 1);
      ValueOfFixed(v / 256, n - 1);
      assert Fixed(v, n)[..n - 1] == Fixed(v / 256, n - 1);
    }
  }

  lemma {:induction false} FixedOfValue(bs: Bytes)
    ensures Fixed(Value(bs), |bs|) == bs
  {
    if bs != [] {
      FixedOfValue(bs[..|bs| - 1]);
      assert bs == bs[..|bs| - 1] + [bs[|bs| - 1]];
    }
  }

  lemma {:induction false} FixedPads(v: nat, n: nat)
    requires |Export(v)| <= n
    ensures Fixed(v, n) == Zeros(n - |Export(v)|) + Export(v)
  {
    if n != 0 {
      if v == 0 {
        FixedPads(0, n - 1);
      } else {
        FixedPads(v / 256, n - 1);
      }
    }
  }

  lemma {:induction false} ExportLength(v: nat, n: nat)
    ensures |Export(v)| <= n <==> v < Pow2(8 * n)
  {
    if v == 0 {
    } else if n == 0 {
    } else {
      ExportLength(v / 256, n - 1);
      Pow2Byte(n - 1);
    }
  }

  lemma FitValue(v: nat, n: nat)
    ensures Value(Fit(v, n)) == v <==> v < Pow2(8 * n)
  {
    ExportLength(v, n);
    ValueBound(Fit(v, n));
    if v < Pow2(8 * n) {
      ValueOfFixed(v, n);
    }
  }

  /** Little-endian integers, as the C++ writers store long, int and double. */
  function Little(v: nat, n: nat): (bs: Bytes)
    ensures |bs| == n
  {
    if n == 0 then [] else [v % 256] + Little(v / 256, n - 1)
  }

  function LittleValue(bs: Bytes): nat
  {
    if bs == [] then 0 else bs[0] + 256 * LittleValue(bs[1..])
  }

  lemma {:induction false} LittleValueOfLittle(v: nat, n: nat)
    requires v < Pow2(8 * n)
    ensures LittleValue(Little(v, n)) == v
  {
    if n != 0 {
      Pow2Byte(n - 1);
      LittleValueOfLittle(v / 256, n - 1);
      assert Little(v, n)[1..] == Little(v / 256, n - 1);
    }
  }

  lemma {:induction false} LittleValueBound(bs: Bytes)
    ensures LittleValue(bs) < Pow2(8 * |bs|)
  {
    if bs != [] {
      LittleValueBound(bs[1..]);
      Pow2Byte(|bs| - 1);
    }
  }

  lemma {:induction false} LittleOfLittleValue(bs: Bytes)
    ensures Little(LittleValue(bs), |bs|) == bs
  {
    if bs != [] {
      LittleOfLittleValue(bs[1..]);
      assert bs == [bs[0]] + bs[1..];
    }
  }

  // ---------- which byte is which digit ----------

  lemma DivTwice(v: nat, a: nat, b: nat)
    requires a >= 1 && b >= 1
    ensures a * b >= 1 && v / a / b == v / (a * b)
  {
    var q, r := v / a, v % a;
    var t, u := q / b, q % b;
    assert v == a * q + r && q == b * t + u;
    assert v == a * b * t + (a * u + r) by { assert a * (b * t + u) == a * b * t + a * u; }
    MulBelow(a, u, b, r);
    QuotientIs(v, a * b, t, a * u + r);
  }

  lemma MulBelow(a: nat, u: nat, b: nat, r: nat)
    requires u < b && r < a
    ensures 0 <= a * u + r < a * b
  {
    assert a * u + a <= a * b by { assert a * (b - 1 - u) >= 0; }
  }

  lemma QuotientIs(v: nat, m: nat, t: nat, r: nat)
    requires m >= 1 && v == m * t + r && r < m
    ensures v / m == t
  {
    QuotientIsUnique(m, v / m, v % m, t, r);
  }

  lemma QuotientIsUnique(m: nat, q: int, s: nat, t: int, r: nat)
    requires m >= 1 && r < m && s < m && m * q + s == m * t + r
    ensures q == t
  {
    if q < t {
      assert m * (t - q) >= m by { MulAtLeast(m, t - q); }
    } else if t < q {
      assert m * (q - t) >= m by { MulAtLeast(m, q - t); }
    }
  }

  lemma MulAtLeast(m: nat, d: int)
    requires d >= 1
    ensures m * d >= m
  {
  }

  lemma DigitShift(v: nat, i: nat)
    ensures v / Pow2(8 * (i + 1)) == v / 256 / Pow2(8 * i)
  {
    Pow2Byte(i);
    DivTwice(v, 256, Pow2(8 * i));
  }

  /** Byte i of a little-endian field is digit i of the number. */
  lemma {:induction false} LittleDigit(v: nat, n: nat, i: nat)
    requires i < n
    ensures Little(v, n)[i] == v / Pow2(8 * i) % 256
  {
    if i != 0 {
      LittleDigit(v / 256, n - 1, i - 1);
      DigitShift(v, i - 1);
    }
  }

  /** In a big-endian field of n bytes it is byte n - 1 - i. */
  lemma {:induction false} FixedDigit(v: nat, n: nat, i: nat)
    requires i < n
    ensures Fixed(v, n)[n - 1 - i] == v / Pow2(8 * i) % 256
  {
    if i != 0 {
      FixedDigit(v / 256, n - 1, i - 1);
      DigitShift(v, i - 1);
    }
  }

  /** A number read from bytes has these bytes as its digits: least significant first for
      little-endian numbers, last for big-endian ones. */
  lemma {:induction false} ReadDigit(bs: Bytes, i: nat)
    requires i < |bs|
    ensures LittleValue(bs) / Pow2(8 * i) % 256 == bs[i]
    ensures Value(bs) / Pow2(8 * (|bs| - 1 - i)) % 256 == bs[i]
  {
    LittleOfLittleValue(bs);
    LittleDigit(LittleValue(bs), |bs|, i);
    FixedOfValue(bs);
    FixedDigit(Value(bs), |bs|, |bs| - 1 - i);
  }

  lemma RemainderIs(v: nat, m: nat, t: nat, r: nat)
    requires m >= 1 && v == m * t + r && r < m
    ensures v % m == r
  {
    QuotientIs(v, m, t, r);
  }

  /** A field that is too short keeps the low digits. */
  lemma {:induction false} LittleValueOfShort(v: nat, n: nat)
    ensures LittleValue(Little(v, n)) == v % Pow2(8 * n)
  {
    if n != 0 {
      var p := Pow2(8 * (n - 1));
      Pow2Byte(n - 1);
      LittleValueOfShort(v / 256, n - 1);
      assert Little(v, n)[1..] == Little(v / 256, n - 1);
      RemainderTwice(v, p);
    }
  }

  lemma RemainderTwice(v: nat, p: nat)
    requires p >= 1
    ensures v % (256 * p) == v % 256 + 256 * (v / 256 % p)
  {
    var w, u := v / 256, v % 256;
    var t, r := w / p, w % p;
    assert w == p * t + r;
    assert 256 * (p * t) == 256 * p * t;
    RemainderIs(v, 256 * p, t, u + 256 * r);
  }
}
