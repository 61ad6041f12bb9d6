/** Bit fields packed most significant bit first into a byte buffer, and the writer and
    reader objects that the exponent stream is built with. */
module Bitstream {
  import opened Bytes

  type Bits = seq<bool>

  /** The low n bits of v, most significant first. */
  function BitsOf(v: nat, n: nat): (b: Bits)
    ensures |b| == n
  {
    if n == 0 then [] else BitsOf(v / 2, n - 1) + [v % 2 == 1]
  }

  /** The number that the n bits from position from on denote. */
  function Field(b: Bits, from: nat, n: nat): nat {
    if n == 0 then 0
    else 2 * Field(b, from, n - 1) + (if from + n - 1 < |b| && b[from + n - 1] then 1 else 0)
  }

  const BYTE_BITS: nat := 8

  /** All bits of a buffer. */
  function ByteBits(data: Bytes): (b: Bits)
    ensures |b| == 8 * |data|
  {
    if data == [] then [] else ByteBits(data[..|data| - 1]) + BitsOf(data[|data| - 1], BYTE_BITS)
  }

  // ---------- the C++ shifts and masks ----------

  /** v >> k */
  function Shr(v: nat, k: nat): nat {
    if k == 0 then v else Shr(v / 2, k - 1)
  }

  /** v << k */
  function Shl(v: nat, k: nat): nat {
    if k == 0 then v else 2 * Shl(v, k - 1)
  }

  /** v & (2^k - 1) */
  function Low(v: nat, k: nat): nat {
    if k == 0 then 0 else 2 * Low(v / 2, k - 1) + v % 2
  }

  lemma {:induction false} LowBound(v: nat, k: nat)
    ensures Low(v, k) < Pow2(k)
    ensures v < Pow2(k) ==> Low(v, k) == v
  {
    if k != 0 { LowBound(v / 2, k - 1); }
  }

  lemma {:induction false} LowOfZero(k: nat)
    ensures Low(0, k) == 0
  {
    if k != 0 { LowOfZero(k - 1); }
  }

  // ---------- bit strings ----------

  lemma {:induction false} BitsSplit(v: nat, a: nat, b: nat)
    ensures BitsOf(v, a + b) == BitsOf(Shr(v, b), a) + BitsOf(v, b)
  {
    if b != 0 {
      BitsSplit(v / 2, a, b - 1);
      assert a + b - 1 == a + (b - 1);
    }
  }

  lemma {:induction false} BitsOfLow(v: nat, n: nat)
    ensures BitsOf(Low(v, n), n) == BitsOf(v, n)
  {
    if n != 0 {
      BitsOfLow(v / 2, n - 1);
      assert Low(v, n) / 2 == Low(v / 2, n - 1) && Low(v, n) % 2 == v % 2;
    }
  }

  /** A field that holds the low n bits of v reads back as these. */
  lemma {:induction false} FieldReadBack(b: Bits, from: nat, v: nat, n: nat)
    requires from + n <= |b| && b[from..from + n] == BitsOf(v, n)
    ensures Field(b, from, n) == Low(v, n)
  {
    if n != 0 {
      var c := b[from..from + n];
      assert c[..n - 1] == b[from..from + (n - 1)] == BitsOf(v / 2, n - 1);
      FieldReadBack(b, from, v / 2, n - 1);
      assert b[from + n - 1] == c[n - 1];
    }
  }

  lemma {:induction false} FieldAppend(b: Bits, from: nat, m: nat, n: nat)
    ensures Field(b, from, m + n) == Shl(Field(b, from, m), n) + Field(b, from + m, n)
  {
    if n != 0 {
      FieldAppend(b, from, m, n - 1);
      assert m + n - 1 == m + (n - 1);
    }
  }

  lemma {:induction false} FieldBound(b: Bits, from: nat, n: nat)
    ensures Field(b, from, n) < Pow2(n)
  {
    if n != 0 { FieldBound(b, from, n - 1); }
  }

  lemma {:induction false} ByteBitsSplit(data: Bytes, i: nat)
    requires i < |data|
    ensures ByteBits(data) == ByteBits(data[..i]) + BitsOf(data[i], BYTE_BITS) + ByteBits(data[i + 1..])
  {
    var front := data[..|data| - 1];
    if i + 1 < |data| {
      ByteBitsSplit(front, i);
      assert front[..i] == data[..i];
      var rest := data[i + 1..];
      assert rest[..|rest| - 1] == front[i + 1..];
    }
  }

  /** The n bits at position o of byte i are those of the byte shifted down and masked. */
  lemma {:induction false} FieldInByte(data: Bytes, i: nat, o: nat, n: nat)
    requires i < |data| && o + n <= 8
    ensures ByteBits(data)[8 * i + o..8 * i + o + n] == BitsOf(Shr(data[i], 8 - o - n), n)
  {
    ByteBitsSplit(data, i);
    BitsSplit(data[i], o + n, 8 - o - n);
    BitsSplit(Shr(data[i], 8 - o - n), o, n);
    ShrShr(data[i], 8 - o - n, n);
  }

  lemma {:induction false} ShrShr(v: nat, a: nat, b: nat)
    ensures Shr(Shr(v, a), b) == Shr(v, a + b)
  {
    if a != 0 { ShrShr(v / 2, a - 1, b); }
  }

  // ---------- the same in arithmetic ----------

  lemma HalfFirst(v: nat, k: nat)
    ensures v / 2 / Pow2(k) == v / Pow2(k + 1)
  {
    DivTwice(v, 2, Pow2(k));
  }

  lemma {:induction false} ShrDivides(v: nat, k: nat)
    ensures Shr(v, k) == v / Pow2(k)
  {
    if k != 0 {
      ShrDivides(v / 2, k - 1);
      HalfFirst(v, k - 1);
    }
  }

  lemma {:induction false} ShlMultiplies(v: nat, k: nat)
    ensures Shl(v, k) == v * Pow2(k)
  {
    if k != 0 {
      ShlMultiplies(v, k - 1);
      DoubleProduct(v, Pow2(k - 1));
    }
  }

  lemma DoubleProduct(v: nat, p: nat)
    ensures v * (2 * p) == 2 * (v * p)
  {
  }

  lemma {:induction false} LowIsRemainder(v: nat, k: nat)
    ensures Low(v, k) == v % Pow2(k)
  {
    if k != 0 {
      LowIsRemainder(v / 2, k - 1);
      HalfOfRemainder(v, Pow2(k - 1));
    }
  }

  lemma HalfOfRemainder(v: nat, p: nat)
    requires p >= 1
    ensures v % (2 * p) == 2 * (v / 2 % p) + v % 2
  {
    var w, u := v / 2, v % 2;
    var t, r := w / p, w % p;
    assert w == p * t + r;
    assert 2 * (p * t) == 2 * p * t;
    RemainderIs(v, 2 * p, t, 2 * r + u);
  }

  /** Shifting down divides, shifting up multiplies by a power of two, the mask is the remainder. */
  lemma {:induction false} ShiftsAndMasks(v: nat, k: nat)
    ensures Shr(v, k) == v / Pow2(k) && Shl(v, k) == v * Pow2(k) && Low(v, k) == v % Pow2(k)
  {
    ShrDivides(v, k);
    ShlMultiplies(v, k);
    LowIsRemainder(v, k);
  }

  /** Bit k of the n low bits of a number, counted from the left, is digit n - 1 - k of it. */
  lemma {:induction false} BitIsDigit(v: nat, n: nat, k: nat)
    requires k < n
    ensures BitsOf(v, n)[k] <==> v / Pow2(n - 1 - k) % 2 == 1
  {
    if k < n - 1 {
      BitIsDigit(v / 2, n - 1, k);
      HalfFirst(v, n - 2 - k);
    }
  }

  /** Bit k of a buffer is bit 7 - k % 8 of byte k / 8. */
  lemma {:induction false} BufferBit(data: Bytes, k: nat)
    requires k < 8 * |data|
    ensures ByteBits(data)[k] <==> data[k / 8] / Pow2(7 - k % 8) % 2 == 1
  {
    ByteBitsSplit(data, k / 8);
    var front := ByteBits(data[..k / 8]);
    assert ByteBits(data)[k] == BitsOf(data[k / 8], BYTE_BITS)[k - |front|];
    BitIsDigit(data[k / 8], BYTE_BITS, k % 8);
  }

  /** A field is the number whose digits are its bits. */
  lemma {:induction false} FieldDigit(b: Bits, from: nat, n: nat, k: nat)
    requires from + n <= |b| && k < n
    ensures b[from + k] <==> Field(b, from, n) / Pow2(n - 1 - k) % 2 == 1
  {
    if k < n - 1 {
      FieldDigit(b, from, n - 1, k);
      HalfFirst(Field(b, from, n), n - 2 - k);
    }
  }

  // ---------- writer ----------

  /** Adding n bits to a number whose low n bits are clear sets exactly those bits. */
  lemma {:induction false} AddLowField(v: nat, x: nat, n: nat, w: nat)
    requires Low(v, n) == 0 && x < Pow2(n) && n <= w
    ensures BitsOf(v + x, w) == BitsOf(Shr(v, n), w - n) + BitsOf(x, n)
    ensures v < Pow2(w) ==> v + x < Pow2(w)
  {
    if n > 0 {
      AddLowField(v / 2, x / 2, n - 1, w - 1);
      assert v % 2 == 0;
      assert (v + x) / 2 == v / 2 + x / 2 && (v + x) % 2 == x % 2;
    }
  }

  /** Adding a field of n bits at position k to a number whose low k + n bits are clear
      sets exactly those bits. */
  lemma {:induction false} AddField(v: nat, x: nat, k: nat, n: nat, w: nat)
    requires Low(v, k + n) == 0 && x < Pow2(n) && k + n <= w
    ensures BitsOf(v + Shl(x, k), w) == BitsOf(Shr(v, k + n), w - k - n) + BitsOf(x, n) + BitsOf(0, k)
    ensures v < Pow2(w) ==> v + Shl(x, k) < Pow2(w)
    ensures Low(v + Shl(x, k), k) == 0
  {
    if k > 0 {
      AddField(v / 2, x, k - 1, n, w - 1);
      assert v % 2 == 0;
      assert (v + Shl(x, k)) / 2 == v / 2 + Shl(x, k - 1) && (v + Shl(x, k)) % 2 == 0;
    } else {
      AddLowField(v, x, n, w);
    }
  }

  /** Everything from bit offset on is still clear. */
  ghost predicate Clear(data: Bytes, offset: nat) {
    && (forall j :: offset / 8 < j < |data| ==> data[j] == 0)
    && (offset / 8 < |data| ==> Low(data[offset / 8], 8 - offset % 8) == 0)
  }

  /** Storing a field in one byte extends the written bits by that field. */
  lemma {:induction false} ByteUpdate(data: Bytes, data': Bytes, offset: nat, n: nat, value: nat)
    requires |data| == |data'| && offset / 8 < |data| && offset % 8 + n <= 8 && Clear(data, offset)
    requires data' == data[offset / 8 := data'[offset / 8]]
    requires data'[offset / 8] == data[offset / 8] + Shl(Low(value, n), 8 - offset % 8 - n)
    ensures offset + n <= 8 * |data'| && Clear(data', offset + n)
    ensures ByteBits(data')[..offset + n] == ByteBits(data)[..offset] + BitsOf(value, n)
  {
    var i, o := offset / 8, offset % 8;
    ByteField(data[i], value, o, n);
    ClearAfter(data, data', offset, n);
    assert offset == 8 * i + o && offset + n == 8 * i + o + n;
    assert data'[..i] == data[..i];
    BitsUpdate(data, data', i, o, n, BitsOf(value, n));
  }

  lemma {:induction false} BitsUpdate(data: Bytes, data': Bytes, i: nat, o: nat, n: nat, field: Bits)
    requires i < |data| && i < |data'| && o + n <= BYTE_BITS && data'[..i] == data[..i]
    requires BitsOf(data'[i], BYTE_BITS)[..o + n] == BitsOf(data[i], BYTE_BITS)[..o] + field
    ensures ByteBits(data')[..8 * i + o + n] == ByteBits(data)[..8 * i + o] + field
  {
    PrefixBits(data, i, o);
    PrefixBits(data', i, o + n);
    Associate(ByteBits(data[..i]), BitsOf(data[i], BYTE_BITS)[..o], field);
  }

  lemma Associate(a: Bits, b: Bits, c: Bits)
    ensures a + (b + c) == (a + b) + c
  {
  }

  /** The first 8i + k bits are those of the first i bytes and k bits of byte i. */
  lemma {:induction false} PrefixBits(data: Bytes, i: nat, k: nat)
    requires i < |data| && k <= BYTE_BITS
    ensures ByteBits(data)[..8 * i + k] == ByteBits(data[..i]) + BitsOf(data[i], BYTE_BITS)[..k]
  {
    ByteBitsSplit(data, i);
    SpliceBits(ByteBits(data[..i]), BitsOf(data[i], BYTE_BITS), ByteBits(data[i + 1..]), k);
  }

  lemma {:induction false} ByteField(before: nat, value: nat, o: nat, n: nat)
    requires o + n <= 8 && Low(before, 8 - o) == 0
    ensures var after := before + Shl(Low(value, n), 8 - o - n);
            && BitsOf(after, BYTE_BITS)[..o + n] == BitsOf(before, BYTE_BITS)[..o] + BitsOf(value, n)
            && Low(after, 8 - o - n) == 0
            && (before < 256 ==> after < 256)
  {
    LowBound(value, n);
    Pow2Small();
    AddField(before, Low(value, n), 8 - o - n, n, BYTE_BITS);
    BitsOfLow(value, n);
    BitsSplit(before, o, 8 - o);
  }

  /** A byte whose bits from position o on are clear, with a field of n bits there. */
  function AddedField(before: byte, value: nat, o: nat, n: nat): (after: byte)
    requires o + n <= 8 && Low(before, 8 - o) == 0
    ensures after == before + Shl(Low(value, n), 8 - o - n)
  {
    ByteField(before, value, o, n);
    before + Shl(Low(value, n), 8 - o - n)
  }

  lemma SpliceBits(a: Bits, b: Bits, c: Bits, k: nat)
    requires k <= |b|
    ensures (a + b + c)[..|a| + k] == a + b[..k]
  {
  }

  lemma {:induction false} ClearAfter(data: Bytes, data': Bytes, offset: nat, n: nat)
    requires |data| == |data'| && offset / 8 < |data| && offset % 8 + n <= 8 && Clear(data, offset)
    requires data' == data[offset / 8 := data'[offset / 8]]
    requires Low(data'[offset / 8], 8 - offset % 8 - n) == 0
    ensures Clear(data', offset + n)
  {
    if offset % 8 + n == 8 {
      assert (offset + n) / 8 == offset / 8 + 1 && (offset + n) % 8 == 0;
      LowOfZero(BYTE_BITS);
    } else {
      assert (offset + n) / 8 == offset / 8 && (offset + n) % 8 == offset % 8 + n;
    }
  }

  /** k more of the n low bits of v, when r are left. */
  lemma {:induction false} NextBits(v: nat, n: nat, r: nat, k: nat)
    requires k <= r <= n
    ensures BitsOf(Shr(v, r - k), n - (r - k)) == BitsOf(Shr(v, r), n - r) + BitsOf(Shr(v, r - k), k)
  {
    BitsSplit(Shr(v, r - k), n - r, k);
    ShrShr(v, r - k, k);
  }

  lemma Grow(before: Bits, a: Bits, b: Bits, written: Bits, after: Bits)
    requires written == before + a && after == written + b
    ensures after == before + (a + b)
  {
  }

  class BitstreamWriter {
    const data: array<byte>
    var offset: nat

    ghost predicate Valid()
      reads this, data
    {
      offset <= 8 * data.Length && Clear(data[..], offset)
    }

    ghost function Written(): (b: Bits)
      requires Valid()
      reads this, data
      ensures |b| == offset
    {
      ByteBits(data[..])[..offset]
    }

    constructor (data: array<byte>)
      modifies data
      ensures Valid() && this.data == data && offset == 0 && Written() == []
    {
      this.data := data;
      offset := 0;
      new;
      forall i | 0 <= i < data.Length {
        data[i] := 0;
      }
    }

    /** The bits were cleared before, so the C++ |= is an addition here, and
        Shl, Shr and Low are its shifts and masks. */
    method PutWithinByte(n: nat, value: nat)
      requires Valid() && offset % 8 + n <= 8 && offset / 8 < data.Length
      modifies `offset, data
      ensures Valid() && offset == old(offset) + n && Written() == old(Written()) + BitsOf(value, n)
    {
      ghost var before := data[..];
      var index, offsetInByte := offset / 8, offset % 8;
      var newByte := AddedField(data[index], value, offsetInByte, n);
      data[index] := newByte;
      ghost var after := data[..];
      assert after == before[index := newByte];
      ByteUpdate(before, after, offset, n, value);
      offset := offset + n;
    }

    /** Appends the low n bits of value: what fits the current byte, then the rest. */
    method Put(n: nat, value: nat)
      requires Valid() && 1 <= n && offset + n <= 8 * data.Length
      modifies `offset, data
      ensures Valid() && offset == old(offset) + n && Written() == old(Written()) + BitsOf(value, n)
    {
      var spaceLeftInFirstByte := 8 - offset % 8;
      if n <= spaceLeftInFirstByte {
        PutWithinByte(n, value);
      } else {
        var remainingBits := n - spaceLeftInFirstByte;
        BitsSplit(value, spaceLeftInFirstByte, remainingBits);
        PutWithinByte(spaceLeftInFirstByte, Shr(value, remainingBits));
        PutBytes(remainingBits, value);
      }
    }

    /** The subsequent bytes, full ones and the last. */
    method PutBytes(n: nat, value: nat)
      requires Valid() && offset % 8 == 0 && offset + n <= 8 * data.Length
      modifies `offset, data
      ensures Valid() && offset == old(offset) + n && Written() == old(Written()) + BitsOf(value, n)
    {
      ghost var before := Written();
      var remainingBits: nat := n;
      while remainingBits > 8
        invariant Valid() && remainingBits <= n && offset == old(offset) + n - remainingBits
        invariant offset % 8 == 0
        invariant Written() == before + BitsOf(Shr(value, remainingBits), n - remainingBits)
      {
        PutPart(n, remainingBits, 8, value, before);
        remainingBits := remainingBits - 8;
      }
      if remainingBits > 0 {
        PutPart(n, remainingBits, remainingBits, value, before);
      }
    }

    /** One byte: k more of the n bits, when remainingBits of them are left. */
    method PutPart(ghost n: nat, remainingBits: nat, k: nat, value: nat, ghost before: Bits)
      requires Valid() && offset % 8 == 0 && 1 <= k <= 8 && k <= remainingBits <= n && offset + k <= 8 * data.Length
      requires Written() == before + BitsOf(Shr(value, remainingBits), n - remainingBits)
      modifies `offset, data
      ensures Valid() && offset == old(offset) + k && (k == 8 ==> offset % 8 == 0)
      ensures Written() == before + BitsOf(Shr(value, remainingBits - k), n - (remainingBits - k))
    {
      ghost var written := Written();
      PutWithinByte(k, Shr(value, remainingBits - k));
      NextBits(value, n, remainingBits, k);
      Grow(before, BitsOf(Shr(value, remainingBits), n - remainingBits), BitsOf(Shr(value, remainingBits - k), k),
           written, Written());
    }
  }

  // ---------- reader ----------

  lemma {:induction false} NextPart(b: Bits, from: nat, m: nat, k: nat, res: nat, part: nat)
    requires res == Field(b, from, m) && part == Field(b, from + m, k)
    ensures Shl(res, k) + part == Field(b, from, m + k)
  {
    FieldAppend(b, from, m, k);
  }

  class BitstreamReader {
    const data: array<byte>
    var offset: nat

    constructor (data: array<byte>)
      ensures this.data == data && offset == 0
    {
      this.data := data;
      offset := 0;
    }

    method GetWithinByte(n: nat) returns (res: nat)
      requires offset % 8 + n <= 8 && offset / 8 < data.Length
      modifies `offset
      ensures offset == old(offset) + n
      ensures res == Field(ByteBits(data[..]), old(offset), n)
    {
      var index, offsetInByte := offset / 8, offset % 8;
      res := Low(Shr(data[index], 8 - offsetInByte - n), n);
      FieldInByte(data[..], index, offsetInByte, n);
      FieldReadBack(ByteBits(data[..]), offset, Shr(data[index], 8 - offsetInByte - n), n);
      offset := offset + n;
    }

    /** Takes the next n bits: what the current byte has of them, then the rest. */
    method Get(n: nat) returns (res: nat)
      requires 1 <= n && offset + n <= 8 * data.Length
      modifies `offset
      ensures offset == old(offset) + n
      ensures res == Field(ByteBits(data[..]), old(offset), n)
    {
      var spaceLeft := 8 - offset % 8;
      if n <= spaceLeft {
        res := GetWithinByte(n);
      } else {
        ghost var start := offset;
        res := GetWithinByte(spaceLeft);
        res := GetBytes(n - spaceLeft, res, start, spaceLeft);
      }
    }

    /** The subsequent bytes, full ones and the last; the m bits before them are in before. */
    method GetBytes(n: nat, before: nat, ghost start: nat, ghost m: nat) returns (res: nat)
      requires offset % 8 == 0 && offset == start + m && offset + n <= 8 * data.Length
      requires before == Field(ByteBits(data[..]), start, m)
      modifies `offset
      ensures offset == old(offset) + n
      ensures res == Field(ByteBits(data[..]), start, m + n)
    {
      res := before;
      var remainingBits := n;
      while remainingBits > 8
        invariant 0 <= remainingBits <= n && offset == start + (m + n - remainingBits) && offset % 8 == 0
        invariant res == Field(ByteBits(data[..]), start, m + n - remainingBits)
      {
        res := GetPart(8, res, start, m + n - remainingBits);
        remainingBits := remainingBits - 8;
      }
      if remainingBits > 0 {
        res := GetPart(remainingBits, res, start, m + n - remainingBits);
      }
    }

    /** One byte. */
    method GetPart(k: nat, before: nat, ghost start: nat, ghost m: nat) returns (res: nat)
      requires offset % 8 == 0 && 1 <= k <= 8 && offset == start + m && offset + k <= 8 * data.Length
      requires before == Field(ByteBits(data[..]), start, m)
      modifies `offset
      ensures offset == old(offset) + k && (k == 8 ==> offset % 8 == 0)
      ensures res == Field(ByteBits(data[..]), start, m + k)
    {
      var part := GetWithinByte(k);
      NextPart(ByteBits(data[..]), start, m, k, before, part);
      res := Shl(before, k) + part;
    }
  }
}
