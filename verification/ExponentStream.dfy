/** The modulus exponents of all blocks of a file as a bit stream: scan, choice of the field
    width, the two writers (mdCore/mdBitstream.h) and the reading loop of the programs that
    use the stream (mdZip/mdZip47.h, mdZip/mdUnzip47.h). */
module ExponentStream {
  import opened Bytes
  import opened Common
  import opened Bitstream

  // ---------- specification ----------

  /** The exponents of all blocks of a file. */
  function Exponents(blocks: seq<Bytes>): (es: seq<nat>)
    ensures |es| == |blocks|
  {
    if blocks == [] then [] else [Exponent(Value(blocks[0]))] + Exponents(blocks[1..])
  }

  lemma {:induction false} ExponentAt(blocks: seq<Bytes>, i: nat)
    requires i < |blocks|
    ensures Exponents(blocks)[i] == Exponent(Value(blocks[i]))
  {
    if i > 0 { ExponentAt(blocks[1..], i - 1); }
  }

  /** Least of m and the first k exponents. */
  function MinOf(m: nat, es: seq<nat>, k: nat): nat
    requires k <= |es|
  {
    if k == 0 then m
    else if es[k - 1] < MinOf(m, es, k - 1) then es[k - 1] else MinOf(m, es, k - 1)
  }

  /** Greatest of m and the first k exponents. */
  function MaxOf(m: nat, es: seq<nat>, k: nat): nat
    requires k <= |es|
  {
    if k == 0 then m
    else if es[k - 1] > MaxOf(m, es, k - 1) then es[k - 1] else MaxOf(m, es, k - 1)
  }

  lemma {:induction false} MinOfIsLeast(m: nat, es: seq<nat>, k: nat)
    requires k <= |es|
    ensures MinOf(m, es, k) <= m && forall i :: 0 <= i < k ==> MinOf(m, es, k) <= es[i]
    ensures MinOf(m, es, k) == m || exists i :: 0 <= i < k && MinOf(m, es, k) == es[i]
  {
    if k != 0 { MinOfIsLeast(m, es, k - 1); }
  }

  lemma {:induction false} MaxOfIsGreatest(m: nat, es: seq<nat>, k: nat)
    requires k <= |es|
    ensures MaxOf(m, es, k) >= m && forall i :: 0 <= i < k ==> es[i] <= MaxOf(m, es, k)
    ensures MaxOf(m, es, k) == m || exists i :: 0 <= i < k && MaxOf(m, es, k) == es[i]
  {
    if k != 0 { MaxOfIsGreatest(m, es, k - 1); }
  }

  /** The branches of setDiffFormat, later ones overriding earlier ones. */
  function DiffFormat(diff: int): nat {
    if 32 < diff <= 63 then 6
    else if 16 < diff <= 31 then 5
    else if 8 < diff <= 15 then 4
    else if 3 < diff <= 7 then 3
    else if diff <= 3 then 2
    else 7
  }

  /** The least field width, at least 2, that holds every value up to diff. */
  function LeastWidth(diff: int): (f: nat)
    ensures 2 <= f && diff < Pow2(f) && (f == 2 || Pow2(f - 1) <= diff)
  {
    if diff < 4 then 2 else if diff < 8 then 3 else Log2(diff) + 1
  }

  lemma {:induction false} WidthUnique(diff: int, f: nat)
    requires 2 <= f && diff < Pow2(f) && (f == 2 || Pow2(f - 1) <= diff)
    ensures f == LeastWidth(diff)
  {
    var l := LeastWidth(diff);
    if l < f {
      Pow2Monotone(l, f - 1);
    } else if f < l {
      Pow2Monotone(f, l - 1);
    }
  }

  /** The chosen width is the least one, except that spreads 8, 16, 32 and above 63 use 7. */
  lemma {:induction false} WidthIsLeast(diff: int)
    ensures DiffFormat(diff)
         == if diff == 8 || diff == 16 || diff == 32 || diff > 63 then 7 else LeastWidth(diff)
  {
    Pow2Small();
    if DiffFormat(diff) < 7 {
      WidthUnique(diff, DiffFormat(diff));
    }
  }

  /** Number of bits of k fields of f bits: k * f. */
  function Span(k: nat, f: nat): nat {
    if k == 0 then 0 else Span(k - 1, f) + f
  }

  lemma {:induction false} SpanIsProduct(k: nat, f: nat)
    ensures Span(k, f) == k * f
  {
    if k != 0 {
      SpanIsProduct(k - 1, f);
      assert k * f == (k - 1) * f + f;
    }
  }

  lemma SpanStep(k: nat, f: nat)
    ensures Span(k + 1, f) == Span(k, f) + f
  {
  }

  lemma {:induction false} SpanMonotone(a: nat, b: nat, f: nat)
    requires a <= b
    ensures Span(a, f) <= Span(b, f)
  {
    if a < b { SpanMonotone(a, b - 1, f); }
  }

  /** Base and last exponent are stored in 7 bits. */
  const EXPONENT_BITS: nat := 7

  function BitBlockSize(format: nat, n: nat): nat {
    Span(n, format) + (if format < 7 then 2 * EXPONENT_BITS else 0)
  }

  function ByteBlockSize(format: nat, n: nat): nat {
    (BitBlockSize(format, n) + 7) / 8
  }

  /** The fields e - base of the first k exponents, each f bits wide. */
  function Fields(es: seq<nat>, k: nat, base: nat, f: nat): (b: Bits)
    requires k <= |es|
    ensures |b| == Span(k, f)
  {
    if k == 0 then []
    else Fields(es, k - 1, base, f) + BitsOf(if es[k - 1] >= base then es[k - 1] - base else 0, f)
  }

  /** 7-bit base, the offsets of all but the last exponent, 7-bit last exponent. */
  function NarrowStream(es: seq<nat>, base: nat, f: nat): (b: Bits)
    requires es != []
    ensures |b| == 2 * EXPONENT_BITS + Span(|es| - 1, f)
  {
    BitsOf(base, EXPONENT_BITS) + Fields(es, |es| - 1, base, f) + BitsOf(es[|es| - 1], EXPONENT_BITS)
  }

  function BlockBits(e: nat, base: nat, f: nat, last: bool): Bits {
    if last then BitsOf(e, EXPONENT_BITS) else BitsOf(if e >= base then e - base else 0, f)
  }

  /** The narrow stream as far as the first k blocks go. */
  function NarrowPrefix(es: seq<nat>, base: nat, f: nat, k: nat): Bits
    requires k <= |es|
  {
    if k == 0 then BitsOf(base, EXPONENT_BITS)
    else NarrowPrefix(es, base, f, k - 1) + BlockBits(es[k - 1], base, f, k == |es|)
  }

  lemma Regroup(head: Bits, front: Bits, next: Bits, before: Bits, fields: Bits)
    requires before == head + front && fields == front + next
    ensures before + next == head + fields
  {
  }

  lemma FieldsExtend(es: seq<nat>, base: nat, f: nat, k: nat)
    requires k < |es|
    ensures Fields(es, k + 1, base, f) == Fields(es, k, base, f) + BlockBits(es[k], base, f, false)
  {
  }

  lemma PrefixExtends(es: seq<nat>, base: nat, f: nat, k: nat, before: Bits, next: Bits)
    requires 0 < k <= |es| && before == NarrowPrefix(es, base, f, k - 1)
    requires next == BlockBits(es[k - 1], base, f, k == |es|)
    ensures before + next == NarrowPrefix(es, base, f, k)
  {
  }

  lemma PrefixStarts(es: seq<nat>, base: nat, f: nat)
    ensures NarrowPrefix(es, base, f, 0) == BitsOf(base, EXPONENT_BITS) + Fields(es, 0, base, f)
  {
  }

  lemma {:induction false} PrefixIsFields(es: seq<nat>, base: nat, f: nat, k: nat)
    requires k < |es|
    ensures NarrowPrefix(es, base, f, k) == BitsOf(base, EXPONENT_BITS) + Fields(es, k, base, f)
  {
    if k == 0 {
      PrefixStarts(es, base, f);
    } else {
      PrefixIsFields(es, base, f, k - 1);
      PrefixExtends(es, base, f, k, NarrowPrefix(es, base, f, k - 1), BlockBits(es[k - 1], base, f, false));
      FieldsExtend(es, base, f, k - 1);
      Regroup(BitsOf(base, EXPONENT_BITS), Fields(es, k - 1, base, f), BlockBits(es[k - 1], base, f, false),
              NarrowPrefix(es, base, f, k - 1), Fields(es, k, base, f));
    }
  }

  lemma {:induction false} PrefixLength(es: seq<nat>, base: nat, f: nat, k: nat)
    requires k < |es|
    ensures |NarrowPrefix(es, base, f, k)| == EXPONENT_BITS + Span(k, f)
  {
    PrefixIsFields(es, base, f, k);
  }

  lemma {:induction false} PrefixIsStream(es: seq<nat>, base: nat, f: nat)
    requires es != []
    ensures NarrowPrefix(es, base, f, |es|) == NarrowStream(es, base, f)
  {
    PrefixIsFields(es, base, f, |es| - 1);
  }

  function PlainStream(es: seq<nat>): (b: Bits)
    ensures |b| == Span(|es|, EXPONENT_BITS)
  {
    Fields(es, |es|, 0, EXPONENT_BITS)
  }

  function ReadFields(bits: Bits, pos: nat, k: nat, f: nat, base: nat): (es: seq<nat>)
    ensures |es| == k
  {
    if k == 0 then []
    else ReadFields(bits, pos, k - 1, f, base) + [base + Field(bits, pos + Span(k - 1, f), f)]
  }

  lemma ReadFieldsExtend(bits: Bits, pos: nat, k: nat, f: nat, base: nat)
    ensures ReadFields(bits, pos, k + 1, f, base)
            == ReadFields(bits, pos, k, f, base) + [base + Field(bits, pos + Span(k, f), f)]
    ensures Span(k + 1, f) == Span(k, f) + f
  {
  }

  /** Bits read per block before the last: nothing in a format outside 2 to 7. */
  function FieldWidth(format: nat): nat {
    if 2 <= format <= 7 then format else 0
  }

  /** Position of the first field: the formats below 7 start with the base. */
  function FieldStart(format: nat): nat {
    if format < 7 then EXPONENT_BITS else 0
  }

  function StreamBase(bits: Bits, format: nat): nat {
    if 2 <= format < 7 then Field(bits, 0, EXPONENT_BITS) else 0
  }

  /** What the reading loop returns. */
  function DecodeStream(bits: Bits, format: nat, n: nat): (es: seq<nat>)
    requires n >= 1
    ensures |es| == n
  {
    var w, start := FieldWidth(format), FieldStart(format);
    ReadFields(bits, start, n - 1, w, StreamBase(bits, format))
    + [Field(bits, start + Span(n - 1, w), EXPONENT_BITS)]
  }

  // ---------- the buffer is large enough ----------

  /** The narrow writer leaves between f and f + 7 bits of its buffer unused, the 7-bit
      writer fewer than 8; neither runs over. */
  lemma {:induction false} BufferBound(n: nat, f: nat)
    requires n >= 1
    ensures f < 7 ==> f <= 8 * ByteBlockSize(f, n) - (2 * EXPONENT_BITS + Span(n - 1, f)) <= f + 7
    ensures f == 7 ==> 0 <= 8 * ByteBlockSize(f, n) - Span(n, f) < 8
  {
  }

  /** The reading loop stays inside a buffer of the computed size in every format. */
  lemma {:induction false} ReaderStaysInside(n: nat, format: nat)
    requires n >= 1
    ensures FieldStart(format) + Span(n - 1, FieldWidth(format)) + EXPONENT_BITS <= 8 * ByteBlockSize(format, n)
  {
    SpanMonotone(1, n, format);
    EmptyFields(n - 1);
  }

  lemma {:induction false} EmptyFields(k: nat)
    ensures Span(k, 0) == 0
  {
    if k != 0 { EmptyFields(k - 1); }
  }

  // ---------- round trips ----------

  ghost predicate AtLeast(es: seq<nat>, k: nat, base: nat)
    requires k <= |es|
  {
    forall i :: 0 <= i < k ==> base <= es[i]
  }

  ghost predicate Spread(es: seq<nat>, k: nat, base: nat, f: nat)
    requires k <= |es|
  {
    forall i :: 0 <= i < k ==> base <= es[i] < base + Pow2(f)
  }

  ghost predicate SevenBit(es: seq<nat>) {
    forall i :: 0 <= i < |es| ==> es[i] < 128
  }

  lemma {:induction false} LowIsIdentity(v: nat, k: nat)
    ensures Low(v, k) == v <==> v < Pow2(k)
  {
    LowBound(v, k);
  }

  lemma CutBits(bits: Bits, pos: nat, mid: nat, end: nat, a: Bits, b: Bits)
    requires pos <= mid <= end <= |bits| && |a| == mid - pos && |b| == end - mid
    requires bits[pos..end] == a + b
    ensures bits[pos..mid] == a && bits[mid..end] == b
  {
    assert bits[pos..mid] == bits[pos..end][..mid - pos];
    assert bits[mid..end] == bits[pos..end][mid - pos..];
  }

  lemma {:induction false} LastFieldReadsBack(bits: Bits, pos: nat, front: Bits, v: nat, f: nat)
    requires pos + |front| + f <= |bits| && v < Pow2(f)
    requires bits[pos..pos + |front| + f] == front + BitsOf(v, f)
    ensures bits[pos..pos + |front|] == front && Field(bits, pos + |front|, f) == v
  {
    var mid := pos + |front|;
    CutBits(bits, pos, mid, mid + f, front, BitsOf(v, f));
    FieldReadBack(bits, mid, v, f);
    LowBound(v, f);
  }

  lemma {:induction false} FieldAt(bits: Bits, pos: nat, es: seq<nat>, k: nat, f: nat, base: nat, i: nat)
    requires i < k <= |es| && pos + Span(k, f) <= |bits|
    requires bits[pos..pos + Span(k, f)] == Fields(es, k, base, f) && Spread(es, k, base, f)
    ensures Field(bits, pos + Span(i, f), f) == es[i] - base
  {
    LastFieldReadsBack(bits, pos, Fields(es, k - 1, base, f), es[k - 1] - base, f);
    if i < k - 1 {
      FieldAt(bits, pos, es, k - 1, f, base, i);
    }
  }

  lemma {:induction false} ReadFieldsAt(bits: Bits, pos: nat, k: nat, f: nat, base: nat, i: nat)
    requires i < k
    ensures ReadFields(bits, pos, k, f, base)[i] == base + Field(bits, pos + Span(i, f), f)
  {
    if i < k - 1 {
      ReadFieldsAt(bits, pos, k - 1, f, base, i);
    }
  }

  /** Fields read back as they were written when they fit their width. */
  lemma {:induction false} FieldsReadBack(bits: Bits, pos: nat, es: seq<nat>, k: nat, f: nat, base: nat, wbase: nat)
    requires k <= |es| && pos + Span(k, f) <= |bits|
    requires bits[pos..pos + Span(k, f)] == Fields(es, k, wbase, f)
    requires Spread(es, k, wbase, f)
    ensures forall i :: 0 <= i < k ==> ReadFields(bits, pos, k, f, base)[i] == base + (es[i] - wbase)
  {
    forall i | 0 <= i < k
      ensures ReadFields(bits, pos, k, f, base)[i] == base + (es[i] - wbase)
    {
      FieldAt(bits, pos, es, k, f, wbase, i);
      ReadFieldsAt(bits, pos, k, f, base, i);
    }
  }

  /** Width soundness: after a scan every offset of a block before the last fits the field. */
  lemma {:induction false} WidthIsSound(es: seq<nat>, base: nat, f: nat)
    requires es != [] && base == MinOf(255, es, |es| - 1)
    requires f == DiffFormat(MaxOf(0, es, |es|) - base) && f < 7
    ensures 2 <= f && Spread(es, |es| - 1, base, f)
  {
    MinOfIsLeast(255, es, |es| - 1);
    MaxOfIsGreatest(0, es, |es|);
    WidthIsLeast(MaxOf(0, es, |es|) - base);
  }

  lemma {:induction false} NarrowParts(es: seq<nat>, base: nat, f: nat, bits: Bits)
    requires es != [] && NarrowStream(es, base, f) <= bits
    ensures 2 * EXPONENT_BITS + Span(|es| - 1, f) <= |bits|
    ensures bits[0..0 + EXPONENT_BITS] == BitsOf(base, EXPONENT_BITS)
    ensures bits[EXPONENT_BITS..EXPONENT_BITS + Span(|es| - 1, f)] == Fields(es, |es| - 1, base, f)
    ensures bits[EXPONENT_BITS + Span(|es| - 1, f)..EXPONENT_BITS + Span(|es| - 1, f) + EXPONENT_BITS]
         == BitsOf(es[|es| - 1], EXPONENT_BITS)
  {
    var k := |es| - 1;
    var end := EXPONENT_BITS + Span(k, f) + EXPONENT_BITS;
    var a, b, c := BitsOf(base, EXPONENT_BITS), Fields(es, k, base, f), BitsOf(es[k], EXPONENT_BITS);
    assert bits[0..end] == a + b + c == a + (b + c);
    CutBits(bits, 0, EXPONENT_BITS, end, a, b + c);
    CutBits(bits, EXPONENT_BITS, end - EXPONENT_BITS, end, b, c);
  }

  /** What the narrow stream decodes to: base and last exponent reduced to 7 bits. */
  lemma {:induction false} NarrowDecodes(es: seq<nat>, base: nat, f: nat, bits: Bits)
    requires es != [] && 2 <= f < 7 && Spread(es, |es| - 1, base, f)
    requires NarrowStream(es, base, f) <= bits
    ensures var d := DecodeStream(bits, f, |es|);
            && d[|es| - 1] == Low(es[|es| - 1], EXPONENT_BITS)
            && forall i :: 0 <= i < |es| - 1 ==> d[i] == Low(base, EXPONENT_BITS) + (es[i] - base)
  {
    var k := |es| - 1;
    NarrowParts(es, base, f, bits);
    FieldReadBack(bits, 0, base, EXPONENT_BITS);
    FieldsReadBack(bits, EXPONENT_BITS, es, k, f, Low(base, EXPONENT_BITS), base);
    FieldReadBack(bits, EXPONENT_BITS + Span(k, f), es[k], EXPONENT_BITS);
  }

  /** The narrow stream of a scanned file decodes to the exponents exactly when the base and
      the last exponent fit their 7 bits; with a single block the base is not used. */
  lemma {:induction false} NarrowRoundTrip(es: seq<nat>, base: nat, f: nat, bits: Bits)
    requires es != [] && base == MinOf(255, es, |es| - 1)
    requires f == DiffFormat(MaxOf(0, es, |es|) - base) && f < 7
    requires NarrowStream(es, base, f) <= bits
    ensures DecodeStream(bits, f, |es|) == es
            <==> (|es| == 1 || base < 128) && es[|es| - 1] < 128
  {
    var k := |es| - 1;
    WidthIsSound(es, base, f);
    NarrowDecodes(es, base, f, bits);
    Pow2Small();
    LowIsIdentity(base, EXPONENT_BITS);
    LowIsIdentity(es[k], EXPONENT_BITS);
    var d := DecodeStream(bits, f, |es|);
    if (k == 0 || base < 128) && es[k] < 128 {
      assert forall i :: 0 <= i < |es| ==> d[i] == es[i];
    } else if es[k] >= 128 {
      assert d[k] != es[k];
    } else {
      assert d[0] == Low(base, EXPONENT_BITS) + (es[0] - base);
      assert d[0] != es[0];
    }
  }

  /** The 7-bit stream decodes to the exponents exactly when all of them fit 7 bits. */
  lemma {:induction false} PlainRoundTrip(es: seq<nat>, bits: Bits)
    requires es != [] && PlainStream(es) <= bits
    ensures DecodeStream(bits, 7, |es|) == es <==> SevenBit(es)
  {
    var d := ReadFields(bits, 0, |es|, EXPONENT_BITS, 0);
    assert DecodeStream(bits, 7, |es|) == d;
    Pow2Small();
    if SevenBit(es) {
      assert bits[0..0 + Span(|es|, EXPONENT_BITS)] == Fields(es, |es|, 0, EXPONENT_BITS);
      FieldsReadBack(bits, 0, es, |es|, EXPONENT_BITS, 0, 0);
      assert forall i :: 0 <= i < |es| ==> d[i] == es[i];
    } else {
      ReadFieldsBounded(bits, 0, |es|, EXPONENT_BITS);
    }
  }

  lemma {:induction false} ReadFieldsBounded(bits: Bits, pos: nat, k: nat, f: nat)
    ensures forall i :: 0 <= i < k ==> ReadFields(bits, pos, k, f, 0)[i] < Pow2(f)
  {
    if k != 0 {
      ReadFieldsBounded(bits, pos, k - 1, f);
      FieldBound(bits, pos + Span(k - 1, f), f);
    }
  }

  /** The adaptive stream refines the plain one: on exponents below 128 both decode alike. */
  lemma {:induction false} NarrowRefinesPlain(es: seq<nat>, base: nat, f: nat, narrow: Bits, plain: Bits)
    requires es != [] && base == MinOf(255, es, |es| - 1)
    requires f == DiffFormat(MaxOf(0, es, |es|) - base) && f < 7
    requires SevenBit(es)
    requires NarrowStream(es, base, f) <= narrow && PlainStream(es) <= plain
    ensures DecodeStream(narrow, f, |es|) == DecodeStream(plain, 7, |es|) == es
  {
    MinOfIsLeast(255, es, |es| - 1);
    assert |es| > 1 ==> base <= es[0];
    NarrowRoundTrip(es, base, f, narrow);
    PlainRoundTrip(es, plain);
  }

  /** What has to fit seven bits: all exponents in format 7; in the others only the base, unless
      there is just one block, and the last exponent. */
  predicate Recoverable(es: seq<nat>)
    requires es != []
  {
    var last := |es| - 1;
    var base := MinOf(255, es, last);
    if DiffFormat(MaxOf(0, es, |es|) - base) == 7 then forall i :: 0 <= i < |es| ==> es[i] < 128
    else (last == 0 || base < 128) && es[last] < 128
  }

  /** The bits start with the stream of a scan, in the format it picks. */
  ghost predicate StreamOf(es: seq<nat>, base: nat, f: nat, bits: Bits)
    requires es != []
  {
    && base == MinOf(255, es, |es| - 1) && f == DiffFormat(MaxOf(0, es, |es|) - base)
    && if f < 7 then NarrowStream(es, base, f) <= bits else PlainStream(es) <= bits
  }

  /** Whatever format the scan picks, the stream decodes to the exponents exactly when they are
      recoverable. */
  lemma {:induction false} AdaptiveRoundTrip(es: seq<nat>, base: nat, f: nat, bits: Bits)
    requires es != [] && StreamOf(es, base, f, bits)
    ensures DecodeStream(bits, f, |es|) == es <==> Recoverable(es)
  {
    if f < 7 {
      NarrowRoundTrip(es, base, f, bits);
    } else {
      PlainRoundTrip(es, bits);
    }
  }

  // ---------- the streams field by field ----------

  lemma {:induction false} ReadFieldAt(bits: Bits, pos: nat, k: nat, f: nat, base: nat, i: nat)
    requires i < k
    ensures ReadFields(bits, pos, k, f, base)[i] == base + Field(bits, pos + i * f, f)
  {
    ReadFieldsAt(bits, pos, k, f, base, i);
    SpanIsProduct(i, f);
  }

  /** What is read for the i-th block: in the formats 2 to 7 a field of that many bits, in the
      others nothing; the formats below 7 start with seven bits, which the formats 2 to 6 add to
      every field. The last block is read as seven bits. */
  lemma {:induction false} DecodedAt(bits: Bits, format: nat, n: nat, i: nat)
    requires i < n
    ensures var w, start := if 2 <= format <= 7 then format else 0, if format < 7 then 7 else 0;
            DecodeStream(bits, format, n)[i]
            == if i == n - 1 then Field(bits, start + i * w, 7)
               else (if 2 <= format < 7 then Field(bits, 0, 7) else 0) + Field(bits, start + i * w, w)
  {
    var w, start := FieldWidth(format), FieldStart(format);
    if i < n - 1 {
      ReadFieldAt(bits, start, n - 1, w, StreamBase(bits, format), i);
    } else {
      SpanIsProduct(i, w);
    }
  }

  /** The narrow stream: seven bits of the base, f bits for the distance of each exponent before
      the last from it, seven bits of the last exponent. */
  lemma {:induction false} NarrowLayout(es: seq<nat>, base: nat, f: nat, bits: Bits, i: nat)
    requires es != [] && Spread(es, |es| - 1, base, f) && NarrowStream(es, base, f) <= bits
    ensures Field(bits, 0, 7) == base % 128
    ensures i < |es| - 1 ==> Field(bits, 7 + i * f, f) == es[i] - base
    ensures Field(bits, 7 + (|es| - 1) * f, 7) == es[|es| - 1] % 128
  {
    var k := |es| - 1;
    NarrowParts(es, base, f, bits);
    FieldReadBack(bits, 0, base, EXPONENT_BITS);
    SevenLowBits(base);
    SpanIsProduct(k, f);
    FieldReadBack(bits, EXPONENT_BITS + Span(k, f), es[k], EXPONENT_BITS);
    SevenLowBits(es[k]);
    if i < k {
      FieldsReadBack(bits, EXPONENT_BITS, es, k, f, 0, base);
      ReadFieldAt(bits, EXPONENT_BITS, k, f, 0, i);
    }
  }

  lemma {:induction false} SevenLowBits(v: nat)
    ensures Low(v, EXPONENT_BITS) == v % 128
  {
    LowIsRemainder(v, EXPONENT_BITS);
    Pow2Small();
  }

  /** The stream of format 7: seven bits for each exponent. */
  lemma {:induction false} PlainLayout(es: seq<nat>, bits: Bits, i: nat)
    requires i < |es| && PlainStream(es) <= bits
    ensures Field(bits, i * 7, 7) == es[i] % 128
  {
    assert bits[0..0 + Span(|es|, EXPONENT_BITS)] == PlainStream(es);
    PlainFieldAt(es, bits, |es|, i);
    SpanIsProduct(i, EXPONENT_BITS);
    SevenLowBits(es[i]);
  }

  lemma {:induction false} PlainFieldAt(es: seq<nat>, bits: Bits, k: nat, i: nat)
    requires i < k <= |es| && Span(k, EXPONENT_BITS) <= |bits|
    requires bits[0..0 + Span(k, EXPONENT_BITS)] == Fields(es, k, 0, EXPONENT_BITS)
    ensures Field(bits, Span(i, EXPONENT_BITS), EXPONENT_BITS) == Low(es[i], EXPONENT_BITS)
  {
    var mid := Span(k - 1, EXPONENT_BITS);
    CutBits(bits, 0, mid, mid + EXPONENT_BITS, Fields(es, k - 1, 0, EXPONENT_BITS), BitsOf(es[k - 1], EXPONENT_BITS));
    if i < k - 1 {
      PlainFieldAt(es, bits, k - 1, i);
    } else {
      FieldReadBack(bits, mid, es[i], EXPONENT_BITS);
    }
  }

  /** Bytes of a stream: n fields, with base and last exponent in front if the format is below 7. */
  lemma {:induction false} StreamBytes(format: nat, n: nat)
    ensures BitBlockSize(format, n) == n * format + (if format < 7 then 14 else 0)
    ensures ByteBlockSize(format, n) == (n * format + (if format < 7 then 14 else 0) + 7) / 8
  {
    SpanIsProduct(n, format);
  }

  // ---------- the program ----------

  class MdBitstream {
    var blocksize: nat
    var blockcount: nat
    var blockremainder: nat
    var bitformat: nat
    var bitsize: nat
    var minExponent: nat
    var minExponentMinusLastBlock: nat
    var maxExponent: nat
    var diffExponent: int
    var modExpBlock: array?<byte>
    var modBitBlockSize: nat
    var modByteBlockSize: nat
    var bsr: BitstreamReader?

    ghost predicate ReadyFor(file: Bytes, blocks: seq<Bytes>)
      reads this
    {
      LaidOut(file, blocksize, blocks) && blockcount == |blocks| && blockremainder == |blocks[blockcount - 1]|
    }

    constructor ()
      ensures minExponent == 255 && minExponentMinusLastBlock == 255 && maxExponent == 0
      ensures bitformat == 7 && modExpBlock == null && bsr == null
    {
      blocksize, blockcount, blockremainder := 0, 0, 0;
      bitformat, bitsize := 7, 7;
      minExponent, minExponentMinusLastBlock, maxExponent, diffExponent := 255, 255, 0, 0;
      modExpBlock, bsr := null, null;
      modBitBlockSize, modByteBlockSize := 0, 0;
    }

    method MdInitBitstream(blockSize: nat, blockCount: nat, blockRemainder: nat)
      modifies `blocksize, `blockcount, `blockremainder
      ensures blocksize == blockSize && blockcount == blockCount && blockremainder == blockRemainder
    {
      blocksize := blockSize;
      blockcount := blockCount;
      blockremainder := blockRemainder;
    }

    method SetDiffFormat()
      modifies `bitformat
      ensures bitformat == DiffFormat(diffExponent)
    {
      bitformat := 7;
      if diffExponent <= 3 { bitformat := 2; }
      if diffExponent > 3 && diffExponent <= 7 { bitformat := 3; }
      if diffExponent > 8 && diffExponent <= 15 { bitformat := 4; }
      if diffExponent > 16 && diffExponent <= 31 { bitformat := 5; }
      if diffExponent > 32 && diffExponent <= 63 { bitformat := 6; }
    }

    method SetBitstreamBitSize()
      modifies `bitsize
      ensures bitsize == if 2 <= bitformat <= 6 then bitformat else 7
    {
      bitsize := 7;
      if 2 <= bitformat <= 6 { bitsize := bitformat; }
    }

    method CalcBitstreamSize()
      modifies `modBitBlockSize, `modByteBlockSize
      ensures modBitBlockSize == BitBlockSize(bitformat, blockcount)
      ensures modByteBlockSize == ByteBlockSize(bitformat, blockcount)
    {
      SpanIsProduct(blockcount, bitformat);
      modBitBlockSize := blockcount * bitformat;
      if bitformat < 7 { modBitBlockSize := modBitBlockSize + 14; }
      modByteBlockSize := modBitBlockSize / 8;
      if modBitBlockSize % 8 > 0 { modByteBlockSize := modByteBlockSize + 1; }
    }

    /** Reads the next block and computes its exponent; each of the three passes over the
        file does this per block. */
    method NextExponent(file: Bytes, ghost blocks: seq<Bytes>, blocknumber: nat, pos: nat)
      returns (modexponent: nat, pos': nat)
      requires ReadyFor(file, blocks) && 1 <= blocknumber <= blockcount && pos == Offset(blocks, blocknumber - 1)
      ensures modexponent == Exponents(blocks)[blocknumber - 1]
      ensures pos' == Offset(blocks, blocknumber)
    {
      var currentblocksize := blocksize;
      if blocknumber == blockcount && blockremainder != blocksize {
        currentblocksize := blockremainder;
      }
      assert BlockAt(file, blocksize, blocks, blocknumber - 1);
      var byteblock;
      byteblock, pos' := ReadBlock(file, blocksize, blocks, blocknumber - 1, pos, currentblocksize);
      modexponent := CalcExponent(Value(byteblock));
      ExponentAt(blocks, blocknumber - 1);
    }

    /** Minimum and maximum with one more exponent. */
    method Include(modexponent: nat, blocknumber: nat)
      modifies `minExponent, `minExponentMinusLastBlock, `maxExponent
      ensures minExponent == if modexponent < old(minExponent) then modexponent else old(minExponent)
      ensures maxExponent == if modexponent > old(maxExponent) then modexponent else old(maxExponent)
      ensures minExponentMinusLastBlock ==
                if modexponent < old(minExponentMinusLastBlock) && blocknumber < blockcount then modexponent
                else old(minExponentMinusLastBlock)
    {
      if modexponent < minExponent { minExponent := modexponent; }
      if modexponent < minExponentMinusLastBlock && blocknumber < blockcount {
        minExponentMinusLastBlock := modexponent;
      }
      if modexponent > maxExponent { maxExponent := modexponent; }
    }

    /** Scans all blocks. The base leaves the last block out, the maximum does not. */
    method CalcMinMaxExponent(file: Bytes, ghost blocks: seq<Bytes>)
      requires ReadyFor(file, blocks)
      modifies `minExponent, `minExponentMinusLastBlock, `maxExponent, `diffExponent, `bitformat, `bitsize
      ensures var es := Exponents(blocks);
              && minExponent == MinOf(old(minExponent), es, blockcount)
              && minExponentMinusLastBlock == MinOf(old(minExponentMinusLastBlock), es, blockcount - 1)
              && maxExponent == MaxOf(old(maxExponent), es, blockcount)
      ensures diffExponent == maxExponent - minExponentMinusLastBlock
      ensures bitformat == DiffFormat(diffExponent)
      ensures bitsize == bitformat
    {
      ScanBlocks(file, blocks);
      diffExponent := maxExponent - minExponentMinusLastBlock;
      SetDiffFormat();
      SetBitstreamBitSize();
    }

    /** Its loop. */
    method ScanBlocks(file: Bytes, ghost blocks: seq<Bytes>)
      requires ReadyFor(file, blocks)
      modifies `minExponent, `minExponentMinusLastBlock, `maxExponent
      ensures minExponent == MinOf(old(minExponent), Exponents(blocks), blockcount)
      ensures minExponentMinusLastBlock == MinOf(old(minExponentMinusLastBlock), Exponents(blocks), blockcount - 1)
      ensures maxExponent == MaxOf(old(maxExponent), Exponents(blocks), blockcount)
    {
      var blocknumber, pos := 1, 0;
      ghost var es := Exponents(blocks);
      ghost var m0, m1, m2 := minExponent, minExponentMinusLastBlock, maxExponent;
      while true
        invariant 1 <= blocknumber <= blockcount && pos == Offset(blocks, blocknumber - 1)
        invariant minExponent == MinOf(m0, es, blocknumber - 1)
        invariant minExponentMinusLastBlock == MinOf(m1, es, blocknumber - 1)
        invariant maxExponent == MaxOf(m2, es, blocknumber - 1)
        decreases blockcount - blocknumber
      {
        var modexponent;
        modexponent, pos := NextExponent(file, blocks, blocknumber, pos);
        Include(modexponent, blocknumber);
        if blocknumber == blockcount { break; }
        blocknumber := blocknumber + 1;
      }
    }

    /** The writer for the formats 2 to 6. */
    method MdzipModExponentBitstream26(file: Bytes, ghost blocks: seq<Bytes>)
      requires ReadyFor(file, blocks) && 2 <= bitformat <= 6
      requires AtLeast(Exponents(blocks), blockcount - 1, minExponentMinusLastBlock)
      modifies `modBitBlockSize, `modByteBlockSize, `modExpBlock, `bsr
      ensures modByteBlockSize == ByteBlockSize(bitformat, blockcount)
      ensures bsr != null && fresh(bsr) && fresh(bsr.data) && bsr.offset == 0
      ensures modExpBlock == bsr.data && bsr.data.Length == modByteBlockSize
      ensures NarrowStream(Exponents(blocks), minExponentMinusLastBlock, bitformat) <= ByteBits(bsr.data[..])
    {
      CalcBitstreamSize();
      BufferBound(blockcount, bitformat);
      var block := new byte[modByteBlockSize];
      modExpBlock := block;
      var bsw := new BitstreamWriter(block);
      PutNarrow(file, blocks, bsw);
      ghost var stream := block[..];
      bsr := new BitstreamReader(block);
      assert block[..] == stream;
    }

    /** Its loop: the base, the offset of every block before the last, the last exponent. */
    method PutNarrow(file: Bytes, ghost blocks: seq<Bytes>, bsw: BitstreamWriter)
      requires ReadyFor(file, blocks) && 2 <= bitformat <= 6
      requires AtLeast(Exponents(blocks), blockcount - 1, minExponentMinusLastBlock)
      requires bsw.Valid() && bsw.offset == 0
      requires 2 * EXPONENT_BITS + Span(blockcount - 1, bitformat) <= 8 * bsw.data.Length
      modifies bsw, bsw.data
      ensures NarrowStream(Exponents(blocks), minExponentMinusLastBlock, bitformat) <= ByteBits(bsw.data[..])
    {
      ghost var es := Exponents(blocks);
      var blocknumber, pos := 1, 0;
      bsw.Put(EXPONENT_BITS, minExponentMinusLastBlock);
      while true
        invariant 1 <= blocknumber <= blockcount && pos == Offset(blocks, blocknumber - 1)
        invariant bsw.Valid()
        invariant bsw.Written() == NarrowPrefix(es, minExponentMinusLastBlock, bitformat, blocknumber - 1)
        decreases blockcount - blocknumber
      {
        pos := PutBlock(file, blocks, bsw, blocknumber, pos);
        if blocknumber == blockcount { break; }
        blocknumber := blocknumber + 1;
      }
      PrefixIsStream(es, minExponentMinusLastBlock, bitformat);
    }

    /** One block. */
    method PutBlock(file: Bytes, ghost blocks: seq<Bytes>, bsw: BitstreamWriter, blocknumber: nat, pos: nat)
      returns (pos': nat)
      requires ReadyFor(file, blocks) && 2 <= bitformat <= 6 && 1 <= blocknumber <= blockcount
      requires AtLeast(Exponents(blocks), blockcount - 1, minExponentMinusLastBlock)
      requires bsw.Valid() && 2 * EXPONENT_BITS + Span(blockcount - 1, bitformat) <= 8 * bsw.data.Length
      requires pos == Offset(blocks, blocknumber - 1)
      requires bsw.Written()
            == NarrowPrefix(Exponents(blocks), minExponentMinusLastBlock, bitformat, blocknumber - 1)
      modifies bsw, bsw.data
      ensures bsw.Valid() && pos' == Offset(blocks, blocknumber)
      ensures bsw.Written() == NarrowPrefix(Exponents(blocks), minExponentMinusLastBlock, bitformat, blocknumber)
    {
      ghost var base, f, n, es := minExponentMinusLastBlock, bitformat, blockcount, Exponents(blocks);
      var modexponent;
      modexponent, pos' := NextExponent(file, blocks, blocknumber, pos);
      PrefixLength(es, base, f, blocknumber - 1);
      assert bsw.offset == EXPONENT_BITS + Span(blocknumber - 1, f);
      SpanStep(blocknumber - 1, f);
      if blocknumber < n { SpanMonotone(blocknumber, n - 1, f); }
      PrefixExtends(es, base, f, blocknumber, bsw.Written(), BlockBits(modexponent, base, f, blocknumber == n));
      PutModExponent(bsw, blocknumber, modexponent);
    }

    /** Offset from the base in the chosen width, or seven bits for the last block. */
    method PutModExponent(bsw: BitstreamWriter, blocknumber: nat, modexponent: nat)
      requires 2 <= bitformat <= 6 && 1 <= blocknumber <= blockcount && bsw.Valid()
      requires blocknumber < blockcount ==> minExponentMinusLastBlock <= modexponent
      requires bsw.offset + (if blocknumber < blockcount then bitformat else EXPONENT_BITS) <= 8 * bsw.data.Length
      modifies bsw, bsw.data
      ensures bsw.Valid()
      ensures bsw.Written() == old(bsw.Written())
              + BlockBits(modexponent, minExponentMinusLastBlock, bitformat, blocknumber == blockcount)
    {
      if blocknumber < blockcount {
        bsw.Put(bitformat, modexponent - minExponentMinusLastBlock);
      } else {
        bsw.Put(EXPONENT_BITS, modexponent);
      }
    }

    /** The writer for format 7. Its buffer is a local one that hides the member of the same
        name: only the reader bsr sees the stream. */
    method MdzipModExponentBitstream(file: Bytes, ghost blocks: seq<Bytes>)
      requires ReadyFor(file, blocks) && bitformat == 7
      modifies `modBitBlockSize, `modByteBlockSize, `bsr
      ensures modByteBlockSize == ByteBlockSize(7, blockcount)
      ensures bsr != null && fresh(bsr) && fresh(bsr.data) && bsr.offset == 0
      ensures bsr.data.Length == modByteBlockSize
      ensures PlainStream(Exponents(blocks)) <= ByteBits(bsr.data[..])
    {
      CalcBitstreamSize();
      BufferBound(blockcount, bitformat);
      var block := new byte[modByteBlockSize];
      var bsw := new BitstreamWriter(block);
      PutPlain(file, blocks, bsw);
      ghost var stream := block[..];
      bsr := new BitstreamReader(block);
      assert block[..] == stream;
    }

    /** Its loop: seven bits per block. */
    method PutPlain(file: Bytes, ghost blocks: seq<Bytes>, bsw: BitstreamWriter)
      requires ReadyFor(file, blocks) && bsw.Valid() && bsw.offset == 0
      requires Span(blockcount, EXPONENT_BITS) <= 8 * bsw.data.Length
      modifies bsw, bsw.data
      ensures PlainStream(Exponents(blocks)) <= ByteBits(bsw.data[..])
    {
      ghost var n, es := blockcount, Exponents(blocks);
      var blocknumber, pos := 1, 0;
      while true
        invariant 1 <= blocknumber <= n && pos == Offset(blocks, blocknumber - 1)
        invariant bsw.Valid() && bsw.Written() == Fields(es, blocknumber - 1, 0, EXPONENT_BITS)
        decreases n - blocknumber
      {
        pos := PutPlainBlock(file, blocks, bsw, blocknumber, pos);
        if blocknumber == blockcount { break; }
        blocknumber := blocknumber + 1;
      }
    }

    /** One block. */
    method PutPlainBlock(file: Bytes, ghost blocks: seq<Bytes>, bsw: BitstreamWriter, blocknumber: nat, pos: nat)
      returns (pos': nat)
      requires ReadyFor(file, blocks) && 1 <= blocknumber <= blockcount && pos == Offset(blocks, blocknumber - 1)
      requires bsw.Valid() && Span(blockcount, EXPONENT_BITS) <= 8 * bsw.data.Length
      requires bsw.Written() == Fields(Exponents(blocks), blocknumber - 1, 0, EXPONENT_BITS)
      modifies bsw, bsw.data
      ensures bsw.Valid() && pos' == Offset(blocks, blocknumber)
      ensures bsw.Written() == Fields(Exponents(blocks), blocknumber, 0, EXPONENT_BITS)
    {
      ghost var es := Exponents(blocks);
      var modexponent;
      modexponent, pos' := NextExponent(file, blocks, blocknumber, pos);
      SpanStep(blocknumber - 1, EXPONENT_BITS);
      SpanMonotone(blocknumber, blockcount, EXPONENT_BITS);
      FieldsExtend(es, 0, EXPONENT_BITS, blocknumber - 1);
      assert BlockBits(es[blocknumber - 1], 0, EXPONENT_BITS, false) == BitsOf(modexponent, EXPONENT_BITS);
      bsw.Put(EXPONENT_BITS, modexponent);
    }
  }

  /** The switch over the format that reads the exponent of one block. */
  method ReadModExponent(bsr: BitstreamReader, mformat: nat, modexponentbase: nat, ghost bits: Bits)
    returns (modexponent: nat)
    requires bsr.offset + FieldWidth(mformat) <= 8 * bsr.data.Length && bits == ByteBits(bsr.data[..])
    requires !(2 <= mformat < 7) ==> modexponentbase == 0
    modifies bsr
    ensures bsr.offset == old(bsr.offset) + FieldWidth(mformat)
    ensures modexponent == modexponentbase + Field(bits, old(bsr.offset), FieldWidth(mformat))
  {
    modexponent := 0;
    if 2 <= mformat <= 7 {
      modexponent := bsr.Get(mformat);
      modexponent := modexponent + modexponentbase;
    }
  }

  lemma NextFieldInside(mformat: nat, blockcount: nat, blk: nat, start: nat, w: nat)
    requires blk + 1 < blockcount && start == FieldStart(mformat) && w == FieldWidth(mformat)
    ensures start + Span(blk, w) + w == start + Span(blk + 1, w) <= 8 * ByteBlockSize(mformat, blockcount)
  {
    ReaderStaysInside(blockcount, mformat);
    SpanMonotone(blk + 1, blockcount - 1, w);
    SpanStep(blk, w);
  }

  /** One block of the reading loop, which has read blk exponents so far. */
  method ReadNext(bsr: BitstreamReader, mformat: nat, blockcount: nat, base: nat, blk: nat, es: seq<nat>,
                  ghost bits: Bits, ghost start: nat, ghost w: nat)
    returns (es': seq<nat>)
    requires blk + 1 < blockcount && bsr.data.Length == ByteBlockSize(mformat, blockcount)
    requires start == FieldStart(mformat) && w == FieldWidth(mformat) && (!(2 <= mformat < 7) ==> base == 0)
    requires bits == ByteBits(bsr.data[..]) && bsr.offset == start + Span(blk, w)
    requires es == ReadFields(bits, start, blk, w, base)
    modifies bsr
    ensures bsr.offset == start + Span(blk + 1, w) && es' == ReadFields(bits, start, blk + 1, w, base)
  {
    NextFieldInside(mformat, blockcount, blk, start, w);
    var modexponent := ReadModExponent(bsr, mformat, base, bits);
    ReadFieldsExtend(bits, start, blk, w, base);
    es' := es + [modexponent];
  }

  /** The loop over the blocks before the last. */
  method ReadFront(bsr: BitstreamReader, mformat: nat, blockcount: nat, base: nat, ghost bits: Bits, ghost start: nat,
                   ghost w: nat)
    returns (es: seq<nat>)
    requires blockcount >= 1 && bsr.offset == start && bsr.data.Length == ByteBlockSize(mformat, blockcount)
    requires start == FieldStart(mformat) && w == FieldWidth(mformat) && (!(2 <= mformat < 7) ==> base == 0)
    requires bits == ByteBits(bsr.data[..])
    modifies bsr
    ensures bsr.offset == start + Span(blockcount - 1, w) && es == ReadFields(bits, start, blockcount - 1, w, base)
  {
    es := [];
    var blk := 0;
    while blk < blockcount - 1
      invariant 0 <= blk <= blockcount - 1
      invariant bsr.offset == start + Span(blk, w) && es == ReadFields(bits, start, blk, w, base)
    {
      es := ReadNext(bsr, mformat, blockcount, base, blk, es, bits, start, w);
      blk := blk + 1;
    }
  }

  /** The reading loop: base, one field per block, seven bits for the last block. */
  method ReadExponents(bsr: BitstreamReader, mformat: nat, blockcount: nat) returns (es: seq<nat>)
    requires blockcount >= 1 && bsr.offset == 0 && bsr.data.Length == ByteBlockSize(mformat, blockcount)
    modifies bsr
    ensures es == DecodeStream(ByteBits(bsr.data[..]), mformat, blockcount)
  {
    ReaderStaysInside(blockcount, mformat);
    ghost var bits := ByteBits(bsr.data[..]);
    var modexponentbase := 0;
    if mformat < 7 {
      modexponentbase := bsr.Get(EXPONENT_BITS);
    }
    var base := if mformat < 2 then 0 else modexponentbase;
    es := ReadFront(bsr, mformat, blockcount, base, bits, FieldStart(mformat), FieldWidth(mformat));
    var last := bsr.Get(EXPONENT_BITS);
    es := es + [last];
  }

  /** Scan, choice of the format and writing. */
  method WriteExponents(file: Bytes, ghost blocks: seq<Bytes>, blocksize: nat, blockcount: nat, blockremainder: nat)
    returns (mb: MdBitstream)
    requires LaidOut(file, blocksize, blocks) && blockcount == |blocks| && blockremainder == |blocks[blockcount - 1]|
    ensures fresh(mb) && mb.bsr != null && fresh(mb.bsr) && fresh(mb.bsr.data) && mb.bsr.offset == 0
    ensures 2 <= mb.bitformat <= 7 && mb.bsr.data.Length == ByteBlockSize(mb.bitformat, blockcount)
    ensures StreamOf(Exponents(blocks), mb.minExponentMinusLastBlock, mb.bitformat, ByteBits(mb.bsr.data[..]))
  {
    mb := new MdBitstream();
    mb.MdInitBitstream(blocksize, blockcount, blockremainder);
    mb.CalcMinMaxExponent(file, blocks);
    MinOfIsLeast(255, Exponents(blocks), blockcount - 1);
    if mb.bitformat < 7 {
      mb.MdzipModExponentBitstream26(file, blocks);
    } else {
      mb.MdzipModExponentBitstream(file, blocks);
    }
  }

  /** Scan, choice of the format, writing and reading back, as the archiver does it: every
      exponent comes back exactly when the exponents of the file are recoverable. */
  method StreamExponents(file: Bytes, blocksize: nat) returns (format: nat, es: seq<nat>)
    requires file != [] && blocksize > 0
    ensures var exps := Exponents(Split(file, blocksize));
            && |es| == |exps| && exps != []
            && format == DiffFormat(MaxOf(0, exps, |exps|) - MinOf(255, exps, |exps| - 1))
            && (es == exps <==> Recoverable(exps))
  {
    SplitCount(file, blocksize);
    SplitIsLaidOut(file, blocksize);
    ghost var blocks := Split(file, blocksize);
    var blockcount: nat := CalcFileBlocks(|file|, blocksize);
    var mb := WriteExponents(file, blocks, blocksize, blockcount, CalcFileBlocksRemainder(|file|, blocksize));
    format := mb.bitformat;
    ghost var exps := Exponents(blocks);
    ghost var bits := ByteBits(mb.bsr.data[..]);
    ghost var base := mb.minExponentMinusLastBlock;
    AdaptiveRoundTrip(exps, base, format, bits);
    es := ReadExponents(mb.bsr, format, blockcount);
  }
}
