/** Helpers shared by the C++ programs (mdCore/mdCommon.h): block counting, modulus
    and exponent of a block, and the in-place padding of exported numbers. */
module Common {
  import opened Bytes

  // ---------- the exponent of a block ----------

  /** Position of the highest set bit. */
  function Log2(v: nat): (e: nat)
    requires v >= 1
    ensures Pow2(e) <= v < Pow2(e + 1)
  {
    if v == 1 then 0 else 1 + Log2(v / 2)
  }

  /** The exponent that calcExponent computes: floor(log2(b + 1)), but at least 1. */
  function Exponent(b: nat): (e: nat)
    ensures 1 <= e && b + 1 < Pow2(e + 1) && (b >= 1 ==> Pow2(e) <= b + 1)
  {
    var e := Log2(b + 1);
    if e == 0 then 1 else e
  }

  lemma ExponentUnique(b: nat, e: nat)
    requires b + 1 < Pow2(e + 1)
    requires e == 1 || (e > 1 && Pow2(e) <= b + 1)
    ensures e == Exponent(b)
  {
    var x := Exponent(b);
    if x < e {
      Pow2Monotone(x + 1, e);
    } else if e < x {
      Pow2Monotone(e + 1, x);
    }
  }

  /** The do-while loop: double until 2^(e+1) - 1 exceeds the block. */
  method CalcExponent(blockint: nat) returns (exponent: nat)
    ensures exponent == Exponent(blockint)
  {
    exponent := 0;
    var exponentInt, result := 2, 0;
    Pow2Small();
    while exponent == 0 || result <= blockint
      invariant exponentInt == Pow2(exponent + 1)
      invariant exponent > 0 ==> result == exponentInt - 1
      invariant exponent > 1 ==> Pow2(exponent) <= blockint + 1
      decreases if exponent == 0 then 1 else 0, blockint + 1 - result
    {
      exponentInt := exponentInt * 2;
      result := exponentInt;
      result := result - 1;
      exponent := exponent + 1;
    }
    ExponentUnique(blockint, exponent);
  }

  /** The comment "2 ^ exponent < byteblock" fails exactly on blocks of the form 2^k - 1. */
  lemma {:induction false} ExponentIsHighestBitUnlessAllOnes(b: nat)
    requires b >= 1
    ensures Exponent(b) == Log2(b) <==> b + 1 < Pow2(Log2(b) + 1)
    ensures b + 1 == Pow2(Log2(b) + 1) ==> Exponent(b) == Log2(b) + 1
  {
    var l := Log2(b);
    if b + 1 < Pow2(l + 1) {
      assert l >= 1 by { Pow2Small(); }
      ExponentUnique(b, l);
    } else {
      Pow2Strict(l + 1, l + 2);
      ExponentUnique(b, l + 1);
    }
  }

  lemma {:induction false} AllOnesValue(bs: Bytes)
    ensures Value(bs) + 1 == Pow2(8 * |bs|) <==> forall i :: 0 <= i < |bs| ==> bs[i] == 255
  {
    if bs != [] {
      var front := bs[..|bs| - 1];
      AllOnesValue(front);
      ValueBound(front);
      Pow2Byte(|front|);
      assert forall i :: 0 <= i < |front| ==> front[i] == bs[i];
      if forall i :: 0 <= i < |bs| ==> bs[i] == 255 {
        assert bs[|bs| - 1] == 255;
      }
    }
  }

  /** A block of n bytes has exponent at most 8n, and 8n only when every bit is set. */
  lemma {:induction false} BlockExponent(bs: Bytes)
    requires bs != []
    ensures Exponent(Value(bs)) <= 8 * |bs|
    ensures Exponent(Value(bs)) == 8 * |bs| <==> forall i :: 0 <= i < |bs| ==> bs[i] == 255
  {
    ValueBound(bs);
    AllOnesValue(bs);
    BoundedExponent(Value(bs), 8 * |bs|);
  }

  lemma {:induction false} BoundedExponent(v: nat, n: nat)
    requires n >= 2 && v < Pow2(n)
    ensures Exponent(v) <= n
    ensures Exponent(v) == n <==> v + 1 == Pow2(n)
  {
    var e := Exponent(v);
    assert Pow2(2) == 4;
    Pow2Monotone(2, n);
    if e > n {
      Pow2Strict(n, e);
    } else if e < n {
      Pow2Monotone(e + 1, n);
    }
  }

  /** The one-byte exponent field of blocks of up to 32 bytes keeps the exponent,
      except for the one block of 32 bytes 0xFF, whose exponent 256 is stored as 0. */
  lemma {:induction false} OneByteExponent(bs: Bytes)
    requires 0 < |bs| <= 32
    ensures Exponent(Value(bs)) % 256 == Exponent(Value(bs))
            <==> !(|bs| == 32 && forall i :: 0 <= i < |bs| ==> bs[i] == 255)
  {
    BlockExponent(bs);
  }

  /** A 7-bit exponent is enough for blocks of up to 16 bytes, except 16 bytes 0xFF. */
  lemma {:induction false} SevenBitExponent(bs: Bytes)
    requires 0 < |bs| <= 16
    ensures Exponent(Value(bs)) < 128 <==> !(|bs| == 16 && forall i :: 0 <= i < |bs| ==> bs[i] == 255)
  {
    BlockExponent(bs);
  }

  // ---------- modulus ----------

  /** 2^modsize - 1 */
  function ModulusInt(modsize: nat): nat {
    Pow2(modsize) - 1
  }

  function CalcModulusBytes(modsize: nat): nat {
    if modsize % 8 == 0 then modsize / 8
    else if modsize < 8 then 1
    else modsize / 8 + 1
  }

  /** Every remainder modulo 2^modsize - 1 fits the remainder field, and the field is
      the shortest one of whole bytes that holds modsize bits. */
  lemma RemainderFits(modsize: nat, b: nat)
    requires modsize > 0
    ensures ModulusInt(modsize) > 0
    ensures b % ModulusInt(modsize) < Pow2(8 * CalcModulusBytes(modsize))
    ensures 8 * (CalcModulusBytes(modsize) - 1) < modsize <= 8 * CalcModulusBytes(modsize)
  {
    assert Pow2(modsize) == 2 * Pow2(modsize - 1);
    Pow2Monotone(modsize, 8 * CalcModulusBytes(modsize));
  }

  // ---------- blocks of a file ----------

  function CDiv(a: int, b: int): int
    requires b > 0
  {
    if a >= 0 then a / b else -((-a) / b)
  }

  function CMod(a: int, b: int): int
    requires b > 0
  {
    a - CDiv(a, b) * b
  }

  function CalcFileBlocks(filesize: int, blocksize: int): int
    requires blocksize > 0
  {
    if CMod(filesize, blocksize) == 0 then CDiv(filesize, blocksize) else CDiv(filesize, blocksize) + 1
  }

  function CalcFileBlocksRemainder(filesize: int, blocksize: int): int
    requires blocksize > 0
  {
    var remainder := CMod(filesize, blocksize);
    if remainder == 0 then blocksize else remainder
  }

  lemma DivMod(a: int, b: int)
    requires a >= 0 && b > 0
    ensures a == a / b * b + a % b && 0 <= a % b < b
  {
  }

  lemma {:induction false} CountParts(filesize: int, blocksize: int) returns (q: int, r: int)
    requires filesize > 0 && blocksize > 0
    ensures filesize == q * blocksize + r && 0 <= r < blocksize
    ensures CalcFileBlocks(filesize, blocksize) == if r == 0 then q else q + 1
    ensures CalcFileBlocksRemainder(filesize, blocksize) == if r == 0 then blocksize else r
  {
    q, r := filesize / blocksize, filesize % blocksize;
    DivMod(filesize, blocksize);
  }

  lemma {:induction false} PartsCover(filesize: int, blocksize: int, q: int, r: int, n: int, last: int)
    requires filesize == q * blocksize + r && 0 <= r < blocksize && 0 < filesize
    requires n == (if r == 0 then q else q + 1) && last == if r == 0 then blocksize else r
    ensures n >= 1 && 1 <= last <= blocksize && (n - 1) * blocksize + last == filesize
  {
    if q < 0 {
      MulMonotone(q, -1, blocksize);
    } else if r == 0 {
      assert (q - 1) * blocksize + blocksize == q * blocksize;
    }
  }

  /** Counting the blocks is rounding up, and the blocks cover the file exactly. */
  lemma {:induction false} FileBlocksCover(filesize: int, blocksize: int)
    requires filesize > 0 && blocksize > 0
    ensures var n, last := CalcFileBlocks(filesize, blocksize), CalcFileBlocksRemainder(filesize, blocksize);
            n >= 1 && 1 <= last <= blocksize && (n - 1) * blocksize + last == filesize
  {
    var n, last := CalcFileBlocks(filesize, blocksize), CalcFileBlocksRemainder(filesize, blocksize);
    var q, r := CountParts(filesize, blocksize);
    PartsCover(filesize, blocksize, q, r, n, last);
  }

  /** The number of blocks is determined by that equation. */
  lemma {:induction false} FileBlocksUnique(n: int, last: int, m: int, last': int, blocksize: int)
    requires blocksize > 0 && 1 <= last <= blocksize && 1 <= last' <= blocksize
    requires (n - 1) * blocksize + last == (m - 1) * blocksize + last'
    ensures n == m && last == last'
  {
    if n < m {
      MulMonotone(n, m - 1, blocksize);
    } else if m < n {
      MulMonotone(m, n - 1, blocksize);
    }
  }

  lemma RoundUp(filesize: nat, blocksize: nat, n: int, last: int)
    requires n >= 1 && 1 <= last <= blocksize && (n - 1) * blocksize + last == filesize
    ensures (filesize + blocksize - 1) / blocksize == n
  {
    assert (n - 1) * blocksize == blocksize * n - blocksize;
    QuotientIs(filesize + blocksize - 1, blocksize, n, last - 1);
  }

  lemma NothingIsNoBlock(blocksize: nat)
    requires blocksize > 0
    ensures CalcFileBlocks(0, blocksize) == 0 && (0 + blocksize - 1) / blocksize == 0
  {
    QuotientIs(blocksize - 1, blocksize, 0, blocksize - 1);
    QuotientIs(0, blocksize, 0, 0);
  }

  /** That number is the quotient rounded up. */
  lemma {:induction false} BlocksRoundUp(filesize: nat, blocksize: nat)
    requires blocksize > 0
    ensures CalcFileBlocks(filesize, blocksize) == (filesize + blocksize - 1) / blocksize
  {
    if filesize > 0 {
      FileBlocksCover(filesize, blocksize);
      RoundUp(filesize, blocksize, CalcFileBlocks(filesize, blocksize),
              CalcFileBlocksRemainder(filesize, blocksize));
    } else {
      NothingIsNoBlock(blocksize);
    }
  }

  lemma MulMonotone(a: int, b: int, c: int)
    requires a <= b && c >= 0
    ensures a * c <= b * c
  {
  }

  /** The blocks of a file: pieces of blocksize bytes, the last one possibly shorter. */
  function Split(file: Bytes, blocksize: nat): (blocks: seq<Bytes>)
    requires blocksize > 0
    ensures blocks == [] <==> file == []
  {
    if file == [] then []
    else if |file| <= blocksize then [file]
    else [file[..blocksize]] + Split(file[blocksize..], blocksize)
  }

  function Join(blocks: seq<Bytes>): Bytes {
    if blocks == [] then [] else blocks[0] + Join(blocks[1..])
  }

  lemma {:induction false} JoinOfSplit(file: Bytes, blocksize: nat)
    requires blocksize > 0
    ensures Join(Split(file, blocksize)) == file
  {
    if |file| > blocksize {
      JoinOfSplit(file[blocksize..], blocksize);
      assert Split(file, blocksize)[1..] == Split(file[blocksize..], blocksize);
    }
  }

  lemma {:induction false} JoinAppend(blocks: seq<Bytes>, b: Bytes)
    ensures Join(blocks + [b]) == Join(blocks) + b
  {
    if blocks == [] {
      assert Join([b]) == b + Join([]);
    } else {
      JoinAppend(blocks[1..], b);
      assert (blocks + [b])[1..] == blocks[1..] + [b];
    }
  }

  /** The arithmetic of the programs counts these blocks and knows the last one's length. */
  lemma {:induction false} SplitCount(file: Bytes, blocksize: nat)
    requires blocksize > 0 && file != []
    ensures |Split(file, blocksize)| == CalcFileBlocks(|file|, blocksize)
    ensures |Split(file, blocksize)[|Split(file, blocksize)| - 1]| == CalcFileBlocksRemainder(|file|, blocksize)
    ensures forall i :: 0 <= i < |Split(file, blocksize)| - 1 ==> |Split(file, blocksize)[i]| == blocksize
    ensures forall i :: 0 <= i < |Split(file, blocksize)| ==> 0 < |Split(file, blocksize)[i]| <= blocksize
  {
    if |file| <= blocksize {
      OneFileBlock(|file|, blocksize);
    } else {
      SplitCount(file[blocksize..], blocksize);
      NextFileBlock(|file|, blocksize);
    }
  }

  lemma {:induction false} OneFileBlock(filesize: int, blocksize: int)
    requires 0 < filesize <= blocksize
    ensures CalcFileBlocks(filesize, blocksize) == 1 && CalcFileBlocksRemainder(filesize, blocksize) == filesize
  {
    FileBlocksCover(filesize, blocksize);
    FileBlocksUnique(CalcFileBlocks(filesize, blocksize), CalcFileBlocksRemainder(filesize, blocksize), 1, filesize,
                     blocksize);
  }

  lemma {:induction false} NextFileBlock(filesize: int, blocksize: int)
    requires 0 < blocksize < filesize
    ensures CalcFileBlocks(filesize, blocksize) == 1 + CalcFileBlocks(filesize - blocksize, blocksize)
    ensures CalcFileBlocksRemainder(filesize, blocksize) == CalcFileBlocksRemainder(filesize - blocksize, blocksize)
  {
    var n, last := CalcFileBlocks(filesize, blocksize), CalcFileBlocksRemainder(filesize, blocksize);
    var rest := filesize - blocksize;
    var m, last' := CalcFileBlocks(rest, blocksize), CalcFileBlocksRemainder(rest, blocksize);
    FileBlocksCover(filesize, blocksize);
    FileBlocksCover(filesize - blocksize, blocksize);
    assert m * blocksize == (m - 1) * blocksize + blocksize;
    FileBlocksUnique(n, last, m + 1, last', blocksize);
  }

  lemma {:induction false} SplitOfJoin(bs: seq<Bytes>, blocksize: nat)
    requires blocksize > 0 && forall i :: 0 <= i < |bs| ==> 0 < |bs[i]| <= blocksize
    requires forall i :: 0 <= i < |bs| - 1 ==> |bs[i]| == blocksize
    ensures Split(Join(bs), blocksize) == bs
  {
    if |bs| == 1 {
      assert bs[1..] == [] && Join(bs) == bs[0];
    } else if |bs| > 1 {
      SplitOfJoin(bs[1..], blocksize);
      var rest := Join(bs[1..]);
      assert bs[1] == bs[1..][0];
      assert |rest| > 0 by { assert rest == bs[1] + Join(bs[1..][1..]); }
      assert (bs[0] + rest)[..blocksize] == bs[0] && (bs[0] + rest)[blocksize..] == rest;
    }
  }

  lemma {:induction false} LengthOfJoin(bs: seq<Bytes>, cs: seq<Bytes>)
    requires |bs| == |cs| && forall i :: 0 <= i < |bs| ==> |bs[i]| == |cs[i]|
    ensures |Join(bs)| == |Join(cs)|
  {
    if bs != [] {
      assert forall i :: 0 <= i < |bs| - 1 ==> bs[1..][i] == bs[i + 1] && cs[1..][i] == cs[i + 1];
      LengthOfJoin(bs[1..], cs[1..]);
    }
  }

  /** A block sequence with the lengths of the file's blocks is the block sequence of the file
      it makes up. */
  lemma {:induction false} BlocksOfOutput(file: Bytes, blocksize: nat, bs: seq<Bytes>)
    requires file != [] && blocksize > 0 && |bs| == |Split(file, blocksize)|
    requires forall i :: 0 <= i < |bs| ==> |bs[i]| == |Split(file, blocksize)[i]|
    ensures |Join(bs)| == |file| && Split(Join(bs), blocksize) == bs
  {
    SplitCount(file, blocksize);
    SplitOfJoin(bs, blocksize);
    LengthOfJoin(bs, Split(file, blocksize));
    JoinOfSplit(file, blocksize);
  }

  /** Where block i of a file stands: bytes i * blocksize up to the next block or the end. */
  lemma {:induction false} SplitSlice(file: Bytes, blocksize: nat, i: nat)
    requires blocksize > 0
    ensures i < |Split(file, blocksize)| <==> i * blocksize < |file|
    ensures i < |Split(file, blocksize)| ==>
              Split(file, blocksize)[i] == file[i * blocksize..if (i + 1) * blocksize < |file| then (i + 1) * blocksize
                                                               else |file|]
  {
    if i == 0 {
      if |file| <= blocksize { assert file[0..|file|] == file; }
    } else if |file| <= blocksize {
      MulMonotone(1, i, blocksize);
    } else {
      SplitSlice(file[blocksize..], blocksize, i - 1);
      SliceBehind(file, blocksize, (i - 1) * blocksize);
      assert i * blocksize == (i - 1) * blocksize + blocksize && (i + 1) * blocksize == i * blocksize + blocksize;
    }
  }

  lemma SliceBehind(file: Bytes, blocksize: nat, pos: nat)
    requires blocksize <= |file|
    ensures var rest := file[blocksize..];
            var end := if pos + blocksize < |rest| then pos + blocksize else |rest|;
            pos <= end ==> rest[pos..end] == file[pos + blocksize..end + blocksize]
  {
    var rest := file[blocksize..];
    var end := if pos + blocksize < |rest| then pos + blocksize else |rest|;
    if pos <= end {
      SliceOfRest(file, blocksize, pos, end);
    }
  }

  lemma SliceOfRest(file: Bytes, from: nat, start: nat, end: nat)
    requires start <= end && end + from <= |file|
    ensures file[from..][start..end] == file[start + from..end + from]
  {
    var a, b := file[from..][start..end], file[start + from..end + from];
    assert |a| == |b| && forall i :: 0 <= i < |a| ==> a[i] == b[i];
  }

  /** Position behind the first k blocks. */
  function Offset(blocks: seq<Bytes>, k: nat): nat
    requires k <= |blocks|
  {
    if k == 0 then 0 else Offset(blocks, k - 1) + |blocks[k - 1]|
  }

  ghost predicate BlockAt(file: Bytes, blocksize: nat, blocks: seq<Bytes>, i: nat)
    requires i < |blocks|
  {
    var pos := Offset(blocks, i);
    && 0 < |blocks[i]| <= blocksize && (i + 1 < |blocks| ==> |blocks[i]| == blocksize)
    && pos + |blocks[i]| <= |file| && file[pos..pos + |blocks[i]|] == blocks[i]
  }

  /** The blocks lie one behind the other in the file. */
  ghost predicate LaidOut(file: Bytes, blocksize: nat, blocks: seq<Bytes>) {
    && |blocks| > 0 && Offset(blocks, |blocks|) == |file|
    && forall i :: 0 <= i < |blocks| ==> BlockAt(file, blocksize, blocks, i)
  }

  lemma {:induction false} OffsetOfTail(blocks: seq<Bytes>, k: nat)
    requires 0 < k <= |blocks|
    ensures Offset(blocks, k) == |blocks[0]| + Offset(blocks[1..], k - 1)
  {
    if k > 1 { OffsetOfTail(blocks, k - 1); }
  }

  lemma {:induction false} BlockAtBehind(file: Bytes, blocksize: nat, blocks: seq<Bytes>, i: nat)
    requires 0 < i < |blocks| && blocksize <= |file| && |blocks[0]| == blocksize
    requires BlockAt(file[blocksize..], blocksize, blocks[1..], i - 1)
    ensures BlockAt(file, blocksize, blocks, i)
  {
    OffsetOfTail(blocks, i);
    var pos := Offset(blocks, i);
    var rest := file[blocksize..];
    assert file[pos..pos + |blocks[i]|] == rest[pos - blocksize..pos - blocksize + |blocks[i]|];
  }

  lemma {:induction false} SplitIsLaidOut(file: Bytes, blocksize: nat)
    requires blocksize > 0 && file != []
    ensures LaidOut(file, blocksize, Split(file, blocksize))
  {
    var blocks := Split(file, blocksize);
    if |file| <= blocksize {
      assert blocks == [file];
      assert Offset(blocks, 1) == Offset(blocks, 0) + |file|;
      assert file[0..|file|] == file;
      assert BlockAt(file, blocksize, blocks, 0);
    } else {
      var rest := file[blocksize..];
      SplitIsLaidOut(rest, blocksize);
      assert blocks[1..] == Split(rest, blocksize);
      OffsetOfTail(blocks, |blocks|);
      assert BlockAt(file, blocksize, blocks, 0);
      forall i | 0 < i < |blocks|
        ensures BlockAt(file, blocksize, blocks, i)
      {
        BlockAtBehind(file, blocksize, blocks, i);
      }
    }
  }

  /** The next read of an input stream that stands at the start of block k. */
  method ReadBlock(nf: Bytes, ghost blocksize: nat, ghost blocks: seq<Bytes>, ghost k: nat, pos: nat,
                   currentblocksize: nat)
    returns (byteblock: Bytes, next: nat)
    requires LaidOut(nf, blocksize, blocks) && k < |blocks| && pos == Offset(blocks, k)
    requires currentblocksize == if k == |blocks| - 1 then |blocks[k]| else blocksize
    ensures byteblock == blocks[k] && next == Offset(blocks, k + 1)
  {
    assert BlockAt(nf, blocksize, blocks, k);
    byteblock := nf[pos..pos + currentblocksize];
    next := pos + currentblocksize;
  }

  // ---------- exporting and padding in place ----------

  /** mpz_export with most significant byte first: the digits of v go to the front of the
      buffer and the rest keeps its old content. */
  method MpzExport(buffer: array<byte>, v: nat) returns (count: nat)
    requires |Export(v)| <= buffer.Length
    modifies buffer
    ensures count == |Export(v)|
    ensures buffer[..] == Export(v) + old(buffer[count..])
  {
    var digits := Export(v);
    count := |digits|;
    forall i | 0 <= i < count {
      buffer[i] := digits[i];
    }
  }

  /** Moves the first count bytes to the right end of the blocksize bytes and clears the
      rest. The moving loop starts at index count, so it also writes the byte just behind the
      block. In a buffer of exactly blocksize bytes that write goes outside of the buffer: it is
      reported instead of being carried out. */
  method PadBlockBytes(count: nat, blocksize: nat, byteblock: array<byte>) returns (outside: bool)
    requires blocksize <= byteblock.Length
    modifies byteblock
    ensures outside <==> count < blocksize == byteblock.Length
    ensures count >= blocksize ==> byteblock[..] == old(byteblock[..])
    ensures count < blocksize ==>
              && byteblock[..blocksize] == Zeros(blocksize - count) + old(byteblock[..count])
              && (blocksize < byteblock.Length ==>
                    byteblock[blocksize..] == [old(byteblock[count])] + old(byteblock[blocksize + 1..]))
  {
    outside := false;
    if count < blocksize {
      var diff := blocksize - count;
      outside := MoveRight(count, blocksize, byteblock);
      ghost var moved := byteblock[..];
      ClearFront(diff, byteblock);
      assert byteblock[diff..][..count] == byteblock[diff..blocksize];
      assert moved[diff..][..count] == moved[diff..blocksize];
      assert byteblock[diff..][count..] == byteblock[blocksize..];
      assert moved[diff..][count..] == moved[blocksize..];
    }
  }

  method MoveRight(count: nat, blocksize: nat, byteblock: array<byte>) returns (outside: bool)
    requires count < blocksize <= byteblock.Length
    modifies byteblock
    ensures outside <==> blocksize == byteblock.Length
    ensures byteblock[blocksize - count..blocksize] == old(byteblock[..count])
    ensures blocksize < byteblock.Length ==>
              byteblock[blocksize..] == [old(byteblock[count])] + old(byteblock[blocksize + 1..])
  {
    var diff := blocksize - count;
    ghost var before, size := byteblock[..], byteblock.Length;
    var n: int := blocksize - diff;
    outside := false;
    while n >= 0
      invariant -1 <= n <= count && (outside <==> n < count && blocksize == size)
      invariant forall i :: 0 <= i <= n ==> byteblock[i] == before[i]
      invariant forall i :: n + diff < i <= blocksize && i < size ==> byteblock[i] == before[i - diff]
      invariant forall i :: blocksize < i < size ==> byteblock[i] == before[i]
    {
      if n + diff < byteblock.Length {
        byteblock[n + diff] := byteblock[n];
      } else {
        outside := true;
      }
      n := n - 1;
    }
    assert byteblock[diff..blocksize] == before[..count];
    if blocksize < size {
      assert byteblock[blocksize + 1..] == before[blocksize + 1..];
      assert byteblock[blocksize..] == [byteblock[blocksize]] + byteblock[blocksize + 1..];
    }
  }

  method ClearFront(diff: nat, byteblock: array<byte>)
    requires diff <= byteblock.Length
    modifies byteblock
    ensures byteblock[..diff] == Zeros(diff) && byteblock[diff..] == old(byteblock[diff..])
  {
    var n := 0;
    while n < diff
      invariant 0 <= n <= diff
      invariant forall i :: 0 <= i < n ==> byteblock[i] == 0
      invariant byteblock[diff..] == old(byteblock[diff..])
    {
      byteblock[n] := 0;
      n := n + 1;
    }
  }

  /** What stands behind the field after an export: padding writes one byte there, and a number
      that is too large runs over. */
  function Behind(before: Bytes, digits: Bytes, blocksize: nat): Bytes
    requires blocksize <= |before| && |digits| <= |before|
  {
    if |digits| > blocksize then digits[blocksize..] + before[|digits|..]
    else if |digits| < blocksize < |before| then [before[|digits|]] + before[blocksize + 1..]
    else before[blocksize..]
  }

  /** Export followed by padding, as every writer does it. */
  method ExportPadded(buffer: array<byte>, blocksize: nat, v: nat) returns (outside: bool)
    requires blocksize <= buffer.Length && |Export(v)| <= buffer.Length
    modifies buffer
    ensures buffer[..blocksize] == Fit(v, blocksize)
    ensures buffer[blocksize..] == Behind(old(buffer[..]), Export(v), blocksize)
    ensures outside <==> |Export(v)| < blocksize == buffer.Length
  {
    var count := MpzExport(buffer, v);
    ghost var exported := buffer[..];
    assert exported == Export(v) + old(buffer[..])[count..];
    assert exported[..count] == Export(v);
    outside := PadBlockBytes(count, blocksize, buffer);
    if count <= blocksize {
      FixedPads(v, blocksize);
    }
    if count < blocksize < buffer.Length {
      assert exported[count] == old(buffer[..])[count] && exported[blocksize + 1..] == old(buffer[..])[blocksize + 1..];
    }
  }
}
