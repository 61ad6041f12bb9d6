/** The dump of an encoded file (decode/cmd/mdlist.go): a cursor that cuts the file into the
    header, the names, the file signatures and the block records. */
module DumpReader {
  import opened Bytes
  import opened Common
  import opened SignatureList
  import opened Sums
  import opened Wrappers
  import Text

  datatype Slice = Slice(start: nat, end: nat)

  /** Adjacent slices of the first k widths, from position 0. */
  function Cut(widths: seq<nat>, k: nat): (r: seq<Slice>)
    requires k <= |widths|
    ensures |r| == k
  {
    if k == 0 then [] else Cut(widths, k - 1) + [Slice(Total(widths, k - 1), Total(widths, k))]
  }

  lemma {:induction false} CutExtends(a: seq<nat>, b: seq<nat>, k: nat)
    requires k <= |a|
    ensures Cut(a + b, k) == Cut(a, k) && Total(a + b, k) == Total(a, k)
  {
    TotalExtends(a, b, k);
    if k != 0 {
      CutExtends(a, b, k - 1);
    }
  }

  ghost predicate Holds(s: Slice, p: nat) {
    s.start <= p < s.end
  }

  lemma {:induction false} CutAt(widths: seq<nat>, k: nat, i: nat)
    requires i < k <= |widths|
    ensures Cut(widths, k)[i] == Slice(Total(widths, i), Total(widths, i + 1))
  {
    if i < k - 1 {
      CutAt(widths, k - 1, i);
    }
  }

  /** The slices tile the file: every position below their total lies in exactly one slice,
      and no slice reaches beyond it. */
  lemma {:induction false} SlicesTile(widths: seq<nat>, k: nat, p: nat)
    requires k <= |widths|
    ensures p < Total(widths, k) <==> exists i :: 0 <= i < k && Holds(Cut(widths, k)[i], p)
    ensures forall i, j :: 0 <= i < j < k && Holds(Cut(widths, k)[i], p) ==> !Holds(Cut(widths, k)[j], p)
  {
    var all := Cut(widths, k);
    forall i | 0 <= i < k
      ensures all[i].end <= Total(widths, k)
    {
      CutAt(widths, k, i);
      TotalMonotone(widths, i + 1, k);
    }
    forall i, j | 0 <= i < j < k
      ensures all[i].end <= all[j].start
    {
      CutAt(widths, k, i);
      CutAt(widths, k, j);
      TotalMonotone(widths, i + 1, j);
    }
    if p < Total(widths, k) {
      var i := SliceOf(widths, k, p);
      CutAt(widths, k, i);
      assert Holds(all[i], p);
    }
  }

  lemma {:induction false} SliceOf(widths: seq<nat>, k: nat, p: nat) returns (i: nat)
    requires k <= |widths| && p < Total(widths, k)
    ensures i < k && Total(widths, i) <= p < Total(widths, i + 1)
  {
    if p < Total(widths, k - 1) {
      i := SliceOf(widths, k - 1, p);
    } else {
      i := k - 1;
    }
  }

  // ---------- what the file announces ----------

  const HEADER_BYTES: nat := 48
  const FIELD_BYTES: nat := 8

  /** binary.BigEndian.Uint64 of the i-th header field. */
  function Field(bytes: Bytes, i: nat): nat
    requires i < 6 && |bytes| >= HEADER_BYTES
  {
    Value(bytes[i * FIELD_BYTES..(i + 1) * FIELD_BYTES])
  }

  function Chars(bytes: Bytes): string {
    seq(|bytes|, i requires 0 <= i < |bytes| => bytes[i] as char)
  }

  /** Widths of the six header fields and of path, file name and hash list. */
  function NameWidths(bytes: Bytes): (r: seq<nat>)
    requires |bytes| >= HEADER_BYTES
    ensures |r| == 9
  {
    [FIELD_BYTES, FIELD_BYTES, FIELD_BYTES, FIELD_BYTES, FIELD_BYTES, FIELD_BYTES,
     Field(bytes, 4), Field(bytes, 3), Field(bytes, 5)]
  }

  /** The hash list: what stands in the ninth slice, split at dashes. */
  function HashLists(bytes: Bytes): seq<string>
    requires |bytes| >= HEADER_BYTES && Total(NameWidths(bytes), 9) <= |bytes|
  {
    TotalMonotone(NameWidths(bytes), 8, 9);
    Text.Split(Chars(bytes[Total(NameWidths(bytes), 8)..Total(NameWidths(bytes), 9)]), '-')
  }

  function ListedSizes(m: map<string, nat>, hashlist: string): seq<nat> {
    SizesOf(m, Text.Split(hashlist, ':'), |Text.Split(hashlist, ':')|)
  }

  function ModByteSize(modSize: nat): nat {
    if modSize % 8 == 0 then modSize / 8 else if modSize <= 8 then 1 else modSize / 8 + 1
  }

  /** The width is the least number of bytes that holds modSize bits, the same one that the
      encoder uses. */
  lemma ModByteSizeRoundsUp(modSize: nat)
    ensures ModByteSize(modSize) == (modSize + 7) / 8 == CalcModulusBytes(modSize)
  {
  }

  function RecordWidths(sizes: seq<nat>, blockSize: nat, modSize: nat): seq<nat> {
    sizes + [if blockSize <= 32 then 1 else 4, ModByteSize(modSize)]
  }

  function Repeat(ws: seq<nat>, n: nat): seq<nat> {
    if n == 0 then [] else Repeat(ws, n - 1) + ws
  }

  function Blocks(fileSize: nat, blockSize: nat): (n: nat)
    requires blockSize > 0
    ensures n == CalcFileBlocks(fileSize, blockSize)
  {
    if fileSize > 0 then FileBlocksCover(fileSize, blockSize); CalcFileBlocks(fileSize, blockSize) else 0
  }

  /** Number of blocks; without a block list no records are shown. */
  function Records(bytes: Bytes): nat
    requires |bytes| >= HEADER_BYTES && Total(NameWidths(bytes), 9) <= |bytes|
    requires |HashLists(bytes)| >= 2 && (HashLists(bytes)[1] != "" ==> Field(bytes, 1) > 0)
  {
    if HashLists(bytes)[1] == "" then 0 else Blocks(Field(bytes, 0), Field(bytes, 1))
  }

  /** A file whose header makes sense to the reader. */
  predicate Readable(bytes: Bytes) {
    && |bytes| >= HEADER_BYTES && Total(NameWidths(bytes), 9) <= |bytes|
    && |HashLists(bytes)| >= 2 && (HashLists(bytes)[1] != "" ==> Field(bytes, 1) > 0)
  }

  /** Widths of everything the reader cuts out. */
  function AllWidths(m: map<string, nat>, bytes: Bytes): seq<nat>
    requires Readable(bytes)
  {
    NameWidths(bytes) + ListedSizes(m, HashLists(bytes)[0])
    + Repeat(RecordWidths(ListedSizes(m, HashLists(bytes)[1]), Field(bytes, 1), Field(bytes, 2)), Records(bytes))
  }

  /** The block sizes shown for the records. */
  function ShownSizes(fileSize: nat, blockSize: nat, n: nat): seq<nat>
    requires blockSize > 0 && n <= CalcFileBlocks(fileSize, blockSize)
  {
    if n == 0 then []
    else ShownSizes(fileSize, blockSize, n - 1)
         + [if n == CalcFileBlocks(fileSize, blockSize) then CalcFileBlocksRemainder(fileSize, blockSize)
            else blockSize]
  }

  /** The sizes shown add up to the file size. */
  lemma {:induction false} ShownSizesSum(fileSize: nat, blockSize: nat)
    requires blockSize > 0
    ensures var shown := ShownSizes(fileSize, blockSize, CalcFileBlocks(fileSize, blockSize));
            Total(shown, |shown|) == fileSize
  {
    var n := CalcFileBlocks(fileSize, blockSize);
    if fileSize > 0 {
      FileBlocksCover(fileSize, blockSize);
      FullSizesSum(fileSize, blockSize, n - 1);
      TotalExtends(ShownSizes(fileSize, blockSize, n - 1), [CalcFileBlocksRemainder(fileSize, blockSize)],
                 |ShownSizes(fileSize, blockSize, n - 1)|);
    }
  }

  lemma {:induction false} FullSizesSum(fileSize: nat, blockSize: nat, k: nat)
    requires blockSize > 0 && k < CalcFileBlocks(fileSize, blockSize)
    ensures var shown := ShownSizes(fileSize, blockSize, k);
            Total(shown, |shown|) == k * blockSize
  {
    if k != 0 {
      FullSizesSum(fileSize, blockSize, k - 1);
      var front := ShownSizes(fileSize, blockSize, k - 1);
      TotalExtends(front, [blockSize], |front|);
      assert (k - 1) * blockSize + blockSize == k * blockSize;
    }
  }

  lemma {:induction false} ShownIs(fileSize: nat, blockSize: nat, n: nat, i: nat)
    requires blockSize > 0 && i < n <= CalcFileBlocks(fileSize, blockSize)
    ensures |ShownSizes(fileSize, blockSize, n)| == n
    ensures ShownSizes(fileSize, blockSize, n)[i] ==
              if i == CalcFileBlocks(fileSize, blockSize) - 1 then CalcFileBlocksRemainder(fileSize, blockSize)
              else blockSize
  {
    if n > 1 {
      ShownIs(fileSize, blockSize, n - 1, if i < n - 1 then i else 0);
    }
  }

  /** The i-th size shown is that of the i-th block: what is left of the file, or a full block. */
  lemma {:induction false} ShownSizeIs(fileSize: nat, blockSize: nat, i: nat)
    requires blockSize > 0
    ensures i < CalcFileBlocks(fileSize, blockSize) <==> i * blockSize < fileSize
    ensures i * blockSize < fileSize ==>
              var shown := ShownSizes(fileSize, blockSize, CalcFileBlocks(fileSize, blockSize));
              |shown| == CalcFileBlocks(fileSize, blockSize)
              && shown[i] == if fileSize - i * blockSize < blockSize then fileSize - i * blockSize else blockSize
  {
    var n := CalcFileBlocks(fileSize, blockSize);
    if fileSize > 0 {
      FileBlocksCover(fileSize, blockSize);
      if i < n {
        ShownIs(fileSize, blockSize, n, i);
        MulMonotone(i, n - 1, blockSize);
        if i < n - 1 {
          MulMonotone(i + 1, n - 1, blockSize);
          assert (i + 1) * blockSize == i * blockSize + blockSize;
        }
      } else {
        MulMonotone(n, i, blockSize);
        assert (n - 1) * blockSize + blockSize == n * blockSize;
      }
    } else {
      assert CalcFileBlocks(0, blockSize) == 0;
      MulMonotone(0, i, blockSize);
    }
  }

  // ---------- the cursor ----------

  class Cursor {
    const bytes: Bytes
    var start: nat
    var end: nat
    var slices: seq<Slice>
    ghost var widths: seq<nat>

    ghost predicate Valid()
      reads this
    {
      end == Total(widths, |widths|) <= |bytes| && slices == Cut(widths, |widths|)
    }

    constructor (bytes: Bytes)
      ensures Valid() && this.bytes == bytes && widths == []
    {
      this.bytes, start, end, slices, widths := bytes, 0, 0, [], [];
    }

    /** The next slice; not ok is the out of range panic. */
    method Next(width: nat) returns (ok: bool)
      requires Valid()
      modifies this
      ensures Valid()
      ensures ok <==> Total(old(widths) + [width], |old(widths)| + 1) <= |bytes|
      ensures ok ==> widths == old(widths) + [width] && start == old(end) && end == start + width
    {
      CutExtends(widths, [width], |widths|);
      ok := end + width <= |bytes|;
      if ok {
        start := end;
        end := end + width;
        slices := slices + [Slice(start, end)];
        widths := widths + [width];
      }
    }

    /** One slice per signature. */
    method NextAll(ws: seq<nat>) returns (ok: bool)
      requires Valid()
      modifies this
      ensures Valid()
      ensures ok <==> Total(old(widths) + ws, |old(widths) + ws|) <= |bytes|
      ensures ok ==> widths == old(widths) + ws
    {
      ghost var before := widths;
      assert before + ws[..0] == before;
      var i := 0;
      while i < |ws|
        invariant 0 <= i <= |ws| && Valid() && widths == before + ws[..i]
      {
        assert before + ws[..i + 1] == before + ws[..i] + [ws[i]];
        ok := Next(ws[i]);
        if !ok {
          assert before + ws == (before + ws[..i + 1]) + ws[i + 1..];
          TotalExtends(before + ws[..i + 1], ws[i + 1..], |before| + i + 1);
          TotalMonotone(before + ws, |before| + i + 1, |before + ws|);
          return;
        }
        i := i + 1;
      }
      assert ws[..i] == ws;
      ok := true;
    }

    /** The loop over the records. */
    method NextRecords(sizes: seq<nat>, fileSize: nat, blockSize: nat, modSize: nat, blocks: nat, remainder: nat)
      returns (ok: bool, shown: seq<nat>)
      requires Valid() && blockSize > 0
      requires blocks == CalcFileBlocks(fileSize, blockSize)
      requires remainder == CalcFileBlocksRemainder(fileSize, blockSize)
      modifies this
      ensures Valid()
      ensures var all := old(widths) + Repeat(RecordWidths(sizes, blockSize, modSize), blocks);
              (ok <==> Total(all, |all|) <= |bytes|) && (ok ==> widths == all)
      ensures ok ==> shown == ShownSizes(fileSize, blockSize, blocks)
    {
      ghost var before, ws := widths, RecordWidths(sizes, blockSize, modSize);
      assert before + Repeat(ws, 0) == before;
      shown := [];
      var blockNumber := 0;
      while blockNumber < blocks
        invariant 0 <= blockNumber <= blocks && Valid()
        invariant widths == before + Repeat(ws, blockNumber)
        invariant shown == ShownSizes(fileSize, blockSize, blockNumber)
      {
        assert before + Repeat(ws, blockNumber) + ws == before + Repeat(ws, blockNumber + 1);
        ok := NextRecord(sizes, blockSize, modSize);
        if !ok {
          MoreRecords(before, ws, blockNumber + 1, blocks);
          return;
        }
        shown := shown + [if blockNumber + 1 != blocks then blockSize else remainder];
        blockNumber := blockNumber + 1;
      }
      ok := true;
    }

    /** The signatures, the exponent and the modulus of one record. */
    method NextRecord(sizes: seq<nat>, blockSize: nat, modSize: nat) returns (ok: bool)
      requires Valid()
      modifies this
      ensures Valid()
      ensures var all := old(widths) + RecordWidths(sizes, blockSize, modSize);
              (ok <==> Total(all, |all|) <= |bytes|) && (ok ==> widths == all)
    {
      var expBytes := if blockSize <= 32 then 1 else 4;
      ghost var before, ws := widths, RecordWidths(sizes, blockSize, modSize);
      assert before + ws == before + sizes + [expBytes] + [ModByteSize(modSize)];
      ok := NextAll(sizes);
      if ok {
        ok := Next(expBytes);
      }
      if ok {
        ok := Next(ModByteSize(modSize));
      }
      LongerSum(before + sizes, [expBytes] + [ModByteSize(modSize)]);
      LongerSum(before + sizes + [expBytes], [ModByteSize(modSize)]);
      assert before + sizes + ([expBytes] + [ModByteSize(modSize)]) == before + ws;
    }
  }

  lemma {:induction false} MoreRecords(before: seq<nat>, ws: seq<nat>, k: nat, n: nat)
    requires k <= n
    ensures Total(before + Repeat(ws, k), |before + Repeat(ws, k)|)
         <= Total(before + Repeat(ws, n), |before + Repeat(ws, n)|)
  {
    if k < n {
      MoreRecords(before, ws, k, n - 1);
      var front := before + Repeat(ws, n - 1);
      assert before + Repeat(ws, n) == front + ws;
      TotalExtends(front, ws, |front|);
      TotalMonotone(front + ws, |front|, |front + ws|);
    }
  }

  lemma {:induction false} LongerSum(a: seq<nat>, b: seq<nat>)
    ensures Total(a, |a|) <= Total(a + b, |a + b|)
  {
    TotalExtends(a, b, |a|);
    TotalMonotone(a + b, |a|, |a + b|);
  }

  // ---------- the program ----------

  datatype Dump = Dump(slices: seq<Slice>, shown: seq<nat>)

  /** calculateFileBlocks */
  method CalculateFileBlocks(fileSize: nat, blockSize: nat) returns (blocksCount: nat, remainder: nat)
    requires blockSize > 0
    ensures blocksCount == CalcFileBlocks(fileSize, blockSize)
    ensures remainder == CalcFileBlocksRemainder(fileSize, blockSize)
  {
    remainder := fileSize % blockSize;
    DivMod(fileSize, blockSize);
    if remainder == 0 {
      blocksCount := fileSize / blockSize;
      remainder := blockSize;
    } else {
      blocksCount := fileSize / blockSize + 1;
    }
  }

  /** None is a panic. The dump succeeds exactly if the file has every announced byte, and
      then cuts it at the announced widths. */
  method List(mdBlock: BlockList, bytes: Bytes) returns (r: Option<Dump>)
    requires mdBlock.Valid()
    modifies mdBlock
    ensures r.Some? <==>
              Readable(bytes) && Total(AllWidths(old(mdBlock.m), bytes), |AllWidths(old(mdBlock.m), bytes)|) <= |bytes|
    ensures r.Some? ==>
              && r.value.slices == Cut(AllWidths(old(mdBlock.m), bytes), |AllWidths(old(mdBlock.m), bytes)|)
              && r.value.shown == if Records(bytes) == 0 then []
                                  else ShownSizes(Field(bytes, 0), Field(bytes, 1), Records(bytes))
  {
    r := None;
    if |bytes| < HEADER_BYTES {
      return;
    }
    var fileSize, blockSize, modSize := Field(bytes, 0), Field(bytes, 1), Field(bytes, 2);
    var cursor := new Cursor(bytes);
    var ok, hashlist := ReadNames(cursor);
    if !ok || |hashlist| < 2 {
      return;
    }
    var shown;
    ok, shown := ReadLists(mdBlock, cursor, hashlist[0], hashlist[1], fileSize, blockSize, modSize);
    ghost var front := NameWidths(bytes) + ListedSizes(old(mdBlock.m), hashlist[0]);
    assert hashlist[1] == "" ==> AllWidths(old(mdBlock.m), bytes) == front + [] == front;
    if ok {
      r := Some(Dump(cursor.slices, shown));
    }
  }

  /** Path, file name and hash list. */
  method ReadNames(cursor: Cursor) returns (ok: bool, hashlist: seq<string>)
    requires cursor.Valid() && cursor.widths == [] && |cursor.bytes| >= HEADER_BYTES
    modifies cursor
    ensures cursor.Valid()
    ensures ok <==> Total(NameWidths(cursor.bytes), 9) <= |cursor.bytes|
    ensures ok ==> cursor.widths == NameWidths(cursor.bytes) && hashlist == HashLists(cursor.bytes)
  {
    var widths := NameWidths(cursor.bytes);
    hashlist := [];
    assert [] + widths[..8] == widths[..8] && widths == widths[..8] + [widths[8]];
    ok := cursor.NextAll(widths[..8]);
    TotalExtends(widths[..8], [widths[8]], 8);
    if ok {
      ok := cursor.Next(widths[8]);
    }
    if ok {
      hashlist := Text.Split(Chars(cursor.bytes[cursor.start..cursor.end]), '-');
    }
  }

  /** The file signatures and, if there is a block list, the records. */
  method ReadLists(mdBlock: BlockList, cursor: Cursor, filelist: string, blocklist: string,
                   fileSize: nat, blockSize: nat, modSize: nat)
    returns (ok: bool, shown: seq<nat>)
    requires mdBlock.Valid() && cursor.Valid()
    modifies mdBlock, cursor
    ensures cursor.Valid()
    ensures var front := old(cursor.widths) + ListedSizes(old(mdBlock.m), filelist);
            if blocklist == "" then
              (ok <==> Total(front, |front|) <= |cursor.bytes|) && (ok ==> cursor.widths == front && shown == [])
            else if blockSize == 0 then !ok
            else
              var all := front + Repeat(RecordWidths(ListedSizes(old(mdBlock.m), blocklist), blockSize, modSize),
                                        Blocks(fileSize, blockSize));
              && (ok <==> Total(all, |all|) <= |cursor.bytes|)
              && (ok ==> cursor.widths == all && shown == ShownSizes(fileSize, blockSize, Blocks(fileSize, blockSize)))
  {
    shown := [];
    mdBlock.CalcHashBlockSize(filelist);
    ok := cursor.NextAll(mdBlock.blockSizeArr);
    if blocklist == "" {
      return;
    }
    if blockSize == 0 {
      ok := false;
      return;
    }
    ghost var front := old(cursor.widths) + ListedSizes(old(mdBlock.m), filelist);
    LongerSum(front, Repeat(RecordWidths(ListedSizes(old(mdBlock.m), blocklist), blockSize, modSize),
                            Blocks(fileSize, blockSize)));
    if ok {
      mdBlock.CalcHashBlockSize(blocklist);
      var blocks, remainder := CalculateFileBlocks(fileSize, blockSize);
      ok, shown := cursor.NextRecords(mdBlock.blockSizeArr, fileSize, blockSize, modSize, blocks, remainder);
    }
  }
}
