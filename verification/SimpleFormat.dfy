/** The minimal archive format .mdsz: 16 header bytes and 13 bytes per 14-byte block
    (mdZipSimple.cpp), its reader and its validator (mdUnzipSimple.cpp). */
module SimpleFormat {
  import opened Bytes
  import opened Common
  import opened Layout
  import opened Wrappers

  const BLOCK_BYTES: nat := 14
  const MOD_SIZE: nat := 32
  const LONG_BYTES: nat := 8
  const HEADER_BYTES: nat := 16
  const RECORD_BYTES: nat := 13

  type u64 = x: nat | x < 0x1_0000_0000_0000_0000

  /** fasthash64: any function of the block and the key. */
  type Hash = (Bytes, u64) -> u64

  // ---------- specification ----------

  datatype Record = Record(signature: u64, exponent: nat, remainder: nat)

  datatype Archive = Archive(filesize: nat, key: u64, records: seq<Record>)

  function Modulus(): (m: nat)
    ensures m == 0xFFFF_FFFF
  {
    Pow2Words();
    ModulusInt(MOD_SIZE)
  }

  function RecordOf(block: Bytes, key: u64, hash: Hash): Record {
    Record(hash(block, key), Exponent(Value(block)), Value(block) % Modulus())
  }

  function RecordsOf(blocks: seq<Bytes>, key: u64, hash: Hash): (rs: seq<Record>)
    ensures |rs| == |blocks|
    ensures forall i :: 0 <= i < |blocks| ==> rs[i] == RecordOf(blocks[i], key, hash)
  {
    seq(|blocks|, i requires 0 <= i < |blocks| => RecordOf(blocks[i], key, hash))
  }

  /** signature, exponent and remainder as they are stored. */
  function RecordBytes(r: Record): (b: Bytes)
    ensures |b| == RECORD_BYTES
  {
    Little(r.signature, LONG_BYTES) + [r.exponent % 256] + Fixed(r.remainder, CalcModulusBytes(MOD_SIZE))
  }

  function BytesOfRecords(rs: seq<Record>, k: nat): (b: Bytes)
    requires k <= |rs|
    ensures |b| == RECORD_BYTES * k
  {
    if k == 0 then [] else BytesOfRecords(rs, k - 1) + RecordBytes(rs[k - 1])
  }

  function ArchiveBytes(a: Archive): (b: Bytes)
    ensures |b| == HEADER_BYTES + RECORD_BYTES * |a.records|
  {
    Little(a.filesize, LONG_BYTES) + Little(a.key, LONG_BYTES) + BytesOfRecords(a.records, |a.records|)
  }

  /** The archive of a file. */
  function Zipped(file: Bytes, key: u64, hash: Hash): Archive {
    Archive(|file|, key, RecordsOf(Split(file, BLOCK_BYTES), key, hash))
  }

  // ---------- the encoder ----------

  method MdzipFileNoHeader(file: Bytes, key: u64, hash: Hash) returns (written: bool, mdzip: Bytes)
    requires |file| < 0x8000_0000_0000_0000
    ensures written <==> file != []
    ensures written ==> mdzip == ArchiveBytes(Zipped(file, key, hash))
  {
    var filesize := |file|;
    if filesize == 0 {
      return false, [];
    }
    SplitCount(file, BLOCK_BYTES);
    SplitIsLaidOut(file, BLOCK_BYTES);
    var blockcount := CalcFileBlocks(filesize, BLOCK_BYTES);
    var blockremainder := CalcFileBlocksRemainder(filesize, BLOCK_BYTES);
    mdzip := Little(filesize, LONG_BYTES) + Little(key, LONG_BYTES);
    var records := WriteRecords(file, Split(file, BLOCK_BYTES), Zipped(file, key, hash).records, blockcount,
                                blockremainder, key, hash);
    mdzip := mdzip + records;
    written := true;
  }

  lemma NextRecord(rs: seq<Record>, k: nat, before: Bytes, record: Bytes)
    requires 0 < k <= |rs| && before == BytesOfRecords(rs, k - 1) && record == RecordBytes(rs[k - 1])
    ensures before + record == BytesOfRecords(rs, k)
  {
  }

  /** The block loop. */
  method WriteRecords(file: Bytes, ghost blocks: seq<Bytes>, ghost rs: seq<Record>,
                      blockcount: nat, blockremainder: nat, key: u64, hash: Hash)
    returns (mdzip: Bytes)
    requires LaidOut(file, BLOCK_BYTES, blocks) && rs == RecordsOf(blocks, key, hash)
    requires blockcount == |blocks| && blockremainder == |blocks[blockcount - 1]|
    ensures mdzip == BytesOfRecords(rs, |rs|)
  {
    var modulusint := new byte[CalcModulusBytes(MOD_SIZE)];
    var blocknumber, pos := 1, 0;
    mdzip := [];
    while true
      invariant 1 <= blocknumber <= blockcount && pos == Offset(blocks, blocknumber - 1)
      invariant mdzip == BytesOfRecords(rs, blocknumber - 1)
      decreases blockcount - blocknumber
    {
      var currentblocksize := BLOCK_BYTES;
      if blocknumber == blockcount && blockremainder != BLOCK_BYTES {
        currentblocksize := blockremainder;
      }
      mdzip, pos := WriteBlock(file, blocks, rs, blocknumber, pos, currentblocksize, key, hash, modulusint, mdzip);
      if blocknumber == blockcount { break; }
      blocknumber := blocknumber + 1;
    }
  }

  /** Reads one block and appends its record. */
  method WriteBlock(file: Bytes, ghost blocks: seq<Bytes>, ghost rs: seq<Record>, ghost blocknumber: nat, pos: nat,
                    currentblocksize: nat, key: u64, hash: Hash, modulusint: array<byte>, before: Bytes)
    returns (mdzip: Bytes, next: nat)
    requires LaidOut(file, BLOCK_BYTES, blocks) && rs == RecordsOf(blocks, key, hash)
    requires 1 <= blocknumber <= |blocks| && pos == Offset(blocks, blocknumber - 1)
    requires currentblocksize == if blocknumber == |blocks| then |blocks[blocknumber - 1]| else BLOCK_BYTES
    requires modulusint.Length == CalcModulusBytes(MOD_SIZE) && before == BytesOfRecords(rs, blocknumber - 1)
    modifies modulusint
    ensures mdzip == BytesOfRecords(rs, blocknumber) && next == Offset(blocks, blocknumber)
  {
    var byteblock;
    byteblock, next := ReadBlock(file, BLOCK_BYTES, blocks, blocknumber - 1, pos, currentblocksize);
    var recordbytes := WriteRecord(byteblock, key, hash, modulusint);
    NextRecord(rs, blocknumber, before, recordbytes);
    mdzip := before + recordbytes;
  }

  /** What the loop appends for one block. The exponent field is one byte, as blocks are not
      larger than 32 bytes. */
  method WriteRecord(byteblock: Bytes, key: u64, hash: Hash, modulusint: array<byte>) returns (out: Bytes)
    requires modulusint.Length == CalcModulusBytes(MOD_SIZE)
    modifies modulusint
    ensures out == RecordBytes(RecordOf(byteblock, key, hash))
  {
    var modulusInt, modsizeBytes := Modulus(), CalcModulusBytes(MOD_SIZE);
    out := Little(hash(byteblock, key), LONG_BYTES);
    var byteblockInt := Value(byteblock);
    var remainder := byteblockInt % modulusInt;
    var modexponent := CalcExponent(byteblockInt);
    out := out + [modexponent % 256];
    RemainderFits(MOD_SIZE, byteblockInt);
    ExportLength(remainder, modsizeBytes);
    var outside := ExportPadded(modulusint, modsizeBytes, remainder);
    out := out + modulusint[..modsizeBytes];
  }

  // ---------- the reader ----------

  const UNZIP_MINIMUM := 24

  function RecordAt(data: Bytes, pos: nat): Record
    requires pos + RECORD_BYTES <= |data|
  {
    LittleBound(data[pos..pos + LONG_BYTES]);
    Record(LittleValue(data[pos..pos + LONG_BYTES]), data[pos + LONG_BYTES],
           Value(data[pos + LONG_BYTES + 1..pos + RECORD_BYTES]))
  }

  lemma {:induction false} LittleBound(bs: Bytes)
    requires |bs| == LONG_BYTES
    ensures LittleValue(bs) < 0x1_0000_0000_0000_0000
  {
    LittleValueBound(bs);
    Pow2Words();
  }

  function RecordsAt(data: Bytes, k: nat): (rs: seq<Record>)
    requires HEADER_BYTES + RECORD_BYTES * k <= |data|
    ensures |rs| == k
  {
    if k == 0 then [] else RecordsAt(data, k - 1) + [RecordAt(data, HEADER_BYTES + RECORD_BYTES * (k - 1))]
  }

  /** A file of at least the minimal length and as many records as its header announces. */
  function Parse(data: Bytes): Option<Archive> {
    if |data| < UNZIP_MINIMUM then None
    else
      var filesize := LittleValue(data[..LONG_BYTES]);
      LittleBound(data[LONG_BYTES..HEADER_BYTES]);
      var key: u64 := LittleValue(data[LONG_BYTES..HEADER_BYTES]);
      var n := CalcFileBlocks(filesize, BLOCK_BYTES);
      if n < 0 || |data| < HEADER_BYTES + RECORD_BYTES * n then None
      else Some(Archive(filesize, key, RecordsAt(data, n)))
  }

  /** The header and record reads of mdunzipfile. */
  method ReadArchive(data: Bytes) returns (r: Option<Archive>)
    ensures r == Parse(data)
  {
    if |data| < UNZIP_MINIMUM {
      return None;
    }
    var filesize := LittleValue(data[..LONG_BYTES]);
    LittleBound(data[LONG_BYTES..HEADER_BYTES]);
    var blockkey: u64 := LittleValue(data[LONG_BYTES..HEADER_BYTES]);
    var blockcount := CalcFileBlocks(filesize, BLOCK_BYTES);
    if blockcount < 0 || |data| < HEADER_BYTES + RECORD_BYTES * blockcount {
      return None;
    }
    var records, nf, blk := [], HEADER_BYTES, 0;
    while blk < blockcount
      invariant 0 <= blk <= blockcount && nf == HEADER_BYTES + RECORD_BYTES * blk
      invariant records == RecordsAt(data, blk)
    {
      records := records + [RecordAt(data, nf)];
      nf := nf + RECORD_BYTES;
      blk := blk + 1;
    }
    r := Some(Archive(filesize, blockkey, records));
  }

  // ---------- round trip ----------

  predicate RecordFits(r: Record) {
    r.exponent < 256 && r.remainder < Pow2(8 * CalcModulusBytes(MOD_SIZE))
  }

  lemma {:induction false} RecordOfFits(block: Bytes, key: u64, hash: Hash)
    requires 0 < |block| <= BLOCK_BYTES
    ensures RecordFits(RecordOf(block, key, hash))
  {
    BlockExponent(block);
    RemainderFits(MOD_SIZE, Value(block));
  }

  lemma {:induction false} RecordRoundTrip(data: Bytes, pos: nat, r: Record)
    requires RecordFits(r) && pos + RECORD_BYTES <= |data|
    requires data[pos..pos + RECORD_BYTES] == RecordBytes(r)
    ensures RecordAt(data, pos) == r
  {
    var d := data[pos..pos + RECORD_BYTES];
    assert data[pos..pos + LONG_BYTES] == d[..LONG_BYTES] == Little(r.signature, LONG_BYTES);
    Pow2Words();
    LittleValueOfLittle(r.signature, LONG_BYTES);
    assert data[pos + LONG_BYTES] == d[LONG_BYTES] == r.exponent % 256;
    var field := CalcModulusBytes(MOD_SIZE);
    assert data[pos + LONG_BYTES + 1..pos + RECORD_BYTES] == d[LONG_BYTES + 1..] == Fixed(r.remainder, field);
    ValueOfFixed(r.remainder, field);
    var got := RecordAt(data, pos);
    assert got.signature == r.signature && got.exponent == r.exponent && got.remainder == r.remainder;
    assert got == r;
  }

  lemma {:induction false} BytesOfRecordsPrefix(rs: seq<Record>, k: nat, n: nat)
    requires k < n <= |rs|
    ensures BytesOfRecords(rs, n)[RECORD_BYTES * k..RECORD_BYTES * k + RECORD_BYTES] == RecordBytes(rs[k])
  {
    if k + 1 < n {
      BytesOfRecordsPrefix(rs, k, n - 1);
      var all, front := BytesOfRecords(rs, n), BytesOfRecords(rs, n - 1);
      assert all[RECORD_BYTES * k..RECORD_BYTES * k + RECORD_BYTES]
             == front[RECORD_BYTES * k..RECORD_BYTES * k + RECORD_BYTES];
    }
  }

  lemma {:induction false} RecordSlice(data: Bytes, rs: seq<Record>, k: nat)
    requires k < |rs| && |data| == HEADER_BYTES + RECORD_BYTES * |rs|
    requires data[HEADER_BYTES..] == BytesOfRecords(rs, |rs|)
    ensures var pos := HEADER_BYTES + RECORD_BYTES * k;
            data[pos..pos + RECORD_BYTES] == RecordBytes(rs[k])
  {
    BytesOfRecordsPrefix(rs, k, |rs|);
    var pos := RECORD_BYTES * k;
    assert data[HEADER_BYTES..][pos..pos + RECORD_BYTES] == data[HEADER_BYTES + pos..HEADER_BYTES + pos + RECORD_BYTES];
  }

  lemma {:induction false} RecordsRoundTrip(data: Bytes, blocks: seq<Bytes>, key: u64, hash: Hash, k: nat)
    requires k <= |blocks| && |data| == HEADER_BYTES + RECORD_BYTES * |blocks|
    requires data[HEADER_BYTES..] == BytesOfRecords(RecordsOf(blocks, key, hash), |blocks|)
    requires forall i :: 0 <= i < |blocks| ==> 0 < |blocks[i]| <= BLOCK_BYTES
    ensures forall i :: 0 <= i < k ==> RecordsAt(data, k)[i] == RecordOf(blocks[i], key, hash)
  {
    if k != 0 {
      RecordsRoundTrip(data, blocks, key, hash, k - 1);
      RecordSlice(data, RecordsOf(blocks, key, hash), k - 1);
      RecordOfFits(blocks[k - 1], key, hash);
      RecordRoundTrip(data, HEADER_BYTES + RECORD_BYTES * (k - 1), RecordOf(blocks[k - 1], key, hash));
    }
  }

  lemma {:induction false} HeaderRoundTrip(a: Archive)
    requires a.filesize < 0x8000_0000_0000_0000
    ensures LittleValue(ArchiveBytes(a)[..LONG_BYTES]) == a.filesize
    ensures LittleValue(ArchiveBytes(a)[LONG_BYTES..HEADER_BYTES]) == a.key
    ensures ArchiveBytes(a)[HEADER_BYTES..] == BytesOfRecords(a.records, |a.records|)
  {
    Pow2Words();
    LittleValueOfLittle(a.filesize, LONG_BYTES);
    LittleValueOfLittle(a.key, LONG_BYTES);
    assert ArchiveBytes(a)[..LONG_BYTES] == Little(a.filesize, LONG_BYTES);
    assert ArchiveBytes(a)[LONG_BYTES..HEADER_BYTES] == Little(a.key, LONG_BYTES);
  }

  /** Reading an archive back yields the file size, the key and, for every block, its
      signature, its exponent and its remainder: nothing is truncated in this format. */
  lemma {:induction false} ParseOfZip(file: Bytes, key: u64, hash: Hash)
    requires 0 < |file| < 0x8000_0000_0000_0000
    ensures Parse(ArchiveBytes(Zipped(file, key, hash))) == Some(Zipped(file, key, hash))
  {
    var a, blocks := Zipped(file, key, hash), Split(file, BLOCK_BYTES);
    SplitCount(file, BLOCK_BYTES);
    HeaderRoundTrip(a);
    RecordsRoundTrip(ArchiveBytes(a), blocks, key, hash, |blocks|);
    assert RecordsAt(ArchiveBytes(a), |blocks|) == a.records;
  }

  /** Two files have the same archive exactly when they have the same length and, block by
      block, the same signature, exponent and remainder. */
  lemma {:induction false} SameArchive(f: Bytes, g: Bytes, key: u64, hash: Hash)
    requires 0 < |f| < 0x8000_0000_0000_0000 && 0 < |g| < 0x8000_0000_0000_0000
    ensures ArchiveBytes(Zipped(f, key, hash)) == ArchiveBytes(Zipped(g, key, hash))
            <==> Zipped(f, key, hash) == Zipped(g, key, hash)
  {
    ParseOfZip(f, key, hash);
    ParseOfZip(g, key, hash);
  }

  // ---------- the archive byte by byte ----------

  /** An archive starts with the file size and the key, and takes 13 bytes for every 14 bytes of
      the file, rounded up. */
  lemma {:induction false} HeaderLayout(file: Bytes, key: u64, hash: Hash)
    requires 0 < |file| < 0x8000_0000_0000_0000
    ensures var data := ArchiveBytes(Zipped(file, key, hash));
            && |data| == 16 + 13 * ((|file| + 13) / 14)
            && NumberStands(data, 0, 8, |file|) && NumberStands(data, 8, 8, key)
  {
    HeaderRoundTrip(Zipped(file, key, hash));
    RecordCount(file, key, hash);
  }

  lemma {:induction false} RecordCount(file: Bytes, key: u64, hash: Hash)
    requires file != []
    ensures |ArchiveBytes(Zipped(file, key, hash))| == 16 + 13 * ((|file| + 13) / 14)
  {
    SplitCount(file, BLOCK_BYTES);
    BlocksRoundUp(|file|, BLOCK_BYTES);
  }

  /** The record of the i-th 14 bytes: eight bytes of signature, one of exponent, four of
      remainder, the last most significant byte first. */
  lemma {:induction false} RecordLayout(file: Bytes, key: u64, hash: Hash, i: nat, slice: Bytes, pos: nat)
    requires i * 14 < |file| < 0x8000_0000_0000_0000 && pos == 16 + 13 * i
    requires slice == file[i * 14..if (i + 1) * 14 < |file| then (i + 1) * 14 else |file|]
    ensures var data := ArchiveBytes(Zipped(file, key, hash));
            && pos + 13 <= |data| && NumberStands(data, pos, 8, hash(slice, key))
            && data[pos + 8] == Exponent(Value(slice)) && BigStands(data, pos + 9, 4, Value(slice) % 0xFFFF_FFFF)
  {
    var a, blocks := Zipped(file, key, hash), Split(file, BLOCK_BYTES);
    SplitSlice(file, BLOCK_BYTES, i);
    SplitCount(file, BLOCK_BYTES);
    HeaderRoundTrip(a);
    RecordSlice(ArchiveBytes(a), a.records, i);
    RecordOfFits(slice, key, hash);
    RecordRoundTrip(ArchiveBytes(a), pos, RecordOf(slice, key, hash));
    RecordStands(ArchiveBytes(a), pos);
  }

  lemma {:induction false} RecordStands(data: Bytes, pos: nat)
    requires pos + RECORD_BYTES <= |data|
    ensures var r := RecordAt(data, pos);
            && NumberStands(data, pos, 8, r.signature) && data[pos + 8] == r.exponent
            && BigStands(data, pos + 9, 4, r.remainder)
  {
  }

  /** The reader accepts exactly the files of 24 bytes or more that hold 13 bytes for each of the
      announced blocks. */
  lemma {:induction false} AcceptedExactlyWhen(data: Bytes)
    ensures Parse(data).Some? <==> |data| >= 24 && |data| >= 16 + 13 * ((LittleValue(data[0..8]) + 13) / 14)
  {
    if |data| >= 24 {
      var filesize := LittleValue(data[..LONG_BYTES]);
      assert data[0..8] == data[..LONG_BYTES];
      if filesize > 0 {
        FileBlocksCover(filesize, BLOCK_BYTES);
      }
    }
  }

  // ---------- the validator ----------

  const VALIDATE_MINIMUM := 21

  /** Conversion of a long to a 32-bit int. */
  function ToInt32(v: int): int {
    var m := v % 0x1_0000_0000;
    if m < 0x8000_0000 then m else m - 0x1_0000_0000
  }

  /** Eight stored bytes read as a signed long. */
  function ToLong(v: nat): int {
    if v < 0x8000_0000_0000_0000 then v else v - 0x1_0000_0000_0000_0000
  }

  /** Both are the number of the range that differs by a multiple of 2^32 or 2^64. */
  lemma SignedNumbers(v: int, w: nat)
    requires w < 0x1_0000_0000_0000_0000
    ensures -0x8000_0000 <= ToInt32(v) < 0x8000_0000 && (v - ToInt32(v)) % 0x1_0000_0000 == 0
    ensures -0x8000_0000_0000_0000 <= ToLong(w) < 0x8000_0000_0000_0000
    ensures (w - ToLong(w)) % 0x1_0000_0000_0000_0000 == 0
  {
  }

  /** The file size an archive announces. */
  function AnnouncedSize(data: Bytes): int
    requires |data| >= LONG_BYTES
  {
    ToLong(LittleValue(data[..LONG_BYTES]))
  }

  /** What the validator asks of a file. Its total of the records is an int. */
  predicate Validates(fileExt: string, data: Bytes) {
    && (fileExt == "mdsz" || fileExt == "out")
    && |data| >= VALIDATE_MINIMUM
    && |data| == HEADER_BYTES + ToInt32(RECORD_BYTES * CalcFileBlocks(AnnouncedSize(data), BLOCK_BYTES))
  }

  method ValidateMdzip(fileExt: string, data: Bytes) returns (rc: int)
    ensures rc == if Validates(fileExt, data) then 0 else 1
  {
    if fileExt != "mdsz" && fileExt != "out" {
      return 1;
    }
    if |data| < VALIDATE_MINIMUM {
      return 1;
    }
    var filesize := ToLong(LittleValue(data[..LONG_BYTES]));
    var modsizeBytes := CalcModulusBytes(MOD_SIZE);
    var blockcount := CalcFileBlocks(filesize, BLOCK_BYTES);
    var hashblocksize := LONG_BYTES + modsizeBytes + 1;
    var totalblocksize := ToInt32(hashblocksize * blockcount);
    var sumfilesize := 16 + totalblocksize;
    if sumfilesize == |data| {
      return 0;
    } else {
      return 1;
    }
  }

  /** Every archive has 16 + 13 * ceil(L / 14) bytes. */
  lemma {:induction false} SizeLaw(file: Bytes, key: u64, hash: Hash)
    requires file != []
    ensures |ArchiveBytes(Zipped(file, key, hash))| == 16 + 13 * ((|file| + 13) / 14)
    ensures |ArchiveBytes(Zipped(file, key, hash))| == HEADER_BYTES + RECORD_BYTES * CalcFileBlocks(|file|, BLOCK_BYTES)
    ensures CalcFileBlocks(|file|, BLOCK_BYTES) == (|file| + BLOCK_BYTES - 1) / BLOCK_BYTES
  {
    RecordCount(file, key, hash);
    SplitCount(file, BLOCK_BYTES);
    BlocksRoundUp(|file|, BLOCK_BYTES);
  }

  lemma ToInt32IsExact(v: nat)
    ensures ToInt32(v) == v <==> v < 0x8000_0000
  {
  }

  lemma {:induction false} StoredSize(file: Bytes, key: u64, hash: Hash)
    requires 0 < |file| < 0x8000_0000_0000_0000
    ensures AnnouncedSize(ArchiveBytes(Zipped(file, key, hash))) == |file|
  {
    HeaderRoundTrip(Zipped(file, key, hash));
  }

  /** The validator compares lengths: below 2^31 bytes of records it accepts, of the files that
      announce this size, exactly those as long as the archive; from there on its int total
      wraps around and it turns such a file away. */
  lemma {:induction false} ValidatesLengthExactlyWhen(fileExt: string, data: Bytes, file: Bytes, key: u64, hash: Hash)
    requires 0 < |file| < 0x8000_0000_0000_0000 && |data| >= LONG_BYTES && AnnouncedSize(data) == |file|
    requires fileExt == "mdsz" || fileExt == "out"
    requires |data| == |ArchiveBytes(Zipped(file, key, hash))|
          || RECORD_BYTES * CalcFileBlocks(|file|, BLOCK_BYTES) < 0x8000_0000
    ensures Validates(fileExt, data) <==>
              && |data| == |ArchiveBytes(Zipped(file, key, hash))|
              && RECORD_BYTES * CalcFileBlocks(|file|, BLOCK_BYTES) < 0x8000_0000
  {
    SizeLaw(file, key, hash);
    FileBlocksCover(|file|, BLOCK_BYTES);
    ToInt32IsExact(RECORD_BYTES * CalcFileBlocks(|file|, BLOCK_BYTES));
  }

  /** The validator accepts the encoder's output exactly while the records take less than
      2^31 bytes. */
  lemma {:induction false} ValidatesExactlyWhen(fileExt: string, file: Bytes, key: u64, hash: Hash)
    requires 0 < |file| < 0x8000_0000_0000_0000 && (fileExt == "mdsz" || fileExt == "out")
    ensures Validates(fileExt, ArchiveBytes(Zipped(file, key, hash)))
            <==> RECORD_BYTES * CalcFileBlocks(|file|, BLOCK_BYTES) < 0x8000_0000
  {
    SizeLaw(file, key, hash);
    StoredSize(file, key, hash);
    ValidatesLengthExactlyWhen(fileExt, ArchiveBytes(Zipped(file, key, hash)), file, key, hash);
  }
}
