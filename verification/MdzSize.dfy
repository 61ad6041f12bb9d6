/** The length of an archive (mdZip.cpp) and the length that the validator expects
    (validateMDzip in mdUnzip.cpp). */
module MdzSize {
  import opened Bytes
  import opened Common
  import opened Wrappers
  import opened IncrementKey
  import opened Layout
  import opened HashRegistry
  import opened MdzFormat
  import opened MdzRoundTrip
  import opened Sums
  import SimpleFormat

  // ---------- how long an archive is ----------

  /** Bytes of one record. */
  function RecordSize(reg: Registry, h: Header): nat
    requires AllValid(reg, h.blockIds)
  {
    Total(BlockSizes(reg, h.blockIds), |h.blockIds|) + CalcModulusBytes(h.modsize) + ExponentBytes(h.blocksize)
  }

  /** Bytes of the key list as it is written. */
  function KeyBytes(reg: Registry, h: Header): nat
    requires AllValid(reg, h.blockIds)
  {
    if h.keys == [] then 0 else Total(WrittenKeySizes(reg, h.blockIds), |h.blockIds|)
  }

  function FileSignatureBytes(reg: Registry, h: Header): nat
    requires AllValid(reg, h.fileIds)
  {
    Total(BlockSizes(reg, h.fileIds), |h.fileIds|)
  }

  lemma {:induction false} OffsetIsTotal(parts: seq<Bytes>, sizes: seq<nat>, k: nat)
    requires SizedAs(parts, sizes) && k <= |parts|
    ensures Offset(parts, k) == Total(sizes, k)
  {
    if k != 0 {
      OffsetIsTotal(parts, sizes, k - 1);
    }
  }

  lemma {:induction false} ListLength(parts: seq<Bytes>, sizes: seq<nat>)
    requires SizedAs(parts, sizes)
    ensures |Join(parts)| == Total(sizes, |sizes|)
  {
    JoinLength(parts);
    OffsetIsTotal(parts, sizes, |parts|);
  }

  lemma {:induction false} JoinHead(parts: seq<Bytes>, i: nat)
    requires i < |parts|
    ensures |Join(parts[i..])| == |parts[i]| + |Join(parts[i + 1..])|
  {
    assert parts[i..][1..] == parts[i + 1..];
  }

  lemma {:induction false} HeaderSize(reg: Registry, h: Header)
    requires WellFormed(reg, h)
    ensures |Join(HeaderParts(reg, h))|
         == PREFIX_BYTES + NameBytes(reg, h) + FileSignatureBytes(reg, h) + KeyBytes(reg, h)
  {
    var parts := HeaderParts(reg, h);
    assert parts == parts[0..] && parts[11..] == [];
    JoinHead(parts, 0); JoinHead(parts, 1); JoinHead(parts, 2); JoinHead(parts, 3);
    JoinHead(parts, 4); JoinHead(parts, 5); JoinHead(parts, 6); JoinHead(parts, 7);
    JoinHead(parts, 8); JoinHead(parts, 9); JoinHead(parts, 10);
    ListLength(h.fileSignatures, BlockSizes(reg, h.fileIds));
    if h.keys != [] {
      ListLength(h.keys, WrittenKeySizes(reg, h.blockIds));
    }
  }

  lemma {:induction false} RecordsSize(reg: Registry, defaults: KeyRegister, h: Header, jobs: seq<Job>, k: nat)
    requires AllValid(reg, h.blockIds) && h.blocksize > 0 && AllFit(reg, defaults, h, jobs) && k <= |jobs|
    ensures |Records(h, jobs, k)| == RecordSize(reg, h) * k
  {
    if k != 0 {
      RecordsSize(reg, defaults, h, jobs, k - 1);
      var job := jobs[k - 1];
      assert JobFits(reg, defaults, h, job, k - 1);
      var parts := RecordParts(h, job);
      assert parts == parts[0..] && parts[3..] == [];
      JoinHead(parts, 0); JoinHead(parts, 1); JoinHead(parts, 2);
      ListLength(job.signatures, BlockSizes(reg, h.blockIds));
      assert RecordSize(reg, h) * k == RecordSize(reg, h) * (k - 1) + RecordSize(reg, h);
    }
  }

  /** An archive has 40 bytes, the names, the file signatures, the written keys, and one
      record per block. */
  lemma {:induction false} SizeLaw(s: Setup, q: Request, file: Bytes)
    requires ValidSetup(s) && ValidRequest(s, q) && 0 < |file| < LONG_LIMIT
    ensures var a := Zipped(s, q, file);
            |Encode(s.reg, a)|
            == 40 + NameBytes(s.reg, a.header) + FileSignatureBytes(s.reg, a.header)
               + KeyBytes(s.reg, a.header) + RecordSize(s.reg, a.header) * BlockCount(a.header)
  {
    var a := Zipped(s, q, file);
    HeaderFits(s, q, file);
    HeaderSize(s.reg, a.header);
    SplitCount(file, a.header.blocksize);
    forall i | 0 <= i < |a.jobs|
      ensures JobFits(s.reg, s.defaults, a.header, a.jobs[i], i)
    {
      JobsFit(s, q, file, i);
    }
    RecordsSize(s.reg, s.defaults, a.header, a.jobs, |a.jobs|);
  }

  lemma {:induction false} NoSignatures(reg: Registry, h: Header)
    requires h.fileIds == [] && h.blockIds == []
    ensures NameBytes(reg, h) == FileSignatureBytes(reg, h) == KeyBytes(reg, h) == 0
    ensures RecordSize(reg, h) == CalcModulusBytes(h.modsize) + ExponentBytes(h.blocksize)
  {
  }

  /** Bytes of all records without block signatures. */
  function UnsignedRecords(h: Header): int
    requires h.blocksize > 0
  {
    (CalcModulusBytes(h.modsize) + ExponentBytes(h.blocksize)) * BlockCount(h)
  }

  lemma {:induction false} UnsignedSize(s: Setup, q: Request, file: Bytes)
    requires ValidSetup(s) && ValidRequest(s, q) && 0 < |file| < LONG_LIMIT
    requires Listed(s, q.fileList) == [] && Listed(s, q.blockList) == []
    ensures var a := Zipped(s, q, file); |Encode(s.reg, a)| == PREFIX_BYTES + UnsignedRecords(a.header)
  {
    NoSignatures(s.reg, HeaderOf(s, q, file));
    SizeLaw(s, q, file);
  }

  /** Without file and block signatures only the numbers and the records are there: then the
      reader turns the archive away exactly if the records take less than eight bytes. */
  lemma {:induction false} UnsignedIsTurnedAwayExactlyWhen(s: Setup, q: Request, file: Bytes)
    requires ValidSetup(s) && ValidRequest(s, q) && 0 < |file| < LONG_LIMIT
    requires Listed(s, q.fileList) == [] && Listed(s, q.blockList) == []
    ensures var a := Zipped(s, q, file);
            Parse(s.reg, s.defaults, Encode(s.reg, a)) == None <==> UnsignedRecords(a.header) < 8
  {
    UnsignedSize(s, q, file);
    ContainerRoundTrip(s, q, file);
  }

  /** For example the archive of a single byte with modulus size 32 and the block list 0, which
      names no signature. */
  lemma {:induction false} OneByteFileIsTurnedAway(s: Setup, q: Request, b: byte)
    requires ValidSetup(s) && ValidRequest(s, q) && q.fileList == [] && q.blockList == [0] && q.modsize == 32
    ensures |Encode(s.reg, Zipped(s, q, [b]))| == 45
    ensures Parse(s.reg, s.defaults, Encode(s.reg, Zipped(s, q, [b]))) == None
  {
    UnknownAreDropped(s.reg, q.fileList);
    UnknownAreDropped(s.reg, q.blockList);
    UnsignedSize(s, q, [b]);
    UnsignedIsTurnedAwayExactlyWhen(s, q, [b]);
    OneByteRecord(HeaderOf(s, q, [b]));
  }

  lemma {:induction false} OneByteRecord(h: Header)
    requires h.filesize == h.blocksize == 1 && h.modsize == 32
    ensures UnsignedRecords(h) == 5
  {
    OneFileBlock(1, 1);
    assert CalcModulusBytes(32) == 4;
  }

  // ---------- what the validator expects ----------

  /** The sum the validator forms: it counts the registry's key sizes whether or not keys
      were written, and its record total is an int. */
  function ExpectedSize(reg: Registry, h: Header, nameBytes: nat): int
    requires AllValid(reg, h.fileIds) && AllValid(reg, h.blockIds) && h.blocksize > 0
  {
    PREFIX_BYTES + nameBytes + FileSignatureBytes(reg, h)
    + Total(KeySizes(reg, h.blockIds), |h.blockIds|)
    + SimpleFormat.ToInt32(RecordSize(reg, h) * BlockCount(h))
  }

  lemma {:induction false} WrapsToOther(x: nat, k: nat, w: nat)
    requires k < 0x1_0000_0000
    ensures k + SimpleFormat.ToInt32(x) == w + x <==> x - SimpleFormat.ToInt32(x) == k - w
    ensures x < INT_LIMIT <==> SimpleFormat.ToInt32(x) == x
    ensures x - SimpleFormat.ToInt32(x) == k - w ==> x < INT_LIMIT && k == w
  {
  }

  lemma {:induction false} ExpectedExactlyWhen(s: Setup, q: Request, file: Bytes)
    requires ValidSetup(s) && ValidRequest(s, q) && 0 < |file| < LONG_LIMIT
    requires Total(KeySizes(s.reg, Listed(s, q.blockList)), |Listed(s, q.blockList)|) < 0x1_0000_0000
    ensures var a := Zipped(s, q, file);
            ExpectedSize(s.reg, a.header, NameBytes(s.reg, a.header)) == |Encode(s.reg, a)|
            <==> && RecordSize(s.reg, a.header) * BlockCount(a.header) < INT_LIMIT
                 && Total(KeySizes(s.reg, a.header.blockIds), |a.header.blockIds|) == KeyBytes(s.reg, a.header)
  {
    var a := Zipped(s, q, file);
    SizeLaw(s, q, file);
    FileBlocksCover(|file|, a.header.blocksize);
    var x := RecordSize(s.reg, a.header) * BlockCount(a.header);
    assert x >= 0 by { MulMonotone(0, RecordSize(s.reg, a.header), BlockCount(a.header)); }
    WrapsToOther(x, Total(KeySizes(s.reg, a.header.blockIds), |a.header.blockIds|), KeyBytes(s.reg, a.header));
  }

  predicate IsMdzName(fileExt: string) {
    fileExt == "mdz" || fileExt == "out"
  }

  /** What the validator checks. */
  predicate Validates(reg: Registry, fileExt: string, data: Bytes) {
    && IsMdzName(fileExt) && |data| >= MINIMUM
    && var p := ParseHeader(reg, data);
       p.Some? && |data| == ExpectedSize(reg, p.value.header, p.value.nameBytes)
  }

  /** The validator accepts an archive exactly when it has 48 bytes, the records take less
      than 2^31 bytes and the key sizes of the registry add up to the key bytes really
      written: with random keys that needs every listed signature to write its registered key
      size, without them it needs a list without keyed signatures. */
  lemma {:induction false} ValidatesExactlyWhen(s: Setup, q: Request, file: Bytes, fileExt: string)
    requires ValidSetup(s) && ValidRequest(s, q) && 0 < |file| < LONG_LIMIT && IsMdzName(fileExt)
    requires Total(KeySizes(s.reg, Listed(s, q.blockList)), |Listed(s, q.blockList)|) < 0x1_0000_0000
    ensures var a := Zipped(s, q, file);
            Validates(s.reg, fileExt, Encode(s.reg, a))
            <==> && |Encode(s.reg, a)| >= 48
                 && RecordSize(s.reg, a.header) * BlockCount(a.header) < INT_LIMIT
                 && Total(KeySizes(s.reg, a.header.blockIds), |a.header.blockIds|) == KeyBytes(s.reg, a.header)
  {
    var a := Zipped(s, q, file);
    HeaderFits(s, q, file);
    HeaderRoundTrip(s.reg, a.header, Records(a.header, a.jobs, |a.jobs|));
    ExpectedExactlyWhen(s, q, file);
  }

  /** If no row registers more key bytes than it writes, the key sizes add up to the key bytes
      written exactly when each listed row writes its registered size; without random keys, when
      no listed row has a key. */
  lemma {:induction false} KeySizesAgreeExactlyWhen(s: Setup, q: Request, file: Bytes)
    requires ValidSetup(s) && ValidRequest(s, q) && 0 < |file| < LONG_LIMIT
    requires forall i :: 0 <= i < |s.reg| ==> s.reg[i].keysize <= s.reg[i].written
    ensures var h := HeaderOf(s, q, file);
            Total(KeySizes(s.reg, h.blockIds), |h.blockIds|) == KeyBytes(s.reg, h) <==>
              forall k :: 0 <= k < |h.blockIds| ==>
                var row := s.reg[h.blockIds[k] - 1];
                row.keysize == if q.random.Some? then row.written else 0
  {
    var h := HeaderOf(s, q, file);
    KeySizesAgree(s.reg, h, q.random.Some?);
  }

  lemma {:induction false} KeySizesAgree(reg: Registry, h: Header, random: bool)
    requires AllValid(reg, h.blockIds) && |h.keys| == if random then |h.blockIds| else 0
    requires forall i :: 0 <= i < |reg| ==> reg[i].keysize <= reg[i].written
    ensures Total(KeySizes(reg, h.blockIds), |h.blockIds|) == KeyBytes(reg, h) <==>
              forall k :: 0 <= k < |h.blockIds| ==>
                var row := reg[h.blockIds[k] - 1]; row.keysize == if random then row.written else 0
  {
    if random {
      SizesAreWritten(reg, h.blockIds);
      assert h.keys == [] ==> h.blockIds == [];
    } else {
      NoKeyBytes(reg, h.blockIds);
    }
  }

  lemma {:induction false} SizesAreWritten(reg: Registry, ids: seq<nat>)
    requires AllValid(reg, ids) && forall i :: 0 <= i < |reg| ==> reg[i].keysize <= reg[i].written
    ensures Total(KeySizes(reg, ids), |ids|) == Total(WrittenKeySizes(reg, ids), |ids|) <==>
              forall k :: 0 <= k < |ids| ==> reg[ids[k] - 1].keysize == reg[ids[k] - 1].written
    ensures ids == [] ==> Total(KeySizes(reg, ids), |ids|) == 0
  {
    var sizes, written := KeySizes(reg, ids), WrittenKeySizes(reg, ids);
    assert forall k :: 0 <= k < |ids| ==>
      sizes[k] == reg[ids[k] - 1].keysize && written[k] == reg[ids[k] - 1].written;
    TotalsAgree(sizes, written, |ids|);
  }

  lemma {:induction false} NoKeyBytes(reg: Registry, ids: seq<nat>)
    requires AllValid(reg, ids)
    ensures Total(KeySizes(reg, ids), |ids|) == 0 <==> forall k :: 0 <= k < |ids| ==> reg[ids[k] - 1].keysize == 0
  {
    var none, sizes := seq(|ids|, i => 0), KeySizes(reg, ids);
    assert forall k :: 0 <= k < |ids| ==> none[k] == 0 && sizes[k] == reg[ids[k] - 1].keysize;
    TotalsAgree(none, sizes, |ids|);
    NoBytes(none, |none|);
  }

  lemma {:induction false} NoBytes(sizes: seq<nat>, k: nat)
    requires k <= |sizes| && forall i :: 0 <= i < |sizes| ==> sizes[i] == 0
    ensures Total(sizes, k) == 0
  {
    if k != 0 {
      NoBytes(sizes, k - 1);
    }
  }
}
