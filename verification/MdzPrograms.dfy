/** The block loops that write an archive (mdzipfile in mdZip.cpp), read it for the search
    (mdunzipfile in mdUnzip.cpp) and validate its length (validateMDzip). */
module MdzPrograms {
  import opened Bytes
  import opened Common
  import opened Wrappers
  import opened IncrementKey
  import opened HashRegistry
  import opened MdzFormat
  import opened MdzRoundTrip
  import opened MdzSize
  import SimpleFormat

  // ---------- signatures and keys in a stream ----------

  /** setByteBlockHashList or setFileHashList, then writeBlockHashList. */
  method WriteSignatures(s: Setup, ids: seq<nat>, register: KeyRegister, data: Bytes) returns (out: Bytes)
    ensures out == Join(Signatures(s.digest, ids, register, data))
  {
    ghost var all := Signatures(s.digest, ids, register, data);
    out := [];
    var i := 0;
    while i < |ids|
      invariant 0 <= i <= |ids| && out == Join(all[..i])
    {
      var signature := s.digest(ids[i], KeyFor(register, ids[i]), data);
      assert all[..i + 1] == all[..i] + [signature];
      JoinAppend(all[..i], signature);
      out := out + signature;
      i := i + 1;
    }
    assert all[..i] == all;
  }

  /** randomizeKeyList: the drawn keys of the listed signatures enter the register. */
  method RandomizeKeyList(ids: seq<nat>, defaults: KeyRegister, random: KeyRegister) returns (register: KeyRegister)
    ensures register == WithKeys(defaults, ids, KeysOf(random, ids), |ids|)
  {
    register := defaults;
    var i := 0;
    while i < |ids|
      invariant 0 <= i <= |ids| && register == WithKeys(defaults, ids, KeysOf(random, ids), i)
    {
      register := register[ids[i] := KeyFor(random, ids[i])];
      i := i + 1;
    }
  }

  method WriteKeyList(ids: seq<nat>, register: KeyRegister) returns (out: Bytes)
    ensures out == Join(KeysOf(register, ids))
  {
    ghost var all := KeysOf(register, ids);
    out := [];
    var i := 0;
    while i < |ids|
      invariant 0 <= i <= |ids| && out == Join(all[..i])
    {
      var key := KeyFor(register, ids[i]);
      assert all[..i + 1] == all[..i] + [key];
      JoinAppend(all[..i], key);
      out := out + key;
      i := i + 1;
    }
    assert all[..i] == all;
  }

  /** readBlockHashList and readKeyList: one piece per listed signature. */
  method ReadPieces(nf: Bytes, sizes: seq<nat>) returns (r: Option<Pieces>)
    ensures r == TakeParts(nf, sizes, |sizes|)
  {
    var p := Pieces([], nf);
    var i := 0;
    while i < |sizes|
      invariant 0 <= i <= |sizes| && TakeParts(nf, sizes, i) == Some(p)
    {
      var q := Take(p.rest, sizes[i]);
      if q.None? {
        FailureSpreads(nf, sizes, i + 1, |sizes|);
        return None;
      }
      p := Pieces(p.parts + [q.value.bytes], q.value.rest);
      i := i + 1;
    }
    r := Some(p);
  }

  lemma {:induction false} FailureSpreads(nf: Bytes, sizes: seq<nat>, k: nat, n: nat)
    requires k <= n <= |sizes| && TakeParts(nf, sizes, k).None?
    ensures TakeParts(nf, sizes, n).None?
  {
    if k < n {
      FailureSpreads(nf, sizes, k, n - 1);
    }
  }

  // ---------- keys along the blocks ----------

  /** The keys in force when block i is signed, one step of the schedule after another. */
  ghost predicate InStep(hcl: HashContextList, s: Setup, h: Header, i: nat)
    reads hcl
  {
    && hcl.Valid() && hcl.ids == h.blockIds && hcl.blocknumber == i
    && hcl.keys == RegisterOfBlock(h.blockIds, StartKeys(s.defaults, h), h.mode, if i == 0 then 0 else i - 1)
  }

  lemma {:induction false} CounterInRange(i: nat)
    requires i < LONG_LIMIT
    ensures i <= Pow2(8 * SIP_KEY_BYTES)
  {
    Pow2Words();
    Pow2Monotone(63, 8 * SIP_KEY_BYTES);
  }

  method NextBlock(hcl: HashContextList, ghost s: Setup, ghost h: Header, mode: KeyMode, ghost i: nat)
    requires InStep(hcl, s, h, i) && i < LONG_LIMIT && mode == h.mode
    modifies hcl
    ensures InStep(hcl, s, h, i + 1)
    ensures hcl.keys == RegisterOfBlock(h.blockIds, StartKeys(s.defaults, h), h.mode, i)
  {
    CounterInRange(i);
    ScheduleAdvances(h.blockIds, StartKeys(s.defaults, h), h.mode, i, hcl.keys);
    hcl.IncrementBlockNum(mode);
  }

  // ---------- the writer ----------

  lemma {:induction false} StoredKey(defaults: KeyRegister, ids: seq<nat>, keys: seq<Bytes>, k: nat, j: nat)
    requires Distinct(ids) && j < k <= |ids| == |keys|
    ensures KeyFor(WithKeys(defaults, ids, keys, k), ids[j]) == keys[j]
  {
    if j < k - 1 {
      StoredKey(defaults, ids, keys, k - 1, j);
    }
  }

  /** Writing the key list of a register yields the keys that were stored into it. */
  lemma {:induction false} KeysComeBack(defaults: KeyRegister, ids: seq<nat>, keys: seq<Bytes>)
    requires Distinct(ids) && |keys| == |ids|
    ensures KeysOf(WithKeys(defaults, ids, keys, |ids|), ids) == keys
  {
    forall j | 0 <= j < |ids|
      ensures KeyFor(WithKeys(defaults, ids, keys, |ids|), ids[j]) == keys[j]
    {
      StoredKey(defaults, ids, keys, |ids|, j);
    }
  }

  lemma {:induction false} NextPart(parts: seq<Bytes>, i: nat)
    requires i < |parts|
    ensures Join(parts[..i + 1]) == Join(parts[..i]) + parts[i]
  {
    assert parts[..i + 1] == parts[..i] + [parts[i]];
    JoinAppend(parts[..i], parts[i]);
  }

  method Mdzipfile(s: Setup, q: Request, file: Bytes) returns (written: bool, mdzip: Bytes)
    requires ValidSetup(s) && ValidRequest(s, q) && |file| < LONG_LIMIT
    ensures written <==> file != []
    ensures written ==> mdzip == Encode(s.reg, Zipped(s, q, file))
  {
    var filesize := |file|;
    var blocksize := if filesize < q.blocksize then filesize else q.blocksize;
    if filesize == 0 {
      return false, [];
    }
    ghost var h := HeaderOf(s, q, file);
    HeaderFits(s, q, file);
    var blockIds := Listed(s, q.blockList);
    var keys;
    mdzip := WriteNumbersAndNames(s, q, file, blocksize);
    mdzip, keys := WriteKeys(s, q, file, Listed(s, q.fileList), blockIds, h, mdzip);
    var records := WriteBlocks(s, q, h, file, blocksize, blockIds, keys);
    mdzip := mdzip + records;
    written := true;
  }

  /** The records behind the header. */
  method WriteBlocks(s: Setup, q: Request, ghost h: Header, file: Bytes, blocksize: nat, blockIds: seq<nat>,
                     keys: KeyRegister)
    returns (records: Bytes)
    requires ValidSetup(s) && ValidRequest(s, q) && 0 < |file| < LONG_LIMIT
    requires h == HeaderOf(s, q, file) && blocksize == h.blocksize
    requires blockIds == h.blockIds && keys == StartKeys(s.defaults, h)
    ensures var jobs := Zipped(s, q, file).jobs; records == Records(h, jobs, |jobs|)
  {
    HeaderFits(s, q, file);
    SipKeysStayPresent(s, h);
    var hclblock := new HashContextList(blockIds, keys);
    RegisterOfFirstBlock(blockIds, keys, h.mode);
    SplitCount(file, blocksize);
    SplitIsLaidOut(file, blocksize);
    var blockcount := CalcFileBlocks(|file|, blocksize);
    var blockremainder := CalcFileBlocksRemainder(|file|, blocksize);
    records := WriteRecords(s, h, file, Split(file, blocksize), Zipped(s, q, file).jobs, blocksize, q.modsize,
                            q.mode, blockcount, blockremainder, hclblock);
  }

  method WriteNumbersAndNames(s: Setup, q: Request, file: Bytes, blocksize: nat) returns (mdzip: Bytes)
    requires ValidSetup(s) && ValidRequest(s, q) && 0 < |file| < LONG_LIMIT
    requires blocksize == HeaderOf(s, q, file).blocksize
    ensures mdzip == Join(HeaderParts(s.reg, HeaderOf(s, q, file))[..8])
  {
    ghost var parts := HeaderParts(s.reg, HeaderOf(s, q, file));
    mdzip := WriteNumbers(q, |file|, blocksize, parts);
    NextPart(parts, 4); NextPart(parts, 5); NextPart(parts, 6); NextPart(parts, 7);
    var filehashnames := JoinNames(s.reg, Listed(s, q.fileList));
    var blockhashnames := JoinNames(s.reg, Listed(s, q.blockList));
    mdzip := mdzip + Little(|filehashnames|, INT_BYTES);
    mdzip := mdzip + filehashnames;
    mdzip := mdzip + Little(|blockhashnames|, INT_BYTES);
    mdzip := mdzip + blockhashnames;
  }

  method WriteNumbers(q: Request, filesize: nat, blocksize: nat, ghost parts: seq<Bytes>) returns (mdzip: Bytes)
    requires |parts| >= 4 && parts[0] == Little(VersionBits(q.mode), DOUBLE_BYTES)
    requires parts[1] == Little(filesize, LONG_BYTES) && parts[2] == Little(blocksize, LONG_BYTES)
    requires parts[3] == Little(q.modsize, INT_BYTES)
    ensures mdzip == Join(parts[..4])
  {
    var mdversion := VersionBits(NoInc);
    if q.mode == Dec { mdversion := VersionBits(Dec); }
    if q.mode == Inc { mdversion := VersionBits(Inc); }
    NextPart(parts, 0); NextPart(parts, 1); NextPart(parts, 2); NextPart(parts, 3);
    mdzip := [];
    mdzip := mdzip + Little(mdversion, DOUBLE_BYTES);
    mdzip := mdzip + Little(filesize, LONG_BYTES);
    mdzip := mdzip + Little(blocksize, LONG_BYTES);
    mdzip := mdzip + Little(q.modsize, INT_BYTES);
  }

  method WriteKeys(s: Setup, q: Request, file: Bytes, fileIds: seq<nat>, blockIds: seq<nat>, ghost h: Header,
                   front: Bytes)
    returns (mdzip: Bytes, keys: KeyRegister)
    requires WellFormed(s.reg, h) && fileIds == h.fileIds && blockIds == h.blockIds
    requires h.fileSignatures == Signatures(s.digest, fileIds, s.defaults, file)
    requires h.keys == if q.random.Some? then KeysOf(q.random.value, blockIds) else []
    requires front == Join(HeaderParts(s.reg, h)[..8])
    ensures mdzip == Join(HeaderParts(s.reg, h))
    ensures keys == StartKeys(s.defaults, h)
  {
    ghost var parts := HeaderParts(s.reg, h);
    NextPart(parts, 8); NextPart(parts, 9); NextPart(parts, 10);
    assert parts[..11] == parts;
    var filesigs := WriteSignatures(s, fileIds, s.defaults, file);
    mdzip, keys := WriteBlockKeys(s, q, blockIds, h, front + filesigs);
  }

  /** The length that announces the key list, and the key list if keys are randomized. */
  method WriteBlockKeys(s: Setup, q: Request, blockIds: seq<nat>, ghost h: Header, front: Bytes)
    returns (out: Bytes, keys: KeyRegister)
    requires ValidList(s.reg, blockIds) && h.blockIds == blockIds
    requires h.keys == if q.random.Some? then KeysOf(q.random.value, blockIds) else []
    ensures out == front + Little(KeyListLength(s.reg, h), INT_BYTES) + Join(h.keys)
    ensures keys == StartKeys(s.defaults, h)
  {
    keys := s.defaults;
    if q.random.Some? {
      out := front + Little(|JoinNames(s.reg, blockIds)|, INT_BYTES);
      keys := RandomizeKeyList(blockIds, s.defaults, q.random.value);
      KeysComeBack(s.defaults, blockIds, h.keys);
      var keylist := WriteKeyList(blockIds, keys);
      out := out + keylist;
    } else {
      out := front + Little(0, INT_BYTES);
      assert out + Join(h.keys) == out;
    }
  }

  lemma NextRecordOf(s: Setup, h: Header, blocks: seq<Bytes>, k: nat)
    requires k < |blocks| && h.modsize > 0
    ensures Records(h, JobsOf(s, h, blocks), k + 1)
         == Records(h, JobsOf(s, h, blocks), k) + Join(RecordParts(h, JobOf(s, h, blocks[k], k)))
  {
  }

  /** The block loop. */
  method WriteRecords(s: Setup, ghost h: Header, file: Bytes, ghost blocks: seq<Bytes>, ghost jobs: seq<Job>,
                      blocksize: nat, modsize: nat, mode: KeyMode, blockcount: nat,
                      blockremainder: nat, hclblock: HashContextList)
    returns (mdzip: Bytes)
    requires LaidOut(file, blocksize, blocks) && 0 < modsize == h.modsize && jobs == JobsOf(s, h, blocks)
    requires blockcount == |blocks| < LONG_LIMIT && blockremainder == |blocks[blockcount - 1]|
    requires h.blocksize == blocksize && h.mode == mode && InStep(hclblock, s, h, 0)
    modifies hclblock
    ensures mdzip == Records(h, jobs, |jobs|)
  {
    var modulusint := new byte[CalcModulusBytes(modsize)];
    var blocknumber, pos := 1, 0;
    mdzip := [];
    while true
      invariant 1 <= blocknumber <= blockcount && pos == Offset(blocks, blocknumber - 1)
      invariant InStep(hclblock, s, h, blocknumber - 1)
      invariant mdzip == Records(h, jobs, blocknumber - 1)
      decreases blockcount - blocknumber
    {
      var currentblocksize := blocksize;
      if blocknumber == blockcount && blockremainder != blocksize {
        currentblocksize := blockremainder;
      }
      mdzip, pos := WriteBlock(s, h, file, blocks, jobs, blocksize, modsize, mode, blocknumber, pos, currentblocksize,
                               modulusint, hclblock, mdzip);
      if blocknumber == blockcount { break; }
      blocknumber := blocknumber + 1;
    }
  }

  /** Reads one block and appends its record. */
  method WriteBlock(s: Setup, ghost h: Header, file: Bytes, ghost blocks: seq<Bytes>, ghost jobs: seq<Job>,
                    blocksize: nat, modsize: nat, mode: KeyMode, ghost blocknumber: nat, pos: nat,
                    currentblocksize: nat, modulusint: array<byte>, hclblock: HashContextList, before: Bytes)
    returns (mdzip: Bytes, next: nat)
    requires LaidOut(file, blocksize, blocks) && 0 < modsize == h.modsize && jobs == JobsOf(s, h, blocks)
    requires 1 <= blocknumber <= |blocks| < LONG_LIMIT && pos == Offset(blocks, blocknumber - 1)
    requires currentblocksize == if blocknumber == |blocks| then |blocks[blocknumber - 1]| else blocksize
    requires h.blocksize == blocksize && h.mode == mode && InStep(hclblock, s, h, blocknumber - 1)
    requires modulusint.Length == CalcModulusBytes(modsize) && before == Records(h, jobs, blocknumber - 1)
    modifies modulusint, hclblock
    ensures InStep(hclblock, s, h, blocknumber) && next == Offset(blocks, blocknumber)
    ensures mdzip == Records(h, jobs, blocknumber)
  {
    var byteblock;
    byteblock, next := ReadBlock(file, blocksize, blocks, blocknumber - 1, pos, currentblocksize);
    var recordbytes := WriteRecord(s, h, byteblock, blocksize, modsize, mode, CalcModulusBytes(modsize), modulusint,
                                   hclblock, blocknumber - 1);
    NextRecordOf(s, h, blocks, blocknumber - 1);
    mdzip := before + recordbytes;
  }

  /** What the loop writes for one block. */
  method WriteRecord(s: Setup, ghost h: Header, byteblock: Bytes, blocksize: nat, modsize: nat, mode: KeyMode,
                     modsizeBytes: nat, modulusint: array<byte>, hclblock: HashContextList, ghost i: nat)
    returns (out: Bytes)
    requires 0 < modsize == h.modsize && blocksize == h.blocksize && mode == h.mode
    requires modsizeBytes == CalcModulusBytes(modsize) == modulusint.Length
    requires InStep(hclblock, s, h, i) && i < LONG_LIMIT
    modifies modulusint, hclblock
    ensures InStep(hclblock, s, h, i + 1)
    ensures out == Join(RecordParts(h, JobOf(s, h, byteblock, i)))
  {
    ghost var parts := RecordParts(h, JobOf(s, h, byteblock, i));
    NextPart(parts, 0); NextPart(parts, 1); NextPart(parts, 2);
    assert parts[..3] == parts;
    NextBlock(hclblock, s, h, mode, i);
    out := WriteSignatures(s, hclblock.ids, hclblock.keys, byteblock);
    var numbers := WriteExponentAndRemainder(byteblock, blocksize, modsize, modsizeBytes, modulusint);
    assert out + parts[1] + parts[2] == out + (parts[1] + parts[2]);
    out := out + numbers;
  }

  method WriteExponentAndRemainder(byteblock: Bytes, blocksize: nat, modsize: nat, modsizeBytes: nat,
                                   modulusint: array<byte>)
    returns (out: Bytes)
    requires 0 < modsize && modsizeBytes == CalcModulusBytes(modsize) == modulusint.Length
    modifies modulusint
    ensures ModulusInt(modsize) > 0
    ensures out == Little(Exponent(Value(byteblock)), ExponentBytes(blocksize))
                   + Fixed(Value(byteblock) % ModulusInt(modsize), modsizeBytes)
  {
    var byteblockInt := Value(byteblock);
    RemainderFits(modsize, byteblockInt);
    var remainder := byteblockInt % ModulusInt(modsize);
    var modexponent := CalcExponent(byteblockInt);
    if blocksize > 32 {
      out := Little(modexponent, INT_BYTES);
    } else {
      out := Little(modexponent, 1);
    }
    ExportLength(remainder, modsizeBytes);
    var outside := ExportPadded(modulusint, modsizeBytes, remainder);
    out := out + modulusint[..modsizeBytes];
  }

  // ---------- the reader ----------

  lemma {:induction false} PiecesAreSized(data: Bytes, sizes: seq<nat>, k: nat)
    requires k <= |sizes|
    ensures var p := TakeParts(data, sizes, k);
            p.Some? ==> |p.value.parts| == k && forall i :: 0 <= i < k ==> |p.value.parts[i]| == sizes[i]
  {
    if k != 0 {
      PiecesAreSized(data, sizes, k - 1);
    }
  }

  /** The reads up to the first record. */
  method ReadHeader(reg: Registry, data: Bytes) returns (r: Option<Parsed>)
    ensures r == ParseHeader(reg, data)
    ensures r.Some? ==> Keyed(reg, r.value.header) && r.value.header.filesize < LONG_LIMIT
  {
    var numbers :- ParseNumbers(data);
    var filehashnames :- TakeString(numbers.rest);
    var blockhashnames :- TakeString(filehashnames.rest);
    if numbers.blocksize <= 0 {
      return None;
    }
    var fileIds := SetVectorHLString(reg, filehashnames.bytes);
    var blockIds := SetVectorHLString(reg, blockhashnames.bytes);
    assert fileIds == ListedIn(reg, filehashnames.bytes) && blockIds == ListedIn(reg, blockhashnames.bytes);
    var keys :- ReadKeys(reg, fileIds, blockIds, blockhashnames.rest);
    var h := Header(numbers.mode, numbers.filesize, numbers.blocksize, numbers.modsize, fileIds, blockIds,
                    keys.fileSignatures, keys.keys);
    var nameBytes := |filehashnames.bytes| + |blockhashnames.bytes|;
    ParseInOrder(reg, h, nameBytes, data, numbers.rest, filehashnames, blockhashnames, keys.rest);
    r := Some(Parsed(h, nameBytes, keys.rest));
  }

  method ReadKeys(reg: Registry, fileIds: seq<nat>, blockIds: seq<nat>, data: Bytes) returns (r: Option<Keys>)
    requires AllValid(reg, fileIds) && AllValid(reg, blockIds)
    ensures r == ParseKeys(reg, fileIds, blockIds, data)
    ensures r.Some? ==> r.value.keys == [] || SizedAs(r.value.keys, WrittenKeySizes(reg, blockIds))
  {
    var fileSignatures :- ReadPieces(data, BlockSizes(reg, fileIds));
    var hclblockkeysize :- TakeInt(fileSignatures.rest);
    var keys := Pieces([], hclblockkeysize.rest);
    if hclblockkeysize.value > 0 {
      keys :- ReadPieces(hclblockkeysize.rest, WrittenKeySizes(reg, blockIds));
      PiecesAreSized(hclblockkeysize.rest, WrittenKeySizes(reg, blockIds), |blockIds|);
    }
    r := Some(Keys(fileSignatures.parts, keys.parts, keys.rest));
  }

  /** readKeyList puts the keys into the register. */
  method StoreKeys(defaults: KeyRegister, h: Header) returns (register: KeyRegister)
    ensures register == StartKeys(defaults, h)
  {
    register := defaults;
    if |h.keys| == |h.blockIds| {
      var i := 0;
      while i < |h.keys|
        invariant 0 <= i <= |h.keys| && register == WithKeys(defaults, h.blockIds, h.keys, i)
      {
        register := register[h.blockIds[i] := h.keys[i]];
        i := i + 1;
      }
    }
  }

  lemma {:induction false} BlockCountInRange(h: Header)
    requires h.filesize < LONG_LIMIT && h.blocksize > 0
    ensures BlockCount(h) < LONG_LIMIT
  {
    if h.filesize > 0 {
      FileBlocksCover(h.filesize, h.blocksize);
      MulMonotone(1, h.blocksize, BlockCount(h) - 1);
    }
  }

  /** Everything the search threads are given: the reader of mdunzipfile. */
  method ReadArchive(s: Setup, data: Bytes) returns (r: Option<Archive>)
    requires ValidSetup(s)
    ensures r == Parse(s.reg, s.defaults, data)
  {
    if |data| < MINIMUM {
      return None;
    }
    var p :- ReadHeader(s.reg, data);
    var jobs :- ReadJobs(s, p.header, p.rest);
    r := Some(Archive(p.header, jobs.jobs));
  }

  /** The loop over the records. */
  method ReadJobs(s: Setup, h: Header, data: Bytes) returns (r: Option<ParsedJobs>)
    requires ValidSetup(s) && Keyed(s.reg, h) && h.blocksize > 0 && h.filesize < LONG_LIMIT
    ensures var n := if BlockCount(h) < 0 then 0 else BlockCount(h);
            r == ParseJobs(s.reg, s.defaults, h, data, n)
  {
    var keys := StoreKeys(s.defaults, h);
    SipKeysStayPresent(s, h);
    var hclblock := new HashContextList(h.blockIds, keys);
    RegisterOfFirstBlock(h.blockIds, keys, h.mode);
    BlockCountInRange(h);
    r := ReadAllJobs(s, h, data, if BlockCount(h) < 0 then 0 else BlockCount(h), hclblock);
  }

  method ReadAllJobs(s: Setup, h: Header, data: Bytes, blockcount: nat, hclblock: HashContextList)
    returns (r: Option<ParsedJobs>)
    requires AllValid(s.reg, h.blockIds) && h.blocksize > 0 && blockcount < LONG_LIMIT
    requires blockcount > 0 ==> blockcount == BlockCount(h)
    requires InStep(hclblock, s, h, 0)
    modifies hclblock
    ensures r == ParseJobs(s.reg, s.defaults, h, data, blockcount)
  {
    var blk := 0;
    r := Some(ParsedJobs([], data));
    while blk < blockcount && r.Some?
      invariant 0 <= blk <= blockcount && r == ParseJobs(s.reg, s.defaults, h, data, blk)
      invariant r.Some? ==> InStep(hclblock, s, h, blk)
    {
      r := ReadNextJob(s, h, data, r.value, blk, blockcount, hclblock);
      blk := blk + 1;
    }
    if r.None? {
      NoJobsBehind(s.reg, s.defaults, h, data, blk, blockcount);
    }
  }

  /** One more job behind those in front. */
  method ReadNextJob(s: Setup, h: Header, ghost data: Bytes, front: ParsedJobs, blk: nat, blockcount: nat,
                     hclblock: HashContextList)
    returns (r: Option<ParsedJobs>)
    requires AllValid(s.reg, h.blockIds) && h.blocksize > 0 && blockcount == BlockCount(h) && blk < LONG_LIMIT
    requires InStep(hclblock, s, h, blk) && ParseJobs(s.reg, s.defaults, h, data, blk) == Some(front)
    modifies hclblock
    ensures r == ParseJobs(s.reg, s.defaults, h, data, blk + 1)
    ensures r.Some? ==> InStep(hclblock, s, h, blk + 1)
  {
    ParseNext(s.reg, s.defaults, h, data, blk, front);
    var job := ReadJob(s, h, front.rest, blk, blockcount, hclblock);
    r := if job.None? then None else Some(ParsedJobs(front.jobs + job.value.jobs, job.value.rest));
  }

  lemma {:induction false} NoJobsBehind(reg: Registry, defaults: KeyRegister, h: Header, data: Bytes, k: nat, n: nat)
    requires AllValid(reg, h.blockIds) && h.blocksize > 0 && k <= n
    requires ParseJobs(reg, defaults, h, data, k).None?
    ensures ParseJobs(reg, defaults, h, data, n).None?
  {
    if k < n {
      NoJobsBehind(reg, defaults, h, data, k, n - 1);
    }
  }

  /** One round of the loop up to the start of the threads. */
  method ReadJob(s: Setup, h: Header, data: Bytes, blk: nat, blockcount: nat, hclblock: HashContextList)
    returns (r: Option<ParsedJobs>)
    requires AllValid(s.reg, h.blockIds) && h.blocksize > 0 && blockcount == BlockCount(h)
    requires InStep(hclblock, s, h, blk) && blk < LONG_LIMIT
    modifies hclblock
    ensures r == ParseJob(s.reg, s.defaults, h, data, blk)
    ensures r.Some? ==> InStep(hclblock, s, h, blk + 1)
  {
    var signatures :- ReadPieces(data, BlockSizes(s.reg, h.blockIds));
    var modexponent :- Take(signatures.rest, if h.blocksize > 32 then INT_BYTES else 1);
    var remainder :- Take(modexponent.rest, CalcModulusBytes(h.modsize));
    var blocksize := h.blocksize;
    var blockremainder := CalcFileBlocksRemainder(h.filesize, h.blocksize);
    if blk == blockcount - 1 && blockremainder != blocksize {
      blocksize := blockremainder;
    }
    NextBlock(hclblock, s, h, h.mode, blk);
    r := Some(ParsedJobs([Job(blocksize, hclblock.keys, signatures.parts, LittleValue(modexponent.bytes),
                              Value(remainder.bytes))], remainder.rest));
  }

  // ---------- the validator ----------

  method ValidateMDzip(reg: Registry, fileExt: string, data: Bytes) returns (rc: int)
    ensures rc == 0 <==> Validates(reg, fileExt, data)
    ensures rc == 0 || rc == 1
  {
    if fileExt != "mdz" && fileExt != "out" {
      return 1;
    }
    if |data| < MINIMUM {
      return 1;
    }
    var p := ReadHeader(reg, data);
    if p.None? {
      return 1;
    }
    var sumfilesize := SumFileSize(reg, p.value.header, p.value.nameBytes);
    rc := if sumfilesize == |data| then 0 else 1;
  }

  method SumFileSize(reg: Registry, h: Header, nameBytes: nat) returns (sumfilesize: int)
    requires AllValid(reg, h.fileIds) && AllValid(reg, h.blockIds) && h.blocksize > 0
    ensures sumfilesize == ExpectedSize(reg, h, nameBytes)
  {
    var blockcount := CalcFileBlocks(h.filesize, h.blocksize);
    var modexponentsize := 1;
    if h.blocksize > 32 {
      modexponentsize := 4;
    }
    var filesigs := CalcSize(BlockSizes(reg, h.fileIds));
    var blocksigs := CalcSize(BlockSizes(reg, h.blockIds));
    var keysize := CalcSize(KeySizes(reg, h.blockIds));
    var hashblocksize := blocksigs + CalcModulusBytes(h.modsize) + modexponentsize;
    assert hashblocksize == RecordSize(reg, h);
    var totalblocksize := SimpleFormat.ToInt32(hashblocksize * blockcount);
    sumfilesize := 40;
    sumfilesize := sumfilesize + nameBytes;
    sumfilesize := sumfilesize + filesigs;
    sumfilesize := sumfilesize + keysize;
    sumfilesize := sumfilesize + totalblocksize;
  }
}
