/** What stands where in an archive of the .mdz format (mdzipfile in mdZip.cpp), and under which
    keys its blocks are signed (randomizeKeyList and setByteBlockHashList in
    mdCore/mdHashContextList.h). */
module MdzLayout {
  import opened Bytes
  import opened Common
  import opened IncrementKey
  import opened Layout
  import opened HashRegistry
  import opened MdzFormat
  import opened MdzRoundTrip
  import opened MdzSize
  import opened Sums

  // ---------- lists of parts of given sizes ----------

  /** A part of a list whose parts have given sizes. */
  lemma {:induction false} SizedPartStands(parts: seq<Bytes>, sizes: seq<nat>, k: nat)
    requires SizedAs(parts, sizes) && k < |parts|
    ensures Stands(Join(parts), Total(sizes, k), parts[k])
    ensures |Join(parts)| == Total(sizes, |sizes|)
  {
    PartStands(parts, k);
    OffsetIsTotal(parts, sizes, k);
    ListLength(parts, sizes);
  }

  // ---------- the header ----------

  /** The double of these bits is the one nearest to the given number of hundredths. */
  ghost predicate IsDouble(bits: nat, hundredths: nat) {
    var m := bits - 0x3ff0_0000_0000_0000;
    && 0 <= m < 0x10_0000_0000_0000
    && -50 <= 100 * (0x10_0000_0000_0000 + m) - hundredths * 0x10_0000_0000_0000 <= 50
  }

  /** What the eleven parts of a header are. */
  ghost predicate PartsAre(parts: seq<Bytes>, version: nat, filesize: nat, blocksize: nat, modsize: nat,
                           fileNames: Bytes, blockNames: Bytes, signatures: Bytes, keysize: nat, keys: Bytes) {
    && |parts| == 11
    && parts[0] == Little(version, 8) && parts[1] == Little(filesize, 8) && parts[2] == Little(blocksize, 8)
    && parts[3] == Little(modsize, 4) && parts[4] == Little(|fileNames|, 4) && parts[5] == fileNames
    && parts[6] == Little(|blockNames|, 4) && parts[7] == blockNames && parts[8] == signatures
    && parts[9] == Little(keysize, 4) && parts[10] == keys
  }

  lemma {:induction false} PartOffsets(parts: seq<Bytes>, version: nat, filesize: nat, blocksize: nat, modsize: nat,
                                       fileNames: Bytes, blockNames: Bytes, signatures: Bytes, keysize: nat,
                                       keys: Bytes)
    requires PartsAre(parts, version, filesize, blocksize, modsize, fileNames, blockNames, signatures, keysize, keys)
    ensures Offset(parts, 0) == 0 && Offset(parts, 1) == 8 && Offset(parts, 2) == 16 && Offset(parts, 3) == 24
    ensures Offset(parts, 4) == 28 && Offset(parts, 5) == 32 && Offset(parts, 6) == 32 + |fileNames|
    ensures Offset(parts, 7) == 36 + |fileNames| && Offset(parts, 8) == 36 + |fileNames| + |blockNames|
    ensures Offset(parts, 9) == 36 + |fileNames| + |blockNames| + |signatures|
    ensures Offset(parts, 10) == 40 + |fileNames| + |blockNames| + |signatures|
  {
    NextOffset(parts, 0); NextOffset(parts, 1); NextOffset(parts, 2); NextOffset(parts, 3);
    NextOffset(parts, 4); NextOffset(parts, 5); NextOffset(parts, 6); NextOffset(parts, 7);
    NextOffset(parts, 8); NextOffset(parts, 9);
  }

  /** Part k of the header stands in the archive where it stands in the header. */
  lemma {:induction false} HeaderPartStands(s: Setup, q: Request, file: Bytes, k: nat)
    requires ValidSetup(s) && ValidRequest(s, q) && 0 < |file| < LONG_LIMIT
    requires k < 11
    ensures var a := Zipped(s, q, file);
            var parts := HeaderParts(s.reg, a.header);
            Stands(Encode(s.reg, a), Offset(parts, k), parts[k])
  {
    var a := Zipped(s, q, file);
    var parts := HeaderParts(s.reg, a.header);
    PartStands(parts, k);
    StandsBefore(Join(parts), Offset(parts, k), parts[k], Records(a.header, a.jobs, |a.jobs|));
  }

  lemma {:induction false} HeaderPartsAre(reg: Registry, h: Header)
    requires AllValid(reg, h.fileIds) && AllValid(reg, h.blockIds) && h.filesize >= 0 && h.blocksize >= 0
    ensures PartsAre(HeaderParts(reg, h), VersionBits(h.mode), h.filesize, h.blocksize, h.modsize,
                     JoinNames(reg, h.fileIds), JoinNames(reg, h.blockIds), Join(h.fileSignatures),
                     KeyListLength(reg, h), Join(h.keys))
  {
  }

  /** The numbers and names at the start of an archive. */
  ghost predicate StartsWith(data: Bytes, mode: KeyMode, filesize: nat, blocksize: nat, modsize: nat,
                             fileNames: Bytes, blockNames: Bytes) {
    && |data| >= 40
    && IsDouble(LittleAt(data, 0, 8), match mode case NoInc => 101 case Dec => 111 case Inc => 112)
    && NumberStands(data, 8, 8, filesize) && NumberStands(data, 16, 8, blocksize)
    && NumberStands(data, 24, 4, modsize)
    && NumberStands(data, 28, 4, |fileNames|) && Stands(data, 32, fileNames)
    && NumberStands(data, 32 + |fileNames|, 4, |blockNames|) && Stands(data, 36 + |fileNames|, blockNames)
  }

  lemma {:induction false} StartOfParts(data: Bytes, parts: seq<Bytes>, mode: KeyMode, filesize: nat, blocksize: nat,
                                        modsize: nat, fileNames: Bytes, blockNames: Bytes, signatures: Bytes,
                                        keysize: nat, keys: Bytes)
    requires PartsAre(parts, VersionBits(mode), filesize, blocksize, modsize, fileNames, blockNames, signatures,
                      keysize, keys)
    requires filesize < LONG_LIMIT && blocksize < LONG_LIMIT && modsize < INT_LIMIT
    requires |fileNames| < INT_LIMIT && |blockNames| < INT_LIMIT && |data| >= 40
    requires forall k :: 0 <= k < 8 ==> Stands(data, Offset(parts, k), parts[k])
    ensures StartsWith(data, mode, filesize, blocksize, modsize, fileNames, blockNames)
  {
    PartOffsets(parts, VersionBits(mode), filesize, blocksize, modsize, fileNames, blockNames, signatures, keysize,
                keys);
    NumbersStand(data, parts, mode, filesize, blocksize, modsize);
    Pow2Words();
    LittleStands(data, 28, 4, |fileNames|);
    LittleStands(data, 32 + |fileNames|, 4, |blockNames|);
  }

  /** An archive starts with the version (1.01, for stepped keys 1.11 or 1.12), the sizes of the
      file, the blocks and the modulus, and both strings of names behind their lengths. */
  lemma {:induction false} HeaderLayout(s: Setup, q: Request, file: Bytes)
    requires ValidSetup(s) && ValidRequest(s, q) && 0 < |file| < LONG_LIMIT
    ensures StartsWith(Encode(s.reg, Zipped(s, q, file)), q.mode, |file|,
                       if |file| < q.blocksize then |file| else q.blocksize, q.modsize,
                       JoinNames(s.reg, Listed(s, q.fileList)), JoinNames(s.reg, Listed(s, q.blockList)))
  {
    var h := HeaderOf(s, q, file);
    var data, parts := Encode(s.reg, Zipped(s, q, file)), HeaderParts(s.reg, h);
    HeaderPartsAre(s.reg, h);
    forall k | 0 <= k < 8
      ensures Stands(data, Offset(parts, k), parts[k])
    {
      HeaderPartStands(s, q, file, k);
    }
    SizeIsAtLeast40(s, q, file);
    StartOfParts(data, parts, q.mode, |file|, h.blocksize, q.modsize, JoinNames(s.reg, h.fileIds),
                 JoinNames(s.reg, h.blockIds), Join(h.fileSignatures), KeyListLength(s.reg, h), Join(h.keys));
  }

  lemma {:induction false} SizeIsAtLeast40(s: Setup, q: Request, file: Bytes)
    requires ValidSetup(s) && ValidRequest(s, q) && 0 < |file| < LONG_LIMIT
    ensures |Encode(s.reg, Zipped(s, q, file))| >= 40
  {
    HeaderFits(s, q, file);
    HeaderSize(s.reg, HeaderOf(s, q, file));
  }

  lemma {:induction false} NumbersStand(data: Bytes, parts: seq<Bytes>, mode: KeyMode, filesize: nat, blocksize: nat,
                                        modsize: nat)
    requires |parts| >= 4 && filesize < LONG_LIMIT && blocksize < LONG_LIMIT && modsize < INT_LIMIT
    requires parts[0] == Little(VersionBits(mode), 8) && parts[1] == Little(filesize, 8)
    requires parts[2] == Little(blocksize, 8) && parts[3] == Little(modsize, 4)
    requires Stands(data, 0, parts[0]) && Stands(data, 8, parts[1]) && Stands(data, 16, parts[2])
    requires Stands(data, 24, parts[3])
    ensures |data| >= 28
    ensures IsDouble(LittleAt(data, 0, 8), match mode case NoInc => 101 case Dec => 111 case Inc => 112)
    ensures NumberStands(data, 8, 8, filesize) && NumberStands(data, 16, 8, blocksize)
    ensures NumberStands(data, 24, 4, modsize)
  {
    Pow2Words();
    LittleStands(data, 0, 8, VersionBits(mode));
    LittleStands(data, 8, 8, filesize);
    LittleStands(data, 16, 8, blocksize);
    LittleStands(data, 24, 4, modsize);
  }

  // ---------- file signatures and keys ----------

  /** Bytes of the signatures of a list, and of the signatures before the j-th. */
  function SignatureBytes(reg: Registry, ids: seq<nat>, j: nat): nat
    requires AllValid(reg, ids) && j <= |ids|
  {
    Total(BlockSizes(reg, ids), j)
  }

  lemma {:induction false} ListedAreKeyed(s: Setup, list: seq<int>, j: nat)
    requires ValidSetup(s)
    ensures AllValid(s.reg, Listed(s, list))
    ensures j < |Listed(s, list)| ==> Listed(s, list)[j] in s.defaults
  {
    var ids := Listed(s, list);
    VectorIsValid(s.reg, list);
    if j < |ids| {
      assert ValidId(s.reg, ids[j]);
      assert |s.defaults[ids[j]]| == RowOf(s.reg, ids[j]).written;
    }
  }

  /** Behind the names stand the digests of the whole file, each under its registered key. */
  lemma {:induction false} FileSignatureLayout(s: Setup, q: Request, file: Bytes, j: nat, pos: nat)
    requires ValidSetup(s) && ValidRequest(s, q) && 0 < |file| < LONG_LIMIT && j < |Listed(s, q.fileList)|
    requires var ids, blockIds := Listed(s, q.fileList), Listed(s, q.blockList);
             pos == 36 + |JoinNames(s.reg, ids)| + |JoinNames(s.reg, blockIds)| + SignatureBytes(s.reg, ids, j)
    ensures var id := Listed(s, q.fileList)[j];
            id in s.defaults && Stands(Encode(s.reg, Zipped(s, q, file)), pos, s.digest(id, s.defaults[id], file))
  {
    var h, id := HeaderOf(s, q, file), Listed(s, q.fileList)[j];
    ListedAreKeyed(s, q.fileList, j);
    HeaderPartStands(s, q, file, 8);
    SignaturesAreSized(s, h.fileIds, s.defaults, file);
    SignatureIsDigest(s.digest, h.fileIds, s.defaults, file, j);
    FileSignatureStands(s.reg, h, Encode(s.reg, Zipped(s, q, file)), j, pos, s.digest(id, s.defaults[id], file));
  }

  lemma {:induction false} FileSignatureStands(reg: Registry, h: Header, data: Bytes, j: nat, pos: nat,
                                               signature: Bytes)
    requires AllValid(reg, h.fileIds) && AllValid(reg, h.blockIds) && h.filesize >= 0 && h.blocksize >= 0
    requires Stands(data, Offset(HeaderParts(reg, h), 8), HeaderParts(reg, h)[8])
    requires SizedAs(h.fileSignatures, BlockSizes(reg, h.fileIds)) && j < |h.fileIds|
    requires pos == 36 + |JoinNames(reg, h.fileIds)| + |JoinNames(reg, h.blockIds)| + SignatureBytes(reg, h.fileIds, j)
    requires signature == h.fileSignatures[j]
    ensures Stands(data, pos, signature)
  {
    HeaderPartsAre(reg, h);
    PartOffsetsOf(reg, h);
    var parts := HeaderParts(reg, h);
    SizedPartStands(h.fileSignatures, BlockSizes(reg, h.fileIds), j);
    StandsInside(data, Offset(parts, 8), parts[8], SignatureBytes(reg, h.fileIds, j), signature);
  }

  lemma {:induction false} PartOffsetsOf(reg: Registry, h: Header)
    requires AllValid(reg, h.fileIds) && AllValid(reg, h.blockIds) && h.filesize >= 0 && h.blocksize >= 0
    ensures var parts, n := HeaderParts(reg, h), |JoinNames(reg, h.fileIds)| + |JoinNames(reg, h.blockIds)|;
            && Offset(parts, 8) == 36 + n && Offset(parts, 9) == 36 + n + |Join(h.fileSignatures)|
            && Offset(parts, 10) == 40 + n + |Join(h.fileSignatures)|
  {
    HeaderPartsAre(reg, h);
    PartOffsets(HeaderParts(reg, h), VersionBits(h.mode), h.filesize, h.blocksize, h.modsize,
                JoinNames(reg, h.fileIds), JoinNames(reg, h.blockIds), Join(h.fileSignatures),
                KeyListLength(reg, h), Join(h.keys));
  }

  /** Bytes of the drawn keys before the j-th; none without randomized keys. */
  function KeyListBytes(s: Setup, q: Request, j: nat): nat
    requires j <= |Listed(s, q.blockList)|
  {
    if q.random.Some? then Total(WrittenKeySizes(s.reg, Listed(s, q.blockList)), j) else 0
  }

  lemma {:induction false} HeaderJoins(s: Setup, q: Request, file: Bytes)
    requires ValidSetup(s) && ValidRequest(s, q) && 0 < |file| < LONG_LIMIT
    ensures var h := HeaderOf(s, q, file);
            && |Join(h.fileSignatures)| == SignatureBytes(s.reg, h.fileIds, |h.fileIds|)
            && |Join(h.keys)| == KeyListBytes(s, q, |h.blockIds|)
  {
    var h := HeaderOf(s, q, file);
    HeaderFits(s, q, file);
    ListLength(h.fileSignatures, BlockSizes(s.reg, h.fileIds));
    if q.random.Some? {
      KeysAreSized(s.reg, h.blockIds, q.random.value);
      ListLength(h.keys, WrittenKeySizes(s.reg, h.blockIds));
    }
  }

  lemma {:induction false} AnnouncedLength(s: Setup, q: Request, file: Bytes)
    requires ValidSetup(s) && ValidRequest(s, q) && 0 < |file| < LONG_LIMIT
    ensures var h := HeaderOf(s, q, file);
            && KeyListLength(s.reg, h) == (if q.random.Some? then |JoinNames(s.reg, h.blockIds)| else 0)
            && KeyListLength(s.reg, h) < INT_LIMIT
  {
    if q.random.Some? && HeaderOf(s, q, file).blockIds == [] {
      assert JoinNames(s.reg, []) == [];
    }
  }

  /** Behind the file signatures stands the length of the block signature names if keys are
      randomized, else zero. */
  lemma {:induction false} KeyLengthLayout(s: Setup, q: Request, file: Bytes, pos: nat)
    requires ValidSetup(s) && ValidRequest(s, q) && 0 < |file| < LONG_LIMIT
    requires var ids, blockIds := Listed(s, q.fileList), Listed(s, q.blockList);
             pos == 36 + |JoinNames(s.reg, ids)| + |JoinNames(s.reg, blockIds)| + SignatureBytes(s.reg, ids, |ids|)
    ensures var n := if q.random.Some? then |JoinNames(s.reg, Listed(s, q.blockList))| else 0;
            NumberStands(Encode(s.reg, Zipped(s, q, file)), pos, 4, n)
  {
    var h := HeaderOf(s, q, file);
    HeaderJoins(s, q, file);
    HeaderPartStands(s, q, file, 9);
    AnnouncedLength(s, q, file);
    var n := if q.random.Some? then |JoinNames(s.reg, h.blockIds)| else 0;
    KeyLengthStands(s.reg, h, Encode(s.reg, Zipped(s, q, file)), pos, n);
  }

  lemma {:induction false} KeyLengthStands(reg: Registry, h: Header, data: Bytes, pos: nat, n: nat)
    requires AllValid(reg, h.fileIds) && AllValid(reg, h.blockIds) && h.filesize >= 0 && h.blocksize >= 0
    requires Stands(data, Offset(HeaderParts(reg, h), 9), HeaderParts(reg, h)[9])
    requires n == KeyListLength(reg, h) < INT_LIMIT
    requires pos == 36 + |JoinNames(reg, h.fileIds)| + |JoinNames(reg, h.blockIds)| + |Join(h.fileSignatures)|
    ensures NumberStands(data, pos, 4, n)
  {
    HeaderPartsAre(reg, h);
    PartOffsetsOf(reg, h);
    Pow2Words();
    LittleStands(data, pos, 4, n);
  }

  /** Then follow the drawn keys of the block signatures. */
  lemma {:induction false} KeyLayout(s: Setup, q: Request, file: Bytes, j: nat, pos: nat)
    requires ValidSetup(s) && ValidRequest(s, q) && 0 < |file| < LONG_LIMIT
    requires q.random.Some? && j < |Listed(s, q.blockList)|
    requires var ids, blockIds := Listed(s, q.fileList), Listed(s, q.blockList);
             pos == 40 + |JoinNames(s.reg, ids)| + |JoinNames(s.reg, blockIds)| + SignatureBytes(s.reg, ids, |ids|)
                    + KeyListBytes(s, q, j)
    ensures var id := Listed(s, q.blockList)[j];
            id in q.random.value && Stands(Encode(s.reg, Zipped(s, q, file)), pos, q.random.value[id])
  {
    var h := HeaderOf(s, q, file);
    HeaderJoins(s, q, file);
    HeaderPartStands(s, q, file, 10);
    KeysAreSized(s.reg, h.blockIds, q.random.value);
    DrawnKey(s.reg, h.blockIds, q.random.value, j);
    KeyStands(s.reg, h, Encode(s.reg, Zipped(s, q, file)), pos, j);
  }

  lemma {:induction false} KeyStands(reg: Registry, h: Header, data: Bytes, pos: nat, j: nat)
    requires AllValid(reg, h.fileIds) && AllValid(reg, h.blockIds) && h.filesize >= 0 && h.blocksize >= 0
    requires Stands(data, Offset(HeaderParts(reg, h), 10), HeaderParts(reg, h)[10])
    requires SizedAs(h.keys, WrittenKeySizes(reg, h.blockIds)) && j < |h.keys|
    requires pos == 40 + |JoinNames(reg, h.fileIds)| + |JoinNames(reg, h.blockIds)| + |Join(h.fileSignatures)|
                    + Total(WrittenKeySizes(reg, h.blockIds), j)
    ensures Stands(data, pos, h.keys[j])
  {
    HeaderPartsAre(reg, h);
    PartOffsetsOf(reg, h);
    var parts, sizes := HeaderParts(reg, h), WrittenKeySizes(reg, h.blockIds);
    SizedPartStands(h.keys, sizes, j);
    StandsInside(data, Offset(parts, 10), parts[10], Total(sizes, j), h.keys[j]);
  }

  lemma {:induction false} DrawnKey(reg: Registry, ids: seq<nat>, random: KeyRegister, j: nat)
    requires FullRegister(reg, random) && AllValid(reg, ids) && j < |ids|
    ensures ids[j] in random && KeysOf(random, ids)[j] == random[ids[j]]
  {
    assert ValidId(reg, ids[j]);
    assert |random[ids[j]]| == RowOf(reg, ids[j]).written;
  }

  // ---------- the keys of the blocks ----------

  lemma {:induction false} StoredOrOld(defaults: KeyRegister, ids: seq<nat>, keys: seq<Bytes>, k: nat, id: nat)
    requires Distinct(ids) && k <= |ids| == |keys|
    ensures id !in ids[..k] ==>
              (id in WithKeys(defaults, ids, keys, k) <==> id in defaults)
              && (id in defaults ==> WithKeys(defaults, ids, keys, k)[id] == defaults[id])
    ensures forall j :: 0 <= j < k && ids[j] == id ==>
              id in WithKeys(defaults, ids, keys, k) && WithKeys(defaults, ids, keys, k)[id] == keys[j]
  {
    if k != 0 {
      StoredOrOld(defaults, ids, keys, k - 1, id);
      assert ids[..k] == ids[..k - 1] + [ids[k - 1]];
    }
  }

  /** If keys are randomized, signing starts with the drawn keys of the listed signatures; all
      other keys are the registered ones. */
  lemma {:induction false} StartKeyIs(s: Setup, q: Request, file: Bytes, id: nat)
    requires ValidSetup(s) && ValidRequest(s, q) && 0 < |file| < LONG_LIMIT && ValidId(s.reg, id)
    ensures var keys, ids := StartKeys(s.defaults, HeaderOf(s, q, file)), Listed(s, q.blockList);
            && id in s.defaults && id in keys
            && (q.random.Some? && id in ids ==> id in q.random.value && keys[id] == q.random.value[id])
            && (q.random.None? || id !in ids ==> keys[id] == s.defaults[id])
  {
    var h := HeaderOf(s, q, file);
    var ids := h.blockIds;
    assert |s.defaults[id]| == RowOf(s.reg, id).written;
    if q.random.Some? {
      StoredOrOld(s.defaults, ids, h.keys, |ids|, id);
      assert ids[..|ids|] == ids;
      if id in ids {
        var j :| 0 <= j < |ids| && ids[j] == id;
        DrawnKey(s.reg, ids, q.random.value, j);
      }
    }
  }

  /** The keys in force for block i. */
  function RegisterFor(s: Setup, q: Request, file: Bytes, i: nat): KeyRegister {
    var h := HeaderOf(s, q, file);
    RegisterOfBlock(h.blockIds, StartKeys(s.defaults, h), q.mode, i)
  }

  /** Block i is signed, for every listed signature, under the drawn key if keys are randomized
      and else under the registered one; under signature 30 or 31 with stepped keys that key is
      moved by i(i+1)/2 exactly as long as it stays in range. */
  lemma {:induction false} BlockKeyIs(s: Setup, q: Request, file: Bytes, i: nat, j: nat, start: Bytes)
    requires ValidSetup(s) && ValidRequest(s, q) && 0 < |file| < LONG_LIMIT && j < |Listed(s, q.blockList)|
    requires var id := Listed(s, q.blockList)[j];
             if q.random.Some? then id in q.random.value && start == q.random.value[id]
             else id in s.defaults && start == s.defaults[id]
    ensures var id, register := Listed(s, q.blockList)[j], RegisterFor(s, q, file, i);
            && id in register
            && (id == 30 || id == 31 ==>
                  && |start| == |register[id]| == 16 && (q.mode == NoInc ==> register[id] == start)
                  && MovedInRange(Value(start), Value(register[id]), q.mode, i * (i + 1) / 2))
            && (id != 30 && id != 31 ==> register[id] == start)
  {
    var h := HeaderOf(s, q, file);
    var keys, id := StartKeys(s.defaults, h), h.blockIds[j];
    VectorIsValid(s.reg, q.blockList);
    StartKeyIs(s, q, file, id);
    HeaderFits(s, q, file);
    if id == 30 || id == 31 {
      SipKeysStayPresent(s, h);
      BlockKeyInNumbers(h.blockIds, keys, q.mode, i, id);
      if q.mode == NoInc {
        OtherKeysStay(h.blockIds, keys, q.mode, i, id);
      }
    } else {
      OtherKeysStay(h.blockIds, keys, q.mode, i, id);
    }
  }

  // ---------- what a record holds ----------

  /** Bytes of a block: the whole file if it is shorter. */
  function BlockLength(q: Request, file: Bytes): nat {
    if |file| < q.blocksize then |file| else q.blocksize
  }

  /** Block i is what stands from its offset up to the next block or the end of the file. */
  ghost predicate IsBlock(q: Request, file: Bytes, i: nat, block: Bytes) {
    var start, next := i * BlockLength(q, file), (i + 1) * BlockLength(q, file);
    start < |file| && block == if start <= next < |file| then file[start..next] else file[start..]
  }

  lemma {:induction false} ListedAreInForce(s: Setup, q: Request, file: Bytes, i: nat, j: nat)
    requires ValidSetup(s) && ValidRequest(s, q) && 0 < |file| < LONG_LIMIT && j < |Listed(s, q.blockList)|
    ensures Listed(s, q.blockList)[j] in RegisterFor(s, q, file, i)
  {
    VectorIsValid(s.reg, q.blockList);
    StartKeyIs(s, q, file, Listed(s, q.blockList)[j]);
  }

  lemma {:induction false} BlockIsSplit(q: Request, file: Bytes, i: nat, block: Bytes)
    requires q.blocksize > 0 && IsBlock(q, file, i, block)
    ensures BlockLength(q, file) > 0 && i < |Split(file, BlockLength(q, file))|
    ensures Split(file, BlockLength(q, file))[i] == block
  {
    SplitSlice(file, BlockLength(q, file), i);
  }

  lemma {:induction false} WrittenRecord(s: Setup, q: Request, file: Bytes, i: nat, block: Bytes)
    requires ValidSetup(s) && ValidRequest(s, q) && 0 < |file| < LONG_LIMIT && IsBlock(q, file, i, block)
    ensures var a := Zipped(s, q, file);
            && i < |a.jobs|
            && var job := a.jobs[i];
               && job.blocksize == |block| && job.register == RegisterFor(s, q, file, i)
               && SignedBy(s.digest, Listed(s, q.blockList), job.register, block, job.signatures)
               && job.exponent == Exponent(Value(block)) && Pow2(q.modsize) > 1
               && job.remainder == Value(block) % (Pow2(q.modsize) - 1)
  {
    var ids, register := Listed(s, q.blockList), RegisterFor(s, q, file, i);
    BlockIsSplit(q, file, i, block);
    RemainderFits(q.modsize, 0);
    forall j | 0 <= j < |ids|
      ensures ids[j] in register
    {
      ListedAreInForce(s, q, file, i, j);
    }
    SignaturesAreSigned(s.digest, ids, register, block);
  }

  // ---------- what the reader gets ----------

  lemma {:induction false} StoredExponent(e: nat, blocksize: int)
    ensures LittleValue(Little(e, ExponentBytes(blocksize))) == if blocksize > 32 then e % 0x1_0000_0000 else e % 256
  {
    LittleValueOfShort(e, ExponentBytes(blocksize));
    Pow2Words();
    Pow2Small();
  }

  /** The i-th job a reader makes of an archive holds the digests of the i-th block under the keys
      in force, its remainder and the low digits of its exponent. */
  lemma {:induction false} RecordIsRead(s: Setup, q: Request, file: Bytes, i: nat, block: Bytes)
    requires ValidSetup(s) && ValidRequest(s, q) && 0 < |file| < LONG_LIMIT && IsBlock(q, file, i, block)
    requires |Encode(s.reg, Zipped(s, q, file))| >= 48
    ensures var r := Parse(s.reg, s.defaults, Encode(s.reg, Zipped(s, q, file)));
            && r.Some? && i < |r.value.jobs|
            && var job := r.value.jobs[i];
               && job.blocksize == |block| && job.register == RegisterFor(s, q, file, i)
               && SignedBy(s.digest, Listed(s, q.blockList), job.register, block, job.signatures)
               && job.exponent == Exponent(Value(block)) % (if BlockLength(q, file) > 32 then 0x1_0000_0000 else 256)
               && Pow2(q.modsize) > 1 && job.remainder == Value(block) % (Pow2(q.modsize) - 1)
  {
    WrittenRecord(s, q, file, i, block);
    ContainerRoundTrip(s, q, file);
    StoredExponent(Exponent(Value(block)), HeaderOf(s, q, file).blocksize);
  }

  ghost predicate AreKeysOf(random: KeyRegister, ids: seq<nat>, keys: seq<Bytes>) {
    |keys| == |ids| && forall j :: 0 <= j < |ids| ==> ids[j] in random && keys[j] == random[ids[j]]
  }

  lemma {:induction false} DrawnKeys(reg: Registry, ids: seq<nat>, random: KeyRegister)
    requires FullRegister(reg, random) && AllValid(reg, ids)
    ensures AreKeysOf(random, ids, KeysOf(random, ids))
  {
    forall j | 0 <= j < |ids|
      ensures ids[j] in random && KeysOf(random, ids)[j] == random[ids[j]]
    {
      DrawnKey(reg, ids, random, j);
    }
  }

  lemma {:induction false} WrittenHeader(s: Setup, q: Request, file: Bytes)
    requires ValidSetup(s) && ValidRequest(s, q) && 0 < |file| < LONG_LIMIT
    ensures var h := HeaderOf(s, q, file);
            && h.mode == q.mode && h.filesize == |file| && h.blocksize == BlockLength(q, file)
            && h.modsize == q.modsize && h.fileIds == VectorOf(s.reg, q.fileList)
            && h.blockIds == VectorOf(s.reg, q.blockList)
            && SignedBy(s.digest, h.fileIds, s.defaults, file, h.fileSignatures)
            && (q.random.Some? ==> AreKeysOf(q.random.value, h.blockIds, h.keys))
            && (q.random.None? ==> h.keys == [])
  {
    var ids := Listed(s, q.fileList);
    forall j | 0 <= j < |ids|
      ensures ids[j] in s.defaults
    {
      ListedAreKeyed(s, q.fileList, j);
    }
    SignaturesAreSigned(s.digest, ids, s.defaults, file);
    if q.random.Some? {
      DrawnKeys(s.reg, Listed(s, q.blockList), q.random.value);
    }
  }

  /** The header a reader makes of an archive: the lists asked for, the digests of the file under
      the registered keys, and the drawn keys if keys were randomized. */
  lemma {:induction false} HeaderIsRead(s: Setup, q: Request, file: Bytes)
    requires ValidSetup(s) && ValidRequest(s, q) && 0 < |file| < LONG_LIMIT
    requires |Encode(s.reg, Zipped(s, q, file))| >= 48
    ensures var r := Parse(s.reg, s.defaults, Encode(s.reg, Zipped(s, q, file)));
            && r.Some?
            && var h := r.value.header;
               && h.mode == q.mode && h.filesize == |file| && h.blocksize == BlockLength(q, file)
               && h.modsize == q.modsize && h.fileIds == VectorOf(s.reg, q.fileList)
               && h.blockIds == VectorOf(s.reg, q.blockList)
               && SignedBy(s.digest, h.fileIds, s.defaults, file, h.fileSignatures)
               && (q.random.Some? ==> AreKeysOf(q.random.value, h.blockIds, h.keys))
               && (q.random.None? ==> h.keys == [])
  {
    ContainerRoundTrip(s, q, file);
    WrittenHeader(s, q, file);
  }

  /** There is one job per block, counted by rounding up. */
  lemma {:induction false} JobsAreCounted(s: Setup, q: Request, file: Bytes, length: nat)
    requires ValidSetup(s) && ValidRequest(s, q) && 0 < |file| < LONG_LIMIT && length == BlockLength(q, file)
    requires |Encode(s.reg, Zipped(s, q, file))| >= 48
    ensures var r := Parse(s.reg, s.defaults, Encode(s.reg, Zipped(s, q, file)));
            r.Some? && length > 0 && |r.value.jobs| == (|file| + length - 1) / length
  {
    ContainerRoundTrip(s, q, file);
    SplitRoundsUp(file, length);
  }

  lemma {:induction false} SplitRoundsUp(file: Bytes, blocksize: nat)
    requires file != [] && blocksize > 0
    ensures |Split(file, blocksize)| == (|file| + blocksize - 1) / blocksize
  {
    SplitCount(file, blocksize);
    BlocksRoundUp(|file|, blocksize);
  }

  // ---------- where the records stand ----------

  lemma {:induction false} RecordStands(reg: Registry, defaults: KeyRegister, h: Header, jobs: seq<Job>, i: nat, n: nat)
    requires AllValid(reg, h.blockIds) && h.blocksize > 0 && AllFit(reg, defaults, h, jobs) && i < n <= |jobs|
    ensures i * RecordSize(reg, h) >= 0
    ensures Stands(Records(h, jobs, n), i * RecordSize(reg, h), Join(RecordParts(h, jobs[i])))
  {
    RecordsSize(reg, defaults, h, jobs, i);
    if i < n - 1 {
      RecordStands(reg, defaults, h, jobs, i, n - 1);
      StandsBefore(Records(h, jobs, n - 1), i * RecordSize(reg, h), Join(RecordParts(h, jobs[i])),
                   Join(RecordParts(h, jobs[n - 1])));
    } else {
      var record := Join(RecordParts(h, jobs[i]));
      assert record[0..|record|] == record;
      StandsBehind(Records(h, jobs, i), record, 0, record);
    }
  }

  lemma ModulusBytes(modsize: nat)
    requires modsize > 0
    ensures CalcModulusBytes(modsize) == (modsize + 7) / 8
  {
    RemainderFits(modsize, 0);
  }

  /** Bytes before the first record: 40, the names, the file signatures and the drawn keys. */
  function BytesBefore(s: Setup, q: Request): nat
  {
    var ids, blockIds := Listed(s, q.fileList), Listed(s, q.blockList);
    40 + |JoinNames(s.reg, ids)| + |JoinNames(s.reg, blockIds)| + SignatureBytes(s.reg, ids, |ids|)
    + KeyListBytes(s, q, |blockIds|)
  }

  /** Bytes of a record: its signatures, one or four for the exponent, and the remainder. */
  function BytesEach(s: Setup, q: Request, file: Bytes): nat
  {
    var blockIds := Listed(s, q.blockList);
    SignatureBytes(s.reg, blockIds, |blockIds|) + (if BlockLength(q, file) > 32 then 4 else 1) + (q.modsize + 7) / 8
  }

  function RecordStart(s: Setup, q: Request, file: Bytes, i: nat): int
  {
    BytesBefore(s, q) + i * BytesEach(s, q, file)
  }

  lemma {:induction false} RecordInArchive(s: Setup, q: Request, file: Bytes, i: nat, block: Bytes)
    requires ValidSetup(s) && ValidRequest(s, q) && 0 < |file| < LONG_LIMIT && IsBlock(q, file, i, block)
    ensures var a := Zipped(s, q, file);
            && i < |a.jobs| && RecordStart(s, q, file, i) >= 0
            && Stands(Encode(s.reg, a), RecordStart(s, q, file, i), Join(RecordParts(a.header, a.jobs[i])))
  {
    var a := Zipped(s, q, file);
    var h := a.header;
    BlockIsSplit(q, file, i, block);
    HeaderFits(s, q, file);
    forall k | 0 <= k < |a.jobs|
      ensures JobFits(s.reg, s.defaults, h, a.jobs[k], k)
    {
      JobsFit(s, q, file, k);
    }
    StartOfRecord(s, q, file, i);
    BehindHeader(s.reg, s.defaults, h, a.jobs, i, Join(HeaderParts(s.reg, h)), RecordStart(s, q, file, i));
  }

  lemma {:induction false} BehindHeader(reg: Registry, defaults: KeyRegister, h: Header, jobs: seq<Job>, i: nat,
                                        header: Bytes, pos: int)
    requires AllValid(reg, h.blockIds) && h.blocksize > 0 && AllFit(reg, defaults, h, jobs) && i < |jobs|
    requires pos == |header| + i * RecordSize(reg, h)
    ensures pos >= 0 && Stands(header + Records(h, jobs, |jobs|), pos, Join(RecordParts(h, jobs[i])))
  {
    RecordStands(reg, defaults, h, jobs, i, |jobs|);
    StandsBehind(header, Records(h, jobs, |jobs|), i * RecordSize(reg, h), Join(RecordParts(h, jobs[i])));
  }

  lemma {:induction false} HeaderTakes(s: Setup, q: Request, file: Bytes)
    requires ValidSetup(s) && ValidRequest(s, q) && 0 < |file| < LONG_LIMIT
    ensures BytesBefore(s, q) == |Join(HeaderParts(s.reg, HeaderOf(s, q, file)))|
  {
    var h := HeaderOf(s, q, file);
    HeaderFits(s, q, file);
    HeaderSize(s.reg, h);
    if q.random.Some? && h.keys == [] {
      assert |h.blockIds| == 0;
    }
  }

  lemma {:induction false} RecordTakes(s: Setup, q: Request, file: Bytes)
    requires ValidSetup(s) && ValidRequest(s, q) && 0 < |file| < LONG_LIMIT
    ensures BytesEach(s, q, file) == RecordSize(s.reg, HeaderOf(s, q, file))
  {
    HeaderFits(s, q, file);
    ModulusBytes(q.modsize);
  }

  lemma {:induction false} StartOfRecord(s: Setup, q: Request, file: Bytes, i: nat)
    requires ValidSetup(s) && ValidRequest(s, q) && 0 < |file| < LONG_LIMIT
    ensures var h := HeaderOf(s, q, file);
            RecordStart(s, q, file, i) == |Join(HeaderParts(s.reg, h))| + i * RecordSize(s.reg, h)
  {
    HeaderTakes(s, q, file);
    RecordTakes(s, q, file);
  }

  /** An archive is as long as its parts. */
  lemma {:induction false} ArchiveLength(s: Setup, q: Request, file: Bytes, length: nat)
    requires ValidSetup(s) && ValidRequest(s, q) && 0 < |file| < LONG_LIMIT && length == BlockLength(q, file)
    ensures length > 0
    ensures |Encode(s.reg, Zipped(s, q, file))|
         == BytesBefore(s, q) + BytesEach(s, q, file) * ((|file| + length - 1) / length)
  {
    LengthByCount(s, q, file);
    BlocksRoundUp(|file|, length);
  }

  lemma {:induction false} LengthByCount(s: Setup, q: Request, file: Bytes)
    requires ValidSetup(s) && ValidRequest(s, q) && 0 < |file| < LONG_LIMIT
    ensures |Encode(s.reg, Zipped(s, q, file))|
         == BytesBefore(s, q) + BytesEach(s, q, file) * CalcFileBlocks(|file|, BlockLength(q, file))
  {
    var h := HeaderOf(s, q, file);
    HeaderTakes(s, q, file);
    RecordTakes(s, q, file);
    SizeLaw(s, q, file);
    HeaderFits(s, q, file);
    HeaderSize(s.reg, h);
    assert CalcFileBlocks(|file|, BlockLength(q, file)) == BlockCount(h);
  }

  /** Behind the signatures of a record stand the exponent, least significant byte first, and the
      remainder, most significant byte first. */
  ghost predicate NumbersOfRecord(data: Bytes, pos: int, exponentBytes: nat, exponent: nat, remainderBytes: nat,
                                  remainder: nat) {
    && 0 <= pos && NumberStands(data, pos, exponentBytes, exponent)
    && BigStands(data, pos + exponentBytes, remainderBytes, remainder)
  }

  lemma {:induction false} ThreePartsStand(data: Bytes, pos: nat, parts: seq<Bytes>)
    requires |parts| == 3 && Stands(data, pos, Join(parts))
    ensures Stands(data, pos, parts[0]) && Stands(data, pos + |parts[0]|, parts[1])
    ensures Stands(data, pos + |parts[0]| + |parts[1]|, parts[2])
  {
    NextOffset(parts, 0);
    NextOffset(parts, 1);
    PartStands(parts, 0);
    PartStands(parts, 1);
    PartStands(parts, 2);
    StandsInside(data, pos, Join(parts), 0, parts[0]);
    StandsInside(data, pos, Join(parts), |parts[0]|, parts[1]);
    StandsInside(data, pos, Join(parts), |parts[0]| + |parts[1]|, parts[2]);
  }

  lemma {:induction false} RecordNumbersStand(data: Bytes, pos: nat, h: Header, job: Job, at: nat, exponentBytes: nat,
                                              exponent: nat, remainderBytes: nat, remainder: nat)
    requires Stands(data, pos, Join(RecordParts(h, job))) && remainder == job.remainder < Pow2(8 * remainderBytes)
    requires at == pos + |Join(job.signatures)| && exponentBytes == ExponentBytes(h.blocksize)
    requires remainderBytes == CalcModulusBytes(h.modsize)
    requires exponent == LittleValue(Little(job.exponent, exponentBytes))
    ensures NumbersOfRecord(data, at, exponentBytes, exponent, remainderBytes, remainder)
  {
    ValueOfFixed(remainder, remainderBytes);
    NumbersStandBehind(data, pos, RecordParts(h, job), at, exponentBytes, exponent, remainderBytes, remainder);
  }

  lemma {:induction false} NumbersStandBehind(data: Bytes, pos: nat, parts: seq<Bytes>, at: nat, exponentBytes: nat,
                                              exponent: nat, remainderBytes: nat, remainder: nat)
    requires |parts| == 3 && Stands(data, pos, Join(parts)) && at == pos + |parts[0]|
    requires |parts[1]| == exponentBytes && LittleValue(parts[1]) == exponent
    requires |parts[2]| == remainderBytes && Value(parts[2]) == remainder
    ensures NumbersOfRecord(data, at, exponentBytes, exponent, remainderBytes, remainder)
  {
    ThreePartsStand(data, pos, parts);
    ReadAt(data, at, parts[1]);
    ReadAt(data, at + exponentBytes, parts[2]);
  }

  /** Header and record of block i, and all that is known about them. */
  lemma {:induction false} RecordFacts(s: Setup, q: Request, file: Bytes, i: nat, block: Bytes)
    returns (h: Header, job: Job)
    requires ValidSetup(s) && ValidRequest(s, q) && 0 < |file| < LONG_LIMIT && IsBlock(q, file, i, block)
    ensures h.blockIds == Listed(s, q.blockList) && SizedAs(job.signatures, BlockSizes(s.reg, h.blockIds))
    ensures SignedBy(s.digest, h.blockIds, RegisterFor(s, q, file, i), block, job.signatures)
    ensures RecordStart(s, q, file, i) >= 0
    ensures Stands(Encode(s.reg, Zipped(s, q, file)), RecordStart(s, q, file, i), Join(RecordParts(h, job)))
    ensures h.blocksize == BlockLength(q, file) && job.exponent == Exponent(Value(block))
    ensures CalcModulusBytes(h.modsize) == (q.modsize + 7) / 8
    ensures Pow2(q.modsize) > 1 && job.remainder == Value(block) % (Pow2(q.modsize) - 1)
    ensures job.remainder < Pow2(8 * CalcModulusBytes(h.modsize))
  {
    var a := Zipped(s, q, file);
    RecordInArchive(s, q, file, i, block);
    WrittenRecord(s, q, file, i, block);
    JobsFit(s, q, file, i);
    ModulusBytes(q.modsize);
    h, job := a.header, a.jobs[i];
  }

  /** The numbers in the record of block i. */
  lemma {:induction false} RecordLayout(s: Setup, q: Request, file: Bytes, i: nat, block: Bytes, pos: nat)
    requires ValidSetup(s) && ValidRequest(s, q) && 0 < |file| < LONG_LIMIT && IsBlock(q, file, i, block)
    requires pos == RecordStart(s, q, file, i) + SignatureBytes(s.reg, Listed(s, q.blockList), |Listed(s, q.blockList)|)
    ensures var e, data := Exponent(Value(block)), Encode(s.reg, Zipped(s, q, file));
            && Pow2(q.modsize) > 1
            && var remainderBytes, remainder := (q.modsize + 7) / 8, Value(block) % (Pow2(q.modsize) - 1);
               if BlockLength(q, file) > 32
               then NumbersOfRecord(data, pos, 4, e % 0x1_0000_0000, remainderBytes, remainder)
               else NumbersOfRecord(data, pos, 1, e % 256, remainderBytes, remainder)
  {
    var h, job := RecordFacts(s, q, file, i, block);
    var wide, e, data := BlockLength(q, file) > 32, Exponent(Value(block)), Encode(s.reg, Zipped(s, q, file));
    ListLength(job.signatures, BlockSizes(s.reg, h.blockIds));
    StoredExponent(e, h.blocksize);
    RecordNumbersStand(data, RecordStart(s, q, file, i), h, job, pos, if wide then 4 else 1,
                       if wide then e % 0x1_0000_0000 else e % 256, (q.modsize + 7) / 8,
                       Value(block) % (Pow2(q.modsize) - 1));
  }

  /** The record starts with the digests of the block under the keys in force. */
  lemma {:induction false} SignatureLayout(s: Setup, q: Request, file: Bytes, i: nat, block: Bytes, j: nat, pos: nat)
    requires ValidSetup(s) && ValidRequest(s, q) && 0 < |file| < LONG_LIMIT && IsBlock(q, file, i, block)
    requires j < |Listed(s, q.blockList)|
    requires pos == RecordStart(s, q, file, i) + SignatureBytes(s.reg, Listed(s, q.blockList), j)
    ensures var id, register := Listed(s, q.blockList)[j], RegisterFor(s, q, file, i);
            id in register && Stands(Encode(s.reg, Zipped(s, q, file)), pos, s.digest(id, register[id], block))
  {
    var h, job := RecordFacts(s, q, file, i, block);
    var id, register := h.blockIds[j], RegisterFor(s, q, file, i);
    SignatureStands(Encode(s.reg, Zipped(s, q, file)), RecordStart(s, q, file, i), s.reg, h, job, j, pos,
                    s.digest(id, register[id], block));
  }

  lemma {:induction false} SignatureStands(data: Bytes, start: nat, reg: Registry, h: Header, job: Job, j: nat,
                                           pos: nat, signature: Bytes)
    requires AllValid(reg, h.blockIds) && j < |h.blockIds| && SizedAs(job.signatures, BlockSizes(reg, h.blockIds))
    requires Stands(data, start, Join(RecordParts(h, job)))
    requires pos == start + SignatureBytes(reg, h.blockIds, j) && signature == job.signatures[j]
    ensures Stands(data, pos, signature)
  {
    ThreePartsStand(data, start, RecordParts(h, job));
    SizedPartStands(job.signatures, BlockSizes(reg, h.blockIds), j);
    StandsInside(data, start, Join(job.signatures), SignatureBytes(reg, h.blockIds, j), signature);
  }
}
