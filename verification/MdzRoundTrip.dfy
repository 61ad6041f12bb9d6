/** What a reader gets back from an archive (mdZip.cpp against mdUnzip.cpp). */
module MdzRoundTrip {
  import opened Bytes
  import opened Common
  import opened Wrappers
  import opened IncrementKey
  import opened HashRegistry
  import opened MdzFormat

  // ---------- taking apart what was joined ----------

  lemma {:induction false} TakeJoined(parts: seq<Bytes>, i: nat, tail: Bytes)
    requires i < |parts|
    ensures Take(Join(parts[i..]) + tail, |parts[i]|) == Some(Piece(parts[i], Join(parts[i + 1..]) + tail))
  {
    assert parts[i..][1..] == parts[i + 1..];
    var data := Join(parts[i..]) + tail;
    assert data == parts[i] + (Join(parts[i + 1..]) + tail);
    assert data[..|parts[i]|] == parts[i];
    assert data[|parts[i]|..] == Join(parts[i + 1..]) + tail;
  }

  lemma {:induction false} TakeFirst(part: Bytes, tail: Bytes)
    ensures Take(part + tail, |part|) == Some(Piece(part, tail))
  {
    assert (part + tail)[..|part|] == part && (part + tail)[|part|..] == tail;
  }

  lemma {:induction false} TakeAllParts(parts: seq<Bytes>, sizes: seq<nat>, tail: Bytes, k: nat)
    requires |parts| == |sizes| && forall i :: 0 <= i < |parts| ==> |parts[i]| == sizes[i]
    requires k <= |parts|
    ensures TakeParts(Join(parts[..k]) + tail, sizes, k) == Some(Pieces(parts[..k], tail))
    decreases k
  {
    if k == 0 {
      assert parts[..0] == [] && Join([]) + tail == tail;
    } else {
      assert parts[..k] == parts[..k - 1] + [parts[k - 1]];
      JoinAppend(parts[..k - 1], parts[k - 1]);
      assert Join(parts[..k]) + tail == Join(parts[..k - 1]) + (parts[k - 1] + tail);
      TakeAllParts(parts, sizes, parts[k - 1] + tail, k - 1);
      TakeFirst(parts[k - 1], tail);
    }
  }

  lemma {:induction false} TakeList(parts: seq<Bytes>, sizes: seq<nat>, tail: Bytes)
    requires |parts| == |sizes| && forall i :: 0 <= i < |parts| ==> |parts[i]| == sizes[i]
    ensures TakeParts(Join(parts) + tail, sizes, |parts|) == Some(Pieces(parts, tail))
  {
    TakeAllParts(parts, sizes, tail, |parts|);
    assert parts[..|parts|] == parts;
  }

  lemma {:induction false} LittleRoundTrips(long: nat, short: nat)
    requires long < LONG_LIMIT && short < INT_LIMIT
    ensures LittleValue(Little(long, LONG_BYTES)) == long && LittleValue(Little(short, INT_BYTES)) == short
  {
    Pow2Words();
    LittleValueOfLittle(long, LONG_BYTES);
    LittleValueOfLittle(short, INT_BYTES);
  }

  /** The readers take the bytes of a long and of an int for signed numbers. */
  lemma {:induction false} SignedNumbers(data: Bytes)
    ensures TakeLong(data).Some? <==> |data| >= 8
    ensures |data| >= 8 ==>
              var v, w := TakeLong(data).value.value, LittleValue(data[..8]);
              -0x8000_0000_0000_0000 <= v < 0x8000_0000_0000_0000 && (v == w || v == w - 0x1_0000_0000_0000_0000)
    ensures TakeInt(data).Some? <==> |data| >= 4
    ensures |data| >= 4 ==>
              var v, w := TakeInt(data).value.value, LittleValue(data[..4]);
              -0x8000_0000 <= v < 0x8000_0000 && (v == w || v == w - 0x1_0000_0000)
  {
    if |data| >= 8 {
      LittleValueBound(data[..LONG_BYTES]);
      Pow2Words();
    }
    if |data| >= 4 {
      LittleValueBound(data[..INT_BYTES]);
      Pow2Words();
    }
  }

  lemma {:induction false} ModeRoundTrips(mode: KeyMode)
    ensures ModeOf(LittleValue(Little(VersionBits(mode), DOUBLE_BYTES))) == mode
  {
    LittleRoundTrips(VersionBits(mode), 0);
  }

  // ---------- the header ----------

  /** A header whose lists are valid and whose pieces have the sizes of the registry. */
  ghost predicate WellFormed(reg: Registry, h: Header) {
    && ValidRegistry(reg) && ValidList(reg, h.fileIds) && ValidList(reg, h.blockIds)
    && 0 <= h.filesize < LONG_LIMIT && 0 < h.blocksize < LONG_LIMIT && h.modsize < INT_LIMIT
    && |JoinNames(reg, h.fileIds)| < INT_LIMIT && |JoinNames(reg, h.blockIds)| < INT_LIMIT
    && SizedAs(h.fileSignatures, BlockSizes(reg, h.fileIds))
    && (h.keys == [] || SizedAs(h.keys, WrittenKeySizes(reg, h.blockIds)))
  }

  ghost predicate SizedAs(parts: seq<Bytes>, sizes: seq<nat>) {
    |parts| == |sizes| && forall i :: 0 <= i < |parts| ==> |parts[i]| == sizes[i]
  }

  lemma {:induction false} NumbersInOrder(n: Numbers, data: Bytes, rest1: Bytes, rest2: Bytes, rest3: Bytes,
                                          bits: Bytes)
    requires Take(data, DOUBLE_BYTES) == Some(Piece(bits, rest1)) && ModeOf(LittleValue(bits)) == n.mode
    requires TakeLong(rest1) == Some(Number(n.filesize, rest2)) && TakeLong(rest2) == Some(Number(n.blocksize, rest3))
    requires TakeInt(rest3) == Some(Number(n.modsize, n.rest))
    ensures ParseNumbers(data) == Some(n)
  {
  }

  lemma {:induction false} LongRead(parts: seq<Bytes>, i: nat, v: nat, tail: Bytes)
    requires i < |parts| && v < LONG_LIMIT && parts[i] == Little(v, LONG_BYTES)
    ensures TakeLong(Join(parts[i..]) + tail) == Some(Number(v, Join(parts[i + 1..]) + tail))
  {
    TakeJoined(parts, i, tail);
    LittleRoundTrips(v, 0);
  }

  lemma {:induction false} IntRead(parts: seq<Bytes>, i: nat, v: nat, tail: Bytes)
    requires i < |parts| && v < INT_LIMIT && parts[i] == Little(v, INT_BYTES)
    ensures TakeInt(Join(parts[i..]) + tail) == Some(Number(v, Join(parts[i + 1..]) + tail))
  {
    TakeJoined(parts, i, tail);
    LittleRoundTrips(0, v);
  }

  lemma {:induction false} NumbersRead(n: Numbers, parts: seq<Bytes>, tail: Bytes)
    requires |parts| >= 4 && parts[0] == Little(VersionBits(n.mode), DOUBLE_BYTES)
    requires 0 <= n.filesize < LONG_LIMIT && parts[1] == Little(n.filesize, LONG_BYTES)
    requires 0 <= n.blocksize < LONG_LIMIT && parts[2] == Little(n.blocksize, LONG_BYTES)
    requires n.modsize < INT_LIMIT && parts[3] == Little(n.modsize, INT_BYTES)
    requires n.rest == Join(parts[4..]) + tail
    ensures ParseNumbers(Join(parts) + tail) == Some(n)
  {
    assert parts[0..] == parts;
    TakeJoined(parts, 0, tail);
    ModeRoundTrips(n.mode);
    LongRead(parts, 1, n.filesize, tail);
    LongRead(parts, 2, n.blocksize, tail);
    IntRead(parts, 3, n.modsize, tail);
    NumbersInOrder(n, Join(parts) + tail, Join(parts[1..]) + tail, Join(parts[2..]) + tail, Join(parts[3..]) + tail,
                   parts[0]);
  }

  lemma {:induction false} HeaderNumbers(reg: Registry, h: Header, parts: seq<Bytes>, tail: Bytes)
    requires WellFormed(reg, h) && parts == HeaderParts(reg, h)
    ensures ParseNumbers(Join(parts) + tail)
         == Some(Numbers(h.mode, h.filesize, h.blocksize, h.modsize, Join(parts[4..]) + tail))
  {
    NumbersRead(Numbers(h.mode, h.filesize, h.blocksize, h.modsize, Join(parts[4..]) + tail), parts, tail);
  }

  lemma {:induction false} HeaderFileNames(reg: Registry, h: Header, parts: seq<Bytes>, tail: Bytes)
    requires WellFormed(reg, h) && parts == HeaderParts(reg, h)
    ensures TakeString(Join(parts[4..]) + tail) == Some(Piece(parts[5], Join(parts[6..]) + tail))
    ensures ListedIn(reg, parts[5]) == h.fileIds
  {
    TakeJoined(parts, 4, tail);
    TakeJoined(parts, 5, tail);
    LittleRoundTrips(0, |JoinNames(reg, h.fileIds)|);
    NamesRoundTrip(reg, h.fileIds);
  }

  lemma {:induction false} HeaderBlockNames(reg: Registry, h: Header, parts: seq<Bytes>, tail: Bytes)
    requires WellFormed(reg, h) && parts == HeaderParts(reg, h)
    ensures TakeString(Join(parts[6..]) + tail) == Some(Piece(parts[7], Join(parts[8..]) + tail))
    ensures ListedIn(reg, parts[7]) == h.blockIds
  {
    TakeJoined(parts, 6, tail);
    TakeJoined(parts, 7, tail);
    LittleRoundTrips(0, |JoinNames(reg, h.blockIds)|);
    NamesRoundTrip(reg, h.blockIds);
  }

  lemma {:induction false} HeaderFileSignatures(reg: Registry, h: Header, parts: seq<Bytes>, tail: Bytes)
    requires WellFormed(reg, h) && parts == HeaderParts(reg, h)
    ensures TakeParts(Join(parts[8..]) + tail, BlockSizes(reg, h.fileIds), |h.fileIds|)
         == Some(Pieces(h.fileSignatures, Join(parts[9..]) + tail))
  {
    TakeJoined(parts, 8, tail);
    assert parts[8..][1..] == parts[9..];
    assert Join(parts[8..]) + tail == Join(h.fileSignatures) + (Join(parts[9..]) + tail);
    TakeList(h.fileSignatures, BlockSizes(reg, h.fileIds), Join(parts[9..]) + tail);
  }

  lemma {:induction false} HeaderKeys(reg: Registry, h: Header, parts: seq<Bytes>, keyed: seq<nat>, tail: Bytes)
    requires WellFormed(reg, h) && parts == HeaderParts(reg, h)
    requires keyed == if h.keys == [] then [] else h.blockIds
    ensures TakeParts(Join(parts[10..]) + tail, WrittenKeySizes(reg, keyed), |keyed|) == Some(Pieces(h.keys, tail))
  {
    assert parts[10..] == [Join(h.keys)];
    assert Join(parts[10..]) == Join(h.keys) + Join([]);
    assert Join(parts[10..]) + tail == Join(h.keys) + tail;
    TakeList(h.keys, WrittenKeySizes(reg, keyed), tail);
  }

  lemma KeysInOrder(reg: Registry, fileIds: seq<nat>, blockIds: seq<nat>, keyed: seq<nat>, data: Bytes,
                    fileSignatures: Pieces, keysize: Number, keys: Pieces)
    requires AllValid(reg, fileIds) && AllValid(reg, blockIds)
    requires keyed == if keysize.value > 0 then blockIds else []
    requires TakeParts(data, BlockSizes(reg, fileIds), |fileIds|) == Some(fileSignatures)
    requires TakeInt(fileSignatures.rest) == Some(keysize)
    requires TakeParts(keysize.rest, WrittenKeySizes(reg, keyed), |keyed|) == Some(keys)
    ensures ParseKeys(reg, fileIds, blockIds, data) == Some(Keys(fileSignatures.parts, keys.parts, keys.rest))
  {
  }

  lemma {:induction false} HeaderLists(reg: Registry, h: Header, parts: seq<Bytes>, tail: Bytes)
    requires WellFormed(reg, h) && parts == HeaderParts(reg, h)
    ensures ParseKeys(reg, h.fileIds, h.blockIds, Join(parts[8..]) + tail)
         == Some(Keys(h.fileSignatures, h.keys, tail))
  {
    var keyed := if h.keys == [] then [] else h.blockIds;
    HeaderFileSignatures(reg, h, parts, tail);
    IntRead(parts, 9, KeyListLength(reg, h), tail);
    KeyListIsAnnounced(reg, h);
    HeaderKeys(reg, h, parts, keyed, tail);
    KeysInOrder(reg, h.fileIds, h.blockIds, keyed, Join(parts[8..]) + tail,
                Pieces(h.fileSignatures, Join(parts[9..]) + tail),
                Number(KeyListLength(reg, h), Join(parts[10..]) + tail), Pieces(h.keys, tail));
  }

  lemma {:induction false} KeyListIsAnnounced(reg: Registry, h: Header)
    requires WellFormed(reg, h)
    ensures KeyListLength(reg, h) > 0 <==> h.keys != []
  {
    if h.keys != [] {
      assert RowOf(reg, h.blockIds[0]).name != [];
    }
  }

  lemma ParseInOrder(reg: Registry, h: Header, nameBytes: nat, data: Bytes, rest: Bytes, fileNames: Piece,
                     blockNames: Piece, tail: Bytes)
    requires ParseNumbers(data) == Some(Numbers(h.mode, h.filesize, h.blocksize, h.modsize, rest)) && h.blocksize > 0
    requires TakeString(rest) == Some(fileNames) && TakeString(fileNames.rest) == Some(blockNames)
    requires ListedIn(reg, fileNames.bytes) == h.fileIds && ListedIn(reg, blockNames.bytes) == h.blockIds
    requires ParseKeys(reg, h.fileIds, h.blockIds, blockNames.rest) == Some(Keys(h.fileSignatures, h.keys, tail))
    requires nameBytes == |fileNames.bytes| + |blockNames.bytes|
    ensures ParseHeader(reg, data) == Some(Parsed(h, nameBytes, tail))
  {
    var p := ParseHeader(reg, data).value;
    assert p.header == h && p.nameBytes == nameBytes && p.rest == tail;
    assert p == Parsed(h, nameBytes, tail);
  }

  lemma {:induction false} HeaderRoundTrip(reg: Registry, h: Header, tail: Bytes)
    requires WellFormed(reg, h)
    ensures ParseHeader(reg, Join(HeaderParts(reg, h)) + tail) == Some(Parsed(h, NameBytes(reg, h), tail))
  {
    var parts := HeaderParts(reg, h);
    HeaderNumbers(reg, h, parts, tail);
    HeaderFileNames(reg, h, parts, tail);
    HeaderBlockNames(reg, h, parts, tail);
    HeaderLists(reg, h, parts, tail);
    var nameBytes := NameBytes(reg, h);
    assert |parts[5]| + |parts[7]| == nameBytes;
    ParseInOrder(reg, h, nameBytes, Join(parts) + tail, Join(parts[4..]) + tail,
                 Piece(parts[5], Join(parts[6..]) + tail), Piece(parts[7], Join(parts[8..]) + tail), tail);
  }

  // ---------- the records ----------

  /** The exponent as its field holds it. */
  function Stored(h: Header, job: Job): Job {
    job.(exponent := LittleValue(Little(job.exponent, ExponentBytes(h.blocksize))))
  }

  function AllStored(h: Header, jobs: seq<Job>): (r: seq<Job>)
    ensures |r| == |jobs|
  {
    seq(|jobs|, i requires 0 <= i < |jobs| => Stored(h, jobs[i]))
  }

  ghost predicate JobFits(reg: Registry, defaults: KeyRegister, h: Header, job: Job, i: nat)
    requires AllValid(reg, h.blockIds) && h.blocksize > 0
  {
    && job.blocksize == SizeOfBlock(h, i)
    && job.register == RegisterOfBlock(h.blockIds, StartKeys(defaults, h), h.mode, i)
    && SizedAs(job.signatures, BlockSizes(reg, h.blockIds))
    && job.remainder < Pow2(8 * CalcModulusBytes(h.modsize))
  }

  lemma {:induction false} JobRoundTrip(reg: Registry, defaults: KeyRegister, h: Header, job: Job, i: nat, tail: Bytes)
    requires AllValid(reg, h.blockIds) && h.blocksize > 0 && JobFits(reg, defaults, h, job, i)
    ensures ParseJob(reg, defaults, h, Join(RecordParts(h, job)) + tail, i)
         == Some(ParsedJobs([Stored(h, job)], tail))
  {
    var parts := RecordParts(h, job);
    assert parts[0..] == parts && parts[3..] == [];
    assert parts[0..][1..] == parts[1..];
    assert Join(parts) + tail == Join(job.signatures) + (Join(parts[1..]) + tail);
    TakeList(job.signatures, BlockSizes(reg, h.blockIds), Join(parts[1..]) + tail);
    TakeJoined(parts, 1, tail);
    TakeJoined(parts, 2, tail);
    assert Join(parts[3..]) + tail == tail;
    ValueOfFixed(job.remainder, CalcModulusBytes(h.modsize));
  }

  lemma NextRecord(h: Header, jobs: seq<Job>, k: nat, tail: Bytes)
    requires 0 < k <= |jobs|
    ensures Records(h, jobs, k) + tail == Records(h, jobs, k - 1) + (Join(RecordParts(h, jobs[k - 1])) + tail)
    ensures AllStored(h, jobs)[..k] == AllStored(h, jobs)[..k - 1] + [Stored(h, jobs[k - 1])]
  {
  }

  ghost predicate AllFit(reg: Registry, defaults: KeyRegister, h: Header, jobs: seq<Job>)
    requires AllValid(reg, h.blockIds) && h.blocksize > 0
  {
    forall i :: 0 <= i < |jobs| ==> JobFits(reg, defaults, h, jobs[i], i)
  }

  lemma ParseNext(reg: Registry, defaults: KeyRegister, h: Header, data: Bytes, k: nat, front: ParsedJobs)
    requires AllValid(reg, h.blockIds) && h.blocksize > 0
    requires ParseJobs(reg, defaults, h, data, k) == Some(front)
    ensures var job := ParseJob(reg, defaults, h, front.rest, k);
            ParseJobs(reg, defaults, h, data, k + 1)
            == if job.None? then None else Some(ParsedJobs(front.jobs + job.value.jobs, job.value.rest))
  {
  }

  /** One more job behind the first k - 1. */
  lemma {:induction false} JobsNext(reg: Registry, defaults: KeyRegister, h: Header, data: Bytes, k: nat, job: Job,
                                    front: ParsedJobs, tail: Bytes)
    requires AllValid(reg, h.blockIds) && h.blocksize > 0 && k > 0 && JobFits(reg, defaults, h, job, k - 1)
    requires ParseJobs(reg, defaults, h, data, k - 1) == Some(front)
    requires front.rest == Join(RecordParts(h, job)) + tail
    ensures ParseJobs(reg, defaults, h, data, k) == Some(ParsedJobs(front.jobs + [Stored(h, job)], tail))
  {
    JobRoundTrip(reg, defaults, h, job, k - 1, tail);
    ParseNext(reg, defaults, h, data, k - 1, front);
  }

  lemma {:induction false} JobsRoundTrip(reg: Registry, defaults: KeyRegister, h: Header, jobs: seq<Job>, tail: Bytes,
                                         k: nat)
    requires AllValid(reg, h.blockIds) && h.blocksize > 0 && k <= |jobs| && AllFit(reg, defaults, h, jobs)
    ensures ParseJobs(reg, defaults, h, Records(h, jobs, k) + tail, k)
         == Some(ParsedJobs(AllStored(h, jobs)[..k], tail))
    decreases k
  {
    if k == 0 {
      assert Records(h, jobs, 0) + tail == tail;
    } else {
      var rest := Join(RecordParts(h, jobs[k - 1])) + tail;
      NextRecord(h, jobs, k, tail);
      JobsRoundTrip(reg, defaults, h, jobs, rest, k - 1);
      assert JobFits(reg, defaults, h, jobs[k - 1], k - 1);
      JobsNext(reg, defaults, h, Records(h, jobs, k) + tail, k, jobs[k - 1],
               ParsedJobs(AllStored(h, jobs)[..k - 1], rest), tail);
    }
  }

  // ---------- what the writer writes fits ----------

  lemma {:induction false} SignaturesAreSized(s: Setup, ids: seq<nat>, register: KeyRegister, data: Bytes)
    requires ValidSetup(s) && AllValid(s.reg, ids)
    ensures SizedAs(Signatures(s.digest, ids, register, data), BlockSizes(s.reg, ids))
  {
    forall i | 0 <= i < |ids|
      ensures |Signatures(s.digest, ids, register, data)[i]| == BlockSizes(s.reg, ids)[i]
    {
      var id := ids[i];
      assert ValidId(s.reg, id);
      assert |s.digest(id, KeyFor(register, id), data)| == RowOf(s.reg, id).blocksize;
    }
  }

  lemma {:induction false} KeysAreSized(reg: Registry, ids: seq<nat>, register: KeyRegister)
    requires FullRegister(reg, register) && AllValid(reg, ids)
    ensures SizedAs(KeysOf(register, ids), WrittenKeySizes(reg, ids))
  {
    forall i | 0 <= i < |ids|
      ensures |KeysOf(register, ids)[i]| == WrittenKeySizes(reg, ids)[i]
    {
      assert ValidId(reg, ids[i]);
    }
  }

  lemma {:induction false} HeaderFits(s: Setup, q: Request, file: Bytes)
    requires ValidSetup(s) && ValidRequest(s, q) && 0 < |file| < LONG_LIMIT
    ensures WellFormed(s.reg, HeaderOf(s, q, file))
  {
    SignaturesAreSized(s, Listed(s, q.fileList), s.defaults, file);
    if q.random.Some? {
      KeysAreSized(s.reg, Listed(s, q.blockList), q.random.value);
    }
  }

  /** Lists and keys as a written header or a parsed one has them. */
  ghost predicate Keyed(reg: Registry, h: Header) {
    ValidList(reg, h.blockIds) && (h.keys == [] || SizedAs(h.keys, WrittenKeySizes(reg, h.blockIds)))
  }

  lemma {:induction false} StartKeysAreFull(s: Setup, h: Header, k: nat)
    requires ValidSetup(s) && Keyed(s.reg, h) && |h.keys| == |h.blockIds| && k <= |h.keys|
    ensures FullRegister(s.reg, WithKeys(s.defaults, h.blockIds, h.keys, k))
  {
    if k != 0 {
      StartKeysAreFull(s, h, k - 1);
    }
  }

  lemma {:induction false} SipKeysStayPresent(s: Setup, h: Header)
    requires ValidSetup(s) && Keyed(s.reg, h)
    ensures SipKeysPresent(h.blockIds, StartKeys(s.defaults, h))
  {
    if |h.keys| == |h.blockIds| {
      StartKeysAreFull(s, h, |h.keys|);
    }
  }

  lemma {:induction false} JobsFit(s: Setup, q: Request, file: Bytes, i: nat)
    requires ValidSetup(s) && ValidRequest(s, q) && 0 < |file| < LONG_LIMIT
    requires i < |Zipped(s, q, file).jobs|
    ensures var a := Zipped(s, q, file);
            && |a.jobs| == BlockCount(a.header)
            && JobFits(s.reg, s.defaults, a.header, a.jobs[i], i)
  {
    var h := HeaderOf(s, q, file);
    var block := Split(file, h.blocksize)[i];
    SplitCount(file, h.blocksize);
    RemainderFits(h.modsize, Value(block));
    SignaturesAreSized(s, h.blockIds, RegisterOfBlock(h.blockIds, StartKeys(s.defaults, h), h.mode, i), block);
  }

  lemma {:induction false} RecordsRoundTrip(s: Setup, q: Request, file: Bytes)
    requires ValidSetup(s) && ValidRequest(s, q) && 0 < |file| < LONG_LIMIT
    ensures var a := Zipped(s, q, file);
            && |a.jobs| == BlockCount(a.header)
            && ParseJobs(s.reg, s.defaults, a.header, Records(a.header, a.jobs, |a.jobs|), |a.jobs|)
               == Some(ParsedJobs(AllStored(a.header, a.jobs), []))
  {
    var a := Zipped(s, q, file);
    var h := a.header;
    SplitCount(file, h.blocksize);
    forall i | 0 <= i < |a.jobs|
      ensures JobFits(s.reg, s.defaults, h, a.jobs[i], i)
    {
      JobsFit(s, q, file, i);
    }
    JobsRoundTrip(s.reg, s.defaults, h, a.jobs, [], |a.jobs|);
    assert Records(h, a.jobs, |a.jobs|) + [] == Records(h, a.jobs, |a.jobs|);
    assert AllStored(h, a.jobs)[..|a.jobs|] == AllStored(h, a.jobs);
  }

  /** Reading an archive back yields the written header, names and keys and, for every
      block, its length, the very keys it was signed with, its signatures, its remainder and
      its exponent as stored; the only archives a reader turns away are shorter than 48 bytes. */
  lemma {:induction false} ContainerRoundTrip(s: Setup, q: Request, file: Bytes)
    requires ValidSetup(s) && ValidRequest(s, q) && 0 < |file| < LONG_LIMIT
    ensures var a := Zipped(s, q, file);
            var data := Encode(s.reg, a);
            Parse(s.reg, s.defaults, data)
            == if |data| < 48 then None else Some(Archive(a.header, AllStored(a.header, a.jobs)))
  {
    var a := Zipped(s, q, file);
    var h := a.header;
    HeaderFits(s, q, file);
    HeaderRoundTrip(s.reg, h, Records(h, a.jobs, |a.jobs|));
    RecordsRoundTrip(s, q, file);
  }

  /** The exponent of the block is in the range of its field. */
  ghost predicate ExponentFits(h: Header, block: Bytes) {
    if h.blocksize > 32 then Exponent(Value(block)) < 0x1_0000_0000
    else !(|block| == 32 && forall i :: 0 <= i < 32 ==> block[i] == 255)
  }

  lemma {:induction false} ExponentSurvives(h: Header, block: Bytes)
    requires 0 < |block| <= h.blocksize
    ensures LittleValue(Little(Exponent(Value(block)), ExponentBytes(h.blocksize))) == Exponent(Value(block))
            <==> ExponentFits(h, block)
  {
    var e := Exponent(Value(block));
    if h.blocksize > 32 {
      LittleValueBound(Little(e, INT_BYTES));
      Pow2Words();
      if e < 0x1_0000_0000 {
        LittleValueOfLittle(e, INT_BYTES);
      }
    } else {
      OneByteExponent(block);
      assert Little(e, 1) == [e % 256] + Little(e / 256, 0);
      assert LittleValue([e % 256]) == e % 256 + 256 * LittleValue([]);
    }
  }

  lemma {:induction false} JobSurvives(s: Setup, q: Request, file: Bytes, i: nat)
    requires ValidSetup(s) && ValidRequest(s, q) && 0 < |file| < LONG_LIMIT
    requires i < |Split(file, Zipped(s, q, file).header.blocksize)|
    ensures var a := Zipped(s, q, file);
            Stored(a.header, a.jobs[i]) == a.jobs[i]
            <==> ExponentFits(a.header, Split(file, a.header.blocksize)[i])
  {
    var h := Zipped(s, q, file).header;
    SplitCount(file, h.blocksize);
    ExponentSurvives(h, Split(file, h.blocksize)[i]);
  }

  lemma {:induction false} AllSurvive(s: Setup, q: Request, file: Bytes)
    requires ValidSetup(s) && ValidRequest(s, q) && 0 < |file| < LONG_LIMIT
    ensures var a := Zipped(s, q, file);
            AllStored(a.header, a.jobs) == a.jobs
            <==> forall block :: block in Split(file, a.header.blocksize) ==> ExponentFits(a.header, block)
  {
    var a := Zipped(s, q, file);
    var h := a.header;
    var blocks := Split(file, h.blocksize);
    forall i | 0 <= i < |blocks|
      ensures AllStored(h, a.jobs)[i] == a.jobs[i] <==> ExponentFits(h, blocks[i])
    {
      JobSurvives(s, q, file, i);
    }
    if AllStored(h, a.jobs) == a.jobs {
      forall block | block in blocks
        ensures ExponentFits(h, block)
      {
        var i :| 0 <= i < |blocks| && blocks[i] == block;
      }
    } else {
      var i :| 0 <= i < |blocks| && AllStored(h, a.jobs)[i] != a.jobs[i];
      assert blocks[i] in blocks;
    }
  }

  /** What is read back is the archive that was written, exactly when it has the minimal
      length and no exponent outgrows its field: one byte fails only for blocks of 32 bytes
      0xFF. */
  lemma {:induction false} SurvivesExactlyWhen(s: Setup, q: Request, file: Bytes)
    requires ValidSetup(s) && ValidRequest(s, q) && 0 < |file| < LONG_LIMIT
    ensures var a := Zipped(s, q, file);
            Parse(s.reg, s.defaults, Encode(s.reg, a)) == Some(a)
            <==> && |Encode(s.reg, a)| >= 48
                 && forall block :: block in Split(file, a.header.blocksize) ==> ExponentFits(a.header, block)
  {
    var a := Zipped(s, q, file);
    ContainerRoundTrip(s, q, file);
    AllSurvive(s, q, file);
    assert Archive(a.header, AllStored(a.header, a.jobs)) == a <==> AllStored(a.header, a.jobs) == a.jobs;
  }

  // ---------- the signatures as digests ----------

  lemma {:induction false} SignatureIsDigest(digest: Digest, ids: seq<nat>, register: KeyRegister, data: Bytes, j: nat)
    requires j < |ids| && ids[j] in register
    ensures Signatures(digest, ids, register, data)[j] == digest(ids[j], register[ids[j]], data)
  {
    assert Signatures(digest, ids, register, data)[j] == digest(ids[j], KeyFor(register, ids[j]), data);
  }

  /** Every listed signature is the digest of the block under the key in force. */
  ghost predicate SignedBy(digest: Digest, ids: seq<nat>, register: KeyRegister, data: Bytes, signatures: seq<Bytes>) {
    && |signatures| == |ids|
    && forall j :: 0 <= j < |ids| ==>
         ids[j] in register && signatures[j] == digest(ids[j], register[ids[j]], data)
  }

  lemma {:induction false} SignaturesAreSigned(digest: Digest, ids: seq<nat>, register: KeyRegister, data: Bytes)
    requires forall j :: 0 <= j < |ids| ==> ids[j] in register
    ensures SignedBy(digest, ids, register, data, Signatures(digest, ids, register, data))
  {
    forall j | 0 <= j < |ids|
      ensures Signatures(digest, ids, register, data)[j] == digest(ids[j], register[ids[j]], data)
    {
      SignatureIsDigest(digest, ids, register, data, j);
    }
  }

  lemma {:induction false} StartKeyIsThere(s: Setup, h: Header, id: nat)
    requires ValidSetup(s) && Keyed(s.reg, h) && ValidId(s.reg, id)
    ensures id in StartKeys(s.defaults, h)
  {
    var keys := StartKeys(s.defaults, h);
    if |h.keys| == |h.blockIds| {
      StartKeysAreFull(s, h, |h.keys|);
    }
    assert |keys[id]| == RowOf(s.reg, id).written;
  }

  /** The reader hands its search threads, for the i-th slice of the file, the length, the
      keys and the record of that slice: the slice itself passes every check of the search,
      and in order the slices make up the file. */
  lemma {:induction false} SlicesPassTheirChecks(s: Setup, q: Request, file: Bytes, i: nat)
    requires ValidSetup(s) && ValidRequest(s, q) && 0 < |file| < LONG_LIMIT
    requires |Encode(s.reg, Zipped(s, q, file))| >= 48
    requires i < |Split(file, Zipped(s, q, file).header.blocksize)|
    ensures var blocks := Split(file, Zipped(s, q, file).header.blocksize);
            var r := Parse(s.reg, s.defaults, Encode(s.reg, Zipped(s, q, file)));
            && r.Some? && |r.value.jobs| == |blocks| && Join(blocks) == file && r.value.header.modsize > 0
            && var h, job := r.value.header, r.value.jobs[i];
               && job.blocksize == |blocks[i]|
               && job.register == RegisterOfBlock(h.blockIds, StartKeys(s.defaults, h), h.mode, i)
               && SignedBy(s.digest, h.blockIds, job.register, blocks[i], job.signatures)
               && ModulusInt(h.modsize) > 0 && job.remainder == Value(blocks[i]) % ModulusInt(h.modsize)
  {
    var a := Zipped(s, q, file);
    ContainerRoundTrip(s, q, file);
    JoinOfSplit(file, a.header.blocksize);
    RemainderFits(a.header.modsize, 0);
    HeaderFits(s, q, file);
    forall j | 0 <= j < |a.header.blockIds|
      ensures a.header.blockIds[j] in a.jobs[i].register
    {
      StartKeyIsThere(s, a.header, a.header.blockIds[j]);
    }
    SignaturesAreSigned(s.digest, a.header.blockIds, a.jobs[i].register,
                        Split(file, a.header.blocksize)[i]);
  }
}
