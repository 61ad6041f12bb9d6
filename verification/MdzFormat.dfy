/** The archive format .mdz (mdZip.cpp, mdUnzip.cpp): its header, its records with the keys
    under which they are signed, reading it back, and the size the validator expects. */
module MdzFormat {
  import opened Bytes
  import opened Common
  import opened Wrappers
  import opened IncrementKey
  import opened HashRegistry

  const DOUBLE_BYTES: nat := 8
  const LONG_BYTES: nat := 8
  const INT_BYTES: nat := 4
  const PREFIX_BYTES: nat := 40
  const MINIMUM: nat := 48
  const INT_LIMIT: nat := 0x8000_0000
  const LONG_LIMIT: nat := 0x8000_0000_0000_0000

  /** Any signature algorithm: signature number, key and signed bytes. */
  type Digest = (nat, Bytes, Bytes) -> Bytes

  // ---------- the signatures and keys a program knows ----------

  datatype Setup = Setup(reg: Registry, defaults: KeyRegister, digest: Digest)

  /** Every signature has a key of the size that is written for it. */
  ghost predicate FullRegister(reg: Registry, keys: KeyRegister) {
    forall id: nat :: ValidId(reg, id) ==> id in keys && |keys[id]| == RowOf(reg, id).written
  }

  ghost predicate ValidSetup(s: Setup) {
    && ValidRegistry(s.reg) && FullRegister(s.reg, s.defaults)
    && (forall id: nat :: ValidId(s.reg, id) && IsStepped(id) ==> RowOf(s.reg, id).written == SIP_KEY_BYTES)
    && (forall id: nat, key, data :: ValidId(s.reg, id) ==> |s.digest(id, key, data)| == RowOf(s.reg, id).blocksize)
  }

  function KeyFor(register: KeyRegister, id: nat): Bytes {
    if id in register then register[id] else []
  }

  function Signatures(digest: Digest, ids: seq<nat>, register: KeyRegister, data: Bytes): (r: seq<Bytes>)
    ensures |r| == |ids|
  {
    seq(|ids|, i requires 0 <= i < |ids| => digest(ids[i], KeyFor(register, ids[i]), data))
  }

  function KeysOf(register: KeyRegister, ids: seq<nat>): (r: seq<Bytes>)
    ensures |r| == |ids|
  {
    seq(|ids|, i requires 0 <= i < |ids| => KeyFor(register, ids[i]))
  }

  /** The register after the keys of the first k listed signatures were stored into it. */
  function WithKeys(register: KeyRegister, ids: seq<nat>, keys: seq<Bytes>, k: nat): KeyRegister
    requires k <= |ids| && k <= |keys|
  {
    if k == 0 then register else WithKeys(register, ids, keys, k - 1)[ids[k - 1] := keys[k - 1]]
  }

  // ---------- archives ----------

  datatype Header = Header(mode: KeyMode, filesize: int, blocksize: int, modsize: nat,
                           fileIds: seq<nat>, blockIds: seq<nat>, fileSignatures: seq<Bytes>, keys: seq<Bytes>)

  /** One block as the search threads get it: how long it is, the keys in force, and its record. */
  datatype Job = Job(blocksize: int, register: KeyRegister, signatures: seq<Bytes>, exponent: nat, remainder: nat)

  datatype Archive = Archive(header: Header, jobs: seq<Job>)

  function BlockCount(h: Header): int
    requires h.blocksize > 0
  {
    CalcFileBlocks(h.filesize, h.blocksize)
  }

  function SizeOfBlock(h: Header, i: nat): int
    requires h.blocksize > 0
  {
    if i == BlockCount(h) - 1 then CalcFileBlocksRemainder(h.filesize, h.blocksize) else h.blocksize
  }

  /** The keys with which signing starts. */
  function StartKeys(defaults: KeyRegister, h: Header): KeyRegister {
    if |h.keys| == |h.blockIds| then WithKeys(defaults, h.blockIds, h.keys, |h.keys|) else defaults
  }

  function ExponentBytes(blocksize: int): nat {
    if blocksize > 32 then INT_BYTES else 1
  }

  /** What the user asks for; random holds the drawn keys if keys are to be randomized. */
  datatype Request = Request(blocksize: nat, modsize: nat, fileList: seq<int>, blockList: seq<int>,
                             random: Option<KeyRegister>, mode: KeyMode)

  ghost predicate ValidRequest(s: Setup, q: Request) {
    && 0 < q.blocksize < LONG_LIMIT && 0 < q.modsize < INT_LIMIT
    && |JoinNames(s.reg, Listed(s, q.fileList))| < INT_LIMIT
    && |JoinNames(s.reg, Listed(s, q.blockList))| < INT_LIMIT
    && (q.random.Some? ==> FullRegister(s.reg, q.random.value))
  }

  function Listed(s: Setup, list: seq<int>): (ids: seq<nat>)
    ensures ValidList(s.reg, ids)
  {
    VectorIsValid(s.reg, list);
    VectorOf(s.reg, list)
  }

  function HeaderOf(s: Setup, q: Request, file: Bytes): Header {
    var fileIds, blockIds := Listed(s, q.fileList), Listed(s, q.blockList);
    Header(q.mode, |file|, if |file| < q.blocksize then |file| else q.blocksize, q.modsize, fileIds, blockIds,
           Signatures(s.digest, fileIds, s.defaults, file),
           if q.random.Some? then KeysOf(q.random.value, blockIds) else [])
  }

  /** The record of block i and the keys it is signed with. */
  function JobOf(s: Setup, h: Header, block: Bytes, i: nat): Job
    requires h.modsize > 0
  {
    RemainderFits(h.modsize, 0);
    var register := RegisterOfBlock(h.blockIds, StartKeys(s.defaults, h), h.mode, i);
    Job(|block|, register, Signatures(s.digest, h.blockIds, register, block),
        Exponent(Value(block)), Value(block) % ModulusInt(h.modsize))
  }

  function JobsOf(s: Setup, h: Header, blocks: seq<Bytes>): (r: seq<Job>)
    requires h.modsize > 0
    ensures |r| == |blocks|
  {
    seq(|blocks|, i requires 0 <= i < |blocks| => JobOf(s, h, blocks[i], i))
  }

  /** The archive of a file. */
  function Zipped(s: Setup, q: Request, file: Bytes): Archive
    requires q.blocksize > 0 && q.modsize > 0 && file != []
  {
    var h := HeaderOf(s, q, file);
    Archive(h, JobsOf(s, h, Split(file, h.blocksize)))
  }

  // ---------- archives as bytes ----------

  /** The IEEE doubles 1.01, 1.11 and 1.12. */
  function VersionBits(mode: KeyMode): nat {
    match mode
    case NoInc => 0x3ff0_28f5_c28f_5c29
    case Dec => 0x3ff1_c28f_5c28_f5c3
    case Inc => 0x3ff1_eb85_1eb8_51ec
  }

  function ModeOf(bits: nat): KeyMode {
    if bits == VersionBits(Dec) then Dec else if bits == VersionBits(Inc) then Inc else NoInc
  }

  /** The length that announces the key list. */
  function KeyListLength(reg: Registry, h: Header): nat
    requires AllValid(reg, h.blockIds)
  {
    if h.keys == [] then 0 else |JoinNames(reg, h.blockIds)|
  }

  function HeaderParts(reg: Registry, h: Header): (parts: seq<Bytes>)
    requires AllValid(reg, h.fileIds) && AllValid(reg, h.blockIds) && h.filesize >= 0 && h.blocksize >= 0
  {
    var fileNames, blockNames := JoinNames(reg, h.fileIds), JoinNames(reg, h.blockIds);
    [Little(VersionBits(h.mode), DOUBLE_BYTES), Little(h.filesize, LONG_BYTES), Little(h.blocksize, LONG_BYTES),
     Little(h.modsize, INT_BYTES), Little(|fileNames|, INT_BYTES), fileNames,
     Little(|blockNames|, INT_BYTES), blockNames,
     Join(h.fileSignatures), Little(KeyListLength(reg, h), INT_BYTES), Join(h.keys)]
  }

  function RecordParts(h: Header, job: Job): seq<Bytes> {
    [Join(job.signatures), Little(job.exponent, ExponentBytes(h.blocksize)),
     Fixed(job.remainder, CalcModulusBytes(h.modsize))]
  }

  /** The records of the first k blocks. */
  function Records(h: Header, jobs: seq<Job>, k: nat): Bytes
    requires k <= |jobs|
  {
    if k == 0 then [] else Records(h, jobs, k - 1) + Join(RecordParts(h, jobs[k - 1]))
  }

  function Encode(reg: Registry, a: Archive): Bytes
    requires AllValid(reg, a.header.fileIds) && AllValid(reg, a.header.blockIds)
    requires a.header.filesize >= 0 && a.header.blocksize >= 0
  {
    Join(HeaderParts(reg, a.header)) + Records(a.header, a.jobs, |a.jobs|)
  }

  /** Bytes of both name strings. */
  function NameBytes(reg: Registry, h: Header): nat
    requires AllValid(reg, h.fileIds) && AllValid(reg, h.blockIds)
  {
    |JoinNames(reg, h.fileIds)| + |JoinNames(reg, h.blockIds)|
  }

  // ---------- reading ----------

  datatype Piece = Piece(bytes: Bytes, rest: Bytes)

  function Take(data: Bytes, n: nat): Option<Piece> {
    if |data| < n then None else Some(Piece(data[..n], data[n..]))
  }

  datatype Number = Number(value: int, rest: Bytes)

  function TakeLong(data: Bytes): (r: Option<Number>)
    ensures r.Some? ==> r.value.value < LONG_LIMIT
  {
    var p :- Take(data, LONG_BYTES);
    var v := LittleValue(p.bytes);
    LittleValueBound(p.bytes);
    Pow2Words();
    Some(Number(if v < LONG_LIMIT then v else v - 2 * LONG_LIMIT, p.rest))
  }

  function TakeInt(data: Bytes): (r: Option<Number>)
    ensures r.Some? ==> r.value.value < INT_LIMIT
  {
    var p :- Take(data, INT_BYTES);
    var v := LittleValue(p.bytes);
    LittleValueBound(p.bytes);
    Pow2Words();
    Some(Number(if v < INT_LIMIT then v else v - 2 * INT_LIMIT, p.rest))
  }

  /** A length and that many bytes; allocating a negative length fails. */
  function TakeString(data: Bytes): Option<Piece> {
    var n :- TakeInt(data);
    if n.value < 0 then None else Take(n.rest, n.value)
  }

  datatype Pieces = Pieces(parts: seq<Bytes>, rest: Bytes)

  /** Pieces of the first k given sizes. */
  function TakeParts(data: Bytes, sizes: seq<nat>, k: nat): Option<Pieces>
    requires k <= |sizes|
  {
    if k == 0 then Some(Pieces([], data))
    else
      var p :- TakeParts(data, sizes, k - 1);
      var q :- Take(p.rest, sizes[k - 1]);
      Some(Pieces(p.parts + [q.bytes], q.rest))
  }

  datatype Numbers = Numbers(mode: KeyMode, filesize: int, blocksize: int, modsize: nat, rest: Bytes)

  function ParseNumbers(data: Bytes): (r: Option<Numbers>)
    ensures r.Some? ==> r.value.filesize < LONG_LIMIT
  {
    var version :- Take(data, DOUBLE_BYTES);
    var filesize :- TakeLong(version.rest);
    var blocksize :- TakeLong(filesize.rest);
    var modsize :- TakeInt(blocksize.rest);
    if modsize.value < 0 then None
    else Some(Numbers(ModeOf(LittleValue(version.bytes)), filesize.value, blocksize.value, modsize.value, modsize.rest))
  }

  datatype Keys = Keys(fileSignatures: seq<Bytes>, keys: seq<Bytes>, rest: Bytes)

  /** The file signatures and the key list, which is empty if announced by a zero length. */
  function ParseKeys(reg: Registry, fileIds: seq<nat>, blockIds: seq<nat>, data: Bytes): Option<Keys>
    requires AllValid(reg, fileIds) && AllValid(reg, blockIds)
  {
    var fileSignatures :- TakeParts(data, BlockSizes(reg, fileIds), |fileIds|);
    var keysize :- TakeInt(fileSignatures.rest);
    var keyed := if keysize.value > 0 then blockIds else [];
    var keys :- TakeParts(keysize.rest, WrittenKeySizes(reg, keyed), |keyed|);
    Some(Keys(fileSignatures.parts, keys.parts, keys.rest))
  }

  /** nameBytes counts both name strings as they stand in the file. */
  datatype Parsed = Parsed(header: Header, nameBytes: nat, rest: Bytes)

  function ParseHeader(reg: Registry, data: Bytes): (r: Option<Parsed>)
    ensures r.Some? ==> r.value.header.blocksize > 0
    ensures r.Some? ==> ValidList(reg, r.value.header.fileIds) && ValidList(reg, r.value.header.blockIds)
  {
    var n :- ParseNumbers(data);
    var fileNames :- TakeString(n.rest);
    var blockNames :- TakeString(fileNames.rest);
    if n.blocksize <= 0 then None
    else
      var fileIds, blockIds := ListedIn(reg, fileNames.bytes), ListedIn(reg, blockNames.bytes);
      var k :- ParseKeys(reg, fileIds, blockIds, blockNames.rest);
      Some(Parsed(Header(n.mode, n.filesize, n.blocksize, n.modsize, fileIds, blockIds, k.fileSignatures, k.keys),
                  |fileNames.bytes| + |blockNames.bytes|, k.rest))
  }

  function ListedIn(reg: Registry, names: Bytes): (ids: seq<nat>)
    ensures ValidList(reg, ids)
  {
    VectorIsValid(reg, AllNumbersOf(reg, Tokens(names)));
    VectorOfString(reg, names)
  }

  datatype ParsedJobs = ParsedJobs(jobs: seq<Job>, rest: Bytes)

  /** The record of block i. */
  function ParseJob(reg: Registry, defaults: KeyRegister, h: Header, data: Bytes, i: nat): Option<ParsedJobs>
    requires AllValid(reg, h.blockIds) && h.blocksize > 0
  {
    var signatures :- TakeParts(data, BlockSizes(reg, h.blockIds), |h.blockIds|);
    var exponent :- Take(signatures.rest, ExponentBytes(h.blocksize));
    var remainder :- Take(exponent.rest, CalcModulusBytes(h.modsize));
    var register := RegisterOfBlock(h.blockIds, StartKeys(defaults, h), h.mode, i);
    Some(ParsedJobs([Job(SizeOfBlock(h, i), register, signatures.parts, LittleValue(exponent.bytes),
                         Value(remainder.bytes))], remainder.rest))
  }

  function ParseJobs(reg: Registry, defaults: KeyRegister, h: Header, data: Bytes, k: nat): Option<ParsedJobs>
    requires AllValid(reg, h.blockIds) && h.blocksize > 0
  {
    if k == 0 then Some(ParsedJobs([], data))
    else
      var front :- ParseJobs(reg, defaults, h, data, k - 1);
      var job :- ParseJob(reg, defaults, h, front.rest, k - 1);
      Some(ParsedJobs(front.jobs + job.jobs, job.rest))
  }

  /** The archive that a reader sees in a file of at least the minimal length. */
  function Parse(reg: Registry, defaults: KeyRegister, data: Bytes): Option<Archive> {
    if |data| < MINIMUM then None
    else
      var p :- ParseHeader(reg, data);
      var n := BlockCount(p.header);
      var jobs :- ParseJobs(reg, defaults, p.header, p.rest, if n < 0 then 0 else n);
      Some(Archive(p.header, jobs.jobs))
  }
}
