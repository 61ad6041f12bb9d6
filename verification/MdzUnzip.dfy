/** Unzipping an archive: the search protocol run on what the reader hands to the threads
    (mdunzipfile in mdUnzip.cpp), and what comes back for an archived file. */
module MdzUnzip {
  import opened Bytes
  import opened Common
  import opened Wrappers
  import opened SearchProtocol
  import opened SearchSafety
  import opened SearchProgress
  import opened SearchRaces
  import opened BlockSearch
  import opened IncrementKey
  import MdzFormat
  import MdzLayout
  import MdzRoundTrip

  type Setup = MdzFormat.Setup
  type Request = MdzFormat.Request
  type Archive = MdzFormat.Archive

  /** What the threads are given: all listed signatures are tested, under the keys in force
      for the block. */
  function TasksOf(digest: MdzFormat.Digest, a: Archive): (tasks: seq<Task>)
    ensures |tasks| == |a.jobs|
  {
    seq(|a.jobs|, i requires 0 <= i < |a.jobs| =>
      Task(if a.jobs[i].blocksize < 0 then 0 else a.jobs[i].blocksize, a.jobs[i].exponent, a.jobs[i].remainder,
           (b: Bytes) =>
             MdzFormat.Signatures(digest, a.header.blockIds, a.jobs[i].register, b) == a.jobs[i].signatures))
  }

  /** A task accepts exactly the blocks whose digests, each under the key in force, are the
      stored signatures. */
  lemma {:induction false} AcceptsExactlyWhen(digest: MdzFormat.Digest, a: Archive, i: nat, b: Bytes)
    requires i < |a.jobs| && |a.jobs[i].signatures| == |a.header.blockIds|
    requires forall j :: 0 <= j < |a.header.blockIds| ==> a.header.blockIds[j] in a.jobs[i].register
    ensures TasksOf(digest, a)[i].accepts(b) <==>
              forall j :: 0 <= j < |a.header.blockIds| ==>
                var id := a.header.blockIds[j]; digest(id, a.jobs[i].register[id], b) == a.jobs[i].signatures[j]
  {
    var ids, job := a.header.blockIds, a.jobs[i];
    var all := MdzFormat.Signatures(digest, ids, job.register, b);
    forall j | 0 <= j < |ids|
      ensures all[j] == digest(ids[j], job.register[ids[j]], b)
    {
      MdzRoundTrip.SignatureIsDigest(digest, ids, job.register, b, j);
    }
    assert TasksOf(digest, a)[i].accepts(b) <==> all == job.signatures;
  }

  // ---------- archives of files ----------

  function BlocksOf(s: Setup, q: Request, file: Bytes): seq<Bytes>
    requires q.blocksize > 0 && q.modsize > 0 && file != []
  {
    Split(file, MdzFormat.HeaderOf(s, q, file).blocksize)
  }

  function Modulus(q: Request): (m: nat)
    requires q.modsize > 0
    ensures m >= 1
  {
    RemainderFits(q.modsize, 0);
    ModulusInt(q.modsize)
  }

  /** A file whose archive the reader accepts. */
  ghost predicate Readable(s: Setup, q: Request, file: Bytes) {
    && MdzFormat.ValidSetup(s) && MdzFormat.ValidRequest(s, q) && 0 < |file| < MdzFormat.LONG_LIMIT
    && |MdzFormat.Encode(s.reg, MdzFormat.Zipped(s, q, file))| >= 48
  }

  /** A file whose exponents survive the archive and whose blocks are all in reach of the search. */
  ghost predicate Searchable(s: Setup, q: Request, file: Bytes, T: nat) {
    && Readable(s, q, file) && T >= 1
    && (forall block :: block in BlocksOf(s, q, file) ==>
          MdzRoundTrip.ExponentFits(MdzFormat.HeaderOf(s, q, file), block))
    && AllInReach(BlocksOf(s, q, file), Modulus(q), T)
  }

  /** What the reader gets from the archive of the file. */
  function ReadBack(s: Setup, q: Request, file: Bytes): Option<Archive>
    requires q.blocksize > 0 && q.modsize > 0 && file != []
  {
    MdzFormat.Parse(s.reg, s.defaults, MdzFormat.Encode(s.reg, MdzFormat.Zipped(s, q, file)))
  }

  /** The tasks the reader makes of it. */
  function TasksRead(s: Setup, q: Request, file: Bytes): seq<Task>
    requires q.blocksize > 0 && q.modsize > 0 && file != []
  {
    var a := ReadBack(s, q, file);
    if a.Some? then TasksOf(s.digest, a.value) else []
  }

  function SearchFor(s: Setup, q: Request, file: Bytes, T: nat): Config
    requires q.blocksize > 0 && q.modsize > 0 && file != [] && T >= 1
  {
    SearchConfig(TasksRead(s, q, file), Modulus(q), T)
  }

  /** The blocks written by a run that is done. */
  ghost function UnzippedFile(s: Setup, q: Request, file: Bytes, T: nat, lastThread: nat, care: Care,
                              actions: seq<Action>)
    : Option<seq<Written>>
    requires q.blocksize > 0 && q.modsize > 0 && file != [] && T >= 1
  {
    Unzipped(TasksRead(s, q, file), Modulus(q), T, lastThread, care, actions)
  }

  /** The reader keeps everything but exponents that outgrow their field. */
  lemma {:induction false} ReadBackIs(s: Setup, q: Request, file: Bytes)
    requires Readable(s, q, file)
    ensures var a := MdzFormat.Zipped(s, q, file);
            ReadBack(s, q, file) == Some(MdzFormat.Archive(a.header, MdzRoundTrip.AllStored(a.header, a.jobs)))
    ensures SameLengths(TasksRead(s, q, file), BlocksOf(s, q, file))
  {
    MdzRoundTrip.ContainerRoundTrip(s, q, file);
    SplitCount(file, MdzFormat.HeaderOf(s, q, file).blocksize);
  }

  lemma {:induction false} TasksDescribeBlocks(s: Setup, q: Request, file: Bytes, T: nat)
    requires Searchable(s, q, file, T)
    ensures ReadBack(s, q, file) == Some(MdzFormat.Zipped(s, q, file))
    ensures DescribesAll(TasksRead(s, q, file), BlocksOf(s, q, file), Modulus(q))
  {
    MdzRoundTrip.SurvivesExactlyWhen(s, q, file);
    var a, blocks := MdzFormat.Zipped(s, q, file), BlocksOf(s, q, file);
    forall i | 0 <= i < |blocks|
      ensures Describes(TasksRead(s, q, file)[i], blocks[i], Modulus(q))
    {
      assert a.jobs[i] == MdzFormat.JobOf(s, a.header, blocks[i], i);
    }
  }

  /** For block i of an archived file the threads test lengths and digests under the keys in force
      for it: whatever is accepted agrees with the block in every listed signature. */
  lemma {:induction false} TaskOfBlock(s: Setup, q: Request, file: Bytes, i: nat, block: Bytes, b: Bytes)
    requires Readable(s, q, file) && MdzLayout.IsBlock(q, file, i, block)
    ensures i < |TasksRead(s, q, file)|
    ensures var task, ids := TasksRead(s, q, file)[i], MdzFormat.Listed(s, q.blockList);
            var register := MdzLayout.RegisterFor(s, q, file, i);
            && task.length == |block| && Modulus(q) == Pow2(q.modsize) - 1
            && task.remainder == Value(block) % Modulus(q)
            && (forall j :: 0 <= j < |ids| ==> ids[j] in register)
            && (task.accepts(b) <==>
                  forall j :: 0 <= j < |ids| ==>
                    s.digest(ids[j], register[ids[j]], b) == s.digest(ids[j], register[ids[j]], block))
  {
    var a := ArchiveOf(s, q, file, i, block);
    TaskOfJob(s.digest, a, i, MdzLayout.RegisterFor(s, q, file, i), block, b);
  }

  lemma {:induction false} ArchiveOf(s: Setup, q: Request, file: Bytes, i: nat, block: Bytes) returns (a: Archive)
    requires Readable(s, q, file) && MdzLayout.IsBlock(q, file, i, block)
    ensures TasksRead(s, q, file) == TasksOf(s.digest, a) && i < |a.jobs|
    ensures a.header.blockIds == MdzFormat.Listed(s, q.blockList)
    ensures a.jobs[i].register == MdzLayout.RegisterFor(s, q, file, i) && a.jobs[i].blocksize == |block|
    ensures MdzRoundTrip.SignedBy(s.digest, a.header.blockIds, a.jobs[i].register, block, a.jobs[i].signatures)
    ensures Modulus(q) == Pow2(q.modsize) - 1 && a.jobs[i].remainder == Value(block) % Modulus(q)
  {
    MdzLayout.RecordIsRead(s, q, file, i, block);
    MdzLayout.HeaderIsRead(s, q, file);
    a := ReadBack(s, q, file).value;
  }

  lemma {:induction false} TaskOfJob(digest: MdzFormat.Digest, a: Archive, i: nat, register: KeyRegister,
                                     block: Bytes, b: Bytes)
    requires i < |a.jobs| && a.jobs[i].register == register
    requires MdzRoundTrip.SignedBy(digest, a.header.blockIds, register, block, a.jobs[i].signatures)
    ensures TasksOf(digest, a)[i].accepts(b) <==>
              forall j :: 0 <= j < |a.header.blockIds| ==>
                var id := a.header.blockIds[j]; digest(id, register[id], b) == digest(id, register[id], block)
  {
    AcceptsExactlyWhen(digest, a, i, b);
  }

  // ---------- when the runs of the program can be trusted ----------

  /** Whatever the file, all runs of an unzip are sound exactly for one block, or for one thread
      that finds every block before the last one; and then only if no thread but the one the
      unset thread number names finds the first block. */
  lemma {:induction false} AllRunsSoundExactlyWhen(s: Setup, q: Request, file: Bytes, T: nat, lastThread: nat)
    requires Readable(s, q, file) && T >= 1
    ensures AllRunsSound(SearchFor(s, q, file, T), lastThread, UNGUARDED) <==>
              && OnlyNamedFinds(TasksRead(s, q, file), Modulus(q), T, lastThread)
              && (|file| <= q.blocksize || (T == 1 && AllButLastFound(TasksRead(s, q, file), Modulus(q), T)))
  {
    ReadBackIs(s, q, file);
    SplitCount(file, MdzFormat.HeaderOf(s, q, file).blocksize);
    FileBlocksCover(|file|, MdzFormat.HeaderOf(s, q, file).blocksize);
    SearchIsSoundExactlyWhen(TasksRead(s, q, file), Modulus(q), T, lastThread, UNGUARDED);
    NeedsNoCareExactlyWhen(TasksRead(s, q, file), Modulus(q), T, lastThread);
  }

  /** For one thread, no truncated exponent and all blocks in reach only the number counts. */
  lemma {:induction false} OneThreadIsSoundExactlyWhen(s: Setup, q: Request, file: Bytes, lastThread: nat)
    requires Searchable(s, q, file, 1)
    ensures AllRunsSound(SearchFor(s, q, file, 1), lastThread, UNGUARDED) <==> lastThread == 0
  {
    SearchableIsFound(s, q, file, 1);
    ReadBackIs(s, q, file);
    AllRunsSoundExactlyWhen(s, q, file, 1, lastThread);
    OnlyNamedFindsForOne(TasksRead(s, q, file), Modulus(q), lastThread);
  }

  /** With one thread and the thread number 0 from the start only the preparation of the thread
      object needs care, and only if some block before the last one is not found. */
  lemma {:induction false} OneThreadNeedsNoCareExactlyWhen(s: Setup, q: Request, file: Bytes, care: Care)
    requires Readable(s, q, file)
    ensures Safe(SearchFor(s, q, file, 1), 0, care)
            <==> care.setups || AllButLastFound(TasksRead(s, q, file), Modulus(q), 1)
  {
    OneThreadIsSafeExactlyWhen(TasksRead(s, q, file), Modulus(q), 0, care);
  }

  // ---------- what comes back ----------

  /** The found block has the length and, under the keys of its position, all signatures of
      the original. */
  ghost predicate SameTest(s: Setup, q: Request, file: Bytes, i: nat, found: Bytes)
    requires q.blocksize > 0 && q.modsize > 0 && file != [] && i < |BlocksOf(s, q, file)|
  {
    var job := MdzFormat.Zipped(s, q, file).jobs[i];
    && |found| == |BlocksOf(s, q, file)[i]|
    && MdzRoundTrip.SignedBy(s.digest, MdzFormat.Listed(s, q.blockList), job.register, found, job.signatures)
  }

  lemma {:induction false} AcceptedIsSame(s: Setup, q: Request, file: Bytes, i: nat, found: Bytes)
    requires Readable(s, q, file) && i < |BlocksOf(s, q, file)|
    requires |found| == |BlocksOf(s, q, file)[i]|
    ensures i < |TasksRead(s, q, file)|
    ensures TasksRead(s, q, file)[i].accepts(found) ==> SameTest(s, q, file, i, found)
  {
    MdzRoundTrip.SlicesPassTheirChecks(s, q, file, i);
    MdzRoundTrip.ContainerRoundTrip(s, q, file);
    AcceptsExactlyWhen(s.digest, ReadBack(s, q, file).value, i, found);
  }

  /** When a safe unzip of an archived file is done, its output is in file order, has something
      for exactly those blocks that some thread finds, and each of them has the length and the
      signatures of the original. */
  lemma {:induction false} UnzipRecovers(s: Setup, q: Request, file: Bytes, T: nat, lastThread: nat, care: Care,
                                         actions: seq<Action>)
    requires Readable(s, q, file) && T >= 1 && Safe(SearchFor(s, q, file, T), lastThread, care)
    requires UnzippedFile(s, q, file, T, lastThread, care, actions).Some?
    ensures var out := UnzippedFile(s, q, file, T, lastThread, care, actions).value;
            && InFileOrder(out)
            && (forall b :: 0 <= b < |BlocksOf(s, q, file)| ==>
                  (HasBlock(out, b) <==> SomeoneFinds(SearchFor(s, q, file, T), b)))
            && forall j :: 0 <= j < |out| ==>
                 out[j].blk < |BlocksOf(s, q, file)| && SameTest(s, q, file, out[j].blk, out[j].bytes)
  {
    ReadBackIs(s, q, file);
    FoundBlocksAreWritten(TasksRead(s, q, file), Modulus(q), T, lastThread, care, actions);
    var out := UnzippedFile(s, q, file, T, lastThread, care, actions).value;
    forall j | 0 <= j < |out|
      ensures out[j].blk < |BlocksOf(s, q, file)| && SameTest(s, q, file, out[j].blk, out[j].bytes)
    {
      AcceptedIsSame(s, q, file, out[j].blk, out[j].bytes);
    }
  }

  /** Every archive that the reader accepts can be unzipped, whatever its file. */
  lemma {:induction false} UnzipCanBeCompleted(s: Setup, q: Request, file: Bytes, T: nat, lastThread: nat, care: Care)
    returns (actions: seq<Action>)
    requires Readable(s, q, file) && T >= 1
    ensures UnzippedFile(s, q, file, T, lastThread, care, actions).Some?
  {
    actions := SearchCanBeCompleted(TasksRead(s, q, file), Modulus(q), T, lastThread, care);
  }

  /** End to end: if every block is found and for none a thread can come to test anything else
      with its signatures, a safe unzip of the archive gives the file back, and the file
      signatures validate it. */
  lemma {:induction false} UnzipOfZipIsIdentity(s: Setup, q: Request, file: Bytes, T: nat, lastThread: nat, care: Care,
                                                actions: seq<Action>)
    requires Readable(s, q, file) && T >= 1 && Safe(SearchFor(s, q, file, T), lastThread, care)
    requires AllFound(TasksRead(s, q, file), Modulus(q), T)
    requires forall i :: 0 <= i < |BlocksOf(s, q, file)| ==>
               OnlyBlockPasses(TasksRead(s, q, file), BlocksOf(s, q, file)[i], Modulus(q), T, i)
    requires UnzippedFile(s, q, file, T, lastThread, care, actions).Some?
    ensures ReadBack(s, q, file).Some?
    ensures var h := ReadBack(s, q, file).value.header;
            var out := Join(OutputBlocks(UnzippedFile(s, q, file, T, lastThread, care, actions).value));
            out == file && MdzRoundTrip.SignedBy(s.digest, h.fileIds, s.defaults, out, h.fileSignatures)
  {
    ReadBackIs(s, q, file);
    SearchIsIdentity(TasksRead(s, q, file), BlocksOf(s, q, file), Modulus(q), T, lastThread, care, actions);
    JoinOfSplit(file, MdzFormat.HeaderOf(s, q, file).blocksize);
    MdzLayout.WrittenHeader(s, q, file);
  }

  /** For every number of threads and every file whose archive the reader accepts: each
      completed safe unzip gives the file back exactly when every block is found by some thread
      and none finds anything else for it. */
  lemma {:induction false} UnzipIsIdentityExactlyWhen(s: Setup, q: Request, file: Bytes, T: nat, lastThread: nat,
                                                      care: Care)
    requires Readable(s, q, file) && T >= 1 && Safe(SearchFor(s, q, file, T), lastThread, care)
    ensures AlwaysGivesBack(TasksRead(s, q, file), file, Modulus(q), T, lastThread, care)
            <==> && AllFound(TasksRead(s, q, file), Modulus(q), T)
                 && OnlyOriginalsFound(TasksRead(s, q, file), BlocksOf(s, q, file), Modulus(q), T)
  {
    ReadBackIs(s, q, file);
    FileComesBackExactlyWhen(TasksRead(s, q, file), file, MdzFormat.HeaderOf(s, q, file).blocksize, Modulus(q), T,
                             lastThread, care);
  }

  /** The first half holds when no exponent was truncated and every block is in reach. */
  lemma {:induction false} SearchableIsFound(s: Setup, q: Request, file: Bytes, T: nat)
    requires Searchable(s, q, file, T)
    ensures AllFound(TasksRead(s, q, file), Modulus(q), T)
  {
    TasksDescribeBlocks(s, q, file, T);
    EveryBlockCanBeFound(TasksRead(s, q, file), BlocksOf(s, q, file), Modulus(q), T);
  }

  /** The one block whose exponent is truncated, 32 bytes 0xFF, is still reached exactly if its
      owner gets to it no later than at its first look at the ceiling. */
  lemma {:induction false} TruncatedIsReachedExactlyWhen(s: Setup, q: Request, file: Bytes, T: nat, blk: nat)
    requires Readable(s, q, file) && T >= 1 && blk < |BlocksOf(s, q, file)|
    requires MdzFormat.HeaderOf(s, q, file).blocksize <= 32
    requires !MdzRoundTrip.ExponentFits(MdzFormat.HeaderOf(s, q, file), BlocksOf(s, q, file)[blk])
    ensures blk < |TasksRead(s, q, file)|
    ensures var v := Value(BlocksOf(s, q, file)[blk]);
            (exists t: nat, k: nat :: GetsTo(TasksRead(s, q, file), Modulus(q), T, blk, t, k, v))
            <==> v / Modulus(q) / T <= 101000001 + 1000000 * (v / Modulus(q) % T)
  {
    var block := BlocksOf(s, q, file)[blk];
    ReadBackIs(s, q, file);
    BlockExponent(block);
    assert Little(256, 1) == [0] + Little(1, 0);
    assert LittleValue([0]) == 0 + 256 * LittleValue([]);
    ZeroExponentIsReachedExactlyWhen(TasksRead(s, q, file), block, Modulus(q), T, blk);
  }

  /** Then it is found: the block passes the signatures that were stored for it. */
  lemma {:induction false} ReachedBlockIsFound(s: Setup, q: Request, file: Bytes, T: nat, blk: nat, t: nat, k: nat)
    requires Readable(s, q, file) && T >= 1 && blk < |BlocksOf(s, q, file)| == |TasksRead(s, q, file)|
    requires GetsTo(TasksRead(s, q, file), Modulus(q), T, blk, t, k, Value(BlocksOf(s, q, file)[blk]))
    ensures SomeoneFinds(SearchFor(s, q, file, T), blk)
  {
    var a := MdzFormat.Zipped(s, q, file);
    ReadBackIs(s, q, file);
    assert a.jobs[blk] == MdzFormat.JobOf(s, a.header, BlocksOf(s, q, file)[blk], blk);
    ReachedIsFound(TasksRead(s, q, file), BlocksOf(s, q, file)[blk], Modulus(q), T, blk, t, k);
  }

  /** With one thread, and the thread number 0 from the start, this says it of all runs of the
      program. */
  lemma {:induction false} OneThreadIsIdentityExactlyWhen(s: Setup, q: Request, file: Bytes, care: Care)
    requires Readable(s, q, file)
    ensures AlwaysGivesBack(TasksRead(s, q, file), file, Modulus(q), 1, 0, care)
            <==> && AllFound(TasksRead(s, q, file), Modulus(q), 1)
                 && OnlyOriginalsFound(TasksRead(s, q, file), BlocksOf(s, q, file), Modulus(q), 1)
  {
    ReadBackIs(s, q, file);
    OneThreadComesBackExactlyWhen(TasksRead(s, q, file), file, MdzFormat.HeaderOf(s, q, file).blocksize, Modulus(q),
                                  care);
  }
}
