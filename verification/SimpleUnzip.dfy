/** Unzipping a minimal archive: the search protocol run on the records of an archive with
    the numbers the modulus scan tests (mdUnzipSimple.cpp), and what comes back from it. */
module SimpleUnzip {
  import opened Bytes
  import opened Common
  import opened Wrappers
  import opened ModulusScan
  import opened SimpleFormat
  import opened SearchProtocol
  import opened SearchSafety
  import opened SearchRaces
  import opened BlockSearch

  // ---------- the search for the records of an archive ----------

  /** The block length the controller passes to the threads. */
  function SearchLength(a: Archive, blk: nat): nat {
    var last := CalcFileBlocksRemainder(a.filesize, BLOCK_BYTES);
    if blk + 1 == |a.records| && last > 0 then last else BLOCK_BYTES
  }

  /** What the threads are given: only the signature is tested. */
  function TasksOf(a: Archive, hash: Hash): (tasks: seq<Task>)
    ensures |tasks| == |a.records|
  {
    seq(|a.records|, i requires 0 <= i < |a.records| =>
      Task(SearchLength(a, i), a.records[i].exponent, a.records[i].remainder,
           (b: Bytes) => hash(b, a.key) == a.records[i].signature))
  }

  function Unzips(a: Archive, T: nat, hash: Hash): Config
    requires T >= 1
  {
    SearchConfig(TasksOf(a, hash), Modulus(), T)
  }

  /** The blocks written by a run that is done. */
  ghost function UnzippedArchive(a: Archive, T: nat, hash: Hash, lastThread: nat, care: Care, actions: seq<Action>)
    : Option<seq<Written>>
    requires T >= 1
  {
    Unzipped(TasksOf(a, hash), Modulus(), T, lastThread, care, actions)
  }

  // ---------- what the search finds ----------

  lemma {:induction false} LengthsAgree(file: Bytes, key: u64, hash: Hash, blk: nat)
    requires file != [] && blk < |Split(file, BLOCK_BYTES)|
    ensures SearchLength(Zipped(file, key, hash), blk) == |Split(file, BLOCK_BYTES)[blk]|
  {
    SplitCount(file, BLOCK_BYTES);
  }

  lemma {:induction false} TasksDescribeBlocks(file: Bytes, key: u64, hash: Hash, T: nat)
    requires file != [] && T >= 1
    ensures DescribesAll(TasksOf(Zipped(file, key, hash), hash), Split(file, BLOCK_BYTES), Modulus())
    ensures AllInReach(Split(file, BLOCK_BYTES), Modulus(), T)
  {
    var blocks := Split(file, BLOCK_BYTES);
    forall i | 0 <= i < |blocks|
      ensures Describes(TasksOf(Zipped(file, key, hash), hash)[i], blocks[i], Modulus())
      ensures InReach(blocks[i], Modulus(), T, i)
    {
      LengthsAgree(file, key, hash, i);
      FactorPositive(Modulus(), T, i);
    }
  }

  // ---------- when the runs of the program can be trusted ----------

  lemma {:induction false} AllAreFound(file: Bytes, key: u64, hash: Hash, T: nat)
    requires file != [] && T >= 1
    ensures AllFound(TasksOf(Zipped(file, key, hash), hash), Modulus(), T)
  {
    TasksDescribeBlocks(file, key, hash, T);
    EveryBlockCanBeFound(TasksOf(Zipped(file, key, hash), hash), Split(file, BLOCK_BYTES), Modulus(), T);
  }

  /** All runs of an unzip are sound exactly in these cases: one thread, if the unset thread
      number is 0; or a file of one block, if no thread but the one that number names finds it. */
  lemma {:induction false} AllRunsSoundExactlyWhen(file: Bytes, key: u64, hash: Hash, T: nat, lastThread: nat)
    requires file != [] && T >= 1
    ensures AllRunsSound(Unzips(Zipped(file, key, hash), T, hash), lastThread, UNGUARDED) <==>
              if T == 1 then lastThread == 0
              else |file| <= BLOCK_BYTES
                   && OnlyNamedFinds(TasksOf(Zipped(file, key, hash), hash), Modulus(), T, lastThread)
  {
    var tasks := TasksOf(Zipped(file, key, hash), hash);
    AllAreFound(file, key, hash, T);
    SplitCount(file, BLOCK_BYTES);
    FileBlocksCover(|file|, BLOCK_BYTES);
    SearchIsSoundExactlyWhen(tasks, Modulus(), T, lastThread, UNGUARDED);
    NeedsNoCareExactlyWhen(tasks, Modulus(), T, lastThread);
    OnlyNamedFindsForOne(tasks, Modulus(), lastThread);
  }

  /** With one thread and the thread number 0 from the start no care is needed. */
  lemma {:induction false} OneThreadNeedsNoCare(file: Bytes, key: u64, hash: Hash, care: Care)
    requires file != []
    ensures Safe(Unzips(Zipped(file, key, hash), 1, hash), 0, care)
  {
    AllAreFound(file, key, hash, 1);
    OneThreadIsSafeExactlyWhen(TasksOf(Zipped(file, key, hash), hash), Modulus(), 0, care);
  }

  // ---------- what comes back ----------

  /** A found block has the length and the signature of the original. */
  ghost predicate SameTest(block: Bytes, found: Bytes, key: u64, hash: Hash) {
    |found| == |block| && hash(found, key) == hash(block, key)
  }

  /** When a safe unzip of an archived file is done, its output consists of exactly one block
      for every block of the file, in order, each with the length and the signature of the
      original. */
  lemma {:induction false} UnzipRecovers(file: Bytes, key: u64, hash: Hash, T: nat, lastThread: nat, care: Care,
                                         actions: seq<Action>)
    requires file != [] && T >= 1 && Safe(Unzips(Zipped(file, key, hash), T, hash), lastThread, care)
    requires UnzippedArchive(Zipped(file, key, hash), T, hash, lastThread, care, actions).Some?
    ensures var out := UnzippedArchive(Zipped(file, key, hash), T, hash, lastThread, care, actions).value;
            var blocks := Split(file, BLOCK_BYTES);
            && |out| == |blocks|
            && forall i :: 0 <= i < |blocks| ==>
                 && out[i].blk == i && SameTest(blocks[i], out[i].bytes, key, hash)
                 && Genuine(Unzips(Zipped(file, key, hash), T, hash), out[i])
  {
    TasksDescribeBlocks(file, key, hash, T);
    SearchRecovers(TasksOf(Zipped(file, key, hash), hash), Split(file, BLOCK_BYTES), Modulus(), T, lastThread, care,
                   actions);
  }

  /** End to end: if for no block a thread can come to test anything else with its signature, a
      safe unzip of the archive of a file gives the file back. */
  lemma {:induction false} UnzipOfZipIsIdentity(file: Bytes, key: u64, hash: Hash, T: nat, lastThread: nat, care: Care,
                                                actions: seq<Action>)
    requires file != [] && T >= 1 && Safe(Unzips(Zipped(file, key, hash), T, hash), lastThread, care)
    requires UnzippedArchive(Zipped(file, key, hash), T, hash, lastThread, care, actions).Some?
    requires forall i :: 0 <= i < |Split(file, BLOCK_BYTES)| ==>
               OnlyBlockPasses(TasksOf(Zipped(file, key, hash), hash), Split(file, BLOCK_BYTES)[i], Modulus(), T, i)
    ensures Join(OutputBlocks(UnzippedArchive(Zipped(file, key, hash), T, hash, lastThread, care, actions).value))
            == file
  {
    var tasks, blocks := TasksOf(Zipped(file, key, hash), hash), Split(file, BLOCK_BYTES);
    AllAreFound(file, key, hash, T);
    SearchIsIdentity(tasks, blocks, Modulus(), T, lastThread, care, actions);
    JoinOfSplit(file, BLOCK_BYTES);
  }

  /** For every number of threads: each completed safe unzip gives the file back exactly when
      all that a thread finds for a block is the block, which depends only on file, key and
      hash. */
  lemma {:induction false} UnzipIsIdentityExactlyWhen(file: Bytes, key: u64, hash: Hash, T: nat, lastThread: nat,
                                                      care: Care)
    requires file != [] && T >= 1 && Safe(Unzips(Zipped(file, key, hash), T, hash), lastThread, care)
    ensures AlwaysGivesBack(TasksOf(Zipped(file, key, hash), hash), file, Modulus(), T, lastThread, care)
            <==> OnlyOriginalsFound(TasksOf(Zipped(file, key, hash), hash), Split(file, BLOCK_BYTES), Modulus(), T)
  {
    TasksDescribeBlocks(file, key, hash, T);
    AllAreFound(file, key, hash, T);
    FileComesBackExactlyWhen(TasksOf(Zipped(file, key, hash), hash), file, BLOCK_BYTES, Modulus(), T, lastThread, care);
  }

  /** With one thread this says it of all runs of the program. */
  lemma {:induction false} OneThreadIsIdentityExactlyWhen(file: Bytes, key: u64, hash: Hash)
    requires file != []
    ensures AlwaysGivesBack(TasksOf(Zipped(file, key, hash), hash), file, Modulus(), 1, 0, UNGUARDED)
            <==> OnlyOriginalsFound(TasksOf(Zipped(file, key, hash), hash), Split(file, BLOCK_BYTES), Modulus(), 1)
  {
    OneThreadNeedsNoCare(file, key, hash, UNGUARDED);
    UnzipIsIdentityExactlyWhen(file, key, hash, 1, 0, UNGUARDED);
  }

  // ---------- zipping the result again ----------

  /** Only the signature is tested, so the output need not zip to the same archive. It does
      exactly when every block found has the stored exponent and remainder. */
  lemma {:induction false} RezipIsIdenticalExactlyWhen(file: Bytes, key: u64, hash: Hash, T: nat, lastThread: nat,
                                                       care: Care, actions: seq<Action>)
    requires 0 < |file| < 0x8000_0000_0000_0000 && T >= 1
    requires Safe(Unzips(Zipped(file, key, hash), T, hash), lastThread, care)
    requires UnzippedArchive(Zipped(file, key, hash), T, hash, lastThread, care, actions).Some?
    ensures var out := OutputBlocks(UnzippedArchive(Zipped(file, key, hash), T, hash, lastThread, care, actions).value);
            var blocks := Split(file, BLOCK_BYTES);
            && |out| == |blocks| && |Join(out)| == |file|
            && (ArchiveBytes(Zipped(Join(out), key, hash)) == ArchiveBytes(Zipped(file, key, hash)) <==>
                forall i :: 0 <= i < |blocks| ==>
                  && Exponent(Value(out[i])) == Exponent(Value(blocks[i]))
                  && Value(out[i]) % Modulus() == Value(blocks[i]) % Modulus())
  {
    var out := OutputBlocks(UnzippedArchive(Zipped(file, key, hash), T, hash, lastThread, care, actions).value);
    var blocks := Split(file, BLOCK_BYTES);
    UnzipRecovers(file, key, hash, T, lastThread, care, actions);
    assert forall i :: 0 <= i < |blocks| ==> SameTest(blocks[i], out[i], key, hash);
    BlocksOfOutput(file, BLOCK_BYTES, out);
    SameArchive(file, Join(out), key, hash);
    SameRecords(blocks, out, key, hash);
  }

  lemma {:induction false} SameRecords(bs: seq<Bytes>, cs: seq<Bytes>, key: u64, hash: Hash)
    requires |bs| == |cs| && forall i :: 0 <= i < |bs| ==> SameTest(bs[i], cs[i], key, hash)
    ensures RecordsOf(bs, key, hash) == RecordsOf(cs, key, hash) <==>
            forall i :: 0 <= i < |bs| ==>
              && Exponent(Value(cs[i])) == Exponent(Value(bs[i]))
              && Value(cs[i]) % Modulus() == Value(bs[i]) % Modulus()
  {
    var r, q := RecordsOf(bs, key, hash), RecordsOf(cs, key, hash);
    if r == q {
      forall i | 0 <= i < |bs|
        ensures Exponent(Value(cs[i])) == Exponent(Value(bs[i])) && Value(cs[i]) % Modulus() == Value(bs[i]) % Modulus()
      {
        assert r[i] == q[i];
      }
    }
  }

  // ---------- deciding that before unzipping ----------

  /** What any thread finds for the block has the record of the block. */
  ghost predicate FindsKeepRecord(file: Bytes, key: u64, hash: Hash, T: nat, blk: nat)
    requires T >= 1 && blk < |Split(file, BLOCK_BYTES)|
  {
    var c := Unzips(Zipped(file, key, hash), T, hash);
    forall t: nat, k: nat :: Finds(c, blk, t, k) ==>
      RecordOf(c.candidate(blk, t, k), key, hash) == RecordOf(Split(file, BLOCK_BYTES)[blk], key, hash)
  }

  ghost predicate FindsKeepRecords(file: Bytes, key: u64, hash: Hash, T: nat)
    requires T >= 1
  {
    forall blk :: 0 <= blk < |Split(file, BLOCK_BYTES)| ==> FindsKeepRecord(file, key, hash, T, blk)
  }

  /** Then every completed unzip zips to the same bytes again. */
  lemma {:induction false} RezipIsIdenticalIfFindsKeepRecords(file: Bytes, key: u64, hash: Hash, T: nat,
                                                              lastThread: nat, care: Care, actions: seq<Action>)
    requires 0 < |file| < 0x8000_0000_0000_0000 && T >= 1 && FindsKeepRecords(file, key, hash, T)
    requires Safe(Unzips(Zipped(file, key, hash), T, hash), lastThread, care)
    requires UnzippedArchive(Zipped(file, key, hash), T, hash, lastThread, care, actions).Some?
    ensures var out := OutputBlocks(UnzippedArchive(Zipped(file, key, hash), T, hash, lastThread, care, actions).value);
            ArchiveBytes(Zipped(Join(out), key, hash)) == ArchiveBytes(Zipped(file, key, hash))
  {
    var c := Unzips(Zipped(file, key, hash), T, hash);
    var written := UnzippedArchive(Zipped(file, key, hash), T, hash, lastThread, care, actions).value;
    var out, blocks := OutputBlocks(written), Split(file, BLOCK_BYTES);
    UnzipRecovers(file, key, hash, T, lastThread, care, actions);
    RezipIsIdenticalExactlyWhen(file, key, hash, T, lastThread, care, actions);
    forall i | 0 <= i < |blocks|
      ensures RecordOf(out[i], key, hash) == RecordOf(blocks[i], key, hash)
    {
      assert FindsKeepRecord(file, key, hash, T, i);
      assert Finds(c, i, written[i].thread, written[i].k);
    }
  }

  /** Every completed unzip zips to the same bytes again. */
  ghost predicate AlwaysRezips(file: Bytes, key: u64, hash: Hash, T: nat, lastThread: nat, care: Care)
    requires file != [] && T >= 1
  {
    forall actions: seq<Action> ::
      var r := UnzippedArchive(Zipped(file, key, hash), T, hash, lastThread, care, actions);
      r.Some? ==> Join(OutputBlocks(r.value)) != []
                  && ArchiveBytes(Zipped(Join(OutputBlocks(r.value)), key, hash))
                     == ArchiveBytes(Zipped(file, key, hash))
  }

  /** A find with another record is written by some completed unzip. */
  lemma {:induction false} BadFindCanBeWritten(file: Bytes, key: u64, hash: Hash, T: nat, lastThread: nat, care: Care,
                                               blk: nat, t: nat, k: nat)
    returns (actions: seq<Action>)
    requires 0 < |file| < 0x8000_0000_0000_0000 && T >= 1 && blk < |Split(file, BLOCK_BYTES)|
    requires Safe(Unzips(Zipped(file, key, hash), T, hash), lastThread, care)
    requires Finds(Unzips(Zipped(file, key, hash), T, hash), blk, t, k)
    requires RecordOf(Unzips(Zipped(file, key, hash), T, hash).candidate(blk, t, k), key, hash)
          != RecordOf(Split(file, BLOCK_BYTES)[blk], key, hash)
    ensures var r := UnzippedArchive(Zipped(file, key, hash), T, hash, lastThread, care, actions);
            && r.Some?
            && ArchiveBytes(Zipped(Join(OutputBlocks(r.value)), key, hash)) != ArchiveBytes(Zipped(file, key, hash))
  {
    var a, blocks := Zipped(file, key, hash), Split(file, BLOCK_BYTES);
    TasksDescribeBlocks(file, key, hash, T);
    AllAreFound(file, key, hash, T);
    actions := FindCanBeWritten(TasksOf(a, hash), Modulus(), T, lastThread, care, blk, t, k);
    RezipIsIdenticalExactlyWhen(file, key, hash, T, lastThread, care, actions);
  }

  /** For every number of threads: each completed safe unzip of the archive zips to the same
      bytes again exactly when everything a thread finds for a block has the record of the
      block, which depends only on file, key and hash. */
  lemma {:induction false} AlwaysRezipsExactlyWhen(file: Bytes, key: u64, hash: Hash, T: nat, lastThread: nat,
                                                   care: Care)
    requires 0 < |file| < 0x8000_0000_0000_0000 && T >= 1
    requires Safe(Unzips(Zipped(file, key, hash), T, hash), lastThread, care)
    ensures AlwaysRezips(file, key, hash, T, lastThread, care) <==> FindsKeepRecords(file, key, hash, T)
  {
    if FindsKeepRecords(file, key, hash, T) {
      forall actions: seq<Action> | UnzippedArchive(Zipped(file, key, hash), T, hash, lastThread, care, actions).Some?
        ensures var a := Zipped(file, key, hash);
                var out := OutputBlocks(UnzippedArchive(a, T, hash, lastThread, care, actions).value);
                Join(out) != [] && ArchiveBytes(Zipped(Join(out), key, hash)) == ArchiveBytes(Zipped(file, key, hash))
      {
        RezipIsIdenticalExactlyWhen(file, key, hash, T, lastThread, care, actions);
        RezipIsIdenticalIfFindsKeepRecords(file, key, hash, T, lastThread, care, actions);
      }
    } else {
      var blk :| 0 <= blk < |Split(file, BLOCK_BYTES)| && !FindsKeepRecord(file, key, hash, T, blk);
      var c := Unzips(Zipped(file, key, hash), T, hash);
      var t: nat, k: nat :| Finds(c, blk, t, k)
        && RecordOf(c.candidate(blk, t, k), key, hash) != RecordOf(Split(file, BLOCK_BYTES)[blk], key, hash);
      var actions := BadFindCanBeWritten(file, key, hash, T, lastThread, care, blk, t, k);
    }
  }

  /** The archive of every file can be unzipped. */
  lemma {:induction false} UnzipCanBeCompleted(file: Bytes, key: u64, hash: Hash, T: nat, lastThread: nat, care: Care)
    returns (actions: seq<Action>)
    requires file != [] && T >= 1
    ensures UnzippedArchive(Zipped(file, key, hash), T, hash, lastThread, care, actions).Some?
  {
    actions := SearchCanBeCompleted(TasksOf(Zipped(file, key, hash), hash), Modulus(), T, lastThread, care);
  }

  lemma {:induction false} CandidateRemainder(rem: nat, exp: nat, M: nat, c: nat, T: nat, t: nat, k: nat)
    requires M > 0 && c > 0 && T > 0 && t < T && rem < M
    ensures M * c > 0
    ensures Candidate(ScanStart(rem, exp, M * c, M, t), M * T, k) % M == rem
  {
    FloorIsMultiple(exp, M, c);
    var q: nat :| ExponentFloor(exp, M * c) == q * M;
    DealtRoundRobin(rem, exp, M * c, M, T, t, k);
    MulDistributes(q, t + k * T, M);
    RemainderOfMultiple(q + (t + k * T), M, rem);
  }

  lemma {:induction false} RemainderOfMultiple(n: nat, M: nat, rem: nat)
    requires rem < M
    ensures (rem + n * M) % M == rem
  {
    var v := rem + n * M;
    DivMod(v, M);
    SameQuotient(v / M, v % M, n, rem, M);
  }

  /** A candidate that fits the block length has the stored remainder by construction, so there
      only the exponent can differ: such a find keeps the record exactly when the tested
      number lies in the bracket of the stored exponent. */
  lemma {:induction false} FittingFindKeepsRecord(file: Bytes, key: u64, hash: Hash, T: nat, w: Written)
    requires file != [] && T >= 1 && Genuine(Unzips(Zipped(file, key, hash), T, hash), w)
    requires Tested(TasksOf(Zipped(file, key, hash), hash), Modulus(), T, w.blk, w.thread, w.k) < Pow2(8 * |w.bytes|)
    ensures var v := Tested(TasksOf(Zipped(file, key, hash), hash), Modulus(), T, w.blk, w.thread, w.k);
            var e := Exponent(Value(Split(file, BLOCK_BYTES)[w.blk]));
            && Value(w.bytes) == v
            && (RecordOf(w.bytes, key, hash) == RecordOf(Split(file, BLOCK_BYTES)[w.blk], key, hash)
                <==> (e == 1 || Pow2(e) - 1 <= v) && v + 1 < Pow2(e + 1))
  {
    var a := Zipped(file, key, hash);
    var v := Tested(TasksOf(a, hash), Modulus(), T, w.blk, w.thread, w.k);
    var block := Split(file, BLOCK_BYTES)[w.blk];
    var e := Exponent(Value(block));
    LengthsAgree(file, key, hash, w.blk);
    FitValue(v, |w.bytes|);
    CandidateRemainder(Value(block) % Modulus(), e, Modulus(), FloorFactor(T, w.blk), T, w.thread, w.k);
    if (e == 1 || Pow2(e) - 1 <= v) && v + 1 < Pow2(e + 1) {
      ExponentUnique(v, e);
    }
  }
}
