/** Zipping the output of an unzip again (mdUnzip.cpp, mdZip.cpp): when that yields the same
    archive. Only block signatures are tested by the search, while an archive also stores
    exponents, remainders and the signatures of the whole file. */
module MdzRezip {
  import opened Bytes
  import opened Common
  import opened Wrappers
  import opened SearchProtocol
  import opened SearchSafety
  import opened SearchProgress
  import opened BlockSearch
  import opened MdzUnzip
  import opened IncrementKey
  import MdzFormat
  import MdzLayout
  import MdzRoundTrip

  // ---------- equal archives ----------

  lemma {:induction false} StoredIsWritten(h: MdzFormat.Header, jobs: seq<MdzFormat.Job>, k: nat)
    requires k <= |jobs|
    ensures MdzFormat.Records(h, MdzRoundTrip.AllStored(h, jobs), k) == MdzFormat.Records(h, jobs, k)
  {
    if k > 0 {
      StoredIsWritten(h, jobs, k - 1);
      LittleOfLittleValue(Little(jobs[k - 1].exponent, MdzFormat.ExponentBytes(h.blocksize)));
    }
  }

  /** Two files have the same archive exactly if the reader gets the same from both. */
  lemma {:induction false} SameBytesExactlyWhen(s: Setup, q: Request, f: Bytes, g: Bytes)
    requires Readable(s, q, f) && 0 < |g| < MdzFormat.LONG_LIMIT
    ensures var a, b := MdzFormat.Zipped(s, q, f), MdzFormat.Zipped(s, q, g);
            MdzFormat.Encode(s.reg, b) == MdzFormat.Encode(s.reg, a) <==>
              && b.header == a.header
              && MdzRoundTrip.AllStored(a.header, b.jobs) == MdzRoundTrip.AllStored(a.header, a.jobs)
  {
    var a, b := MdzFormat.Zipped(s, q, f), MdzFormat.Zipped(s, q, g);
    MdzRoundTrip.ContainerRoundTrip(s, q, f);
    MdzRoundTrip.ContainerRoundTrip(s, q, g);
    StoredIsWritten(a.header, a.jobs, |a.jobs|);
    StoredIsWritten(b.header, b.jobs, |b.jobs|);
  }

  // ---------- files of the same blocks lengths ----------

  /** The block in this place would be stored as the block of the file is. */
  ghost predicate SameRecord(s: Setup, q: Request, file: Bytes, i: nat, x: Bytes)
    requires q.blocksize > 0 && q.modsize > 0 && file != [] && i < |BlocksOf(s, q, file)|
  {
    var h := MdzFormat.HeaderOf(s, q, file);
    MdzRoundTrip.Stored(h, MdzFormat.JobOf(s, h, x, i))
    == MdzRoundTrip.Stored(h, MdzFormat.JobOf(s, h, BlocksOf(s, q, file)[i], i))
  }

  ghost predicate SameFileSignatures(s: Setup, q: Request, file: Bytes, other: Bytes) {
    var ids := MdzFormat.Listed(s, q.fileList);
    MdzFormat.Signatures(s.digest, ids, s.defaults, other) == MdzFormat.Signatures(s.digest, ids, s.defaults, file)
  }

  /** That is: its exponent as stored, its remainder and, under the keys in force, its digests are
      those of the block. */
  lemma {:induction false} SameRecordExactlyWhen(s: Setup, q: Request, file: Bytes, i: nat, block: Bytes, x: Bytes)
    requires Readable(s, q, file) && MdzLayout.IsBlock(q, file, i, block) && |x| == |block|
    ensures i < |BlocksOf(s, q, file)| && Pow2(q.modsize) > 1
    ensures var ids, register := MdzFormat.Listed(s, q.blockList), MdzLayout.RegisterFor(s, q, file, i);
            var limit := if MdzLayout.BlockLength(q, file) > 32 then 0x1_0000_0000 else 256;
            && (forall j :: 0 <= j < |ids| ==> ids[j] in register)
            && (SameRecord(s, q, file, i, x) <==>
                  && Exponent(Value(x)) % limit == Exponent(Value(block)) % limit
                  && Value(x) % (Pow2(q.modsize) - 1) == Value(block) % (Pow2(q.modsize) - 1)
                  && forall j :: 0 <= j < |ids| ==>
                       s.digest(ids[j], register[ids[j]], x) == s.digest(ids[j], register[ids[j]], block))
  {
    var h, register := MdzFormat.HeaderOf(s, q, file), MdzLayout.RegisterFor(s, q, file, i);
    MdzLayout.WrittenRecord(s, q, file, i, block);
    MdzLayout.BlockIsSplit(q, file, i, block);
    SameDigests(s.digest, h.blockIds, register, x, block);
    SameStored(s, h, i, x, block, register);
  }

  lemma {:induction false} SameStored(s: Setup, h: MdzFormat.Header, i: nat, x: Bytes, y: Bytes, register: KeyRegister)
    requires h.modsize > 0 && |x| == |y|
    requires register == RegisterOfBlock(h.blockIds, MdzFormat.StartKeys(s.defaults, h), h.mode, i)
    ensures Pow2(h.modsize) > 1
    ensures var limit := if h.blocksize > 32 then 0x1_0000_0000 else 256;
            MdzRoundTrip.Stored(h, MdzFormat.JobOf(s, h, x, i)) == MdzRoundTrip.Stored(h, MdzFormat.JobOf(s, h, y, i))
            <==> && Exponent(Value(x)) % limit == Exponent(Value(y)) % limit
                 && Value(x) % (Pow2(h.modsize) - 1) == Value(y) % (Pow2(h.modsize) - 1)
                 && MdzFormat.Signatures(s.digest, h.blockIds, register, x)
                    == MdzFormat.Signatures(s.digest, h.blockIds, register, y)
  {
    RemainderFits(h.modsize, 0);
    MdzLayout.StoredExponent(Exponent(Value(x)), h.blocksize);
    MdzLayout.StoredExponent(Exponent(Value(y)), h.blocksize);
  }

  lemma {:induction false} SameDigests(digest: MdzFormat.Digest, ids: seq<nat>, register: KeyRegister, x: Bytes,
                                       y: Bytes)
    requires forall j :: 0 <= j < |ids| ==> ids[j] in register
    ensures MdzFormat.Signatures(digest, ids, register, x) == MdzFormat.Signatures(digest, ids, register, y)
            <==> forall j :: 0 <= j < |ids| ==>
                   digest(ids[j], register[ids[j]], x) == digest(ids[j], register[ids[j]], y)
  {
    var a, b := MdzFormat.Signatures(digest, ids, register, x), MdzFormat.Signatures(digest, ids, register, y);
    forall j | 0 <= j < |ids|
      ensures a[j] == digest(ids[j], register[ids[j]], x) && b[j] == digest(ids[j], register[ids[j]], y)
    {
      MdzRoundTrip.SignatureIsDigest(digest, ids, register, x, j);
      MdzRoundTrip.SignatureIsDigest(digest, ids, register, y, j);
    }
  }

  /** And the file signatures agree if all digests under the registered keys do. */
  lemma {:induction false} SameFileSignaturesExactlyWhen(s: Setup, q: Request, file: Bytes, other: Bytes)
    requires Readable(s, q, file)
    ensures var ids := MdzFormat.Listed(s, q.fileList);
            && (forall j :: 0 <= j < |ids| ==> ids[j] in s.defaults)
            && (SameFileSignatures(s, q, file, other) <==>
                  forall j :: 0 <= j < |ids| ==>
                    s.digest(ids[j], s.defaults[ids[j]], other) == s.digest(ids[j], s.defaults[ids[j]], file))
  {
    MdzLayout.WrittenHeader(s, q, file);
    SameDigests(s.digest, MdzFormat.Listed(s, q.fileList), s.defaults, other, file);
  }

  /** A sequence of blocks with the lengths of the file's blocks. */
  ghost predicate Shaped(s: Setup, q: Request, file: Bytes, blocks: seq<Bytes>)
    requires q.blocksize > 0 && q.modsize > 0 && file != []
  {
    && |blocks| == |BlocksOf(s, q, file)|
    && forall i :: 0 <= i < |blocks| ==> |blocks[i]| == |BlocksOf(s, q, file)[i]|
  }

  ghost predicate SameRecords(s: Setup, q: Request, file: Bytes, blocks: seq<Bytes>)
    requires q.blocksize > 0 && q.modsize > 0 && file != [] && Shaped(s, q, file, blocks)
  {
    forall i :: 0 <= i < |blocks| ==> SameRecord(s, q, file, i, blocks[i])
  }

  lemma {:induction false} ShapedJobs(s: Setup, q: Request, file: Bytes, blocks: seq<Bytes>)
    requires q.blocksize > 0 && q.modsize > 0 && file != [] && Shaped(s, q, file, blocks)
    ensures var h := MdzFormat.HeaderOf(s, q, file);
            MdzRoundTrip.AllStored(h, MdzFormat.JobsOf(s, h, blocks))
            == MdzRoundTrip.AllStored(h, MdzFormat.JobsOf(s, h, BlocksOf(s, q, file)))
            <==> SameRecords(s, q, file, blocks)
  {
    var h := MdzFormat.HeaderOf(s, q, file);
    var js := MdzRoundTrip.AllStored(h, MdzFormat.JobsOf(s, h, blocks));
    var ks := MdzRoundTrip.AllStored(h, MdzFormat.JobsOf(s, h, BlocksOf(s, q, file)));
    forall i | 0 <= i < |blocks|
      ensures js[i] == ks[i] <==> SameRecord(s, q, file, i, blocks[i])
    {
    }
    if js == ks {
      assert forall i :: 0 <= i < |blocks| ==> js[i] == ks[i];
    }
  }

  /** The file made up of such blocks has the same archive exactly if every block is stored as
      the original and the file signatures are those of the original. */
  lemma {:induction false} SameArchiveExactlyWhen(s: Setup, q: Request, file: Bytes, blocks: seq<Bytes>)
    requires Readable(s, q, file) && Shaped(s, q, file, blocks)
    ensures |Join(blocks)| == |file|
    ensures MdzFormat.Encode(s.reg, MdzFormat.Zipped(s, q, Join(blocks)))
            == MdzFormat.Encode(s.reg, MdzFormat.Zipped(s, q, file))
            <==> SameRecords(s, q, file, blocks) && SameFileSignatures(s, q, file, Join(blocks))
  {
    var h := MdzFormat.HeaderOf(s, q, file);
    BlocksOfOutput(file, h.blocksize, blocks);
    SameBytesExactlyWhen(s, q, file, Join(blocks));
    ShapedJobs(s, q, file, blocks);
  }

  // ---------- zipping what was unzipped ----------

  /** Every completed unzip zips to the same bytes again. */
  ghost predicate AlwaysRezips(s: Setup, q: Request, file: Bytes, T: nat, lastThread: nat, care: Care)
    requires Readable(s, q, file) && T >= 1
  {
    forall actions: seq<Action> :: UnzippedFile(s, q, file, T, lastThread, care, actions).Some? ==>
      Rezips(s, q, file, Join(OutputBlocks(UnzippedFile(s, q, file, T, lastThread, care, actions).value)))
  }

  ghost predicate Rezips(s: Setup, q: Request, file: Bytes, out: Bytes)
    requires Readable(s, q, file)
  {
    && out != []
    && MdzFormat.Encode(s.reg, MdzFormat.Zipped(s, q, out)) == MdzFormat.Encode(s.reg, MdzFormat.Zipped(s, q, file))
  }

  /** What any thread finds for the block is stored as the block is. */
  ghost predicate FindsKeepRecord(s: Setup, q: Request, file: Bytes, T: nat, blk: nat)
    requires q.blocksize > 0 && q.modsize > 0 && file != [] && T >= 1 && blk < |BlocksOf(s, q, file)|
  {
    var c := SearchFor(s, q, file, T);
    forall t: nat, k: nat :: Finds(c, blk, t, k) ==> SameRecord(s, q, file, blk, c.candidate(blk, t, k))
  }

  ghost predicate FindsKeepRecords(s: Setup, q: Request, file: Bytes, T: nat)
    requires q.blocksize > 0 && q.modsize > 0 && file != [] && T >= 1
  {
    forall blk :: 0 <= blk < |BlocksOf(s, q, file)| ==> FindsKeepRecord(s, q, file, T, blk)
  }

  /** Whatever combination of finds is put together, the file signatures are the original ones. */
  ghost predicate OutputsKeepFileSignatures(s: Setup, q: Request, file: Bytes, T: nat)
    requires q.blocksize > 0 && q.modsize > 0 && file != [] && T >= 1
  {
    forall output: seq<Written> :: Possible(SearchFor(s, q, file, T), output, |TasksRead(s, q, file)|) ==>
      SameFileSignatures(s, q, file, Join(OutputBlocks(output)))
  }

  lemma {:induction false} OutputIsShaped(s: Setup, q: Request, file: Bytes, T: nat, lastThread: nat, care: Care,
                                          actions: seq<Action>)
    requires Readable(s, q, file) && T >= 1 && Safe(SearchFor(s, q, file, T), lastThread, care)
    requires AllFound(TasksRead(s, q, file), Modulus(q), T)
    requires UnzippedFile(s, q, file, T, lastThread, care, actions).Some?
    ensures var out := UnzippedFile(s, q, file, T, lastThread, care, actions).value;
            && Shaped(s, q, file, OutputBlocks(out))
            && (forall i :: 0 <= i < |out| ==> out[i].blk == i && Genuine(SearchFor(s, q, file, T), out[i]))
            && Possible(SearchFor(s, q, file, T), out, |TasksRead(s, q, file)|)
  {
    ReadBackIs(s, q, file);
    OneForEach(TasksRead(s, q, file), Modulus(q), T, lastThread, care, actions);
    SafeRunsAreSound(SearchFor(s, q, file, T), lastThread, actions, care);
    var out := UnzippedFile(s, q, file, T, lastThread, care, actions).value;
    forall i | 0 <= i < |out|
      ensures |OutputBlocks(out)[i]| == |BlocksOf(s, q, file)[i]|
    {
      assert Genuine(SearchFor(s, q, file, T), out[i]);
    }
  }

  lemma {:induction false} GoodFindsKeepRecords(s: Setup, q: Request, file: Bytes, T: nat, out: seq<Written>)
    requires Readable(s, q, file) && T >= 1 && FindsKeepRecords(s, q, file, T)
    requires Shaped(s, q, file, OutputBlocks(out))
    requires forall i :: 0 <= i < |out| ==> out[i].blk == i && Genuine(SearchFor(s, q, file, T), out[i])
    ensures SameRecords(s, q, file, OutputBlocks(out))
  {
    var c := SearchFor(s, q, file, T);
    forall i | 0 <= i < |out|
      ensures SameRecord(s, q, file, i, OutputBlocks(out)[i])
    {
      assert FindsKeepRecord(s, q, file, T, i);
      assert Finds(c, i, out[i].thread, out[i].k);
    }
  }

  lemma {:induction false} GoodFindsRezip(s: Setup, q: Request, file: Bytes, T: nat, lastThread: nat, care: Care,
                                          actions: seq<Action>)
    requires Readable(s, q, file) && T >= 1 && Safe(SearchFor(s, q, file, T), lastThread, care)
    requires AllFound(TasksRead(s, q, file), Modulus(q), T)
    requires FindsKeepRecords(s, q, file, T) && OutputsKeepFileSignatures(s, q, file, T)
    requires UnzippedFile(s, q, file, T, lastThread, care, actions).Some?
    ensures Rezips(s, q, file, Join(OutputBlocks(UnzippedFile(s, q, file, T, lastThread, care, actions).value)))
  {
    var out := UnzippedFile(s, q, file, T, lastThread, care, actions).value;
    OutputIsShaped(s, q, file, T, lastThread, care, actions);
    GoodFindsKeepRecords(s, q, file, T, out);
    SameArchiveExactlyWhen(s, q, file, OutputBlocks(out));
  }

  /** A block that nobody finds. */
  lemma {:induction false} LostBlockSpoils(s: Setup, q: Request, file: Bytes, T: nat, lastThread: nat, care: Care,
                                           blk: nat)
    requires Readable(s, q, file) && T >= 1 && Safe(SearchFor(s, q, file, T), lastThread, care)
    requires blk < |TasksRead(s, q, file)| && !SomeoneFinds(SearchFor(s, q, file, T), blk)
    ensures !AlwaysRezips(s, q, file, T, lastThread, care)
  {
    ReadBackIs(s, q, file);
    var actions := NotFoundIsLost(TasksRead(s, q, file), file, MdzFormat.HeaderOf(s, q, file).blocksize, Modulus(q), T,
                                  lastThread, care, blk);
    var out := Join(OutputBlocks(UnzippedFile(s, q, file, T, lastThread, care, actions).value));
    if out != [] {
      SameBytesExactlyWhen(s, q, file, out);
    }
    assert !Rezips(s, q, file, out);
  }

  /** A find that would be stored otherwise. */
  lemma {:induction false} BadFindSpoils(s: Setup, q: Request, file: Bytes, T: nat, lastThread: nat, care: Care,
                                         blk: nat, t: nat, k: nat)
    requires Readable(s, q, file) && T >= 1 && Safe(SearchFor(s, q, file, T), lastThread, care)
    requires AllFound(TasksRead(s, q, file), Modulus(q), T)
    requires blk < |BlocksOf(s, q, file)| && Finds(SearchFor(s, q, file, T), blk, t, k)
    requires !SameRecord(s, q, file, blk, SearchFor(s, q, file, T).candidate(blk, t, k))
    ensures !AlwaysRezips(s, q, file, T, lastThread, care)
  {
    ReadBackIs(s, q, file);
    var actions := FindCanBeWritten(TasksRead(s, q, file), Modulus(q), T, lastThread, care, blk, t, k);
    var out := OutputBlocks(UnzippedFile(s, q, file, T, lastThread, care, actions).value);
    OutputIsShaped(s, q, file, T, lastThread, care, actions);
    SameArchiveExactlyWhen(s, q, file, out);
    assert !SameRecord(s, q, file, blk, out[blk]);
    assert !Rezips(s, q, file, Join(out));
  }

  /** A combination of finds with other file signatures. */
  lemma {:induction false} BadOutputSpoils(s: Setup, q: Request, file: Bytes, T: nat, lastThread: nat, care: Care,
                                           output: seq<Written>)
    requires Readable(s, q, file) && T >= 1 && Safe(SearchFor(s, q, file, T), lastThread, care)
    requires AllFound(TasksRead(s, q, file), Modulus(q), T)
    requires Possible(SearchFor(s, q, file, T), output, |TasksRead(s, q, file)|)
    requires !SameFileSignatures(s, q, file, Join(OutputBlocks(output)))
    ensures !AlwaysRezips(s, q, file, T, lastThread, care)
  {
    ReadBackIs(s, q, file);
    var c := SearchFor(s, q, file, T);
    var actions, end := RunTo(c, lastThread, care, output, c.blocks);
    assert UnzippedFile(s, q, file, T, lastThread, care, actions) == Some(output);
    OutputIsShaped(s, q, file, T, lastThread, care, actions);
    SameArchiveExactlyWhen(s, q, file, OutputBlocks(output));
    assert !Rezips(s, q, file, Join(OutputBlocks(output)));
  }

  /** For every number of threads and every file whose archive the reader accepts: each completed
      safe unzip zips to the same bytes again exactly when every block is found, everything a
      thread finds for a block is stored as the block is, and no combination of finds has other
      file signatures. */
  lemma {:induction false} AlwaysRezipsExactlyWhen(s: Setup, q: Request, file: Bytes, T: nat, lastThread: nat,
                                                   care: Care)
    requires Readable(s, q, file) && T >= 1 && Safe(SearchFor(s, q, file, T), lastThread, care)
    ensures AlwaysRezips(s, q, file, T, lastThread, care)
            <==> && AllFound(TasksRead(s, q, file), Modulus(q), T)
                 && FindsKeepRecords(s, q, file, T) && OutputsKeepFileSignatures(s, q, file, T)
  {
    var c, tasks := SearchFor(s, q, file, T), TasksRead(s, q, file);
    if !AllFound(tasks, Modulus(q), T) {
      var blk :| 0 <= blk < |tasks| && !SomeoneFinds(c, blk);
      LostBlockSpoils(s, q, file, T, lastThread, care, blk);
    } else if !FindsKeepRecords(s, q, file, T) {
      var blk :| 0 <= blk < |BlocksOf(s, q, file)| && !FindsKeepRecord(s, q, file, T, blk);
      var t: nat, k: nat :| Finds(c, blk, t, k) && !SameRecord(s, q, file, blk, c.candidate(blk, t, k));
      BadFindSpoils(s, q, file, T, lastThread, care, blk, t, k);
    } else if !OutputsKeepFileSignatures(s, q, file, T) {
      var output: seq<Written> :|
        Possible(c, output, |tasks|) && !SameFileSignatures(s, q, file, Join(OutputBlocks(output)));
      BadOutputSpoils(s, q, file, T, lastThread, care, output);
    } else {
      forall actions: seq<Action> | UnzippedFile(s, q, file, T, lastThread, care, actions).Some?
        ensures Rezips(s, q, file, Join(OutputBlocks(UnzippedFile(s, q, file, T, lastThread, care, actions).value)))
      {
        GoodFindsRezip(s, q, file, T, lastThread, care, actions);
      }
    }
  }
}
