# Verification of the mdzip codec and its signature lists

mdzip replaces every block of a file by a short record: signatures of the block, the exponent
of the power of two below it, and its remainder modulo 2^m - 1. mdunzip rebuilds a block by
letting T threads search the numbers with that remainder for one with the recorded signatures.
This project models both directions and proves what comes back, for every file, every key,
every list of signatures and every number of threads. The threads are interleaved step by step.
Two of the controller's accesses to shared data are unprotected; the theorems say for every
search, before it starts, whether all interleavings can be trusted, and what comes back if they
can or if these two accesses come at the right moment. It covers both archive formats, `.mdz`
with several signatures and stepped keys and the minimal `.mdsz`, the packed exponent stream,
and the Go programs' signature lists, key lists, block check and file dump.

`dafny verify dfyconfig.toml` checks everything. Signature algorithms are arbitrary functions;
big integers are mathematical integers. Objects whose methods change fields are classes, loops
are methods with invariants, and each is tied to a specification function about which the
theorems are proved. What these functions compute is in turn stated without them: in bytes of
the archive (`SimpleFormat.RecordLayout`, `MdzLayout`), in bits of the stream
(`ExponentStream.NarrowLayout`), in digests of the file's own slices (`MdzLayout.SignatureLayout`),
in numbers of a key (`IncrementKey.BlockKeyInNumbers`), in parts of a dumped file
(`DumpLayout.DumpShowsParts`), and from the text of a list to what it selects
(`SignatureGrammar.CsvNamesInOrder`, `KeyList.LastEntryDecides`).

| module | models |
|---|---|
| `Bytes`, `Common`, `Wrappers`, `Sums`, `Layout`, `Dedup`, `Text` | numbers as byte strings, block arithmetic, padding in place, sums of sizes, what stands where, deduplication, text |
| `Bitstream`, `ExponentStream` | bit packing, the exponent stream in its formats 2 to 7 |
| `IncrementKey`, `HashRegistry` | key stepping and key schedule, signature numbers and names |
| `ModulusScan`, `BlockSearch` | one search thread, the search for a list of records |
| `SearchProtocol`, `SearchSafety`, `SearchProgress`, `SearchRaces` | the controller and its threads as interleaved steps: the invariant, what all runs of a safe search keep, the runs that exist, the races |
| `SimpleFormat`, `SimpleUnzip`, `SimpleLimits` | the `.mdsz` format, its validator, unzip end to end, what it cannot promise |
| `MdzFormat`, `MdzRoundTrip`, `MdzSize`, `MdzLayout`, `MdzPrograms`, `MdzUnzip`, `MdzRezip` | the `.mdz` format: specification, round trip, size law, the archive byte by byte and the keys of its blocks, the programs, unzip end to end, zipping again |
| `SignatureList`, `SignatureGrammar`, `HashContext`, `KeyList`, `DumpReader`, `DumpLayout` | the Go programs |

## What the code does differently from what it says

These are results: each is a lemma that says exactly when the stated property holds.

- The exponent of a block is floor(log2(b + 1)), at least 1 (`Common.CalcExponent`), so a block
  2^k - 1 gets k, not k - 1. Therefore 32 bytes 0xFF have exponent 256, which a one-byte field
  stores as 0 (`Common.OneByteExponent`, `MdzRoundTrip.SurvivesExactlyWhen`), and 16 bytes 0xFF
  do not fit the 7-bit stream (`Common.SevenBitExponent`).
- The reader rejects archives below 48 bytes. Without signatures that happens exactly if the
  records take less than eight bytes (`MdzSize.UnsignedIsTurnedAwayExactlyWhen`); the archive of
  one byte with modulus size 32 and block list 0 has 45 (`MdzSize.OneByteFileIsTurnedAway`).
- The validators keep the record total in an `int` and, for `.mdz`, add the registry's key
  sizes whether or not keys were written; Pengyhash is registered with 4 key bytes and writes 8
  (`SimpleFormat.ValidatesExactlyWhen`, `MdzSize.ValidatesExactlyWhen`).
- Only signatures are compared, so a found block can have another exponent than the record, and
  then zips to another archive (`SimpleUnzip.AlwaysRezipsExactlyWhen`,
  `MdzRezip.AlwaysRezipsExactlyWhen`, `SimpleLimits.ForeignFindChangesRecord`). No hash and no
  key prevent that some file of one block is not given back (`SimpleLimits.SomeFileIsLost`).
- The controller reads the thread number without the lock, and a thread that gives up writes
  `stopped` twice. A run is careful if the number is read when some thread has stored it, or
  names one that is about to, and a thread object is prepared after its last write. Without that
  care all runs are sound exactly if no thread finds a block but the one the stale number names,
  and no thread gives up a block before the last one (`SearchRaces.SoundExactlyWhen`). That
  leaves one block, or one thread that finds every block before the last one, and an unset
  thread number that happens to be right (`BlockSearch.NeedsNoCareExactlyWhen`): for one thread
  and a minimal archive, that it is 0 (`SimpleUnzip.AllRunsSoundExactlyWhen`). With two threads
  and two blocks some run always goes wrong (`BlockSearch.SeveralNeedCare`).
  `SimpleLimits.StaleNumberAtExample` shows the first accident at a concrete file and any hash,
  `SimpleLimits.ProgramEndsBeforeItsThread` the second at a concrete file, for every hash that
  tells its block from the numbers thread 0 tests until it first looks at the ceiling.
- With modulus size 1 a first block of zeros is never found (`BlockSearch.OutOfReachIsNeverFound`).
  The block whose exponent is truncated is still reached exactly if its owner gets to it by its
  first look at the ceiling (`MdzUnzip.TruncatedIsReachedExactlyWhen`), and then it is found
  (`MdzUnzip.ReachedBlockIsFound`).
- A list that is a single number is taken for bits, and then selects other signatures, exactly if
  it is not 1 and all its digits are ones and zeros
  (`SignatureGrammar.NumberIsTakenForBitsExactlyWhen`).
- A range from 0 to 9223372036854775807 or more never ends, because the loop counter wraps around
  (`SignatureGrammar.RangeFromZeroEndsExactlyWhen`).

## Model

| member | source | states |
|---|---|---|
| Bytes.ReadDigit | code/mdzip_cpp/mdZip.cpp:309 | the bytes of a number are its base-256 digits: least significant first for the stored integers, last for blocks and remainders |
| Bytes.LittleDigit | code/mdzip_cpp/mdZip.cpp:199-202 | byte i of a stored integer is its digit i |
| Bytes.FixedDigit | code/mdzip_cpp/mdZip.cpp:328-336 | byte n - 1 - i of an exported and padded number is its digit i |
| Common.CalcExponent | code/mdzip_cpp/mdCore/mdCommon.h:131-158 | the doubling loop returns the one e >= 1 with 2^e - 1 <= b < 2^(e+1) - 1 (e = 1 for 0) |
| Common.ExponentIsHighestBitUnlessAllOnes | code/mdzip_cpp/mdCore/mdCommon.h:125-158 | the exponent is the highest bit exactly for blocks that are not of the form 2^k - 1, for which it is one more |
| Common.OneByteExponent | code/mdzip_cpp/mdZip.cpp:318-326 | for blocks of up to 32 bytes the one-byte field keeps the exponent exactly unless the block is 32 bytes 0xFF |
| Common.SevenBitExponent | code/mdzip_cpp/mdCore/mdBitstream.h:545-548 | for blocks of up to 16 bytes seven bits hold the exponent exactly unless the block is 16 bytes 0xFF |
| Common.RemainderFits | code/mdzip_cpp/mdCore/mdCommon.h:32-50 | every remainder fits its field, which is the shortest one of whole bytes |
| Common.FileBlocksCover | code/mdzip_cpp/mdCore/mdCommon.h:53-86 | block count and last block size cover the file exactly |
| Common.FileBlocksUnique | code/mdzip_cpp/mdCore/mdCommon.h:53-86 | that equation determines count and last size |
| Common.SplitCount | code/mdzip_cpp/mdZip.cpp:150-154 | the computed count and remainder are those of the file cut into blocks, all full but the last |
| Common.SplitSlice | code/mdzip_cpp/mdZip.cpp:286-298 | block i of a file is what stands from byte i * blocksize up to the next block or the end, and there is one as long as that is inside the file |
| Common.PadBlockBytes | code/mdzip_cpp/mdCore/mdCommon.h:14-29 | moves the exported digits to the right end in place and clears the rest; the byte behind the block is overwritten, or the write outside of a buffer of exactly that size is reported |
| Common.ExportPadded | code/mdzip_cpp/mdZip.cpp:328-333 | export and padding leave the number's digits in the field, or its most significant ones if it is too large, and change what is behind it in a stated way; a write outside of the buffer is reported |
| Bitstream.AddField | code/mdzip_cpp/external/bitstream/Bitstream.h:190-223 | setting a field of clear bits changes exactly those bits |
| Bitstream.FieldReadBack | code/mdzip_cpp/external/bitstream/Bitstream.h:118-153 | a field reads back as the low bits of what was put |
| Bitstream.ShiftsAndMasks | code/mdzip_cpp/external/bitstream/Bitstream.h:118-153 | the shifts are division and multiplication by 2^k, the mask is the remainder |
| Bitstream.BufferBit | code/mdzip_cpp/external/bitstream/Bitstream.h:118-153 | bit k of the stream is bit 7 - k % 8 of byte k / 8 |
| Bitstream.FieldDigit | code/mdzip_cpp/external/bitstream/Bitstream.h:118-153 | a field is the number with its bits as digits, the first one most significant |
| Bitstream.BitstreamWriter.Put | code/mdzip_cpp/external/bitstream/Bitstream.h:190-223 | appends exactly the low n bits, across any number of byte borders, and keeps the rest clear |
| Bitstream.BitstreamReader.Get | code/mdzip_cpp/external/bitstream/Bitstream.h:118-153 | returns the n bits at the cursor and advances it |
| ExponentStream.WidthIsLeast | code/mdzip_cpp/mdCore/mdBitstream.h:130-138 | the chosen width is the least of 2 to 6 that holds the spread, except that 8, 16, 32 and more than 63 use 7 |
| ExponentStream.WidthIsSound | code/mdzip_cpp/mdCore/mdBitstream.h:346-383 | after the scan every offset of a block before the last fits the width |
| ExponentStream.BufferBound | code/mdzip_cpp/mdCore/mdBitstream.h:181-203 | no writer runs over its buffer: slack below 8 bits in format 7, between f and f + 7 in the others |
| ExponentStream.StreamBytes | code/mdzip_cpp/mdCore/mdBitstream.h:181-203 | the stream takes n f bits, and 14 more below format 7, rounded up to bytes |
| ExponentStream.ReaderStaysInside | code/mdzip_cpp/mdZip/mdUnzip47.h:568-615 | the reading loop stays inside a buffer of the computed size, for any format byte |
| ExponentStream.NarrowRoundTrip | code/mdzip_cpp/mdCore/mdBitstream.h:389-492 | the narrow stream of a scan decodes to the exponents exactly when the base (if used) and the last exponent are below 128 |
| ExponentStream.PlainRoundTrip | code/mdzip_cpp/mdCore/mdBitstream.h:495-570 | the 7-bit stream decodes to the exponents exactly when all are below 128 |
| ExponentStream.NarrowLayout | code/mdzip_cpp/mdCore/mdBitstream.h:389-492 | the narrow stream holds the base in 7 bits, then from bit 7 + i f on the distance of each exponent before the last in f bits, then the last in 7 bits |
| ExponentStream.PlainLayout | code/mdzip_cpp/mdCore/mdBitstream.h:495-570 | the 7-bit stream holds exponent i from bit 7 i on |
| ExponentStream.DecodedAt | code/mdzip_cpp/mdZip/mdUnzip47.h:568-616 | what is read for block i in each format: which bits, and whether the base is added |
| ExponentStream.NarrowRefinesPlain | code/mdzip_cpp/mdCore/mdBitstream.h:389-570 | on exponents below 128 the adaptive and the plain stream decode alike |
| ExponentStream.MdBitstream.CalcMinMaxExponent | code/mdzip_cpp/mdCore/mdBitstream.h:306-386 | the scan finds minimum without the last block, maximum with it, and sets the format for their difference |
| ExponentStream.MdBitstream.CalcBitstreamSize | code/mdzip_cpp/mdCore/mdBitstream.h:181-203 | bit and byte size of the stream |
| ExponentStream.MdBitstream.MdzipModExponentBitstream26 | code/mdzip_cpp/mdCore/mdBitstream.h:389-492 | the buffer and the reader hold the narrow stream of all blocks |
| ExponentStream.MdBitstream.MdzipModExponentBitstream | code/mdzip_cpp/mdCore/mdBitstream.h:495-570 | the reader holds the 7-bit stream of all blocks; the member buffer is untouched |
| ExponentStream.ReadExponents | code/mdzip_cpp/mdZip/mdUnzip47.h:568-616 | the reading loop computes the decoding function for every format and buffer |
| ExponentStream.StreamExponents | code/mdzip_cpp/mdZip/mdZip47.h:369-457 | scan, write and read back return every exponent exactly when: in format 7 all are below 128, in the others the base (with more than one block) and the last exponent are |
| IncrementKey.IncrementByteblock | code/mdzip_cpp/mdCore/mdIncrementKey.h:3-35 | steps a key in its register in place, and says what padding or a carry does to the bytes behind it |
| IncrementKey.StepIsExact | code/mdzip_cpp/mdCore/mdIncrementKey.h:15-27 | a step adds or subtracts exactly on the big-endian value precisely when the result is in range |
| IncrementKey.RunIsExact | code/mdzip_cpp/mdCore/mdIncrementKey.h:3-35 | a run of steps totals its counters precisely when the total is in range |
| IncrementKey.DecrementUndoesIncrement | code/mdzip_cpp/mdCore/mdIncrementKey.h:15-20 | runs of equal total in opposite directions cancel |
| IncrementKey.KeyOfBlockValue | code/mdzip_cpp/mdCore/mdHashContextList.h:2176-2188 | block i is signed with the start key plus or minus i(i+1)/2 precisely while that is in range |
| IncrementKey.BlockKeyInNumbers | code/mdzip_cpp/mdCore/mdHashContextList.h:639-643 | in the register of block i the key of a listed signature 30 or 31 is the start key plus or minus i(i+1)/2 exactly while that is between 0 and 2^128 |
| IncrementKey.OtherKeysStay | code/mdzip_cpp/mdCore/mdHashContextList.h:634-648 | every other key is the start key at every block |
| IncrementKey.StepMovesSipKeys | code/mdzip_cpp/mdCore/mdHashContextList.h:624-650 | one step adds the counter to, or subtracts it from, exactly the listed keys of signatures 30 and 31; a negative result loses its sign, one of 17 bytes its last byte |
| IncrementKey.HashContextList.IncrementBlockNum | code/mdzip_cpp/mdCore/mdHashContextList.h:2181-2188 | steps the listed keys of signatures 30 and 31 by the counter, in numbers, from the second block on, leaves all others, and counts the block |
| IncrementKey.HashContextList.IncrementBlockKeyList | code/mdzip_cpp/mdCore/mdHashContextList.h:624-650 | moves exactly the listed keys of signatures 30 and 31 by the counter, in numbers, each once |
| IncrementKey.ScheduleAdvances | code/mdzip_cpp/mdCore/mdHashContextList.h:2181-2188 | one call per block makes the keys a function of the block number, so writer and reader agree |
| Dedup.FirstOccurrencesProperties | code/mdzip_cpp/mdCore/mdCommon.h:227-238 | the deduplicated list has the same elements, none twice, each at the place of its first occurrence |
| HashRegistry.RemoveDup | code/mdzip_cpp/mdCore/mdCommon.h:230-238 | deduplicates in place |
| HashRegistry.VectorIsValid | code/mdzip_cpp/mdCore/mdHashContextList.h:166-182 | the signature list holds exactly the valid numbers asked for, each once |
| HashRegistry.SetVectorHL | code/mdzip_cpp/mdCore/mdHashContextList.h:166-182 | computes that list |
| HashRegistry.SetVectorHLString | code/mdzip_cpp/mdCore/mdHashContextList.h:189-212 | computes the list for a string of names; unknown names are passed over |
| HashRegistry.NamesRoundTrip | code/mdzip_cpp/mdCore/mdHashContextList.h:189-212 | a list written as names is read back as the same list |
| HashRegistry.NamesLayout | code/mdzip_cpp/mdCore/mdHashContextList.h:2081-2097 | in the written string each name stands behind the names and colons before it, with a byte 58 behind every name but the last |
| ModulusScan.ScanCovers | code/mdzip_cpp/mdCore/modscanFile.h:97-136 | the numbers T threads test are exactly those with the remainder that are not below the start |
| ModulusScan.VisitedOnce | code/mdzip_cpp/mdCore/modscanFile.h:114-128 | every candidate belongs to one thread and one step |
| ModulusScan.ScanIsComplete | code/mdzip_cpp/mdCore/modscanFile.h:98-112 | with its own remainder and exponent a block value is reached exactly unless it is zero and the floor is taken for modulus 1 |
| ModulusScan.SomeThreadTests | code/mdzip_cpp/mdCore/modscanFile.h:97-136 | such a block value is the candidate of one thread in one step, for any number of threads |
| ModulusScan.FloorIsLargest | code/mdzip_cpp/mdCore/modscanFile.h:97-108 | the scan starts above the largest multiple of the modulus below 2^exponent |
| ModulusScan.QuitsExactlyWhen | code/mdzip_cpp/mdCore/modscanFile.h:143-193 | thread t can give up exactly when it has tested a multiple of 101000001 + 1000000 t numbers and has passed the ceiling |
| ModulusScan.ModScan.SetModscan | code/mdzip_cpp/mdCore/modscanFile.h:76-136 | start, stride and ceiling of a thread for the first block |
| ModulusScan.ModScan.ResetThread | code/mdzip_cpp/mdCore/modscanFile.h:249-306 | the same for later blocks, with the floor taken for the stride of all threads |
| ModulusScan.ModScan.Decode | code/mdzip_cpp/mdCore/modscanFile.h:139-198 | stops at the first match, gives up only when counter and ceiling are passed, tests every candidate before, and reports a candidate that runs over the buffer |
| SearchProtocol.StepKeepsInvExactlyWhen | code/mdzip_cpp/mdUnzip.cpp:704-782 | of all steps of controller and threads exactly the careful ones keep the protocol invariant |
| SearchProtocol.FetchAccepts | code/mdzip_cpp/mdCore/mdMutex.h:54-61 | the unprotected read names a thread that passed the test exactly when a number was stored since the reset or the named thread is itself entering setMatched |
| SearchSafety.SafeRunsAreSound | code/mdzip_cpp/mdUnzip.cpp:648-782 | in every run of a safe search, careful or not, each round starts clean, each written block was matched in its own round by the thread it was taken from, file order holds, and at the end a block is missing only if every thread gave it up |
| SearchSafety.FetchesAcceptedExactlyWhen | code/mdzip_cpp/mdUnzip.cpp:736-745 | along any run whose thread objects are prepared in time, all thread numbers fetched so far were right exactly when each fetch came at the right moment |
| SearchProgress.OutputsExactly | code/mdzip_cpp/mdUnzip.cpp:648-782 | a safe search can end with exactly these outputs: for each block that is found any find of any thread, in file order |
| SearchProgress.AnyFindCanBeWritten | code/mdzip_cpp/mdUnzip.cpp:648-782 | if every block is found by some thread or given up by all, each find of each thread is written by some completed run |
| SearchProgress.SearchCanComplete | code/mdzip_cpp/mdUnzip.cpp:648-782 | then some run is done |
| SearchRaces.StaleNumberRun | code/mdzip_cpp/mdCore/mdMutex.h:54-61 | if a thread finds a block before which the stale number names another one, a run takes over the stale number |
| SearchRaces.LateStopRun | code/mdzip_cpp/mdCore/modscanFile.h:180-195 | if a thread gives up a block before the last one, a run starts a later round, or ends, while that thread is still running |
| SearchRaces.SoundExactlyWhen | code/mdzip_cpp/mdUnzip.cpp:704-782 | all runs keep the promises exactly in a safe search, a condition on the configuration |
| BlockSearch.SetThread | code/mdzip_cpp/mdUnzip.cpp:691-709 | setting up the thread objects makes them test the numbers of the search |
| BlockSearch.RunThread | code/mdzip_cpp/mdCore/modscanFile.h:139-198 | the outcome of the scan loop is what the protocol says of the thread: the find, giving up, or neither yet |
| BlockSearch.ThreadsEnd | code/mdzip_cpp/mdCore/modscanFile.h:139-198 | every thread finds something for a block or gives it up, never both |
| BlockSearch.ZeroExponentIsReachedExactlyWhen | code/mdzip_cpp/mdCore/modscanFile.h:139-198 | with stored exponent 0 the number of the block is tested exactly if its owner gets to it by its first look at the ceiling |
| BlockSearch.SearchIsSoundExactlyWhen | code/mdzip_cpp/mdUnzip.cpp:648-782 | for any list of records all runs are sound exactly if the search is safe |
| BlockSearch.NeedsNoCareExactlyWhen | code/mdzip_cpp/mdUnzip.cpp:648-782 | for any list of records the search is safe without care exactly if no other thread than the one the unset number names finds the first block, and there is one block or one thread that finds every block before the last |
| BlockSearch.OneThreadIsSafeExactlyWhen | code/mdzip_cpp/mdUnzip.cpp:648-782 | for one thread, which of the two accesses can do harm: the unset number, and a block before the last that is not found |
| BlockSearch.SeveralNeedCare | code/mdzip_cpp/mdUnzip.cpp:648-782 | with two or more threads and blocks it never is, and some run goes wrong |
| BlockSearch.BlocksInReachAreFound | code/mdzip_cpp/mdCore/modscanFile.h:139-198 | a block in reach is never given up by the thread that owns it |
| BlockSearch.ReachedIsFound | code/mdzip_cpp/mdCore/modscanFile.h:139-198 | a block whose number some thread gets to and that passes its test is found |
| BlockSearch.OutOfReachIsNeverFound | code/mdzip_cpp/mdCore/modscanFile.h:97-165 | with modulus 1 nothing any thread ever tests is a zero first block |
| BlockSearch.FoundBlocksAreWritten | code/mdzip_cpp/mdUnzip.cpp:648-782 | for any list of records a completed safe search has written, in file order, something for exactly the blocks that some thread finds, of their length and accepted by their test |
| BlockSearch.SearchRecovers | code/mdzip_cpp/mdUnzip.cpp:648-782 | when a safe search is done there is one block per block of the file, in order, of the same length and accepted by its test |
| BlockSearch.FindCanBeWritten | code/mdzip_cpp/mdUnzip.cpp:648-782 | whatever some thread finds for a block is what some completed search writes for it |
| BlockSearch.SearchCanBeCompleted | code/mdzip_cpp/mdUnzip.cpp:648-782 | the search for any list of records can be completed |
| BlockSearch.FileComesBackExactlyWhen | code/mdzip_cpp/mdUnzip.cpp:648-782 | for any number of threads every completed safe search gives the file back exactly when every block is found and its threads can find nothing but the blocks |
| BlockSearch.OneThreadComesBackExactlyWhen | code/mdzip_cpp/mdUnzip.cpp:648-782 | for one thread and the thread number 0 from the start this holds of all runs, safe or not |
| BlockSearch.SearchIsIdentity | code/mdzip_cpp/mdUnzip.cpp:648-782 | if every block is found and nothing else that a thread can come to test passes, a safe search gives back the blocks of the file |
| SimpleFormat.MdzipFileNoHeader | code/mdzip_cpp/mdZipSimple.cpp:97-245 | writes the archive of the file, nothing for an empty one |
| SimpleFormat.ReadArchive | code/mdzip_cpp/mdUnzipSimple.cpp:352-500 | reads header and records |
| SimpleFormat.ParseOfZip | code/mdzip_cpp/mdZipSimple.cpp:143-228 | the archive of a file is read back whole, nothing truncated |
| SimpleFormat.SameArchive | code/mdzip_cpp/mdZipSimple.cpp:143-228 | equal archives exactly for equal lengths and records |
| SimpleFormat.SizeLaw | code/mdzip_cpp/mdUnzipSimple.cpp:188-204 | an archive has 16 + 13 * ceil(L / 14) bytes |
| SimpleFormat.HeaderLayout | code/mdzip_cpp/mdZipSimple.cpp:145-147 | the archive starts with the file size and the key, eight bytes each, and has 16 + 13 * ((L + 13) / 14) bytes |
| SimpleFormat.RecordLayout | code/mdzip_cpp/mdZipSimple.cpp:179-228 | at 16 + 13 i stand the digest of the i-th 14 bytes of the file, its exponent in one byte and its remainder modulo 2^32 - 1, most significant byte first |
| SimpleFormat.AcceptedExactlyWhen | code/mdzip_cpp/mdUnzipSimple.cpp:352-500 | the reader accepts exactly the files of 24 bytes or more with 13 bytes for each announced block |
| SimpleFormat.ValidatesLengthExactlyWhen | code/mdzip_cpp/mdUnzipSimple.cpp:157-218 | of the files that announce a size exactly those as long as its archive are accepted, until the int total wraps around |
| SimpleFormat.ValidatesExactlyWhen | code/mdzip_cpp/mdUnzipSimple.cpp:197-216 | the validator's predicate, to which ValidateMdzip is proved equal, holds of the encoder's output exactly while the records take less than 2^31 bytes |
| SimpleFormat.SignedNumbers | code/mdzip_cpp/mdUnzipSimple.cpp:188-204 | the total is reduced to a signed 32-bit number, the announced size read as a signed long |
| SimpleUnzip.AllRunsSoundExactlyWhen | code/mdzip_cpp/mdUnzipSimple.cpp:483-597 | all runs of an unzip are sound exactly: for one thread, if the unset thread number is 0; for more, if the file is one block and no other thread than the one that number names finds it |
| SimpleUnzip.OneThreadNeedsNoCare | code/mdzip_cpp/mdUnzipSimple.cpp:483-597 | one thread and the thread number 0 from the start make every run safe |
| SimpleUnzip.UnzipRecovers | code/mdzip_cpp/mdUnzipSimple.cpp:483-597 | every completed safe unzip yields one block per block of the file, in order, with its length and signature |
| SimpleUnzip.UnzipOfZipIsIdentity | code/mdzip_cpp/mdUnzipSimple.cpp:483-597 | a safe unzip of a zip is the file if for no block a thread can come to test anything else with its signature |
| SimpleUnzip.UnzipIsIdentityExactlyWhen | code/mdzip_cpp/mdUnzipSimple.cpp:483-597 | for any number of threads every completed safe unzip gives the file back exactly when all that a thread finds for a block is the block |
| SimpleUnzip.OneThreadIsIdentityExactlyWhen | code/mdzip_cpp/mdUnzipSimple.cpp:483-597 | for one thread this holds of all runs of the program |
| SimpleUnzip.UnzipCanBeCompleted | code/mdzip_cpp/mdUnzipSimple.cpp:483-597 | the archive of every file can be unzipped |
| SimpleUnzip.RezipIsIdenticalExactlyWhen | code/mdzip_cpp/mdZipSimple.cpp:179-242 | the output of a safe unzip zips to the same bytes exactly when every found block has the stored exponent and remainder |
| SimpleUnzip.AlwaysRezipsExactlyWhen | code/mdzip_cpp/mdUnzipSimple.cpp:483-597 | for any number of threads every completed safe unzip zips to the same bytes exactly when whatever a thread finds for a block has the block's record, a condition on file, key and hash |
| SimpleUnzip.FittingFindKeepsRecord | code/mdzip_cpp/mdCore/modscanFile.h:164-187 | a found block that fits its length keeps its record exactly when it lies in the bracket of the stored exponent |
| SimpleLimits.StaleNumberAtExample | code/mdzip_cpp/mdCore/mdMutex.h:54-61 | two threads, one concrete block, any hash: a run writes the untouched buffer of the thread that found nothing |
| SimpleLimits.ProgramEndsBeforeItsThread | code/mdzip_cpp/mdCore/modscanFile.h:180-195 | two threads, that block twice, under any hash that tells it from the numbers thread 0 tests until it first looks at the ceiling: the program ends while the thread is still running |
| SimpleLimits.ForeignFindChangesRecord | code/mdzip_cpp/mdCore/modscanFile.h:164-187 | a hash that does not tell two concrete blocks apart accepts a block with another record |
| SimpleLimits.SomeFileIsLost | code/mdzip_cpp/mdZipSimple.cpp:179-242 | whatever the hash, the key and the number of threads, some file of one block is not given back by every completed unzip |
| MdzRoundTrip.HeaderRoundTrip | code/mdzip_cpp/mdZip.cpp:197-256 | version, sizes, both name lists, file signatures and keys are read back as written |
| MdzRoundTrip.JobsRoundTrip | code/mdzip_cpp/mdUnzip.cpp:648-689 | records are read back as written, with the lengths and keys of their blocks |
| MdzRoundTrip.ContainerRoundTrip | code/mdzip_cpp/mdUnzip.cpp:500-689 | parsing an archive yields the written header and, per block, length, keys, signatures, remainder and the stored exponent; only files below 48 bytes are rejected |
| MdzRoundTrip.SurvivesExactlyWhen | code/mdzip_cpp/mdZip.cpp:318-326 | what is read is what was written exactly when the archive has 48 bytes and every exponent fits its field |
| MdzRoundTrip.SignedNumbers | code/mdzip_cpp/mdUnzip.cpp:508-560 | stored numbers are read as signed ones |
| MdzRoundTrip.SlicesPassTheirChecks | code/mdzip_cpp/mdUnzip.cpp:648-709 | the i-th slice of the file has the length and the remainder of the i-th round, and each stored signature is the digest of that slice under the key of that round |
| MdzSize.SizeLaw | code/mdzip_cpp/mdZip.cpp:197-336 | an archive has 40 bytes, names, file signatures, written keys and the records |
| MdzSize.UnsignedIsTurnedAwayExactlyWhen | code/mdzip_cpp/mdUnzip.cpp:500-506 | an archive without signatures is turned away exactly if its records take less than eight bytes |
| MdzSize.OneByteFileIsTurnedAway | code/mdzip_cpp/mdZip.cpp:197-336 | one byte, modulus size 32, block list 0: 45 bytes, which the reader turns away |
| MdzSize.ValidatesExactlyWhen | code/mdzip_cpp/mdUnzip.cpp:254-291 | the validator accepts an encoder output exactly when it has 48 bytes, the records take less than 2^31 bytes and registered and written key bytes agree |
| MdzSize.KeySizesAgreeExactlyWhen | code/mdzip_cpp/mdUnzip.cpp:254-291 | they agree exactly if every listed row registers what it writes, or without random keys if no listed row has a key |
| MdzLayout.HeaderLayout | code/mdzip_cpp/mdZip.cpp:199-228 | an archive starts with the double 1.01, 1.11 or 1.12, file size, block size and modulus size at bytes 0, 8, 16 and 24, and both strings of names behind their lengths |
| MdzLayout.FileSignatureLayout | code/mdzip_cpp/mdZip.cpp:232 | then stand the digests of the whole file under the registered keys |
| MdzLayout.KeyLengthLayout | code/mdzip_cpp/mdZip.cpp:244-256 | then the length of the block signature names if keys are randomized, else zero |
| MdzLayout.KeyLayout | code/mdzip_cpp/mdZip.cpp:249-250 | then the drawn keys of the block signatures |
| MdzLayout.SignatureLayout | code/mdzip_cpp/mdZip.cpp:302-306 | record i starts with the digests of the i-th slice of the file, each under the key in force |
| MdzLayout.RecordLayout | code/mdzip_cpp/mdZip.cpp:308-336 | behind them stand the exponent in one or four bytes, least significant first, and the remainder modulo 2^m - 1 in (m + 7) / 8 bytes, most significant first |
| MdzLayout.ArchiveLength | code/mdzip_cpp/mdZip.cpp:197-336 | 40 bytes, names, signatures and keys, and as many records as blocks, rounded up |
| MdzLayout.StartKeyIs | code/mdzip_cpp/mdCore/mdHashContextList.h:482-490 | signing starts with the drawn keys of the listed signatures if keys are randomized; all other keys are the registered ones |
| MdzLayout.BlockKeyIs | code/mdzip_cpp/mdZip.cpp:302-304 | block i is signed under that key, moved by i(i+1)/2 in range for signature 30 or 31 with stepped keys |
| MdzLayout.HeaderIsRead | code/mdzip_cpp/mdUnzip.cpp:500-646 | the reader gets mode, sizes, the lists asked for, the digests of the file under the registered keys, and the drawn keys |
| MdzLayout.RecordIsRead | code/mdzip_cpp/mdUnzip.cpp:648-689 | the reader gets for block i its length, the keys in force, its digests under them, its remainder and the low bytes of its exponent |
| MdzLayout.JobsAreCounted | code/mdzip_cpp/mdUnzip.cpp:648-689 | one round per block of the file, rounded up |
| MdzPrograms.Mdzipfile | code/mdzip_cpp/mdZip.cpp:138-349 | the writer, with its key object stepped per block, produces the archive of the file, whose bytes `MdzLayout` states |
| MdzPrograms.WriteRecords | code/mdzip_cpp/mdZip.cpp:286-349 | the block loop appends the records of all blocks, whose bytes `MdzLayout.SignatureLayout` and `RecordLayout` state |
| MdzPrograms.ReadArchive | code/mdzip_cpp/mdUnzip.cpp:500-709 | the reader, with its own key object, computes what parsing says, or stops at a short file |
| MdzPrograms.ReadJobs | code/mdzip_cpp/mdUnzip.cpp:648-689 | the record loop |
| MdzPrograms.ValidateMDzip | code/mdzip_cpp/mdUnzip.cpp:130-291 | returns 0 exactly for the files the validation predicate accepts |
| MdzUnzip.AllRunsSoundExactlyWhen | code/mdzip_cpp/mdUnzip.cpp:648-782 | for every accepted archive all runs are sound exactly if no other thread than the one the unset number names finds the first block, and there is one block or one thread that finds every block before the last |
| MdzUnzip.OneThreadNeedsNoCareExactlyWhen | code/mdzip_cpp/mdUnzip.cpp:648-782 | with one thread and the thread number 0 from the start care is needed only for the preparation of the thread object, and only if some block before the last is not found |
| MdzUnzip.OneThreadIsSoundExactlyWhen | code/mdzip_cpp/mdUnzip.cpp:648-782 | for one thread, no truncated exponent and blocks in reach all runs are sound exactly if the unset thread number is 0 |
| MdzUnzip.AcceptsExactlyWhen | code/mdzip_cpp/mdCore/modscanFile.h:164-165 | a thread accepts exactly the blocks whose digests, each under the key in force, are the stored signatures |
| MdzUnzip.TaskOfBlock | code/mdzip_cpp/mdUnzip.cpp:648-709 | for block i of an archived file these are the blocks with the digests of the block itself |
| MdzUnzip.UnzipRecovers | code/mdzip_cpp/mdUnzip.cpp:648-782 | every completed safe unzip of an accepted archive yields, in file order, something for exactly the blocks that some thread finds, with the length and all signatures of the original |
| MdzUnzip.UnzipOfZipIsIdentity | code/mdzip_cpp/mdUnzip.cpp:473-809 | a safe unzip of a zip is the file, and the file signatures validate it, if every block is found and for none a thread can come to test anything else with its signatures |
| MdzUnzip.UnzipIsIdentityExactlyWhen | code/mdzip_cpp/mdUnzip.cpp:648-782 | for any number of threads and any file whose archive is accepted, every completed safe unzip gives the file back exactly when every block is found and nothing else is found for it under its keys |
| MdzUnzip.OneThreadIsIdentityExactlyWhen | code/mdzip_cpp/mdUnzip.cpp:648-782 | for one thread and the thread number 0 from the start this holds of all runs of the program, for every accepted archive |
| MdzUnzip.TruncatedIsReachedExactlyWhen | code/mdzip_cpp/mdZip.cpp:318-326 | 32 bytes 0xFF, stored with exponent 0, are still reached exactly if their owner gets to them by its first look at the ceiling |
| MdzUnzip.ReachedBlockIsFound | code/mdzip_cpp/mdUnzip.cpp:648-782 | a block whose number is reached is found, whatever its stored exponent |
| MdzUnzip.UnzipCanBeCompleted | code/mdzip_cpp/mdUnzip.cpp:648-782 | every archive that is accepted can be unzipped |
| MdzRezip.SameArchiveExactlyWhen | code/mdzip_cpp/mdZip.cpp:138-349 | blocks of the same lengths make up the same archive exactly if each is stored as the original and the file signatures agree |
| MdzRezip.SameRecordExactlyWhen | code/mdzip_cpp/mdZip.cpp:302-336 | a block is stored as another of its length exactly if the low bytes of the exponents, the remainders and all digests under the keys in force agree |
| MdzRezip.SameFileSignaturesExactlyWhen | code/mdzip_cpp/mdZip.cpp:232 | file signatures agree exactly if all digests under the registered keys do |
| MdzRezip.AlwaysRezipsExactlyWhen | code/mdzip_cpp/mdUnzip.cpp:648-782 | for any number of threads every completed safe unzip zips to the same bytes exactly when every block is found, every find is stored as the block is, and no combination of finds has other file signatures |
| SignatureList.BlockList.Uniques | code/decode/mdSignatureList/mdSignatureList.go:359-378 | deduplicates over the slice being read: the result is the first occurrences of the old contents |
| SignatureList.BlockList.CreateHashBlockList | code/decode/mdSignatureList/mdSignatureList.go:186-214 | accepts bits or a comma list and lists the names of their signatures in order, bits first; the outcome says whether it lists, exits or never ends |
| SignatureList.BlockList.CreateHashBlockListBinary | code/decode/mdSignatureList/mdSignatureList.go:221-260 | lists, in their order, the names of the registered signatures at the ones of a bit string |
| SignatureList.BlockList.CreateHashBlockListCSV | code/decode/mdSignatureList/mdSignatureList.go:280-357 | accepts exactly the grammar, never ends exactly on a range from 0 to 2^63 - 1 or more, and else lists the names of exactly the denoted registered signatures in ascending order |
| SignatureList.RangeLoopEndsExactlyWhen | code/decode/mdSignatureList/mdSignatureList.go:324-329 | the int64 counter leaves the range exactly if the range ends below the largest number |
| SignatureList.SelectedIsAscending | code/decode/mdSignatureList/mdSignatureList.go:341-353 | the selected numbers are exactly the denoted ones below the registry size, ascending, none twice |
| SignatureList.PipelineSelects | code/decode/mdSignatureList/mdSignatureList.go:305-353 | expanding, sorting, deduplicating and filtering leave exactly those |
| SignatureList.BlockList.CalcHashBlockSize | code/decode/mdSignatureList/mdSignatureList.go:428-458 | sizes of the known names in order and their sum |
| SignatureList.SizeMapIsRegistry | code/decode/mdSignatureList/mdSignatureList.go:407-418 | every registered name is mapped to its own block size and no other name to any |
| SignatureList.UnknownIsPassedOver | code/decode/mdSignatureList/mdSignatureList.go:436-445 | an unknown name in a list adds no size |
| SignatureGrammar.ItemsAreRead | code/decode/mdSignatureList/mdSignatureList.go:284-301 | a list of items is accepted and split into exactly these |
| SignatureGrammar.MatchedItems | code/decode/mdSignatureList/mdSignatureList.go:290-297 | every accepted text is a list of items |
| SignatureGrammar.CsvNamesInOrder | code/decode/mdSignatureList/mdSignatureList.go:305-357 | from the text: a list of numbers and ranges lists the names of the registered numbers they cover, counted from 1, ascending and each once, unless a range never ends |
| SignatureGrammar.LastCommaIsIgnored | code/decode/mdSignatureList/mdSignatureList.go:284-285 | a list may end with a comma |
| SignatureGrammar.DoubledCommaIsIgnored | code/decode/mdSignatureList/mdSignatureList.go:284-285 | or have one doubled comma |
| Text.NumberByPlace | code/decode/mdSignatureList/mdSignatureList.go:311-321 | digits count by their decimal place |
| Text.OneDigit | code/decode/mdSignatureList/mdSignatureList.go:311-321 | a digit is worth its distance from the character 0 |
| SignatureGrammar.SameDenotationSameNames | code/decode/mdSignatureList/mdSignatureList.go:280-357 | order, overlap, repeats, reversed ranges and numbers beyond the registry do not matter |
| SignatureGrammar.GrammarsAgree | code/decode/mdSignatureList/mdSignatureList.go:221-357 | a bit string and the printed list of the positions of its ones select the same names |
| SignatureGrammar.EitherWay | code/decode/mdSignatureList/mdSignatureList.go:186-214 | also after the choice of the grammar, exactly unless there is one position only, it is not 1 and its digits look like bits |
| SignatureGrammar.NumberIsTakenForBitsExactlyWhen | code/decode/mdSignatureList/mdSignatureList.go:186-206 | the list of one number selects what it denotes exactly unless its digits are all ones and zeros and it is not 1 |
| SignatureGrammar.RangeFromZeroEndsExactlyWhen | code/decode/mdSignatureList/mdSignatureList.go:314-331 | a range from 0 is listed up to 2^63 - 2 and never ends beyond |
| HashContext.HashContextList.CheckFileHashBlock | code/decode/mdHashContextList/mdHashContextList.go:493-517 | true exactly when the stored bytes are all digests of the block one behind the other, each of its registered size |
| HashContext.SlicesAreDigests | code/decode/mdHashContextList/mdHashContextList.go:500-511 | comparing slice by slice is comparing with all digests at once |
| HashContext.HashContextList.SetBlockList | code/decode/mdHashContextList/mdHashContextList.go:524-538 | takes the names and the sizes of the registered ones; they belong together exactly when all names are registered |
| HashContext.HashContextList.SetHashListKey | code/decode/mdHashContextList/mdHashContextList.go:578-750 | key map and printed list for a key list |
| KeyList.LastEntryDecides | code/decode/mdHashContextList/mdHashContextList.go:624-742 | from the text: the last entry for a signature leaves its key as it is at the full width (64 for Highway, 32 for siphash), at the right end of pad characters if it is shorter but has two characters, and unused otherwise; Blake2s takes 16 characters or more, other keyed signatures anything |
| KeyList.NoEntryKeepsDefault | code/decode/mdHashContextList/mdHashContextList.go:582-629 | without an entry a signature keeps its default |
| KeyList.PrintedIsCanonical | code/decode/mdHashContextList/mdHashContextList.go:578-750 | given back, the printed list yields the same keys and prints itself |
| KeyList.KeyLengthsAlways | code/decode/mdHashContextList/mdHashContextList.go:654-722 | after any call Highway keys have 64 characters, siphash keys 32, Blake2s keys at least 16 |
| KeyList.KeysAreIndependent | code/decode/mdHashContextList/mdHashContextList.go:629-742 | the key of a signature depends only on its own entries |
| DumpReader.List | code/decode/cmd/mdlist.go:30-218 | succeeds exactly if every announced byte is there, and then cuts the file at the announced widths |
| DumpLayout.DumpShowsParts | code/decode/cmd/mdlist.go:60-205 | from the file: six big-endian numbers of eight bytes, path, name, hash list, file signatures and records are accepted, and slice i is exactly part i, up to the end of the file |
| DumpLayout.WidthsAre | code/decode/cmd/mdlist.go:80-205 | for such a file the announced widths are the lengths of its parts, with one record per block |
| DumpReader.SlicesTile | code/decode/cmd/mdlist.go:80-205 | the slices are adjacent and in bounds: every byte below their total lies in exactly one |
| DumpReader.ShownSizesSum | code/decode/cmd/mdlist.go:207-216 | the block sizes shown add up to the file size |
| DumpReader.ShownSizeIs | code/decode/cmd/mdlist.go:207-216 | the i-th size shown is a full block or what is left of the file |
| DumpReader.ModByteSizeRoundsUp | code/decode/cmd/mdlist.go:143-151 | the modulus width is modSize / 8 rounded up, as in the encoder |
| DumpReader.Cursor.NextRecords | code/decode/cmd/mdlist.go:157-217 | the nested loops take signatures, exponent and modulus of every record |
| DumpReader.CalculateFileBlocks | code/decode/cmd/mdlist.go:238-251 | the same block count and last size as the encoder |

## Left out

- Command lines, help texts, display of headers and blocks, logging and timing.
- Hash algorithms and key generation: any function of key and block, any drawn keys.
- GMP: mathematical integers. Export most significant byte first is `Bytes.Export`; the sign is dropped as GMP does.
- Fixed-width counters are unbounded except where they matter: the validators' `int` totals and the stored fields are explicit, and so is the range counter of the Go signature lists, while the reader's `int` block counter and Go's `uint64` sums are not wrapped.
- Input that ends early: the C++ readers go on with old buffer contents, the model stops with None. Headers with a negative length or a block size of zero or less end the model's reader as well; the program fails to allocate or divides by zero, but for a negative block size it goes on.
- The exponent of blocks larger than 32 bytes is read as an unsigned 32-bit field.
- The register of keys is a map from signature number to key bytes. That Pengyhash writes and reads four bytes of its neighbour is modelled as an eight-byte key.
- Common.PadBlockBytes: a write outside of the buffer is reported and not carried out; what it does to the memory behind is not modelled.
- Bitstream.BitstreamWriter.Put: setting bits is an addition on bits that are known to be clear.
- ExponentStream.StreamExponents: one object per file; the minimum and maximum kept from an earlier scan of the same object are modelled in `CalcMinMaxExponent` only.
- SimpleFormat.ReadArchive: a file that ends early is None; the program goes on with old buffer contents.
- MdzPrograms.ReadArchive: the same.
- MdzPrograms.ReadJobs: the same for a record that ends early.
- SearchSafety.SafeRunsAreSound: a round that launches a thread on an object whose old thread is still running does not go on in the model; that happens only in searches that are not safe.
- SearchProgress.SearchCanComplete: that every fair schedule completes is not modelled.
- ModulusScan.ModScan.Decode: the stop request arrives before a given step; the search it belongs to may be arbitrarily long. A candidate with more digits than the block is reported; what it overwrites behind the thread's buffer is not modelled, and the block is its most significant digits.
- HashRegistry.NamesRoundTrip: for any registry with distinct names without colons; the table of 46 signatures is data and not part of the model.
- SignatureList.BlockList.CreateHashBlockListCSV: for any registry; the table of Go signatures is data. Exiting the program and a loop that never ends are outcomes.
- HashContext.HashContextList.SetHashListKey: texts are ASCII, and the character that pads short keys is a parameter, because it depends on the Go release.
- DumpReader.List: the whole file is in memory; a short first read is not modelled, and running out of range or dividing by zero is None.
- `writeBitstream` after the 7-bit writer and `loadMdzipBitstream`: the first writes a buffer that path never fills, the second is unfinished.
- The Sip40 and Sip47 programs, test drivers, older Go readers, SQL reports and directory walking: near copies or plumbing.
