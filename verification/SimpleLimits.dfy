/** What a minimal archive cannot promise: the two unprotected accesses of the search and a
    foreign find at a concrete file, and that no hash and no key bring every file back. */
module SimpleLimits {
  import opened Bytes
  import opened Common
  import opened ModulusScan
  import opened SimpleFormat
  import opened SearchProtocol
  import opened SearchProgress
  import opened SearchRaces
  import opened BlockSearch
  import opened SimpleUnzip

  // ---------- a concrete file ----------

  /** The block 3(2^32 - 1). Thread 0 starts its search for it at 2(2^32 - 1). */
  function ExampleBlock(): Bytes {
    Fixed(3 * Modulus(), BLOCK_BYTES)
  }

  lemma {:induction false} ExampleExponents(M: nat, n: nat)
    requires M == Pow2(n) - 1 && n >= 3
    ensures Exponent(3 * M) == n + 1 && Exponent(2 * M) == n
    ensures ExponentFloor(n + 1, M) == 2 * M && 3 * M % M == 0
  {
    assert Pow2(3) == 8;
    Pow2Monotone(3, n);
    assert Pow2(n + 1) == 2 * Pow2(n) && Pow2(n + 2) == 2 * Pow2(n + 1);
    ExponentUnique(3 * M, n + 1);
    ExponentUnique(2 * M, n);
    RemainderOfMultiple(2, M, 1);
    RemainderOfMultiple(3, M, 0);
  }

  lemma {:induction false} BlockHolds(v: nat)
    requires v < 4 * 0x1_0000_0000
    ensures Value(Fixed(v, BLOCK_BYTES)) == v && Fit(v, BLOCK_BYTES) == Fixed(v, BLOCK_BYTES)
  {
    Pow2Words();
    Pow2Add(2, 32);
    Pow2Monotone(34, 8 * BLOCK_BYTES);
    ValueOfFixed(v, BLOCK_BYTES);
    ExportLength(v, BLOCK_BYTES);
  }

  lemma {:induction false} ExampleValue()
    ensures Value(ExampleBlock()) == 3 * Modulus() && Exponent(3 * Modulus()) == MOD_SIZE + 1
    ensures Exponent(2 * Modulus()) == MOD_SIZE && ExponentFloor(MOD_SIZE + 1, Modulus()) == 2 * Modulus()
    ensures 3 * Modulus() % Modulus() == 0
  {
    Pow2Words();
    ExampleExponents(Modulus(), MOD_SIZE);
    BlockHolds(3 * Modulus());
  }

  /** The numbers tested for the first block of a file that starts with the example block. */
  lemma {:induction false} ExampleTests(file: Bytes, key: u64, hash: Hash, T: nat, t: nat, k: nat)
    requires T >= 1 && file != [] && Split(file, BLOCK_BYTES)[0] == ExampleBlock()
    ensures Tested(TasksOf(Zipped(file, key, hash), hash), Modulus(), T, 0, t, k)
         == 2 * Modulus() + t * Modulus() + k * (Modulus() * T)
    ensures var task := TasksOf(Zipped(file, key, hash), hash)[0];
            task.length == BLOCK_BYTES && task.exponent == MOD_SIZE + 1
  {
    ExampleValue();
    LengthsAgree(file, key, hash, 0);
  }

  // ---------- the stale thread number ----------

  lemma {:induction false} ThreadOneTestsExample(key: u64, hash: Hash)
    ensures Split(ExampleBlock(), BLOCK_BYTES) == [ExampleBlock()]
    ensures Unzips(Zipped(ExampleBlock(), key, hash), 2, hash).candidate(0, 1, 0) == ExampleBlock()
  {
    ExampleTests(ExampleBlock(), key, hash, 2, 1, 0);
    BlockHolds(3 * Modulus());
  }

  lemma {:induction false} ThreadOneFindsExample(key: u64, hash: Hash)
    ensures Split(ExampleBlock(), BLOCK_BYTES) == [ExampleBlock()]
    ensures Finds(Unzips(Zipped(ExampleBlock(), key, hash), 2, hash), 0, 1, 0)
  {
    ThreadOneTestsExample(key, hash);
  }

  /** Two threads search for the example block, whatever the hash. Thread 1 finds it in its
      first step and raises the flag; the controller writes the buffer of thread 0, which has
      not tested anything. */
  lemma {:induction false} StaleNumberAtExample(key: u64, hash: Hash) returns (actions: seq<Action>, s: State)
    ensures Split(ExampleBlock(), BLOCK_BYTES) == [ExampleBlock()]
    ensures var c := Unzips(Zipped(ExampleBlock(), key, hash), 2, hash);
            && Reached(c, Init(c, 0), actions, s, Care(false, true))
            && s.output == [Written(0, 0, 0, [])] && !Genuine(c, s.output[0])
  {
    var c := Unzips(Zipped(ExampleBlock(), key, hash), 2, hash);
    ThreadOneFindsExample(key, hash);
    actions, s := StaleNumberIsWritten(c, 0, Care(false, true), 1, 0);
    LengthsAgree(ExampleBlock(), key, hash, 0);
    assert |c.candidate(0, 0, 0)| == BLOCK_BYTES;
  }

  // ---------- the late write of stopped ----------

  function ExampleTwice(): (file: Bytes)
    ensures Split(file, BLOCK_BYTES) == [ExampleBlock(), ExampleBlock()]
  {
    var file := ExampleBlock() + ExampleBlock();
    assert file[..BLOCK_BYTES] == ExampleBlock() && file[BLOCK_BYTES..] == ExampleBlock();
    assert Split(file, BLOCK_BYTES) == [ExampleBlock()] + Split(ExampleBlock(), BLOCK_BYTES);
    file
  }

  /** What thread 0 of two tests in step k for the example block: an even multiple of the
      modulus. */
  function EvenMultiple(k: nat): Bytes {
    Fit(2 * (k + 1) * Modulus(), BLOCK_BYTES)
  }

  /** The hash tells the example block from what thread 0 tests up to its first look at the
      ceiling. */
  ghost predicate TellsExampleApart(key: u64, hash: Hash) {
    forall k: nat :: k <= 101000001 ==> hash(EvenMultiple(k), key) != hash(ExampleBlock(), key)
  }

  lemma {:induction false} ThreadZeroTests(key: u64, hash: Hash, k: nat)
    ensures var tasks := TasksOf(Zipped(ExampleTwice(), key, hash), hash);
            && Tested(tasks, Modulus(), 2, 0, 0, k) == 2 * (k + 1) * Modulus()
            && tasks[0].exponent == MOD_SIZE + 1
            && SearchConfig(tasks, Modulus(), 2).candidate(0, 0, k) == EvenMultiple(k)
  {
    ExampleTests(ExampleTwice(), key, hash, 2, 0, k);
  }

  lemma {:induction false} ExampleCeiling()
    ensures Pow2(MOD_SIZE + 2) < 2 * (LineCount(0) + 2) * Modulus()
  {
    Pow2Words();
    Pow2Add(2, 32);
  }

  lemma {:induction false} ThreadZeroIsRejected(key: u64, hash: Hash, k: nat)
    requires TellsExampleApart(key, hash) && k <= LineCount(0) + 1
    ensures var c := Unzips(Zipped(ExampleTwice(), key, hash), 2, hash); !c.matches(0, c.candidate(0, 0, k))
  {
    ThreadZeroTests(key, hash, k);
    assert hash(EvenMultiple(k), key) != hash(ExampleBlock(), key);
  }

  lemma {:induction false} ThreadZeroLooks(key: u64, hash: Hash)
    ensures var c, look := Unzips(Zipped(ExampleTwice(), key, hash), 2, hash), LineCount(0) + 1;
            c.quits(0, 0, look) && StillSearching(c, 0, 0, look)
  {
    var look := LineCount(0) + 1;
    ThreadZeroTests(key, hash, look);
    ExampleCeiling();
    FirstLook(TasksOf(Zipped(ExampleTwice(), key, hash), hash), Modulus(), 2, 0, 0, look);
  }

  lemma {:induction false} ThreadZeroGivesUpExample(key: u64, hash: Hash)
    requires TellsExampleApart(key, hash)
    ensures HasGivenUp(Unzips(Zipped(ExampleTwice(), key, hash), 2, hash), 0, 0)
  {
    var c, look := Unzips(Zipped(ExampleTwice(), key, hash), 2, hash), LineCount(0) + 1;
    forall k: nat | k <= look
      ensures !c.matches(0, c.candidate(0, 0, k))
    {
      ThreadZeroIsRejected(key, hash, k);
    }
    ThreadZeroLooks(key, hash);
    assert Gave(c, 0, 0, look);
  }

  /** Two threads search for the example block twice, under a hash that tells it apart: thread 0
      gives up the first one, and the program can end while it is still searching. */
  lemma {:induction false} ProgramEndsBeforeItsThread(key: u64, hash: Hash) returns (actions: seq<Action>, s: State)
    requires TellsExampleApart(key, hash)
    ensures var c := Unzips(Zipped(ExampleTwice(), key, hash), 2, hash);
            && Reached(c, Init(c, 0), actions, s, Care(true, false))
            && s.control == Done && !s.threads[0].pc.Returned?
  {
    var a := Zipped(ExampleTwice(), key, hash);
    ThreadZeroGivesUpExample(key, hash);
    BlocksCanBeDecided(TasksOf(a, hash), Modulus(), 2);
    actions, s := LateStopRun(Unzips(a, 2, hash), 0, Care(true, false), 0, 0);
  }

  // ---------- a foreign find ----------

  /** Without a hash that tells 2(2^32 - 1) from 3(2^32 - 1), one thread stops at the first
      while searching for the second, and what it finds zips to another record. */
  lemma {:induction false} ForeignFindChangesRecord(key: u64, hash: Hash)
    requires hash(Fixed(2 * Modulus(), BLOCK_BYTES), key) == hash(ExampleBlock(), key)
    ensures var found := Fixed(2 * Modulus(), BLOCK_BYTES);
            && Genuine(Unzips(Zipped(ExampleBlock(), key, hash), 1, hash), Written(0, 0, 0, found))
            && RecordOf(found, key, hash) != RecordOf(ExampleBlock(), key, hash)
  {
    var file := ExampleBlock();
    var c := Unzips(Zipped(file, key, hash), 1, hash);
    ExampleTests(file, key, hash, 1, 0, 0);
    ExampleValue();
    BlockHolds(2 * Modulus());
    assert c.candidate(0, 0, 0) == Fixed(2 * Modulus(), BLOCK_BYTES);
    assert Finds(c, 0, 0, 0);
  }

  // ---------- no hash is enough ----------

  ghost predicate InjectiveBelow(f: nat -> nat, n: nat) {
    forall i, j :: 0 <= i < j < n ==> f(i) != f(j)
  }

  ghost predicate BoundedBelow(f: nat -> nat, n: nat, m: nat) {
    forall i :: 0 <= i < n ==> f(i) < m
  }

  /** n different numbers below m are at most m. */
  lemma {:induction false} Pigeonhole(f: nat -> nat, n: nat, m: nat)
    requires InjectiveBelow(f, n) && BoundedBelow(f, n, m)
    ensures n <= m
    decreases m
  {
    if n > 0 {
      assert f(0) < m;
      if i :| 0 <= i < n && f(i) == m - 1 {
        var g := (j: nat) => if j == i then f(n - 1) else f(j);
        Pigeonhole(g, n - 1, m - 1);
      } else {
        Pigeonhole(f, n, m - 1);
      }
    }
  }

  /** The record as one number. */
  function Code(r: Record): nat {
    (r.exponent * 0x1_0000_0000 + r.remainder) * 0x1_0000_0000_0000_0000 + r.signature
  }

  function RecordOfNumber(v: nat, key: u64, hash: Hash): Record {
    RecordOf(Fixed(v, BLOCK_BYTES), key, hash)
  }

  lemma CodeIsBounded(r: Record)
    requires r.exponent < 0x100 && r.remainder < 0x1_0000_0000
    ensures Code(r) < 0x100 * 0x1_0000_0000 * 0x1_0000_0000_0000_0000
  {
  }

  lemma {:induction false} CodeLimit()
    ensures Pow2(104) == 0x100 * 0x1_0000_0000 * 0x1_0000_0000_0000_0000
  {
    Pow2Words();
    Pow2Small();
    Pow2Add(8, 32);
    Pow2Add(40, 64);
  }

  lemma {:induction false} CodesAreFew(v: nat, key: u64, hash: Hash)
    ensures Code(RecordOfNumber(v, key, hash)) < Pow2(104)
    ensures RecordOfNumber(v, key, hash).remainder < 0x1_0000_0000
  {
    BlockExponent(Fixed(v, BLOCK_BYTES));
    CodeLimit();
    CodeIsBounded(RecordOfNumber(v, key, hash));
  }

  lemma {:induction false} CodeDetermines(r: Record, q: Record)
    requires r.remainder < 0x1_0000_0000 && q.remainder < 0x1_0000_0000 && Code(r) == Code(q)
    ensures r == q
  {
  }

  lemma {:induction false} SomeCollision(f: nat -> nat, n: nat, m: nat) returns (i: nat, j: nat)
    requires m < n && BoundedBelow(f, n, m)
    ensures i < j < n && f(i) == f(j)
  {
    if InjectiveBelow(f, n) {
      Pigeonhole(f, n, m);
    }
    i, j :| 0 <= i < j < n && f(i) == f(j);
  }

  /** 2^112 blocks have fewer than 2^104 records. */
  lemma {:induction false} TwoBlocksShareARecord(key: u64, hash: Hash) returns (x: Bytes, y: Bytes)
    ensures |x| == |y| == BLOCK_BYTES && x != y && RecordOf(x, key, hash) == RecordOf(y, key, hash)
  {
    var f := (v: nat) => Code(RecordOfNumber(v, key, hash));
    var n, m := Pow2(8 * BLOCK_BYTES), Pow2(104);
    Pow2Strict(104, 8 * BLOCK_BYTES);
    forall v: nat
      ensures f(v) < m
    {
      CodesAreFew(v, key, hash);
    }
    var i, j := SomeCollision(f, n, m);
    CodesAreFew(i, key, hash);
    CodesAreFew(j, key, hash);
    CodeDetermines(RecordOfNumber(i, key, hash), RecordOfNumber(j, key, hash));
    ValueOfFixed(i, BLOCK_BYTES);
    ValueOfFixed(j, BLOCK_BYTES);
    x, y := Fixed(i, BLOCK_BYTES), Fixed(j, BLOCK_BYTES);
  }

  /** Files with the same archive cannot both come back. */
  lemma {:induction false} OnlyOneComesBack(x: Bytes, y: Bytes, key: u64, hash: Hash, T: nat, lastThread: nat,
                                            care: Care)
    requires T >= 1 && x != [] && y != [] && x != y && Zipped(x, key, hash) == Zipped(y, key, hash)
    ensures var tasks := TasksOf(Zipped(x, key, hash), hash);
            || !AlwaysGivesBack(tasks, x, Modulus(), T, lastThread, care)
            || !AlwaysGivesBack(tasks, y, Modulus(), T, lastThread, care)
  {
    var actions := UnzipCanBeCompleted(x, key, hash, T, lastThread, care);
    var r := UnzippedArchive(Zipped(x, key, hash), T, hash, lastThread, care, actions).value;
    assert Join(OutputBlocks(r)) != x || Join(OutputBlocks(r)) != y;
  }

  /** Whatever the hash and the key, and for any number of threads: some file of one block is not
      given back by every completed unzip of its archive, careful or not. */
  lemma {:induction false} SomeFileIsLost(key: u64, hash: Hash, T: nat, lastThread: nat, care: Care)
    returns (file: Bytes)
    requires T >= 1
    ensures |file| == BLOCK_BYTES
    ensures !AlwaysGivesBack(TasksOf(Zipped(file, key, hash), hash), file, Modulus(), T, lastThread, care)
  {
    var x, y := TwoBlocksShareARecord(key, hash);
    assert Zipped(x, key, hash).records == [RecordOf(x, key, hash)] == Zipped(y, key, hash).records;
    OnlyOneComesBack(x, y, key, hash, T, lastThread, care);
    file := if AlwaysGivesBack(TasksOf(Zipped(x, key, hash), hash), x, Modulus(), T, lastThread, care) then y else x;
  }
}
