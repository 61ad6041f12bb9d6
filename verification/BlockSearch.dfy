/** The block loop of the unzip programs (mdUnzip.cpp, mdUnzipSimple.cpp): the search protocol
    run on a list of records with the numbers the modulus scan tests. */
module BlockSearch {
  import opened Bytes
  import opened Common
  import opened Wrappers
  import opened ModulusScan
  import opened SearchProtocol
  import opened SearchSafety
  import opened SearchProgress
  import opened SearchRaces

  /** What the threads are given for one block: its length, its record, its signature test. */
  datatype Task = Task(length: nat, exponent: nat, remainder: nat, accepts: Bytes -> bool)

  /** The modulus the exponent floor is a multiple of: the thread objects are set up with the
      modulus for the first block and reset with the stride of all threads later. */
  function FloorFactor(T: nat, blk: nat): nat {
    if blk == 0 then 1 else T
  }

  /** The number thread t tests in step k. */
  function Tested(tasks: seq<Task>, M: nat, T: nat, blk: nat, t: nat, k: nat): nat
    requires M >= 1 && T >= 1 && blk < |tasks|
  {
    FactorPositive(M, T, blk);
    Candidate(ScanStart(tasks[blk].remainder, tasks[blk].exponent, M * FloorFactor(T, blk), M, t), M * T, k)
  }

  lemma FactorPositive(M: nat, T: nat, blk: nat)
    requires M >= 1 && T >= 1
    ensures M * FloorFactor(T, blk) >= M
  {
    MulMonotone(1, FloorFactor(T, blk), M);
  }

  function SearchConfig(tasks: seq<Task>, M: nat, T: nat): Config
    requires M >= 1 && T >= 1
  {
    Config(T, |tasks|,
           (blk: nat, t: nat, k: nat) =>
             if blk < |tasks| then Fit(Tested(tasks, M, T, blk, t, k), tasks[blk].length) else [],
           (blk: nat, b: Bytes) => blk < |tasks| && tasks[blk].accepts(b),
           (blk: nat, t: nat, k: nat) =>
             blk < |tasks| && QuitsAt(t, Pow2(tasks[blk].exponent + 1), Tested(tasks, M, T, blk, t, k), k))
  }

  /** Setting up a thread object as the block loop does it makes it test these numbers. */
  method SetThread(ms: ModScan, tasks: seq<Task>, M: nat, T: nat, blk: nat, t: nat)
    requires M >= 1 && T >= 1 && blk < |tasks| && t < T
    requires blk == 0 ==> ms.remainder == ms.modulusInt == ms.modulusThreadInt == ms.blockInt == 0
    requires blk > 0 ==> ms.modulusInt == M * T && ms.modulusThreadInt == t * M && ms.threadnumber == t
    modifies ms
    ensures ms.modulusInt == M * T && ms.modulusThreadInt == t * M && ms.threadnumber == t
    ensures ms.blockInt == Tested(tasks, M, T, blk, t, 0)
    ensures forall k: nat :: Candidate(ms.blockInt, ms.modulusInt, k) == Tested(tasks, M, T, blk, t, k)
    ensures ms.modulusExpIntCeil == Pow2(tasks[blk].exponent + 1) && ms.blocksize == tasks[blk].length
    ensures !ms.stop && !ms.stopped
  {
    var task := tasks[blk];
    FactorPositive(M, T, blk);
    if blk < 1 {
      ms.SetModscan(task.remainder, M, task.exponent, task.length, t, T);
    } else {
      MulMonotone(1, T, M);
      ms.ResetThread(task.remainder, task.exponent, task.length, M);
    }
  }

  /** The loop of one thread has the outcomes that the protocol gives its steps: a match is what
      the thread finds, and it gives up only where the protocol lets it. */
  method RunThread(ms: ModScan, tasks: seq<Task>, M: nat, T: nat, blk: nat, t: nat, stopAt: nat)
    returns (outcome: Outcome, steps: nat)
    requires M >= 1 && T >= 1 && blk < |tasks| && t < T
    requires blk == 0 ==> ms.remainder == ms.modulusInt == ms.modulusThreadInt == ms.blockInt == 0
    requires blk > 0 ==> ms.modulusInt == M * T && ms.modulusThreadInt == t * M && ms.threadnumber == t
    modifies ms
    ensures ms.stopped && ms.modulusInt == M * T && ms.modulusThreadInt == t * M && ms.threadnumber == t
    ensures var c := SearchConfig(tasks, M, T);
            match outcome
            case Matched => Finds(c, blk, t, steps) && ms.byteblock == c.candidate(blk, t, steps)
            case GaveUp => Gave(c, blk, t, steps)
            case Stopped => Passed(c, blk, t, steps) && steps == stopAt
  {
    SetThread(ms, tasks, M, T, blk, t);
    var overran;
    outcome, steps, overran := ms.Decode(stopAt, tasks[blk].accepts);
  }

  // ---------- what the search finds ----------

  /** The task is the one of this block. */
  ghost predicate Describes(task: Task, block: Bytes, M: nat)
    requires M >= 1
  {
    && task.length == |block| && task.exponent == Exponent(Value(block)) && task.remainder == Value(block) % M
    && task.accepts(block)
  }

  ghost predicate DescribesAll(tasks: seq<Task>, blocks: seq<Bytes>, M: nat)
    requires M >= 1
  {
    |tasks| == |blocks| && forall i :: 0 <= i < |tasks| ==> Describes(tasks[i], blocks[i], M)
  }

  /** The scan for this block reaches its value: only a zero first block with modulus 1 is out
      of reach. */
  predicate InReach(block: Bytes, M: nat, T: nat, blk: nat) {
    Value(block) > 0 || M * FloorFactor(T, blk) > 1
  }

  /** A block in reach is among the candidates of one thread. */
  lemma {:induction false} OriginalIsTested(tasks: seq<Task>, block: Bytes, M: nat, T: nat, blk: nat)
    returns (t: nat, k: nat)
    requires M >= 1 && T >= 1 && blk < |tasks| && Describes(tasks[blk], block, M) && InReach(block, M, T, blk)
    ensures t < T && Tested(tasks, M, T, blk, t, k) == Value(block)
  {
    FactorPositive(M, T, blk);
    t, k := SomeThreadTests(Value(block), M, FloorFactor(T, blk), T);
  }

  lemma {:induction false} LeadingDigit(v: nat)
    requires v > 0
    ensures Export(v) != [] && Export(v)[0] > 0
  {
    if v / 256 > 0 {
      LeadingDigit(v / 256);
    }
  }

  lemma {:induction false} PositiveValue(bs: Bytes)
    requires bs != [] && bs[0] > 0
    ensures Value(bs) > 0
  {
    if |bs| > 1 {
      PositiveValue(bs[..|bs| - 1]);
    }
  }

  lemma {:induction false} FitIsPositive(v: nat, n: nat)
    requires v > 0 && n > 0
    ensures Value(Fit(v, n)) > 0
  {
    ExportLength(v, n);
    if v < Pow2(8 * n) {
      FitValue(v, n);
    } else {
      LeadingDigit(v);
      PositiveValue(Fit(v, n));
    }
  }

  /** The exception: with modulus 1 every thread starts above a zero first block, and nothing
      it ever tests is that block. */
  lemma {:induction false} OutOfReachIsNeverFound(tasks: seq<Task>, block: Bytes, M: nat, T: nat, blk: nat, t: nat,
                                                  k: nat)
    requires M >= 1 && T >= 1 && blk < |tasks| && block != []
    requires Describes(tasks[blk], block, M) && !InReach(block, M, T, blk)
    ensures SearchConfig(tasks, M, T).candidate(blk, t, k) != block
  {
    FactorPositive(M, T, blk);
    ScanIsComplete(Value(block), M, FloorFactor(T, blk));
    MulMonotone(0, t, M);
    MulMonotone(0, k, M * T);
    FitIsPositive(Tested(tasks, M, T, blk, t, k), |block|);
  }

  lemma {:induction false} TestedGrows(tasks: seq<Task>, M: nat, T: nat, blk: nat, t: nat, k: nat, k': nat)
    requires M >= 1 && T >= 1 && blk < |tasks| && k <= k'
    ensures Tested(tasks, M, T, blk, t, k) <= Tested(tasks, M, T, blk, t, k')
  {
    MulMonotone(k, k', M * T);
  }

  lemma {:induction false} FitOfBlock(block: Bytes)
    ensures Fit(Value(block), |block|) == block
  {
    ValueBound(block);
    ExportLength(Value(block), |block|);
    FixedOfValue(block);
  }

  /** A thread that tests a matching block in step k below the ceiling does not give up: not
      before, because it is below the ceiling, and not after, because it matched. */
  lemma {:induction false} OwnerNeverGivesUp(tasks: seq<Task>, M: nat, T: nat, blk: nat, t: nat, k: nat)
    requires M >= 1 && T >= 1 && blk < |tasks|
    requires SearchConfig(tasks, M, T).matches(blk, SearchConfig(tasks, M, T).candidate(blk, t, k))
    requires Tested(tasks, M, T, blk, t, k) <= Pow2(tasks[blk].exponent + 1)
    ensures !HasGivenUp(SearchConfig(tasks, M, T), blk, t)
  {
    forall k': nat
      ensures !Gave(SearchConfig(tasks, M, T), blk, t, k')
    {
      if k' < k {
        TestedGrows(tasks, M, T, blk, t, k', k);
      }
    }
  }

  /** Some thread never gives up a block in reach: the one that owns it tests it before it
      passes the ceiling. */
  lemma {:induction false} BlocksInReachAreFound(tasks: seq<Task>, block: Bytes, M: nat, T: nat, blk: nat)
    returns (t: nat)
    requires M >= 1 && T >= 1 && blk < |tasks| && Describes(tasks[blk], block, M) && InReach(block, M, T, blk)
    ensures t < T && !HasGivenUp(SearchConfig(tasks, M, T), blk, t)
  {
    var k;
    t, k := OriginalIsTested(tasks, block, M, T, blk);
    FitOfBlock(block);
    assert SearchConfig(tasks, M, T).candidate(blk, t, k) == block;
    OwnerNeverGivesUp(tasks, M, T, blk, t, k);
  }

  // ---------- every thread comes to an end ----------

  /** The line counter counts up from its last restart. */
  lemma {:induction false} LineNumCounts(t: nat, k: nat, j: nat)
    requires (k == 0 || LineNum(t, k) > LineCount(t)) && 1 <= j <= LineCount(t) + 1
    ensures LineNum(t, k + j) == j
  {
    if j > 1 {
      LineNumCounts(t, k, j - 1);
    }
  }

  /** However far a thread has come, it will look at the ceiling again. */
  lemma {:induction false} LooksAgain(t: nat, n: nat) returns (k: nat)
    ensures k >= n && LineNum(t, k) > LineCount(t)
  {
    k := 0;
    if n > 0 {
      k := LooksAgain(t, n - 1);
    }
    LineNumCounts(t, k, LineCount(t) + 1);
    k := k + LineCount(t) + 1;
  }

  lemma {:induction false} TestedIsLarge(tasks: seq<Task>, M: nat, T: nat, blk: nat, t: nat, k: nat)
    requires M >= 1 && T >= 1 && blk < |tasks|
    ensures Tested(tasks, M, T, blk, t, k) >= k
  {
    MulMonotone(1, T, M);
    MulMonotone(1, M * T, k);
    MulMonotone(0, t, M);
  }

  ghost predicate FindsSomething(c: Config, blk: nat, t: nat) {
    exists k: nat :: Finds(c, blk, t, k)
  }

  /** Every thread finds something for a block or gives it up, and never both. */
  lemma {:induction false} ThreadsEnd(tasks: seq<Task>, M: nat, T: nat, blk: nat, t: nat)
    requires M >= 1 && T >= 1 && blk < |tasks| && t < T
    ensures FindsSomething(SearchConfig(tasks, M, T), blk, t) <==> !HasGivenUp(SearchConfig(tasks, M, T), blk, t)
  {
    var c := SearchConfig(tasks, M, T);
    if FindsSomething(c, blk, t) {
      var k: nat :| Finds(c, blk, t, k);
      FindersDoNotGiveUp(c, blk, t, k);
    } else {
      var last := LooksAgain(t, Pow2(tasks[blk].exponent + 1) + 1);
      TestedIsLarge(tasks, M, T, blk, t, last);
      var k: nat := 0;
      assert !Finds(c, blk, t, k);
      while !c.quits(blk, t, k)
        invariant k <= last && Passed(c, blk, t, k) && !c.matches(blk, c.candidate(blk, t, k))
        decreases last - k
      {
        k := k + 1;
        assert !Finds(c, blk, t, k);
      }
      assert Gave(c, blk, t, k);
    }
  }

  /** So every block is found by some thread or given up by all, whatever the archive says. */
  lemma {:induction false} BlocksCanBeDecided(tasks: seq<Task>, M: nat, T: nat)
    requires M >= 1 && T >= 1
    ensures AllCanBeDecided(SearchConfig(tasks, M, T), |tasks|)
  {
    var c := SearchConfig(tasks, M, T);
    forall blk | 0 <= blk < |tasks|
      ensures CanBeDecided(c, blk)
    {
      if !Exhausted(c, blk) {
        var t: nat :| t < T && !HasGivenUp(c, blk, t);
        ThreadsEnd(tasks, M, T, blk, t);
        assert SomeoneFinds(c, blk);
      }
    }
  }

  /** A block in reach is found. */
  lemma {:induction false} BlocksInReachCanBeFound(tasks: seq<Task>, block: Bytes, M: nat, T: nat, blk: nat)
    requires M >= 1 && T >= 1 && blk < |tasks| && Describes(tasks[blk], block, M) && InReach(block, M, T, blk)
    ensures SomeoneFinds(SearchConfig(tasks, M, T), blk) && !Exhausted(SearchConfig(tasks, M, T), blk)
  {
    var t := BlocksInReachAreFound(tasks, block, M, T, blk);
    ThreadsEnd(tasks, M, T, blk, t);
    var k: nat :| Finds(SearchConfig(tasks, M, T), blk, t, k);
  }

  // ---------- a stored exponent of zero ----------

  /** Thread t is still searching in step k. */
  ghost predicate StillSearching(c: Config, blk: nat, t: nat, k: nat) {
    forall i :: 0 <= i < k ==> !c.quits(blk, t, i)
  }

  /** Step k of thread t tests this number, and the thread gets there. */
  ghost predicate GetsTo(tasks: seq<Task>, M: nat, T: nat, blk: nat, t: nat, k: nat, v: nat)
    requires M >= 1 && T >= 1 && blk < |tasks|
  {
    t < T && Tested(tasks, M, T, blk, t, k) == v && StillSearching(SearchConfig(tasks, M, T), blk, t, k)
  }

  /** With exponent 0 the threads start at the remainder, below any ceiling to speak of. */
  lemma {:induction false} FromTheRemainder(tasks: seq<Task>, M: nat, T: nat, blk: nat, t: nat, k: nat)
    requires M >= 1 && T >= 1 && blk < |tasks| && t < T && tasks[blk].exponent == 0
    ensures Tested(tasks, M, T, blk, t, k) == tasks[blk].remainder + (t + k * T) * M
  {
    FactorPositive(M, T, blk);
    DealtRoundRobin(tasks[blk].remainder, 0, M * FloorFactor(T, blk), M, T, t, k);
  }

  /** A thread whose number is above the ceiling when it looks for the first time gives up then. */
  lemma {:induction false} FirstLook(tasks: seq<Task>, M: nat, T: nat, blk: nat, t: nat, k: nat)
    requires M >= 1 && T >= 1 && blk < |tasks|
    requires Pow2(tasks[blk].exponent + 1) < Tested(tasks, M, T, blk, t, LineCount(t) + 1)
    ensures SearchConfig(tasks, M, T).quits(blk, t, LineCount(t) + 1)
    ensures StillSearching(SearchConfig(tasks, M, T), blk, t, k) <==> k <= LineCount(t) + 1
  {
    var c, look := SearchConfig(tasks, M, T), LineCount(t) + 1;
    forall i | 0 <= i < look
      ensures !c.quits(blk, t, i)
    {
      if i > 0 {
        LineNumCounts(t, 0, i);
      }
    }
    LineNumCounts(t, 0, look);
    assert c.quits(blk, t, look);
  }

  /** The truncated exponent of 32 bytes 0xFF: the number of the block is still tested exactly
      if its owner gets to it no later than at its first look at the ceiling. */
  lemma {:induction false} ZeroExponentIsReachedExactlyWhen(tasks: seq<Task>, block: Bytes, M: nat, T: nat, blk: nat)
    requires M >= 1 && T >= 1 && blk < |tasks|
    requires tasks[blk].exponent == 0 && tasks[blk].remainder == Value(block) % M
    ensures (exists t: nat, k: nat :: GetsTo(tasks, M, T, blk, t, k, Value(block)))
            <==> Value(block) / M / T <= 101000001 + 1000000 * (Value(block) / M % T)
  {
    var v := Value(block);
    var n := v / M;
    var owner, step := n % T, n / T;
    DivMod(v, M);
    DivMod(n, T);
    FromTheRemainder(tasks, M, T, blk, owner, step);
    TestedIsLarge(tasks, M, T, blk, owner, LineCount(owner) + 1);
    Pow2Small();
    FirstLook(tasks, M, T, blk, owner, step);
    if step <= LineCount(owner) + 1 {
      assert GetsTo(tasks, M, T, blk, owner, step, v);
    }
    forall t: nat, k: nat | GetsTo(tasks, M, T, blk, t, k, v)
      ensures t == owner && k == step
    {
      FactorPositive(M, T, blk);
      VisitedOnce(v % M, 0, M * FloorFactor(T, blk), M, T, t, k, owner, step);
    }
  }

  /** A block whose number is reached and that passes its test is found. */
  lemma {:induction false} ReachedIsFound(tasks: seq<Task>, block: Bytes, M: nat, T: nat, blk: nat, t: nat, k: nat)
    requires M >= 1 && T >= 1 && blk < |tasks| && tasks[blk].length == |block| && tasks[blk].accepts(block)
    requires GetsTo(tasks, M, T, blk, t, k, Value(block))
    ensures SomeoneFinds(SearchConfig(tasks, M, T), blk)
  {
    var c := SearchConfig(tasks, M, T);
    FitOfBlock(block);
    assert c.matches(blk, c.candidate(blk, t, k));
    forall k': nat
      ensures !Gave(c, blk, t, k')
    {
      assert k' < k ==> !c.quits(blk, t, k');
    }
    ThreadsEnd(tasks, M, T, blk, t);
    assert FindsSomething(c, blk, t);
  }

  // ---------- what a run writes ----------

  function OutputBlocks(output: seq<Written>): (bs: seq<Bytes>)
    ensures |bs| == |output| && forall i :: 0 <= i < |output| ==> bs[i] == output[i].bytes
  {
    seq(|output|, i requires 0 <= i < |output| => output[i].bytes)
  }

  /** Strictly increasing block numbers that hit every number below n are 0, 1, 2, ... */
  lemma {:induction false} StrictlyFilled(output: seq<Written>, n: nat, i: nat)
    requires InFileOrder(output) && i <= |output|
    requires forall j :: 0 <= j < |output| ==> output[j].blk < n
    requires forall b :: 0 <= b < n ==> HasBlock(output, b)
    ensures i <= n && forall j :: 0 <= j < i ==> output[j].blk == j
    ensures i == |output| ==> i == n
  {
    if i > 0 {
      StrictlyFilled(output, n, i - 1);
      NextNumber(output, n, i - 1);
    }
    if i == |output| < n {
      assert HasBlock(output, i);
    }
  }

  lemma {:induction false} NextNumber(output: seq<Written>, n: nat, i: nat)
    requires InFileOrder(output) && i < |output| && i <= n
    requires forall j :: 0 <= j < |output| ==> output[j].blk < n
    requires forall b :: 0 <= b < n ==> HasBlock(output, b)
    requires forall j :: 0 <= j < i ==> output[j].blk == j
    ensures i < n && output[i].blk == i
  {
    assert i > 0 ==> output[i - 1].blk < output[i].blk;
    assert output[i].blk >= i;
    assert HasBlock(output, i);
    var j :| 0 <= j < |output| && output[j].blk == i;
    assert j >= i;
    assert j > i ==> output[i].blk < output[j].blk;
  }

  // ---------- when no care is needed ----------

  ghost predicate AllInReach(blocks: seq<Bytes>, M: nat, T: nat) {
    forall i :: 0 <= i < |blocks| ==> InReach(blocks[i], M, T, i)
  }

  /** For any list of records, even one that no encoder wrote: the runs taken into account are
      all sound exactly in a safe search. */
  lemma {:induction false} SearchIsSoundExactlyWhen(tasks: seq<Task>, M: nat, T: nat, lastThread: nat, care: Care)
    requires M >= 1 && T >= 1
    ensures AllRunsSound(SearchConfig(tasks, M, T), lastThread, care)
            <==> Safe(SearchConfig(tasks, M, T), lastThread, care)
  {
    BlocksCanBeDecided(tasks, M, T);
    SoundExactlyWhen(SearchConfig(tasks, M, T), lastThread, care);
  }

  /** Every block before the last one is found by some thread. */
  ghost predicate AllButLastFound(tasks: seq<Task>, M: nat, T: nat)
    requires M >= 1 && T >= 1
  {
    forall blk: nat :: blk + 1 < |tasks| ==> SomeoneFinds(SearchConfig(tasks, M, T), blk)
  }

  /** With one thread only the thread number at the start and a block that is not found before
      the last one can do harm. */
  lemma {:induction false} OneThreadIsSafeExactlyWhen(tasks: seq<Task>, M: nat, lastThread: nat, care: Care)
    requires M >= 1
    ensures var c := SearchConfig(tasks, M, 1);
            Safe(c, lastThread, care) <==>
              && (care.fetch || (SomeoneFinds(c, 0) ==> lastThread == 0))
              && (care.setups || AllButLastFound(tasks, M, 1))
  {
    var c := SearchConfig(tasks, M, 1);
    forall blk: nat | blk < |tasks|
      ensures SomeoneFinds(c, blk) <==> !HasGivenUp(c, blk, 0)
    {
      ThreadsEnd(tasks, M, 1, blk, 0);
      assert SomeoneFinds(c, blk) <==> FindsSomething(c, blk, 0);
    }
    OnlyZeroFinds(tasks, M, lastThread);
    if AllButLastFound(tasks, M, 1) {
      assert NoEarlyGiveUp(c);
    } else {
      var blk: nat :| blk + 1 < |tasks| && !SomeoneFinds(c, blk);
      assert HasGivenUp(c, blk, 0);
    }
  }

  lemma {:induction false} OnlyZeroFinds(tasks: seq<Task>, M: nat, lastThread: nat)
    requires M >= 1
    ensures var c := SearchConfig(tasks, M, 1);
            OnlyStaleFinds(c, lastThread) <==> (SomeoneFinds(c, 0) ==> lastThread == 0)
  {
    var c := SearchConfig(tasks, M, 1);
    if SomeoneFinds(c, 0) {
      var t: nat, k: nat :| Finds(c, 0, t, k);
      assert 0 < c.blocks && t == 0;
    }
  }

  /** With two threads and two blocks some thread gives up the first block, or both find it, so
      some run goes wrong. */
  lemma {:induction false} SeveralNeedCare(tasks: seq<Task>, M: nat, T: nat, lastThread: nat)
    requires M >= 1 && T >= 2 && |tasks| >= 2
    ensures !Safe(SearchConfig(tasks, M, T), lastThread, UNGUARDED)
    ensures !AllRunsSound(SearchConfig(tasks, M, T), lastThread, UNGUARDED)
  {
    var c := SearchConfig(tasks, M, T);
    SearchIsSoundExactlyWhen(tasks, M, T, lastThread, UNGUARDED);
    if NoEarlyGiveUp(c) {
      assert !HasGivenUp(c, 0, 0) && !HasGivenUp(c, 0, 1);
      ThreadsEnd(tasks, M, T, 0, 0);
      ThreadsEnd(tasks, M, T, 0, 1);
      var k: nat :| Finds(c, 0, 0, k);
      var k': nat :| Finds(c, 0, 1, k');
    }
  }

  /** No thread finds the first block but the one the unset thread number names. */
  ghost predicate OnlyNamedFinds(tasks: seq<Task>, M: nat, T: nat, lastThread: nat)
    requires M >= 1 && T >= 1
  {
    forall t: nat, k: nat :: Finds(SearchConfig(tasks, M, T), 0, t, k) ==> t == lastThread
  }

  /** With one thread that is a matter of the number itself. */
  lemma {:induction false} OnlyNamedFindsForOne(tasks: seq<Task>, M: nat, lastThread: nat)
    requires M >= 1
    ensures OnlyNamedFinds(tasks, M, 1, lastThread)
            <==> (SomeoneFinds(SearchConfig(tasks, M, 1), 0) ==> lastThread == 0)
  {
    var c := SearchConfig(tasks, M, 1);
    if SomeoneFinds(c, 0) {
      var t: nat, k: nat :| Finds(c, 0, t, k);
    }
  }

  /** For any list of records the search needs no care exactly for one block at most, or for one
      thread that finds every block before the last one; and then only if nobody but the thread
      named by the unset number finds the first block. */
  lemma {:induction false} NeedsNoCareExactlyWhen(tasks: seq<Task>, M: nat, T: nat, lastThread: nat)
    requires M >= 1 && T >= 1
    ensures Safe(SearchConfig(tasks, M, T), lastThread, UNGUARDED) <==>
              && OnlyNamedFinds(tasks, M, T, lastThread)
              && (|tasks| <= 1 || (T == 1 && AllButLastFound(tasks, M, T)))
  {
    var c := SearchConfig(tasks, M, T);
    if |tasks| <= 1 {
      assert NoEarlyGiveUp(c);
      assert OnlyStaleFinds(c, lastThread) <==> OnlyNamedFinds(tasks, M, T, lastThread);
    } else if T >= 2 {
      SeveralNeedCare(tasks, M, T, lastThread);
    } else {
      OneThreadIsSafeExactlyWhen(tasks, M, lastThread, UNGUARDED);
      OnlyNamedFindsForOne(tasks, M, lastThread);
    }
  }

  // ---------- what comes back ----------

  /** The blocks written by a run that is done. */
  ghost function Unzipped(tasks: seq<Task>, M: nat, T: nat, lastThread: nat, care: Care, actions: seq<Action>)
    : (r: Option<seq<Written>>)
    requires M >= 1 && T >= 1
  {
    var c := SearchConfig(tasks, M, T);
    var end := Run(c, Init(c, lastThread), actions, care);
    if end.Some? && end.value.control == Done then Some(end.value.output) else None
  }

  /** Any search can be completed. */
  lemma {:induction false} SearchCanBeCompleted(tasks: seq<Task>, M: nat, T: nat, lastThread: nat, care: Care)
    returns (actions: seq<Action>)
    requires M >= 1 && T >= 1
    ensures Unzipped(tasks, M, T, lastThread, care, actions).Some?
  {
    BlocksCanBeDecided(tasks, M, T);
    actions := SearchCanComplete(SearchConfig(tasks, M, T), lastThread, care);
  }

  /** Every block is found by some thread. */
  ghost predicate AllFound(tasks: seq<Task>, M: nat, T: nat)
    requires M >= 1 && T >= 1
  {
    forall blk :: 0 <= blk < |tasks| ==> SomeoneFinds(SearchConfig(tasks, M, T), blk)
  }

  /** When a safe search is done whose blocks are all found by some thread, its output consists
      of exactly one find for every block, in order. */
  lemma {:induction false} OneForEach(tasks: seq<Task>, M: nat, T: nat, lastThread: nat, care: Care,
                                      actions: seq<Action>)
    requires M >= 1 && T >= 1 && Safe(SearchConfig(tasks, M, T), lastThread, care)
    requires AllFound(tasks, M, T)
    requires Unzipped(tasks, M, T, lastThread, care, actions).Some?
    ensures var out := Unzipped(tasks, M, T, lastThread, care, actions).value;
            && |out| == |tasks|
            && forall i :: 0 <= i < |out| ==> out[i].blk == i && Genuine(SearchConfig(tasks, M, T), out[i])
  {
    var c := SearchConfig(tasks, M, T);
    var out := Unzipped(tasks, M, T, lastThread, care, actions).value;
    SafeRunsAreSound(c, lastThread, actions, care);
    forall b | 0 <= b < |tasks|
      ensures HasBlock(out, b)
    {
      assert SomeoneFinds(c, b);
      FoundIsNotExhausted(c, b);
    }
    assert forall j :: 0 <= j < |out| ==> Genuine(c, out[j]) && out[j].blk < |tasks|;
    StrictlyFilled(out, |tasks|, |out|);
  }

  lemma {:induction false} FoundIsNotExhausted(c: Config, blk: nat)
    requires SomeoneFinds(c, blk)
    ensures !Exhausted(c, blk)
  {
    var t: nat, k: nat :| Finds(c, blk, t, k);
    FindersDoNotGiveUp(c, blk, t, k);
  }

  lemma {:induction false} EveryBlockCanBeFound(tasks: seq<Task>, blocks: seq<Bytes>, M: nat, T: nat)
    requires M >= 1 && T >= 1 && DescribesAll(tasks, blocks, M) && AllInReach(blocks, M, T)
    ensures AllFound(tasks, M, T)
  {
    forall blk | 0 <= blk < |tasks|
      ensures SomeoneFinds(SearchConfig(tasks, M, T), blk)
    {
      BlocksInReachCanBeFound(tasks, blocks[blk], M, T, blk);
    }
  }

  /** What a safe search that is done has written for any list of records: in file order, for
      every block that some thread finds and no other, something of its length that passes its
      test. */
  lemma {:induction false} FoundBlocksAreWritten(tasks: seq<Task>, M: nat, T: nat, lastThread: nat, care: Care,
                                                 actions: seq<Action>)
    requires M >= 1 && T >= 1 && Safe(SearchConfig(tasks, M, T), lastThread, care)
    requires Unzipped(tasks, M, T, lastThread, care, actions).Some?
    ensures var c, out := SearchConfig(tasks, M, T), Unzipped(tasks, M, T, lastThread, care, actions).value;
            && InFileOrder(out)
            && (forall b :: 0 <= b < |tasks| ==> (HasBlock(out, b) <==> SomeoneFinds(c, b)))
            && forall j :: 0 <= j < |out| ==>
                 && out[j].blk < |tasks| && Genuine(c, out[j])
                 && |out[j].bytes| == tasks[out[j].blk].length && tasks[out[j].blk].accepts(out[j].bytes)
  {
    var c, out := SearchConfig(tasks, M, T), Unzipped(tasks, M, T, lastThread, care, actions).value;
    SafeRunsAreSound(c, lastThread, actions, care);
    forall b | 0 <= b < |tasks|
      ensures HasBlock(out, b) <==> SomeoneFinds(c, b)
    {
      if SomeoneFinds(c, b) {
        FoundIsNotExhausted(c, b);
      }
      if HasBlock(out, b) {
        var j :| 0 <= j < |out| && out[j].blk == b;
        assert Genuine(c, out[j]);
        assert Finds(c, b, out[j].thread, out[j].k);
      }
    }
    forall j | 0 <= j < |out|
      ensures out[j].blk < |tasks| && |out[j].bytes| == tasks[out[j].blk].length
      ensures tasks[out[j].blk].accepts(out[j].bytes)
    {
      assert Genuine(c, out[j]);
    }
  }

  /** When a safe search for the blocks of a file is done, its output consists of exactly one
      block for every block of the file, in order, each of the original length and accepted by
      the test of the original. */
  lemma {:induction false} SearchRecovers(tasks: seq<Task>, blocks: seq<Bytes>, M: nat, T: nat, lastThread: nat,
                                          care: Care, actions: seq<Action>)
    requires M >= 1 && T >= 1 && DescribesAll(tasks, blocks, M) && AllInReach(blocks, M, T)
    requires Safe(SearchConfig(tasks, M, T), lastThread, care)
    requires Unzipped(tasks, M, T, lastThread, care, actions).Some?
    ensures var out := Unzipped(tasks, M, T, lastThread, care, actions).value;
            && |out| == |blocks|
            && forall i :: 0 <= i < |blocks| ==>
                 && out[i].blk == i && |out[i].bytes| == |blocks[i]| && tasks[i].accepts(out[i].bytes)
                 && Genuine(SearchConfig(tasks, M, T), out[i])
  {
    var out := Unzipped(tasks, M, T, lastThread, care, actions).value;
    EveryBlockCanBeFound(tasks, blocks, M, T);
    OneForEach(tasks, M, T, lastThread, care, actions);
    forall i | 0 <= i < |blocks|
      ensures |out[i].bytes| == |blocks[i]| && tasks[i].accepts(out[i].bytes)
    {
      assert Genuine(SearchConfig(tasks, M, T), out[i]);
      assert Describes(tasks[i], blocks[i], M);
    }
  }

  /** Nothing but the block passes the test among all that a thread can come to test for it. */
  ghost predicate OnlyBlockPasses(tasks: seq<Task>, block: Bytes, M: nat, T: nat, blk: nat)
    requires M >= 1 && T >= 1
  {
    var c := SearchConfig(tasks, M, T);
    forall t: nat, k: nat ::
      t < T && StillSearching(c, blk, t, k) && c.matches(blk, c.candidate(blk, t, k)) ==>
          c.candidate(blk, t, k) == block
  }

  /** If that holds and every block is found, a safe search gives back the blocks of the file. */
  lemma {:induction false} SearchIsIdentity(tasks: seq<Task>, blocks: seq<Bytes>, M: nat, T: nat, lastThread: nat,
                                            care: Care, actions: seq<Action>)
    requires M >= 1 && T >= 1 && |tasks| == |blocks| && AllFound(tasks, M, T)
    requires Safe(SearchConfig(tasks, M, T), lastThread, care)
    requires Unzipped(tasks, M, T, lastThread, care, actions).Some?
    requires forall i :: 0 <= i < |blocks| ==> OnlyBlockPasses(tasks, blocks[i], M, T, i)
    ensures OutputBlocks(Unzipped(tasks, M, T, lastThread, care, actions).value) == blocks
  {
    var c, out := SearchConfig(tasks, M, T), Unzipped(tasks, M, T, lastThread, care, actions).value;
    OneForEach(tasks, M, T, lastThread, care, actions);
    forall i | 0 <= i < |blocks|
      ensures OutputBlocks(out)[i] == blocks[i]
    {
      assert OnlyBlockPasses(tasks, blocks[i], M, T, i);
      assert Finds(c, i, out[i].thread, out[i].k);
      assert StillSearching(c, i, out[i].thread, out[i].k);
    }
  }

  // ---------- deciding that before searching ----------

  /** Whatever some thread finds for a block stands at its place in the output of some
      completed search. */
  lemma {:induction false} FindCanBeWritten(tasks: seq<Task>, M: nat, T: nat, lastThread: nat, care: Care,
                                            blk: nat, t: nat, k: nat)
    returns (actions: seq<Action>)
    requires M >= 1 && T >= 1 && Safe(SearchConfig(tasks, M, T), lastThread, care)
    requires AllFound(tasks, M, T)
    requires blk < |tasks| && Finds(SearchConfig(tasks, M, T), blk, t, k)
    ensures var r := Unzipped(tasks, M, T, lastThread, care, actions);
            r.Some? && |r.value| == |tasks| && r.value[blk] == FindOf(SearchConfig(tasks, M, T), blk, t, k)
  {
    var c := SearchConfig(tasks, M, T);
    var output;
    BlocksCanBeDecided(tasks, M, T);
    actions, output := AnyFindCanBeWritten(c, lastThread, care, blk, t, k);
    OneForEach(tasks, M, T, lastThread, care, actions);
    var i :| 0 <= i < |output| && output[i] == FindOf(c, blk, t, k);
    assert i == blk;
  }

  /** What any thread finds for the block is the block. */
  ghost predicate OnlyOriginalFound(tasks: seq<Task>, block: Bytes, M: nat, T: nat, blk: nat)
    requires M >= 1 && T >= 1
  {
    forall t: nat, k: nat ::
      Finds(SearchConfig(tasks, M, T), blk, t, k) ==> SearchConfig(tasks, M, T).candidate(blk, t, k) == block
  }

  ghost predicate OnlyOriginalsFound(tasks: seq<Task>, blocks: seq<Bytes>, M: nat, T: nat)
    requires M >= 1 && T >= 1
  {
    forall blk :: 0 <= blk < |blocks| ==> OnlyOriginalFound(tasks, blocks[blk], M, T, blk)
  }

  /** Every completed search gives the file back. */
  ghost predicate AlwaysGivesBack(tasks: seq<Task>, file: Bytes, M: nat, T: nat, lastThread: nat, care: Care)
    requires M >= 1 && T >= 1
  {
    forall actions: seq<Action> ::
      var r := Unzipped(tasks, M, T, lastThread, care, actions);
      r.Some? ==> Join(OutputBlocks(r.value)) == file
  }

  ghost predicate SameLengths(tasks: seq<Task>, blocks: seq<Bytes>) {
    |tasks| == |blocks| && forall i :: 0 <= i < |tasks| ==> tasks[i].length == |blocks[i]|
  }

  lemma {:induction false} OriginalsComeBack(tasks: seq<Task>, file: Bytes, blocksize: nat, M: nat, T: nat,
                                             lastThread: nat, care: Care, actions: seq<Action>)
    requires M >= 1 && T >= 1 && file != [] && blocksize > 0 && SameLengths(tasks, Split(file, blocksize))
    requires Safe(SearchConfig(tasks, M, T), lastThread, care)
    requires AllFound(tasks, M, T) && OnlyOriginalsFound(tasks, Split(file, blocksize), M, T)
    requires Unzipped(tasks, M, T, lastThread, care, actions).Some?
    ensures Join(OutputBlocks(Unzipped(tasks, M, T, lastThread, care, actions).value)) == file
  {
    var blocks, c := Split(file, blocksize), SearchConfig(tasks, M, T);
    var written := Unzipped(tasks, M, T, lastThread, care, actions).value;
    OneForEach(tasks, M, T, lastThread, care, actions);
    forall i | 0 <= i < |blocks|
      ensures OutputBlocks(written)[i] == blocks[i]
    {
      assert OnlyOriginalFound(tasks, blocks[i], M, T, i);
      assert Finds(c, i, written[i].thread, written[i].k);
    }
    assert OutputBlocks(written) == blocks;
    JoinOfSplit(file, blocksize);
  }

  /** A find other than the block keeps some completed search from giving the file back. */
  lemma {:induction false} OtherFindSpoils(tasks: seq<Task>, file: Bytes, blocksize: nat, M: nat, T: nat,
                                           lastThread: nat, care: Care, blk: nat, t: nat, k: nat)
    returns (actions: seq<Action>)
    requires M >= 1 && T >= 1 && file != [] && blocksize > 0 && SameLengths(tasks, Split(file, blocksize))
    requires Safe(SearchConfig(tasks, M, T), lastThread, care) && AllFound(tasks, M, T)
    requires blk < |Split(file, blocksize)| && Finds(SearchConfig(tasks, M, T), blk, t, k)
    requires SearchConfig(tasks, M, T).candidate(blk, t, k) != Split(file, blocksize)[blk]
    ensures var r := Unzipped(tasks, M, T, lastThread, care, actions);
            r.Some? && Join(OutputBlocks(r.value)) != file
  {
    var blocks, c := Split(file, blocksize), SearchConfig(tasks, M, T);
    actions := FindCanBeWritten(tasks, M, T, lastThread, care, blk, t, k);
    OneForEach(tasks, M, T, lastThread, care, actions);
    var out := OutputBlocks(Unzipped(tasks, M, T, lastThread, care, actions).value);
    BlocksOfOutput(file, blocksize, out);
    assert out[blk] != blocks[blk];
  }

  /** An output in file order with blocks of the right lengths is no longer than the file, and
      shorter if a block is missing. */
  lemma {:induction false} MissingShortens(output: seq<Written>, blocks: seq<Bytes>, n: nat)
    requires InFileOrder(output) && n <= |blocks| && forall i :: 0 <= i < |blocks| ==> |blocks[i]| > 0
    requires forall i :: 0 <= i < |output| ==> output[i].blk < n && |output[i].bytes| == |blocks[output[i].blk]|
    ensures |Join(OutputBlocks(output))| <= Offset(blocks, n)
    ensures |Join(OutputBlocks(output))| == Offset(blocks, n) ==> forall b :: 0 <= b < n ==> HasBlock(output, b)
    decreases n
  {
    if n > 0 {
      var last := |output| - 1;
      if output != [] && output[last].blk == n - 1 {
        var front := output[..last];
        assert OutputBlocks(output) == OutputBlocks(front) + [output[last].bytes];
        JoinAppend(OutputBlocks(front), output[last].bytes);
        MissingShortens(front, blocks, n - 1);
        forall b | 0 <= b < n && (b < n - 1 ==> HasBlock(front, b))
          ensures HasBlock(output, b)
        {
          var i := if b == n - 1 then last else var i :| 0 <= i < last && front[i].blk == b; i;
          assert output[i].blk == b;
        }
      } else {
        assert forall i :: 0 <= i < last ==> output[i].blk < output[last].blk;
        MissingShortens(output, blocks, n - 1);
      }
    }
  }

  /** A block that nobody finds is missing from the output of a completed search. */
  lemma {:induction false} NotFoundIsLost(tasks: seq<Task>, file: Bytes, blocksize: nat, M: nat, T: nat,
                                          lastThread: nat, care: Care, blk: nat)
    returns (actions: seq<Action>)
    requires M >= 1 && T >= 1 && file != [] && blocksize > 0 && SameLengths(tasks, Split(file, blocksize))
    requires Safe(SearchConfig(tasks, M, T), lastThread, care)
    requires blk < |tasks| && !SomeoneFinds(SearchConfig(tasks, M, T), blk)
    ensures var r := Unzipped(tasks, M, T, lastThread, care, actions);
            r.Some? && |Join(OutputBlocks(r.value))| < |file|
  {
    var c, blocks := SearchConfig(tasks, M, T), Split(file, blocksize);
    actions := SearchCanBeCompleted(tasks, M, T, lastThread, care);
    var out := Unzipped(tasks, M, T, lastThread, care, actions).value;
    SafeRunsAreSound(c, lastThread, actions, care);
    forall i | 0 <= i < |out|
      ensures out[i].blk < |blocks| && |out[i].bytes| == |blocks[out[i].blk]| && out[i].blk != blk
    {
      assert Genuine(c, out[i]);
      assert Finds(c, out[i].blk, out[i].thread, out[i].k);
    }
    SplitIsLaidOut(file, blocksize);
    SplitCount(file, blocksize);
    MissingShortens(out, blocks, |blocks|);
    assert !HasBlock(out, blk);
  }

  /** For every number of threads and any records with the lengths of the file's blocks: each
      completed safe search gives the file back exactly when every block is found by some
      thread and none finds anything else for it. */
  lemma {:induction false} FileComesBackExactlyWhen(tasks: seq<Task>, file: Bytes, blocksize: nat, M: nat, T: nat,
                                                    lastThread: nat, care: Care)
    requires M >= 1 && T >= 1 && file != [] && blocksize > 0 && SameLengths(tasks, Split(file, blocksize))
    requires Safe(SearchConfig(tasks, M, T), lastThread, care)
    ensures AlwaysGivesBack(tasks, file, M, T, lastThread, care)
            <==> AllFound(tasks, M, T) && OnlyOriginalsFound(tasks, Split(file, blocksize), M, T)
  {
    var blocks, c := Split(file, blocksize), SearchConfig(tasks, M, T);
    if !AllFound(tasks, M, T) {
      var blk :| 0 <= blk < |tasks| && !SomeoneFinds(c, blk);
      var actions := NotFoundIsLost(tasks, file, blocksize, M, T, lastThread, care, blk);
    } else if OnlyOriginalsFound(tasks, blocks, M, T) {
      forall actions: seq<Action> | Unzipped(tasks, M, T, lastThread, care, actions).Some?
        ensures Join(OutputBlocks(Unzipped(tasks, M, T, lastThread, care, actions).value)) == file
      {
        OriginalsComeBack(tasks, file, blocksize, M, T, lastThread, care, actions);
      }
    } else {
      var blk :| 0 <= blk < |blocks| && !OnlyOriginalFound(tasks, blocks[blk], M, T, blk);
      var t: nat, k: nat :| Finds(c, blk, t, k) && c.candidate(blk, t, k) != blocks[blk];
      var actions := OtherFindSpoils(tasks, file, blocksize, M, T, lastThread, care, blk, t, k);
    }
  }

  /** For one thread, with the thread number 0 from the start, this holds of all runs of the
      program: the runs without care only matter where a block is lost anyway. */
  lemma {:induction false} OneThreadComesBackExactlyWhen(tasks: seq<Task>, file: Bytes, blocksize: nat, M: nat,
                                                         care: Care)
    requires M >= 1 && file != [] && blocksize > 0 && SameLengths(tasks, Split(file, blocksize))
    ensures AlwaysGivesBack(tasks, file, M, 1, 0, care)
            <==> AllFound(tasks, M, 1) && OnlyOriginalsFound(tasks, Split(file, blocksize), M, 1)
  {
    OneThreadIsSafeExactlyWhen(tasks, M, 0, care);
    if AllFound(tasks, M, 1) {
      FileComesBackExactlyWhen(tasks, file, blocksize, M, 1, 0, care);
    } else {
      FileComesBackExactlyWhen(tasks, file, blocksize, M, 1, 0, CAREFUL);
      CareOnlyHelps(tasks, file, M, 1, 0, care);
    }
  }

  /** What all runs do the careful ones do. */
  lemma {:induction false} CareOnlyHelps(tasks: seq<Task>, file: Bytes, M: nat, T: nat, lastThread: nat, care: Care)
    requires M >= 1 && T >= 1
    ensures AlwaysGivesBack(tasks, file, M, T, lastThread, care)
            ==> AlwaysGivesBack(tasks, file, M, T, lastThread, CAREFUL)
  {
    if AlwaysGivesBack(tasks, file, M, T, lastThread, care) {
      var c := SearchConfig(tasks, M, T);
      forall actions: seq<Action> | Unzipped(tasks, M, T, lastThread, CAREFUL, actions).Some?
        ensures Join(OutputBlocks(Unzipped(tasks, M, T, lastThread, CAREFUL, actions).value)) == file
      {
        CarefulRunsAreRuns(c, Init(c, lastThread), actions, care);
        assert Unzipped(tasks, M, T, lastThread, care, actions) == Unzipped(tasks, M, T, lastThread, CAREFUL, actions);
      }
    }
  }
}
