/** The modulus scan of one thread (mdCore/modscanFile.h): where it starts, how it steps and
    what it tests; and that T of them together reach every number with the remainder. */
module ModulusScan {
  import opened Bytes
  import opened Common

  /** Largest multiple of m up to 2^exp - 1 (convertFloorBase2). */
  function ExponentFloor(exp: nat, m: nat): (f: nat)
    requires m > 0
  {
    ModulusInt(exp) - ModulusInt(exp) % m
  }

  /** First number thread t tests: the remainder, the floor and t strides. */
  function ScanStart(rem: nat, exp: nat, m: nat, M: nat, t: nat): nat
    requires m > 0
  {
    rem + ExponentFloor(exp, m) + t * M
  }

  /** Number tested in step k when the threads advance by M * T. */
  function Candidate(start: nat, stride: nat, k: nat): nat {
    start + k * stride
  }

  // ---------- completeness ----------

  lemma MulDistributes(a: nat, b: nat, c: nat)
    ensures a * c + b * c == (a + b) * c
  {
  }

  lemma MulAssociates(a: nat, b: nat, c: nat)
    ensures a * (b * c) == (a * b) * c
  {
  }

  lemma {:induction false} MultipleBelow(q: nat, M: nat, b: nat)
    requires M > 0
    ensures q * M <= b <==> q <= b / M
  {
    DivMod(b, M);
    if q <= b / M {
      MulMonotone(q, b / M, M);
    } else {
      MulMonotone(b / M + 1, q, M);
      MulDistributes(b / M, 1, M);
    }
  }

  /** The floor is the largest multiple of the modulus below 2^exp. */
  lemma {:induction false} FloorIsLargest(exp: nat, m: nat)
    requires m > 0
    ensures ExponentFloor(exp, m) % m == 0 && ExponentFloor(exp, m) < Pow2(exp) <= ExponentFloor(exp, m) + m
  {
    var q, r := ModulusInt(exp) / m, ModulusInt(exp) % m;
    assert ModulusInt(exp) == m * q + r;
    RemainderIs(m * q, m, q, 0);
  }

  /** The floor is a multiple of M, whether taken for M itself or for M * T. */
  lemma {:induction false} FloorIsMultiple(exp: nat, M: nat, c: nat)
    requires M > 0 && c > 0
    ensures M * c > 0
    ensures exists q: nat :: ExponentFloor(exp, M * c) == q * M
  {
    assert M * c > 0;
    var F, m := ModulusInt(exp), M * c;
    DivMod(F, m);
    var q := F / m;
    assert F - F % m == q * m;
    MulAssociates(q, c, M);
    assert q * m == (q * c) * M;
  }

  /** Step k of thread t is the (t + k * T)-th number above the common start. */
  lemma {:induction false} DealtRoundRobin(rem: nat, exp: nat, m: nat, M: nat, T: nat, t: nat, k: nat)
    requires m > 0 && T > 0 && t < T
    ensures Candidate(ScanStart(rem, exp, m, M, t), M * T, k)
         == rem + ExponentFloor(exp, m) + (t + k * T) * M
  {
    MulAssociates(k, T, M);
    assert k * (M * T) == k * (T * M);
    MulDistributes(t, k * T, M);
  }

  /** Each multiple of the stride above the start is dealt to exactly one thread and step. */
  lemma {:induction false} VisitedOnce(rem: nat, exp: nat, m: nat, M: nat, T: nat, t: nat, k: nat, t': nat, k': nat)
    requires m > 0 && M > 0 && T > 0 && t < T && t' < T
    requires Candidate(ScanStart(rem, exp, m, M, t), M * T, k)
          == Candidate(ScanStart(rem, exp, m, M, t'), M * T, k')
    ensures t == t' && k == k'
  {
    DealtRoundRobin(rem, exp, m, M, T, t, k);
    DealtRoundRobin(rem, exp, m, M, T, t', k');
    CancelFactor(t + k * T, t' + k' * T, M);
    SameQuotient(k, t, k', t', T);
  }

  lemma {:induction false} CancelFactor(a: nat, b: nat, M: nat)
    requires M > 0 && a * M == b * M
    ensures a == b
  {
    if a < b {
      MulMonotone(a + 1, b, M);
      MulDistributes(a, 1, M);
    } else if b < a {
      MulMonotone(b + 1, a, M);
      MulDistributes(b, 1, M);
    }
  }

  lemma {:induction false} SameQuotient(k: nat, t: nat, k': nat, t': nat, T: nat)
    requires t < T && t' < T && t + k * T == t' + k' * T
    ensures k == k' && t == t'
  {
    if k < k' {
      MulMonotone(k + 1, k', T);
      MulDistributes(k, 1, T);
    } else if k' < k {
      MulMonotone(k' + 1, k, T);
      MulDistributes(k', 1, T);
    }
  }

  /** Which thread tests b, and in which step. */
  function OwnerIndex(b: nat, exp: nat, m: nat, M: nat): int
    requires m > 0 && M > 0
  {
    b / M - ExponentFloor(exp, m) / M
  }

  /** The numbers the T threads test are exactly those with the remainder that are not below
      the common start. */
  lemma {:induction false} ScanCovers(b: nat, exp: nat, M: nat, c: nat, T: nat)
    requires M > 0 && c > 0 && T > 0
    ensures M * c > 0
    ensures var j := OwnerIndex(b, exp, M * c, M);
            if b % M + ExponentFloor(exp, M * c) <= b
            then j >= 0 && Candidate(ScanStart(b % M, exp, M * c, M, j % T), M * T, j / T) == b
            else j < 0
  {
    assert M * c > 0;
    var m := M * c;
    var floor, j := ExponentFloor(exp, m), OwnerIndex(b, exp, m, M);
    FloorIsMultiple(exp, M, c);
    var q: nat :| floor == q * M;
    DivMod(b, M);
    QuotientOfMultiple(q, M);
    assert j == b / M - q;
    CompareMultiples(q, b / M, M);
    if q <= b / M {
      DealtRoundRobin(b % M, exp, m, M, T, j % T, j / T);
      SumOfStrides(q, j, M, T);
    }
  }

  lemma {:induction false} SumOfStrides(q: nat, j: nat, M: nat, T: nat)
    requires T > 0
    ensures q * M + (j % T + j / T * T) * M == (q + j) * M
  {
    DivMod(j, T);
    MulDistributes(q, j, M);
  }

  lemma {:induction false} QuotientOfMultiple(q: nat, M: nat)
    requires M > 0
    ensures q * M / M == q
  {
    MultipleBelow(q, M, q * M);
    MultipleBelow(q + 1, M, q * M);
    MulDistributes(q, 1, M);
  }

  lemma {:induction false} CompareMultiples(q: nat, n: nat, M: nat)
    requires M > 0
    ensures q * M <= n * M <==> q <= n
  {
    if q <= n {
      MulMonotone(q, n, M);
    } else {
      MulMonotone(n + 1, q, M);
      MulDistributes(n, 1, M);
    }
  }

  /** Completeness of the scan: with its own remainder and exponent, a block value is reached
      unless it is zero and the floor is taken for the modulus 1. */
  lemma {:induction false} ScanIsComplete(b: nat, M: nat, c: nat)
    requires M > 0 && c > 0
    ensures M * c > 0
    ensures b % M + ExponentFloor(Exponent(b), M * c) <= b <==> b > 0 || M * c > 1
  {
    assert M * c > 0;
    var e, m := Exponent(b), M * c;
    var floor := ExponentFloor(e, m);
    if b > 0 {
      FloorIsMultiple(e, M, c);
      var q: nat :| floor == q * M;
      DivMod(ModulusInt(e), m);
      assert floor <= ModulusInt(e) <= b;
      MultipleBelow(q, M, b);
      DivMod(b, M);
      CompareMultiples(q, b / M, M);
    } else {
      Pow2Small();
      ExponentUnique(0, 1);
    }
  }

  /** So such a block value is tested by one of the T threads. */
  lemma {:induction false} SomeThreadTests(b: nat, M: nat, c: nat, T: nat) returns (t: nat, k: nat)
    requires M > 0 && c > 0 && T > 0 && (b > 0 || M * c > 1)
    ensures M * c > 0 && t < T
    ensures Candidate(ScanStart(b % M, Exponent(b), M * c, M, t), M * T, k) == b
  {
    ScanIsComplete(b, M, c);
    ScanCovers(b, Exponent(b), M, c, T);
    var j: nat := OwnerIndex(b, Exponent(b), M * c, M);
    t, k := j % T, j / T;
  }

  // ---------- one thread ----------

  datatype Outcome = Matched | GaveUp | Stopped

  const LINE_COUNT: nat := 100000000
  const LINE_COUNT_PER_THREAD: nat := 1000000

  function LineCount(t: nat): nat {
    LINE_COUNT + LINE_COUNT_PER_THREAD * (t + 1)
  }

  /** The line counter in step k; it restarts whenever it has passed the line count. */
  function LineNum(t: nat, k: nat): nat {
    if k == 0 then 0
    else if LineNum(t, k - 1) > LineCount(t) then 1 else LineNum(t, k - 1) + 1
  }

  /** A thread that did not match in step k gives up: only when the line counter has passed the
      line count does it look at the ceiling. */
  predicate QuitsAt(t: nat, ceiling: nat, tested: nat, k: nat) {
    LineNum(t, k) > LineCount(t) && ceiling < tested
  }

  lemma {:induction false} LineNumCycles(t: nat, k: nat)
    ensures LineNum(t, k) == if k == 0 then 0 else (k - 1) % (LineCount(t) + 1) + 1
  {
    if k > 1 {
      LineNumCycles(t, k - 1);
      NextRemainder(k - 2, LineCount(t) + 1);
    }
  }

  lemma NextRemainder(x: nat, n: nat)
    requires n >= 1
    ensures (x + 1) % n == if x % n == n - 1 then 0 else x % n + 1
  {
    var q, r := x / n, x % n;
    assert x == n * q + r;
    if r == n - 1 {
      assert n * q + n == n * (q + 1);
      RemainderIs(x + 1, n, q + 1, 0);
    } else {
      RemainderIs(x + 1, n, q, r + 1);
    }
  }

  /** Thread t looks at the ceiling after every 101000001 + 1000000 t numbers, and only then it
      can give up. */
  lemma {:induction false} QuitsExactlyWhen(t: nat, ceiling: nat, tested: nat, k: nat)
    ensures QuitsAt(t, ceiling, tested, k) <==>
              k > 0 && k % (101000001 + 1000000 * t) == 0 && ceiling < tested
  {
    LineNumCycles(t, k);
    if k > 0 {
      NextRemainder(k - 1, LineCount(t) + 1);
    }
  }

  lemma NextCandidate(start: nat, stride: nat, k: nat)
    ensures Candidate(start, stride, k + 1) == Candidate(start, stride, k) + stride
  {
    MulDistributes(k, 1, stride);
  }

  /** One of the first n candidates has more digits than the block. */
  predicate RunsOver(start: nat, stride: nat, blocksize: nat, n: nat) {
    n > 0 && (RunsOver(start, stride, blocksize, n - 1) || |Export(Candidate(start, stride, n - 1))| > blocksize)
  }

  class ModScan {
    var byteblock: Bytes
    var stop: bool
    var stopped: bool
    var isMatched: bool
    var exponent: nat
    var blocksize: nat
    var threadnumber: nat
    var threadcount: nat
    var modremainder: nat
    var remainder: nat
    var modulusInt: nat
    var modulusThreadInt: nat
    var modulusExpIntFloor: nat
    var modulusExpIntCeil: nat
    var blockInt: nat

    constructor ()
      ensures remainder == modulusInt == modulusThreadInt == blockInt == 0 && !isMatched
    {
      byteblock := [];
      stop, stopped, isMatched := false, false, false;
      exponent, blocksize, threadnumber, threadcount := 0, 0, 0, 0;
      modremainder, remainder, modulusInt, modulusThreadInt := 0, 0, 0, 0;
      modulusExpIntFloor, modulusExpIntCeil, blockInt := 0, 0, 0;
    }

    method ConvertFloorBase2(modfloor: nat, modint: nat)
      requires modint > 0
      modifies `modremainder
      ensures modremainder == modfloor - modfloor % modint
    {
      modremainder := modfloor % modint;
      if modremainder == 0 {
        modremainder := modfloor;
      } else {
        modremainder := modfloor - modremainder;
      }
    }

    /** Floor and ceiling of the exponent. */
    method SetRange(exp: nat)
      requires modulusInt > 0
      modifies `modulusExpIntFloor, `modremainder, `modulusExpIntCeil
      ensures modremainder == ExponentFloor(exp, modulusInt) && modulusExpIntCeil == Pow2(exp + 1)
    {
      modulusExpIntFloor := ModulusInt(exp);
      ConvertFloorBase2(modulusExpIntFloor, modulusInt);
      modulusExpIntCeil := Pow2(exp + 1);
    }

    /** First block: the floor is a multiple of the modulus itself. */
    method SetModscan(rem: nat, modint: nat, exp: nat, blocks: nat, threadnum: nat, threadcnt: nat)
      requires modint > 0
      requires remainder == modulusInt == modulusThreadInt == blockInt == 0
      modifies this
      ensures blockInt == ScanStart(rem, exp, modint, modint, threadnum)
      ensures modulusInt == modint * threadcnt && modulusThreadInt == threadnum * modint
      ensures modulusExpIntCeil == Pow2(exp + 1)
      ensures exponent == exp && blocksize == blocks && threadnumber == threadnum && threadcount == threadcnt
      ensures !stop && !stopped
    {
      remainder := remainder + rem;
      modulusInt := modulusInt + modint;
      blockInt := blockInt + remainder;
      exponent, blocksize := exp, blocks;
      threadnumber, threadcount := threadnum, threadcnt;
      stop, stopped := false, false;
      SetRange(exponent);
      blockInt := blockInt + modremainder;
      modulusThreadInt := modulusThreadInt + threadnumber;
      modulusThreadInt := modulusThreadInt * modulusInt;
      blockInt := blockInt + modulusThreadInt;
      modulusInt := modulusInt * threadcount;
    }

    /** Later blocks: modulusInt already is the stride of all threads, and the floor is taken
        for it; the thread's own offset is the one computed for the first block. */
    method ResetThread(rem: nat, modexp: nat, blocks: nat, ghost M: nat)
      requires modulusInt > 0 && modulusThreadInt == threadnumber * M
      modifies this
      ensures modulusInt == old(modulusInt) && modulusThreadInt == old(modulusThreadInt)
      ensures threadnumber == old(threadnumber) && threadcount == old(threadcount)
      ensures blockInt == ScanStart(rem, modexp, modulusInt, M, threadnumber)
      ensures modulusExpIntCeil == Pow2(modexp + 1)
      ensures exponent == modexp && blocksize == blocks
      ensures !stop && !stopped
    {
      stop, stopped := false, false;
      exponent := modexp;
      blocksize := blocks;
      remainder, modremainder, blockInt := 0, 0, 0;
      remainder := remainder + rem;
      blockInt := blockInt + remainder;
      SetRange(exponent);
      blockInt := blockInt + modremainder;
      blockInt := blockInt + modulusThreadInt;
    }

    /** The bytes of the current number, and whether it has more digits than the block. */
    method ExportBlock() returns (over: bool)
      modifies `byteblock
      ensures byteblock == Fit(blockInt, blocksize) && (over <==> |Export(blockInt)| > blocksize)
    {
      var count := |Export(blockInt)|;
      over := count > blocksize;
      var buffer := new byte[if count < blocksize then blocksize else count];
      var outside := ExportPadded(buffer, blocksize, blockInt);
      byteblock := buffer[..blocksize];
    }

    /** Tests the current number and, when the line count has been passed, looks at the ceiling. */
    method TestNumber(compare: Bytes -> bool, line: nat, lineCount: nat)
      returns (ended: bool, outcome: Outcome, lineNum: nat, over: bool)
      modifies `byteblock, `isMatched, `stopped
      ensures byteblock == Fit(blockInt, blocksize) && (over <==> |Export(blockInt)| > blocksize)
      ensures ended <==> outcome != Stopped
      ensures outcome == Matched <==> compare(byteblock)
      ensures outcome == GaveUp <==> !compare(byteblock) && line > lineCount && modulusExpIntCeil < blockInt
      ensures outcome == Matched ==> isMatched
      ensures lineNum == if outcome != Matched && line > lineCount then 0 else line
    {
      ended, outcome, lineNum := false, Stopped, line;
      over := ExportBlock();
      if compare(byteblock) {
        isMatched := true;
        ended, outcome := true, Matched;
      } else if lineNum > lineCount {
        lineNum := 0;
        if modulusExpIntCeil < blockInt {
          ended, outcome := true, GaveUp;
          stopped := true;
        }
      }
    }

    /** The scan loop. The controller's stop request is seen before step stopAt; compare is
        the signature test. The ceiling is only looked at every lineCount steps, so the scan
        runs past it. A candidate with more digits than the block runs over the end of the
        thread's buffer; that is reported, and the digits that stay inside are compared. */
    method Decode(stopAt: nat, compare: Bytes -> bool) returns (outcome: Outcome, steps: nat, overran: bool)
      requires !stop
      modifies this
      ensures stopped && blocksize == old(blocksize) && exponent == old(exponent)
      ensures modulusExpIntCeil == old(modulusExpIntCeil)
      ensures modulusInt == old(modulusInt) && modulusThreadInt == old(modulusThreadInt)
      ensures threadnumber == old(threadnumber) && threadcount == old(threadcount)
      ensures forall i :: 0 <= i < steps ==> !compare(Fit(Candidate(old(blockInt), modulusInt, i), blocksize))
      ensures outcome == Matched ==>
                && byteblock == Fit(Candidate(old(blockInt), modulusInt, steps), blocksize)
                && compare(byteblock) && isMatched
      ensures outcome == GaveUp ==>
                && !compare(Fit(Candidate(old(blockInt), modulusInt, steps), blocksize))
                && QuitsAt(threadnumber, modulusExpIntCeil, Candidate(old(blockInt), modulusInt, steps), steps)
      ensures forall i :: 0 <= i < steps ==>
              !QuitsAt(threadnumber, modulusExpIntCeil, Candidate(old(blockInt), modulusInt, i), i)
      ensures outcome == Stopped ==> steps == stopAt
      ensures overran == RunsOver(old(blockInt), modulusInt, blocksize, if outcome == Stopped then steps else steps + 1)
    {
      var lineNum := 0;
      var lineCount := LineCount(threadnumber);
      ghost var first, stride := blockInt, modulusInt;
      outcome, steps, overran := Stopped, 0, false;
      while steps < stopAt
        invariant steps <= stopAt && lineNum == LineNum(threadnumber, steps)
        invariant outcome == Stopped && blockInt == Candidate(first, stride, steps)
        invariant overran == RunsOver(first, stride, blocksize, steps)
        invariant forall i :: 0 <= i < steps ==>
                    && !compare(Fit(Candidate(first, stride, i), blocksize))
                    && !QuitsAt(threadnumber, modulusExpIntCeil, Candidate(first, stride, i), i)
        modifies `byteblock, `isMatched, `stopped, `blockInt
      {
        var ended, over;
        ended, outcome, lineNum, over := TestNumber(compare, lineNum, lineCount);
        overran := overran || over;
        if ended {
          break;
        }
        NextCandidate(first, stride, steps);
        blockInt := blockInt + modulusInt;
        lineNum := lineNum + 1;
        steps := steps + 1;
      }
      stopped := true;
    }
  }
}
