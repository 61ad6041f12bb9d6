/** Runs that exist: if every block is found by some thread or given up by all, the search can
    be completed, and the careful runs write exactly the possible outputs. */
module SearchProgress {
  import opened Wrappers
  import opened SearchProtocol
  import opened SearchSafety

  ghost predicate Reached(c: Config, s0: State, actions: seq<Action>, s: State, care: Care) {
    |s0.threads| == |s.threads| == c.threads && Run(c, s0, actions, care) == Some(s)
  }

  /** One more step at the end of a run. */
  lemma {:induction false} Do(c: Config, s0: State, actions: seq<Action>, s: State, care: Care, a: Action)
    returns (actions': seq<Action>, s': State)
    requires Reached(c, s0, actions, s, care) && Next(c, s, a).Some? && Allowed(s, a, care)
    ensures actions' == actions + [a] && Next(c, s, a) == Some(s') && Reached(c, s0, actions', s', care)
  {
    actions', s' := actions + [a], Next(c, s, a).value;
    assert actions'[..|actions'| - 1] == actions;
  }

  // ---------- preparing and starting the threads ----------

  predicate Prepared(th: Thread, blk: nat) {
    th.pc.Returned? && !th.stop && !th.stopped && !th.quit && th.blk == blk && th.k == 0
  }

  /** At the loop test with no stop request; stopped may have been written by an older thread. */
  predicate Running(th: Thread, blk: nat) {
    th.pc.Guard? && !th.stop && !th.quit && th.blk == blk
  }

  predicate Started(th: Thread, blk: nat) {
    Running(th, blk) && !th.stopped && th.k == 0
  }

  /** What preparing and starting a thread leaves alone. */
  predicate SameRest(s: State, s': State) {
    |s.threads| == |s'.threads| && forall u :: 0 <= u < |s.threads| ==>
      s'.threads[u].lingering == s.threads[u].lingering && s'.threads[u].buffer == s.threads[u].buffer
  }

  lemma {:induction false} SetUp(c: Config, s0: State, actions: seq<Action>, s: State, care: Care, j: nat)
    returns (actions': seq<Action>, s': State)
    requires Reached(c, s0, actions, s, care) && s.control == Setup(j) && j < c.threads
    requires forall u :: 0 <= u < c.threads ==> s.threads[u].pc.Returned? && (u < j ==> Prepared(s.threads[u], s.blk))
    requires care.setups ==> forall u :: 0 <= u < c.threads ==> !s.threads[u].lingering
    ensures Reached(c, s0, actions', s', care) && s' == s.(control := Launch(0), threads := s'.threads)
    ensures SameRest(s, s') && forall u :: 0 <= u < c.threads ==> Prepared(s'.threads[u], s.blk)
    decreases c.threads - j
  {
    actions', s' := Do(c, s0, actions, s, care, Controller);
    if j + 1 < c.threads {
      actions', s' := SetUp(c, s0, actions', s', care, j + 1);
    }
  }

  lemma {:induction false} LaunchAll(c: Config, s0: State, actions: seq<Action>, s: State, care: Care, j: nat)
    returns (actions': seq<Action>, s': State)
    requires Reached(c, s0, actions, s, care) && s.control == Launch(j) && j < c.threads
    requires forall u :: 0 <= u < c.threads ==>
               if u < j then Started(s.threads[u], s.blk) else Prepared(s.threads[u], s.blk)
    ensures Reached(c, s0, actions', s', care) && s' == s.(control := Wait, threads := s'.threads)
    ensures SameRest(s, s') && forall u :: 0 <= u < c.threads ==> Started(s'.threads[u], s.blk)
    decreases c.threads - j
  {
    actions', s' := Do(c, s0, actions, s, care, Controller);
    if j + 1 < c.threads {
      actions', s' := LaunchAll(c, s0, actions', s', care, j + 1);
    }
  }

  /** Between two rounds. A thread that gave up may still be lingering. */
  ghost predicate Between(c: Config, s: State, lastThread: nat) {
    && |s.threads| == c.threads && s.blk <= c.blocks && s.control == AfterBlock(c, s.blk)
    && s.mutex == Cleared(StaleNumber(lastThread, s.blk))
    && forall u :: 0 <= u < c.threads ==> s.threads[u].pc.Returned?
  }

  predicate NoneLingers(s: State) {
    forall u :: 0 <= u < |s.threads| ==> !s.threads[u].lingering
  }

  lemma {:induction false} Open(c: Config, s0: State, actions: seq<Action>, s: State, care: Care, lastThread: nat)
    returns (actions': seq<Action>, s': State)
    requires c.threads >= 1 && Reached(c, s0, actions, s, care) && Between(c, s, lastThread) && s.blk < c.blocks
    requires care.setups ==> NoneLingers(s)
    ensures Reached(c, s0, actions', s', care) && s' == s.(control := Wait, threads := s'.threads)
    ensures SameRest(s, s') && forall u :: 0 <= u < c.threads ==> Started(s'.threads[u], s.blk)
  {
    actions', s' := SetUp(c, s0, actions, s, care, 0);
    actions', s' := LaunchAll(c, s0, actions', s', care, 0);
  }

  // ---------- one thread alone ----------

  /** Thread t goes on up to candidate k. */
  lemma {:induction false} Scan(c: Config, s0: State, actions: seq<Action>, s: State, care: Care, t: nat, k: nat)
    returns (actions': seq<Action>, s': State)
    requires Reached(c, s0, actions, s, care) && t < c.threads && Passed(c, s.blk, t, k)
    requires Running(s.threads[t], s.blk) && s.threads[t].k <= k
    ensures Reached(c, s0, actions', s', care) && s' == s.(threads := s.threads[t := s'.threads[t]])
    ensures var th := s'.threads[t];
            && Running(th, s.blk) && th.k == k
            && th.stopped == s.threads[t].stopped && th.lingering == s.threads[t].lingering
    decreases k - s.threads[t].k
  {
    actions', s' := actions, s;
    if s.threads[t].k < k {
      actions', s' := Do(c, s0, actions', s', care, Step(t));
      actions', s' := Do(c, s0, actions', s', care, Step(t));
      actions', s' := Scan(c, s0, actions', s', care, t, k);
    }
  }

  /** What a thread keeps while it goes through its last steps for candidate k. */
  predicate SameObject(before: Thread, th: Thread, k: nat) {
    th.blk == before.blk && th.k == k && th.stopped == before.stopped && th.lingering == before.lingering
  }

  /** It finds its match and stands before the lock. */
  lemma {:induction false} Match(c: Config, s0: State, actions: seq<Action>, s: State, care: Care, t: nat, k: nat)
    returns (actions': seq<Action>, s': State)
    requires Reached(c, s0, actions, s, care) && Finds(c, s.blk, t, k)
    requires Running(s.threads[t], s.blk) && s.threads[t].k <= k
    ensures Reached(c, s0, actions', s', care) && s' == s.(threads := s.threads[t := s'.threads[t]])
    ensures var th := s'.threads[t];
            th.pc.LockMatch? && th.buffer == c.candidate(s.blk, t, k) && SameObject(s.threads[t], th, k)
  {
    actions', s' := Scan(c, s0, actions, s, care, t, k);
    actions', s' := Do(c, s0, actions', s', care, Step(t));
    actions', s' := Do(c, s0, actions', s', care, Step(t));
  }

  /** It raises the flag; its number is not stored yet. */
  lemma {:induction false} RaiseFlag(c: Config, s0: State, actions: seq<Action>, s: State, care: Care, t: nat, k: nat)
    returns (actions': seq<Action>, s': State)
    requires Reached(c, s0, actions, s, care) && Finds(c, s.blk, t, k) && s.mutex.holder == Free
    requires Running(s.threads[t], s.blk) && s.threads[t].k <= k
    ensures Reached(c, s0, actions', s', care)
    ensures s' == s.(threads := s.threads[t := s'.threads[t]],
                     mutex := s.mutex.(isMatched := Found, holder := HeldBy(t)))
    ensures var th := s'.threads[t];
            th.pc.SetLast? && th.buffer == c.candidate(s.blk, t, k) && SameObject(s.threads[t], th, k)
  {
    actions', s' := Match(c, s0, actions, s, care, t, k);
    actions', s' := Do(c, s0, actions', s', care, Step(t));
    actions', s' := Do(c, s0, actions', s', care, Step(t));
  }

  /** How a thread ends: it returns, unless its object counts as stopped already; then it may
      as well stay where it is. */
  predicate EndsAt(before: Thread, th: Thread, pc: ThreadPc) {
    th.stopped && th.lingering == before.lingering && th.pc == if before.stopped then pc else Returned
  }

  /** It stores its number and leaves the lock. */
  lemma {:induction false} StoreNumber(c: Config, s0: State, actions: seq<Action>, s: State, care: Care, t: nat)
    returns (actions': seq<Action>, s': State)
    requires Reached(c, s0, actions, s, care) && t < c.threads && s.threads[t].pc.SetLast?
    ensures Reached(c, s0, actions', s', care)
    ensures var m := s.mutex.(lastThread := t, stored := true, matchCount := s.mutex.matchCount + 1, holder := Free);
            s' == s.(threads := s.threads[t := s.threads[t].(pc := Exit)], mutex := m)
  {
    actions', s' := Do(c, s0, actions, s, care, Step(t));
    actions', s' := Do(c, s0, actions', s', care, Step(t));
  }

  /** The thread finds its match, stores its number and ends. */
  lemma {:induction false} Find(c: Config, s0: State, actions: seq<Action>, s: State, care: Care, t: nat, k: nat)
    returns (actions': seq<Action>, s': State)
    requires Reached(c, s0, actions, s, care) && Finds(c, s.blk, t, k) && s.mutex.holder == Free
    requires Running(s.threads[t], s.blk) && s.threads[t].k <= k
    ensures Reached(c, s0, actions', s', care) && s' == s.(threads := s.threads[t := s'.threads[t]], mutex := s'.mutex)
    ensures s'.mutex.isMatched == Found && s'.mutex.lastThread == t && s'.mutex.stored && s'.mutex.holder == Free
    ensures EndsAt(s.threads[t], s'.threads[t], Exit)
    ensures s'.threads[t].k == k && s'.threads[t].buffer == c.candidate(s.blk, t, k)
  {
    actions', s' := RaiseFlag(c, s0, actions, s, care, t, k);
    actions', s' := StoreNumber(c, s0, actions', s', care, t);
    if !s.threads[t].stopped {
      actions', s' := Do(c, s0, actions', s', care, Step(t));
    }
  }

  /** The thread rejects its last candidate and stands before the lock. */
  lemma {:induction false} Reject(c: Config, s0: State, actions: seq<Action>, s: State, care: Care, t: nat, k: nat)
    returns (actions': seq<Action>, s': State)
    requires Reached(c, s0, actions, s, care) && t < c.threads && Gave(c, s.blk, t, k)
    requires Running(s.threads[t], s.blk) && s.threads[t].k <= k
    ensures Reached(c, s0, actions', s', care) && s' == s.(threads := s.threads[t := s'.threads[t]])
    ensures s'.threads[t].pc.LockQuit? && SameObject(s.threads[t], s'.threads[t], k)
  {
    actions', s' := Scan(c, s0, actions, s, care, t, k);
    actions', s' := Do(c, s0, actions', s', care, Step(t));
    actions', s' := Do(c, s0, actions', s', care, Step(t));
  }

  /** The thread gives up, up to its first write of stopped. */
  lemma {:induction false} GiveUp(c: Config, s0: State, actions: seq<Action>, s: State, care: Care, t: nat, k: nat)
    returns (actions': seq<Action>, s': State)
    requires Reached(c, s0, actions, s, care) && t < c.threads && Gave(c, s.blk, t, k) && s.mutex.holder == Free
    requires Running(s.threads[t], s.blk) && s.threads[t].k <= k
    ensures Reached(c, s0, actions', s', care) && s' == s.(threads := s.threads[t := s'.threads[t]], mutex := s'.mutex)
    ensures var n := s.mutex.notFound + 1;
            s'.mutex == s.mutex.(notFound := n, isMatched := if n == c.threads then NotFound else s.mutex.isMatched)
    ensures s'.threads[t].pc.StopEarly? && s'.threads[t].quit && SameObject(s.threads[t], s'.threads[t], k)
  {
    actions', s' := Reject(c, s0, actions, s, care, t, k);
    actions', s' := Do(c, s0, actions', s', care, Step(t));
    actions', s' := Do(c, s0, actions', s', care, Step(t));
  }

  // ---------- deciding a round ----------

  /** What the controller writes for a find. */
  function FindOf(c: Config, blk: nat, t: nat, k: nat): Written {
    Written(blk, t, k, c.candidate(blk, t, k))
  }

  /** One thread finds its match and the controller writes it. */
  lemma {:induction false} FindAndWrite(c: Config, s0: State, actions: seq<Action>, s: State, care: Care, t: nat,
                                        k: nat)
    returns (actions': seq<Action>, s': State)
    requires Reached(c, s0, actions, s, care) && s.control == Wait && Finds(c, s.blk, t, k) && s.mutex.holder == Free
    requires Running(s.threads[t], s.blk) && s.threads[t].k <= k
    ensures Reached(c, s0, actions', s', care)
    ensures s' == s.(threads := s.threads[t := s'.threads[t]], mutex := s'.mutex, control := Stop(0),
                     output := s.output + [FindOf(c, s.blk, t, k)])
    ensures s'.mutex.holder == Free && EndsAt(s.threads[t], s'.threads[t], Exit)
  {
    actions', s' := Find(c, s0, actions, s, care, t, k);
    actions', s' := Do(c, s0, actions', s', care, Controller);
    actions', s' := Do(c, s0, actions', s', care, Controller);
    actions', s' := Do(c, s0, actions', s', care, Controller);
    actions', s' := Do(c, s0, actions', s', care, Controller);
  }

  /** All threads give up, one after the other. Thread keep does not get to its second write
      of stopped. */
  lemma {:induction false} GiveUpAll(c: Config, s0: State, actions: seq<Action>, s: State, care: Care, j: nat,
                                     keep: nat)
    returns (actions': seq<Action>, s': State)
    requires Reached(c, s0, actions, s, care) && j <= c.threads && Exhausted(c, s.blk)
    requires s.mutex.holder == Free && s.mutex.notFound == j && (j == c.threads ==> s.mutex.isMatched == NotFound)
    requires forall u :: j <= u < c.threads ==>
             Running(s.threads[u], s.blk) && s.threads[u].k == 0 && !s.threads[u].lingering
    ensures Reached(c, s0, actions', s', care) && s' == s.(threads := s'.threads, mutex := s'.mutex)
    ensures s'.mutex.holder == Free && s'.mutex.isMatched == NotFound
    ensures forall u :: 0 <= u < c.threads ==>
              if u < j then s'.threads[u] == s.threads[u]
              else if u == keep && !s.threads[u].stopped
              then s'.threads[u].pc.Returned? && s'.threads[u].stopped && s'.threads[u].lingering
              else EndsAt(s.threads[u], s'.threads[u], StopEarly)
    decreases c.threads - j
  {
    actions', s' := actions, s;
    if j < c.threads {
      assert HasGivenUp(c, s.blk, j);
      var k: nat :| Gave(c, s.blk, j, k);
      actions', s' := GiveUp(c, s0, actions', s', care, j, k);
      if !s.threads[j].stopped {
        actions', s' := Do(c, s0, actions', s', care, Step(j));
        if j != keep {
          actions', s' := Do(c, s0, actions', s', care, Linger(j));
        }
      }
      actions', s' := GiveUpAll(c, s0, actions', s', care, j + 1, keep);
    }
  }

  /** All threads give up and the controller sees it. */
  lemma {:induction false} GiveUpBlock(c: Config, s0: State, actions: seq<Action>, s: State, care: Care, keep: nat)
    returns (actions': seq<Action>, s': State)
    requires c.threads >= 1 && Reached(c, s0, actions, s, care) && s.control == Wait && Exhausted(c, s.blk)
    requires s.mutex == Cleared(s.mutex.lastThread)
    requires forall u :: 0 <= u < c.threads ==>
             Running(s.threads[u], s.blk) && s.threads[u].k == 0 && !s.threads[u].lingering
    ensures Reached(c, s0, actions', s', care)
    ensures s' == s.(threads := s'.threads, mutex := s'.mutex, control := Stop(0)) && s'.mutex.holder == Free
    ensures forall u :: 0 <= u < c.threads ==>
              if u == keep && !s.threads[u].stopped
              then s'.threads[u].pc.Returned? && s'.threads[u].stopped && s'.threads[u].lingering
              else EndsAt(s.threads[u], s'.threads[u], StopEarly)
  {
    actions', s' := GiveUpAll(c, s0, actions, s, care, 0, keep);
    actions', s' := Do(c, s0, actions', s', care, Controller);
    actions', s' := Do(c, s0, actions', s', care, Controller);
  }

  // ---------- ending a round ----------

  lemma {:induction false} StopOne(c: Config, s0: State, actions: seq<Action>, s: State, care: Care, j: nat)
    returns (actions': seq<Action>, s': State)
    requires Reached(c, s0, actions, s, care) && s.control == Stop(j) && j < c.threads
    requires s.threads[j].stopped || Running(s.threads[j], s.blk)
    ensures Reached(c, s0, actions', s', care)
    ensures s' == s.(control := if j + 1 == c.threads then Reset else Stop(j + 1), threads := s'.threads)
    ensures forall u :: 0 <= u < c.threads ==>
              if u != j then s'.threads[u] == s.threads[u] else EndsAt(s.threads[u], s'.threads[u], s.threads[u].pc)
  {
    actions', s' := Do(c, s0, actions, s, care, Controller);
    if !s.threads[j].stopped {
      actions', s' := Do(c, s0, actions', s', care, Step(j));
      actions', s' := Do(c, s0, actions', s', care, Step(j));
    }
    actions', s' := Do(c, s0, actions', s', care, Controller);
  }

  /** The controller waits for threads it can still stop and believes the others. */
  lemma {:induction false} StopAll(c: Config, s0: State, actions: seq<Action>, s: State, care: Care, j: nat)
    returns (actions': seq<Action>, s': State)
    requires Reached(c, s0, actions, s, care) && s.control == Stop(j) && j < c.threads
    requires forall u :: j <= u < c.threads ==> s.threads[u].stopped || Running(s.threads[u], s.blk)
    ensures Reached(c, s0, actions', s', care) && s' == s.(control := Reset, threads := s'.threads)
    ensures forall u :: 0 <= u < c.threads ==>
              if u < j then s'.threads[u] == s.threads[u] else EndsAt(s.threads[u], s'.threads[u], s.threads[u].pc)
    decreases c.threads - j
  {
    actions', s' := StopOne(c, s0, actions, s, care, j);
    if j + 1 < c.threads {
      actions', s' := StopAll(c, s0, actions', s', care, j + 1);
    }
  }

  lemma {:induction false} Close(c: Config, s0: State, actions: seq<Action>, s: State, care: Care)
    returns (actions': seq<Action>, s': State)
    requires c.threads >= 1 && Reached(c, s0, actions, s, care) && s.control == Stop(0) && s.mutex.holder == Free
    requires forall u :: 0 <= u < c.threads ==> s.threads[u].stopped || Running(s.threads[u], s.blk)
    ensures Reached(c, s0, actions', s', care)
    ensures s' == State(s.blk + 1, AfterBlock(c, s.blk + 1), Cleared(0), s'.threads, s.output)
    ensures forall u :: 0 <= u < c.threads ==> EndsAt(s.threads[u], s'.threads[u], s.threads[u].pc)
  {
    actions', s' := StopAll(c, s0, actions, s, care, 0);
    actions', s' := Do(c, s0, actions', s', care, Controller);
  }

  // ---------- whole rounds ----------

  /** A round in which thread t finds candidate k. */
  lemma {:induction false} FindRound(c: Config, s0: State, actions: seq<Action>, s: State, care: Care, lastThread: nat,
                                     t: nat, k: nat)
    returns (actions': seq<Action>, s': State)
    requires c.threads >= 1 && Reached(c, s0, actions, s, care) && Between(c, s, lastThread) && NoneLingers(s)
    requires s.blk < c.blocks && Finds(c, s.blk, t, k)
    ensures Reached(c, s0, actions', s', care) && Between(c, s', lastThread) && NoneLingers(s')
    ensures s'.blk == s.blk + 1 && s'.output == s.output + [FindOf(c, s.blk, t, k)]
  {
    actions', s' := Open(c, s0, actions, s, care, lastThread);
    actions', s' := FindAndWrite(c, s0, actions', s', care, t, k);
    actions', s' := Close(c, s0, actions', s', care);
  }

  /** A round in which every thread gives up. */
  lemma {:induction false} EmptyRound(c: Config, s0: State, actions: seq<Action>, s: State, care: Care, lastThread: nat)
    returns (actions': seq<Action>, s': State)
    requires c.threads >= 1 && Reached(c, s0, actions, s, care) && Between(c, s, lastThread) && NoneLingers(s)
    requires s.blk < c.blocks && Exhausted(c, s.blk)
    ensures Reached(c, s0, actions', s', care) && Between(c, s', lastThread) && NoneLingers(s')
    ensures s'.blk == s.blk + 1 && s'.output == s.output
  {
    actions', s' := Open(c, s0, actions, s, care, lastThread);
    actions', s' := GiveUpBlock(c, s0, actions', s', care, c.threads);
    actions', s' := Close(c, s0, actions', s', care);
  }

  // ---------- whole runs ----------

  /** What the blocks below n can have come to: a find of some thread each, or nothing where
      every thread gives up. */
  ghost predicate Possible(c: Config, output: seq<Written>, n: nat) {
    && InFileOrder(output) && (forall i :: 0 <= i < |output| ==> Genuine(c, output[i]) && output[i].blk < n)
    && forall b :: 0 <= b < n ==> HasBlock(output, b) || Exhausted(c, b)
  }

  /** The first i entries of the output belong to blocks below n, the next one does not. */
  ghost predicate CutAt(output: seq<Written>, n: nat, i: nat) {
    && i <= |output| && (forall j :: 0 <= j < i ==> output[j].blk < n)
    && (i < |output| ==> n <= output[i].blk)
  }

  /** The next block is the next one of the output, or none. */
  lemma {:induction false} NextEntry(c: Config, output: seq<Written>, n: nat, blk: nat, i: nat)
    requires Possible(c, output, n) && blk < n && CutAt(output, blk, i)
    ensures if i < |output| && output[i].blk == blk then CutAt(output, blk + 1, i + 1)
            else CutAt(output, blk + 1, i) && Exhausted(c, blk)
  {
    if i < |output| && output[i].blk == blk {
      assert forall j :: i < j < |output| ==> output[i].blk < output[j].blk;
    } else {
      assert forall j :: i < j < |output| ==> output[i].blk < output[j].blk;
      assert !HasBlock(output, blk);
    }
  }

  /** Rounds that write a given output. */
  lemma {:induction false} Rounds(c: Config, s0: State, actions: seq<Action>, s: State, care: Care, lastThread: nat,
                                  output: seq<Written>, n: nat, i: nat)
    returns (actions': seq<Action>, s': State)
    requires c.threads >= 1 && Reached(c, s0, actions, s, care) && Between(c, s, lastThread) && NoneLingers(s)
    requires s.blk <= n <= c.blocks && Possible(c, output, n) && CutAt(output, s.blk, i) && s.output == output[..i]
    ensures Reached(c, s0, actions', s', care) && Between(c, s', lastThread) && NoneLingers(s')
    ensures s'.blk == n && s'.output == output && (s.blk == n ==> s' == s)
    decreases n - s.blk
  {
    actions', s' := actions, s;
    if s.blk < n {
      NextEntry(c, output, n, s.blk, i);
      if i < |output| && output[i].blk == s.blk {
        assert Genuine(c, output[i]);
        actions', s' := FindRound(c, s0, actions, s, care, lastThread, output[i].thread, output[i].k);
        assert s'.output == output[..i + 1];
        actions', s' := Rounds(c, s0, actions', s', care, lastThread, output, n, i + 1);
      } else {
        actions', s' := EmptyRound(c, s0, actions, s, care, lastThread);
        actions', s' := Rounds(c, s0, actions', s', care, lastThread, output, n, i);
      }
    } else {
      assert output[..i] == output;
    }
  }

  /** A run up to block n that has written a given output. */
  lemma {:induction false} RunTo(c: Config, lastThread: nat, care: Care, output: seq<Written>, n: nat)
    returns (actions: seq<Action>, s: State)
    requires c.threads >= 1 && n <= c.blocks && Possible(c, output, n)
    ensures Reached(c, Init(c, lastThread), actions, s, care) && Between(c, s, lastThread) && NoneLingers(s)
    ensures s.blk == n && s.output == output && (n == 0 ==> s == Init(c, lastThread))
  {
    var s0 := Init(c, lastThread);
    actions, s := Rounds(c, s0, [], s0, care, lastThread, output, n, 0);
  }

  /** The blocks written by a run that is done. */
  ghost predicate Writes(c: Config, lastThread: nat, care: Care, actions: seq<Action>, output: seq<Written>) {
    var r := Run(c, Init(c, lastThread), actions, care);
    r.Some? && r.value.control == Done && r.value.output == output
  }

  /** A safe search can end with exactly the possible outputs: any find of any thread for each
      block that is found, in file order, and nothing for some or all of the blocks that every
      thread may give up. */
  lemma {:induction false} OutputsExactly(c: Config, lastThread: nat, care: Care, output: seq<Written>)
    requires c.threads >= 1 && Safe(c, lastThread, care)
    ensures (exists actions: seq<Action> :: Writes(c, lastThread, care, actions, output))
            <==> Possible(c, output, c.blocks)
  {
    if Possible(c, output, c.blocks) {
      var actions, s := RunTo(c, lastThread, care, output, c.blocks);
      assert Writes(c, lastThread, care, actions, output);
    }
    forall actions: seq<Action> | Writes(c, lastThread, care, actions, output)
      ensures Possible(c, output, c.blocks)
    {
      SafeRunsAreSound(c, lastThread, actions, care);
    }
  }

  // ---------- possible outputs ----------

  ghost predicate SomeoneFinds(c: Config, blk: nat) {
    exists t: nat, k: nat :: Finds(c, blk, t, k)
  }

  /** The round for this block ends if nobody is delayed for ever. */
  ghost predicate CanBeDecided(c: Config, blk: nat) {
    SomeoneFinds(c, blk) || Exhausted(c, blk)
  }

  ghost predicate AllCanBeDecided(c: Config, n: nat) {
    forall blk :: 0 <= blk < n ==> CanBeDecided(c, blk)
  }

  /** One more block. */
  lemma {:induction false} ExtendOutput(c: Config, output: seq<Written>, n: nat, t: nat, k: nat)
    requires Possible(c, output, n) && n < c.blocks && Finds(c, n, t, k)
    ensures Possible(c, output + [FindOf(c, n, t, k)], n + 1)
  {
    var longer := output + [FindOf(c, n, t, k)];
    assert Genuine(c, longer[|output|]) && longer[|output|].blk == n;
    forall b | 0 <= b < n && HasBlock(output, b)
      ensures HasBlock(longer, b)
    {
      var i :| 0 <= i < |output| && output[i].blk == b;
      assert longer[i].blk == b;
    }
  }

  lemma {:induction false} SomeOutput(c: Config, n: nat) returns (output: seq<Written>)
    requires n <= c.blocks && AllCanBeDecided(c, n)
    ensures Possible(c, output, n)
  {
    output := [];
    if n > 0 {
      output := SomeOutput(c, n - 1);
      assert CanBeDecided(c, n - 1);
      if SomeoneFinds(c, n - 1) {
        var t: nat, k: nat :| Finds(c, n - 1, t, k);
        ExtendOutput(c, output, n - 1, t, k);
        output := output + [FindOf(c, n - 1, t, k)];
      }
    }
  }

  /** Any find of any thread is part of a possible output. */
  lemma {:induction false} OutputWith(c: Config, n: nat, blk: nat, t: nat, k: nat) returns (output: seq<Written>)
    requires blk < n <= c.blocks && AllCanBeDecided(c, n) && Finds(c, blk, t, k)
    ensures Possible(c, output, n) && FindOf(c, blk, t, k) in output
  {
    if blk == n - 1 {
      output := SomeOutput(c, n - 1);
      ExtendOutput(c, output, n - 1, t, k);
      output := output + [FindOf(c, n - 1, t, k)];
    } else {
      output := OutputWith(c, n - 1, blk, t, k);
      assert CanBeDecided(c, n - 1);
      if SomeoneFinds(c, n - 1) {
        var t': nat, k': nat :| Finds(c, n - 1, t', k');
        ExtendOutput(c, output, n - 1, t', k');
        output := output + [FindOf(c, n - 1, t', k')];
      }
    }
  }

  /** If every block can be decided, whatever some thread finds for a block is written by some
      run that is done. */
  lemma {:induction false} AnyFindCanBeWritten(c: Config, lastThread: nat, care: Care, b: nat, t: nat, k: nat)
    returns (actions: seq<Action>, output: seq<Written>)
    requires c.threads >= 1 && AllCanBeDecided(c, c.blocks)
    requires b < c.blocks && Finds(c, b, t, k)
    ensures Writes(c, lastThread, care, actions, output) && FindOf(c, b, t, k) in output
  {
    output := OutputWith(c, c.blocks, b, t, k);
    var s;
    actions, s := RunTo(c, lastThread, care, output, c.blocks);
  }

  /** In particular the search can be completed. */
  lemma {:induction false} SearchCanComplete(c: Config, lastThread: nat, care: Care) returns (actions: seq<Action>)
    requires c.threads >= 1 && AllCanBeDecided(c, c.blocks)
    ensures var r := Run(c, Init(c, lastThread), actions, care);
            r.Some? && r.value.control == Done
  {
    var output := SomeOutput(c, c.blocks);
    var s;
    actions, s := RunTo(c, lastThread, care, output, c.blocks);
  }
}
