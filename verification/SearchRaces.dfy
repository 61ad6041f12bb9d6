/** The two accesses that the program leaves unprotected go wrong in every search in which they
    can: for each there is a run that breaks the protocol's promises. So the promises hold of
    all runs exactly in a safe search. */
module SearchRaces {
  import opened SearchProtocol
  import opened SearchSafety
  import opened SearchProgress

  // ---------- the thread number is read before it is stored ----------

  /** If a thread finds a block before which the stale number names another one, the controller
      can take over that stale number: it sees the flag and reads the number before the
      finder has stored its own. */
  lemma {:induction false} StaleNumberRun(c: Config, lastThread: nat, care: Care, b: nat, t: nat, k: nat)
    returns (actions: seq<Action>, s: State)
    requires c.threads >= 1 && b < c.blocks && AllCanBeDecided(c, b) && !care.fetch
    requires Finds(c, b, t, k) && t != StaleNumber(lastThread, b)
    ensures Reached(c, Init(c, lastThread), actions, s, care)
    ensures s.blk == b && s.control == Write(StaleNumber(lastThread, b)) && !Accepted(c, s, StaleNumber(lastThread, b))
    ensures b == 0 && lastThread < c.threads ==> s.threads[lastThread].k == 0 && s.threads[lastThread].buffer == []
    ensures b == 0 ==> s.output == []
  {
    var s0 := Init(c, lastThread);
    var output := SomeOutput(c, b);
    actions, s := RunTo(c, lastThread, care, output, b);
    actions, s := Open(c, s0, actions, s, care, lastThread);
    actions, s := RaiseFlag(c, s0, actions, s, care, t, k);
    actions, s := Do(c, s0, actions, s, care, Controller);
    actions, s := Do(c, s0, actions, s, care, Controller);
    actions, s := Do(c, s0, actions, s, care, Controller);
  }

  /** In the first round such a run writes an untouched buffer. */
  lemma {:induction false} StaleNumberIsWritten(c: Config, lastThread: nat, care: Care, t: nat, k: nat)
    returns (actions: seq<Action>, s: State)
    requires lastThread < c.threads && c.blocks > 0 && !care.fetch && Finds(c, 0, t, k) && t != lastThread
    ensures Reached(c, Init(c, lastThread), actions, s, care) && s.output == [Written(0, lastThread, 0, [])]
  {
    actions, s := StaleNumberRun(c, lastThread, care, 0, t, k);
    actions, s := Do(c, Init(c, lastThread), actions, s, care, Controller);
  }

  // ---------- a thread object is written late ----------

  /** No thread both finds a block and gives it up. */
  lemma {:induction false} FindersDoNotGiveUp(c: Config, blk: nat, t: nat, k: nat)
    requires Finds(c, blk, t, k)
    ensures !HasGivenUp(c, blk, t)
  {
    forall k': nat
      ensures !Gave(c, blk, t, k')
    {
      if k' < k {
        assert !c.quits(blk, t, k');
      }
    }
  }

  predicate OnlyLingers(s: State, t: nat) {
    forall u :: 0 <= u < |s.threads| ==> (s.threads[u].lingering <==> u == t)
  }

  /** A round that ends while thread t, which gave up, still has to write stopped again. */
  lemma {:induction false} LingeringRound(c: Config, s0: State, actions: seq<Action>, s: State, care: Care,
                                          lastThread: nat, t: nat)
    returns (actions': seq<Action>, s': State)
    requires c.threads >= 1 && Reached(c, s0, actions, s, care) && Between(c, s, lastThread) && NoneLingers(s)
    requires s.blk < c.blocks && CanBeDecided(c, s.blk) && t < c.threads && HasGivenUp(c, s.blk, t)
    ensures Reached(c, s0, actions', s', care) && Between(c, s', lastThread) && OnlyLingers(s', t)
    ensures s'.blk == s.blk + 1
  {
    actions', s' := Open(c, s0, actions, s, care, lastThread);
    if SomeoneFinds(c, s.blk) {
      var k: nat :| Gave(c, s.blk, t, k);
      var f: nat, i: nat :| Finds(c, s.blk, f, i);
      FindersDoNotGiveUp(c, s.blk, f, i);
      actions', s' := GiveUp(c, s0, actions', s', care, t, k);
      actions', s' := Do(c, s0, actions', s', care, Step(t));
      actions', s' := FindAndWrite(c, s0, actions', s', care, f, i);
    } else {
      actions', s' := GiveUpBlock(c, s0, actions', s', care, t);
    }
    actions', s' := Close(c, s0, actions', s', care);
  }

  /** A round whose threads are prepared before that late write. The write makes the controller
      believe that thread t has ended: the round is over while it is still running. */
  lemma {:induction false} LateRound(c: Config, s0: State, actions: seq<Action>, s: State, care: Care, lastThread: nat,
                                     t: nat)
    returns (actions': seq<Action>, s': State)
    requires c.threads >= 1 && Reached(c, s0, actions, s, care) && Between(c, s, lastThread) && OnlyLingers(s, t)
    requires s.blk < c.blocks && CanBeDecided(c, s.blk) && t < c.threads && !care.setups
    ensures Reached(c, s0, actions', s', care) && s'.blk == s.blk + 1 && s'.control == AfterBlock(c, s.blk + 1)
    ensures !s'.threads[t].pc.Returned?
  {
    actions', s' := Open(c, s0, actions, s, care, lastThread);
    actions', s' := Do(c, s0, actions', s', care, Linger(t));
    if SomeoneFinds(c, s.blk) {
      var f: nat, i: nat :| Finds(c, s.blk, f, i);
      actions', s' := FindAndWrite(c, s0, actions', s', care, f, i);
    } else {
      actions', s' := GiveUpBlock(c, s0, actions', s', care, c.threads);
    }
    actions', s' := Close(c, s0, actions', s', care);
  }

  /** If a thread gives up a block before the last one, a later round can start, or the program
      end, while that thread is still running. */
  lemma {:induction false} LateStopRun(c: Config, lastThread: nat, care: Care, b: nat, t: nat)
    returns (actions: seq<Action>, s: State)
    requires c.threads >= 1 && b + 1 < c.blocks && AllCanBeDecided(c, b + 2) && !care.setups
    requires t < c.threads && HasGivenUp(c, b, t)
    ensures Reached(c, Init(c, lastThread), actions, s, care)
    ensures s.control == AfterBlock(c, b + 2) && !s.threads[t].pc.Returned?
  {
    var s0 := Init(c, lastThread);
    var output := SomeOutput(c, b);
    actions, s := RunTo(c, lastThread, care, output, b);
    assert CanBeDecided(c, b) && CanBeDecided(c, b + 1);
    actions, s := LingeringRound(c, s0, actions, s, care, lastThread, t);
    actions, s := LateRound(c, s0, actions, s, care, lastThread, t);
  }

  // ---------- when all runs keep the promises ----------

  ghost predicate AllRunsSound(c: Config, lastThread: nat, care: Care) {
    forall actions: seq<Action> ::
      var r := Run(c, Init(c, lastThread), actions, care);
      r.Some? ==> Sound(c, r.value)
  }

  /** All runs are sound exactly in a safe search: without care for the read of the thread
      number no thread may find a block but the one the stale number names, and without care
      for the preparation no thread may give up a block before the last one. */
  lemma {:induction false} SoundExactlyWhen(c: Config, lastThread: nat, care: Care)
    requires c.threads >= 1 && AllCanBeDecided(c, c.blocks)
    ensures AllRunsSound(c, lastThread, care) <==> Safe(c, lastThread, care)
  {
    if Safe(c, lastThread, care) {
      forall actions: seq<Action> | Run(c, Init(c, lastThread), actions, care).Some?
        ensures Sound(c, Run(c, Init(c, lastThread), actions, care).value)
      {
        SafeRunsAreSound(c, lastThread, actions, care);
      }
    } else if !care.fetch && !OnlyStaleFinds(c, lastThread) {
      var b: nat, t: nat, k: nat :| b < c.blocks && Finds(c, b, t, k) && t != StaleNumber(lastThread, b);
      var actions, s := StaleNumberRun(c, lastThread, care, b, t, k);
      assert !Sound(c, s);
    } else {
      var b: nat, t: nat :| b + 1 < c.blocks && t < c.threads && HasGivenUp(c, b, t);
      var actions, s := LateStopRun(c, lastThread, care, b, t);
      assert !Sound(c, s);
    }
  }
}
