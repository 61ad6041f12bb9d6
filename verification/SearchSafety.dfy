/** What holds along every run of the search protocol, with or without care for the two
    accesses that the program leaves unprotected. */
module SearchSafety {
  import opened Wrappers
  import opened SearchProtocol

  // ---------- searches that need no care ----------

  /** The thread number that is there before the first match of a round: unset in the first
      round, reset to 0 before the others. */
  function StaleNumber(lastThread: nat, blk: nat): nat {
    if blk == 0 then lastThread else 0
  }

  /** No thread but the one named by the stale number finds a block. */
  ghost predicate OnlyStaleFinds(c: Config, lastThread: nat) {
    forall b: nat, t: nat, k: nat :: b < c.blocks && Finds(c, b, t, k) ==> t == StaleNumber(lastThread, b)
  }

  /** No thread can give up a block before the last one. */
  ghost predicate NoEarlyGiveUp(c: Config) {
    forall b: nat, t: nat :: b + 1 < c.blocks && t < c.threads ==> !HasGivenUp(c, b, t)
  }

  /** Every unprotected access is either cared for or harmless in this search. */
  ghost predicate Safe(c: Config, lastThread: nat, care: Care) {
    (care.fetch || OnlyStaleFinds(c, lastThread)) && (care.setups || NoEarlyGiveUp(c))
  }

  /** Until a thread has stored its number the stale one is there, and a thread that still has
      to write its object gave up the block it was started for. */
  ghost predicate History(c: Config, s: State, lastThread: nat) {
    && (!s.mutex.stored ==> s.mutex.lastThread == StaleNumber(lastThread, s.blk))
    && forall t :: 0 <= t < |s.threads| && s.threads[t].lingering ==>
         && HasGivenUp(c, s.threads[t].blk, t) && s.threads[t].blk <= s.blk
         && (s.control.Setup? && s.control.t <= t ==> s.threads[t].blk < s.blk)
  }

  lemma {:induction false} ThreadStepKeepsHistory(c: Config, s: State, t: nat, s': State, lastThread: nat)
    requires Inv(c, s) && History(c, s, lastThread) && t < c.threads && ThreadStep(c, s, t) == Some(s')
    ensures History(c, s', lastThread)
  {
    RunningIsLive(c, s, t);
    if s.threads[t].pc.StopEarly? {
      assert Gave(c, s.blk, t, s.threads[t].k);
      assert HasGivenUp(c, s.blk, t);
    }
  }

  lemma {:induction false} ControllerKeepsHistory(c: Config, s: State, s': State, lastThread: nat)
    requires Inv(c, s) && History(c, s, lastThread)
    requires Allowed(s, Controller, CAREFUL) && ControllerStep(c, s) == Some(s')
    ensures History(c, s', lastThread)
  {
    if s.control.Reset? {
      forall t | 0 <= t < c.threads
        ensures s.threads[t].blk == s.blk
      {
        assert ThreadOk(c, s, t);
      }
    }
  }

  /** In a safe search every step is a careful one. */
  lemma {:induction false} SafeStepIsCareful(c: Config, s: State, a: Action, lastThread: nat, care: Care)
    requires Inv(c, s) && History(c, s, lastThread) && Safe(c, lastThread, care) && Allowed(s, a, care)
    ensures Allowed(s, a, CAREFUL)
  {
    if a.Controller? && s.control.Fetch? && !care.fetch && !s.mutex.stored {
      var h := s.mutex.holder.thread;
      assert ThreadOk(c, s, h);
      assert Finds(c, s.blk, h, s.threads[h].k);
    }
  }

  lemma {:induction false} SafeRunsAreCareful(c: Config, lastThread: nat, actions: seq<Action>, care: Care)
    requires c.threads >= 1 && Safe(c, lastThread, care)
    ensures var r := Run(c, Init(c, lastThread), actions, care);
            && r == Run(c, Init(c, lastThread), actions, CAREFUL)
            && (r.Some? ==> Inv(c, r.value) && History(c, r.value, lastThread))
  {
    InitIsInv(c, lastThread);
    if actions != [] {
      var front, a := actions[..|actions| - 1], actions[|actions| - 1];
      SafeRunsAreCareful(c, lastThread, front, care);
      var before := Run(c, Init(c, lastThread), front, care);
      if before.Some? && Allowed(before.value, a, care) {
        SafeStepIsCareful(c, before.value, a, lastThread, care);
        if Next(c, before.value, a).Some? {
          var s' := Next(c, before.value, a).value;
          StepKeepsInv(c, before.value, a, s');
          if a.Controller? {
            ControllerKeepsHistory(c, before.value, s', lastThread);
          } else if a.Step? {
            ThreadStepKeepsHistory(c, before.value, a.thread, s', lastThread);
          }
        }
      }
    }
  }

  // ---------- what a run keeps ----------

  /** Nothing found, nothing counted, nobody in the lock and no thread running. */
  ghost predicate Clean(c: Config, s: State) {
    && s.mutex.isMatched == Searching && s.mutex.notFound == 0 && s.mutex.holder == Free
    && |s.threads| == c.threads && forall t :: 0 <= t < c.threads ==> s.threads[t].pc.Returned?
  }

  ghost predicate BetweenRounds(s: State) {
    s.control == Setup(0) || s.control == Done
  }

  /** Every round starts clean, only a thread that passed the test of the round is written, the
      output is in file order, and at the end a block is missing only if all gave it up. */
  ghost predicate Sound(c: Config, s: State)
    requires |s.threads| == c.threads
  {
    && (BetweenRounds(s) ==> Clean(c, s))
    && (s.control.Write? ==> Accepted(c, s, s.control.m))
    && InFileOrder(s.output) && (forall i :: 0 <= i < |s.output| ==> Genuine(c, s.output[i]))
    && (s.control == Done ==> forall b :: 0 <= b < c.blocks ==> HasBlock(s.output, b) || Exhausted(c, b))
  }

  lemma {:induction false} InvIsSound(c: Config, s: State)
    requires Inv(c, s)
    ensures Sound(c, s)
  {
    if BetweenRounds(s) {
      QuittersBound(s.threads);
      forall t | 0 <= t < c.threads
        ensures s.threads[t].pc.Returned?
      {
        assert ThreadOk(c, s, t);
      }
    }
  }

  /** Every run of a safe search is sound. */
  lemma {:induction false} SafeRunsAreSound(c: Config, lastThread: nat, actions: seq<Action>, care: Care)
    requires c.threads >= 1 && Safe(c, lastThread, care)
    ensures var r := Run(c, Init(c, lastThread), actions, care);
            r.Some? ==> Sound(c, r.value)
  {
    SafeRunsAreCareful(c, lastThread, actions, care);
    var r := Run(c, Init(c, lastThread), actions, care);
    if r.Some? {
      InvIsSound(c, r.value);
    }
  }

  /** A careful run is a run. */
  lemma {:induction false} CarefulRunsAreRuns(c: Config, s: State, actions: seq<Action>, care: Care)
    requires |s.threads| == c.threads && Run(c, s, actions, CAREFUL).Some?
    ensures Run(c, s, actions, care) == Run(c, s, actions, CAREFUL)
  {
    if actions != [] {
      CarefulRunsAreRuns(c, s, actions[..|actions| - 1], care);
    }
  }

  // ---------- care along one run ----------

  /** Every thread number fetched so far was that of a thread that had passed the test. */
  ghost predicate FetchesAccepted(c: Config, s: State, actions: seq<Action>, care: Care)
    requires |s.threads| == c.threads
  {
    actions == [] ||
    (var front := actions[..|actions| - 1];
     FetchesAccepted(c, s, front, care)
     && var before := Run(c, s, front, care);
        before.Some? && before.value.control == Fetch && actions[|actions| - 1] == Controller ==>
          Accepted(c, before.value, before.value.mutex.lastThread))
  }

  /** Along any run whose thread objects are prepared in time, all fetches took a thread that
      had passed the test exactly when each of them came at the right moment. */
  lemma {:induction false} FetchesAcceptedExactlyWhen(c: Config, lastThread: nat, actions: seq<Action>)
    requires c.threads >= 1 && Run(c, Init(c, lastThread), actions, Care(false, true)).Some?
    ensures FetchesAccepted(c, Init(c, lastThread), actions, Care(false, true))
            <==> Run(c, Init(c, lastThread), actions, CAREFUL).Some?
    ensures Run(c, Init(c, lastThread), actions, CAREFUL).Some? ==>
              Run(c, Init(c, lastThread), actions, CAREFUL) == Run(c, Init(c, lastThread), actions, Care(false, true))
  {
    InitIsInv(c, lastThread);
    if actions != [] {
      var front := actions[..|actions| - 1];
      FetchesAcceptedExactlyWhen(c, lastThread, front);
      var before := Run(c, Init(c, lastThread), front, CAREFUL);
      if before.Some? {
        RunKeepsInv(c, Init(c, lastThread), front);
        if before.value.control == Fetch {
          FetchAccepts(c, before.value);
        }
      }
    }
  }
}
