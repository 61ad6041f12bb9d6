/** The unzip controller and its search threads as interleaved steps: the per-block protocol
    of mdUnzip.cpp, the shared match flag of mdCore/mdMutex.h and the thread loop of
    mdCore/modscanFile.h. Every step reads or writes one shared location; what happens
    between lock() and unlock() is several steps, because the controller reads the flag and
    the thread number without the lock. */
module SearchProtocol {
  import opened Bytes
  import opened Wrappers

  /** What is searched: candidate k of a thread for a block, the signature test of a block,
      and the candidates at which a thread that found no match gives up. */
  datatype Config = Config(
    threads: nat,
    blocks: nat,
    candidate: (nat, nat, nat) -> Bytes,
    matches: (nat, Bytes) -> bool,
    quits: (nat, nat, nat) -> bool)

  datatype Status = Searching | NotFound | Found

  datatype Holder = Free | HeldBy(thread: nat)

  /** stored is a history variable: lastThread was written since the last reset. */
  datatype Mutex = Mutex(isMatched: Status, lastThread: nat, notFound: nat, matchCount: nat, holder: Holder,
                         stored: bool)

  datatype ThreadPc = Guard | Compare | LockMatch | SetFlag | SetLast | Count | LockQuit | IncNotFound | StopEarly
      | Exit | Returned

  /** A modscan object and the thread running on it. A thread that gives up sets stopped
      twice; between the two writes it is lingering. quit is a history variable. */
  datatype Thread = Thread(pc: ThreadPc, stop: bool, stopped: bool, blk: nat, k: nat, buffer: Bytes, lingering: bool,
                           quit: bool)

  datatype Control = Setup(t: nat) | Launch(t: nat) | Wait | Branch | Fetch | Write(m: nat) | Stop(t: nat)
      | Await(t: nat) | Reset | Done

  datatype Written = Written(blk: nat, thread: nat, k: nat, bytes: Bytes)

  datatype State = State(blk: nat, control: Control, mutex: Mutex, threads: seq<Thread>, output: seq<Written>)

  datatype Action = Controller | Step(thread: nat) | Linger(thread: nat)

  // ---------- steps ----------

  function AfterBlock(c: Config, blk: nat): Control {
    if blk < c.blocks then Setup(0) else Done
  }

  /** The mutex between rounds. The constructor leaves lastThread unset. */
  function Cleared(lastThread: nat): Mutex {
    Mutex(Searching, lastThread, 0, 0, Free, false)
  }

  function Init(c: Config, lastThread: nat): State {
    State(0, AfterBlock(c, 0), Cleared(lastThread),
          seq(c.threads, i => Thread(Returned, false, false, 0, 0, [], false, false)), [])
  }

  function ControllerStep(c: Config, s: State): (r: Option<State>)
    requires |s.threads| == c.threads
    ensures r.Some? ==> |r.value.threads| == c.threads
  {
    match s.control
    case Setup(t) =>
      if t < c.threads then
        var th := s.threads[t].(stop := false, stopped := false, blk := s.blk, k := 0, quit := false);
        Some(s.(threads := s.threads[t := th], control := if t + 1 == c.threads then Launch(0) else Setup(t + 1)))
      else None
    case Launch(t) =>
      if t < c.threads && s.threads[t].pc == Returned then
        var th := s.threads[t].(pc := Guard);
        Some(s.(threads := s.threads[t := th], control := if t + 1 == c.threads then Wait else Launch(t + 1)))
      else None
    case Wait =>
      if s.mutex.isMatched != Searching then Some(s.(control := Branch)) else None
    case Branch =>
      Some(s.(control := if s.mutex.isMatched == NotFound then Stop(0) else Fetch))
    case Fetch =>
      Some(s.(control := Write(s.mutex.lastThread)))
    case Write(m) =>
      if m < c.threads then
        var w := Written(s.blk, m, s.threads[m].k, s.threads[m].buffer);
        Some(s.(output := s.output + [w], control := Stop(0)))
      else None
    case Stop(t) =>
      if t < c.threads then
        Some(s.(threads := s.threads[t := s.threads[t].(stop := true)], control := Await(t)))
      else None
    case Await(t) =>
      if t < c.threads && s.threads[t].stopped then
        Some(s.(control := if t + 1 == c.threads then Reset else Stop(t + 1)))
      else None
    case Reset =>
      if s.mutex.holder == Free then
        var ths := seq(c.threads, i requires 0 <= i < c.threads => s.threads[i].(quit := false));
        Some(s.(mutex := Cleared(0), blk := s.blk + 1, threads := ths, control := AfterBlock(c, s.blk + 1)))
      else None
    case Done => None
  }

  function ThreadStep(c: Config, s: State, t: nat): (r: Option<State>)
    requires |s.threads| == c.threads
    ensures r.Some? ==> |r.value.threads| == c.threads
  {
    if t >= c.threads then None else
    var th, m := s.threads[t], s.mutex;
    match th.pc
    case Guard =>
      Some(s.(threads := s.threads[t := th.(pc := if th.stop then Exit else Compare)]))
    case Compare =>
      var b := c.candidate(th.blk, t, th.k);
      var next := if c.matches(th.blk, b) then th.(pc := LockMatch)
                  else if c.quits(th.blk, t, th.k) then th.(pc := LockQuit)
                  else th.(pc := Guard, k := th.k + 1);
      Some(s.(threads := s.threads[t := next.(buffer := b)]))
    case LockMatch =>
      if m.holder == Free then
        Some(s.(threads := s.threads[t := th.(pc := SetFlag)], mutex := m.(holder := HeldBy(t))))
      else None
    case SetFlag =>
      Some(s.(threads := s.threads[t := th.(pc := SetLast)], mutex := m.(isMatched := Found)))
    case SetLast =>
      Some(s.(threads := s.threads[t := th.(pc := Count)], mutex := m.(lastThread := t, stored := true)))
    case Count =>
      Some(s.(threads := s.threads[t := th.(pc := Exit)], mutex := m.(matchCount := m.matchCount + 1, holder := Free)))
    case LockQuit =>
      if m.holder == Free then
        Some(s.(threads := s.threads[t := th.(pc := IncNotFound)], mutex := m.(holder := HeldBy(t))))
      else None
    case IncNotFound =>
      var n := m.notFound + 1;
      Some(s.(threads := s.threads[t := th.(pc := StopEarly, quit := true)],
          mutex := m.(notFound := n, isMatched := if n == c.threads then NotFound else m.isMatched, holder := Free)))
    case StopEarly =>
      Some(s.(threads := s.threads[t := th.(pc := Returned, stopped := true, lingering := true)]))
    case Exit =>
      Some(s.(threads := s.threads[t := th.(pc := Returned, stopped := true)]))
    case Returned => None
  }

  function Next(c: Config, s: State, a: Action): (r: Option<State>)
    requires |s.threads| == c.threads
    ensures r.Some? ==> |r.value.threads| == c.threads
  {
    match a
    case Controller => ControllerStep(c, s)
    case Step(t) => ThreadStep(c, s, t)
    case Linger(t) =>
      if t < c.threads && s.threads[t].lingering
      then Some(s.(threads := s.threads[t := s.threads[t].(stopped := true, lingering := false)])) else None
  }

  predicate Matching(pc: ThreadPc) {
    pc.LockMatch? || pc.SetFlag? || pc.SetLast? || pc.Count?
  }

  /** Some thread has stored its number since the reset, or the thread that happens to be named
      is itself entering setMatched. */
  predicate FetchIsRight(s: State) {
    var t := s.mutex.lastThread;
    s.mutex.stored || (t < |s.threads| && Matching(s.threads[t].pc))
  }

  /** Which of the two accesses that the program leaves unprotected are taken to come at the
      right moment: the read of lastThread, and the preparation of a thread object, which is
      right after the thread that used it has performed its last write. */
  datatype Care = Care(fetch: bool, setups: bool)

  /** All runs of the program. */
  const UNGUARDED := Care(false, false)

  const CAREFUL := Care(true, true)

  predicate Allowed(s: State, a: Action, care: Care) {
    a.Controller? ==>
      && (care.fetch && s.control.Fetch? ==> FetchIsRight(s))
      && (care.setups && s.control.Setup? && s.control.t < |s.threads| ==> !s.threads[s.control.t].lingering)
  }

  /** The state after a run, if every action was possible and allowed. */
  function Run(c: Config, s: State, actions: seq<Action>, care: Care): (r: Option<State>)
    requires |s.threads| == c.threads
    ensures r.Some? ==> |r.value.threads| == c.threads
  {
    if actions == [] then Some(s)
    else
      var before := Run(c, s, actions[..|actions| - 1], care);
      var a := actions[|actions| - 1];
      if before.None? || !Allowed(before.value, a, care) then None else Next(c, before.value, a)
  }

  // ---------- the invariant ----------

  predicate InCritical(pc: ThreadPc) {
    pc.SetFlag? || pc.SetLast? || pc.Count? || pc.IncNotFound?
  }

  /** The thread goes on past every candidate before k: none matches, at none it gives up. */
  ghost predicate Passed(c: Config, blk: nat, t: nat, k: nat) {
    forall i :: 0 <= i < k ==> !c.matches(blk, c.candidate(blk, t, i)) && !c.quits(blk, t, i)
  }

  /** What thread t finds for the block if it is not stopped before. */
  ghost predicate Finds(c: Config, blk: nat, t: nat, k: nat) {
    t < c.threads && c.matches(blk, c.candidate(blk, t, k)) && Passed(c, blk, t, k)
  }

  /** The thread's buffer holds a candidate that passed the signature test. */
  predicate Hit(c: Config, th: Thread, t: nat) {
    th.buffer == c.candidate(th.blk, t, th.k) && c.matches(th.blk, th.buffer)
  }

  /** The thread rejected every candidate up to the one at which it may give up. */
  ghost predicate Gave(c: Config, blk: nat, t: nat, k: nat) {
    c.quits(blk, t, k) && !c.matches(blk, c.candidate(blk, t, k)) && Passed(c, blk, t, k)
  }

  ghost predicate HasGivenUp(c: Config, blk: nat, t: nat) {
    exists k: nat :: Gave(c, blk, t, k)
  }

  ghost predicate Exhausted(c: Config, blk: nat) {
    forall t :: 0 <= t < c.threads ==> HasGivenUp(c, blk, t)
  }

  ghost predicate Fresh(th: Thread, blk: nat) {
    th.pc.Returned? && !th.stop && !th.stopped && !th.lingering && !th.quit && th.blk == blk && th.k == 0
  }

  ghost predicate Old(th: Thread) {
    th.pc.Returned? && !th.quit
  }

  ghost predicate Live(c: Config, th: Thread, t: nat, blk: nat) {
    && th.blk == blk && Passed(c, blk, t, th.k)
    && (th.pc.Returned? <==> th.stopped)
    && (th.lingering ==> th.pc.Returned?)
    && (Matching(th.pc) ==> Hit(c, th, t))
    && (th.pc.LockQuit? || th.pc.IncNotFound? || th.quit ==> Gave(c, blk, t, th.k))
    && (th.quit ==> th.pc.StopEarly? || th.pc.Returned?)
    && (th.pc.StopEarly? ==> th.quit)
  }

  /** What holds of thread t at the controller's position. */
  ghost predicate ThreadOk(c: Config, s: State, t: nat)
    requires |s.threads| == c.threads && t < c.threads
  {
    var th := s.threads[t];
    && (s.mutex.holder == HeldBy(t) <==> InCritical(th.pc))
    && (th.pc.SetLast? || th.pc.Count? ==> s.mutex.isMatched == Found)
    && match s.control
       case Setup(j) => if t < j then Fresh(th, s.blk) else Old(th)
       case Launch(j) => if t < j then Live(c, th, t, s.blk) && Unstopped(th, s.mutex) else Fresh(th, s.blk)
       case Stop(j) => Live(c, th, t, s.blk) && (t < j ==> th.pc.Returned?)
       case Await(j) => Live(c, th, t, s.blk) && (t < j ==> th.pc.Returned?)
       case Reset => Live(c, th, t, s.blk) && th.pc.Returned?
       case Done => Old(th)
       case _ => Live(c, th, t, s.blk) && Unstopped(th, s.mutex)
  }

  /** Before the controller stops it, a thread ends only by a match or by giving up. */
  predicate Unstopped(th: Thread, m: Mutex) {
    !th.stop && (th.pc.Exit? || th.pc.Returned? ==> th.quit || m.stored)
  }

  function Quitters(ths: seq<Thread>): nat {
    if ths == [] then 0 else Quitters(ths[..|ths| - 1]) + (if ths[|ths| - 1].quit then 1 else 0)
  }

  predicate Stored(c: Config, s: State, t: nat)
    requires |s.threads| == c.threads
  {
    && t < c.threads && Hit(c, s.threads[t], t) && !s.threads[t].quit
    && (s.threads[t].pc.Count? || s.threads[t].pc.Exit? || (s.threads[t].pc.Returned? && s.threads[t].stopped))
  }

  /** The thread passed the signature test in this round and did not give up. */
  predicate Accepted(c: Config, s: State, t: nat)
    requires |s.threads| == c.threads
  {
    && t < c.threads && Hit(c, s.threads[t], t) && !s.threads[t].quit
    && (Matching(s.threads[t].pc) || s.threads[t].pc.Exit? || s.threads[t].pc.Returned?)
  }

  ghost predicate MutexOk(c: Config, s: State)
    requires |s.threads| == c.threads
  {
    var m := s.mutex;
    && m.notFound == Quitters(s.threads)
    && (m.holder.HeldBy? ==> m.holder.thread < c.threads)
    && (m.isMatched == NotFound <==> m.notFound == c.threads)
    && (m.stored ==> m.isMatched == Found && Stored(c, s, m.lastThread))
    && (m.isMatched == Found ==> m.stored || (m.holder.HeldBy? && s.threads[m.holder.thread].pc.SetLast?))
  }

  ghost predicate ControlOk(c: Config, s: State)
    requires |s.threads| == c.threads
  {
    && (s.control.Done? <==> s.blk == c.blocks) && s.blk <= c.blocks
    && match s.control
       case Setup(j) => j < c.threads && s.mutex == Cleared(s.mutex.lastThread)
       case Launch(j) => j < c.threads
       case Wait => true
       case Branch => s.mutex.isMatched != Searching
       case Fetch => s.mutex.isMatched == Found
       case Write(m) => s.mutex.isMatched == Found && Accepted(c, s, m)
       case Stop(j) => j < c.threads && s.mutex.isMatched != Searching
       case Await(j) => j < c.threads && s.mutex.isMatched != Searching
       case Reset => s.mutex.isMatched != Searching
       case Done => s.mutex == Cleared(s.mutex.lastThread)
  }

  /** A written block passed the test of its own block number, as the first match of a thread. */
  ghost predicate Genuine(c: Config, w: Written) {
    w.blk < c.blocks && w.bytes == c.candidate(w.blk, w.thread, w.k) && Finds(c, w.blk, w.thread, w.k)
  }

  predicate WroteCurrent(s: State) {
    (s.control.Stop? || s.control.Await? || s.control.Reset?) && s.mutex.isMatched == Found
  }

  /** Blocks with a smaller number than this have been decided. */
  function Decided(s: State): nat {
    if WroteCurrent(s) then s.blk + 1 else s.blk
  }

  ghost predicate InFileOrder(output: seq<Written>) {
    forall i, j :: 0 <= i < j < |output| ==> output[i].blk < output[j].blk
  }

  ghost predicate HasBlock(output: seq<Written>, b: nat) {
    exists i :: 0 <= i < |output| && output[i].blk == b
  }

  ghost predicate OutputOk(c: Config, s: State) {
    && InFileOrder(s.output)
    && (forall i :: 0 <= i < |s.output| ==> Genuine(c, s.output[i]) && s.output[i].blk < Decided(s))
    && (forall b :: 0 <= b < Decided(s) ==> HasBlock(s.output, b) || Exhausted(c, b))
  }

  ghost predicate Inv(c: Config, s: State) {
    && |s.threads| == c.threads >= 1
    && (forall t :: 0 <= t < c.threads ==> ThreadOk(c, s, t))
    && MutexOk(c, s) && ControlOk(c, s) && OutputOk(c, s)
  }

  // ---------- counting the threads that gave up ----------

  lemma {:induction false} QuittersUpdate(ths: seq<Thread>, t: nat, th: Thread)
    requires t < |ths|
    ensures Quitters(ths[t := th]) + (if ths[t].quit then 1 else 0) == Quitters(ths) + (if th.quit then 1 else 0)
  {
    var n := |ths| - 1;
    if t < n {
      QuittersUpdate(ths[..n], t, th);
      assert ths[t := th][..n] == ths[..n][t := th];
    } else {
      assert ths[t := th][..n] == ths[..n];
    }
  }

  lemma {:induction false} QuittersBound(ths: seq<Thread>)
    ensures Quitters(ths) <= |ths|
    ensures Quitters(ths) == |ths| <==> forall t :: 0 <= t < |ths| ==> ths[t].quit
    ensures Quitters(ths) == 0 <==> forall t :: 0 <= t < |ths| ==> !ths[t].quit
  {
    if ths != [] {
      var front := ths[..|ths| - 1];
      QuittersBound(front);
      assert forall t :: 0 <= t < |front| ==> front[t] == ths[t];
    }
  }

  // ---------- every step keeps the invariant ----------

  /** A step of thread t leaves the other threads' conditions alone. */
  lemma {:induction false} OthersKeep(c: Config, s: State, s': State, t: nat)
    requires Inv(c, s) && t < c.threads && |s'.threads| == c.threads
    requires s'.threads == s.threads[t := s'.threads[t]] && s'.control == s.control && s'.blk == s.blk
    requires s.mutex.isMatched == Found ==> s'.mutex.isMatched == Found
    requires s.mutex.stored ==> s'.mutex.stored
    requires s'.mutex.holder == s.mutex.holder
          || (s.mutex.holder == HeldBy(t) && s'.mutex.holder == Free)
          || (s.mutex.holder == Free && s'.mutex.holder == HeldBy(t))
    ensures forall u :: 0 <= u < c.threads && u != t ==> ThreadOk(c, s', u)
  {
    forall u | 0 <= u < c.threads && u != t
      ensures ThreadOk(c, s', u)
    {
      assert ThreadOk(c, s, u);
    }
  }

  /** A thread that runs is live in the current round. */
  lemma {:induction false} RunningIsLive(c: Config, s: State, t: nat)
    requires Inv(c, s) && t < c.threads && !s.threads[t].pc.Returned?
    ensures Live(c, s.threads[t], t, s.blk) && !s.threads[t].stopped
    ensures ThreadOk(c, s, t)
    ensures s.control.Launch? || s.control.Wait? || s.control.Branch? || s.control.Fetch?
         || s.control.Write? || s.control.Stop? || s.control.Await?
  {
    assert ThreadOk(c, s, t);
  }

  lemma {:induction false} GuardStepKeeps(c: Config, s: State, t: nat, s': State)
    requires Inv(c, s) && t < c.threads && ThreadStep(c, s, t) == Some(s') && s.threads[t].pc.Guard?
    ensures Inv(c, s')
  {
    RunningIsLive(c, s, t);
    OthersKeep(c, s, s', t);
    QuittersUpdate(s.threads, t, s'.threads[t]);
    assert ThreadOk(c, s', t);
    assert MutexOk(c, s');
  }

  lemma {:induction false} CompareStepKeeps(c: Config, s: State, t: nat, s': State)
    requires Inv(c, s) && t < c.threads && ThreadStep(c, s, t) == Some(s') && s.threads[t].pc.Compare?
    ensures Inv(c, s')
  {
    RunningIsLive(c, s, t);
    OthersKeep(c, s, s', t);
    QuittersUpdate(s.threads, t, s'.threads[t]);
    assert Live(c, s'.threads[t], t, s.blk) by {
      assert Passed(c, s.blk, t, s'.threads[t].k);
      assert s'.threads[t].pc.LockQuit? ==> Gave(c, s.blk, t, s'.threads[t].k);
    }
    assert ThreadOk(c, s', t);
    assert MutexOk(c, s');
  }

  lemma {:induction false} ExitStepKeeps(c: Config, s: State, t: nat, s': State)
    requires Inv(c, s) && t < c.threads && ThreadStep(c, s, t) == Some(s')
    requires var pc := s.threads[t].pc; pc.StopEarly? || pc.Exit?
    ensures Inv(c, s')
  {
    RunningIsLive(c, s, t);
    OthersKeep(c, s, s', t);
    QuittersUpdate(s.threads, t, s'.threads[t]);
    assert ThreadOk(c, s', t);
    assert MutexOk(c, s');
  }

  lemma {:induction false} LockMatchKeeps(c: Config, s: State, t: nat, s': State)
    requires Inv(c, s) && t < c.threads && ThreadStep(c, s, t) == Some(s') && s.threads[t].pc.LockMatch?
    ensures Inv(c, s')
  {
    RunningIsLive(c, s, t);
    OthersKeep(c, s, s', t);
    QuittersUpdate(s.threads, t, s'.threads[t]);
    assert ThreadOk(c, s', t);
    assert MutexOk(c, s');
  }

  lemma {:induction false} LockQuitKeeps(c: Config, s: State, t: nat, s': State)
    requires Inv(c, s) && t < c.threads && ThreadStep(c, s, t) == Some(s') && s.threads[t].pc.LockQuit?
    ensures Inv(c, s')
  {
    RunningIsLive(c, s, t);
    OthersKeep(c, s, s', t);
    QuittersUpdate(s.threads, t, s'.threads[t]);
    assert ThreadOk(c, s', t);
    assert MutexOk(c, s');
  }

  lemma {:induction false} SetFlagKeeps(c: Config, s: State, t: nat, s': State)
    requires Inv(c, s) && t < c.threads && ThreadStep(c, s, t) == Some(s') && s.threads[t].pc.SetFlag?
    ensures Inv(c, s')
  {
    RunningIsLive(c, s, t);
    OthersKeep(c, s, s', t);
    QuittersUpdate(s.threads, t, s'.threads[t]);
    QuittersBound(s.threads);
    assert !s.threads[t].quit;
    assert ThreadOk(c, s', t);
    assert MutexOk(c, s');
    assert Decided(s') == Decided(s);
  }

  lemma {:induction false} SetLastKeeps(c: Config, s: State, t: nat, s': State)
    requires Inv(c, s) && t < c.threads && ThreadStep(c, s, t) == Some(s') && s.threads[t].pc.SetLast?
    ensures Inv(c, s')
  {
    RunningIsLive(c, s, t);
    OthersKeep(c, s, s', t);
    QuittersUpdate(s.threads, t, s'.threads[t]);
    assert ThreadOk(c, s', t);
    assert MutexOk(c, s');
    assert Decided(s') == Decided(s);
  }

  lemma {:induction false} CountKeeps(c: Config, s: State, t: nat, s': State)
    requires Inv(c, s) && t < c.threads && ThreadStep(c, s, t) == Some(s') && s.threads[t].pc.Count?
    ensures Inv(c, s')
  {
    RunningIsLive(c, s, t);
    OthersKeep(c, s, s', t);
    QuittersUpdate(s.threads, t, s'.threads[t]);
    assert ThreadOk(c, s', t);
    assert MutexOk(c, s');
    assert Decided(s') == Decided(s);
  }

  lemma {:induction false} QuitStepKeeps(c: Config, s: State, t: nat, s': State)
    requires Inv(c, s) && t < c.threads && ThreadStep(c, s, t) == Some(s')
    requires s.threads[t].pc.IncNotFound?
    ensures Inv(c, s')
  {
    RunningIsLive(c, s, t);
    QuittersUpdate(s.threads, t, s'.threads[t]);
    QuittersBound(s'.threads);
    assert s.mutex.isMatched == Found ==> s'.mutex.isMatched == Found by {
      if s.mutex.isMatched == Found {
        assert s'.threads[s.mutex.lastThread] == s.threads[s.mutex.lastThread];
      }
    }
    OthersKeep(c, s, s', t);
    assert ThreadOk(c, s', t);
    assert MutexOk(c, s');
    assert Decided(s') == Decided(s);
  }

  lemma {:induction false} LingerKeeps(c: Config, s: State, t: nat, s': State)
    requires Inv(c, s) && Next(c, s, Linger(t)) == Some(s')
    ensures Inv(c, s')
  {
    OthersKeep(c, s, s', t);
    assert ThreadOk(c, s, t);
    QuittersUpdate(s.threads, t, s'.threads[t]);
    assert ThreadOk(c, s', t);
    assert MutexOk(c, s');
  }

  /** The controller steps that prepare and start threads. */
  lemma {:induction false} SetupKeeps(c: Config, s: State, s': State)
    requires Inv(c, s) && ControllerStep(c, s) == Some(s') && Allowed(s, Controller, CAREFUL) && s.control.Setup?
    ensures Inv(c, s')
  {
    var t := s.control.t;
    forall u | 0 <= u < c.threads
      ensures ThreadOk(c, s', u)
    {
      assert ThreadOk(c, s, u);
      assert u != t ==> s'.threads[u] == s.threads[u];
    }
    assert ThreadOk(c, s, t);
    QuittersUpdate(s.threads, t, s'.threads[t]);
    assert MutexOk(c, s');
  }

  lemma {:induction false} LaunchKeeps(c: Config, s: State, s': State)
    requires Inv(c, s) && ControllerStep(c, s) == Some(s') && s.control.Launch?
    ensures Inv(c, s')
  {
    var t := s.control.t;
    forall u | 0 <= u < c.threads
      ensures ThreadOk(c, s', u)
    {
      assert ThreadOk(c, s, u);
      assert u != t ==> s'.threads[u] == s.threads[u];
    }
    assert ThreadOk(c, s, t);
    QuittersUpdate(s.threads, t, s'.threads[t]);
    assert MutexOk(c, s');
  }

  /** The unprotected read of lastThread names a matching thread exactly when it is right: it
      fails just in the window in which the first match has set the flag but not the number. */
  lemma {:induction false} FetchAccepts(c: Config, s: State)
    requires Inv(c, s) && s.control == Fetch
    ensures Accepted(c, s, s.mutex.lastThread) <==> FetchIsRight(s)
  {
    var t := s.mutex.lastThread;
    if t < c.threads {
      assert ThreadOk(c, s, t);
    }
  }

  lemma {:induction false} WaitKeeps(c: Config, s: State, s': State)
    requires Inv(c, s) && ControllerStep(c, s) == Some(s') && Allowed(s, Controller, CAREFUL)
    requires s.control.Wait? || s.control.Branch? || s.control.Fetch?
    ensures Inv(c, s')
  {
    forall u | 0 <= u < c.threads
      ensures ThreadOk(c, s', u)
    {
      assert ThreadOk(c, s, u);
    }
    assert MutexOk(c, s');
    if s.control.Fetch? {
      FetchAccepts(c, s);
    }
    assert ControlOk(c, s');
    assert Decided(s') == Decided(s);
  }

  lemma {:induction false} WriteKeeps(c: Config, s: State, s': State)
    requires Inv(c, s) && ControllerStep(c, s) == Some(s')
    requires s.control.Write?
    ensures Inv(c, s')
  {
    forall u | 0 <= u < c.threads
      ensures ThreadOk(c, s', u)
    {
      assert ThreadOk(c, s, u);
    }
    assert MutexOk(c, s');
    assert ThreadOk(c, s, s.control.m);
    var n := |s.output|;
    assert Genuine(c, s'.output[n]);
    forall b | 0 <= b < Decided(s')
      ensures HasBlock(s'.output, b) || Exhausted(c, b)
    {
      if b < Decided(s) && HasBlock(s.output, b) {
        var i :| 0 <= i < n && s.output[i].blk == b;
        assert s'.output[i].blk == b;
      } else if b == s.blk {
        assert s'.output[n].blk == b;
      }
    }
  }

  lemma {:induction false} StopKeeps(c: Config, s: State, s': State)
    requires Inv(c, s) && ControllerStep(c, s) == Some(s')
    requires s.control.Stop? || s.control.Await?
    ensures Inv(c, s')
  {
    var t := s.control.t;
    forall u | 0 <= u < c.threads
      ensures ThreadOk(c, s', u)
    {
      assert ThreadOk(c, s, u);
      assert u != t ==> s'.threads[u] == s.threads[u];
    }
    QuittersUpdate(s.threads, t, s'.threads[t]);
    assert s'.threads == s.threads[t := s'.threads[t]];
    assert MutexOk(c, s');
    assert Decided(s') == Decided(s);
  }

  lemma {:induction false} NotFoundIsExhausted(c: Config, s: State)
    requires Inv(c, s) && s.control.Reset? && s.mutex.isMatched == NotFound
    ensures Exhausted(c, s.blk)
  {
    QuittersBound(s.threads);
    forall t | 0 <= t < c.threads
      ensures HasGivenUp(c, s.blk, t)
    {
      assert ThreadOk(c, s, t);
      assert s.threads[t].quit;
      assert Gave(c, s.blk, t, s.threads[t].k);
    }
  }

  lemma {:induction false} ResetKeeps(c: Config, s: State, s': State)
    requires Inv(c, s) && ControllerStep(c, s) == Some(s')
    requires s.control.Reset?
    ensures Inv(c, s')
  {
    forall u | 0 <= u < c.threads
      ensures ThreadOk(c, s', u)
    {
      assert ThreadOk(c, s, u);
    }
    QuittersBound(s'.threads);
    assert MutexOk(c, s');
    if s.mutex.isMatched == NotFound {
      NotFoundIsExhausted(c, s);
    }
    assert Decided(s') == s.blk + 1;
  }

  lemma {:induction false} StepKeepsInv(c: Config, s: State, a: Action, s': State)
    requires Inv(c, s) && Allowed(s, a, CAREFUL) && Next(c, s, a) == Some(s')
    ensures Inv(c, s')
  {
    match a
    case Controller =>
      if s.control.Setup? { SetupKeeps(c, s, s'); }
      else if s.control.Launch? { LaunchKeeps(c, s, s'); }
      else if s.control.Write? { WriteKeeps(c, s, s'); }
      else if s.control.Stop? || s.control.Await? { StopKeeps(c, s, s'); }
      else if s.control.Reset? { ResetKeeps(c, s, s'); }
      else { WaitKeeps(c, s, s'); }
    case Step(t) =>
      var pc := s.threads[t].pc;
      if pc.LockMatch? { LockMatchKeeps(c, s, t, s'); }
      else if pc.LockQuit? { LockQuitKeeps(c, s, t, s'); }
      else if pc.SetFlag? { SetFlagKeeps(c, s, t, s'); }
      else if pc.SetLast? { SetLastKeeps(c, s, t, s'); }
      else if pc.Count? { CountKeeps(c, s, t, s'); }
      else if pc.IncNotFound? { QuitStepKeeps(c, s, t, s'); }
      else if pc.StopEarly? || pc.Exit? { ExitStepKeeps(c, s, t, s'); }
      else if pc.Guard? { GuardStepKeeps(c, s, t, s'); }
      else { CompareStepKeeps(c, s, t, s'); }
    case Linger(t) =>
      LingerKeeps(c, s, t, s');
  }

  /** Of all the steps of the program, exactly the careful ones keep it. */
  lemma {:induction false} StepKeepsInvExactlyWhen(c: Config, s: State, a: Action, s': State)
    requires Inv(c, s) && Next(c, s, a) == Some(s')
    ensures Inv(c, s') <==> Allowed(s, a, CAREFUL)
  {
    if Allowed(s, a, CAREFUL) {
      StepKeepsInv(c, s, a, s');
    } else if s.control.Fetch? {
      FetchAccepts(c, s);
      assert !ControlOk(c, s');
    } else {
      assert !ThreadOk(c, s', s.control.t);
    }
  }

  lemma {:induction false} InitIsInv(c: Config, lastThread: nat)
    requires c.threads >= 1
    ensures Inv(c, Init(c, lastThread))
  {
    QuittersBound(Init(c, lastThread).threads);
  }

  lemma {:induction false} RunKeepsInv(c: Config, s: State, actions: seq<Action>)
    requires Inv(c, s) && Run(c, s, actions, CAREFUL).Some?
    ensures Inv(c, Run(c, s, actions, CAREFUL).value)
  {
    if actions != [] {
      var front := actions[..|actions| - 1];
      RunKeepsInv(c, s, front);
      StepKeepsInv(c, Run(c, s, front, CAREFUL).value, actions[|actions| - 1], Run(c, s, actions, CAREFUL).value);
    }
  }
}
