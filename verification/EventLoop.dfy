/** yvent/EventLoop.cpp: the task queue and its wakeup, as atomic steps of the loop thread and
    of any number of other threads. */
module EventLoop {
  import opened Bytes

  type Task = nat
  type Thread = nat

  /** The eventfd counter saturates; a write that would overflow it fails. */
  const COUNTER_MAX: nat := 0xFFFF_FFFF_FFFF_FFFE

  /** Where the loop thread is. `Handling` knows whether the wakeup descriptor is among the
      active channels still to be handled, `Running` whether a task has started. */
  datatype Pc =
    | BeforeLoop
    | CheckQuit
    | Poll
    | Handling(wake: bool)
    | BeforeSwap
    | Running(inTask: bool)
    | Exited

  /** `owing` are the other threads that pushed a task or set quit and still have their wakeup
      write to do; `waking` says the same of the loop thread. `ran` and `pushed` are the tasks
      started from the queue and all tasks ever pushed, `unread` the wakeup writes since the
      counter was last read. */
  datatype Loop = Loop(
    pc: Pc, tasks: seq<Task>, batch: seq<Task>, quit: bool, running: bool, counter: nat,
    owing: set<Thread>, waking: bool, ran: seq<Task>, pushed: seq<Task>, unread: nat)

  const INIT := Loop(BeforeLoop, [], [], false, false, 0, {}, false, [], [], 0)

  datatype Step =
    | Enter                          // loop() starts
    | TestQuit                       // while (!quit_)
    | PollReturns(wake: bool)        // epoll_wait: other descriptors, a signal, or the eventfd
    | ReadCounter                    // handleRead of the wakeup channel
    | StartTasks                     // runningTasks_ = true
    | Swap                           // tasks_.swap under the lock
    | StartTask                      // the next task of the batch
    | EndTasks                       // runningTasks_ = false
    | LoopPost(task: Task)           // addTask by the loop thread: push, then test runningTasks_
    | LoopWake                       // and the write that may follow
    | LoopQuit                       // quit by the loop thread
    | Post(thread: Thread, task: Task)
    | Quit(thread: Thread)
    | Wake(thread: Thread)

  /** User code runs on the loop thread. */
  predicate InUserCode(s: Loop) {
    s.pc.BeforeLoop? || s.pc.Handling? || (s.pc.Running? && s.pc.inTask)
  }

  predicate Enabled(s: Loop, e: Step) {
    match e
    case Enter => s.pc.BeforeLoop?
    case TestQuit => s.pc.CheckQuit?
    case PollReturns(wake) => s.pc.Poll? && (wake ==> s.counter > 0)
    case ReadCounter => s.pc.Handling? && s.pc.wake
    case StartTasks => s.pc.Handling? && !s.pc.wake
    case Swap => s.pc.BeforeSwap?
    case StartTask => s.pc.Running? && !s.waking && s.batch != []
    case EndTasks => s.pc.Running? && !s.waking && s.batch == []
    case LoopPost(_) => InUserCode(s) && !s.waking
    case LoopWake => s.waking
    case LoopQuit => InUserCode(s) && !s.waking
    case Post(thread, _) => thread !in s.owing
    case Quit(thread) => thread !in s.owing
    case Wake(thread) => thread in s.owing
  }

  function Bump(n: nat): nat { if n < COUNTER_MAX then n + 1 else n }

  function Push(s: Loop, task: Task): Loop {
    s.(tasks := s.tasks + [task], pushed := s.pushed + [task])
  }

  function Next(s: Loop, e: Step): Loop
    requires Enabled(s, e)
  {
    match e
    case Enter => s.(pc := CheckQuit)
    case TestQuit => s.(pc := if s.quit then Exited else Poll)
    case PollReturns(wake) => s.(pc := Handling(wake))
    case ReadCounter => s.(pc := Handling(false), counter := 0, unread := 0)
    case StartTasks => s.(pc := BeforeSwap, running := true)
    case Swap => s.(pc := Running(false), batch := s.tasks, tasks := s.batch)
    case StartTask => s.(pc := Running(true), ran := s.ran + [s.batch[0]], batch := s.batch[1..])
    case EndTasks => s.(pc := CheckQuit, running := false)
    case LoopPost(task) => Push(s, task).(waking := s.running)
    case LoopWake => s.(counter := Bump(s.counter), unread := s.unread + 1, waking := false)
    case LoopQuit => s.(quit := true)
    case Post(thread, task) => Push(s, task).(owing := s.owing + {thread})
    case Quit(thread) => s.(quit := true, owing := s.owing + {thread})
    case Wake(thread) => s.(counter := Bump(s.counter), unread := s.unread + 1, owing := s.owing - {thread})
  }

  /** The state after the interleaving `evs`, or None if some step of it was not enabled. */
  function Run(s: Loop, evs: seq<Step>): Option<Loop> {
    if evs == [] then Some(s)
    else
      var m := Run(s, evs[..|evs| - 1]);
      if m.Some? && Enabled(m.value, evs[|evs| - 1]) then Some(Next(m.value, evs[|evs| - 1])) else None
  }

  predicate Legal(s: Loop, evs: seq<Step>) { Run(s, evs).Some? }

  function After(s: Loop, evs: seq<Step>): Loop
    requires Legal(s, evs)
  {
    Run(s, evs).value
  }

  // ---------------------------------------------------------------- the queue

  predicate QueueInv(s: Loop) {
    && s.ran + s.batch + s.tasks == s.pushed
    && (s.pc.Running? || s.batch == [])
  }

  /** What the swap exchanges is the queue and an empty vector, and no task is lost,
      duplicated or reordered. */
  lemma StepKeepsQueue(s: Loop, e: Step)
    requires QueueInv(s) && Enabled(s, e)
    ensures QueueInv(Next(s, e))
  {
  }

  lemma {:induction false} RunKeepsQueue(evs: seq<Step>)
    requires Legal(INIT, evs)
    ensures QueueInv(After(INIT, evs))
    decreases |evs|
  {
    if evs != [] {
      var k := |evs| - 1;
      RunKeepsQueue(evs[..k]);
      StepKeepsQueue(After(INIT, evs[..k]), evs[k]);
    }
  }

  // ---------------------------------------------------------------- the interleaving itself

  function PostedBy(e: Step): seq<Task> { if e.Post? || e.LoopPost? then [e.task] else [] }

  /** The tasks posted in an interleaving, by whichever thread, in order. */
  function Posted(evs: seq<Step>): seq<Task> {
    if evs == [] then [] else Posted(evs[..|evs| - 1]) + PostedBy(evs[|evs| - 1])
  }

  /** How many tasks were started from the queue. */
  function Started(evs: seq<Step>): nat {
    if evs == [] then 0 else Started(evs[..|evs| - 1]) + (if evs[|evs| - 1].StartTask? then 1 else 0)
  }

  function UnreadAfter(n: nat, e: Step): nat {
    if e.ReadCounter? then 0 else if e.Wake? || e.LoopWake? then n + 1 else n
  }

  /** How many wakeup writes came after the last read of the counter. */
  function Unread(evs: seq<Step>): nat {
    if evs == [] then 0 else UnreadAfter(Unread(evs[..|evs| - 1]), evs[|evs| - 1])
  }

  predicate AsksToQuit(e: Step) { e.Quit? || e.LoopQuit? }

  predicate QuitAsked(evs: seq<Step>) { exists e :: e in evs && AsksToQuit(e) }

  predicate OwesAfter(owed: bool, e: Step, thread: Thread) {
    if e == Wake(thread) then false else owed || ((e.Post? || e.Quit?) && e.thread == thread)
  }

  /** The last call of the thread, a post or a quit, still has its write to do. */
  predicate Owes(evs: seq<Step>, thread: Thread) {
    evs != [] && OwesAfter(Owes(evs[..|evs| - 1], thread), evs[|evs| - 1], thread)
  }

  /** What one step does to the history, the counter and the flags. */
  lemma StepRecords(s: Loop, e: Step)
    requires Enabled(s, e)
    ensures Next(s, e).pushed == s.pushed + PostedBy(e)
    ensures |Next(s, e).ran| == |s.ran| + (if e.StartTask? then 1 else 0)
    ensures Next(s, e).quit <==> s.quit || AsksToQuit(e)
    ensures Next(s, e).pc.Exited? ==> s.quit || s.pc.Exited?
  {
  }

  lemma StepSignals(s: Loop, e: Step)
    requires Enabled(s, e)
    ensures Next(s, e).unread == UnreadAfter(s.unread, e)
    ensures s.counter == Saturated(s.unread) ==> Next(s, e).counter == Saturated(UnreadAfter(s.unread, e))
    ensures forall thread :: thread in Next(s, e).owing <==> OwesAfter(thread in s.owing, e, thread)
  {
  }

  function Saturated(n: nat): nat { if n < 0xFFFF_FFFF_FFFF_FFFE then n else 0xFFFF_FFFF_FFFF_FFFE }

  lemma {:induction false} PostsArePushed(evs: seq<Step>)
    requires Legal(INIT, evs)
    ensures After(INIT, evs).pushed == Posted(evs)
    ensures |After(INIT, evs).ran| == Started(evs)
    decreases |evs|
  {
    if evs != [] {
      var k := |evs| - 1;
      PostsArePushed(evs[..k]);
      StepRecords(After(INIT, evs[..k]), evs[k]);
    }
  }

  /** In every interleaving, started tasks, then the rest of the batch, then the queue are the
      tasks posted, in order; so the tasks started are the first ones posted. */
  lemma TasksConserved(evs: seq<Step>)
    requires Legal(INIT, evs)
    ensures var s := After(INIT, evs);
      && s.ran + s.batch + s.tasks == Posted(evs)
      && Started(evs) <= |Posted(evs)| && s.ran == Posted(evs)[..Started(evs)]
  {
    RunKeepsQueue(evs);
    PostsArePushed(evs);
  }

  /** The eventfd counts the wakeup writes not read yet, saturating; a thread owes a write from
      its post or quit until the write. */
  lemma {:induction false} WakeupsExact(evs: seq<Step>)
    requires Legal(INIT, evs)
    ensures var s := After(INIT, evs);
      && s.unread == Unread(evs)
      && s.counter == Saturated(Unread(evs))
      && forall thread :: thread in s.owing <==> Owes(evs, thread)
    decreases |evs|
  {
    if evs != [] {
      var k := |evs| - 1;
      WakeupsExact(evs[..k]);
      StepSignals(After(INIT, evs[..k]), evs[k]);
    }
  }

  lemma QuitAskedNext(evs: seq<Step>)
    requires evs != []
    ensures QuitAsked(evs) <==> QuitAsked(evs[..|evs| - 1]) || AsksToQuit(evs[|evs| - 1])
  {
    var k := |evs| - 1;
    assert evs == evs[..k] + [evs[k]];
    if QuitAsked(evs[..k]) {
      var e :| e in evs[..k] && AsksToQuit(e);
      assert e in evs;
    }
  }

  /** The quit flag is set exactly if some thread asked for it, and the loop ends for no other
      reason. */
  lemma {:induction false} QuitExactly(evs: seq<Step>)
    requires Legal(INIT, evs)
    ensures After(INIT, evs).quit <==> QuitAsked(evs)
    ensures After(INIT, evs).pc.Exited? ==> QuitAsked(evs)
    decreases |evs|
  {
    if evs != [] {
      var k := |evs| - 1;
      QuitExactly(evs[..k]);
      StepRecords(After(INIT, evs[..k]), evs[k]);
      QuitAskedNext(evs);
    }
  }

  /** A poll that reports the eventfd has it read before the loop goes on to the tasks. */
  lemma {:induction false} WakeupIsRead(s: Loop, evs: seq<Step>)
    requires Enabled(s, PollReturns(true)) && Legal(Next(s, PollReturns(true)), evs)
    ensures var r := After(Next(s, PollReturns(true)), evs);
      (r.pc.Handling? && r.pc.wake) || ReadCounter in evs
    decreases |evs|
  {
    if evs != [] {
      var k := |evs| - 1;
      WakeupIsRead(s, evs[..k]);
      assert evs == evs[..k] + [evs[k]];
    }
  }

  // ---------------------------------------------------------------- the wakeup

  /** A wakeup is visible to the next poll or on its way from another thread. */
  predicate Signalled(s: Loop) { s.counter > 0 || s.owing != {} }

  /** No lost wakeup and no lost quit: whenever the loop waits in poll with work to do. */
  predicate NoneLost(s: Loop) {
    s.pc.Poll? && (s.tasks != [] || s.quit) ==> Signalled(s)
  }

  /** `runningTasks_` is set while the swap and the batch are under way, and the loop thread owes
      a wakeup write only in the batch. */
  predicate FlagsAgree(s: Loop) {
    (s.waking ==> s.pc.Running?) && (s.running <==> s.pc.BeforeSwap? || s.pc.Running?)
  }

  /** What holds at every step: besides the above, work queued by a task is signalled before
      the loop looks at quit, and the eventfd is readable only for writes not read yet, so a
      wakeup does not make the loop spin. */
  predicate WakeInv(s: Loop) {
    && NoneLost(s)
    && FlagsAgree(s)
    && (s.pc.Running? && s.tasks != [] ==> Signalled(s) || s.waking)
    && (s.pc.CheckQuit? && s.tasks != [] ==> Signalled(s) || s.quit)
    && (!s.pc.Running? ==> s.batch == [])
    && s.counter == Saturated(s.unread)
  }

  lemma StepKeepsWake(s: Loop, e: Step)
    requires WakeInv(s) && Enabled(s, e)
    requires e.Enter? ==> StartsClean(s)
    ensures WakeInv(Next(s, e))
  {
    match e
    case Post(thread, _) => assert thread in Next(s, e).owing;
    case Quit(thread) => assert thread in Next(s, e).owing;
    case _ =>
  }

  /** What `loop()` needs at its start: nothing queued, or a wakeup on its way, or quit. */
  predicate StartsClean(s: Loop) { s.tasks == [] || Signalled(s) || s.quit }

  lemma {:induction false} RunKeepsWake(s: Loop, evs: seq<Step>)
    requires WakeInv(s) && !s.pc.BeforeLoop? && Legal(s, evs)
    ensures WakeInv(After(s, evs)) && !After(s, evs).pc.BeforeLoop?
    decreases |evs|
  {
    if evs != [] {
      var k := |evs| - 1;
      RunKeepsWake(s, evs[..k]);
      StepKeepsWake(After(s, evs[..k]), evs[k]);
    }
  }

  /** The loop thread posts directly before `loop()` is entered. */
  predicate EarlyPost(s: Loop, e: Step) { s.pc.BeforeLoop? && e.LoopPost? }

  /** In every interleaving without an early post, no wakeup or quit is lost. */
  lemma {:induction false} NoLostWakeup(evs: seq<Step>)
    requires Legal(INIT, evs)
    requires forall k :: 0 <= k < |evs| && Legal(INIT, evs[..k]) ==> !EarlyPost(After(INIT, evs[..k]), evs[k])
    ensures var s := After(INIT, evs);
      WakeInv(s) && NoneLost(s) && (s.pc.BeforeLoop? ==> StartsClean(s))
    decreases |evs|
  {
    if evs != [] {
      var k := |evs| - 1;
      var before := evs[..k];
      forall j | 0 <= j < k && Legal(INIT, before[..j])
        ensures !EarlyPost(After(INIT, before[..j]), before[j])
      {
        assert before[..j] == evs[..j];
      }
      NoLostWakeup(before);
      var s := After(INIT, before);
      assert !EarlyPost(s, evs[k]);
      StepKeepsWake(s, evs[k]);
    }
  }

  /** Without the restriction, the wakeup can be lost: the loop thread posts, enters the loop
      and waits with the task queued. Whether it can depends only on the state at entry. */
  lemma LostExactlyWhen(s: Loop)
    requires s.pc.BeforeLoop? && WakeInv(s)
    ensures (forall evs :: Legal(Next(s, Enter), evs) ==> NoneLost(After(Next(s, Enter), evs))) <==> StartsClean(s)
  {
    var entered := Next(s, Enter);
    if StartsClean(s) {
      forall evs | Legal(entered, evs)
        ensures NoneLost(After(entered, evs))
      {
        RunKeepsWake(entered, evs);
      }
    } else {
      var evs := [TestQuit];
      assert evs[..0] == [] && Legal(entered, evs[..0]);
      assert Legal(entered, evs);
      assert !NoneLost(After(entered, evs));
    }
  }

  lemma EarlyPostIsLost(task: Task)
    ensures var s := Next(INIT, LoopPost(task));
      WakeInv(s) && !StartsClean(s)
  {
  }

  // ---------------------------------------------------------------- progress

  /** `due` has run, or is on its way to run before the loop polls again. */
  predicate Covered(s: Loop, due: seq<Task>) {
    match s.pc
    case BeforeLoop => false
    case Handling(_) => due <= s.pushed
    case BeforeSwap => due <= s.pushed
    case Running(_) => due <= s.ran + s.batch
    case CheckQuit => due <= s.ran
    case Poll => due <= s.ran
    case Exited => due <= s.ran
  }

  lemma StepKeepsCovered(s: Loop, e: Step, due: seq<Task>)
    requires QueueInv(s) && Covered(s, due) && Enabled(s, e)
    ensures Covered(Next(s, e), due)
  {
  }

  /** Every task pushed before a poll returns has been started by the time the loop tests quit,
      polls again or exits, whatever other threads and handlers do in between. */
  lemma {:induction false} QueuedTasksRun(s: Loop, wake: bool, evs: seq<Step>)
    requires QueueInv(s) && Enabled(s, PollReturns(wake))
    requires Legal(Next(s, PollReturns(wake)), evs)
    ensures var r := After(Next(s, PollReturns(wake)), evs);
      && QueueInv(r) && Covered(r, s.pushed)
      && (r.pc.CheckQuit? || r.pc.Poll? || r.pc.Exited? ==> s.pushed <= r.ran)
    decreases |evs|
  {
    if evs == [] {
      StepKeepsQueue(s, PollReturns(wake));
    } else {
      var k := |evs| - 1;
      QueuedTasksRun(s, wake, evs[..k]);
      var m := After(Next(s, PollReturns(wake)), evs[..k]);
      StepKeepsQueue(m, evs[k]);
      StepKeepsCovered(m, evs[k], s.pushed);
    }
  }

  /** The same for an interleaving from the beginning: what was posted before the poll returned
      has been started. */
  lemma PostedTasksRun(before: seq<Step>, wake: bool, evs: seq<Step>)
    requires Legal(INIT, before) && Enabled(After(INIT, before), PollReturns(wake))
    requires Legal(Next(After(INIT, before), PollReturns(wake)), evs)
    ensures var r := After(Next(After(INIT, before), PollReturns(wake)), evs);
      r.pc.CheckQuit? || r.pc.Poll? || r.pc.Exited? ==> Posted(before) <= r.ran
  {
    RunKeepsQueue(before);
    PostsArePushed(before);
    QueuedTasksRun(After(INIT, before), wake, evs);
  }

  lemma {:induction false} RunJoins(s: Loop, a: seq<Step>, b: seq<Step>)
    requires Legal(s, a) && Legal(After(s, a), b)
    ensures Legal(s, a + b) && After(s, a + b) == After(After(s, a), b)
    decreases |b|
  {
    if b == [] {
      assert a + b == a;
    } else {
      var k := |b| - 1;
      RunJoins(s, a, b[..k]);
      assert (a + b)[..|a + b| - 1] == a + b[..k];
    }
  }

  /** From the start of a batch, the loop thread runs it to its end without help. */
  lemma {:induction false} BatchCompletes(s: Loop) returns (evs: seq<Step>)
    requires s.pc.Running? && !s.waking
    ensures Legal(s, evs) && forall e :: e in evs ==> e.StartTask? || e.EndTasks?
    ensures var r := After(s, evs);
      r.pc.CheckQuit? && r.ran == s.ran + s.batch && r.tasks == s.tasks && r.quit == s.quit
    decreases |s.batch|
  {
    if s.batch == [] {
      evs := [EndTasks];
      assert evs[..0] == [] && Legal(s, evs[..0]);
      assert s.ran + s.batch == s.ran;
    } else {
      var first := [StartTask];
      assert first[..0] == [] && Legal(s, first[..0]);
      var m := After(s, first);
      var more := BatchCompletes(m);
      RunJoins(s, first, more);
      Associate(s.ran, [s.batch[0]], s.batch[1..]);
      assert [s.batch[0]] + s.batch[1..] == s.batch;
      evs := first + more;
    }
  }

  /** The steps of the loop thread from the return of poll to the swap. */
  function UpToSwap(wake: bool): seq<Step> {
    if wake then [PollReturns(true), ReadCounter, StartTasks, Swap] else [PollReturns(false), StartTasks, Swap]
  }

  lemma UpToSwapRuns(s: Loop, wake: bool)
    requires s.pc.Poll? && (wake ==> s.counter > 0)
    ensures Legal(s, UpToSwap(wake))
    ensures var r := After(s, UpToSwap(wake));
      && r.pc == Running(false) && r.batch == s.tasks && r.tasks == s.batch
      && r.ran == s.ran && r.waking == s.waking && r.quit == s.quit
  {
    var evs := UpToSwap(wake);
    assert Legal(s, []);
    assert evs[..1] == [PollReturns(wake)] && evs[..1][..0] == [];
    assert Legal(s, evs[..1]);
    assert evs[..2][..1] == evs[..1] && Legal(s, evs[..2]);
    assert evs[..3][..2] == evs[..2] && Legal(s, evs[..3]);
    if wake {
      assert evs[..4] == evs && evs[..4][..3] == evs[..3];
    } else {
      assert evs[..3] == evs;
    }
  }

  /** A round never gets stuck: when poll returns, the loop thread alone can go through it, and
      every task posted before has then been started and none is left. */
  lemma RoundCompletes(before: seq<Step>, wake: bool) returns (evs: seq<Step>)
    requires Legal(INIT, before) && Enabled(After(INIT, before), PollReturns(wake))
    ensures Legal(After(INIT, before), evs)
    ensures forall e :: e in evs ==> !e.Post? && !e.LoopPost?
    ensures var r := After(After(INIT, before), evs);
      r.pc.CheckQuit? && r.ran == Posted(before) && r.tasks == []
  {
    var s := After(INIT, before);
    TasksConserved(before);
    RunKeepsQueue(before);
    PollingIsNotWaking(before);
    UpToSwapRuns(s, wake);
    var m := After(s, UpToSwap(wake));
    var more := BatchCompletes(m);
    RunJoins(s, UpToSwap(wake), more);
    evs := UpToSwap(wake) + more;
    assert s.ran + [] + s.tasks == s.ran + s.tasks;
  }

  /** The loop thread owes a wakeup write only while it runs tasks. */
  lemma {:induction false} PollingIsNotWaking(evs: seq<Step>)
    requires Legal(INIT, evs)
    ensures FlagsAgree(After(INIT, evs))
    decreases |evs|
  {
    if evs != [] {
      var k := |evs| - 1;
      PollingIsNotWaking(evs[..k]);
      StepKeepsFlags(After(INIT, evs[..k]), evs[k]);
    }
  }

  lemma StepKeepsFlags(s: Loop, e: Step)
    requires FlagsAgree(s) && Enabled(s, e)
    ensures FlagsAgree(Next(s, e))
  {
  }

  /** After a quit, from whichever thread, the loop does not go back to waiting: not at all if
      it was elsewhere, and not after the poll it was in. */
  lemma {:induction false} QuitEndsPolling(s: Loop, e: Step, evs: seq<Step>)
    requires Enabled(s, e) && (e.LoopQuit? || e.Quit? || (e.PollReturns? && s.quit))
    requires s.pc.Poll? ==> e.PollReturns?
    requires Legal(Next(s, e), evs)
    ensures After(Next(s, e), evs).quit && !After(Next(s, e), evs).pc.Poll?
    decreases |evs|
  {
    if evs != [] {
      QuitEndsPolling(s, e, evs[..|evs| - 1]);
    }
  }
}
