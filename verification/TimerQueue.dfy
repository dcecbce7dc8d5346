/** yvent/TimerQueue.cpp and yvent/Timer.cpp in their own form: timer objects, the ordered set
    and the expiry loop. Every method is tied to runs of the machine of module Timers. */
module TimerQueues {
  import opened Bytes
  import T = Timers

  class Timer {
    const address: T.Id
    const interval: int
    var when: int
    var canceled: bool
    ghost const first: int
    ghost var runs: nat

    ghost function View(): T.Timer
      reads this
    {
      T.Timer(when, interval, canceled, first, runs)
    }

    constructor (address: T.Id, when: int, interval: int)
      ensures this.address == address
      ensures View() == T.Timer(when, interval, false, when, 0)
    {
      this.address, this.interval, this.when, this.canceled := address, interval, when, false;
      first, runs := when, 0;
    }

    function Repeat(): bool { interval > 0 }

    method Restart()
      requires Repeat()
      modifies this
      ensures View() == old(View()).(when := old(when) + interval, runs := old(runs) + 1)
    {
      when := when + interval;
      runs := runs + 1;
    }

    method Cancel()
      requires !canceled
      modifies this
      ensures View() == old(View()).(canceled := true)
    {
      canceled := true;
    }
  }

  class TimerQueue {
    var timers: seq<T.Entry>
    var heap: map<T.Id, Timer>    // the live timer objects by address
    var next: T.Id
    var fd: T.Fd
    var clock: int
    ghost var armedAt: int
    ghost var phase: T.Phase
    ghost var freed: seq<T.Id>
    ghost var starts: seq<T.Start>

    ghost predicate Valid()
      reads this, heap.Values
    {
      forall a :: a in heap ==> a < next && heap[a].address == a
    }

    ghost function View(): T.Queue
      reads this, heap.Values
    {
      T.Queue(timers, map a | a in heap :: heap[a].View(), next, freed, phase, fd, armedAt, clock, starts)
    }

    constructor (now: int)
      ensures Valid() && heap == map[] && View() == T.Initial(now) && T.Reachable(View())
    {
      timers, heap, next, fd, clock := [], map[], 0, T.Disarmed, now;
      armedAt, phase, freed, starts := now, T.Idle, [], [];
      new;
      T.InitialReachable(now);
    }

    method SetTimer(when: int, now: int)
      requires Valid()
      modifies this`fd, this`armedAt, this`clock
      ensures Valid() && View() == T.SetTimer(old(View()), when, now)
    {
      var duration := when - now;
      if duration < T.MILLISECOND {
        duration := T.MILLISECOND;
      }
      var time := T.Timespec(duration / T.SECOND, duration % T.SECOND);
      T.TimespecExact(when, now);
      fd := T.Armed(now + time.sec * T.SECOND + time.nsec);
      armedAt, clock := now, now;
    }

    method AddTimer(when: int, interval: int, now: int) returns (timer: Timer)
      requires Valid() && T.Enabled(View(), T.Add(when, interval, now))
      modifies this
      ensures Valid() && fresh(heap.Values - old(heap.Values)) && fresh(timer)
      ensures timer.address == old(next) && timer.address in heap && heap[timer.address] == timer
      ensures View() == T.AddTimer(old(View()), when, interval, now)
    {
      timer := Allocate(when, interval);
      ghost var live := View().heap;
      timers := T.Insert(timers, T.Entry(when, timer.address));
      assert View().heap == live;
      if |timers| != 0 && timers[0] == T.Entry(when, timer.address) {
        SetTimer(when, now);
      } else {
        clock := now;
        assert View().heap == live;
      }
    }

    /** `new Timer`: an address never used before. */
    method Allocate(when: int, interval: int) returns (timer: Timer)
      requires Valid()
      modifies this`heap, this`next
      ensures Valid() && fresh(heap.Values - old(heap.Values)) && fresh(timer)
      ensures timer.address == old(next) && heap == old(heap)[timer.address := timer]
      ensures View() == old(View()).(heap := old(View()).heap[old(next) := T.Timer(when, interval, false, when, 0)],
                                     next := old(next) + 1)
    {
      timer := new Timer(next, when, interval);
      ghost var was := View();
      heap := heap[next := timer];
      next := next + 1;
      assert View().heap == was.heap[was.next := timer.View()];
    }

    method Delete(id: T.Id)
      requires Valid() && id in heap
      modifies this`heap, this`freed
      ensures Valid() && heap.Values <= old(heap.Values)
      ensures View() == T.Free(old(View()), id)
    {
      ghost var was := View();
      heap := heap - {id};
      freed := freed + [id];
      assert View().heap == was.heap - {id};
    }

    method CancelTimer(timer: Timer)
      requires Valid() && timer.address in heap && heap[timer.address] == timer
      requires T.Enabled(View(), T.Cancel(timer.address))
      modifies this, timer
      ensures Valid() && heap.Values <= old(heap.Values)
      ensures View() == T.CancelTimer(old(View()), timer.address)
    {
      ghost var was := View();
      timer.Cancel();
      assert View().heap == was.heap[timer.address := timer.View()];
      var entry := T.Entry(timer.when, timer.address);
      if entry in timers {
        timers := T.Erase(timers, entry);
        Delete(timer.address);
      }
    }

    /** The calls of a callback, made while it is running. `steps` is the machine's account. */
    method MakeCalls(calls: seq<T.Call>) returns (ghost steps: seq<T.Step>)
      requires Valid() && T.Reachable(View()) && T.UserHasControl(View())
      modifies this, heap.Values
      ensures Valid() && fresh(heap.Values - old(heap.Values))
      ensures View() == T.AfterCalls(old(View()), calls)
      ensures T.Run(old(View()), steps) == Some(View()) && T.NoEnd(steps)
      ensures T.Reachable(View()) && phase == old(phase)
    {
      steps := [];
      ghost var start := View();
      for i := 0 to |calls|
        invariant Valid() && fresh(heap.Values - old(heap.Values))
        invariant View() == T.AfterCalls(start, calls[..i])
        invariant T.Run(start, steps) == Some(View()) && T.NoEnd(steps)
        invariant T.Reachable(View()) && phase == old(phase)
      {
        ghost var step := MakeCall(calls[i]);
        assert calls[..i + 1][..i] == calls[..i];
        if step.Some? {
          steps := steps + [step.value];
        }
      }
      assert calls[..|calls|] == calls;
    }

    method MakeCall(call: T.Call) returns (ghost step: Option<T.Step>)
      requires Valid() && T.Reachable(View()) && T.UserHasControl(View())
      modifies this, heap.Values
      ensures Valid() && fresh(heap.Values - old(heap.Values))
      ensures View() == T.AfterCall(old(View()), call)
      ensures step == if T.Enabled(old(View()), T.StepOf(call)) then Some(T.StepOf(call)) else None
      ensures T.Reachable(View()) && phase == old(phase)
    {
      step := None;
      ghost var was := View();
      match call
      case AddCall(when, interval, now) =>
        if clock <= now {
          var timer := AddTimer(when, interval, now);
          step := Some(T.Add(when, interval, now));
          T.ReachableNext(was, step.value);
        }
      case CancelCall(id) =>
        if id in heap && !heap[id].canceled {
          CancelTimer(heap[id]);
          step := Some(T.Cancel(id));
          T.ReachableNext(was, step.value);
        }
    }

    /** `getExpired`: the due entries leave the set. */
    method GetExpired(now: int) returns (entries: seq<T.Entry>)
      requires Valid() && phase.Idle?
      modifies this`timers
      ensures Valid()
      ensures entries == old(timers)[..T.DueCount(old(timers), now)]
      ensures timers == old(timers)[T.DueCount(old(timers), now)..]
    {
      var n := 0;
      while n < |timers| && timers[n].when <= now
        invariant n <= |timers|
        invariant T.DueCount(timers, now) == n + T.DueCount(timers[n..], now)
      {
        assert timers[n..][1..] == timers[n + 1..];
        n := n + 1;
      }
      entries := timers[..n];
      timers := timers[n..];
    }

    /** One round of the loop in `handleRead`: free a cancelled timer, or run the callback and
        then reinsert or free its timer. */
    method Process(e: T.Entry, turn: T.Turn) returns (ghost steps: seq<T.Step>)
      requires Valid() && T.Reachable(View())
      requires phase.Pass? && phase.running.None? && phase.rest != [] && phase.rest[0] == e
      modifies this, heap.Values
      ensures Valid() && fresh(heap.Values - old(heap.Values))
      ensures T.AfterTurn(old(View()), turn) == Some(View())
      ensures T.Run(old(View()), steps) == Some(View()) && T.NoEnd(steps)
      ensures T.Reachable(View())
      ensures phase == old(phase).(rest := old(phase).rest[1..])
    {
      hide T.Run, T.Reachable, T.AfterCalls;
      ghost var start := View();
      T.PassEntriesLive(start);
      var runs := TakeEntry(e, turn.at);
      ghost var take := T.Take(clock);
      T.ReachableNext(start, take);
      if runs {
        ghost var inside, returned := RunCallback(e, turn.calls);
        T.RoundRuns(start, take, inside, returned, T.Finish);
        steps := [take] + inside + [T.Finish];
      } else {
        T.RunOne(start, take);
        steps := [take];
      }
    }

    /** The callback with its calls, and what happens to its timer afterwards. */
    method RunCallback(e: T.Entry, calls: seq<T.Call>) returns (ghost inside: seq<T.Step>, ghost returned: T.Queue)
      requires Valid() && T.Reachable(View())
      requires phase.Pass? && phase.running == Some(e)
      modifies this, heap.Values
      ensures Valid() && fresh(heap.Values - old(heap.Values))
      ensures returned == T.AfterCalls(old(View()), calls) && T.Run(old(View()), inside) == Some(returned)
      ensures T.NoEnd(inside)
      ensures T.Enabled(returned, T.Finish) && View() == T.Next(returned, T.Finish)
      ensures T.Reachable(View()) && phase == old(phase).(running := None)
    {
      inside := MakeCalls(calls);
      returned := View();
      T.PassEntriesLive(returned);
      CompleteRun(e);
      T.ReachableNext(returned, T.Finish);
    }

    /** The test of `canceled()` and, unless it holds, the start of the callback. */
    method TakeEntry(e: T.Entry, at: int) returns (runs: bool)
      requires Valid() && e.id in heap
      requires phase.Pass? && phase.running.None? && phase.rest != [] && phase.rest[0] == e
      modifies this
      ensures Valid() && heap.Values <= old(heap.Values)
      ensures clock == T.Later(old(clock), at)
      ensures T.Enabled(old(View()), T.Take(clock)) && View() == T.Next(old(View()), T.Take(clock))
      ensures phase == old(phase).(rest := old(phase).rest[1..], running := if runs then Some(e) else None)
    {
      clock := if at < clock then clock else at;
      phase := phase.(rest := phase.rest[1..]);
      ghost var live := old(View()).heap;
      assert View().heap == live;
      var timer := heap[e.id];
      runs := !timer.canceled;
      if runs {
        phase := phase.(running := Some(e));
        starts := starts + [T.Start(e.id, timer.runs, clock, timer.first, timer.interval)];
        assert View().heap == live;
      } else {
        Delete(e.id);
      }
    }

    /** Behind the callback: reinsert a repeating timer, free any other. */
    method CompleteRun(e: T.Entry)
      requires Valid() && e.id in heap
      requires phase.Pass? && phase.running == Some(e)
      modifies this, heap.Values
      ensures Valid() && heap.Values <= old(heap.Values)
      ensures T.Enabled(old(View()), T.Finish) && View() == T.Next(old(View()), T.Finish)
      ensures phase == old(phase).(running := None)
    {
      phase := phase.(running := None);
      assert View() == T.Returned(old(View()));
      var timer := heap[e.id];
      if timer.Repeat() {
        Reinsert(timer);
      } else {
        Delete(e.id);
      }
    }

    method Reinsert(timer: Timer)
      requires Valid() && timer.address in heap && heap[timer.address] == timer && timer.Repeat()
      modifies this`timers, timer
      ensures Valid()
      ensures View() == T.Inserted(old(View()), timer.address, T.Restarted(old(timer.View())))
    {
      ghost var was := View();
      timer.Restart();
      timers := T.Insert(timers, T.Entry(timer.when, timer.address));
      assert View().heap == was.heap[timer.address := timer.View()];
    }

    /** The `read` of the timerfd and `getExpired`. */
    method BeginRead(readAt: int, now: int) returns (entries: seq<T.Entry>)
      requires Valid() && T.Reachable(View())
      requires phase.Idle? && clock <= readAt <= now
      modifies this
      ensures Valid() && heap == old(heap)
      ensures View() == T.Next(old(View()), T.Begin(readAt, now)) && T.Reachable(View())
      ensures phase == T.Pass(now, entries, None, |starts|)
    {
      T.ReachableNext(View(), T.Begin(readAt, now));
      if fd.Armed? && fd.at <= readAt {
        fd := T.Disarmed;
      }
      entries := GetExpired(now);
      clock := now;
      phase := T.Pass(now, entries, None, |starts|);
      assert View().heap == old(View()).heap;
    }

    /** The re-arming at the end of `handleRead`. */
    method EndRead(endAt: int)
      requires Valid() && T.Reachable(View())
      requires phase.Pass? && phase.running.None? && phase.rest == []
      modifies this
      ensures Valid() && heap == old(heap)
      ensures clock == T.Later(old(clock), endAt)
      ensures T.Enabled(old(View()), T.End(clock)) && View() == T.Next(old(View()), T.End(clock))
      ensures T.Reachable(View()) && phase.Idle?
    {
      var now := if endAt < clock then clock else endAt;
      T.ReachableNext(View(), T.End(now));
      phase := T.Idle;
      if |timers| != 0 {
        SetTimer(timers[0].when, now);
      } else {
        clock := now;
      }
    }

    /** `handleRead`: the whole pass is a run of the machine, so all that is proved of runs holds
        at every point of it; every timer that was due was started or is cancelled. `turns` says
        what happens at each expired entry. */
    method HandleRead(readAt: int, now: int, turns: seq<T.Turn>, endAt: int) returns (ghost steps: seq<T.Step>)
      requires Valid() && T.Reachable(View())
      requires phase.Idle? && clock <= readAt <= now
      modifies this, heap.Values
      ensures Valid() && fresh(heap.Values - old(heap.Values))
      ensures T.AfterPass(old(View()), readAt, now, turns, endAt) == Some(View())
      ensures T.Run(old(View()), [T.Begin(readAt, now)] + steps + [T.End(clock)]) == Some(View())
      ensures T.Reachable(View()) && phase.Idle?
      ensures T.DueHandled(old(View()), now, View())
    {
      ghost var start := View();
      var entries := BeginRead(readAt, now);
      steps := ProcessAll(entries, turns);
      ghost var last := View();
      EndRead(endAt);
      T.WholePass(start, readAt, now, steps, last, clock);
    }

    /** The loop of `handleRead` over the expired entries. */
    method ProcessAll(entries: seq<T.Entry>, turns: seq<T.Turn>) returns (ghost steps: seq<T.Step>)
      requires Valid() && T.Reachable(View())
      requires phase.Pass? && phase.running.None? && phase.rest == entries
      modifies this, heap.Values
      ensures Valid() && fresh(heap.Values - old(heap.Values))
      ensures T.TurnsLead(old(View()), turns, |entries|, steps, View())
      ensures phase == old(phase).(rest := [])
    {
      hide T.TurnsLead, T.AfterTurn, T.Run, T.NoEnd, T.Reachable, T.From;
      ghost var began := View();
      steps := [];
      T.FromEnds(entries);
      T.NoTurnsLead(began, turns);
      for i := 0 to |entries|
        invariant Valid() && fresh(heap.Values - old(heap.Values))
        invariant T.Reachable(View())
        invariant phase == old(phase).(rest := T.From(entries, i))
        invariant T.TurnsLead(began, turns, i, steps, View())
      {
        ghost var before := View();
        var turn := if i < |turns| then turns[i] else T.Turn(clock, []);
        T.FromNext(entries, i);
        ghost var more := Process(entries[i], turn);
        T.TurnLeads(began, turns, i, steps, before, more, View());
        steps := steps + more;
      }
    }

    /** The destructor. */
    method Destroy()
      requires Valid() && T.Reachable(View()) && phase.Idle?
      modifies this
      ensures Valid()
      ensures View() == T.DestroyQueue(old(View()))
    {
      ghost var was := View();
      assert timers[..0] == [];
      for k := 0 to |timers|
        invariant Valid() && timers == was.timers
        invariant View() == T.DestroyedFirst(was, k)
      {
        T.DestroyStep(was, k);
        Delete(timers[k].id);
      }
      assert was.timers[..|was.timers|] == was.timers;
      ghost var live := View().heap;
      timers := [];
      phase := T.Destroyed;
      assert View().heap == live;
    }
  }
}
