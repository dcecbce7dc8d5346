/** yvent/TimerQueue.cpp and yvent/Timer.cpp as a machine of small steps: every call a
    callback can make is a step of its own inside an expiry pass. Times are nanoseconds. */
module Timers {
  import opened Bytes

  const MILLISECOND: int := 1_000_000
  const SECOND: int := 1_000_000_000

  type Id = nat

  /** `first` and `runs` record the initial deadline and the completed runs. */
  datatype Timer = Timer(when: int, interval: int, canceled: bool, first: int, runs: nat)

  /** An element of the ordered set: a deadline and the timer's address. */
  datatype Entry = Entry(when: int, id: Id)

  predicate Less(a: Entry, b: Entry) { a.when < b.when || (a.when == b.when && a.id < b.id) }

  predicate Sorted(s: seq<Entry>) { forall i, j :: 0 <= i < j < |s| ==> Less(s[i], s[j]) }

  function Insert(s: seq<Entry>, e: Entry): seq<Entry> {
    if s == [] || Less(e, s[0]) then [e] + s
    else if s[0] == e then s
    else [s[0]] + Insert(s[1..], e)
  }

  lemma {:induction false} InsertSorted(s: seq<Entry>, e: Entry)
    requires Sorted(s)
    ensures Sorted(Insert(s, e))
    ensures forall x :: x in Insert(s, e) <==> x == e || x in s
    ensures Insert(s, e)[0] == e || (s != [] && Insert(s, e)[0] == s[0])
  {
    if s != [] && !Less(e, s[0]) && s[0] != e {
      InsertSorted(s[1..], e);
      assert s == [s[0]] + s[1..];
      var r := Insert(s[1..], e);
      forall j | 0 <= j < |r|
        ensures Less(s[0], r[j])
      {
        assert r[j] in r;
        if r[j] != e {
          var i :| 0 <= i < |s[1..]| && s[1..][i] == r[j];
          assert s[i + 1] == r[j];
        }
      }
    }
  }

  function Erase(s: seq<Entry>, e: Entry): seq<Entry> {
    if s == [] then [] else if s[0] == e then s[1..] else [s[0]] + Erase(s[1..], e)
  }

  lemma {:induction false} EraseSorted(s: seq<Entry>, e: Entry)
    requires Sorted(s)
    ensures Sorted(Erase(s, e))
    ensures forall x :: x in Erase(s, e) <==> x in s && x != e
    ensures Erase(s, e) != [] ==> s != [] && (Erase(s, e)[0] == s[0] || Less(s[0], Erase(s, e)[0]))
  {
    if s != [] {
      assert s == [s[0]] + s[1..];
      if s[0] == e {
        assert forall x :: x in s[1..] ==> Less(s[0], x);
      } else {
        EraseSorted(s[1..], e);
        var r := Erase(s[1..], e);
        forall j | 0 <= j < |r|
          ensures Less(s[0], r[j])
        {
          assert r[j] in r;
          var i :| 0 <= i < |s[1..]| && s[1..][i] == r[j];
          assert s[i + 1] == r[j];
        }
      }
    }
  }

  /** `lower_bound((now + 1ns, nullptr))`: how many entries are due. */
  function DueCount(s: seq<Entry>, now: int): (n: nat)
    ensures n <= |s|
    ensures forall i :: 0 <= i < n ==> s[i].when <= now
    ensures n < |s| ==> s[n].when > now
  {
    if s == [] || s[0].when > now then 0
    else
      var n := DueCount(s[1..], now);
      assert forall i :: 0 < i < n + 1 ==> s[i] == s[1..][i - 1];
      n + 1
  }

  /** `getExpired` splits the set into exactly the entries due and the rest, both in order. */
  lemma SplitDue(s: seq<Entry>, now: int)
    requires Sorted(s)
    ensures var n := DueCount(s, now);
      && Sorted(s[..n]) && Sorted(s[n..]) && s == s[..n] + s[n..]
      && (forall e :: e in s[..n] <==> e in s && e.when <= now)
      && (forall e :: e in s[n..] <==> e in s && e.when > now)
  {
    SortedParts(s, DueCount(s, now));
    DueMembers(s, now);
  }

  lemma SortedParts(s: seq<Entry>, n: nat)
    requires Sorted(s) && n <= |s|
    ensures Sorted(s[..n]) && Sorted(s[n..]) && s == s[..n] + s[n..]
  {
  }

  lemma DueMembers(s: seq<Entry>, now: int)
    requires Sorted(s)
    ensures var n := DueCount(s, now);
      && (forall e :: e in s[..n] <==> e in s && e.when <= now)
      && (forall e :: e in s[n..] <==> e in s && e.when > now)
  {
  }

  // ---------------------------------------------------------------- the kernel timer

  datatype Timespec = Timespec(sec: int, nsec: int)

  /** The relative time handed to `timerfd_settime`, at least a millisecond ahead. */
  function Delay(when: int, now: int): int {
    if when - now < MILLISECOND then MILLISECOND else when - now
  }

  function ToTimespec(d: int): Timespec
    requires d >= 0
  {
    Timespec(d / SECOND, d % SECOND)
  }

  /** The value is exact and normalised, and never zero, which would disarm the timer. */
  lemma TimespecExact(when: int, now: int)
    ensures var t := ToTimespec(Delay(when, now));
      && now + t.sec * 1_000_000_000 + t.nsec == (if when < now + 1_000_000 then now + 1_000_000 else when)
      && 0 <= t.nsec < 1_000_000_000 && 0 <= t.sec
      && t != Timespec(0, 0)
  {
  }

  /** `Armed(at)` also stands for an expiry at `at` that was not read yet. */
  datatype Fd = Disarmed | Armed(at: int)

  // ---------------------------------------------------------------- the machine

  /** A callback start: which timer, its how-manieth run, when, and the timer's schedule. */
  datatype Start = Start(id: Id, run: nat, at: int, first: int, interval: int)

  /** `Pass` is `handleRead` behind `getExpired`: the time it read, the entries not processed
      yet, the entry whose callback is running, and how many starts there were before. */
  datatype Phase =
    | Idle
    | Pass(now: int, rest: seq<Entry>, running: Option<Entry>, mark: nat)
    | Destroyed

  datatype Queue = Queue(
    timers: seq<Entry>, heap: map<Id, Timer>, next: Id, freed: seq<Id>, phase: Phase,
    fd: Fd, armedAt: int, clock: int, starts: seq<Start>)

  datatype Step =
    | Add(when: int, interval: int, now: int)
    | Cancel(id: Id)
    | Begin(readAt: int, now: int)
    | Take(now: int)
    | Finish
    | End(now: int)
    | Destroy

  function Initial(clock: int): Queue {
    Queue([], map[], 0, [], Idle, Disarmed, clock, clock, [])
  }

  /** Code outside the queue has control on the loop thread. */
  predicate UserHasControl(q: Queue) {
    q.phase.Idle? || (q.phase.Pass? && q.phase.running.Some?)
  }

  /** The clock never goes backwards; a handle is cancelled once and not after its timer was
      freed. */
  predicate Enabled(q: Queue, e: Step) {
    match e
    case Add(_, _, now) => UserHasControl(q) && q.clock <= now
    case Cancel(id) => UserHasControl(q) && id in q.heap && !q.heap[id].canceled
    case Begin(readAt, now) => q.phase.Idle? && q.clock <= readAt <= now
    case Take(now) => q.phase.Pass? && q.phase.running.None? && q.phase.rest != [] && q.phase.rest[0].id in q.heap && q.clock <= now
    case Finish => q.phase.Pass? && q.phase.running.Some? && q.phase.running.value.id in q.heap
    case End(now) => q.phase.Pass? && q.phase.running.None? && q.phase.rest == [] && q.clock <= now
    case Destroy => q.phase.Idle?
  }

  function SetTimer(q: Queue, when: int, now: int): Queue {
    q.(fd := Armed(now + Delay(when, now)), armedAt := now, clock := now)
  }

  function AddTimer(q: Queue, when: int, interval: int, now: int): Queue {
    var timers := Insert(q.timers, Entry(when, q.next));
    var q1 := q.(timers := timers, heap := q.heap[q.next := Timer(when, interval, false, when, 0)], next := q.next + 1);
    if timers != [] && timers[0] == Entry(when, q.next) then SetTimer(q1, when, now) else q1.(clock := now)
  }

  /** A live timer gets new fields and an entry in the set. */
  function Inserted(q: Queue, id: Id, t: Timer): Queue {
    q.(heap := q.heap[id := t], timers := Insert(q.timers, Entry(t.when, id)))
  }

  /** The address is forgotten: `delete`. */
  function Free(q: Queue, id: Id): Queue {
    q.(heap := q.heap - {id}, freed := q.freed + [id])
  }

  function CancelTimer(q: Queue, id: Id): Queue
    requires id in q.heap
  {
    var t := q.heap[id];
    var q1 := q.(heap := q.heap[id := t.(canceled := true)]);
    if Entry(t.when, id) in q.timers then Free(q1.(timers := Erase(q.timers, Entry(t.when, id))), id) else q1
  }

  function BeginPass(q: Queue, readAt: int, now: int): Queue {
    var n := DueCount(q.timers, now);
    q.(timers := q.timers[n..], phase := Pass(now, q.timers[..n], None, |q.starts|),
       fd := if q.fd.Armed? && q.fd.at <= readAt then Disarmed else q.fd, clock := now)
  }

  function TakeEntry(q: Queue, now: int): Queue
    requires Enabled(q, Take(now))
  {
    var e := q.phase.rest[0];
    var t := q.heap[e.id];
    var q1 := q.(phase := q.phase.(rest := q.phase.rest[1..]), clock := now);
    if t.canceled then Free(q1, e.id)
    else q1.(phase := q1.phase.(running := Some(e)), starts := q.starts + [Start(e.id, t.runs, now, t.first, t.interval)])
  }

  function Restarted(t: Timer): Timer { t.(when := t.when + t.interval, runs := t.runs + 1) }

  function Returned(q: Queue): Queue
    requires q.phase.Pass?
  {
    q.(phase := q.phase.(running := None))
  }

  function FinishCallback(q: Queue): Queue
    requires Enabled(q, Finish)
  {
    var id := q.phase.running.value.id;
    var t := q.heap[id];
    if t.interval > 0 then Inserted(Returned(q), id, Restarted(t))
    else Free(Returned(q), id)
  }

  function EndPass(q: Queue, now: int): Queue {
    var q1 := q.(phase := Idle);
    if q.timers != [] then SetTimer(q1, q.timers[0].when, now) else q1.(clock := now)
  }

  function Ids(s: seq<Entry>): (r: seq<Id>)
    ensures |r| == |s| && forall i :: 0 <= i < |s| ==> r[i] == s[i].id
  {
    seq(|s|, i requires 0 <= i < |s| => s[i].id)
  }

  /** The destructor deletes every timer in the set. */
  function DestroyQueue(q: Queue): Queue {
    q.(timers := [], heap := q.heap - IdSet(q.timers), freed := q.freed + Ids(q.timers), phase := Destroyed)
  }

  function Next(q: Queue, e: Step): Queue
    requires Enabled(q, e)
  {
    match e
    case Add(when, interval, now) => AddTimer(q, when, interval, now)
    case Cancel(id) => CancelTimer(q, id)
    case Begin(readAt, now) => BeginPass(q, readAt, now)
    case Take(now) => TakeEntry(q, now)
    case Finish => FinishCallback(q)
    case End(now) => EndPass(q, now)
    case Destroy => DestroyQueue(q)
  }

  /** The state after `evs`, or None if some step was not enabled. */
  function Run(q: Queue, evs: seq<Step>): Option<Queue> {
    if evs == [] then Some(q)
    else
      var m := Run(q, evs[..|evs| - 1]);
      if m.Some? && Enabled(m.value, evs[|evs| - 1]) then Some(Next(m.value, evs[|evs| - 1])) else None
  }

  // ---------------------------------------------------------------- a whole pass

  /** A call a timer callback makes on the queue. */
  datatype Call = AddCall(when: int, interval: int, now: int) | CancelCall(id: Id)

  /** The processing of one expired entry: when it is reached and what its callback calls. */
  datatype Turn = Turn(at: int, calls: seq<Call>)

  function StepOf(call: Call): Step {
    match call
    case AddCall(when, interval, now) => Add(when, interval, now)
    case CancelCall(id) => Cancel(id)
  }

  /** A call that the callers' obligations rule out (a stale or repeated cancellation, a clock
      going backwards) is not made. */
  function AfterCall(q: Queue, call: Call): Queue {
    if Enabled(q, StepOf(call)) then Next(q, StepOf(call)) else q
  }

  function AfterCalls(q: Queue, calls: seq<Call>): Queue {
    if calls == [] then q else AfterCall(AfterCalls(q, calls[..|calls| - 1]), calls[|calls| - 1])
  }

  function Later(a: int, b: int): int { if a < b then b else a }

  /** The body of the loop in `handleRead`, or None if it would touch a freed timer. */
  function AfterTurn(q: Queue, turn: Turn): Option<Queue> {
    var take := Take(Later(q.clock, turn.at));
    if !Enabled(q, take) then None
    else
      var taken := TakeEntry(q, take.now);
      if !taken.phase.Pass? || taken.phase.running.None? then Some(taken)
      else
        var called := AfterCalls(taken, turn.calls);
        if Enabled(called, Finish) then Some(FinishCallback(called)) else None
  }

  function TurnAt(q: Queue, turns: seq<Turn>, i: nat): Turn {
    if i < |turns| then turns[i] else Turn(q.clock, [])
  }

  function AfterTurns(q: Queue, turns: seq<Turn>, n: nat): Option<Queue> {
    if n == 0 then Some(q)
    else
      var m := AfterTurns(q, turns, n - 1);
      if m.None? then None else AfterTurn(m.value, TurnAt(m.value, turns, n - 1))
  }

  /** `handleRead`: one turn for every entry due when the clock is read, then the re-arming. */
  function AfterPass(q: Queue, readAt: int, now: int, turns: seq<Turn>, endAt: int): Option<Queue> {
    var m := AfterTurns(BeginPass(q, readAt, now), turns, DueCount(q.timers, now));
    if m.None? then None else Some(EndPass(m.value, Later(m.value.clock, endAt)))
  }

  // ---------------------------------------------------------------- ownership

  /** The entry a live timer would have: its key is its current deadline. */
  function EntryOf(q: Queue, id: Id): Entry
    requires id in q.heap
  {
    Entry(q.heap[id].when, id)
  }

  predicate InSet(q: Queue, id: Id) requires id in q.heap { EntryOf(q, id) in q.timers }
  predicate InRest(q: Queue, id: Id) requires id in q.heap { q.phase.Pass? && EntryOf(q, id) in q.phase.rest }
  predicate InHand(q: Queue, id: Id) requires id in q.heap { q.phase.Pass? && q.phase.running == Some(EntryOf(q, id)) }

  /** Every entry's key is the current deadline of a live timer. */
  predicate KeysCurrent(q: Queue, s: seq<Entry>) {
    forall e :: e in s ==> e.id in q.heap && e == EntryOf(q, e.id)
  }

  predicate NoRepeats(s: seq<Id>) { forall i, j :: 0 <= i < j < |s| ==> s[i] != s[j] }

  /** In how many of the three live places a timer is. */
  function Places(q: Queue, id: Id): nat
    requires id in q.heap
  {
    (if InSet(q, id) then 1 else 0) + (if InRest(q, id) then 1 else 0) + (if InHand(q, id) then 1 else 0)
  }

  /** The set and the batch are in order, and every entry is current. */
  predicate EntriesCurrent(q: Queue) {
    && Sorted(q.timers) && KeysCurrent(q, q.timers)
    && (q.phase.Pass? ==> Sorted(q.phase.rest) && KeysCurrent(q, q.phase.rest))
    && (q.phase.Pass? && q.phase.running.Some? ==> KeysCurrent(q, [q.phase.running.value]))
  }

  /** Every live timer is in one of the three live places, those in `loose` in none. */
  predicate Placed(q: Queue, loose: set<Id>) {
    && loose <= q.heap.Keys
    && forall id :: id in q.heap ==> Places(q, id) == if id in loose then 0 else 1
  }

  /** Every address handed out is alive or was freed, once. */
  ghost predicate Accounted(q: Queue) {
    && (forall id: Id :: id < q.next <==> id in q.heap || id in q.freed)
    && (forall id :: id in q.freed ==> id !in q.heap)
    && NoRepeats(q.freed)
  }

  /** Each timer ever allocated is in exactly one place: the set, the unprocessed rest of the
      pass, the hands of the running callback, or freed, and freed once. In the middle of a
      step, the timers in `loose` are alive but in no place. */
  ghost predicate OwnedExcept(q: Queue, loose: set<Id>) {
    EntriesCurrent(q) && Placed(q, loose) && Accounted(q)
  }

  ghost predicate Owned(q: Queue) { OwnedExcept(q, {}) }

  lemma FreeLoose(q: Queue, id: Id)
    requires OwnedExcept(q, {id})
    ensures Owned(Free(q, id))
  {
  }

  /** A loose timer is given a new deadline and put into the set. */
  lemma InsertLoose(q: Queue, id: Id, t: Timer)
    requires OwnedExcept(q, {id})
    ensures Owned(Inserted(q, id, t))
  {
    InsertSorted(q.timers, Entry(t.when, id));
    LooseIsNowhere(q, id);
    InsertedCurrent(q, id, t);
    InsertedPlaced(q, id, t);
  }

  lemma InsertedCurrent(q: Queue, id: Id, t: Timer)
    requires EntriesCurrent(q) && Nowhere(q, id)
    ensures EntriesCurrent(Inserted(q, id, t))
  {
    InsertSorted(q.timers, Entry(t.when, id));
    if q.phase.Pass? && q.phase.running.Some? {
      assert q.phase.running.value in [q.phase.running.value];
    }
  }

  lemma InsertedPlaced(q: Queue, id: Id, t: Timer)
    requires EntriesCurrent(q) && Placed(q, {id}) && Nowhere(q, id)
    ensures Placed(Inserted(q, id, t), {})
  {
    InsertSorted(q.timers, Entry(t.when, id));
    var r := Inserted(q, id, t);
    forall x | x in r.heap
      ensures Places(r, x) == 1
    {
      if x != id {
        assert EntryOf(r, x) == EntryOf(q, x) && Places(q, x) == 1;
      }
    }
  }

  /** No entry anywhere names the timer. */
  predicate Nowhere(q: Queue, id: Id) {
    && (forall e :: e in q.timers ==> e.id != id)
    && (q.phase.Pass? ==> forall e :: e in q.phase.rest ==> e.id != id)
    && (q.phase.Pass? && q.phase.running.Some? ==> q.phase.running.value.id != id)
  }

  lemma LooseIsNowhere(q: Queue, id: Id)
    requires EntriesCurrent(q) && Placed(q, {id})
    ensures Nowhere(q, id)
  {
    assert Places(q, id) == 0;
    if q.phase.Pass? && q.phase.running.Some? {
      assert q.phase.running.value in [q.phase.running.value];
    }
  }

  /** Arming and the clock have no say in who owns what. */
  lemma SameOwnership(q: Queue, r: Queue)
    requires Owned(q)
    requires r == q.(fd := r.fd, armedAt := r.armedAt, clock := r.clock)
    ensures Owned(r)
  {
  }

  lemma AddKeepsOwned(q: Queue, when: int, interval: int, now: int)
    requires Owned(q) && Enabled(q, Add(when, interval, now))
    ensures Owned(AddTimer(q, when, interval, now))
  {
    var t := Timer(when, interval, false, when, 0);
    var q1 := q.(heap := q.heap[q.next := t], next := q.next + 1);
    forall x | x in q1.heap
      ensures Places(q1, x) == if x == q.next then 0 else 1
    {
      if x != q.next { assert Places(q, x) == 1; }
    }
    InsertLoose(q1, q.next, t);
    assert q1.heap[q.next := t] == q1.heap;
    SameOwnership(q1.(timers := Insert(q.timers, Entry(when, q.next))), AddTimer(q, when, interval, now));
  }

  lemma CancelKeepsOwned(q: Queue, id: Id)
    requires Owned(q) && Enabled(q, Cancel(id))
    ensures Owned(CancelTimer(q, id))
  {
    var e := EntryOf(q, id);
    var q1 := q.(heap := q.heap[id := q.heap[id].(canceled := true)]);
    assert Owned(q1) by {
      forall x | x in q1.heap
        ensures EntryOf(q1, x) == EntryOf(q, x) && Places(q1, x) == 1
      {
        assert Places(q, x) == 1;
      }
    }
    if e in q.timers {
      EraseSorted(q.timers, e);
      var q2 := q1.(timers := Erase(q.timers, e));
      forall x | x in q2.heap
        ensures Places(q2, x) == if x == id then 0 else 1
      {
        assert Places(q1, x) == 1;
      }
      FreeLoose(q2, id);
    }
  }

  lemma BeginKeepsOwned(q: Queue, readAt: int, now: int)
    requires Owned(q) && Enabled(q, Begin(readAt, now))
    ensures Owned(BeginPass(q, readAt, now))
  {
    SplitDue(q.timers, now);
  }

  lemma TakeKeepsOwned(q: Queue, now: int)
    requires Owned(q) && Enabled(q, Take(now))
    ensures Owned(TakeEntry(q, now))
  {
    var e, rest := q.phase.rest[0], q.phase.rest[1..];
    assert q.phase.rest == [e] + rest;
    var q1 := q.(phase := q.phase.(rest := rest), clock := now);
    forall x | x in q1.heap
      ensures Places(q1, x) == if x == e.id then 0 else 1
    {
      assert Places(q, x) == 1;
      if x == e.id { assert forall y :: y in rest ==> Less(e, y); }
    }
    FreeLoose(q1, e.id);
    if !q.heap[e.id].canceled {
      var r := TakeEntry(q, now);
      forall x | x in r.heap
        ensures Places(r, x) == 1
      {
        assert Places(q1, x) == if x == e.id then 0 else 1;
      }
    }
  }

  /** The running timer becomes loose when its callback returns. */
  lemma ReturnLoosens(q: Queue)
    requires Owned(q) && Enabled(q, Finish)
    ensures OwnedExcept(Returned(q), {q.phase.running.value.id})
  {
    var e := q.phase.running.value;
    assert e in [e];
    var q1 := Returned(q);
    forall x | x in q1.heap
      ensures Places(q1, x) == if x == e.id then 0 else 1
    {
      assert Places(q, x) == 1;
    }
  }

  lemma FinishKeepsOwned(q: Queue)
    requires Owned(q) && Enabled(q, Finish)
    ensures Owned(FinishCallback(q))
  {
    ReturnLoosens(q);
    PutAway(Returned(q), q.phase.running.value.id);
  }

  /** The second half of a pass's round for a timer: restart and insert, or delete. */
  lemma PutAway(q: Queue, id: Id)
    requires OwnedExcept(q, {id})
    ensures var t := q.heap[id];
      Owned(if t.interval > 0 then Inserted(q, id, Restarted(t)) else Free(q, id))
  {
    InsertLoose(q, id, Restarted(q.heap[id]));
    FreeLoose(q, id);
  }

  lemma DestroyKeepsOwned(q: Queue)
    requires Owned(q) && Enabled(q, Destroy)
    ensures Owned(DestroyQueue(q)) && DestroyQueue(q).heap == map[]
  {
    assert IdSet(q.timers) == q.heap.Keys by {
      forall id | id in q.heap
        ensures id in IdSet(q.timers)
      {
        assert Places(q, id) == 1;
      }
    }
    SetHasNoRepeats(q);
  }

  lemma SetHasNoRepeats(q: Queue)
    requires EntriesCurrent(q) && Accounted(q)
    ensures NoRepeats(q.freed + Ids(q.timers))
    ensures forall id :: id in Ids(q.timers) <==> id in IdSet(q.timers)
  {
    forall i, j | 0 <= i < j < |q.timers|
      ensures q.timers[i].id != q.timers[j].id
    {
      assert q.timers[i] in q.timers && q.timers[j] in q.timers;
    }
    assert forall i :: 0 <= i < |q.timers| ==> q.timers[i] in q.timers && Ids(q.timers)[i] == q.timers[i].id;
  }

  lemma StepKeepsOwned(q: Queue, e: Step)
    requires Owned(q) && Enabled(q, e)
    ensures Owned(Next(q, e))
  {
    match e
    case Add(when, interval, now) => AddKeepsOwned(q, when, interval, now);
    case Cancel(id) => CancelKeepsOwned(q, id);
    case Begin(readAt, now) => BeginKeepsOwned(q, readAt, now);
    case Take(now) => TakeKeepsOwned(q, now);
    case Finish => FinishKeepsOwned(q);
    case End(_) =>
    case Destroy => DestroyKeepsOwned(q);
  }

  /** The partition holds at every point of every run, inside callbacks too. */
  lemma {:induction false} OwnedAlways(clock: int, evs: seq<Step>)
    requires Run(Initial(clock), evs).Some?
    ensures Owned(Run(Initial(clock), evs).value)
  {
    if evs != [] {
      var k := |evs| - 1;
      OwnedAlways(clock, evs[..k]);
      StepKeepsOwned(Run(Initial(clock), evs[..k]).value, evs[k]);
    }
  }

  /** Destruction leaves no timer behind: every address ever handed out was freed, once. */
  lemma NothingLeft(clock: int, evs: seq<Step>)
    requires Run(Initial(clock), evs).Some?
    requires Enabled(Run(Initial(clock), evs).value, Destroy)
    ensures var r := DestroyQueue(Run(Initial(clock), evs).value);
      && r.heap == map[] && NoRepeats(r.freed)
      && forall id: Id :: id < r.next <==> id in r.freed
  {
    OwnedAlways(clock, evs);
    DestroyKeepsOwned(Run(Initial(clock), evs).value);
  }

  // ---------------------------------------------------------------- cancellation

  /** Cancelled, or already freed. */
  predicate Dead(q: Queue, id: Id) {
    id < q.next && (id in q.heap ==> q.heap[id].canceled)
  }

  lemma StepKeepsDead(q: Queue, e: Step, id: Id)
    requires Owned(q) && Enabled(q, e) && Dead(q, id)
    ensures Dead(Next(q, e), id)
    ensures q.starts <= Next(q, e).starts
    ensures forall s :: s in Next(q, e).starts[|q.starts|..] ==> s.id != id
  {
  }

  /** However the run goes on, the callback of a cancelled timer is not started again. */
  lemma {:induction false} CancelledNeverStarts(q: Queue, evs: seq<Step>, id: Id)
    requires Owned(q) && Dead(q, id)
    requires Run(q, evs).Some?
    ensures var r := Run(q, evs).value;
      && Owned(r) && Dead(r, id)
      && q.starts <= r.starts
      && forall s :: s in r.starts[|q.starts|..] ==> s.id != id
  {
    if evs != [] {
      var k := |evs| - 1;
      CancelledNeverStarts(q, evs[..k], id);
      var m := Run(q, evs[..k]).value;
      StepKeepsOwned(m, evs[k]);
      StepKeepsDead(m, evs[k], id);
      var r := Next(m, evs[k]);
      assert r.starts[|q.starts|..] == m.starts[|q.starts|..] + r.starts[|m.starts|..];
    }
  }

  /** Cancelling makes a timer dead wherever it is: in the set it is freed at once, in the
      batch or in its own callback it is marked. */
  lemma CancelKills(q: Queue, id: Id)
    requires Owned(q) && Enabled(q, Cancel(id))
    ensures Dead(CancelTimer(q, id), id)
    ensures id in CancelTimer(q, id).freed <==> InSet(q, id)
  {
  }

  // ---------------------------------------------------------------- arming

  /** Outside a pass, a nonempty set has the kernel timer armed no later than its earliest
      deadline, or a millisecond after the last arming; and never sooner after an arming. */
  predicate ArmedInTime(q: Queue) {
    && (q.phase.Idle? && q.timers != [] ==>
          q.fd.Armed? && (q.fd.at <= q.timers[0].when || q.fd.at <= q.armedAt + MILLISECOND))
    && (q.fd.Armed? ==> q.fd.at >= q.armedAt + MILLISECOND)
  }

  lemma StepKeepsArmed(q: Queue, e: Step)
    requires Owned(q) && ArmedInTime(q) && Enabled(q, e)
    ensures ArmedInTime(Next(q, e))
  {
    match e
    case Add(when, _, _) => InsertSorted(q.timers, Entry(when, q.next));
    case Cancel(id) => EraseSorted(q.timers, EntryOf(q, id));
    case _ =>
  }

  lemma {:induction false} ArmedInTimeAlways(clock: int, evs: seq<Step>)
    requires Run(Initial(clock), evs).Some?
    ensures ArmedInTime(Run(Initial(clock), evs).value)
  {
    if evs != [] {
      var k := |evs| - 1;
      ArmedInTimeAlways(clock, evs[..k]);
      OwnedAlways(clock, evs[..k]);
      StepKeepsArmed(Run(Initial(clock), evs[..k]).value, evs[k]);
    }
  }

  // ---------------------------------------------------------------- schedule

  function Count(starts: seq<Start>, id: Id): nat {
    if starts == [] then 0
    else Count(starts[..|starts| - 1], id) + (if starts[|starts| - 1].id == id then 1 else 0)
  }

  lemma {:induction false} CountNone(starts: seq<Start>, id: Id)
    requires forall s :: s in starts ==> s.id != id
    ensures Count(starts, id) == 0
  {
    if starts != [] {
      CountNone(starts[..|starts| - 1], id);
    }
  }

  /** A timer's deadline is its first deadline plus one interval per completed run. */
  predicate NoDrift(t: Timer) { t.when == t.first + t.runs * t.interval }

  /** Starts are numbered from 0 per timer, none comes early, and each belongs to a timer
      that was allocated. */
  predicate StartsOnSchedule(q: Queue) {
    forall i :: 0 <= i < |q.starts| ==>
      var s := q.starts[i];
      && s.run == Count(q.starts[..i], s.id)
      && s.at >= s.first + s.run * s.interval
      && s.id < q.next
  }

  /** The entries of a pass are due, and each timer is started at most once in it. */
  predicate PassOrderly(q: Queue) {
    q.phase.Pass? ==>
      && q.phase.now <= q.clock && q.phase.mark <= |q.starts|
      && (forall e :: e in q.phase.rest ==> e.when <= q.phase.now)
      && (forall i :: q.phase.mark <= i < |q.starts| ==>
            forall e :: e in q.phase.rest ==> e.id != q.starts[i].id)
      && (forall i, j :: q.phase.mark <= i < j < |q.starts| ==> q.starts[i].id != q.starts[j].id)
  }

  /** How often the callback of a live timer has been started, by the timer's own fields. */
  function Begun(q: Queue, id: Id): nat
    requires id in q.heap
  {
    q.heap[id].runs + (if InHand(q, id) then 1 else 0)
  }

  predicate OnSchedule(q: Queue) {
    && (forall id :: id in q.heap ==> NoDrift(q.heap[id]) && Count(q.starts, id) == Begun(q, id))
    && StartsOnSchedule(q)
    && PassOrderly(q)
  }

  /** The first entry of a pass and the others have different timers. */
  lemma FirstIsAlone(q: Queue)
    requires Owned(q) && q.phase.Pass? && q.phase.rest != []
    ensures forall y :: y in q.phase.rest[1..] ==> y in q.phase.rest && y.id != q.phase.rest[0].id
    ensures q.phase.rest[0].id in q.heap && !InHand(q, q.phase.rest[0].id)
  {
  }

  lemma TakeKeepsPass(q: Queue, now: int)
    requires Owned(q) && PassOrderly(q) && Enabled(q, Take(now))
    ensures PassOrderly(TakeEntry(q, now))
  {
    FirstIsAlone(q);
    var r := TakeEntry(q, now);
    forall i, j | r.phase.mark <= i < j < |r.starts|
      ensures r.starts[i].id != r.starts[j].id
    {
      assert q.phase.rest[0] in q.phase.rest;
    }
  }

  lemma TakeKeepsCounts(q: Queue, now: int)
    requires Owned(q) && OnSchedule(q) && Enabled(q, Take(now))
    ensures var r := TakeEntry(q, now);
      forall id :: id in r.heap ==> NoDrift(r.heap[id]) && Count(r.starts, id) == Begun(r, id)
  {
  }

  lemma TakeKeepsStarts(q: Queue, now: int)
    requires Owned(q) && OnSchedule(q) && Enabled(q, Take(now))
    ensures StartsOnSchedule(TakeEntry(q, now))
  {
    FirstIsAlone(q);
    var e, r := q.phase.rest[0], TakeEntry(q, now);
    assert e in q.phase.rest && e == EntryOf(q, e.id);
    forall i | 0 <= i < |r.starts|
      ensures var s := r.starts[i];
        s.run == Count(r.starts[..i], s.id) && s.at >= s.first + s.run * s.interval && s.id < r.next
    {
      assert r.starts[..i] == q.starts[..i];
      if i < |q.starts| {
        assert r.starts[i] == q.starts[i];
      } else {
        assert q.starts[..i] == q.starts;
      }
    }
  }

  lemma AddKeepsSchedule(q: Queue, when: int, interval: int, now: int)
    requires Owned(q) && OnSchedule(q) && Enabled(q, Add(when, interval, now))
    ensures OnSchedule(AddTimer(q, when, interval, now))
  {
    assert q.next !in q.heap;
    NotStartedYet(q);
    var r := AddTimer(q, when, interval, now);
    assert r.starts == q.starts && r.phase == q.phase;
    forall id | id in r.heap
      ensures NoDrift(r.heap[id]) && Count(r.starts, id) == Begun(r, id)
    {
      if id == q.next {
        NewIsNotRunning(q);
      } else {
        assert r.heap[id] == q.heap[id];
      }
    }
  }

  lemma NotStartedYet(q: Queue)
    requires StartsOnSchedule(q)
    ensures Count(q.starts, q.next) == 0
  {
    forall s | s in q.starts
      ensures s.id != q.next
    {
      var i :| 0 <= i < |q.starts| && q.starts[i] == s;
    }
    CountNone(q.starts, q.next);
  }

  lemma NewIsNotRunning(q: Queue)
    requires Owned(q)
    ensures q.phase.Pass? && q.phase.running.Some? ==> q.phase.running.value.id != q.next
  {
    if q.phase.Pass? && q.phase.running.Some? {
      assert q.phase.running.value in [q.phase.running.value];
    }
  }

  lemma FinishKeepsSchedule(q: Queue)
    requires Owned(q) && OnSchedule(q) && Enabled(q, Finish)
    ensures OnSchedule(FinishCallback(q))
  {
    var e, r := q.phase.running.value, FinishCallback(q);
    assert e in [e];
    RestartKeepsSchedule(q.heap[e.id]);
    assert r.starts == q.starts && r.next == q.next;
    assert Begun(q, e.id) == q.heap[e.id].runs + 1;
    forall id | id in r.heap
      ensures NoDrift(r.heap[id]) && Count(r.starts, id) == Begun(r, id)
    {
      if id != e.id {
        assert r.heap[id] == q.heap[id] && !InHand(q, id);
      }
    }
  }

  /** `restart` moves the deadline by exactly one interval. */
  lemma RestartKeepsSchedule(t: Timer)
    requires NoDrift(t)
    ensures NoDrift(Restarted(t))
  {
  }

  lemma CancelKeepsSchedule(q: Queue, id: Id)
    requires Owned(q) && OnSchedule(q) && Enabled(q, Cancel(id))
    ensures OnSchedule(CancelTimer(q, id))
  {
  }

  lemma BeginKeepsSchedule(q: Queue, readAt: int, now: int)
    requires Owned(q) && OnSchedule(q) && Enabled(q, Begin(readAt, now))
    ensures OnSchedule(BeginPass(q, readAt, now))
  {
    SplitDue(q.timers, now);
  }

  lemma StepKeepsSchedule(q: Queue, e: Step)
    requires Owned(q) && OnSchedule(q) && Enabled(q, e)
    ensures OnSchedule(Next(q, e))
  {
    match e
    case Add(when, interval, now) => AddKeepsSchedule(q, when, interval, now);
    case Cancel(id) => CancelKeepsSchedule(q, id);
    case Begin(readAt, now) => BeginKeepsSchedule(q, readAt, now);
    case Take(now) => TakeKeepsPass(q, now); TakeKeepsCounts(q, now); TakeKeepsStarts(q, now);
    case Finish => FinishKeepsSchedule(q);
    case End(_) =>
    case Destroy =>
  }

  /** In every run: run `n` of a timer starts no earlier than `n` intervals after its first
      deadline, after `n` completed runs the deadline is exactly that, and one expiry pass
      starts each timer at most once, whatever its callbacks add. */
  lemma {:induction false} OnScheduleAlways(clock: int, evs: seq<Step>)
    requires Run(Initial(clock), evs).Some?
    ensures OnSchedule(Run(Initial(clock), evs).value)
  {
    if evs != [] {
      var k := |evs| - 1;
      OnScheduleAlways(clock, evs[..k]);
      OwnedAlways(clock, evs[..k]);
      StepKeepsSchedule(Run(Initial(clock), evs[..k]).value, evs[k]);
    }
  }

  // ---------------------------------------------------------------- what was asked for

  /** The arguments of an `addTimer` call. */
  datatype Asked = Asked(when: int, interval: int)

  /** The timers asked for in a run; a timer's address is its index here. */
  function Adds(evs: seq<Step>): seq<Asked> {
    if evs == [] then [] else Adds(evs[..|evs| - 1]) + AddedBy(evs[|evs| - 1])
  }

  function AddedBy(e: Step): seq<Asked> { if e.Add? then [Asked(e.when, e.interval)] else [] }

  /** The schedule is the one asked for, and without an interval there is only run 0. */
  predicate Follows(a: Asked, first: int, interval: int, run: nat) {
    first == a.when && interval == a.interval && (interval <= 0 ==> run == 0)
  }

  predicate AsAsked(q: Queue, asked: seq<Asked>) {
    && q.next == |asked|
    && (forall id :: id in q.heap ==>
          id < |asked| && Follows(asked[id], q.heap[id].first, q.heap[id].interval, q.heap[id].runs))
    && (forall s :: s in q.starts ==> s.id < |asked| && Follows(asked[s.id], s.first, s.interval, s.run))
  }

  lemma StepKeepsAsked(q: Queue, e: Step, asked: seq<Asked>)
    requires AsAsked(q, asked) && Enabled(q, e)
    ensures AsAsked(Next(q, e), asked + AddedBy(e))
  {
  }

  lemma {:induction false} AsAskedAlways(clock: int, evs: seq<Step>)
    requires Run(Initial(clock), evs).Some?
    ensures AsAsked(Run(Initial(clock), evs).value, Adds(evs))
  {
    if evs != [] {
      var k := |evs| - 1;
      AsAskedAlways(clock, evs[..k]);
      StepKeepsAsked(Run(Initial(clock), evs[..k]).value, evs[k], Adds(evs[..k]));
    }
  }

  /** Every start happened at the time read for a turn of the run. */
  predicate StartedInTurns(starts: seq<Start>, evs: seq<Step>) {
    forall s :: s in starts ==> Take(s.at) in evs
  }

  lemma StepKeepsTurns(q: Queue, e: Step, evs: seq<Step>)
    requires Enabled(q, e) && StartedInTurns(q.starts, evs)
    ensures StartedInTurns(Next(q, e).starts, evs + [e])
  {
    forall s | s in Next(q, e).starts
      ensures Take(s.at) in evs + [e]
    {
      if s !in q.starts {
        assert e == Take(s.at);
      }
    }
  }

  lemma {:induction false} StartedInTurnsAlways(clock: int, evs: seq<Step>)
    requires Run(Initial(clock), evs).Some?
    ensures StartedInTurns(Run(Initial(clock), evs).value.starts, evs)
  {
    if evs != [] {
      var k := |evs| - 1;
      StartedInTurnsAlways(clock, evs[..k]);
      StepKeepsTurns(Run(Initial(clock), evs[..k]).value, evs[k], evs[..k]);
      assert evs == evs[..k] + [evs[k]];
    }
  }

  /** In every run, in terms of the calls made: run `n` of a timer starts at the time read when
      its turn came, no earlier than the deadline asked for plus `n` of the intervals asked
      for; the runs of a timer are numbered from 0 without gaps; and a timer asked for without
      an interval runs at most once. */
  lemma RunsAsAsked(clock: int, evs: seq<Step>)
    requires Run(Initial(clock), evs).Some?
    ensures var r, asked := Run(Initial(clock), evs).value, Adds(evs);
      && r.next == |asked|
      && (forall id :: id in r.heap ==>
            id < |asked| && r.heap[id].when == asked[id].when + r.heap[id].runs * asked[id].interval)
      && (forall i :: 0 <= i < |r.starts| ==>
            var s := r.starts[i];
            && s.id < |asked| && Take(s.at) in evs
            && s.run == Count(r.starts[..i], s.id)
            && s.at >= asked[s.id].when + s.run * asked[s.id].interval
            && (asked[s.id].interval <= 0 ==> s.run == 0))
  {
    AsAskedAlways(clock, evs);
    StartedInTurnsAlways(clock, evs);
    OnScheduleAlways(clock, evs);
    var r, asked := Run(Initial(clock), evs).value, Adds(evs);
    forall i | 0 <= i < |r.starts|
      ensures Follows(asked[r.starts[i].id], r.starts[i].first, r.starts[i].interval, r.starts[i].run)
    {
      assert r.starts[i] in r.starts;
    }
  }

  // ---------------------------------------------------------------- order within a pass

  /** The entry a start was taken from. */
  function Key(s: Start): Entry { Entry(s.first + s.run * s.interval, s.id) }

  function Keys(starts: seq<Start>): (r: seq<Entry>)
    ensures |r| == |starts| && forall i :: 0 <= i < |starts| ==> r[i] == Key(starts[i])
  {
    seq(|starts|, i requires 0 <= i < |starts| => Key(starts[i]))
  }

  /** The starts of a pass came in the order of their deadlines, and before what is left. */
  predicate PassInOrder(q: Queue) {
    q.phase.Pass? ==>
      q.phase.mark <= |q.starts| && Sorted(Keys(q.starts[q.phase.mark..]) + q.phase.rest)
  }

  lemma SortedWithout(a: seq<Entry>, b: seq<Entry>)
    requires b != [] && Sorted(a + b)
    ensures Sorted(a + b[1..])
  {
    var s, t := a + b, a + b[1..];
    forall i, j | 0 <= i < j < |t|
      ensures Less(t[i], t[j])
    {
      var k := if i < |a| then i else i + 1;
      var l := if j < |a| then j else j + 1;
      assert t[i] == s[k] && t[j] == s[l];
    }
  }

  lemma TakeKeepsOrder(q: Queue, now: int)
    requires Owned(q) && OnSchedule(q) && PassInOrder(q) && Enabled(q, Take(now))
    ensures PassInOrder(TakeEntry(q, now))
  {
    var e, rest, mark := q.phase.rest[0], q.phase.rest[1..], q.phase.mark;
    if q.heap[e.id].canceled {
      SortedWithout(Keys(q.starts[mark..]), q.phase.rest);
    } else {
      var r := TakeEntry(q, now);
      var start := r.starts[|q.starts|];
      assert e in q.phase.rest && NoDrift(q.heap[e.id]);
      assert Key(start) == e;
      assert r.starts[mark..] == q.starts[mark..] + [start];
      assert Keys(r.starts[mark..]) == Keys(q.starts[mark..]) + [e];
      Associate(Keys(q.starts[mark..]), [e], rest);
      assert [e] + rest == q.phase.rest;
    }
  }

  lemma BeginKeepsOrder(q: Queue, readAt: int, now: int)
    requires Sorted(q.timers)
    ensures PassInOrder(BeginPass(q, readAt, now))
  {
    SplitDue(q.timers, now);
    var r := BeginPass(q, readAt, now);
    assert Keys(r.starts[r.phase.mark..]) + r.phase.rest == r.phase.rest;
  }

  /** The same starts and the same entries left. */
  lemma SameOrder(q: Queue, r: Queue)
    requires PassInOrder(q) && r.starts == q.starts
    requires r.phase.Pass? ==> q.phase.Pass? && r.phase.mark == q.phase.mark && r.phase.rest == q.phase.rest
    ensures PassInOrder(r)
  {
  }

  lemma StepKeepsOrder(q: Queue, e: Step)
    requires Owned(q) && OnSchedule(q) && PassInOrder(q) && Enabled(q, e)
    ensures PassInOrder(Next(q, e))
  {
    match e
    case Take(now) => TakeKeepsOrder(q, now);
    case Begin(readAt, now) => BeginKeepsOrder(q, readAt, now);
    case _ => SameOrder(q, Next(q, e));
  }

  /** Whatever callbacks add or cancel, each pass starts its timers in the order of their
      deadlines. */
  lemma {:induction false} PassInOrderAlways(clock: int, evs: seq<Step>)
    requires Run(Initial(clock), evs).Some?
    ensures PassInOrder(Run(Initial(clock), evs).value)
  {
    if evs != [] {
      var k := |evs| - 1;
      PassInOrderAlways(clock, evs[..k]);
      OwnedAlways(clock, evs[..k]);
      OnScheduleAlways(clock, evs[..k]);
      StepKeepsOrder(Run(Initial(clock), evs[..k]).value, evs[k]);
    }
  }

  // ---------------------------------------------------------------- completeness of a pass

  predicate StartedInPass(q: Queue, id: Id) {
    q.phase.Pass? && exists i :: q.phase.mark <= i < |q.starts| && q.starts[i].id == id
  }

  /** Each entry of the batch is still to be processed, was started in this pass, or belongs to
      a timer cancelled before its turn. */
  predicate Handled(q: Queue, batch: seq<Entry>) {
    && q.phase.Pass? && q.phase.mark <= |q.starts|
    && forall e :: e in batch ==> e in q.phase.rest || StartedInPass(q, e.id) || Dead(q, e.id)
  }

  lemma StepKeepsHandled(q: Queue, e: Step, batch: seq<Entry>)
    requires Owned(q) && Enabled(q, e) && Handled(q, batch) && !e.End?
    ensures Handled(Next(q, e), batch)
  {
    var r := Next(q, e);
    forall x | x in batch
      ensures x in r.phase.rest || StartedInPass(r, x.id) || Dead(r, x.id)
    {
      if StartedInPass(q, x.id) {
        var i :| q.phase.mark <= i < |q.starts| && q.starts[i].id == x.id;
        assert r.starts[i] == q.starts[i];
      } else if Dead(q, x.id) {
        StepKeepsDead(q, e, x.id);
      } else if e.Take? {
        TakeHandles(q, e.now, x);
      }
    }
  }

  lemma TakeHandles(q: Queue, now: int, x: Entry)
    requires Owned(q) && Enabled(q, Take(now)) && x in q.phase.rest && q.phase.mark <= |q.starts|
    ensures var r := TakeEntry(q, now);
      x in r.phase.rest || StartedInPass(r, x.id) || Dead(r, x.id)
  {
    var r := TakeEntry(q, now);
    assert q.phase.rest == [q.phase.rest[0]] + r.phase.rest;
    if x == q.phase.rest[0] && !q.heap[x.id].canceled {
      assert r.starts[|q.starts|].id == x.id;
    }
  }

  /** When a pass is about to end, every entry that was due at its beginning was started in it,
      unless its timer was cancelled: none is skipped, whatever the callbacks add or cancel. */
  lemma {:induction false} PassSkipsNone(q: Queue, readAt: int, now: int, evs: seq<Step>)
    requires Reachable(q) && Enabled(q, Begin(readAt, now))
    requires forall e :: e in evs ==> !e.End?
    requires Run(BeginPass(q, readAt, now), evs).Some?
    ensures var r := Run(BeginPass(q, readAt, now), evs).value;
      && Owned(r) && Handled(r, q.timers[..DueCount(q.timers, now)])
      && (r.phase.rest == [] ==>
            forall e :: e in q.timers && e.when <= now ==> StartedInPass(r, e.id) || Dead(r, e.id))
  {
    ReachableInvariants(q);
    SplitDue(q.timers, now);
    if evs == [] {
      BeginKeepsOwned(q, readAt, now);
    } else {
      var k := |evs| - 1;
      PassSkipsNone(q, readAt, now, evs[..k]);
      var m := Run(BeginPass(q, readAt, now), evs[..k]).value;
      StepKeepsOwned(m, evs[k]);
      StepKeepsHandled(m, evs[k], q.timers[..DueCount(q.timers, now)]);
    }
  }

  /** Between `q` and `r`, every timer due at `now` was started, unless it is cancelled. */
  predicate DueHandled(q: Queue, now: int, r: Queue) {
    forall e :: e in q.timers && e.when <= now ==>
      (exists i :: |q.starts| <= i < |r.starts| && r.starts[i].id == e.id) || Dead(r, e.id)
  }

  lemma PassHandled(q: Queue, now: int, m: Queue, endAt: int)
    requires m.phase.Pass? && m.phase.mark == |q.starts|
    requires forall e :: e in q.timers && e.when <= now ==> StartedInPass(m, e.id) || Dead(m, e.id)
    ensures DueHandled(q, now, EndPass(m, endAt))
  {
    var r := EndPass(m, endAt);
    forall e | e in q.timers && e.when <= now
      ensures (exists i :: |q.starts| <= i < |r.starts| && r.starts[i].id == e.id) || Dead(r, e.id)
    {
      if StartedInPass(m, e.id) {
        var i :| m.phase.mark <= i < |m.starts| && m.starts[i].id == e.id;
        assert r.starts[i].id == e.id;
      }
    }
  }

  /** Behind its callback a repeating timer waits one interval later, any other is freed. */
  lemma FinishOutcome(q: Queue)
    requires Owned(q) && Enabled(q, Finish)
    ensures var id := q.phase.running.value.id;
      var t, r := q.heap[id], FinishCallback(q);
      && (t.interval > 0 ==> id in r.heap && InSet(r, id) && r.heap[id].when == t.when + t.interval
                             && r.heap[id].canceled == t.canceled)
      && (t.interval <= 0 ==> id !in r.heap && id in r.freed)
  {
    var id := q.phase.running.value.id;
    InsertSorted(q.timers, Entry(q.heap[id].when + q.heap[id].interval, id));
  }

  lemma {:induction false} RunJoins(q: Queue, a: seq<Step>, m: Queue, b: seq<Step>)
    requires Run(q, a) == Some(m)
    ensures Run(q, a + b) == Run(m, b)
  {
    if b == [] {
      assert a + b == a;
    } else {
      var k := |b| - 1;
      RunJoins(q, a, m, b[..k]);
      assert (a + b)[..|a + b| - 1] == a + b[..k];
    }
  }

  lemma RunSnoc(q: Queue, a: seq<Step>, m: Queue, e: Step)
    requires Run(q, a) == Some(m) && Enabled(m, e)
    ensures Run(q, a + [e]) == Some(Next(m, e))
  {
  }

  /** One round of the loop in `handleRead`: the start of a callback, the calls it makes and
      its return. */
  lemma RoundRuns(q: Queue, first: Step, inside: seq<Step>, m: Queue, last: Step)
    requires Enabled(q, first) && Run(Next(q, first), inside) == Some(m) && Enabled(m, last)
    ensures Run(q, [first] + inside + [last]) == Some(Next(m, last))
  {
    RunOne(q, first);
    RunJoins(q, [first], Next(q, first), inside);
    RunSnoc(q, [first] + inside, m, last);
  }

  lemma RunOne(q: Queue, e: Step)
    requires Enabled(q, e)
    ensures Run(q, [e]) == Some(Next(q, e))
  {
    RunSnoc(q, [], q, e);
    assert [] + [e] == [e];
  }

  /** A pass as a run: its beginning, the steps for its entries, and its end. */
  lemma WholePass(q: Queue, readAt: int, now: int, evs: seq<Step>, m: Queue, endAt: int)
    requires Reachable(q) && Enabled(q, Begin(readAt, now))
    requires Run(BeginPass(q, readAt, now), evs) == Some(m) && NoEnd(evs)
    requires Enabled(m, End(endAt)) && m.phase.mark == |q.starts|
    ensures Run(q, [Begin(readAt, now)] + evs + [End(endAt)]) == Some(EndPass(m, endAt))
    ensures DueHandled(q, now, EndPass(m, endAt))
  {
    RoundRuns(q, Begin(readAt, now), evs, m, End(endAt));
    PassSkipsNone(q, readAt, now, evs);
    PassHandled(q, now, m, endAt);
  }

  predicate NoEnd(evs: seq<Step>) { forall e :: e in evs ==> !e.End? }

  /** The entries from the `i`-th on. */
  function From(s: seq<Entry>, i: nat): seq<Entry>
    requires i <= |s|
  {
    s[i..]
  }

  lemma FromEnds(s: seq<Entry>)
    ensures From(s, 0) == s && From(s, |s|) == []
  {
  }

  lemma FromNext(s: seq<Entry>, i: nat)
    requires i < |s|
    ensures From(s, i) != [] && From(s, i)[0] == s[i] && From(s, i)[1..] == From(s, i + 1)
  {
  }

  /** The first `i` turns of a pass lead from `q` to `m`, and so do the steps `evs`. */
  ghost predicate TurnsLead(q: Queue, turns: seq<Turn>, i: nat, evs: seq<Step>, m: Queue) {
    AfterTurns(q, turns, i) == Some(m) && Run(q, evs) == Some(m) && NoEnd(evs) && Reachable(m)
  }

  lemma NoTurnsLead(q: Queue, turns: seq<Turn>)
    requires Reachable(q)
    ensures TurnsLead(q, turns, 0, [], q)
  {
  }

  lemma TurnLeads(q: Queue, turns: seq<Turn>, i: nat, evs: seq<Step>, m: Queue, more: seq<Step>, r: Queue)
    requires TurnsLead(q, turns, i, evs, m) && AfterTurn(m, TurnAt(m, turns, i)) == Some(r)
    requires Run(m, more) == Some(r) && NoEnd(more) && Reachable(r)
    ensures TurnsLead(q, turns, i + 1, evs + more, r)
  {
    RunJoins(q, evs, m, more);
  }

  /** Some run from an empty queue leads here. */
  ghost predicate Reachable(q: Queue) {
    exists clock, evs :: Run(Initial(clock), evs) == Some(q)
  }

  /** Everything proved of runs, for a reachable state. */
  lemma ReachableInvariants(q: Queue)
    requires Reachable(q)
    ensures Owned(q) && ArmedInTime(q) && OnSchedule(q)
  {
    var clock, evs :| Run(Initial(clock), evs) == Some(q);
    OwnedAlways(clock, evs);
    ArmedInTimeAlways(clock, evs);
    OnScheduleAlways(clock, evs);
  }

  lemma InitialReachable(clock: int)
    ensures Reachable(Initial(clock))
  {
    assert Run(Initial(clock), []) == Some(Initial(clock));
  }

  lemma ReachableNext(q: Queue, e: Step)
    requires Reachable(q) && Enabled(q, e)
    ensures Reachable(Next(q, e))
  {
    var clock, evs :| Run(Initial(clock), evs) == Some(q);
    RunSnoc(Initial(clock), evs, q, e);
  }

  /** The entries a pass still has to process belong to live timers. */
  lemma PassEntriesLive(q: Queue)
    requires Reachable(q) && q.phase.Pass?
    ensures q.phase.rest != [] ==> q.phase.rest[0].id in q.heap
    ensures q.phase.running.Some? ==> q.phase.running.value.id in q.heap
  {
    ReachableInvariants(q);
    assert q.phase.rest != [] ==> q.phase.rest[0] in q.phase.rest;
    assert q.phase.running.Some? ==> q.phase.running.value in [q.phase.running.value];
  }

  function IdSet(s: seq<Entry>): set<Id> { set e | e in s :: e.id }

  /** What the destructor's loop has done after the first `k` entries of the set. */
  function DestroyedFirst(q: Queue, k: nat): Queue
    requires k <= |q.timers|
  {
    q.(heap := q.heap - IdSet(q.timers[..k]), freed := q.freed + Ids(q.timers[..k]))
  }

  lemma DistinctInSet(q: Queue, k: nat)
    requires Reachable(q) && k < |q.timers|
    ensures q.timers[k].id in q.heap
    ensures forall x :: x in q.timers[..k] ==> x.id != q.timers[k].id
  {
    ReachableInvariants(q);
    var e := q.timers[k];
    assert e in q.timers;
    forall x | x in q.timers[..k]
      ensures x.id != e.id
    {
      assert x in q.timers && Less(x, e);
    }
  }

  lemma DestroyStep(q: Queue, k: nat)
    requires Reachable(q) && k < |q.timers|
    ensures q.timers[k].id in DestroyedFirst(q, k).heap
    ensures DestroyedFirst(q, k + 1) == Free(DestroyedFirst(q, k), q.timers[k].id)
  {
    DistinctInSet(q, k);
    OneMoreId(q.timers, k);
    var e, ids := q.timers[k], IdSet(q.timers[..k]);
    assert q.heap - (ids + {e.id}) == q.heap - ids - {e.id};
    assert q.freed + (Ids(q.timers[..k]) + [e.id]) == q.freed + Ids(q.timers[..k]) + [e.id];
  }

  lemma OneMoreId(s: seq<Entry>, k: nat)
    requires k < |s|
    ensures IdSet(s[..k + 1]) == IdSet(s[..k]) + {s[k].id}
    ensures Ids(s[..k + 1]) == Ids(s[..k]) + [s[k].id]
  {
    assert s[..k + 1] == s[..k] + [s[k]];
  }
}
