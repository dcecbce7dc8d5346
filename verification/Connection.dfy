/** yvent/TcpConnection.cpp as a state machine over values: the write path, the deferred
    half-close, the file tail and the interest flags, with reentrant callbacks. */
module Connection {
  import opened Bytes
  import opened Interest

  datatype State = Connecting | Connected | Disconnecting | Disconnected

  /** What the kernel answers to `write` or `sendfile`: an error, or at most `n` bytes taken. */
  datatype Answer = Fail | Accept(n: nat)

  /** A call user code makes on the connection from the loop thread. A callback is a finite
      list of such calls; `Send` carries the answer to its direct write and what the
      write-complete callback does if it runs inside the call; `onClosed` is what the
      connection callback and then the close callback do. */
  datatype Act =
    | Send(data: seq<Byte>, answer: Answer, onComplete: Script)
    | Shutdown
    | ForceClose(onClosed: Script)
    | SetFile(content: seq<Byte>)

  datatype Script = Done | Then(act: Act, rest: Script)

  /** One step of the loop thread. */
  datatype Event =
    | Call(act: Act)
    | Writable(answer: Answer, onComplete: Script)
    | ReadFailed
    | ReadData(onMessage: Script)
    | ReadEnd(onClosed: Script)
    | Hangup(onClosed: Script)

  /** `out` is the backlog, `file` the unsent part of the file (`st_size` is its length),
      `wire` all bytes the kernel has taken, `sends` the payloads accepted so far, `shutdowns`
      the number of `::shutdown(SHUT_WR)` calls, `notices` how many bytes the kernel had taken
      at each start of the write-complete callback, and `closes` how often the callbacks of a
      close were started. */
  datatype Conn = Conn(
    state: State, watch: Watch, out: seq<Byte>, file: seq<Byte>,
    wire: seq<Byte>, sends: seq<seq<Byte>>, shutdowns: nat, notices: seq<nat>, closes: nat)

  /** The number of bytes taken out of `len`; every outcome in 0..len arises from some answer. */
  function Taken(a: Answer, len: nat): (n: nat)
    ensures n <= len
  {
    match a
    case Fail => 0
    case Accept(n) => if n < len then n else len
  }

  predicate IsWriting(c: Conn) { c.watch.events.write }

  predicate Established(c: Conn) { !c.state.Connecting? && !c.watch.reg.New? }

  function ShutdownInLoop(c: Conn): Conn {
    if IsWriting(c) then c else c.(shutdowns := c.shutdowns + 1)
  }

  /** The end of `sendInLoop`: queue what the direct write left over. */
  function QueueRest(c: Conn, rest: seq<Byte>): Conn {
    if rest != [] || c.file != [] then
      var queued := c.(out := c.out + rest);
      if IsWriting(c) then queued else queued.(watch := EnableWrite(c.watch))
    else c
  }

  function Notify(c: Conn): Conn { c.(notices := c.notices + [|c.wire|]) }

  function SendInLoop(c: Conn, data: seq<Byte>, a: Answer, onComplete: Script): (r: Conn)
    requires Established(c)
    ensures Established(r)
    decreases onComplete, 1
  {
    if c.state.Disconnected? then c
    else
      var c0 := c.(sends := c.sends + [data]);
      if !IsWriting(c) && c.out == [] then
        var n := Taken(a, |data|);
        var c1 := c0.(wire := c0.wire + data[..n]);
        var c2 := if a.Accept? && n == |data| then RunScript(Notify(c1), onComplete) else c1;
        QueueRest(c2, data[n..])
      else QueueRest(c0, data)
  }

  /** Where `handleClose` calls the connection callback and then the close callback. */
  function Closed(c: Conn): Conn {
    c.(state := Disconnected, watch := DisableAll(c.watch), closes := c.closes + 1)
  }

  function HandleClose(c: Conn, onClosed: Script): (r: Conn)
    requires Established(c)
    requires c.state.Connected? || c.state.Disconnecting?
    ensures Established(r)
    decreases onClosed, 1
  {
    RunScript(Closed(c), onClosed)
  }

  function RunAct(c: Conn, act: Act): (r: Conn)
    requires Established(c)
    ensures Established(r)
    decreases act
  {
    match act
    case Send(data, a, onComplete) =>
      if c.state.Connected? then SendInLoop(c, data, a, onComplete) else c
    case Shutdown =>
      if c.state.Connected? then ShutdownInLoop(c.(state := Disconnecting)) else c
    case ForceClose(onClosed) =>
      if c.state.Disconnected? then c else HandleClose(c, onClosed)
    case SetFile(content) => c.(file := content)
  }

  function RunScript(c: Conn, s: Script): (r: Conn)
    requires Established(c)
    ensures Established(r)
    decreases s, 0
  {
    match s
    case Done => c
    case Then(act, rest) => RunScript(RunAct(c, act), rest)
  }

  /** The direct or deferred end of a drain in `handleWrite`. */
  function Drained(c: Conn): Conn {
    var c1 := c.(watch := DisableWrite(c.watch));
    if c.state.Disconnecting? then ShutdownInLoop(c1) else c1
  }

  function HandleWrite(c: Conn, a: Answer, onComplete: Script): (r: Conn)
    requires Established(c)
    ensures Established(r)
  {
    if !IsWriting(c) then c
    else if c.out != [] then
      if a.Fail? then c
      else
        var n := Taken(a, |c.out|);
        var c1 := c.(wire := c.wire + c.out[..n], out := c.out[n..]);
        if c1.out == [] && c1.file == [] then RunScript(Notify(Drained(c1)), onComplete) else c1
    else if c.file != [] then
      if a.Fail? then c
      else
        var n := Taken(a, |c.file|);
        var c1 := c.(wire := c.wire + c.file[..n], file := c.file[n..]);
        if c1.file == [] then Drained(c1) else c1
    else c
  }

  /** A loop step; handlers fire only while the connection is not disconnected. */
  function Step(c: Conn, e: Event): (r: Conn)
    requires Established(c)
    ensures Established(r)
  {
    match e
    case Call(act) => RunAct(c, act)
    case Writable(a, onComplete) => if c.state.Disconnected? then c else HandleWrite(c, a, onComplete)
    case ReadFailed => c
    case ReadData(onMessage) => if c.state.Disconnected? then c else RunScript(c, onMessage)
    case ReadEnd(onClosed) => if c.state.Disconnected? then c else HandleClose(c, onClosed)
    case Hangup(onClosed) => if c.state.Disconnected? then c else HandleClose(c, onClosed)
  }

  function Run(c: Conn, events: seq<Event>): (r: Conn)
    requires Established(c)
    ensures Established(r)
  {
    if events == [] then c else Step(Run(c, events[..|events| - 1]), events[|events| - 1])
  }

  /** `enableRead` on a connection just constructed, with what the connection callback does. */
  const FRESH := Conn(Connecting, Watch(NO_EVENTS, New, None, 0), [], [], [], [], 0, [], 0)

  const OPEN := FRESH.(state := Connected, watch := EnableRead(FRESH.watch))

  function Establish(onConnection: Script): (r: Conn)
    ensures Established(r)
  {
    RunScript(OPEN, onConnection)
  }

  // ---------------------------------------------------------------- runs without a file

  predicate FilelessAct(act: Act)
    decreases act
  {
    match act
    case Send(_, _, onComplete) => FilelessScript(onComplete)
    case Shutdown => true
    case ForceClose(onClosed) => FilelessScript(onClosed)
    case SetFile(_) => false
  }

  predicate FilelessScript(s: Script)
    decreases s
  {
    s.Then? ==> FilelessAct(s.act) && FilelessScript(s.rest)
  }

  predicate Fileless(e: Event) {
    match e
    case Call(act) => FilelessAct(act)
    case Writable(_, s) => FilelessScript(s)
    case ReadFailed => true
    case ReadData(s) => FilelessScript(s)
    case ReadEnd(s) => FilelessScript(s)
    case Hangup(s) => FilelessScript(s)
  }

  /** The kernel's row mirrors the channel, and the channel is deleted exactly when the
      connection is disconnected. */
  predicate TableAgrees(c: Conn) {
    && Mirrored(c.watch)
    && !c.watch.reg.New?
    && (c.watch.reg.Deleted? <==> c.state.Disconnected?)
    && c.watch.events.read == !c.state.Disconnected?
    && (c.state.Disconnected? ==> c.watch.events == NO_EVENTS)
  }

  /** The half-close happens at most once and only after everything was handed over; while
      it is owed, write interest is on. */
  predicate HalfCloseOrderly(c: Conn) {
    && c.shutdowns <= 1
    && (c.shutdowns == 1 ==> !c.state.Connected? && c.out == [] && c.file == [])
    && (c.state.Disconnecting? ==> c.shutdowns == 1 || IsWriting(c))
  }

  /** `n` is where one of the accepted payloads ends. */
  predicate AtBoundary(sends: seq<seq<Byte>>, n: nat) {
    exists k :: 0 <= k <= |sends| && |Flatten(sends[..k])| == n
  }

  /** The write-complete callback starts only at the end of an accepted payload, and whenever
      the backlog is empty the last byte handed over was announced. */
  predicate NoticesExact(c: Conn) {
    && (forall n :: n in c.notices ==> AtBoundary(c.sends, n))
    && (c.out == [] && c.wire != [] ==> c.notices != [] && c.notices[|c.notices| - 1] == |c.wire|)
  }

  lemma BoundariesStay(sends: seq<seq<Byte>>, more: seq<Byte>)
    ensures forall n :: AtBoundary(sends, n) ==> AtBoundary(sends + [more], n)
  {
    forall n | AtBoundary(sends, n)
      ensures AtBoundary(sends + [more], n)
    {
      var k :| 0 <= k <= |sends| && |Flatten(sends[..k])| == n;
      assert (sends + [more])[..k] == sends[..k];
    }
  }

  lemma AllHandedOver(sends: seq<seq<Byte>>)
    ensures AtBoundary(sends, |Flatten(sends)|)
  {
    assert sends[..|sends|] == sends;
  }

  predicate Inv(c: Conn) {
    && Established(c)
    && c.closes == (if c.state.Disconnected? then 1 else 0)
    && NoticesExact(c)
    && c.file == []
    && c.wire + c.out == Flatten(c.sends)
    && (!c.state.Disconnected? ==> (IsWriting(c) <==> c.out != []))
    && TableAgrees(c)
    && HalfCloseOrderly(c)
  }

  lemma QueueRestKeepsInv(c: Conn, data: seq<Byte>, n: nat)
    requires Inv(c) && n <= |data| && c.state.Connected?
    requires c.out == [] || n == 0
    requires n == 0 || n < |data|
    ensures Inv(QueueRest(c.(sends := c.sends + [data], wire := c.wire + data[..n]), data[n..]))
  {
    FlattenSnoc(c.sends, data);
    BoundariesStay(c.sends, data);
    PartlyTaken(c.wire, c.out, data, n);
  }

  lemma PartlyTaken(wire: seq<Byte>, out: seq<Byte>, data: seq<Byte>, n: nat)
    requires n <= |data| && (out == [] || n == 0)
    ensures (wire + data[..n]) + (out + data[n..]) == (wire + out) + data
    ensures data[..0] == [] && wire + [] == wire
    ensures data == [] ==> (wire + out) + data == wire + out
  {
    assert data[..n] + data[n..] == data;
  }

  /** The state in which the callback of a send that was written at once starts. */
  lemma WholeSendNotifies(c: Conn, data: seq<Byte>)
    requires Inv(c) && c.state.Connected? && c.out == []
    ensures Inv(Notify(c.(sends := c.sends + [data], wire := c.wire + data)))
  {
    var c1 := c.(sends := c.sends + [data], wire := c.wire + data);
    FlattenSnoc(c.sends, data);
    assert c.wire + [] == c.wire && c1.wire + [] == c1.wire;
    AllHandedOver(c1.sends);
    BoundariesStay(c.sends, data);
  }

  lemma {:induction false} SendKeepsInv(c: Conn, data: seq<Byte>, a: Answer, onComplete: Script)
    requires Inv(c) && c.state.Connected? && FilelessScript(onComplete)
    ensures Inv(SendInLoop(c, data, a, onComplete))
    decreases onComplete, 1
  {
    if !IsWriting(c) && c.out == [] {
      var n := Taken(a, |data|);
      if a.Accept? && n == |data| {
        assert data[..n] == data && data[n..] == [];
        var c1 := Notify(c.(sends := c.sends + [data], wire := c.wire + data));
        WholeSendNotifies(c, data);
        ScriptKeepsInv(c1, onComplete);
        assert QueueRest(RunScript(c1, onComplete), []) == RunScript(c1, onComplete);
      } else {
        QueueRestKeepsInv(c, data, n);
      }
    } else {
      QueueRestKeepsInv(c, data, 0);
      assert c.wire + data[..0] == c.wire && data[0..] == data;
    }
  }

  lemma {:induction false} CloseKeepsInv(c: Conn, onClosed: Script)
    requires Inv(c) && !c.state.Disconnected? && FilelessScript(onClosed)
    ensures Inv(HandleClose(c, onClosed))
    decreases onClosed, 1
  {
    ScriptKeepsInv(Closed(c), onClosed);
  }

  lemma {:induction false} ActKeepsInv(c: Conn, act: Act)
    requires Inv(c) && FilelessAct(act)
    ensures Inv(RunAct(c, act))
    decreases act
  {
    match act
    case Send(data, a, onComplete) =>
      if c.state.Connected? { SendKeepsInv(c, data, a, onComplete); }
    case Shutdown =>
    case ForceClose(onClosed) =>
      if !c.state.Disconnected? { CloseKeepsInv(c, onClosed); }
    case SetFile(_) =>
  }

  lemma {:induction false} ScriptKeepsInv(c: Conn, s: Script)
    requires Inv(c) && FilelessScript(s)
    ensures Inv(RunScript(c, s))
    decreases s, 0
  {
    if s.Then? {
      ActKeepsInv(c, s.act);
      ScriptKeepsInv(RunAct(c, s.act), s.rest);
    }
  }

  lemma WriteKeepsInv(c: Conn, a: Answer, onComplete: Script)
    requires Inv(c) && !c.state.Disconnected? && FilelessScript(onComplete)
    ensures Inv(HandleWrite(c, a, onComplete))
  {
    if IsWriting(c) && a.Accept? {
      var n := Taken(a, |c.out|);
      var c1 := c.(wire := c.wire + c.out[..n], out := c.out[n..]);
      MoveFront(c.wire, c.out, n);
      if c1.out == [] {
        assert c1.wire + [] == c1.wire;
        AllHandedOver(c.sends);
        ScriptKeepsInv(Notify(Drained(c1)), onComplete);
      }
    }
  }

  lemma StepKeepsInv(c: Conn, e: Event)
    requires Inv(c) && Fileless(e)
    ensures Inv(Step(c, e))
  {
    match e
    case Call(act) => ActKeepsInv(c, act);
    case Writable(a, s) => if !c.state.Disconnected? { WriteKeepsInv(c, a, s); }
    case ReadFailed =>
    case ReadData(s) => if !c.state.Disconnected? { ScriptKeepsInv(c, s); }
    case ReadEnd(s) => if !c.state.Disconnected? { CloseKeepsInv(c, s); }
    case Hangup(s) => if !c.state.Disconnected? { CloseKeepsInv(c, s); }
  }

  lemma RunNext(c: Conn, events: seq<Event>, e: Event)
    requires Established(c)
    ensures Run(c, events + [e]) == Step(Run(c, events), e)
  {
    assert (events + [e])[..|events|] == events;
  }

  lemma {:induction false} RunKeepsInv(c: Conn, events: seq<Event>)
    requires Inv(c)
    requires forall e :: e in events ==> Fileless(e)
    ensures Inv(Run(c, events))
  {
    if events != [] {
      var k := |events| - 1;
      RunKeepsInv(c, events[..k]);
      StepKeepsInv(Run(c, events[..k]), events[k]);
    }
  }

  /** Conservation, interest, half-close and table agreement hold after every run. */
  lemma EveryRun(onConnection: Script, events: seq<Event>)
    requires FilelessScript(onConnection)
    requires forall e :: e in events ==> Fileless(e)
    ensures Inv(Run(Establish(onConnection), events))
  {
    ScriptKeepsInv(OPEN, onConnection);
    RunKeepsInv(Establish(onConnection), events);
  }

  // ---------------------------------------------------------------- callbacks

  /** A callback that sends payloads and does nothing else. */
  predicate OnlySends(s: Script) {
    s.Then? ==> s.act.Send? && s.act.onComplete.Done? && OnlySends(s.rest)
  }

  function Payloads(s: Script): seq<seq<Byte>>
    requires OnlySends(s)
  {
    if s.Done? then [] else [s.act.data] + Payloads(s.rest)
  }

  lemma SendIsAccepted(c: Conn, data: seq<Byte>, a: Answer)
    requires Established(c) && c.state.Connected?
    ensures var r := RunAct(c, Send(data, a, Done));
      r.state.Connected? && r.sends == c.sends + [data]
  {
    var written := c.(sends := c.sends + [data], wire := c.wire + data[..Taken(a, |data|)]);
    assert RunScript(Notify(written), Done) == Notify(written);
  }

  lemma {:induction false} SendsAreAccepted(c: Conn, s: Script)
    requires Established(c) && c.state.Connected? && OnlySends(s)
    ensures RunScript(c, s).state.Connected? && RunScript(c, s).sends == c.sends + Payloads(s)
    decreases s
  {
    if s.Then? {
      SendIsAccepted(c, s.act.data, s.act.answer);
      SendsAreAccepted(RunAct(c, s.act), s.rest);
      Associate(c.sends, [s.act.data], Payloads(s.rest));
    }
  }

  /** Each callback is run where the library promises it, and all its payloads are accepted:
      the connection callback, the message callback, and the write-complete callback exactly
      when a payload was written at once or a write emptied the backlog. */
  lemma CallbacksRun(c: Conn, data: seq<Byte>, a: Answer, s: Script)
    requires Inv(c) && c.state.Connected? && OnlySends(s)
    ensures Establish(s).sends == Payloads(s)
    ensures Step(c, ReadData(s)).sends == c.sends + Payloads(s)
    ensures Step(c, Writable(a, s)).sends
            == c.sends + (if c.out != [] && a.Accept? && a.n >= |c.out| then Payloads(s) else [])
    ensures Step(c, Call(Send(data, a, s))).sends
            == c.sends + [data] + (if c.out == [] && a.Accept? && a.n >= |data| then Payloads(s) else [])
  {
    SendsAreAccepted(OPEN, s);
    assert [] + Payloads(s) == Payloads(s);
    SendsAreAccepted(c, s);
    WriteRunsCallback(c, a, s);
    SendRunsCallback(c, data, a, s);
  }

  lemma WriteRunsCallback(c: Conn, a: Answer, s: Script)
    requires Inv(c) && c.state.Connected? && OnlySends(s)
    ensures HandleWrite(c, a, s).sends
            == c.sends + (if c.out != [] && a.Accept? && a.n >= |c.out| then Payloads(s) else [])
  {
    assert c.sends + [] == c.sends;
    if c.out != [] && a.Accept? && a.n >= |c.out| {
      SendsAreAccepted(Notify(Drained(c.(wire := c.wire + c.out[..|c.out|], out := c.out[|c.out|..]))), s);
    }
  }

  lemma SendRunsCallback(c: Conn, data: seq<Byte>, a: Answer, s: Script)
    requires Inv(c) && c.state.Connected? && OnlySends(s)
    ensures SendInLoop(c, data, a, s).sends
            == c.sends + [data] + (if c.out == [] && a.Accept? && a.n >= |data| then Payloads(s) else [])
  {
    assert c.sends + [data] + [] == c.sends + [data];
    if c.out == [] && a.Accept? && a.n >= |data| {
      SendsAreAccepted(Notify(c.(sends := c.sends + [data], wire := c.wire + data[..|data|])), s);
    }
  }

  /** The calls of `s` and then those of `t`. */
  function Chain(s: Script, t: Script): Script {
    if s.Done? then t else Then(s.act, Chain(s.rest, t))
  }

  lemma {:induction false} RunChain(c: Conn, s: Script, t: Script)
    requires Established(c)
    ensures RunScript(c, Chain(s, t)) == RunScript(RunScript(c, s), t)
    decreases s
  {
    if s.Then? {
      RunChain(RunAct(c, s.act), s.rest, t);
    }
  }

  lemma {:induction false} ChainIsFileless(s: Script, t: Script)
    requires FilelessScript(s) && FilelessScript(t)
    ensures FilelessScript(Chain(s, t))
    decreases s
  {
    if s.Then? {
      ChainIsFileless(s.rest, t);
    }
  }

  // ---------------------------------------------------------------- draining

  /** Past `Connected`, and the same bytes, payloads and half-closes as in `c`. */
  predicate InertFrom(c: Conn, r: Conn) {
    && Established(r) && !r.state.Connected?
    && r.wire == c.wire && r.out == c.out && r.sends == c.sends && r.file == c.file
    && r.shutdowns == c.shutdowns
  }

  lemma {:induction false} ClosingActIsInert(c: Conn, act: Act)
    requires Established(c) && !c.state.Connected?
    requires FilelessAct(act)
    ensures InertFrom(c, RunAct(c, act))
    decreases act
  {
    if act.ForceClose? && !c.state.Disconnected? {
      ClosingScriptIsInert(Closed(c), act.onClosed);
    }
  }

  /** Once shutdown was requested or the connection closed, no callback moves a byte,
      has a payload accepted or issues another half-close. */
  lemma {:induction false} ClosingScriptIsInert(c: Conn, s: Script)
    requires Established(c) && !c.state.Connected?
    requires FilelessScript(s)
    ensures InertFrom(c, RunScript(c, s))
    decreases s
  {
    if s.Then? {
      ClosingActIsInert(c, s.act);
      ClosingScriptIsInert(RunAct(c, s.act), s.rest);
    }
  }

  /** The writes in `events` that took at least one byte if there was one to take. */
  function Progress(events: seq<Event>): nat {
    if events == [] then 0
    else
      var e := events[|events| - 1];
      Progress(events[..|events| - 1]) + (if e.Writable? && e.answer.Accept? && e.answer.n > 0 then 1 else 0)
  }

  /** Past `Connected`, a loop step other than a write only may close the connection. */
  lemma ClosingStepIsInert(c: Conn, e: Event)
    requires Inv(c) && !c.state.Connected? && Fileless(e)
    requires !e.Writable?
    ensures InertFrom(c, Step(c, e))
  {
    match e
    case Call(act) => ClosingActIsInert(c, act);
    case ReadFailed =>
    case ReadData(s) => ClosingScriptIsInert(c, s);
    case ReadEnd(s) => ClosingScriptIsInert(Closed(c), s);
    case Hangup(s) => ClosingScriptIsInert(Closed(c), s);
  }

  /** A write past `Connected`: a productive one shortens the backlog, and the one that empties
      it half-closes. */
  lemma ClosingWrite(c: Conn, a: Answer, onComplete: Script)
    requires Inv(c) && c.state.Disconnecting? && FilelessScript(onComplete)
    ensures var r := HandleWrite(c, a, onComplete);
      && !r.state.Connected? && r.sends == c.sends && |r.out| <= |c.out| && r.shutdowns >= c.shutdowns
      && (c.out != [] && r.out == [] ==> r.shutdowns == c.shutdowns + 1)
      && (c.out != [] && a.Accept? && a.n > 0 ==> |r.out| < |c.out|)
  {
    if IsWriting(c) && a.Accept? {
      var n := Taken(a, |c.out|);
      var c1 := c.(wire := c.wire + c.out[..n], out := c.out[n..]);
      if c1.out == [] {
        ClosingScriptIsInert(Notify(Drained(c1)), onComplete);
      }
    }
  }

  /** In every run from a connection that owes its half-close, whatever reads, failed writes,
      calls and callbacks come in between: the half-close was performed, the connection was
      closed, or every productive write shortened the backlog; so it is performed, with every
      accepted byte handed over, once there were as many of those as bytes in the backlog. */
  lemma {:induction false} DrainPerformsHalfClose(c: Conn, events: seq<Event>)
    requires Inv(c) && c.state.Disconnecting?
    requires forall e :: e in events ==> Fileless(e)
    ensures var r := Run(c, events);
      && Inv(r) && !r.state.Connected? && r.sends == c.sends
      && (r.shutdowns == 1 || r.state.Disconnected? || |r.out| + Progress(events) <= |c.out|)
      && (!r.state.Disconnected? && Progress(events) >= |c.out| ==> r.shutdowns == 1 && r.wire == Flatten(c.sends))
  {
    if events != [] {
      var k := |events| - 1;
      DrainPerformsHalfClose(c, events[..k]);
      var m, e := Run(c, events[..k]), events[k];
      StepKeepsInv(m, e);
      if !e.Writable? {
        ClosingStepIsInert(m, e);
      } else if m.state.Disconnecting? {
        ClosingWrite(m, e.answer, e.onComplete);
      }
    }
  }

  /** A shutdown request is never forgotten, whatever the backlog: from then on no payload is
      accepted, and unless the connection is closed before, the half-close is performed behind
      the last byte once productive writes were as many as bytes in the backlog. */
  lemma ShutdownIsHonoured(c: Conn, events: seq<Event>)
    requires Inv(c) && c.state.Connected?
    requires forall e :: e in events ==> Fileless(e)
    ensures var r := Run(RunAct(c, Shutdown), events);
      && Inv(r) && !r.state.Connected? && r.sends == c.sends
      && (!r.state.Disconnected? && Progress(events) >= |c.out| ==> r.shutdowns == 1 && r.wire == Flatten(c.sends))
  {
    ActKeepsInv(c, Shutdown);
    DrainPerformsHalfClose(RunAct(c, Shutdown), events);
  }

  // ---------------------------------------------------------------- closing

  /** End of stream, a hangup, or a forced close. */
  predicate Closing(e: Event) { e.ReadEnd? || e.Hangup? || (e.Call? && e.act.ForceClose?) }

  lemma {:induction false} ClosedScriptIsIdle(c: Conn, s: Script)
    requires Established(c) && c.state.Disconnected? && FilelessScript(s)
    ensures RunScript(c, s) == c
    decreases s
  {
    if s.Then? {
      ClosedScriptIsIdle(c, s.rest);
    }
  }

  /** A closing event closes at once, whatever its callbacks do: the row is out of the kernel's
      table, and the close callbacks have run. */
  lemma ClosingCloses(c: Conn, e: Event)
    requires Inv(c) && Fileless(e) && Closing(e)
    ensures var r := Step(c, e);
      && Inv(r) && r.state.Disconnected? && r.closes == 1
      && r.watch.reg.Deleted? && r.watch.entry.None? && r.watch.refused == 0
      && r.wire == c.wire && r.out == c.out && r.sends == c.sends && r.shutdowns == c.shutdowns
  {
    StepKeepsInv(c, e);
    if !c.state.Disconnected? {
      var script := if e.Call? then e.act.onClosed else e.onClosed;
      assert Step(c, e) == HandleClose(c, script);
      ClosedScriptIsIdle(Closed(c), script);
    }
  }

  lemma {:induction false} ClosedRunIsIdle(c: Conn, events: seq<Event>)
    requires Established(c) && c.state.Disconnected?
    requires forall e :: e in events ==> Fileless(e)
    ensures Run(c, events) == c
  {
    if events != [] {
      ClosedRunIsIdle(c, events[..|events| - 1]);
      assert Fileless(events[|events| - 1]);
    }
  }

  lemma {:induction false} RunJoins(c: Conn, a: seq<Event>, b: seq<Event>)
    requires Established(c)
    ensures Run(c, a + b) == Run(Run(c, a), b)
    decreases |b|
  {
    if b == [] {
      assert a + b == a;
    } else {
      var k := |b| - 1;
      RunJoins(c, a, b[..k]);
      assert (a + b)[..|a + b| - 1] == a + b[..k];
    }
  }

  /** The first closing event of a run is the last thing that happens: the connection stays
      closed with its row gone, the close callbacks have run once, and no byte, payload or
      half-close is added whatever comes later. */
  lemma CloseIsFinal(c: Conn, before: seq<Event>, e: Event, after: seq<Event>)
    requires Inv(c) && Closing(e)
    requires forall x :: x in before + [e] + after ==> Fileless(x)
    ensures var m, r := Run(c, before), Run(c, before + [e] + after);
      && r.state.Disconnected? && r.closes == 1
      && r.watch.reg.Deleted? && r.watch.entry.None? && r.watch.refused == 0
      && r.wire == m.wire && r.out == m.out && r.sends == m.sends && r.shutdowns == m.shutdowns
  {
    forall x | x in before || x == e || x in after
      ensures Fileless(x)
    {
      assert x in before + [e] + after;
    }
    RunKeepsInv(c, before);
    RunNext(c, before, e);
    ClosingCloses(Run(c, before), e);
    RunJoins(c, before + [e], after);
    ClosedRunIsIdle(Run(c, before + [e]), after);
  }
}
