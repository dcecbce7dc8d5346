/** What a connection is for: an ordered byte pipe. It knows the payloads accepted and how many
    of their bytes the kernel has taken, and nothing of buffers, interest flags or the kernel's
    table. Without a file, the machine of module Connection is this pipe. */
module Pipe {
  import opened Bytes
  import C = Connection

  datatype Phase = Open | Closing | Closed

  /** `announced` holds the number of bytes taken at each write-complete callback. */
  datatype Pipe = Pipe(
    phase: Phase, accepted: seq<seq<Byte>>, taken: nat, announced: seq<nat>, halfClosed: bool)

  const NEW := Pipe(Open, [], 0, [], false)

  /** The bytes accepted and not taken yet. */
  function Pending(p: Pipe): int { |Flatten(p.accepted)| - p.taken }

  function Announce(p: Pipe): Pipe { p.(announced := p.announced + [p.taken]) }

  /** An open pipe accepts every payload. With nothing pending it is written at once, and a
      write of all of it is announced before the call returns. */
  function Offer(p: Pipe, data: seq<Byte>, a: C.Answer, onComplete: C.Script): Pipe
    decreases onComplete, 1
  {
    var q := p.(accepted := p.accepted + [data]);
    if !p.phase.Open? then p
    else if Pending(p) != 0 then q
    else
      var written := q.(taken := p.taken + C.Taken(a, |data|));
      if a.Accept? && a.n >= |data| then Perform(Announce(written), onComplete) else written
  }

  function Close(p: Pipe, onClosed: C.Script): Pipe
    decreases onClosed, 1
  {
    if p.phase.Closed? then p else Perform(p.(phase := Closed), onClosed)
  }

  function Do(p: Pipe, act: C.Act): Pipe
    decreases act
  {
    match act
    case Send(data, a, onComplete) => Offer(p, data, a, onComplete)
    case Shutdown => if p.phase.Open? then p.(phase := Closing, halfClosed := Pending(p) == 0) else p
    case ForceClose(onClosed) => Close(p, onClosed)
    case SetFile(_) => p
  }

  /** A callback makes all its calls, in order. */
  function Perform(p: Pipe, s: C.Script): Pipe
    decreases s, 0
  {
    if s.Done? then p else Perform(Do(p, s.act), s.rest)
  }

  /** The write that empties the pipe performs an owed half-close and is announced. */
  function Drain(p: Pipe, a: C.Answer, onComplete: C.Script): Pipe {
    if p.phase.Closed? || Pending(p) <= 0 || a.Fail? then p
    else if a.n < Pending(p) then p.(taken := p.taken + a.n)
    else Perform(Announce(p.(taken := |Flatten(p.accepted)|, halfClosed := p.phase.Closing?)), onComplete)
  }

  function Step(p: Pipe, e: C.Event): Pipe {
    match e
    case Call(act) => Do(p, act)
    case Writable(a, onComplete) => Drain(p, a, onComplete)
    case ReadFailed => p
    case ReadData(onMessage) => if p.phase.Closed? then p else Perform(p, onMessage)
    case ReadEnd(onClosed) => Close(p, onClosed)
    case Hangup(onClosed) => Close(p, onClosed)
  }

  function Run(p: Pipe, events: seq<C.Event>): Pipe {
    if events == [] then p else Step(Run(p, events[..|events| - 1]), events[|events| - 1])
  }

  // ---------------------------------------------------------------- the connection is the pipe

  function PhaseOf(s: C.State): Phase {
    match s
    case Connecting => Open
    case Connected => Open
    case Disconnecting => Closing
    case Disconnected => Closed
  }

  function View(c: C.Conn): Pipe {
    Pipe(PhaseOf(c.state), c.sends, |c.wire|, c.notices, c.shutdowns == 1)
  }

  lemma PendingIsBacklog(c: C.Conn)
    requires C.Inv(c)
    ensures Pending(View(c)) == |c.out|
  {
    assert |c.wire + c.out| == |c.wire| + |c.out|;
  }

  lemma {:induction false} SendRefines(c: C.Conn, data: seq<Byte>, a: C.Answer, onComplete: C.Script)
    requires C.Inv(c) && c.state.Connected? && C.FilelessScript(onComplete)
    ensures View(C.SendInLoop(c, data, a, onComplete)) == Offer(View(c), data, a, onComplete)
    decreases onComplete, 1
  {
    PendingIsBacklog(c);
    if c.out == [] && a.Accept? && a.n >= |data| {
      assert data[..|data|] == data && data[|data|..] == [];
      var c1 := C.Notify(c.(sends := c.sends + [data], wire := c.wire + data));
      C.WholeSendNotifies(c, data);
      C.ScriptKeepsInv(c1, onComplete);
      ScriptRefines(c1, onComplete);
      assert C.SendInLoop(c, data, a, onComplete) == C.RunScript(c1, onComplete);
    }
  }

  lemma {:induction false} CloseRefines(c: C.Conn, onClosed: C.Script)
    requires C.Inv(c) && !c.state.Disconnected? && C.FilelessScript(onClosed)
    ensures View(C.HandleClose(c, onClosed)) == Close(View(c), onClosed)
    decreases onClosed, 1
  {
    ScriptRefines(C.Closed(c), onClosed);
  }

  lemma {:induction false} ActRefines(c: C.Conn, act: C.Act)
    requires C.Inv(c) && C.FilelessAct(act)
    ensures View(C.RunAct(c, act)) == Do(View(c), act)
    decreases act
  {
    match act
    case Send(data, a, onComplete) =>
      if c.state.Connected? { SendRefines(c, data, a, onComplete); }
    case Shutdown => PendingIsBacklog(c);
    case ForceClose(onClosed) =>
      if !c.state.Disconnected? { CloseRefines(c, onClosed); }
  }

  lemma {:induction false} ScriptRefines(c: C.Conn, s: C.Script)
    requires C.Inv(c) && C.FilelessScript(s)
    ensures View(C.RunScript(c, s)) == Perform(View(c), s)
    decreases s, 0
  {
    if s.Then? {
      ActRefines(c, s.act);
      C.ActKeepsInv(c, s.act);
      ScriptRefines(C.RunAct(c, s.act), s.rest);
    }
  }

  lemma WriteRefines(c: C.Conn, a: C.Answer, onComplete: C.Script)
    requires C.Inv(c) && !c.state.Disconnected? && C.FilelessScript(onComplete)
    ensures View(C.HandleWrite(c, a, onComplete)) == Drain(View(c), a, onComplete)
  {
    PendingIsBacklog(c);
    if c.out != [] && a.Accept? && a.n >= |c.out| {
      var c1 := c.(wire := c.wire + c.out, out := []);
      assert c.out[..|c.out|] == c.out && c.out[|c.out|..] == [];
      assert c1.wire + [] == c1.wire;
      C.AllHandedOver(c.sends);
      ScriptRefines(C.Notify(C.Drained(c1)), onComplete);
    }
  }

  lemma StepRefines(c: C.Conn, e: C.Event)
    requires C.Inv(c) && C.Fileless(e)
    ensures View(C.Step(c, e)) == Step(View(c), e)
  {
    match e
    case Call(act) => ActRefines(c, act);
    case Writable(a, s) => if !c.state.Disconnected? { WriteRefines(c, a, s); }
    case ReadFailed =>
    case ReadData(s) => if !c.state.Disconnected? { ScriptRefines(c, s); }
    case ReadEnd(s) => if !c.state.Disconnected? { CloseRefines(c, s); }
    case Hangup(s) => if !c.state.Disconnected? { CloseRefines(c, s); }
  }

  lemma {:induction false} RunRefines(c: C.Conn, events: seq<C.Event>)
    requires C.Inv(c) && forall e :: e in events ==> C.Fileless(e)
    ensures C.Inv(C.Run(c, events)) && View(C.Run(c, events)) == Run(View(c), events)
  {
    C.RunKeepsInv(c, events);
    if events != [] {
      var k := |events| - 1;
      RunRefines(c, events[..k]);
      StepRefines(C.Run(c, events[..k]), events[k]);
    }
  }

  /** Over every run without a file, callbacks included, the connection is the pipe: it has
      accepted the same payloads, made the same announcements and half-close, is in the same
      phase, and what the kernel has taken is the pipe's count of the bytes accepted. */
  lemma ConnectionIsPipe(onConnection: C.Script, events: seq<C.Event>)
    requires C.FilelessScript(onConnection) && forall e :: e in events ==> C.Fileless(e)
    ensures var c, p := C.Run(C.Establish(onConnection), events), Run(Perform(NEW, onConnection), events);
      && View(c) == p
      && 0 <= p.taken <= |Flatten(p.accepted)|
      && c.wire == Flatten(p.accepted)[..p.taken] && c.out == Flatten(p.accepted)[p.taken..]
  {
    C.ScriptKeepsInv(C.OPEN, onConnection);
    ScriptRefines(C.OPEN, onConnection);
    var start := C.Establish(onConnection);
    RunRefines(start, events);
    var c := C.Run(start, events);
    assert c.wire == (c.wire + c.out)[..|c.wire|] && c.out == (c.wire + c.out)[|c.wire|..];
  }
}
