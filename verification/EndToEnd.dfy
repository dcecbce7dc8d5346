/** Codec, write path and reads together: a sender that offers framed messages, a kernel
    that takes and delivers bytes in any pieces, and a receiver that decodes what arrives. */
module EndToEnd {
  import opened Bytes
  import C = Connection
  import opened Codec
  import opened TcpConnections

  /** `data` is the frame of a message within the receiver's limit. */
  predicate IsFrame(data: seq<Byte>) {
    HEADER_LEN <= |data| <= HEADER_LEN + MAX_MESSAGE && data == Frame(data[HEADER_LEN..])
  }

  /** Every payload offered is a legal frame and no file is set. */
  predicate FramedAct(act: C.Act)
    decreases act
  {
    match act
    case Send(data, _, onComplete) => IsFrame(data) && FramedScript(onComplete)
    case Shutdown => true
    case ForceClose(onClosed) => FramedScript(onClosed)
    case SetFile(_) => false
  }

  predicate FramedScript(s: C.Script)
    decreases s
  {
    s.Then? ==> FramedAct(s.act) && FramedScript(s.rest)
  }

  predicate Framed(e: C.Event) {
    match e
    case Call(act) => FramedAct(act)
    case Writable(_, s) => FramedScript(s)
    case ReadFailed => true
    case ReadData(s) => FramedScript(s)
    case ReadEnd(s) => FramedScript(s)
    case Hangup(s) => FramedScript(s)
  }

  lemma {:induction false} FramedActIsFileless(act: C.Act)
    requires FramedAct(act)
    ensures C.FilelessAct(act)
    decreases act
  {
    match act
    case Send(_, _, s) => FramedScriptIsFileless(s);
    case Shutdown =>
    case ForceClose(s) => FramedScriptIsFileless(s);
  }

  lemma {:induction false} FramedScriptIsFileless(s: C.Script)
    requires FramedScript(s)
    ensures C.FilelessScript(s)
    decreases s
  {
    if s.Then? {
      FramedActIsFileless(s.act);
      FramedScriptIsFileless(s.rest);
    }
  }

  lemma FramedIsFileless(e: C.Event)
    requires Framed(e)
    ensures C.Fileless(e)
  {
    match e
    case Call(act) => FramedActIsFileless(act);
    case Writable(_, s) => FramedScriptIsFileless(s);
    case ReadFailed =>
    case ReadData(s) => FramedScriptIsFileless(s);
    case ReadEnd(s) => FramedScriptIsFileless(s);
    case Hangup(s) => FramedScriptIsFileless(s);
  }

  /** Bytes taken by the kernel and payloads accepted are never taken back. */
  predicate Grows(c: C.Conn, r: C.Conn) { SendsFramed(r) && c.wire <= r.wire && c.sends <= r.sends }

  predicate SendsFramed(c: C.Conn) { C.Established(c) && forall d :: d in c.sends ==> IsFrame(d) }

  lemma {:induction false} ActKeepsFramed(c: C.Conn, act: C.Act)
    requires SendsFramed(c) && FramedAct(act)
    ensures Grows(c, C.RunAct(c, act))
    decreases act
  {
    match act
    case Send(data, a, onComplete) =>
      if c.state.Connected? && a.Accept? && C.Taken(a, |data|) == |data| {
        ScriptKeepsFramed(C.Notify(c.(sends := c.sends + [data], wire := c.wire + data[..|data|])), onComplete);
      }
    case Shutdown =>
    case ForceClose(onClosed) =>
      if !c.state.Disconnected? { CloseKeepsFramed(c, onClosed); }
  }

  lemma {:induction false} CloseKeepsFramed(c: C.Conn, onClosed: C.Script)
    requires SendsFramed(c) && !c.state.Disconnected? && FramedScript(onClosed)
    ensures Grows(c, C.HandleClose(c, onClosed))
    decreases onClosed, 1
  {
    ScriptKeepsFramed(C.Closed(c), onClosed);
  }

  lemma {:induction false} ScriptKeepsFramed(c: C.Conn, s: C.Script)
    requires SendsFramed(c) && FramedScript(s)
    ensures Grows(c, C.RunScript(c, s))
    decreases s, 0
  {
    if s.Then? {
      ActKeepsFramed(c, s.act);
      ScriptKeepsFramed(C.RunAct(c, s.act), s.rest);
    }
  }

  lemma StepKeepsFramed(c: C.Conn, e: C.Event)
    requires SendsFramed(c) && Framed(e)
    ensures Grows(c, C.Step(c, e))
  {
    match e
    case Call(act) => ActKeepsFramed(c, act);
    case Writable(a, s) =>
      if C.IsWriting(c) && !c.state.Disconnected? && c.out != [] {
        var n := C.Taken(a, |c.out|);
        ScriptKeepsFramed(C.Notify(C.Drained(c.(wire := c.wire + c.out[..n], out := c.out[n..]))), s);
      }
    case ReadFailed =>
    case ReadData(s) => if !c.state.Disconnected? { ScriptKeepsFramed(c, s); }
    case ReadEnd(s) => if !c.state.Disconnected? { CloseKeepsFramed(c, s); }
    case Hangup(s) => if !c.state.Disconnected? { CloseKeepsFramed(c, s); }
  }

  /** The sender's connection, how many of its bytes the peer has read, and the peer's input
      buffer, delivered messages and whether it ever met a bad length. */
  datatype System = System(sender: C.Conn, read: nat, inbox: seq<Byte>, delivered: seq<Message>, bad: bool)

  /** A step of the sender's loop, or a read of up to `n` bytes by the peer. */
  datatype Move = Sender(e: C.Event) | Arrive(n: nat)

  function Start(onConnection: C.Script): System {
    System(C.Establish(onConnection), 0, [], [], false)
  }

  function Advance(s: System, m: Move): (r: System)
    requires C.Established(s.sender)
    ensures C.Established(r.sender)
  {
    match m
    case Sender(e) => s.(sender := C.Step(s.sender, e))
    case Arrive(n) =>
      var wire := s.sender.wire;
      var end := if s.read + n < |wire| then s.read + n else |wire|;
      var d := Decode(s.inbox + (if s.read <= end then wire[s.read..end] else []));
      System(s.sender, end, d.rest, s.delivered + d.messages, s.bad || d.bad)
  }

  function RunSystem(s: System, moves: seq<Move>): (r: System)
    requires C.Established(s.sender)
    ensures C.Established(r.sender)
  {
    if moves == [] then s else Advance(RunSystem(s, moves[..|moves| - 1]), moves[|moves| - 1])
  }

  predicate FramedMove(m: Move) { m.Sender? ==> Framed(m.e) }

  function Payload(data: seq<Byte>): Message {
    if |data| < HEADER_LEN then [] else data[HEADER_LEN..]
  }

  /** The messages accepted by the sender, in order. */
  function Accepted(c: C.Conn): seq<Message> {
    seq(|c.sends|, i requires 0 <= i < |c.sends| => Payload(c.sends[i]))
  }

  lemma AcceptedFrames(c: C.Conn)
    requires SendsFramed(c)
    ensures Frames(Accepted(c)) == c.sends
    ensures forall m :: m in Accepted(c) ==> |m| <= MAX_MESSAGE
  {
    forall i | 0 <= i < |c.sends|
      ensures Frame(Accepted(c)[i]) == c.sends[i] && |Accepted(c)[i]| <= MAX_MESSAGE
    {
      assert IsFrame(c.sends[i]);
    }
  }

  predicate Inv(s: System) {
    && C.Inv(s.sender)
    && SendsFramed(s.sender)
    && s.read <= |s.sender.wire|
    && Decode(s.sender.wire[..s.read]) == Decoded(s.delivered, s.inbox, false)
    && !s.bad
  }

  /** Whatever prefix of the wire is decoded, it holds no bad length. */
  lemma WirePrefixDecodes(c: C.Conn, n: nat)
    requires C.Inv(c) && SendsFramed(c) && n <= |c.wire|
    ensures var d := Decode(c.wire[..n]);
      && !d.bad && d.messages <= Accepted(c)
      && (n == |c.wire| && c.out == [] ==> d.messages == Accepted(c) && d.rest == [])
  {
    assert c.wire[..n] <= c.wire + c.out;
    assert n == |c.wire| && c.out == [] ==> c.wire[..n] == c.wire + c.out;
    AcceptedFrames(c);
    DecodePrefix(Accepted(c), c.wire[..n]);
  }

  lemma AdvanceKeepsInv(s: System, m: Move)
    requires Inv(s) && FramedMove(m)
    ensures Inv(Advance(s, m))
  {
    match m
    case Sender(e) =>
      FramedIsFileless(e);
      C.StepKeepsInv(s.sender, e);
      StepKeepsFramed(s.sender, e);
      assert C.Step(s.sender, e).wire[..s.read] == s.sender.wire[..s.read];
    case Arrive(n) =>
      var r := Advance(s, m);
      var wire := s.sender.wire;
      assert wire[..r.read] == wire[..s.read] + wire[s.read..r.read];
      DecodeSplit(wire[..s.read], wire[s.read..r.read]);
      WirePrefixDecodes(s.sender, r.read);
  }

  /** For every framed run, every pattern of partial or failed writes and every split of the
      bytes read, the peer has delivered a prefix of the accepted messages, without ever
      meeting a bad length; it has delivered all of them once the backlog is empty and
      every byte taken by the kernel has been read, and nothing is left in its buffer then. */
  lemma {:induction false} MessagesArrive(onConnection: C.Script, moves: seq<Move>)
    requires FramedScript(onConnection)
    requires forall m :: m in moves ==> FramedMove(m)
    ensures var s := RunSystem(Start(onConnection), moves);
      && Inv(s)
      && s.delivered <= Accepted(s.sender)
      && !s.bad
      && (s.sender.out == [] && s.read == |s.sender.wire| ==>
            s.delivered == Accepted(s.sender) && s.inbox == [])
  {
    var s := RunSystem(Start(onConnection), moves);
    if moves == [] {
      FramedScriptIsFileless(onConnection);
      C.ScriptKeepsInv(C.OPEN, onConnection);
      ScriptKeepsFramed(C.OPEN, onConnection);
      assert s.sender.wire[..0] == [];
    } else {
      var k := |moves| - 1;
      MessagesArrive(onConnection, moves[..k]);
      AdvanceKeepsInv(RunSystem(Start(onConnection), moves[..k]), moves[k]);
    }
    WirePrefixDecodes(s.sender, s.read);
  }

  /** The peer's `handleRead` with the codec as message callback is one step of the system. */
  method Receive(peer: TcpConnection, bytes: seq<Byte>, replies: seq<C.Script>, ghost s: System)
    returns (messages: seq<Message>)
    requires peer.Valid() && C.Established(peer.View()) && !peer.state.Disconnected?
    requires 0 < |bytes| <= peer.inBuffer.ReadCapacity()
    requires C.Established(s.sender) && peer.Inbox() == s.inbox
    requires s.read + |bytes| <= |s.sender.wire| && bytes == s.sender.wire[s.read..s.read + |bytes|]
    modifies peer.Repr
    ensures peer.Valid() && fresh(peer.Repr - old(peer.Repr))
    ensures var r := Advance(s, Arrive(|bytes|));
      && peer.Inbox() == r.inbox && r.delivered == s.delivered + messages
      && r.sender == s.sender && r.read == s.read + |bytes|
      && peer.View() == C.Step(old(peer.View()), C.ReadData(Reaction(replies, Decode(s.inbox + bytes))))
  {
    peer.HandleRead(Some(bytes), C.Done);
    messages := OnMessage(peer, replies);
  }
}
