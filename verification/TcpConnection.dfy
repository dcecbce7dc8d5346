/** yvent/TcpConnection.cpp in its own form: an object over a channel and two buffers whose
    methods call back into it. Every method is tied to the machine of module Connection. */
module TcpConnections {
  import opened Bytes
  import opened Buffers
  import opened Interest
  import C = Connection

  /** A loop event and, for a read, the bytes the kernel delivers. */
  datatype Happening = Happening(event: C.Event, bytes: seq<Byte>)

  function EventsOf(hs: seq<Happening>): (es: seq<C.Event>)
    ensures |es| == |hs| && forall i :: 0 <= i < |hs| ==> es[i] == hs[i].event
  {
    seq(|hs|, i requires 0 <= i < |hs| => hs[i].event)
  }

  class TcpConnection {
    var state: C.State
    const channel: Channel
    const inBuffer: Buffer
    const outBuffer: Buffer
    var file: seq<Byte>           // what is left of the file; st_size is its length
    ghost var wire: seq<Byte>     // what the kernel has taken
    ghost var sends: seq<seq<Byte>>
    ghost var shutdowns: nat
    ghost var notices: seq<nat>
    ghost var closes: nat
    ghost var Repr: set<object>

    ghost predicate Valid()
      reads this, Repr
    {
      && {this, channel, channel.poll, inBuffer, outBuffer} <= Repr
      && inBuffer.data in Repr && outBuffer.data in Repr
      && inBuffer != outBuffer && inBuffer.data != outBuffer.data
      && inBuffer.Valid() && outBuffer.Valid()
    }

    ghost function View(): C.Conn
      requires Valid()
      reads this, Repr
    {
      C.Conn(state, channel.View(), outBuffer.Contents(), file, wire, sends, shutdowns, notices, closes)
    }

    ghost function Inbox(): seq<Byte>
      requires Valid()
      reads this, Repr
    {
      inBuffer.Contents()
    }

    constructor (poll: Poll, fd: int)
      requires fd !in poll.table
      ensures Valid() && fresh(Repr - {poll}) && channel.poll == poll && channel.fd == fd
      ensures View() == C.FRESH && Inbox() == []
    {
      state := C.Connecting;
      channel := new Channel(poll, fd);
      inBuffer := new Buffer();
      outBuffer := new Buffer();
      file, wire, sends, shutdowns, notices, closes := [], [], [], 0, [], 0;
      new;
      Repr := {this, channel, poll, inBuffer, outBuffer, inBuffer.data, outBuffer.data};
    }

    method EnableRead(onConnection: C.Script)
      requires Valid() && View() == C.FRESH
      modifies Repr
      ensures Valid() && fresh(Repr - old(Repr)) && Inbox() == old(Inbox())
      ensures View() == C.Establish(onConnection)
    {
      state := C.Connected;
      channel.EnableReading();
      RunScript(onConnection);
    }

    /** `::write` on the socket: `a` is the kernel's answer. */
    method Write(bytes: seq<Byte>, a: C.Answer) returns (n: int)
      requires Valid()
      modifies this`wire
      ensures n == if a.Fail? then -1 else C.Taken(a, |bytes|)
      ensures Valid() && Inbox() == old(Inbox())
      ensures View() == old(View()).(wire := old(wire) + bytes[..C.Taken(a, |bytes|)])
    {
      if a.Fail? {
        n := -1;
        assert wire + bytes[..0] == wire;
      } else {
        n := if a.n < |bytes| then a.n else |bytes|;
        wire := wire + bytes[..n];
      }
    }

    method Send(data: seq<Byte>, a: C.Answer, onComplete: C.Script)
      requires Valid() && C.Established(View())
      modifies Repr
      ensures Valid() && fresh(Repr - old(Repr)) && Inbox() == old(Inbox())
      ensures View() == C.RunAct(old(View()), C.Send(data, a, onComplete))
      decreases onComplete, 2
    {
      if !state.Connected? {
        return;
      }
      SendInLoop(data, a, onComplete);
    }

    /** `send(Buffer&)`: the buffer, which may be the connection's own input, is emptied only
        when its bytes were accepted. */
    method SendBuffer(buffer: Buffer, a: C.Answer, onComplete: C.Script)
      requires Valid() && C.Established(View())
      requires buffer.Valid() && (buffer == inBuffer || (buffer !in Repr && buffer.data !in Repr))
      modifies Repr, buffer
      ensures Valid() && fresh(Repr - old(Repr))
      ensures View() == C.RunAct(old(View()), C.Send(old(buffer.Contents()), a, onComplete))
      ensures buffer.Valid() && (buffer != inBuffer ==> buffer.data == old(buffer.data))
      ensures buffer.Contents() == if old(state).Connected? then [] else old(buffer.Contents())
      ensures buffer != inBuffer ==> Inbox() == old(Inbox())
    {
      if !state.Connected? {
        return;
      }
      var bytes := buffer.Peek(buffer.ReadableBytes());
      assert bytes == buffer.Contents();
      SendInLoop(bytes, a, onComplete);
      ghost var sent := View();
      buffer.RetrieveAll();
      assert View() == sent;
    }

    method SendInLoop(data: seq<Byte>, a: C.Answer, onComplete: C.Script)
      requires Valid() && C.Established(View())
      modifies Repr
      ensures Valid() && fresh(Repr - old(Repr)) && Inbox() == old(Inbox())
      ensures View() == C.SendInLoop(old(View()), data, a, onComplete)
      decreases onComplete, 1
    {
      hide C.RunScript, C.RunAct;
      if state.Disconnected? {
        return;
      }
      sends := sends + [data];
      var n := 0;
      if !channel.events.write && outBuffer.ReadableBytes() == 0 {
        n := Write(data, a);
        if n == -1 {
          n := 0;
        } else if n < |data| {
        } else {
          notices := notices + [|wire|];
          RunScript(onComplete);
        }
      }
      QueueRest(data[n..]);
    }

    /** The tail of `sendInLoop`: what the direct write left goes to the backlog. */
    method QueueRest(rest: seq<Byte>)
      requires Valid()
      modifies Repr
      ensures Valid() && fresh(Repr - old(Repr)) && Inbox() == old(Inbox())
      ensures View() == C.QueueRest(old(View()), rest)
    {
      if |rest| != 0 || |file| != 0 {
        outBuffer.Append(rest);
        Repr := Repr + {outBuffer.data};
        if !channel.events.write {
          channel.EnableWriting();
        }
      }
    }

    method HandleWrite(a: C.Answer, onComplete: C.Script)
      requires Valid() && C.Established(View()) && !state.Disconnected?
      modifies Repr
      ensures Valid() && fresh(Repr - old(Repr)) && Inbox() == old(Inbox())
      ensures View() == C.HandleWrite(old(View()), a, onComplete)
    {
      if channel.events.write {
        if outBuffer.ReadableBytes() != 0 {
          var n := WriteBacklog(a);
          if n != -1 && outBuffer.ReadableBytes() == 0 && |file| == 0 {
            Drain();
            notices := notices + [|wire|];
            RunScript(onComplete);
          }
        } else if |file| != 0 {
          SendFile(a);
        }
      }
    }

    /** `::write` of the backlog and the retrieve of what was taken. */
    method WriteBacklog(a: C.Answer) returns (n: int)
      requires Valid()
      modifies this, outBuffer
      ensures Valid() && Repr == old(Repr) && Inbox() == old(Inbox())
      ensures n == if a.Fail? then -1 else C.Taken(a, |old(View()).out|)
      ensures var taken := C.Taken(a, |old(View()).out|);
        View() == old(View()).(wire := old(wire) + old(View()).out[..taken], out := old(View()).out[taken..])
    {
      var backlog := outBuffer.Peek(outBuffer.ReadableBytes());
      n := Write(backlog, a);
      if n != -1 {
        outBuffer.Retrieve(n);
      }
    }

    /** Nothing is left to send: interest off, and the half-close if one is owed. */
    method Drain()
      requires Valid() && C.Established(View())
      modifies this, channel, channel.poll
      ensures Valid() && Repr == old(Repr) && Inbox() == old(Inbox())
      ensures View() == C.Drained(old(View()))
    {
      channel.DisableWriting();
      if state.Disconnecting? {
        ShutdownInLoop();
      }
    }

    /** The `sendfile` branch of `handleWrite`. */
    method SendFile(a: C.Answer)
      requires Valid() && C.Established(View()) && !state.Disconnected?
      requires channel.events.write && outBuffer.ReadableBytes() == 0 && |file| != 0
      modifies Repr
      ensures Valid() && Repr == old(Repr) && Inbox() == old(Inbox())
      ensures View() == C.HandleWrite(old(View()), a, C.Done)
    {
      var n := Write(file, a);
      if n < 0 {
        return;
      }
      file := file[n..];
      if |file| == 0 {
        Drain();
      }
    }

    method Shutdown()
      requires Valid() && C.Established(View())
      modifies this
      ensures Valid() && Repr == old(Repr) && Inbox() == old(Inbox())
      ensures View() == C.RunAct(old(View()), C.Shutdown)
    {
      if state.Connected? {
        state := C.Disconnecting;
        ShutdownInLoop();
      }
    }

    method ShutdownInLoop()
      requires Valid()
      modifies this
      ensures Valid() && Repr == old(Repr) && Inbox() == old(Inbox())
      ensures View() == C.ShutdownInLoop(old(View()))
    {
      if !channel.events.write {
        shutdowns := shutdowns + 1;
      }
    }

    /** `n` bytes or an error arrive; `script` is the message callback, or for end of stream the
        connection and close callbacks. */
    method HandleRead(got: Option<seq<Byte>>, script: C.Script)
      requires Valid() && C.Established(View()) && !state.Disconnected?
      requires got.Some? ==> |got.value| <= inBuffer.ReadCapacity()
      modifies Repr
      ensures Valid() && fresh(Repr - old(Repr))
      ensures Inbox() == old(Inbox()) + (if got.Some? then got.value else [])
      ensures View() == C.Step(old(View()),
                               if got.None? then C.ReadFailed
                               else if got.value == [] then C.ReadEnd(script)
                               else C.ReadData(script))
    {
      var n := inBuffer.ReadFd(got);
      Repr := Repr + {inBuffer.data};
      if n == -1 {
      } else if n == 0 {
        HandleClose(script);
      } else {
        RunScript(script);
      }
    }

    method HandleClose(onClosed: C.Script)
      requires Valid()
      requires C.Established(View()) && !state.Disconnected?
      modifies Repr
      ensures Valid() && fresh(Repr - old(Repr)) && Inbox() == old(Inbox())
      ensures View() == C.HandleClose(old(View()), onClosed)
      decreases onClosed, 1
    {
      state := C.Disconnected;
      channel.DisableEverything();
      closes := closes + 1;
      RunScript(onClosed);
    }

    method RunAct(act: C.Act)
      requires Valid() && C.Established(View())
      modifies Repr
      ensures Valid() && fresh(Repr - old(Repr)) && Inbox() == old(Inbox())
      ensures View() == C.RunAct(old(View()), act)
      decreases act
    {
      match act
      case Send(data, a, onComplete) => Send(data, a, onComplete);
      case Shutdown => Shutdown();
      case ForceClose(onClosed) => if !state.Disconnected? { HandleClose(onClosed); }
      case SetFile(content) => file := content;
    }

    /** A callback: the calls it makes on this connection, in order. */
    method RunScript(s: C.Script)
      requires Valid() && C.Established(View())
      modifies Repr
      ensures Valid() && fresh(Repr - old(Repr)) && Inbox() == old(Inbox())
      ensures View() == C.RunScript(old(View()), s)
      decreases s, 0
    {
      if s.Then? {
        RunAct(s.act);
        RunScript(s.rest);
      }
    }

    /** The handler of one event; none but a user call fires once the connection is closed. */
    method Dispatch(e: C.Event, bytes: seq<Byte>)
      requires Valid() && C.Established(View())
      requires e.ReadData? ==> 0 < |bytes| <= inBuffer.ReadCapacity()
      modifies Repr
      ensures Valid() && fresh(Repr - old(Repr))
      ensures View() == C.Step(old(View()), e)
      ensures Inbox() == old(Inbox()) + (if e.ReadData? && !old(state).Disconnected? then bytes else [])
    {
      if e.Call? {
        RunAct(e.act);
      } else if state.Disconnected? {
      } else {
        match e
        case Writable(a, onComplete) => HandleWrite(a, onComplete);
        case ReadFailed => HandleRead(None, C.Done);
        case ReadData(onMessage) => HandleRead(Some(bytes), onMessage);
        case ReadEnd(onClosed) => HandleRead(Some([]), onClosed);
        case Hangup(onClosed) => HandleClose(onClosed);
      }
    }

    /** Handles the events in order, stopping before a read no kernel can perform: of nothing,
        or of more than it was offered. */
    method Drive(hs: seq<Happening>) returns (done: nat)
      requires Valid() && C.Established(View())
      modifies Repr
      ensures Valid() && fresh(Repr - old(Repr))
      ensures done <= |hs| && View() == C.Run(old(View()), EventsOf(hs[..done]))
      ensures C.Inv(old(View())) && (forall h :: h in hs ==> C.Fileless(h.event)) ==> C.Inv(View())
      ensures done < |hs| ==>
                hs[done].event.ReadData? && (hs[done].bytes == [] || inBuffer.ReadCapacity() < |hs[done].bytes|)
    {
      done := 0;
      ghost var start := View();
      while done < |hs|
        invariant Valid() && fresh(Repr - old(Repr))
        invariant done <= |hs| && C.Established(View())
        invariant View() == C.Run(start, EventsOf(hs[..done]))
      {
        var h := hs[done];
        if h.event.ReadData? && (|h.bytes| == 0 || inBuffer.ReadCapacity() < |h.bytes|) {
          break;
        }
        Dispatch(h.event, h.bytes);
        RunSnoc(start, hs, done);
        done := done + 1;
      }
      DriveKeepsInv(start, hs, done);
    }
  }

  lemma RunSnoc(c: C.Conn, hs: seq<Happening>, n: nat)
    requires C.Established(c) && n < |hs|
    ensures C.Run(c, EventsOf(hs[..n + 1])) == C.Step(C.Run(c, EventsOf(hs[..n])), hs[n].event)
  {
    EventsSnoc(hs, n);
    C.RunNext(c, EventsOf(hs[..n]), hs[n].event);
  }

  lemma EventsSnoc(hs: seq<Happening>, n: nat)
    requires n < |hs|
    ensures EventsOf(hs[..n + 1]) == EventsOf(hs[..n]) + [hs[n].event]
  {
  }

  lemma DriveKeepsInv(c: C.Conn, hs: seq<Happening>, n: nat)
    requires n <= |hs|
    ensures C.Inv(c) && (forall h :: h in hs ==> C.Fileless(h.event)) ==> C.Inv(C.Run(c, EventsOf(hs[..n])))
  {
    if C.Inv(c) && (forall h :: h in hs ==> C.Fileless(h.event)) {
      C.RunKeepsInv(c, EventsOf(hs[..n]));
    }
  }
}
