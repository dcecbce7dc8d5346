/** The file tail of yvent/TcpConnection.cpp: a file set before a send, drained behind the
    backlog by `sendfile`. */
module FileTransfer {
  import opened Bytes
  import opened Interest
  import opened Connection

  /** Neither a payload nor a file is offered: only shutdown and close. */
  predicate QuietAct(act: Act)
    decreases act
  {
    act.Shutdown? || (act.ForceClose? && QuietScript(act.onClosed))
  }

  predicate QuietScript(s: Script)
    decreases s
  {
    s.Then? ==> QuietAct(s.act) && QuietScript(s.rest)
  }

  predicate Quiet(e: Event) {
    match e
    case Call(act) => QuietAct(act)
    case Writable(_, s) => QuietScript(s)
    case ReadFailed => true
    case ReadData(s) => QuietScript(s)
    case ReadEnd(s) => QuietScript(s)
    case Hangup(s) => QuietScript(s)
  }

  /** `total` is what the kernel gets in the end: taken bytes, then backlog, then file. */
  predicate FileInv(c: Conn, total: seq<Byte>) {
    && Established(c)
    && c.wire + c.out + c.file == total
    && (!c.state.Disconnected? ==> (IsWriting(c) <==> c.out != [] || c.file != []))
    && TableAgrees(c)
    && HalfCloseOrderly(c)
  }

  predicate QuietRun(events: seq<Event>) { forall e :: e in events ==> Quiet(e) }

  /** What is not on the wire yet. */
  function Left(c: Conn): nat { |c.out| + |c.file| }

  predicate SameBytes(c: Conn, r: Conn) { r.wire == c.wire && r.out == c.out && r.file == c.file }

  lemma {:induction false} QuietCloseKeepsFileInv(c: Conn, onClosed: Script, total: seq<Byte>)
    requires FileInv(c, total) && !c.state.Disconnected? && QuietScript(onClosed)
    ensures var r := HandleClose(c, onClosed); FileInv(r, total) && SameBytes(c, r)
    decreases onClosed, 1
  {
    QuietScriptKeepsFileInv(Closed(c), onClosed, total);
  }

  lemma {:induction false} QuietActKeepsFileInv(c: Conn, act: Act, total: seq<Byte>)
    requires FileInv(c, total) && QuietAct(act)
    ensures FileInv(RunAct(c, act), total) && SameBytes(c, RunAct(c, act))
    decreases act
  {
    if act.ForceClose? && !c.state.Disconnected? {
      QuietCloseKeepsFileInv(c, act.onClosed, total);
    }
  }

  lemma {:induction false} QuietScriptKeepsFileInv(c: Conn, s: Script, total: seq<Byte>)
    requires FileInv(c, total) && QuietScript(s)
    ensures FileInv(RunScript(c, s), total) && SameBytes(c, RunScript(c, s))
    decreases s, 0
  {
    if s.Then? {
      QuietActKeepsFileInv(c, s.act, total);
      QuietScriptKeepsFileInv(RunAct(c, s.act), s.rest, total);
    }
  }

  /** A write moves bytes from the backlog or, behind it, from the file. */
  lemma WriteKeepsFileInv(c: Conn, a: Answer, onComplete: Script, total: seq<Byte>)
    requires FileInv(c, total) && !c.state.Disconnected? && QuietScript(onComplete)
    ensures var r := HandleWrite(c, a, onComplete);
      && FileInv(r, total)
      && |r.file| <= |c.file| && Left(r) <= Left(c)
      && (a.Accept? && a.n > 0 && Left(c) > 0 ==> Left(r) < Left(c))
  {
    if IsWriting(c) && a.Accept? {
      if c.out != [] {
        var n := Taken(a, |c.out|);
        var c1 := c.(wire := c.wire + c.out[..n], out := c.out[n..]);
        MoveFront(c.wire, c.out, n);
        if c1.out == [] && c1.file == [] {
          QuietScriptKeepsFileInv(Notify(Drained(c1)), onComplete, total);
        }
      } else {
        MoveFront(c.wire, c.file, Taken(a, |c.file|));
      }
    }
  }

  lemma QuietStepKeepsFileInv(c: Conn, e: Event, total: seq<Byte>)
    requires FileInv(c, total) && Quiet(e)
    ensures var r := Step(c, e);
      && FileInv(r, total)
      && |r.file| <= |c.file| && Left(r) <= Left(c)
      && (c.state.Disconnected? ==> r.state.Disconnected?)
      && (!c.state.Disconnected? && Left(c) > 0 ==> Left(r) + Progress([e]) <= Left(c))
  {
    assert [e][..0] == [];
    match e
    case Call(act) => QuietActKeepsFileInv(c, act, total);
    case Writable(a, s) => if !c.state.Disconnected? { WriteKeepsFileInv(c, a, s, total); }
    case ReadFailed =>
    case ReadData(s) => if !c.state.Disconnected? { QuietScriptKeepsFileInv(c, s, total); }
    case ReadEnd(s) => if !c.state.Disconnected? { QuietCloseKeepsFileInv(c, s, total); }
    case Hangup(s) => if !c.state.Disconnected? { QuietCloseKeepsFileInv(c, s, total); }
  }

  /** Over a quiet run the stream stays `total`, and unless the connection is closed or all is
      sent, every productive write has shortened what is left. */
  lemma {:induction false} QuietRunKeepsFileInv(c: Conn, events: seq<Event>, total: seq<Byte>)
    requires FileInv(c, total) && QuietRun(events)
    ensures var r := Run(c, events);
      && FileInv(r, total)
      && |r.file| <= |c.file|
      && (r.state.Disconnected? || Left(r) == 0 || Left(r) + Progress(events) <= Left(c))
  {
    if events != [] {
      var k := |events| - 1;
      QuietRunKeepsFileInv(c, events[..k], total);
      QuietStepKeepsFileInv(Run(c, events[..k]), events[k], total);
      assert [events[k]][..0] == [];
    }
  }

  /** Connected with nothing half-closed; interest is on only with something to send and
      always with a backlog. A file may have been set and not yet announced by a send. */
  predicate ReadyToSend(c: Conn) {
    && c.state.Connected? && TableAgrees(c) && c.shutdowns == 0
    && (IsWriting(c) ==> c.out != [] || c.file != [])
    && (c.out != [] ==> IsWriting(c))
  }

  lemma QueueRestStarts(c: Conn, rest: seq<Byte>)
    requires ReadyToSend(c)
    ensures FileInv(QueueRest(c, rest), c.wire + c.out + rest + c.file)
  {
  }

  lemma DirectSendBeforeFile(c: Conn, data: seq<Byte>, n: nat)
    requires ReadyToSend(c) && c.out == [] && n <= |data|
    ensures var c1 := c.(sends := c.sends + [data], wire := c.wire + data[..n]);
      && FileInv(QueueRest(c1, data[n..]), c.wire + c.out + data + c.file)
      && FileInv(QueueRest(Notify(c1), data[n..]), c.wire + c.out + data + c.file)
  {
  }

  /** A send without a write-complete callback puts its payload after the backlog and in
      front of whatever part of the file is still unsent. */
  lemma SendBeforeFile(c: Conn, data: seq<Byte>, a: Answer)
    requires ReadyToSend(c)
    ensures FileInv(SendInLoop(c, data, a, Done), c.wire + c.out + data + c.file)
  {
    if !IsWriting(c) && c.out == [] {
      DirectSendBeforeFile(c, data, Taken(a, |data|));
    } else {
      QueueRestStarts(c.(sends := c.sends + [data]), data);
    }
  }

  /** Bytes reach the kernel in the order of `total`, all of them unless the connection is
      closed, and a half-close follows the last one. */
  predicate Delivers(r: Conn, total: seq<Byte>) {
    && r.wire <= total
    && r.wire + r.out + r.file == total
    && (!r.state.Disconnected? && !IsWriting(r) ==> r.wire == total)
    && (r.shutdowns > 0 ==> r.shutdowns == 1 && r.wire == total)
    && (r.state.Disconnecting? ==> r.shutdowns == 1 || IsWriting(r))
  }

  lemma FileInvDelivers(r: Conn, total: seq<Byte>)
    requires FileInv(r, total)
    ensures Delivers(r, total)
    ensures Left(r) == 0 ==> r.wire == total && (r.state.Disconnecting? ==> r.shutdowns == 1)
  {
    Associate(r.wire, r.out, r.file);
    if Left(r) == 0 {
      assert r.wire + [] + [] == r.wire;
    }
  }

  /** A payload sent while a file is pending goes in front of its unsent part: in front of the
      whole file if it is the header, and into the middle of it if part of it is gone. All of
      it is sent, and an owed half-close performed, once the kernel has made progress as often
      as there are bytes to send. */
  lemma PayloadBeforeFile(c: Conn, data: seq<Byte>, a: Answer, events: seq<Event>)
    requires ReadyToSend(c) && QuietRun(events)
    ensures var total := c.wire + c.out + data + c.file;
      var r := Run(RunAct(c, Send(data, a, Done)), events);
      && Delivers(r, total) && FileInv(r, total) && |r.file| <= |c.file|
      && (!r.state.Disconnected? && Progress(events) >= |c.out| + |data| + |c.file| ==>
            r.wire == total && (r.state.Disconnecting? ==> r.shutdowns == 1))
  {
    var total := c.wire + c.out + data + c.file;
    var sent := SendInLoop(c, data, a, Done);
    SendBeforeFile(c, data, a);
    assert |c.wire| <= |sent.wire| && sent.file == c.file;
    QuietRunKeepsFileInv(sent, events, total);
    FileInvDelivers(Run(sent, events), total);
  }

  /** `setSendFd` followed by a send whose write-complete callback is `s`. */
  function SendWithFile(c: Conn, file: seq<Byte>, header: seq<Byte>, a: Answer, s: Script): (r: Conn)
    requires Established(c)
    ensures Established(r)
  {
    RunAct(RunAct(c, SetFile(file)), Send(header, a, s))
  }

  /** A file set before a send reaches the kernel after the earlier backlog and the header,
      whole and in order, and a half-close follows its last byte. */
  lemma FileTail(c: Conn, file: seq<Byte>, header: seq<Byte>, a: Answer, events: seq<Event>)
    requires Inv(c) && c.state.Connected?
    requires file != [] && QuietRun(events)
    ensures var total := Flatten(c.sends) + header + file;
      var r := Run(SendWithFile(c, file, header, a, Done), events);
      && Delivers(r, total) && FileInv(r, total) && |r.file| <= |file|
      && (!r.state.Disconnected? && Progress(events) >= |c.out| + |header| + |file| ==>
            r.wire == total && (r.state.Disconnecting? ==> r.shutdowns == 1))
  {
    PayloadBeforeFile(c.(file := file), header, a, events);
  }

  /** The backlog is empty once the file is gone. */
  predicate FileLast(c: Conn) { c.file == [] ==> c.out == [] }

  predicate SameBacklog(c: Conn, r: Conn) { r.out == c.out && r.file == c.file && r.notices == c.notices }

  lemma {:induction false} QuietActIsSilent(c: Conn, act: Act)
    requires Established(c) && QuietAct(act)
    ensures SameBacklog(c, RunAct(c, act))
    decreases act
  {
    if act.ForceClose? && !c.state.Disconnected? {
      QuietScriptIsSilent(Closed(c), act.onClosed);
    }
  }

  lemma {:induction false} QuietScriptIsSilent(c: Conn, s: Script)
    requires Established(c) && QuietScript(s)
    ensures SameBacklog(c, RunScript(c, s))
    decreases s
  {
    if s.Then? {
      QuietActIsSilent(c, s.act);
      QuietScriptIsSilent(RunAct(c, s.act), s.rest);
    }
  }

  lemma QuietStepIsSilent(c: Conn, e: Event)
    requires Established(c) && FileLast(c) && Quiet(e)
    ensures var r := Step(c, e);
      FileLast(r) && r.notices == c.notices
  {
    match e
    case Call(act) => QuietActIsSilent(c, act);
    case Writable(a, s) =>
    case ReadFailed =>
    case ReadData(s) => QuietScriptIsSilent(c, s);
    case ReadEnd(s) => QuietScriptIsSilent(Closed(c), s);
    case Hangup(s) => QuietScriptIsSilent(Closed(c), s);
  }

  lemma {:induction false} QuietRunIsSilent(c: Conn, events: seq<Event>)
    requires Established(c) && FileLast(c) && QuietRun(events)
    ensures FileLast(Run(c, events)) && Run(c, events).notices == c.notices
  {
    if events != [] {
      var k := |events| - 1;
      QuietRunIsSilent(c, events[..k]);
      QuietStepIsSilent(Run(c, events[..k]), events[k]);
    }
  }

  // ---------------------------------------------------------------- a callback with a file

  /** The direct write takes the whole header, so the write-complete callback runs before the
      file is queued. */
  predicate CallbackRuns(c: Conn, header: seq<Byte>, a: Answer) {
    c.out == [] && a.Accept? && a.n >= |header|
  }

  lemma {:induction false} QuietScriptIsFileless(s: Script)
    requires QuietScript(s)
    ensures FilelessScript(s)
    decreases s
  {
    if s.Then? {
      if s.act.ForceClose? { QuietScriptIsFileless(s.act.onClosed); }
      QuietScriptIsFileless(s.rest);
    }
  }

  lemma QuietIsFileless(e: Event)
    requires Quiet(e)
    ensures Fileless(e)
  {
    match e
    case Call(act) => if act.ForceClose? { QuietScriptIsFileless(act.onClosed); }
    case Writable(_, s) => QuietScriptIsFileless(s);
    case ReadFailed =>
    case ReadData(s) => QuietScriptIsFileless(s);
    case ReadEnd(s) => QuietScriptIsFileless(s);
    case Hangup(s) => QuietScriptIsFileless(s);
  }

  lemma QuietRunIsFileless(events: seq<Event>)
    requires QuietRun(events)
    ensures forall e :: e in events ==> Fileless(e)
  {
    forall e | e in events
      ensures Fileless(e)
    {
      QuietIsFileless(e);
    }
  }

  /** The connection at the start of the write-complete callback. */
  function Called(c: Conn, file: seq<Byte>, header: seq<Byte>): Conn {
    Notify(c.(file := file, sends := c.sends + [header], wire := c.wire + header))
  }

  lemma SendThroughCallback(c: Conn, file: seq<Byte>, header: seq<Byte>, a: Answer, s: Script)
    requires Inv(c) && c.state.Connected? && file != []
    ensures CallbackRuns(c, header, a) ==>
              SendWithFile(c, file, header, a, s) == QueueRest(RunScript(Called(c, file, header), s), [])
    ensures !CallbackRuns(c, header, a) ==>
              SendWithFile(c, file, header, a, s) == SendWithFile(c, file, header, a, Done)
  {
    var armed := c.(file := file);
    assert SendWithFile(c, file, header, a, s) == SendInLoop(armed, header, a, s);
    assert SendWithFile(c, file, header, a, Done) == SendInLoop(armed, header, a, Done);
    if CallbackRuns(c, header, a) {
      assert header[..|header|] == header && header[|header|..] == [];
    }
  }

  /** With a file, the write-complete callback runs for a header written at once and never
      again: neither the end of the backlog nor the end of the file is announced. */
  lemma FileEndsUnannounced(c: Conn, file: seq<Byte>, header: seq<Byte>, a: Answer, events: seq<Event>)
    requires Inv(c) && c.state.Connected?
    requires file != [] && QuietRun(events)
    ensures Run(SendWithFile(c, file, header, a, Done), events).notices
            == c.notices + (if CallbackRuns(c, header, a) then [|c.wire| + |header|] else [])
  {
    var sent := SendWithFile(c, file, header, a, Done);
    SendThroughCallback(c, file, header, a, Done);
    assert sent == SendInLoop(c.(file := file), header, a, Done);
    assert c.notices + [] == c.notices;
    QuietRunIsSilent(sent, events);
  }

  /** A callback that asks for shutdown first has the write side closed before the file. */
  lemma ShutdownOvertakesFile(c: Conn, file: seq<Byte>, header: seq<Byte>, a: Answer, s: Script)
    requires Inv(c) && c.state.Connected? && file != [] && QuietScript(s)
    requires CallbackRuns(c, header, a) && s.Then? && s.act.Shutdown?
    ensures var sent := SendWithFile(c, file, header, a, s);
      sent.shutdowns == 1 && sent.file == file && sent.wire == Flatten(c.sends) + header
  {
    SendThroughCallback(c, file, header, a, s);
    var called := Called(c, file, header);
    var asked := RunAct(called, Shutdown);
    assert RunScript(called, s) == RunScript(asked, s.rest);
    QuietScriptIsFileless(s);
    ClosingScriptIsInert(asked, s.rest);
    assert c.wire + [] == c.wire;
  }

  /** A callback that closes the connection first leaves the file unsent, for good. */
  lemma CloseKeepsOrder(c: Conn, file: seq<Byte>, header: seq<Byte>, a: Answer, s: Script, events: seq<Event>)
    requires Inv(c) && c.state.Connected? && file != [] && QuietScript(s) && QuietRun(events)
    requires CallbackRuns(c, header, a) && s.Then? && s.act.ForceClose?
    ensures Delivers(Run(SendWithFile(c, file, header, a, s), events), Flatten(c.sends) + header + file)
  {
    SendThroughCallback(c, file, header, a, s);
    var called := Called(c, file, header);
    var closed := Closed(called);
    QuietScriptIsFileless(s);
    ClosedScriptIsIdle(closed, s.act.onClosed);
    assert RunAct(called, s.act) == HandleClose(called, s.act.onClosed) == closed;
    ClosedScriptIsIdle(closed, s.rest);
    var sent := QueueRest(closed, []);
    QuietRunIsFileless(events);
    ClosedRunIsIdle(sent, events);
    assert c.wire + [] == c.wire;
  }

  /** The stream is the earlier payloads, the header and the file, with a half-close only
      behind it, in every quiet continuation, if and only if it is not the case that the
      header is written at once and the callback run by that asks for shutdown first. */
  lemma FileOrderExactly(c: Conn, file: seq<Byte>, header: seq<Byte>, a: Answer, s: Script)
    requires Inv(c) && c.state.Connected? && file != [] && QuietScript(s)
    ensures (forall events :: QuietRun(events) ==>
               Delivers(Run(SendWithFile(c, file, header, a, s), events), Flatten(c.sends) + header + file))
            <==> !(CallbackRuns(c, header, a) && s.Then? && s.act.Shutdown?)
  {
    var sent, total := SendWithFile(c, file, header, a, s), Flatten(c.sends) + header + file;
    if CallbackRuns(c, header, a) && s.Then? && s.act.Shutdown? {
      ShutdownOvertakesFile(c, file, header, a, s);
      assert QuietRun([]) && Run(sent, []) == sent;
      assert !Delivers(Run(sent, []), total);
    } else {
      forall events | QuietRun(events)
        ensures Delivers(Run(sent, events), total)
      {
        if CallbackRuns(c, header, a) && s.Then? {
          CloseKeepsOrder(c, file, header, a, s, events);
        } else {
          SendThroughCallback(c, file, header, a, s);
          FileTail(c, file, header, a, events);
        }
      }
    }
  }

  /** The script closes the connection. */
  predicate Closes(s: Script) { s.Then? && (s.act.ForceClose? || Closes(s.rest)) }

  lemma {:induction false} QuietScriptKeepsTable(c: Conn, s: Script)
    requires Established(c) && TableAgrees(c) && !IsWriting(c) && QuietScript(s)
    ensures var r := RunScript(c, s);
      && TableAgrees(r) && !IsWriting(r) && r.file == c.file
      && (r.state.Disconnected? <==> c.state.Disconnected? || Closes(s))
    decreases s
  {
    if s.Then? {
      if s.act.ForceClose? && !c.state.Disconnected? {
        var closed := Closed(c);
        QuietScriptIsFileless(s);
        ClosedScriptIsIdle(closed, s.act.onClosed);
        assert RunAct(c, s.act) == HandleClose(c, s.act.onClosed) == closed;
      }
      QuietScriptKeepsTable(RunAct(c, s.act), s.rest);
    }
  }

  /** With a file, an update reaches the kernel after the channel was deleted, and is refused,
      if and only if the callback run by a header written at once closes the connection. */
  lemma TableAgreesExactly(c: Conn, file: seq<Byte>, header: seq<Byte>, a: Answer, s: Script)
    requires Inv(c) && c.state.Connected? && file != [] && QuietScript(s)
    ensures TableAgrees(SendWithFile(c, file, header, a, s)) <==> !(CallbackRuns(c, header, a) && Closes(s))
    ensures SendWithFile(c, file, header, a, s).watch.refused
            == if CallbackRuns(c, header, a) && Closes(s) then 1 else 0
  {
    SendThroughCallback(c, file, header, a, s);
    if CallbackRuns(c, header, a) {
      QuietScriptKeepsTable(Called(c, file, header), s);
    } else {
      SendBeforeFile(c.(file := file), header, a);
    }
  }

  // ---------------------------------------------------------------- a second send

  /** Where byte `i` of a file ends up, counted from the end of its header, when a payload of
      `len` bytes was sent after `k` bytes of the file. */
  function FilePlace(k: nat, len: nat, i: nat): nat { if i < k then i else i + len }

  /** Each byte of the file is in the stream at its place. */
  predicate LiesAt(stream: seq<Byte>, from: nat, file: seq<Byte>, k: nat, len: nat) {
    && |stream| >= from + |file| + len
    && forall i :: 0 <= i < |file| ==> stream[from + FilePlace(k, len, i)] == file[i]
  }

  predicate InOnePiece(k: nat, len: nat, size: nat) {
    forall i :: 0 < i < size ==> FilePlace(k, len, i) == FilePlace(k, len, i - 1) + 1
  }

  /** The suffix of equal length is the same in both splits of a string. */
  lemma SameSuffix(a: seq<Byte>, x: seq<Byte>, b: seq<Byte>, y: seq<Byte>)
    requires a + x == b + y && |x| <= |y|
    ensures x == y[|y| - |x|..] && a == b + y[..|y| - |x|]
  {
    assert x == (a + x)[|a|..] && a == (a + x)[..|a|];
    assert y[|y| - |x|..] == (b + y)[|a|..];
    assert b + y[..|y| - |x|] == (b + y)[..|a|];
  }

  /** A second send, at any point of a quiet run, goes behind the `k` bytes of the file that
      the kernel has taken by then; the file is in one piece exactly if it was not begun, was
      finished, or the payload is empty. */
  lemma SendSplitsFile(c: Conn, file: seq<Byte>, header: seq<Byte>, a: Answer, events: seq<Event>,
                       data: seq<Byte>, a': Answer, events': seq<Event>)
    requires Inv(c) && c.state.Connected?
    requires file != [] && QuietRun(events) && QuietRun(events')
    requires Run(SendWithFile(c, file, header, a, Done), events).state.Connected?
    ensures var m := Run(SendWithFile(c, file, header, a, Done), events);
      && |m.file| <= |file|
      && var k, before := |file| - |m.file|, Flatten(c.sends) + header;
      var stream := before + file[..k] + data + file[k..];
      && Delivers(Run(RunAct(m, Send(data, a', Done)), events'), stream)
      && LiesAt(stream, |before|, file, k, |data|)
      && (InOnePiece(k, |data|, |file|) <==> k == 0 || k == |file| || data == [])
  {
    SecondSendCuts(c, file, header, a, events, data, a', events');
    PlacesExactly(Flatten(c.sends) + header, file,
                  |file| - |Run(SendWithFile(c, file, header, a, Done), events).file|, data);
  }

  lemma SecondSendCuts(c: Conn, file: seq<Byte>, header: seq<Byte>, a: Answer, events: seq<Event>,
                       data: seq<Byte>, a': Answer, events': seq<Event>)
    requires Inv(c) && c.state.Connected?
    requires file != [] && QuietRun(events) && QuietRun(events')
    requires Run(SendWithFile(c, file, header, a, Done), events).state.Connected?
    ensures var m := Run(SendWithFile(c, file, header, a, Done), events);
      && |m.file| <= |file|
      && var k, before := |file| - |m.file|, Flatten(c.sends) + header;
      Delivers(Run(RunAct(m, Send(data, a', Done)), events'), before + file[..k] + data + file[k..])
  {
    FileTail(c, file, header, a, events);
    var m := Run(SendWithFile(c, file, header, a, Done), events);
    SecondSend(m, Flatten(c.sends) + header, file, data, a', events');
  }

  lemma SecondSend(m: Conn, before: seq<Byte>, file: seq<Byte>, data: seq<Byte>, a: Answer, events: seq<Event>)
    requires FileInv(m, before + file) && m.state.Connected? && |m.file| <= |file| && QuietRun(events)
    ensures var k := |file| - |m.file|;
      Delivers(Run(RunAct(m, Send(data, a, Done)), events), before + file[..k] + data + file[k..])
  {
    var k, total := |file| - |m.file|, m.wire + m.out + data + m.file;
    assert total == before + file[..k] + data + file[k..] by {
      CutAtFile(m.wire + m.out, m.file, before, file, data);
    }
    assert Delivers(Run(RunAct(m, Send(data, a, Done)), events), total) by {
      PayloadBeforeFile(m, data, a, events);
    }
  }

  lemma CutAtFile(a: seq<Byte>, x: seq<Byte>, b: seq<Byte>, y: seq<Byte>, data: seq<Byte>)
    requires a + x == b + y && |x| <= |y|
    ensures a + data + x == b + y[..|y| - |x|] + data + y[|y| - |x|..]
  {
    SameSuffix(a, x, b, y);
  }

  lemma PlacesExactly(before: seq<Byte>, file: seq<Byte>, k: nat, data: seq<Byte>)
    requires k <= |file|
    ensures var stream := before + file[..k] + data + file[k..];
      && LiesAt(stream, |before|, file, k, |data|)
      && (InOnePiece(k, |data|, |file|) <==> k == 0 || k == |file| || data == [])
  {
    if 0 < k < |file| && data != [] {
      assert FilePlace(k, |data|, k) != FilePlace(k, |data|, k - 1) + 1;
    }
  }

  /** In one piece for every payload of a given length, as far as the bytes can tell, exactly
      under the same condition. */
  lemma WholeForEveryPayload(before: seq<Byte>, file: seq<Byte>, k: nat, len: nat)
    requires k <= |file|
    ensures (forall data: seq<Byte> :: |data| == len ==>
               Whole(before + file[..k] + data + file[k..], before, file, data))
            <==> k == 0 || k == |file| || len == 0
  {
    if 0 < k < |file| && len > 0 {
      var other: Byte :| other in {0, 1, 2} && other != file[0] && other != file[k];
      var data := seq(len, _ => other);
      var stream := before + file[..k] + data + file[k..];
      assert stream[|before| + k] == other;
      assert (before + file + data)[|before| + k] == file[k];
      assert stream[|before|] == file[0];
      assert (before + data + file)[|before|] == other;
      assert !Whole(stream, before, file, data);
    } else {
      forall data: seq<Byte> | |data| == len
        ensures Whole(before + file[..k] + data + file[k..], before, file, data)
      {
        assert file[..k] + file[k..] == file;
      }
    }
  }

  predicate Whole(stream: seq<Byte>, before: seq<Byte>, file: seq<Byte>, data: seq<Byte>) {
    stream == before + file + data || stream == before + data + file
  }
}
