/** example/chat/codec.h: messages framed by a four-byte big-endian signed length. */
module Codec {
  import opened Bytes
  import opened Buffers
  import C = Connection
  import opened TcpConnections

  const HEADER_LEN: nat := 4
  const MAX_MESSAGE: nat := 65536

  type Message = seq<Byte>

  /** The `k` low bytes of `n`, most significant first. */
  function BigEndian(n: nat, k: nat): (s: seq<Byte>)
    ensures |s| == k
  {
    if k == 0 then [] else BigEndian(n / 256, k - 1) + [n % 256]
  }

  function FromBigEndian(s: seq<Byte>): nat {
    if s == [] then 0 else FromBigEndian(s[..|s| - 1]) * 256 + s[|s| - 1]
  }

  predicate Fits(n: nat, k: nat) {
    if k == 0 then n == 0 else Fits(n / 256, k - 1)
  }

  lemma {:induction false} BigEndianRoundTrip(n: nat, k: nat)
    requires Fits(n, k)
    ensures FromBigEndian(BigEndian(n, k)) == n
  {
    if k != 0 {
      BigEndianRoundTrip(n / 256, k - 1);
      var s := BigEndian(n, k);
      assert s[..k - 1] == BigEndian(n / 256, k - 1) && s[k - 1] == n % 256;
    }
  }

  /** The bytes of `htonl` of a length truncated to 32 bits. */
  function Header(n: nat): (h: seq<Byte>)
    ensures |h| == HEADER_LEN
  {
    BigEndian(n, HEADER_LEN)
  }

  /** `ntohl` of the first four bytes as an `int32_t`. */
  function HeaderValue(s: seq<Byte>): int
    requires |s| >= HEADER_LEN
  {
    var u := FromBigEndian(s[..HEADER_LEN]);
    if u < 0x8000_0000 then u else u - 0x1_0000_0000
  }

  lemma {:induction false} FromBigEndianRoundTrip(s: seq<Byte>)
    ensures BigEndian(FromBigEndian(s), |s|) == s
  {
    if s != [] {
      var high, low := FromBigEndian(s[..|s| - 1]), s[|s| - 1];
      FromBigEndianRoundTrip(s[..|s| - 1]);
      assert (high * 256 + low) / 256 == high && (high * 256 + low) % 256 == low;
      assert s == s[..|s| - 1] + [low];
    }
  }

  /** The signed number in four bytes, most significant first. */
  function SignedLength(s: seq<Byte>): int
    requires |s| >= 4
  {
    var a: int, b: int, c: int, d: int := s[0], s[1], s[2], s[3];
    var u := a * 0x100_0000 + b * 0x1_0000 + c * 0x100 + d;
    if u < 0x8000_0000 then u else u - 0x1_0000_0000
  }

  lemma FromBigEndianTake(s: seq<Byte>, k: nat)
    requires k < |s|
    ensures FromBigEndian(s[..k + 1]) == FromBigEndian(s[..k]) * 256 + s[k]
  {
    assert s[..k + 1][..k] == s[..k];
  }

  lemma HeaderValueExactly(s: seq<Byte>)
    requires |s| >= 4
    ensures HeaderValue(s) == SignedLength(s) && FromBigEndian(s[..4]) < 0x1_0000_0000
  {
    FromBigEndianTake(s, 0);
    FromBigEndianTake(s, 1);
    FromBigEndianTake(s, 2);
    FromBigEndianTake(s, 3);
  }

  lemma HeaderRoundTrip(n: nat, rest: seq<Byte>)
    requires n < 0x8000_0000
    ensures HeaderValue(Header(n) + rest) == n
  {
    assert Fits(n / 256 / 256 / 256, 1);
    assert Fits(n / 256 / 256, 2);
    assert Fits(n / 256, 3);
    assert Fits(n, 4);
    BigEndianRoundTrip(n, 4);
    assert (Header(n) + rest)[..HEADER_LEN] == Header(n);
  }

  function Frame(m: Message): (f: seq<Byte>)
    ensures |f| == HEADER_LEN + |m|
  {
    Header(|m|) + m
  }

  function Frames(ms: seq<Message>): seq<seq<Byte>> {
    seq(|ms|, i requires 0 <= i < |ms| => Frame(ms[i]))
  }

  /** What `onMessage` delivers, leaves in the buffer, and whether it met a bad length. */
  datatype Decoded = Decoded(messages: seq<Message>, rest: seq<Byte>, bad: bool)

  /** One look at the front of the buffer: wait for more, give up, or cut a whole message. */
  datatype Look = Wait | Bad | Whole(end: nat)

  function LookAt(s: seq<Byte>): (l: Look)
    ensures l.Whole? ==> HEADER_LEN <= l.end <= |s|
  {
    if |s| < HEADER_LEN then Wait
    else
      var len := HeaderValue(s);
      if len > MAX_MESSAGE || len < 0 then Bad
      else if |s| < HEADER_LEN + len then Wait
      else Whole(HEADER_LEN + len)
  }

  lemma LookStable(s: seq<Byte>, more: seq<Byte>)
    requires !LookAt(s).Wait?
    ensures LookAt(s + more) == LookAt(s)
  {
    assert (s + more)[..HEADER_LEN] == s[..HEADER_LEN];
  }

  lemma LookAtFrame(m: Message, rest: seq<Byte>)
    requires |m| <= MAX_MESSAGE
    ensures LookAt(Frame(m) + rest) == Whole(HEADER_LEN + |m|)
  {
    HeaderRoundTrip(|m|, m + rest);
    assert Frame(m) + rest == Header(|m|) + (m + rest);
  }

  lemma LookAtPart(m: Message, part: seq<Byte>)
    requires |m| <= MAX_MESSAGE && part < Frame(m)
    ensures LookAt(part).Wait?
  {
    if |part| >= HEADER_LEN {
      HeaderRoundTrip(|m|, part[HEADER_LEN..]);
      assert part[..HEADER_LEN] == Frame(m)[..HEADER_LEN] == Header(|m|);
      assert part == Header(|m|) + part[HEADER_LEN..];
    }
  }

  /** The messages `ms` delivered before the outcome `d`. */
  function Before(ms: seq<Message>, d: Decoded): Decoded {
    d.(messages := ms + d.messages)
  }

  lemma BeforeNothing(d: Decoded)
    ensures Before([], d) == d
  {
  }

  lemma BeforeJoins(xs: seq<Message>, ys: seq<Message>, d: Decoded)
    ensures Before(xs, Before(ys, d)) == Before(xs + ys, d)
  {
  }

  function Decode(s: seq<Byte>): (d: Decoded)
    ensures |d.rest| <= |s|
    decreases |s|
  {
    match LookAt(s)
    case Wait => Decoded([], s, false)
    case Bad => Decoded([], s, true)
    case Whole(end) => Before([s[HEADER_LEN..end]], Decode(s[end..]))
  }

  lemma DecodeFrameFirst(m: Message, rest: seq<Byte>)
    requires |m| <= MAX_MESSAGE
    ensures Decode(Frame(m) + rest) == Before([m], Decode(rest))
  {
    var s := Frame(m) + rest;
    LookAtFrame(m, rest);
    assert s[HEADER_LEN..HEADER_LEN + |m|] == m;
    assert s[HEADER_LEN + |m|..] == rest;
  }

  /** Decoding in pieces gives the same messages as decoding at once. */
  lemma {:induction false} DecodeSplit(a: seq<Byte>, b: seq<Byte>)
    requires !Decode(a).bad
    ensures Decode(a + b) == Before(Decode(a).messages, Decode(Decode(a).rest + b))
    decreases |a|
  {
    var look := LookAt(a);
    if look.Wait? {
      BeforeNothing(Decode(a + b));
    } else {
      var end := look.end;
      LookStable(a, b);
      var first := a[HEADER_LEN..end];
      assert (a + b)[end..] == a[end..] + b && (a + b)[HEADER_LEN..end] == first;
      var d := Decode(a[end..]);
      calc {
        Decode(a + b);
        Before([first], Decode(a[end..] + b));
        { DecodeSplit(a[end..], b); }
        Before([first], Before(d.messages, Decode(d.rest + b)));
        { BeforeJoins([first], d.messages, Decode(d.rest + b)); }
        Before([first] + d.messages, Decode(d.rest + b));
      }
    }
  }

  lemma FramesStep(ms: seq<Message>)
    requires ms != []
    ensures Flatten(Frames(ms)) == Frame(ms[0]) + Flatten(Frames(ms[1..]))
  {
    assert Frames(ms)[0] == Frame(ms[0]);
    assert Frames(ms)[1..] == Frames(ms[1..]);
  }

  /** Legal frames in front of any bytes are decoded first. */
  lemma {:induction false} DecodeFramesFirst(ms: seq<Message>, rest: seq<Byte>)
    requires forall m :: m in ms ==> |m| <= MAX_MESSAGE
    ensures Decode(Flatten(Frames(ms)) + rest) == Before(ms, Decode(rest))
    decreases |ms|
  {
    if ms == [] {
      assert Flatten(Frames(ms)) + rest == rest;
      BeforeNothing(Decode(rest));
    } else {
      FramesStep(ms);
      var tail := Flatten(Frames(ms[1..]));
      Associate(Frame(ms[0]), tail, rest);
      DecodeFrameFirst(ms[0], tail + rest);
      DecodeFramesFirst(ms[1..], rest);
      BeforeJoins([ms[0]], ms[1..], Decode(rest));
      assert [ms[0]] + ms[1..] == ms;
    }
  }

  /** Frames decode to their messages, with any prefix of a further legal frame left over. */
  lemma DecodeFrames(ms: seq<Message>, part: seq<Byte>, next: Message)
    requires forall m :: m in ms ==> |m| <= MAX_MESSAGE
    requires |next| <= MAX_MESSAGE && part < Frame(next)
    ensures Decode(Flatten(Frames(ms)) + part) == Decoded(ms, part, false)
  {
    DecodeFramesFirst(ms, part);
    LookAtPart(next, part);
    assert ms + [] == ms;
  }

  // ---------------------------------------------------------------- arbitrary input

  /** The bytes start with a length outside 0..65536. */
  predicate BadLength(s: seq<Byte>) {
    |s| >= 4 && !(0 <= SignedLength(s) <= 65536)
  }

  /** The bytes are too few for the message they start. */
  predicate TooFew(s: seq<Byte>) {
    |s| < 4 || (0 <= SignedLength(s) <= 65536 && |s| < 4 + SignedLength(s))
  }

  lemma LookAtExactly(s: seq<Byte>)
    ensures LookAt(s).Bad? <==> BadLength(s)
    ensures LookAt(s).Wait? <==> TooFew(s)
  {
    if |s| >= 4 { HeaderValueExactly(s); }
  }

  lemma WholeIsFrame(s: seq<Byte>, end: nat)
    requires LookAt(s) == Whole(end)
    ensures |s[HEADER_LEN..end]| <= 65536 && s == Frame(s[HEADER_LEN..end]) + s[end..]
  {
    var m := s[HEADER_LEN..end];
    HeaderValueExactly(s);
    FromBigEndianRoundTrip(s[..HEADER_LEN]);
    assert FromBigEndian(s[..HEADER_LEN]) == |m| && |s[..HEADER_LEN]| == HEADER_LEN;
    assert Header(|m|) == s[..HEADER_LEN];
    assert s == s[..HEADER_LEN] + m + s[end..];
  }

  lemma {:induction false} DecodeAccounts(s: seq<Byte>)
    ensures Accounts(s, Decode(s))
    decreases |s|
  {
    LookAtExactly(s);
    if LookAt(s).Whole? {
      var end := LookAt(s).end;
      var first, d := s[HEADER_LEN..end], Decode(s[end..]);
      DecodeAccounts(s[end..]);
      WholeIsFrame(s, end);
      var ms := [first] + d.messages;
      FramesStep(ms);
      assert ms[1..] == d.messages;
      Associate(Frame(first), Flatten(Frames(d.messages)), d.rest);
    } else {
      assert Flatten(Frames([])) + s == s;
    }
  }

  /** `s` is the frames of legal messages followed by what is left: too few bytes for a message,
      or a bad length. */
  predicate Accounts(s: seq<Byte>, d: Decoded) {
    && (forall m :: m in d.messages ==> |m| <= 65536)
    && s == Flatten(Frames(d.messages)) + d.rest
    && (if d.bad then BadLength(d.rest) else TooFew(d.rest))
  }

  /** On any input at all, what is delivered and left over is the one way to read it as legal
      frames followed by an incomplete one or a bad length. */
  lemma DecodeExactly(s: seq<Byte>, d: Decoded)
    ensures Decode(s) == d <==> Accounts(s, d)
  {
    DecodeAccounts(s);
    if Accounts(s, d) {
      DecodeFramesFirst(d.messages, d.rest);
      LookAtExactly(d.rest);
      assert d.messages + [] == d.messages;
    }
  }

  /** A prefix of a framed stream splits into whole frames and a piece of the next one. */
  lemma {:induction false} CutFrames(ms: seq<Message>, w: seq<Byte>) returns (k: nat)
    requires w <= Flatten(Frames(ms))
    ensures k <= |ms|
    ensures Flatten(Frames(ms[..k])) <= w
    ensures k == |ms| ==> w == Flatten(Frames(ms))
    ensures k < |ms| ==> w[|Flatten(Frames(ms[..k]))|..] < Frame(ms[k])
    decreases |ms|
  {
    if ms == [] {
      k := 0;
    } else {
      FramesStep(ms);
      var f, tail := Frame(ms[0]), Flatten(Frames(ms[1..]));
      PrefixOfTwo(w, f, tail);
      if |w| < |f| {
        k := 0;
        assert Frames(ms[..0]) == [] && w[0..] == w;
      } else {
        var j := CutFrames(ms[1..], w[|f|..]);
        k := j + 1;
        FramesStep(ms[..k]);
        assert ms[..k][1..] == ms[1..][..j];
        DropTwice(w, |f|, |Flatten(Frames(ms[1..][..j]))|);
      }
    }
  }

  /** A prefix of `f + tail` ends inside `f` or is `f` and a prefix of `tail`. */
  lemma PrefixOfTwo(w: seq<Byte>, f: seq<Byte>, tail: seq<Byte>)
    requires w <= f + tail
    ensures |w| < |f| ==> w < f
    ensures |w| >= |f| ==> w == f + w[|f|..] && w[|f|..] <= tail
  {
    assert w == (f + tail)[..|w|];
    if |w| >= |f| {
      assert w[|f|..] == tail[..|w| - |f|];
    }
  }

  lemma DropTwice(w: seq<Byte>, a: nat, b: nat)
    requires a + b <= |w|
    ensures w[a..][b..] == w[a + b..]
  {
  }

  /** Decoding a prefix of a framed stream gives a prefix of its messages and never meets a
      bad length; the whole stream gives all of them. */
  lemma DecodePrefix(ms: seq<Message>, w: seq<Byte>)
    requires forall m :: m in ms ==> |m| <= MAX_MESSAGE
    requires w <= Flatten(Frames(ms))
    ensures var d := Decode(w);
      && !d.bad && d.messages <= ms
      && Flatten(Frames(d.messages)) + d.rest == w
      && (w == Flatten(Frames(ms)) ==> d.messages == ms && d.rest == [])
  {
    var k := CutFrames(ms, w);
    var h := Flatten(Frames(ms[..k]));
    var part := w[|h|..];
    assert w == h + part;
    if k < |ms| {
      DecodeFrames(ms[..k], part, ms[k]);
      assert w != Flatten(Frames(ms)) by {
        DecodeFrames(ms, [], []);
        assert Flatten(Frames(ms)) + [] == Flatten(Frames(ms));
      }
    } else {
      assert ms[..k] == ms;
      assert part == [];
      DecodeFrames(ms, part, []);
    }
  }

  /** A message survives framing exactly when it is no longer than the receiver's limit. */
  lemma FrameSurvivesExactly(m: Message)
    ensures Decode(Frame(m)) == Decoded([m], [], false) <==> |m| <= 65536
  {
    if |m| <= MAX_MESSAGE {
      DecodeFrameFirst(m, []);
      assert Frame(m) + [] == Frame(m);
    } else {
      var d := Decode(Frame(m));
      if d.messages != [] {
        assert |d.messages[0]| <= MAX_MESSAGE;
      }
    }
  }

  function ReplyTo(replies: seq<C.Script>, i: nat): C.Script {
    if i < |replies| then replies[i] else C.Done
  }

  /** The connection after the message callbacks of the first `k` messages, `replies[i]` being
      what the callback does for message `i`. */
  function AfterReplies(c: C.Conn, replies: seq<C.Script>, k: nat): (r: C.Conn)
    requires C.Established(c)
    ensures C.Established(r)
  {
    if k == 0 then c else C.RunScript(AfterReplies(c, replies, k - 1), ReplyTo(replies, k - 1))
  }

  /** `LenHeaderCodec::send`. */
  method Send(conn: TcpConnection, message: Message, a: C.Answer, onComplete: C.Script)
    requires conn.Valid() && C.Established(conn.View())
    modifies conn.Repr
    ensures conn.Valid() && fresh(conn.Repr - old(conn.Repr))
    ensures conn.View() == C.RunAct(old(conn.View()), C.Send(Frame(message), a, onComplete))
  {
    var buffer := new Buffer();
    buffer.Append(message);
    assert buffer.Contents() == message;
    buffer.Prepend(Header(|message|));
    assert buffer.Contents() == Frame(message);
    assert conn.View() == old(conn.View());
    conn.SendBuffer(buffer, a, onComplete);
  }

  /** The connection after `onMessage` handed out `k` messages and perhaps met a bad length. */
  function Outcome(c: C.Conn, replies: seq<C.Script>, k: nat, bad: bool): C.Conn
    requires C.Established(c)
  {
    var after := AfterReplies(c, replies, k);
    if bad then C.RunAct(after, C.Shutdown) else after
  }

  /** The calls of the message callbacks of the first `k` messages. */
  function Replies(replies: seq<C.Script>, k: nat): C.Script {
    if k == 0 then C.Done else C.Chain(Replies(replies, k - 1), ReplyTo(replies, k - 1))
  }

  /** All calls `onMessage` makes on the connection: the message callback of each message, in
      order, and behind them a shutdown if a bad length follows. */
  function Reaction(replies: seq<C.Script>, d: Decoded): C.Script {
    C.Chain(Replies(replies, |d.messages|), if d.bad then C.Then(C.Shutdown, C.Done) else C.Done)
  }

  lemma {:induction false} RepliesRun(c: C.Conn, replies: seq<C.Script>, k: nat)
    requires C.Established(c)
    ensures AfterReplies(c, replies, k) == C.RunScript(c, Replies(replies, k))
  {
    if k != 0 {
      RepliesRun(c, replies, k - 1);
      C.RunChain(c, Replies(replies, k - 1), ReplyTo(replies, k - 1));
    }
  }

  lemma ReactionRuns(c: C.Conn, replies: seq<C.Script>, d: Decoded)
    requires C.Established(c)
    ensures Outcome(c, replies, |d.messages|, d.bad) == C.RunScript(c, Reaction(replies, d))
  {
    var after := AfterReplies(c, replies, |d.messages|);
    RepliesRun(c, replies, |d.messages|);
    C.RunChain(c, Replies(replies, |d.messages|), if d.bad then C.Then(C.Shutdown, C.Done) else C.Done);
    assert C.RunScript(after, C.Then(C.Shutdown, C.Done)) == C.RunAct(after, C.Shutdown);
  }

  lemma {:induction false} RepliesAreFileless(replies: seq<C.Script>, k: nat)
    requires forall s :: s in replies ==> C.FilelessScript(s)
    ensures C.FilelessScript(Replies(replies, k))
  {
    if k != 0 {
      RepliesAreFileless(replies, k - 1);
      C.ChainIsFileless(Replies(replies, k - 1), ReplyTo(replies, k - 1));
    }
  }

  /** A bad length ends the connection for the sender's payloads: whatever the message callbacks
      did, it is not connected afterwards, nothing more is accepted in any continuation, and
      the half-close follows the last byte once the backlog is drained. */
  lemma BadLengthShutsDown(c: C.Conn, replies: seq<C.Script>, d: Decoded, events: seq<C.Event>)
    requires C.Inv(c) && d.bad
    requires forall s :: s in replies ==> C.FilelessScript(s)
    requires forall e :: e in events ==> C.Fileless(e)
    ensures var m := C.Step(c, C.ReadData(Reaction(replies, d)));
      var r := C.Run(m, events);
      && C.Inv(r) && !m.state.Connected? && !r.state.Connected? && r.sends == m.sends
      && (!r.state.Disconnected? && C.Progress(events) >= |m.out| ==>
            r.shutdowns == 1 && r.wire == Flatten(m.sends))
  {
    RepliesAreFileless(replies, |d.messages|);
    C.ChainIsFileless(Replies(replies, |d.messages|), C.Then(C.Shutdown, C.Done));
    C.StepKeepsInv(c, C.ReadData(Reaction(replies, d)));
    var m := C.Step(c, C.ReadData(Reaction(replies, d)));
    if !c.state.Disconnected? {
      ReactionRuns(c, replies, d);
    }
    if m.state.Disconnecting? {
      C.DrainPerformsHalfClose(m, events);
    } else {
      C.ClosedRunIsIdle(m, events);
    }
  }

  /** `LenHeaderCodec::onMessage` on the connection's own input buffer. */
  method OnMessage(conn: TcpConnection, replies: seq<C.Script>) returns (messages: seq<Message>)
    requires conn.Valid() && C.Established(conn.View())
    modifies conn.Repr
    ensures conn.Valid() && fresh(conn.Repr - old(conn.Repr))
    ensures messages == Decode(old(conn.Inbox())).messages
    ensures conn.Inbox() == Decode(old(conn.Inbox())).rest
    ensures conn.View() == C.RunScript(old(conn.View()), Reaction(replies, Decode(old(conn.Inbox()))))
  {
    ghost var start, d := conn.View(), Decode(conn.Inbox());
    messages := DeliverAll(conn, replies);
    ReactionRuns(start, replies, d);
  }

  /** The loop of `onMessage`. */
  method DeliverAll(conn: TcpConnection, replies: seq<C.Script>) returns (messages: seq<Message>)
    requires conn.Valid() && C.Established(conn.View())
    modifies conn.Repr
    ensures conn.Valid() && fresh(conn.Repr - old(conn.Repr))
    ensures messages == Decode(old(conn.Inbox())).messages
    ensures conn.Inbox() == Decode(old(conn.Inbox())).rest
    ensures conn.View() == Outcome(old(conn.View()), replies, |messages|, Decode(old(conn.Inbox())).bad)
  {
    hide Decode, LookAt, C.RunScript, C.RunAct;
    messages := [];
    ghost var goal, start := Decode(conn.Inbox()), conn.View();
    var count := 0;
    BeforeNothing(goal);
    while conn.inBuffer.ReadableBytes() >= HEADER_LEN
      invariant conn.Valid() && fresh(conn.Repr - old(conn.Repr))
      invariant goal == Before(messages, Decode(conn.Inbox())) && count == |messages|
      invariant conn.View() == AfterReplies(start, replies, count)
      decreases |conn.Inbox()|
    {
      var message := TakeMessage(conn, messages, goal, start, replies, count);
      if message.None? {
        return;
      }
      messages := messages + [message.value];
      count := count + 1;
    }
    ShortWaits(messages, conn.Inbox());
  }

  lemma ShortWaits(messages: seq<Message>, s: seq<Byte>)
    requires |s| < HEADER_LEN
    ensures Before(messages, Decode(s)) == Decoded(messages, s, false)
  {
    assert messages + [] == messages;
  }

  /** One round of the loop in `onMessage`: a whole message is taken and handed to the message
      callback, a bad length shuts the connection down. `goal` is what the whole call delivers. */
  method TakeMessage(conn: TcpConnection, ghost messages: seq<Message>, ghost goal: Decoded,
                     ghost start: C.Conn, replies: seq<C.Script>, k: nat)
    returns (message: Option<Message>)
    requires conn.Valid() && C.Established(start) && conn.View() == AfterReplies(start, replies, k)
    requires HEADER_LEN <= |conn.Inbox()| && goal == Before(messages, Decode(conn.Inbox()))
    modifies conn.Repr
    ensures conn.Valid() && fresh(conn.Repr - old(conn.Repr))
    ensures message.Some? ==>
              && |conn.Inbox()| < |old(conn.Inbox())|
              && goal == Before(messages + [message.value], Decode(conn.Inbox()))
              && conn.View() == AfterReplies(start, replies, k + 1)
    ensures message.None? ==>
              && goal.messages == messages && goal.rest == conn.Inbox()
              && conn.View() == Outcome(start, replies, k, goal.bad)
  {
    message := None;
    var len := PeekLength(conn);
    if len > MAX_MESSAGE || len < 0 {
      conn.Shutdown();
    } else if conn.inBuffer.ReadableBytes() >= len + HEADER_LEN {
      TakenFirst(messages, conn.Inbox(), HEADER_LEN + len);
      var taken := Deliver(conn, len, ReplyTo(replies, k));
      message := Some(taken);
    }
  }

  lemma TakenFirst(messages: seq<Message>, s: seq<Byte>, end: nat)
    requires LookAt(s) == Whole(end)
    ensures Before(messages, Decode(s)) == Before(messages + [s[HEADER_LEN..end]], Decode(s[end..]))
  {
    BeforeJoins(messages, [s[HEADER_LEN..end]], Decode(s[end..]));
  }

  method PeekLength(conn: TcpConnection) returns (len: int)
    requires conn.Valid() && HEADER_LEN <= |conn.Inbox()|
    ensures LookAt(conn.Inbox()) ==
            if len > MAX_MESSAGE || len < 0 then Bad
            else if |conn.Inbox()| < HEADER_LEN + len then Wait
            else Whole(HEADER_LEN + len)
  {
    var header := conn.inBuffer.Peek(HEADER_LEN);
    len := HeaderValue(header);
    assert header[..HEADER_LEN] == conn.Inbox()[..HEADER_LEN];
  }

  /** Takes the message behind the header off the input and runs the message callback. */
  method Deliver(conn: TcpConnection, len: nat, reply: C.Script) returns (message: Message)
    requires conn.Valid() && C.Established(conn.View())
    requires HEADER_LEN + len <= |conn.Inbox()|
    modifies conn.Repr
    ensures conn.Valid() && fresh(conn.Repr - old(conn.Repr))
    ensures conn.View() == C.RunScript(old(conn.View()), reply)
    ensures message == old(conn.Inbox())[HEADER_LEN..HEADER_LEN + len]
    ensures conn.Inbox() == old(conn.Inbox())[HEADER_LEN + len..]
  {
    message := TakeOff(conn.inBuffer, len);
    assert conn.View() == old(conn.View());
    conn.RunScript(reply);
  }

  method TakeOff(buffer: Buffer, len: nat) returns (message: Message)
    requires buffer.Valid() && HEADER_LEN + len <= |buffer.Contents()|
    modifies buffer
    ensures buffer.Valid() && buffer.data == old(buffer.data)
    ensures message == old(buffer.Contents())[HEADER_LEN..HEADER_LEN + len]
    ensures buffer.Contents() == old(buffer.Contents())[HEADER_LEN + len..]
  {
    buffer.Retrieve(HEADER_LEN);
    message := buffer.RetrieveAsString(len);
  }
}
