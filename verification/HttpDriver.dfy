/** yvent/http/HttpServer.cpp: `onMessage` driving one parser over a whole connection. */
module HttpDriver {
  import opened Bytes
  import opened HttpParser

  /** The per-connection context, the input buffer, whether a request was rejected, and the
      requests handed to `onRequest`. */
  datatype Driver = Driver(context: Context, buffer: seq<Byte>, rejected: bool, served: seq<Request>)

  const NEW := Driver(START, [], false, [])

  /** `parseRequest` is entered with a blank request or in the middle of the headers. */
  predicate EntryOk(c: Context) { c == START || c.state.Headers? }

  /** One `onMessage`, the buffer having grown by `chunk`. */
  function OnMessage(d: Driver, chunk: seq<Byte>): Driver
    requires Ready(d.context)
  {
    var p := Parse(d.context, d.buffer + chunk);
    if p.context.state.AllDone? then Driver(START, p.rest, !p.ok, d.served + [p.context.request])
    else Driver(p.context, p.rest, !p.ok, d.served)
  }

  lemma {:induction false} ParseKeepsEntry(c: Context, s: seq<Byte>)
    requires EntryOk(c)
    ensures Pending(Parse(c, s)) ==> EntryOk(Parse(c, s).context)
    decreases |s|
  {
    var crlf := FindCrlf(s);
    if crlf.Some? {
      var t := TakeLine(c, s[..crlf.value]);
      if t.verdict.More? { ParseKeepsEntry(t.context, s[crlf.value + 2..]); }
    }
  }

  lemma OnMessageKeepsEntry(d: Driver, chunk: seq<Byte>)
    requires EntryOk(d.context)
    ensures !OnMessage(d, chunk).rejected ==> EntryOk(OnMessage(d, chunk).context)
  {
    ParseKeepsEntry(d.context, d.buffer + chunk);
  }

  /** The run of a connection up to and including the first rejected request. In every call,
      the parser is entered in an orderly state: the precondition of `OnMessage`. */
  function Serve(chunks: seq<seq<Byte>>): (d: Driver)
    ensures !d.rejected ==> EntryOk(d.context)
  {
    if chunks == [] then NEW
    else
      var d := Serve(chunks[..|chunks| - 1]);
      if d.rejected then d
      else
        OnMessageKeepsEntry(d, chunks[|chunks| - 1]);
        OnMessage(d, chunks[|chunks| - 1])
  }

  /** The requests of a stream, one after the other, each parsed from a blank request. */
  function RequestsOf(s: seq<Byte>): seq<Request>
    decreases |s|
  {
    var p := Parse(START, s);
    if p.context.state.AllDone? then [p.context.request] + RequestsOf(p.rest) else []
  }

  /** `current` is what arrived since the last served request: parsing it from scratch leads
      to where the driver is, unless it arrived together with that request and still waits. */
  predicate Since(d: Driver, current: seq<Byte>) {
    || (!d.rejected && d.context == START && d.buffer == current)
    || (Parse(START, current) == Parsed(d.context, d.buffer, !d.rejected) && !d.context.state.AllDone?)
  }

  /** Going on with the driver's context is parsing everything since the last request. */
  lemma SinceResumes(d: Driver, current: seq<Byte>, chunk: seq<Byte>)
    requires !d.rejected && Ready(d.context) && Since(d, current)
    ensures Parse(d.context, d.buffer + chunk) == Parse(START, current + chunk)
  {
    if !(d.context == START && d.buffer == current) {
      ParseSplit(START, current, chunk);
    }
  }

  /** `head` is exactly one request head, complete and with nothing behind it. */
  predicate IsHead(head: seq<Byte>, r: Request) {
    Parse(START, head) == Parsed(Context(AllDone, r), [], true)
  }

  predicate AreHeads(heads: seq<seq<Byte>>, rs: seq<Request>) {
    |heads| == |rs| && forall i :: 0 <= i < |rs| ==> IsHead(heads[i], rs[i])
  }

  /** The line a stream starts with is the line any long enough prefix starts with. */
  lemma FirstLineOf(head: seq<Byte>, rest: seq<Byte>, k: nat)
    requires FindCrlf(head + rest) == Some(k) && k + 2 <= |head|
    ensures FindCrlf(head) == Some(k) && head[..k] == (head + rest)[..k]
  {
    assert CrlfAt(head, k);
    FindCrlfStable(head, rest);
  }

  /** A completed parse consumed a prefix of its input and would have completed on it alone. */
  lemma {:induction false} ParseConsumes(c: Context, s: seq<Byte>) returns (head: seq<Byte>)
    requires Ready(c)
    requires Parse(c, s).context.state.AllDone?
    ensures s == head + Parse(c, s).rest
    ensures Parse(c, head) == Parse(c, s).(rest := [])
    decreases |s|
  {
    var k := FindCrlf(s).value;
    var t := TakeLine(c, s[..k]);
    var first, rest := s[..k + 2], s[k + 2..];
    assert s == first + rest;
    if t.verdict.More? {
      var more := ParseConsumes(t.context, rest);
      head := first + more;
      assert s == head + Parse(c, s).rest;
      assert head[k + 2..] == more;
    } else {
      head := first;
      assert head[k + 2..] == [];
    }
    FirstLineOf(head, Parse(c, s).rest, k);
  }

  lemma HeadThenStream(head: seq<Byte>, r: Request, s: seq<Byte>)
    requires IsHead(head, r)
    ensures Parse(START, head + s) == Parsed(Context(AllDone, r), s, true)
    ensures RequestsOf(head + s) == [r] + RequestsOf(s)
  {
    ParseSplit(START, head, s);
    assert [] + s == s;
  }

  lemma {:induction false} RequestsAfterHeads(heads: seq<seq<Byte>>, rs: seq<Request>, s: seq<Byte>)
    requires AreHeads(heads, rs)
    ensures RequestsOf(Flatten(heads) + s) == rs + RequestsOf(s)
    decreases |heads|
  {
    if heads == [] {
      assert Flatten(heads) + s == s && rs + RequestsOf(s) == RequestsOf(s);
    } else {
      HeadsSplit(heads, rs);
      var more := Flatten(heads[1..]) + s;
      assert RequestsOf(Flatten(heads) + s) == [rs[0]] + RequestsOf(more) by {
        Associate(heads[0], Flatten(heads[1..]), s);
        HeadThenStream(heads[0], rs[0], more);
      }
      RequestsAfterHeads(heads[1..], rs[1..], s);
      FirstThenRest(rs, RequestsOf(s));
    }
  }

  lemma HeadsSplit(heads: seq<seq<Byte>>, rs: seq<Request>)
    requires AreHeads(heads, rs) && heads != []
    ensures IsHead(heads[0], rs[0]) && AreHeads(heads[1..], rs[1..])
  {
  }

  /** One call: a request that completes takes exactly its own head off the stream. */
  lemma OnMessageConsumes(d: Driver, current: seq<Byte>, chunk: seq<Byte>)
    returns (head: Option<seq<Byte>>, rest: seq<Byte>)
    requires !d.rejected && EntryOk(d.context) && Since(d, current)
    ensures Since(OnMessage(d, chunk), rest)
    ensures head.None? ==> current + chunk == rest && OnMessage(d, chunk).served == d.served
    ensures head.Some? ==>
              && current + chunk == head.value + rest
              && OnMessage(d, chunk).served == d.served + [Parse(START, head.value).context.request]
              && IsHead(head.value, Parse(START, head.value).context.request)
  {
    SinceResumes(d, current, chunk);
    var all := current + chunk;
    var p := Parse(START, all);
    if p.context.state.AllDone? {
      var front := ParseConsumes(START, all);
      head, rest := Some(front), p.rest;
    } else {
      head, rest := None, all;
    }
  }

  lemma AreHeadsSnoc(heads: seq<seq<Byte>>, rs: seq<Request>, head: seq<Byte>, r: Request)
    requires AreHeads(heads, rs) && IsHead(head, r)
    ensures AreHeads(heads + [head], rs + [r])
  {
  }

  /** Over every run up to the first rejected request and every cut into chunks, the stream is
      the heads of the requests served, each of which alone parses to that request from a
      blank one, followed by what the driver is parsing now. */
  lemma {:induction false} ServedExactly(chunks: seq<seq<Byte>>)
    returns (heads: seq<seq<Byte>>, current: seq<Byte>)
    requires chunks != [] ==> !Serve(chunks[..|chunks| - 1]).rejected
    ensures AreHeads(heads, Serve(chunks).served)
    ensures Flatten(chunks) == Flatten(heads) + current
    ensures Since(Serve(chunks), current)
    decreases |chunks|
  {
    if chunks == [] {
      heads, current := [], [];
    } else {
      var k := |chunks| - 1;
      var d, chunk := Serve(chunks[..k]), chunks[k];
      ServePrefixNotRejected(chunks[..k]);
      var past, now := ServedExactly(chunks[..k]);
      var head, rest := OnMessageConsumes(d, now, chunk);
      StreamSoFar(chunks, past, now);
      current := rest;
      if head.None? {
        heads := past;
      } else {
        heads := past + [head.value];
        AreHeadsSnoc(past, d.served, head.value, Parse(START, head.value).context.request);
        FlattenSnoc(past, head.value);
        Associate(Flatten(past), head.value, rest);
      }
    }
  }

  lemma StreamSoFar(chunks: seq<seq<Byte>>, past: seq<seq<Byte>>, now: seq<Byte>)
    requires chunks != []
    requires Flatten(chunks[..|chunks| - 1]) == Flatten(past) + now
    ensures Flatten(chunks) == Flatten(past) + (now + chunks[|chunks| - 1])
  {
    FlattenLast(chunks);
    Associate(Flatten(past), now, chunks[|chunks| - 1]);
  }

  lemma ServePrefixNotRejected(chunks: seq<seq<Byte>>)
    requires !Serve(chunks).rejected
    ensures chunks != [] ==> !Serve(chunks[..|chunks| - 1]).rejected
  {
  }

  /** A rejected stream stays rejected: the heads served, then input that is no request. */
  lemma {:induction false} ServedThenRejected(chunks: seq<seq<Byte>>)
    returns (heads: seq<seq<Byte>>, current: seq<Byte>)
    requires Serve(chunks).rejected
    ensures AreHeads(heads, Serve(chunks).served)
    ensures Flatten(chunks) == Flatten(heads) + current
    ensures !Parse(START, current).ok
    decreases |chunks|
  {
    var k := |chunks| - 1;
    if Serve(chunks[..k]).rejected {
      var now;
      heads, now := ServedThenRejected(chunks[..k]);
      StreamSoFar(chunks, heads, now);
      current := now + chunks[k];
      ParseSplit(START, now, chunks[k]);
    } else {
      heads, current := ServedExactly(chunks);
    }
  }

  /** How many requests the stream of these chunks holds. */
  function Arrived(chunks: seq<seq<Byte>>): nat { |RequestsOf(Flatten(chunks))| }

  /** Up to the first rejected request and behind it, the requests served are the first
      requests of the stream, in order, however it was cut. */
  lemma ServedIsPrefix(chunks: seq<seq<Byte>>)
    ensures Serve(chunks).served <= RequestsOf(Flatten(chunks))
    ensures Serve(chunks).rejected ==> Serve(chunks).served == RequestsOf(Flatten(chunks))
  {
    var d := Serve(chunks);
    if d.rejected {
      var heads, current := ServedThenRejected(chunks);
      RequestsAfterHeads(heads, d.served, current);
    } else {
      ServePrefixNotRejected(chunks);
      var heads, current := ServedExactly(chunks);
      RequestsAfterHeads(heads, d.served, current);
    }
  }

  /** One call serves one more request if one has arrived that was not served yet. */
  lemma ServedCount(chunks: seq<seq<Byte>>)
    requires chunks != []
    ensures var before := |Serve(chunks[..|chunks| - 1]).served|;
      |Serve(chunks).served| == if before < Arrived(chunks) then before + 1 else Arrived(chunks)
  {
    var k := |chunks| - 1;
    var d := Serve(chunks[..k]);
    if d.rejected {
      ServedIsPrefix(chunks);
    } else {
      ServePrefixNotRejected(chunks[..k]);
      var heads, now := ServedExactly(chunks[..k]);
      StreamSoFar(chunks, heads, now);
      RequestsAfterHeads(heads, d.served, now + chunks[k]);
      SinceResumes(d, now, chunks[k]);
    }
  }

  /** Served and arrived after the first `n` chunks. */
  function ServedBy(chunks: seq<seq<Byte>>, n: nat): nat
    requires n <= |chunks|
  {
    |Serve(chunks[..n]).served|
  }

  function ArrivedBy(chunks: seq<seq<Byte>>, n: nat): nat
    requires n <= |chunks|
  {
    Arrived(chunks[..n])
  }

  lemma ServedNext(chunks: seq<seq<Byte>>, n: nat)
    requires n < |chunks|
    ensures var before, arrived := ServedBy(chunks, n), ArrivedBy(chunks, n + 1);
      ServedBy(chunks, n + 1) == if before < arrived then before + 1 else arrived
  {
    ServedCount(chunks[..n + 1]);
    assert chunks[..n + 1][..n] == chunks[..n];
  }

  /** A count that goes up by one where it can, and never above `limit`, is the least, over
      all earlier limits, of that limit and one more for each step since. */
  lemma {:induction false} LeastLimit(count: seq<nat>, limit: seq<nat>) returns (at: nat)
    requires |count| == |limit| > 0 && count[0] == limit[0]
    requires forall i :: 0 < i < |count| ==> count[i] == if count[i - 1] < limit[i] then count[i - 1] + 1 else limit[i]
    ensures forall j :: 0 <= j < |count| ==> count[|count| - 1] <= limit[j] + |count| - 1 - j
    ensures at < |count| && count[|count| - 1] == limit[at] + |count| - 1 - at
    decreases |count|
  {
    var n := |count| - 1;
    if n == 0 {
      at := 0;
    } else {
      at := LeastLimit(count[..n], limit[..n]);
      assert forall j :: 0 <= j < n ==> limit[..n][j] == limit[j];
      if count[n] == limit[n] { at := n; }
    }
  }

  /** The number served is the least, over all earlier calls, of the requests arrived by then
      and one more for each call since. */
  lemma ServedIsLeast(chunks: seq<seq<Byte>>) returns (at: nat)
    ensures forall j :: 0 <= j <= |chunks| ==> ServedBy(chunks, |chunks|) <= ArrivedBy(chunks, j) + |chunks| - j
    ensures at <= |chunks| && ServedBy(chunks, |chunks|) == ArrivedBy(chunks, at) + |chunks| - at
  {
    var n := |chunks|;
    var count := seq(n + 1, i requires 0 <= i <= n => ServedBy(chunks, i));
    var limit := seq(n + 1, i requires 0 <= i <= n => ArrivedBy(chunks, i));
    forall i | 0 < i <= n
      ensures count[i] == if count[i - 1] < limit[i] then count[i - 1] + 1 else limit[i]
    {
      ServedNext(chunks, i - 1);
    }
    assert chunks[..0] == [];
    NothingArrivedYet();
    at := LeastLimit(count, limit);
    forall j | 0 <= j <= n
      ensures count[n] <= ArrivedBy(chunks, j) + n - j
    {
      assert limit[j] == ArrivedBy(chunks, j);
    }
  }

  lemma NothingArrivedYet()
    ensures Arrived([]) == 0
  {
  }

  /** From every call on, no more requests arrive than calls are made. */
  predicate KeepsUp(chunks: seq<seq<Byte>>) {
    forall j :: 0 <= j <= |chunks| ==> Arrived(chunks) - ArrivedBy(chunks, j) <= |chunks| - j
  }

  /** All requests of the stream are served, however it ends, if and only if the chunks never
      bring more requests than the calls left to serve them. */
  lemma ServedInOrder(chunks: seq<seq<Byte>>)
    ensures Serve(chunks).served <= RequestsOf(Flatten(chunks))
    ensures Serve(chunks).served == RequestsOf(Flatten(chunks)) <==> KeepsUp(chunks)
  {
    ServedIsPrefix(chunks);
    var n := |chunks|;
    assert chunks[..n] == chunks;
    var at := ServedIsLeast(chunks);
    if ServedBy(chunks, n) < Arrived(chunks) {
      assert Arrived(chunks) - ArrivedBy(chunks, at) > n - at;
    }
  }

  lemma ServeNext(chunks: seq<seq<Byte>>, n: nat)
    requires n < |chunks| && !Serve(chunks[..n]).rejected
    ensures Serve(chunks[..n + 1]) == OnMessage(Serve(chunks[..n]), chunks[n])
  {
    assert chunks[..n + 1][..n] == chunks[..n];
  }

  lemma ServeOne(chunk: seq<Byte>)
    ensures Serve([chunk]) == OnMessage(NEW, chunk)
  {
  }

  lemma ServeTwo(chunk1: seq<Byte>, chunk2: seq<Byte>)
    requires !Serve([chunk1]).rejected
    ensures Serve([chunk1, chunk2]) == OnMessage(Serve([chunk1]), chunk2)
  {
  }

  /** A head at the front of what the driver holds is served by one call, and only it. */
  lemma OneHeadPerCall(d: Driver, chunk: seq<Byte>, head: seq<Byte>, r: Request, rest: seq<Byte>)
    requires d.context == START && d.buffer + chunk == head + rest && IsHead(head, r)
    ensures OnMessage(d, chunk) == Driver(START, rest, false, d.served + [r])
  {
    HeadThenStream(head, r, rest);
  }

  /** Two heads arriving in one read: only the first is served until more bytes arrive. */
  lemma PipelinedRequestWaits(head1: seq<Byte>, r1: Request, head2: seq<Byte>, r2: Request, more: seq<Byte>)
    requires IsHead(head1, r1) && IsHead(head2, r2)
    ensures Serve([head1 + head2]).served == [] + [r1]
    ensures Serve([head1 + head2, more]).served == [] + [r1] + [r2]
    ensures RequestsOf(head1 + head2) == [r1] + RequestsOf(head2) && RequestsOf(head2)[..1] == [r2]
  {
    HeadThenStream(head1, r1, head2);
    ServeOne(head1 + head2);
    OneHeadPerCall(NEW, head1 + head2, head1, r1, head2);
    ServeTwo(head1 + head2, more);
    OneHeadPerCall(Serve([head1 + head2]), more, head2, r2, more);
  }
}
