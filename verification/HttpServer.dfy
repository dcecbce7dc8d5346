/** yvent/http in its own form: the request and context objects, and `onMessage`. Every
    method is tied to the functions of modules HttpParser and HttpDriver. */
module HttpServer {
  import opened Bytes
  import opened Percent
  import opened HttpParser
  import opened Buffers
  import D = HttpDriver

  /** A round of the decoder moves what it decodes from the text to the path. */
  lemma RoundDone(line: seq<Byte>, p: nat, end: nat, percent: bool, path: seq<Byte>)
    requires p < end < |line|
    ensures var r := RoundOf(line[p..end + 1], percent);
      path + r.added + Decode(line[p + r.taken..end + 1], r.percent) == path + Decode(line[p..end + 1], percent)
  {
    var t := line[p..end + 1];
    var r := RoundOf(t, percent);
    DecodeByRounds(t, percent);
    assert t[r.taken..] == line[p + r.taken..end + 1];
    Associate(path, r.added, Decode(t[r.taken..], r.percent));
  }

  class HttpRequest {
    var verb: Method
    var version: Version
    var path: seq<Byte>
    var query: seq<Byte>
    var headers: map<seq<Byte>, seq<Byte>>

    ghost function View(): Request
      reads this
    {
      Request(verb, version, path, query, headers)
    }

    constructor ()
      ensures View() == BLANK
    {
      verb, version, path, query, headers := Invalid, Unknown, [], [], map[];
    }

    method SetMethod(name: seq<Byte>) returns (ok: bool)
      requires verb == Invalid
      modifies this
      ensures View() == old(View()).(verb := MethodOf(name))
      ensures ok == (MethodOf(name) != Invalid)
    {
      if name == MethodName(Get) { verb := Get; }
      else if name == MethodName(Post) { verb := Post; }
      else if name == MethodName(Head) { verb := Head; }
      else if name == MethodName(Put) { verb := Put; }
      else if name == MethodName(Delete) { verb := Delete; }
      else { verb := Invalid; }
      ok := verb != Invalid;
    }

    /** Reads no byte behind the terminator `line[end]`. */
    method SetPath(line: seq<Byte>, start: nat, end: nat)
      requires start <= end < |line|
      modifies this
      ensures View() == old(View()).(path := old(path) + Decode(line[start..end + 1], false))
    {
      var percent := false;
      var p := start;
      ghost var goal := path + Decode(line[start..end + 1], false);
      while p < end
        invariant start <= p <= end + 1
        invariant View() == old(View()).(path := path)
        invariant path + Decode(line[p..end + 1], percent) == goal
      {
        RoundDone(line, p, end, percent, path);
        p, percent := DecodeRound(line, p, end, percent);
      }
    }

    /** One round of the loop in `setPath`. */
    method DecodeRound(line: seq<Byte>, start: nat, end: nat, state: bool) returns (p: nat, percent: bool)
      requires start < end < |line|
      modifies this`path
      ensures var r := RoundOf(line[start..end + 1], state);
        path == old(path) + r.added && p == start + r.taken && percent == r.percent
    {
      p, percent := start, state;
      var c := line[p];
      if !percent {
        if c == PERCENT {
          percent := true;
        } else {
          path := path + [c];
        }
      } else {
        var hex1 := HexDigit(c);
        if hex1.Some? {
          p := p + 1;
          var hex2 := HexDigit(line[p]);
          if hex2.Some? {
            path := path + [hex1.value * 16 + hex2.value];
            percent := false;
          }
        }
      }
      p := p + 1;
    }

    method AddHeaderLine(line: seq<Byte>, colon: nat)
      requires colon < |line|
      modifies this
      ensures View() == AddHeader(old(View()), line, colon)
    {
      var from := colon + 1;
      while from < |line| && IsSpace(line[from])
        invariant colon < from <= |line|
        invariant TrimLeft(line[from..]) == TrimLeft(line[colon + 1..])
      {
        assert line[from..][1..] == line[from + 1..];
        from := from + 1;
      }
      var value := line[from..];
      while |value| != 0 && IsSpace(value[|value| - 1])
        invariant TrimRight(value) == TrimRight(line[from..])
      {
        value := value[..|value| - 1];
      }
      headers := headers[line[..colon] := value];
    }

    method Swap(that: HttpRequest)
      modifies this, that
      ensures View() == old(that.View()) && that.View() == old(View())
    {
      verb, that.verb := that.verb, verb;
      version, that.version := that.version, version;
      path, that.path := that.path, path;
      query, that.query := that.query, query;
      headers, that.headers := that.headers, headers;
    }
  }

  /** `std::find` over `line[start..end]`. */
  method FindByte(line: seq<Byte>, start: nat, end: nat, b: Byte) returns (at: nat)
    requires start <= end <= |line|
    ensures at == Find(line, start, end, b)
  {
    at := start;
    while at < end && line[at] != b
      invariant start <= at <= end
      invariant Find(line, start, end, b) == Find(line, at, end, b)
    {
      at := at + 1;
    }
  }

  class HttpContext {
    var state: State
    const request: HttpRequest

    ghost function View(): Context
      reads this, request
    {
      Context(state, request.View())
    }

    constructor ()
      ensures View() == START && fresh(request)
    {
      state := RequestLine;
      request := new HttpRequest();
    }

    method Reset()
      modifies this, request
      ensures View() == START
    {
      state := RequestLine;
      var dummy := new HttpRequest();
      request.Swap(dummy);
    }

    method ReadRequestLine(line: seq<Byte>) returns (ok: bool)
      requires request.verb == Invalid
      modifies request
      ensures LineResult(request.View(), ok) == ParseRequestLine(old(request.View()), line)
    {
      ok := false;
      var space := FindByte(line, 0, |line|, SPACE);
      if space != |line| {
        var known := request.SetMethod(line[..space]);
        if known {
          ok := ReadTarget(line, space + 1);
        }
      }
    }

    /** The part of `parseRequestLine` behind the method. */
    method ReadTarget(line: seq<Byte>, start: nat) returns (ok: bool)
      requires start <= |line|
      modifies request
      ensures LineResult(request.View(), ok) == ParseTarget(old(request.View()), line, start)
    {
      ok := false;
      var space := FindByte(line, start, |line|, SPACE);
      if space != |line| {
        var question := FindByte(line, start, space, QUESTION);
        request.SetPath(line, start, question);
        if question != space {
          request.query := line[question..space];
        }
        var tail := line[space + 1..];
        ok := |tail| == 8 && tail[..7] == HTTP1;
        if ok {
          if tail[7] == 48 {
            request.version := Http10;
          } else if tail[7] == 49 {
            request.version := Http11;
          } else {
            ok := false;
          }
        }
      }
    }

    /** `parseRequest`; every round but the last consumes a line, so the loop ends. */
    method ParseRequest(buffer: Buffer) returns (ok: bool)
      requires buffer.Valid() && Ready(View())
      modifies this, request, buffer
      ensures buffer.Valid() && buffer.data == old(buffer.data)
      ensures Parsed(View(), buffer.Contents(), ok) == Parse(old(View()), old(buffer.Contents()))
    {
      ok := true;
      var hasMore := true;
      ghost var goal := Parse(View(), buffer.Contents());
      while hasMore
        invariant buffer.Valid() && buffer.data == old(buffer.data)
        invariant hasMore ==> ok && Ready(View()) && Parse(View(), buffer.Contents()) == goal
        invariant !hasMore ==> Parsed(View(), buffer.Contents(), ok) == goal
        decreases hasMore, |buffer.Contents()|
      {
        ok, hasMore := ParseLine(buffer);
      }
    }

    /** One round of the loop in `parseRequest`. */
    method ParseLine(buffer: Buffer) returns (ok: bool, hasMore: bool)
      requires buffer.Valid() && Ready(View())
      modifies this, request, buffer
      ensures buffer.Valid() && buffer.data == old(buffer.data)
      ensures hasMore ==>
                && ok && Ready(View()) && |buffer.Contents()| < |old(buffer.Contents())|
                && Parse(View(), buffer.Contents()) == Parse(old(View()), old(buffer.Contents()))
      ensures !hasMore ==>
                Parsed(View(), buffer.Contents(), ok) == Parse(old(View()), old(buffer.Contents()))
    {
      ok, hasMore := true, true;
      var crlf := buffer.FindCRLF();
      if crlf.None? {
        hasMore := false;
        return;
      }
      var line := buffer.Peek(crlf.value);
      var verdict := UseLine(line);
      if verdict.Reject? {
        ok, hasMore := false, false;
      } else {
        hasMore := verdict.More?;
        buffer.Retrieve(crlf.value + 2);
      }
    }

    /** The two live cases of the switch on the state. */
    method UseLine(line: seq<Byte>) returns (verdict: Verdict)
      requires Ready(View())
      modifies this, request
      ensures LineStep(View(), verdict) == TakeLine(old(View()), line)
    {
      if state.RequestLine? {
        var ok := ReadRequestLine(line);
        if ok {
          state := Headers;
          verdict := More;
        } else {
          verdict := Reject;
        }
      } else {
        var colon := FindByte(line, 0, |line|, COLON);
        if colon != |line| {
          request.AddHeaderLine(line, colon);
          verdict := More;
        } else {
          state := AllDone;
          verdict := Complete;
        }
      }
    }
  }

  /** `HttpServer::onMessage` after `chunk` was read into the buffer. `served` is the request
      handed to `onRequest`, if one is complete; `ok` is false when the answer is 400. */
  method OnMessage(context: HttpContext, buffer: Buffer, ghost before: D.Driver, ghost chunk: seq<Byte>)
    returns (ok: bool, served: Option<Request>)
    requires buffer.Valid() && Ready(context.View())
    requires before.context == context.View() && before.buffer + chunk == buffer.Contents()
    modifies context, context.request, buffer
    ensures buffer.Valid() && buffer.data == old(buffer.data)
    ensures var d := D.OnMessage(before, chunk);
      && context.View() == d.context && buffer.Contents() == d.buffer && ok == !d.rejected
      && d.served == before.served + (if served.Some? then [served.value] else [])
  {
    ok := context.ParseRequest(buffer);
    served := None;
    if context.state.AllDone? {
      var r := context.request;
      served := Some(Request(r.verb, r.version, r.path, r.query, r.headers));
      context.Reset();
    }
  }

  /** A read of `chunk` followed by `onMessage`. */
  method HandleChunk(context: HttpContext, buffer: Buffer, chunk: seq<Byte>, ghost before: D.Driver)
    returns (ok: bool, served: Option<Request>)
    requires buffer.Valid() && Ready(context.View()) && |chunk| <= buffer.ReadCapacity()
    requires before.context == context.View() && before.buffer == buffer.Contents()
    modifies context, context.request, buffer, buffer.data
    ensures buffer.Valid() && (buffer.data == old(buffer.data) || fresh(buffer.data))
    ensures D.OnMessage(before, chunk)
            == D.Driver(context.View(), buffer.Contents(), !ok,
                        before.served + (if served.Some? then [served.value] else []))
  {
    var n := buffer.ReadFd(Some(chunk));
    ok, served := OnMessage(context, buffer, before, chunk);
  }

  /** A whole connection: each chunk is read into the buffer and handled, up to the first
      rejected request or a read no kernel can perform. */
  method ServeConnection(chunks: seq<seq<Byte>>)
    returns (done: nat, rejected: bool, served: seq<Request>, context: HttpContext, buffer: Buffer)
    ensures done <= |chunks|
    ensures buffer.Valid()
    ensures D.Driver(context.View(), buffer.Contents(), rejected, served) == D.Serve(chunks[..done])
    ensures done < |chunks| ==> rejected || buffer.ReadCapacity() < |chunks[done]|
  {
    context := new HttpContext();
    buffer := new Buffer();
    done, rejected, served := 0, false, [];
    ghost var d := D.NEW;
    while done < |chunks| && !rejected
      invariant done <= |chunks| && buffer.Valid() && fresh(buffer) && fresh(buffer.data)
      invariant fresh(context) && fresh(context.request)
      invariant d == D.Serve(chunks[..done])
      invariant D.Driver(context.View(), buffer.Contents(), rejected, served) == d
    {
      if buffer.ReadCapacity() < |chunks[done]| {
        break;
      }
      D.ServeNext(chunks, done);
      var ok, request := HandleChunk(context, buffer, chunks[done], d);
      d := D.OnMessage(d, chunks[done]);
      rejected := !ok;
      served := served + (if request.Some? then [request.value] else []);
      done := done + 1;
    }
  }
}
