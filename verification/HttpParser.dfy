/** yvent/http/HttpContext.cpp and the value side of yvent/http/HttpRequest.cpp: the request
    line, header lines and the incremental parser. */
module HttpParser {
  import opened Bytes
  import opened Percent

  const COLON: Byte := 58

  datatype Method = Invalid | Get | Post | Head | Put | Delete
  datatype Version = Unknown | Http10 | Http11

  datatype Request = Request(
    verb: Method, version: Version, path: seq<Byte>, query: seq<Byte>, headers: map<seq<Byte>, seq<Byte>>)

  const BLANK := Request(Invalid, Unknown, [], [], map[])

  /** The method names in ASCII. */
  function MethodName(m: Method): (s: seq<Byte>)
    requires m != Invalid
  {
    match m
    case Get => [71, 69, 84]
    case Post => [80, 79, 83, 84]
    case Head => [72, 69, 65, 68]
    case Put => [80, 85, 84]
    case Delete => [68, 69, 76, 69, 84, 69]
  }

  function MethodOf(s: seq<Byte>): Method {
    if s == MethodName(Get) then Get
    else if s == MethodName(Post) then Post
    else if s == MethodName(Head) then Head
    else if s == MethodName(Put) then Put
    else if s == MethodName(Delete) then Delete
    else Invalid
  }

  /** "HTTP/1." */
  const HTTP1: seq<Byte> := [72, 84, 84, 80, 47, 49, 46]

  function VersionOf(s: seq<Byte>): Version {
    if |s| != 8 || s[..7] != HTTP1 then Unknown
    else if s[7] == 48 then Http10
    else if s[7] == 49 then Http11
    else Unknown
  }

  datatype LineResult = LineResult(request: Request, ok: bool)

  /** Path, query and version once the separators are known. */
  function TakeTarget(request: Request, line: seq<Byte>, start: nat, question: nat, space: nat): LineResult
    requires start <= question <= space < |line|
  {
    var path := request.path + Decode(line[start..question + 1], false);
    var query := if question != space then line[question..space] else request.query;
    var version := VersionOf(line[space + 1..]);
    var target := request.(path := path, query := query);
    if version == Unknown then LineResult(target, false) else LineResult(target.(version := version), true)
  }

  /** The part of `parseRequestLine` behind the method. */
  function ParseTarget(request: Request, line: seq<Byte>, start: nat): LineResult
    requires start <= |line|
  {
    var space := Find(line, start, |line|, SPACE);
    if space == |line| then LineResult(request, false)
    else TakeTarget(request, line, start, Find(line, start, space, QUESTION), space)
  }

  /** `parseRequestLine`; a rejected line may already have set the method, path and query. */
  function ParseRequestLine(request: Request, line: seq<Byte>): LineResult {
    var space := Find(line, 0, |line|, SPACE);
    if space == |line| then LineResult(request, false)
    else
      var named := request.(verb := MethodOf(line[..space]));
      if named.verb == Invalid then LineResult(named, false) else ParseTarget(named, line, space + 1)
  }

  predicate IsSpace(b: Byte) { b == 32 || 9 <= b <= 13 }

  function TrimLeft(s: seq<Byte>): (r: seq<Byte>)
    ensures r != [] ==> !IsSpace(r[0])
  {
    if s != [] && IsSpace(s[0]) then TrimLeft(s[1..]) else s
  }

  function TrimRight(s: seq<Byte>): (r: seq<Byte>)
    ensures r != [] ==> !IsSpace(r[|r| - 1])
  {
    if s != [] && IsSpace(s[|s| - 1]) then TrimRight(s[..|s| - 1]) else s
  }

  /** `addHeader`: the name before the colon, the value behind it without surrounding space. */
  function AddHeader(request: Request, line: seq<Byte>, colon: nat): Request
    requires colon < |line|
  {
    request.(headers := request.headers[line[..colon] := TrimRight(TrimLeft(line[colon + 1..]))])
  }

  datatype State = RequestLine | Headers | Body | AllDone

  datatype Context = Context(state: State, request: Request)

  const START := Context(RequestLine, BLANK)

  /** The states in which the loop of `parseRequest` makes progress and the assertion of
      `setMethod` holds; in the other two states the loop would spin forever. */
  predicate Ready(c: Context) {
    c.state.Headers? || (c.state.RequestLine? && c.request.verb == Invalid)
  }

  datatype Parsed = Parsed(context: Context, rest: seq<Byte>, ok: bool)

  /** The parser needs more input. */
  predicate Pending(p: Parsed) { p.ok && !p.context.state.AllDone? }

  /** What a line does to the parser: go on, stop with the request complete, or reject. */
  datatype Verdict = More | Complete | Reject

  datatype LineStep = LineStep(context: Context, verdict: Verdict)

  function TakeLine(c: Context, line: seq<Byte>): (t: LineStep)
    ensures t.verdict.More? ==> t.context.state.Headers?
    ensures t.verdict.Complete? ==> t.context.state.AllDone?
    ensures t.verdict.Reject? ==> t.context.state.RequestLine?
  {
    if c.state.RequestLine? then
      var r := ParseRequestLine(c.request, line);
      if r.ok then LineStep(Context(Headers, r.request), More) else LineStep(Context(RequestLine, r.request), Reject)
    else
      var colon := Find(line, 0, |line|, COLON);
      if colon < |line| then LineStep(Context(Headers, AddHeader(c.request, line, colon)), More)
      else LineStep(Context(AllDone, c.request), Complete)
  }

  /** `parseRequest`: a rejected line stays in the buffer. */
  function Parse(c: Context, s: seq<Byte>): (p: Parsed)
    requires Ready(c)
    ensures |p.rest| <= |s|
    ensures Pending(p) ==> Ready(p.context)
    ensures p.context.state.AllDone? ==> p.ok && |p.rest| < |s|
    decreases |s|
  {
    var crlf := FindCrlf(s);
    if crlf.None? then Parsed(c, s, true)
    else
      var t := TakeLine(c, s[..crlf.value]);
      var rest := s[crlf.value + 2..];
      match t.verdict
      case More => Parse(t.context, rest)
      case Complete => Parsed(t.context, rest, true)
      case Reject => Parsed(t.context, s, false)
  }

  /** Parsing what has arrived and then going on with more gives what parsing all of it at
      once gives; once a request is complete or rejected, more input is left untouched. */
  lemma {:induction false} ParseSplit(c: Context, a: seq<Byte>, b: seq<Byte>)
    requires Ready(c)
    ensures var p := Parse(c, a);
      Parse(c, a + b) == if Pending(p) then Parse(p.context, p.rest + b) else p.(rest := p.rest + b)
    decreases |a|
  {
    var crlf := FindCrlf(a);
    if crlf.Some? {
      FindCrlfStable(a, b);
      var k := crlf.value;
      assert (a + b)[..k] == a[..k];
      assert (a + b)[k + 2..] == a[k + 2..] + b;
      var t := TakeLine(c, a[..k]);
      if t.verdict.More? {
        ParseSplit(t.context, a[k + 2..], b);
      }
    }
  }

  /** The parser fed one chunk after the other, until a request is complete or rejected; the
      chunks after that point are only collected. */
  function Feed(c: Context, held: seq<Byte>, chunks: seq<seq<Byte>>): Parsed
    requires Ready(c)
    decreases |chunks|
  {
    if chunks == [] then Parsed(c, held, true)
    else
      var p := Parse(c, held + chunks[0]);
      if Pending(p) then Feed(p.context, p.rest, chunks[1..])
      else p.(rest := p.rest + Flatten(chunks[1..]))
  }

  /** How a stream is cut into chunks has no influence on the parser state, the request
      fields, the verdict or the bytes left over. */
  lemma {:induction false} ChunkingInvariance(c: Context, held: seq<Byte>, chunks: seq<seq<Byte>>)
    requires Ready(c) && chunks != []
    ensures Feed(c, held, chunks) == Parse(c, held + Flatten(chunks))
    decreases |chunks|
  {
    var rest := Flatten(chunks[1..]);
    assert held + Flatten(chunks) == (held + chunks[0]) + rest;
    ParseSplit(c, held + chunks[0], rest);
    var p := Parse(c, held + chunks[0]);
    if Pending(p) {
      if chunks[1..] == [] {
        assert p.rest + rest == p.rest;
        assert held + chunks[0] + rest == held + chunks[0];
      } else {
        ChunkingInvariance(p.context, p.rest, chunks[1..]);
      }
    }
  }
}
