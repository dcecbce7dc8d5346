/** Printing a request head in the shape of sections 3 and 5 of RFC 9112 and parsing it back. */
module HttpRoundTrip {
  import opened Bytes
  import opened Percent
  import opened HttpParser

  const CRLF: seq<Byte> := [CR, LF]

  function PrintVersion(v: Version): seq<Byte>
    requires v != Unknown
  {
    HTTP1 + [if v == Http10 then 48 else 49]
  }

  /** `path` is already encoded; `query` is empty or starts with a question mark. */
  function PrintRequestLine(m: Method, path: seq<Byte>, query: seq<Byte>, v: Version): seq<Byte>
    requires m != Invalid && v != Unknown
  {
    MethodName(m) + [SPACE] + path + query + [SPACE] + PrintVersion(v)
  }

  predicate QueryText(query: seq<Byte>) {
    && 32 !in query && CR !in query
    && (query != [] ==> query[0] == 63)
  }

  /** A header field with the optional white space around its value. */
  datatype Field = Field(name: seq<Byte>, before: seq<Byte>, value: seq<Byte>, after: seq<Byte>)

  /** Space, tab, line feed, vertical tab, form feed and carriage return. */
  predicate Blank(b: Byte) { b in {32, 9, 10, 11, 12, 13} }

  predicate Padding(s: seq<Byte>) { forall b :: b in s ==> Blank(b) }

  /** The parts of a line as `addHeader` takes it apart. */
  predicate Shaped(f: Field) {
    && 58 !in f.name
    && Padding(f.before) && Padding(f.after)
    && (f.value != [] ==> !Blank(f.value[0]) && !Blank(f.value[|f.value| - 1]))
  }

  /** A field that can be printed on a line. */
  predicate WellFormed(f: Field) {
    Shaped(f) && CR !in f.name && CR !in f.before && CR !in f.value && CR !in f.after
  }

  function PrintField(f: Field): seq<Byte> {
    f.name + [COLON] + f.before + f.value + f.after
  }

  function PrintFields(fields: seq<Field>): seq<Byte> {
    if fields == [] then [] else PrintField(fields[0]) + CRLF + PrintFields(fields[1..])
  }

  /** Fields in order, a later one replacing an earlier one of the same name. */
  function Collect(headers: map<seq<Byte>, seq<Byte>>, fields: seq<Field>): map<seq<Byte>, seq<Byte>>
    decreases |fields|
  {
    if fields == [] then headers else Collect(headers[fields[0].name := fields[0].value], fields[1..])
  }

  /** With distinct names the table holds exactly the printed fields. */
  lemma {:induction false} CollectDistinct(headers: map<seq<Byte>, seq<Byte>>, fields: seq<Field>)
    requires forall i, j :: 0 <= i < j < |fields| ==> fields[i].name != fields[j].name
    ensures var h := Collect(headers, fields);
      && (forall f :: f in fields ==> f.name in h && h[f.name] == f.value)
      && (forall name :: name in h ==> name in headers || exists f :: f in fields && f.name == name)
      && (forall name :: name in headers && (forall f :: f in fields ==> f.name != name) ==>
            name in h && h[name] == headers[name])
    decreases |fields|
  {
    if fields != [] {
      var first, rest := fields[0], fields[1..];
      assert fields == [first] + rest;
      CollectDistinct(headers[first.name := first.value], rest);
      assert forall f :: f in rest ==> f.name != first.name;
    }
  }

  lemma {:induction false} TrimLeftPadding(pad: seq<Byte>, s: seq<Byte>)
    requires Padding(pad)
    ensures TrimLeft(pad + s) == TrimLeft(s)
  {
    if pad == [] {
      assert pad + s == s;
    } else {
      assert (pad + s)[0] in pad && (pad + s)[1..] == pad[1..] + s;
      TrimLeftPadding(pad[1..], s);
    }
  }

  lemma {:induction false} TrimRightPadding(s: seq<Byte>, pad: seq<Byte>)
    requires Padding(pad)
    ensures TrimRight(s + pad) == TrimRight(s)
  {
    if pad == [] {
      assert s + pad == s;
    } else {
      var k := |pad| - 1;
      assert (s + pad)[|s + pad| - 1] == pad[k] && pad[k] in pad;
      assert (s + pad)[..|s + pad| - 1] == s + pad[..k];
      TrimRightPadding(s, pad[..k]);
    }
  }

  lemma TrimField(f: Field)
    requires Shaped(f)
    ensures TrimRight(TrimLeft(f.before + f.value + f.after)) == f.value
  {
    assert f.before + f.value + f.after == f.before + (f.value + f.after);
    TrimLeftPadding(f.before, f.value + f.after);
    if f.value == [] {
      assert f.value + f.after == f.after + [];
      TrimLeftPadding(f.after, []);
    } else {
      assert TrimLeft(f.value + f.after) == f.value + f.after;
      TrimRightPadding(f.value, f.after);
    }
  }

  lemma FieldLine(r: Request, f: Field)
    requires Shaped(f)
    ensures TakeLine(Context(Headers, r), PrintField(f))
            == LineStep(Context(Headers, r.(headers := r.headers[f.name := f.value])), More)
  {
    FieldCuts(f);
    TrimField(f);
  }

  lemma FieldCuts(f: Field)
    requires Shaped(f)
    ensures var line := PrintField(f);
      && Find(line, 0, |line|, COLON) == |f.name| < |line|
      && line[..|f.name|] == f.name && line[|f.name| + 1..] == f.before + f.value + f.after
  {
    var line := PrintField(f);
    assert forall j :: 0 <= j < |f.name| ==> line[j] == f.name[j];
    assert line[|f.name|] == COLON;
  }

  lemma {:induction false} SplitLeft(s: seq<Byte>) returns (before: seq<Byte>)
    ensures Padding(before) && s == before + TrimLeft(s)
  {
    if s != [] && IsSpace(s[0]) {
      var more := SplitLeft(s[1..]);
      before := [s[0]] + more;
    } else {
      before := [];
    }
  }

  lemma {:induction false} SplitRight(s: seq<Byte>) returns (after: seq<Byte>)
    ensures Padding(after) && s == TrimRight(s) + after
    ensures TrimRight(s) != [] ==> TrimRight(s)[0] == s[0]
  {
    if s != [] && IsSpace(s[|s| - 1]) {
      var more := SplitRight(s[..|s| - 1]);
      after := more + [s[|s| - 1]];
    } else {
      after := [];
    }
  }

  lemma FieldParts(line: seq<Byte>) returns (f: Field)
    requires 58 in line
    ensures Shaped(f) && line == PrintField(f)
  {
    var colon := Find(line, 0, |line|, COLON);
    assert line[colon] == 58;
    var value := line[colon + 1..];
    var before := SplitLeft(value);
    var after := SplitRight(TrimLeft(value));
    f := Field(line[..colon], before, TrimRight(TrimLeft(value)), after);
    ValueParts(f, value, TrimLeft(value));
    assert line == line[..colon] + [58] + value;
  }

  lemma ValueParts(f: Field, value: seq<Byte>, trimmed: seq<Byte>)
    requires value == f.before + trimmed && trimmed == f.value + f.after
    ensures f.name + [58] + value == PrintField(f)
  {
  }

  /** In the headers, every line with a colon is a field, with the name before the first colon
      and the value without the blanks around it, and every line without one, empty or not,
      ends the head. */
  lemma HeaderLineExactly(r: Request, line: seq<Byte>)
    ensures 58 !in line ==> TakeLine(Context(Headers, r), line) == LineStep(Context(AllDone, r), Complete)
    ensures 58 in line ==> exists f :: AddsField(r, line, f)
  {
    if 58 in line {
      var f := FieldParts(line);
      FieldLine(r, f);
      assert AddsField(r, line, f);
    }
  }

  predicate AddsField(r: Request, line: seq<Byte>, f: Field) {
    && Shaped(f) && line == PrintField(f)
    && TakeLine(Context(Headers, r), line)
       == LineStep(Context(Headers, r.(headers := r.headers[f.name := f.value])), More)
  }

  lemma {:induction false} FieldsRoundTrip(r: Request, fields: seq<Field>, tail: seq<Byte>)
    requires forall f :: f in fields ==> WellFormed(f)
    ensures Parse(Context(Headers, r), PrintFields(fields) + CRLF + tail)
            == Parsed(Context(AllDone, r.(headers := Collect(r.headers, fields))), tail, true)
    decreases |fields|
  {
    var s := PrintFields(fields) + CRLF + tail;
    if fields == [] {
      assert s == [] + [CR, LF] + tail;
      FindCrlfAfterLine([], tail);
      assert s[..0] == [] && s[2..] == tail;
    } else {
      var f := fields[0];
      var line, more := PrintField(f), PrintFields(fields[1..]) + CRLF + tail;
      assert f in fields && WellFormed(f);
      FieldLine(r, f);
      assert s == line + [CR, LF] + more;
      FindCrlfAfterLine(line, more);
      assert s[..|line|] == line && s[|line| + 2..] == more;
      FieldsRoundTrip(r.(headers := r.headers[f.name := f.value]), fields[1..], tail);
    }
  }

  lemma MethodRoundTrip(m: Method)
    requires m != Invalid
    ensures MethodOf(MethodName(m)) == m
    ensures SPACE !in MethodName(m) && CR !in MethodName(m)
  {
  }

  lemma VersionRoundTrip(v: Version)
    requires v != Unknown
    ensures VersionOf(PrintVersion(v)) == v
    ensures CR !in PrintVersion(v)
  {
  }

  /** A path and a query stand behind `start`, followed by a space. */
  predicate TargetAt(line: seq<Byte>, start: nat, e: seq<Byte>, query: seq<Byte>) {
    && start + |e| + |query| < |line|
    && line[start..start + |e|] == e
    && line[start + |e|..start + |e| + |query|] == query
    && line[start + |e| + |query|] == SPACE
  }

  lemma NameParses(line: seq<Byte>, name: seq<Byte>)
    requires |name| < |line| && line[..|name|] == name && line[|name|] == SPACE
    requires SPACE !in name && MethodOf(name) != Invalid
    ensures ParseRequestLine(BLANK, line) == ParseTarget(BLANK.(verb := MethodOf(name)), line, |name| + 1)
  {
    FirstSpace(line, name);
  }

  lemma FirstSpace(line: seq<Byte>, name: seq<Byte>)
    requires |name| < |line| && line[..|name|] == name && line[|name|] == SPACE && SPACE !in name
    ensures Find(line, 0, |line|, SPACE) == |name|
  {
  }

  /** The name, the target and the version are the parts of the line between its spaces. */
  predicate CutAs(line: seq<Byte>, name: seq<Byte>, e: seq<Byte>, query: seq<Byte>, version: seq<Byte>) {
    && |name| < |line| && line[..|name|] == name && line[|name|] == SPACE
    && TargetAt(line, |name| + 1, e, query)
    && line[|name| + 1 + |e| + |query| + 1..] == version
  }

  lemma CutPoints(name: seq<Byte>, e: seq<Byte>, query: seq<Byte>, version: seq<Byte>)
    ensures CutAs(name + [SPACE] + e + query + [SPACE] + version, name, e, query, version)
  {
  }

  lemma FindFirstSpace(line: seq<Byte>, start: nat, e: seq<Byte>, query: seq<Byte>, at: nat)
    requires at == start + |e| + |query| < |line|
    requires line[start..start + |e|] == e && line[start + |e|..at] == query
    requires SPACE !in e && SPACE !in query && line[at] == SPACE
    ensures Find(line, start, |line|, SPACE) == at
  {
  }

  lemma FindQuestion(line: seq<Byte>, start: nat, e: seq<Byte>, query: seq<Byte>)
    requires start + |e| + |query| < |line|
    requires line[start..start + |e|] == e && line[start + |e|..start + |e| + |query|] == query
    requires QUESTION !in e && (query != [] ==> query[0] == QUESTION)
    ensures Find(line, start, start + |e| + |query|, QUESTION) == start + |e|
  {
  }

  // ---------------------------------------------------------------- which lines are accepted

  /** The method a name stands for: GET, POST, HEAD, PUT, DELETE. */
  predicate Names(name: seq<Byte>, m: Method) {
    || (name == [71, 69, 84] && m == Get)
    || (name == [80, 79, 83, 84] && m == Post)
    || (name == [72, 69, 65, 68] && m == Head)
    || (name == [80, 85, 84] && m == Put)
    || (name == [68, 69, 76, 69, 84, 69] && m == Delete)
  }

  /** HTTP/1.0 and HTTP/1.1. */
  predicate Versions(text: seq<Byte>, v: Version) {
    || (text == [72, 84, 84, 80, 47, 49, 46, 48] && v == Http10)
    || (text == [72, 84, 84, 80, 47, 49, 46, 49] && v == Http11)
  }

  /** A request line: a method name, a target without a space, and a version. The target is a
      path without a question mark, and a query that is empty or starts with one. */
  datatype Line = Line(name: seq<Byte>, path: seq<Byte>, query: seq<Byte>, version: seq<Byte>)

  function PrintLine(l: Line): seq<Byte> { l.name + [32] + l.path + l.query + [32] + l.version }

  predicate IsTarget(path: seq<Byte>, query: seq<Byte>) {
    32 !in path && 63 !in path && 32 !in query && (query != [] ==> query[0] == 63)
  }

  /** What stands behind the path: the space, or the question mark of the query. */
  function Stop(query: seq<Byte>): Byte { if query == [] then 32 else 63 }

  predicate IsLine(l: Line, m: Method, v: Version) {
    Names(l.name, m) && Versions(l.version, v) && IsTarget(l.path, l.query)
  }

  lemma NamesExactly(name: seq<Byte>, m: Method)
    ensures Names(name, m) <==> m != Invalid && MethodOf(name) == m
    ensures Names(name, m) ==> 32 !in name
  {
  }

  lemma VersionsExactly(text: seq<Byte>, v: Version)
    ensures Versions(text, v) <==> v != Unknown && VersionOf(text) == v
  {
    if |text| == 8 && text[..7] == HTTP1 {
      assert text == HTTP1 + [text[7]];
    }
  }

  /** Every request line is accepted, with the method and version it names, the path decoded up
      to its terminator, and the query as it stands. */
  lemma LineIsAccepted(l: Line, m: Method, v: Version)
    requires IsLine(l, m, v)
    ensures ParseRequestLine(BLANK, PrintLine(l))
            == LineResult(Request(m, v, Decode(l.path + [Stop(l.query)], false), l.query, map[]), true)
  {
    CutPoints(l.name, l.path, l.query, l.version);
    CutLineParses(PrintLine(l), l, m, v);
  }

  lemma CutLineParses(line: seq<Byte>, l: Line, m: Method, v: Version)
    requires IsLine(l, m, v) && CutAs(line, l.name, l.path, l.query, l.version)
    ensures ParseRequestLine(BLANK, line)
            == LineResult(Request(m, v, Decode(l.path + [Stop(l.query)], false), l.query, map[]), true)
  {
    hide Decode, ParseTarget, ParseRequestLine, IsTarget, Names, Versions, MethodOf, VersionOf;
    NamePartParses(line, l.name, m);
    VersionsExactly(l.version, v);
    TargetPartParses(BLANK.(verb := m), line, |l.name| + 1, l.path, l.query, v);
  }

  lemma NamePartParses(line: seq<Byte>, name: seq<Byte>, m: Method)
    requires |name| < |line| && line[..|name|] == name && line[|name|] == SPACE && Names(name, m)
    ensures ParseRequestLine(BLANK, line) == ParseTarget(BLANK.(verb := m), line, |name| + 1)
  {
    NamesExactly(name, m);
    NameParses(line, name);
  }

  lemma TargetPartParses(r: Request, line: seq<Byte>, start: nat, path: seq<Byte>, query: seq<Byte>, v: Version)
    requires r.path == [] && r.query == [] && TargetAt(line, start, path, query) && IsTarget(path, query)
    requires VersionOf(line[start + |path| + |query| + 1..]) == v != Unknown
    ensures ParseTarget(r, line, start)
            == LineResult(r.(path := Decode(path + [Stop(query)], false), query := query, version := v), true)
  {
    hide *;
    TargetFound(line, start, path, query);
    TargetParses(r, line, start, start + |path|, start + |path| + |query|, path + [Stop(query)], query, v);
  }

  /** The separators of a target and the texts they delimit. */
  predicate Found(line: seq<Byte>, start: nat, question: nat, space: nat, text: seq<Byte>, query: seq<Byte>) {
    && start <= question <= space < |line|
    && line[start..question + 1] == text && line[question..space] == query
    && Find(line, start, |line|, SPACE) == space && Find(line, start, space, QUESTION) == question
  }

  /** With the separators found, the target and version are parsed. */
  lemma TargetParses(r: Request, line: seq<Byte>, start: nat, question: nat, space: nat,
                     text: seq<Byte>, query: seq<Byte>, version: Version)
    requires r.path == [] && r.query == [] && Found(line, start, question, space, text, query)
    requires VersionOf(line[space + 1..]) == version != Unknown
    ensures ParseTarget(r, line, start)
            == LineResult(r.(path := Decode(text, false), query := query, version := version), true)
  {
  }

  lemma TargetFound(line: seq<Byte>, start: nat, path: seq<Byte>, query: seq<Byte>)
    requires TargetAt(line, start, path, query) && IsTarget(path, query)
    ensures Found(line, start, start + |path|, start + |path| + |query|, path + [Stop(query)], query)
  {
    TargetSeparators(line, start, path, query);
    PathAndStop(line, start, path, Stop(query));
  }

  lemma PathAndStop(line: seq<Byte>, start: nat, path: seq<Byte>, stop: Byte)
    requires start + |path| < |line| && line[start..start + |path|] == path && line[start + |path|] == stop
    ensures line[start..start + |path| + 1] == path + [stop]
  {
  }

  lemma TargetSeparators(line: seq<Byte>, start: nat, path: seq<Byte>, query: seq<Byte>)
    requires TargetAt(line, start, path, query) && IsTarget(path, query)
    ensures Find(line, start, |line|, SPACE) == start + |path| + |query|
    ensures Find(line, start, start + |path| + |query|, QUESTION) == start + |path|
    ensures line[start + |path|] == Stop(query)
  {
    FindFirstSpace(line, start, path, query, start + |path| + |query|);
    FindQuestion(line, start, path, query);
    if query != [] { assert line[start + |path|] == query[0]; }
  }

  /** An accepted line taken apart. */
  lemma AcceptedIsLine(line: seq<Byte>) returns (l: Line, m: Method, v: Version)
    requires ParseRequestLine(BLANK, line).ok
    ensures IsLine(l, m, v) && line == PrintLine(l)
  {
    hide Decode, Names, Versions, IsTarget;
    var first := Find(line, 0, |line|, SPACE);
    var second := Find(line, first + 1, |line|, SPACE);
    var question := Find(line, first + 1, second, QUESTION);
    l := Line(line[..first], line[first + 1..question], line[question..second], line[second + 1..]);
    m, v := MethodOf(l.name), VersionOf(l.version);
    NamesExactly(l.name, m);
    VersionsExactly(l.version, v);
    FindsTarget(line, first + 1);
    JoinLine(line, first, question, second);
  }

  lemma FindsTarget(line: seq<Byte>, start: nat)
    requires start <= |line|
    ensures var space := Find(line, start, |line|, SPACE);
      var question := Find(line, start, space, QUESTION);
      IsTarget(line[start..question], line[question..space])
  {
  }

  lemma JoinLine(line: seq<Byte>, first: nat, question: nat, second: nat)
    requires first < question <= second < |line| && line[first] == 32 && line[second] == 32
    ensures line == line[..first] + [32] + line[first + 1..question] + line[question..second] + [32] + line[second + 1..]
  {
  }

  /** A line is accepted if and only if it is a request line; every other one is rejected. */
  lemma RequestLinesExactly(line: seq<Byte>)
    ensures ParseRequestLine(BLANK, line).ok <==> exists l, m, v :: IsLine(l, m, v) && line == PrintLine(l)
  {
    if ParseRequestLine(BLANK, line).ok {
      var l, m, v := AcceptedIsLine(line);
    }
    forall l, m, v | IsLine(l, m, v) && line == PrintLine(l)
      ensures ParseRequestLine(BLANK, line).ok
    {
      LineIsAccepted(l, m, v);
    }
  }

  // ---------------------------------------------------------------- the round trip

  lemma RequestLineRoundTrip(m: Method, path: seq<Byte>, e: seq<Byte>, query: seq<Byte>, v: Version)
    requires m != Invalid && v != Unknown
    requires Encodes(e, path) && QueryText(query)
    ensures ParseRequestLine(BLANK, PrintRequestLine(m, e, query, v))
            == LineResult(Request(m, v, path, query, map[]), true)
    ensures CR !in PrintRequestLine(m, e, query, v)
  {
    MethodRoundTrip(m);
    VersionRoundTrip(v);
    EncodingIsClean(e, path);
    DecodeInverts(e, path, [], Stop(query));
    assert e + [] + [Stop(query)] == e + [Stop(query)];
    var l := Line(MethodName(m), e, query, PrintVersion(v));
    NamesExactly(l.name, m);
    VersionsExactly(l.version, v);
    LineIsAccepted(l, m, v);
  }

  /** A printed head parses back to the same request, up to and including the empty line; the
      bytes behind it are left alone. */
  lemma HeadRoundTrip(
    m: Method, path: seq<Byte>, e: seq<Byte>, query: seq<Byte>, v: Version, fields: seq<Field>, tail: seq<Byte>)
    requires m != Invalid && v != Unknown
    requires Encodes(e, path) && QueryText(query)
    requires forall f :: f in fields ==> WellFormed(f)
    ensures Parse(START, PrintRequestLine(m, e, query, v) + CRLF + PrintFields(fields) + CRLF + tail)
            == Parsed(Context(AllDone, Request(m, v, path, query, Collect(map[], fields))), tail, true)
  {
    var line, more := PrintRequestLine(m, e, query, v), PrintFields(fields) + CRLF + tail;
    var s := line + CRLF + PrintFields(fields) + CRLF + tail;
    assert s == line + [CR, LF] + more;
    RequestLineRoundTrip(m, path, e, query, v);
    FindCrlfAfterLine(line, more);
    assert s[..|line|] == line && s[|line| + 2..] == more;
    FieldsRoundTrip(Request(m, v, path, query, map[]), fields, tail);
  }
}
