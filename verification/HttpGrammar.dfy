/** Which texts the parser takes for a request, and what it makes of them. */
module HttpGrammar {
  import opened Pieces
  import opened TextSearch
  import opened HttpRequests
  import opened HttpContexts
  import opened HttpConfluence

  // ----- request line: section 5.1 of RFC 2616, with the parser's notion of a URI -----

  function VersionName(v: Version): string {
    if v == Http11 then "HTTP/1.1" else "HTTP/1.0"
  }

  predicate IsTarget(path: string, query: string) {
    && ' ' !in path && '?' !in path && ' ' !in query
    && (query == "" || query[0] == '?')
  }

  function RequestLine(m: Method, path: string, query: string, v: Version): string {
    MethodName(m) + [' '] + ((path + query) + [' '] + VersionName(v))
  }

  /** Every rendered request line is accepted and gives back its four components. */
  lemma RequestLineAccepted(m: Method, path: string, query: string, v: Version)
    requires m != Invalid && v != Unknown && IsTarget(path, query)
    ensures FirstLine(NEW_REQUEST, RequestLine(m, path, query, v)) ==
            (NEW_REQUEST.(method_ := m, path := path, query := query, version := v), true)
  {
    hide WithTarget, VersionOf, VersionName, MethodOf, MethodName;
    MethodNameRoundTrip(MethodName(m), m);
    MethodNameHasNoSpace(m);
    SplitAtFirst(MethodName(m), ' ', (path + query) + [' '] + VersionName(v));
    SplitAtFirst(path + query, ' ', VersionName(v));
    TargetSplit(NEW_REQUEST.(method_ := m), path, query);
    VersionOfName(v);
  }

  lemma VersionOfName(v: Version)
    requires v != Unknown
    ensures VersionOf(VersionName(v)) == v
  {
  }

  lemma NameOfVersion(text: string)
    requires VersionOf(text) != Unknown
    ensures VersionName(VersionOf(text)) == text
  {
    assert text == text[..7] + [text[7]];
  }

  lemma MethodNameHasNoSpace(m: Method)
    ensures ' ' !in MethodName(m)
  {
  }

  lemma TargetSplit(r: Request, path: string, query: string)
    requires IsTarget(path, query) && r.query == ""
    ensures WithTarget(r, path + query) == r.(path := path, query := query)
  {
    if query == "" {
      assert path + query == path;
      assert Find(path, '?') == |path|;
    } else {
      assert path + query == path + ['?'] + query[1..];
      SplitAtFirst(path, '?', query[1..]);
      assert (path + query)[|path|..] == query;
    }
  }

  /** Every accepted request line is the rendering of the components read from it. */
  lemma AcceptedRequestLine(line: string)
    requires FirstLine(NEW_REQUEST, line).1
    ensures var r := FirstLine(NEW_REQUEST, line).0;
            r.method_ != Invalid && r.version != Unknown && IsTarget(r.path, r.query) &&
            line == RequestLine(r.method_, r.path, r.query, r.version)
  {
    var space := Find(line, ' ');
    var name, rest := line[..space], line[space + 1..];
    CutAtFirst(line, ' ');
    MethodNameRoundTrip(name, Invalid);
    var space2 := Find(rest, ' ');
    CutAtFirst(rest, ' ');
    var target, version := rest[..space2], rest[space2 + 1..];
    NameOfVersion(version);
    TargetParts(NEW_REQUEST.(method_ := MethodOf(name)), target);
  }

  lemma CutAtFirst(s: string, c: char)
    requires Find(s, c) < |s|
    ensures var i := Find(s, c); s == s[..i] + [c] + s[i + 1..] && c !in s[..i]
  {
    hide Find;
  }

  lemma TargetParts(r: Request, target: string)
    requires ' ' !in target && r.query == ""
    ensures var t := WithTarget(r, target);
            IsTarget(t.path, t.query) && t.path + t.query == target && t.method_ == r.method_
  {
    hide Find;
    EmptyIsUnit(target);
    var question := Find(target, '?');
    assert target[..question] + target[question..] == target;
    if question == |target| {
      assert target[..question] == target;
    }
  }

  // ----- a whole request as lines -----

  datatype Message = Message(first: string, headers: seq<string>, last: string, body: string)

  function AddHeaders(r: Request, headers: seq<string>): Request
    requires forall i :: 0 <= i < |headers| ==> IsHeader(headers[i])
    decreases |headers|
  {
    if headers == [] then r
    else
      assert IsHeader(headers[0]);
      AddHeaders(WithHeaderLine(r, headers[0]), headers[1..])
  }

  function BodyLength(r: Request): int {
    if HasLength(r) then ExpectedLength(r.headers) else 0
  }

  /** An accepted request line and headers. */
  predicate WellStarted(m: Message) {
    && NoCrlf(m.first) && FirstLine(NEW_REQUEST, m.first).1
    && (forall i :: 0 <= i < |m.headers| ==> IsHeader(m.headers[i]))
  }

  /** The same, closed by a line without colon. */
  predicate WellHeaded(m: Message) {
    WellStarted(m) && NoCrlf(m.last) && !HasColon(m.last)
  }

  /** The request before its body is read. */
  function HeadOf(m: Message): Request
    requires WellStarted(m)
  {
    AddHeaders(FirstLine(NEW_REQUEST, m.first).0, m.headers)
  }

  predicate Grammatical(m: Message) {
    WellHeaded(m) && |m.body| == BodyLength(HeadOf(m))
  }

  function Meaning(m: Message): Request
    requires Grammatical(m)
  {
    HeadOf(m).(body := m.body)
  }

  function StartText(m: Message): string {
    m.first + CRLF + Lines(m.headers)
  }

  function HeadText(m: Message): string {
    m.first + CRLF + (Lines(m.headers) + (m.last + CRLF))
  }

  function Text(m: Message): string {
    HeadText(m) + m.body
  }

  // ----- what the parser makes of a head -----

  /** `s` is headers, a line without colon, and `behind`. */
  ghost predicate Block(s: string, headers: seq<string>, last: string, behind: string) {
    && (forall i :: 0 <= i < |headers| ==> IsHeader(headers[i]))
    && NoCrlf(last) && !HasColon(last) && s == Lines(headers) + (last + CRLF + behind)
  }

  /** What a call ends with that has read the head of `r` and has `behind` at hand. */
  function Beyond(r: Request, behind: string): Result {
    if HasLength(r) then Parse(Context(ExpectBody, r, behind)) else Result(Context(GotAll, r, behind), Accepted)
  }

  lemma BeyondExact(r: Request, behind: string)
    requires r.body == ""
    ensures var p, n := Beyond(r, behind), BodyLength(r);
            && (p.outcome == Aborted <==> n < 0) && p.outcome != Rejected
            && (p.ctx.state == GotAll <==> 0 <= n <= |behind|)
            && (p.ctx.state == ExpectBody <==> n < 0 || |behind| < n)
            && (|behind| < n ==> p == Result(Context(ExpectBody, r.(body := behind), ""), Accepted))
            && (0 <= n <= |behind| ==> p == Result(Context(GotAll, r.(body := behind[..n]), behind[n..]), Accepted))
  {
    if HasLength(r) {
      EmptyIsUnit(behind);
      if 0 <= BodyLength(r) <= |behind| {
        EmptyIsUnit(behind[..BodyLength(r)]);
      }
    } else {
      assert behind[..0] == "" && behind[0..] == behind;
    }
  }

  lemma LineAhead(line: string, rest: string)
    requires NoCrlf(line)
    ensures var s := line + CRLF + rest;
            FindCrlf(s) == Some(|line|) && s[..|line|] == line && s[|line| + 2..] == rest
  {
    FindCrlfOfLine(line, rest);
  }

  lemma {:induction false} HeadersRead(r: Request, s: string, headers: seq<string>, last: string, behind: string)
    requires Block(s, headers, last, behind)
    ensures Parse(Context(ExpectHeaders, r, s)) == Beyond(AddHeaders(r, headers), behind)
    decreases |headers|
  {
    hide WithHeaderLine, HasColon, StepBody;
    if headers == [] {
      EmptyIsUnit(s);
      EmptyIsUnit(last + CRLF + behind);
      LineAhead(last, behind);
    } else {
      var line, tail := headers[0], last + CRLF + behind;
      var rest := Lines(headers[1..]) + tail;
      assert IsHeader(line);
      assert s == line + CRLF + rest;
      LineAhead(line, rest);
      HeadersRead(WithHeaderLine(r, line), rest, headers[1..], last, behind);
    }
  }

  lemma {:induction false} HeadersFound(r: Request, s: string)
      returns (headers: seq<string>, last: string, behind: string)
    requires Parse(Context(ExpectHeaders, r, s)).ctx.state != ExpectHeaders
    ensures Block(s, headers, last, behind)
    decreases |s|
  {
    hide StepBody, WithHeaderLine, HasLength, Lines, Block;
    var line := CutLine(s);
    behind := s[FindCrlf(s).value + 2..];
    assert s[..FindCrlf(s).value] == line;
    if HasColon(line) {
      var rest := behind;
      headers, last, behind := HeadersFound(WithHeaderLine(r, line), rest);
      BlockAddLine(s, line, rest, headers, last, behind);
      headers := [line] + headers;
    } else {
      headers, last := [], line;
      BlockEmpty(s, last, behind);
    }
  }

  lemma BlockEmpty(s: string, last: string, behind: string)
    requires NoCrlf(last) && !HasColon(last) && s == last + CRLF + behind
    ensures Block(s, [], last, behind)
  {
    EmptyIsUnit(s);
  }

  lemma BlockAddLine(s: string, line: string, rest: string, headers: seq<string>, last: string, behind: string)
    requires IsHeader(line) && s == line + CRLF + rest && Block(rest, headers, last, behind)
    ensures Block(s, [line] + headers, last, behind)
  {
    assert ([line] + headers)[1..] == headers;
    var tail := last + CRLF + behind;
    assert line + CRLF + (Lines(headers) + tail) == (line + CRLF + Lines(headers)) + tail;
  }

  lemma HeadAndRest(m: Message, behind: string)
    ensures HeadText(m) + behind == m.first + CRLF + (Lines(m.headers) + (m.last + CRLF + behind))
  {
    var end := m.last + CRLF;
    assert HeadText(m) + behind == m.first + CRLF + ((Lines(m.headers) + end) + behind);
    assert (Lines(m.headers) + end) + behind == Lines(m.headers) + (end + behind);
  }

  lemma {:induction false} HeadersKeepBody(r: Request, headers: seq<string>)
    requires forall i :: 0 <= i < |headers| ==> IsHeader(headers[i])
    ensures AddHeaders(r, headers).body == r.body
    decreases |headers|
  {
    if headers != [] {
      assert IsHeader(headers[0]);
      HeadersKeepBody(WithHeaderLine(r, headers[0]), headers[1..]);
    }
  }

  lemma HeadHasNoBody(m: Message)
    requires WellHeaded(m)
    ensures HeadOf(m).body == ""
  {
    FirstLineKeeps(NEW_REQUEST, m.first);
    HeadersKeepBody(FirstLine(NEW_REQUEST, m.first).0, m.headers);
  }

  /** A head at the front of the input is read as a whole. */
  lemma HeadRead(m: Message, behind: string)
    requires WellHeaded(m)
    ensures Parse(Fresh(HeadText(m) + behind)) == Beyond(HeadOf(m), behind)
  {
    hide Lines, AddHeaders, FirstLine, Beyond, StepHeaders, StepBody;
    var rest := Lines(m.headers) + (m.last + CRLF + behind);
    HeadAndRest(m, behind);
    LineAhead(m.first, rest);
    var r := FirstLine(NEW_REQUEST, m.first).0;
    assert Step(Fresh(HeadText(m) + behind)) == (Context(ExpectHeaders, r, rest), None);
    HeadersRead(r, rest, m.headers, m.last, behind);
  }

  /** Where the parser has got beyond the head, there was one. */
  lemma HeadFound(input: string) returns (m: Message, behind: string)
    requires Parse(Fresh(input)).ctx.state == ExpectBody || Parse(Fresh(input)).ctx.state == GotAll
    ensures WellHeaded(m) && m.body == "" && input == HeadText(m) + behind
  {
    hide Lines, FirstLine, StepBody;
    var first := CutLine(input);
    assert input[..FindCrlf(input).value] == first;
    var d := Step(Fresh(input)).0;
    var headers, last, b := HeadersFound(d.request, d.unread);
    m, behind := Message(first, headers, last, ""), b;
    HeadAndRest(m, behind);
  }

  // ----- the outcomes -----

  ghost predicate Parsed(input: string, r: Request, rest: string) {
    Parse(Fresh(input)) == Result(Context(GotAll, r, rest), Accepted)
  }

  lemma BodyRegroup(m: Message, rest: string)
    ensures Text(m) + rest == HeadText(m) + (m.body + rest)
    ensures (m.body + rest)[..|m.body|] == m.body && (m.body + rest)[|m.body|..] == rest
  {
  }

  /** The parser reads a whole request off its input exactly when the input starts with a
      grammatical message; it then holds that message's meaning and leaves the rest. */
  lemma ParseExact(input: string, r: Request, rest: string)
    ensures Parsed(input, r, rest) <==>
            exists m: Message :: Grammatical(m) && r == Meaning(m) && input == Text(m) + rest
  {
    if Parsed(input, r, rest) {
      var m := ParseSound(input);
      assert Grammatical(m) && r == Meaning(m) && input == Text(m) + rest;
    }
    if exists m: Message :: Grammatical(m) && r == Meaning(m) && input == Text(m) + rest {
      var m: Message :| Grammatical(m) && r == Meaning(m) && input == Text(m) + rest;
      ParseComplete(m, rest);
    }
  }

  lemma ParseComplete(m: Message, rest: string)
    requires Grammatical(m)
    ensures Parsed(Text(m) + rest, Meaning(m), rest)
  {
    hide Parse, Beyond, HeadOf, WellStarted;
    BodyRegroup(m, rest);
    HeadRead(m, m.body + rest);
    HeadHasNoBody(m);
    BeyondExact(HeadOf(m), m.body + rest);
  }

  lemma ParseSound(input: string) returns (m: Message)
    requires Parse(Fresh(input)).ctx.state == GotAll
    ensures var c := Parse(Fresh(input)).ctx;
            Grammatical(m) && c.request == Meaning(m) && input == Text(m) + c.unread
  {
    hide Parse, Beyond, HeadOf, WellStarted;
    var head, behind := HeadFound(input);
    HeadRead(head, behind);
    HeadHasNoBody(head);
    BeyondExact(HeadOf(head), behind);
    m := head.(body := behind[..BodyLength(HeadOf(head))]);
    SameHead(m, head);
    BodyRegroup(m, behind[|m.body|..]);
    assert behind == m.body + behind[|m.body|..];
  }

  lemma SameHead(m: Message, n: Message)
    requires WellHeaded(n) && m == n.(body := m.body)
    ensures WellHeaded(m) && HeadOf(m) == HeadOf(n) && HeadText(m) == HeadText(n)
  {
  }

  /** The input starts with a line that is not a request line. */
  ghost predicate StartsRefused(input: string) {
    exists first: string :: NoCrlf(first) && !FirstLine(NEW_REQUEST, first).1 && first + CRLF <= input
  }

  /** The input starts with a head that announces a negative length. */
  ghost predicate StartsNegative(input: string) {
    exists m: Message :: WellHeaded(m) && m.body == "" && BodyLength(HeadOf(m)) < 0 && Text(m) <= input
  }

  /** Over any split into reads: the request is refused exactly if its first line is none, and
      the process is stopped by an assert exactly if the headers announce a negative length. */
  lemma OutcomeExact(pieces: seq<string>)
    requires pieces != []
    ensures Feed(Fresh(""), pieces).outcome == Rejected <==> StartsRefused(Concat(pieces))
    ensures Feed(Fresh(""), pieces).outcome == Aborted <==> StartsNegative(Concat(pieces))
  {
    hide Feed, Parse, StartsRefused, StartsNegative;
    var input := Concat(pieces);
    Confluence(Fresh(""), pieces);
    EmptyIsUnit(input);
    RefusedExact(input);
    StoppedExact(input);
  }

  lemma StoppedExact(input: string)
    ensures Parse(Fresh(input)).outcome == Aborted <==> StartsNegative(input)
  {
    hide Beyond, HeadOf, WellStarted, Parse, HeadText, BodyLength;
    if Parse(Fresh(input)).outcome == Aborted {
      AbortedInBody(Fresh(input));
      var m, behind := HeadFound(input);
      HeadRead(m, behind);
      HeadHasNoBody(m);
      BeyondExact(HeadOf(m), behind);
      BodyRegroup(m, behind);
      EmptyIsUnit(behind);
      assert Text(m) <= Text(m) + behind;
    }
    if StartsNegative(input) {
      var m: Message :| WellHeaded(m) && m.body == "" && BodyLength(HeadOf(m)) < 0 && Text(m) <= input;
      var behind := input[|Text(m)|..];
      assert input == Text(m) + behind;
      BodyRegroup(m, behind);
      EmptyIsUnit(behind);
      HeadRead(m, behind);
      HeadHasNoBody(m);
      BeyondExact(HeadOf(m), behind);
    }
  }

  lemma {:induction false} AbortedInBody(c: Context)
    requires Parse(c).outcome == Aborted
    ensures Parse(c).ctx.state == ExpectBody
    decreases |c.unread|
  {
    if Step(c).1.None? {
      AbortedInBody(Step(c).0);
    }
  }

  lemma RefusedExact(input: string)
    ensures Parse(Fresh(input)).outcome == Rejected <==> StartsRefused(input)
  {
    hide FirstLine, Step;
    if FindCrlf(input).Some? {
      var line := CutLine(input);
      assert line + CRLF <= input;
      FirstLineDecides(input, line);
      forall first: string | NoCrlf(first) && first + CRLF <= input
        ensures first == line
      {
        FindCrlfOfLine(first, input[|first| + 2..]);
        assert input == first + CRLF + input[|first| + 2..];
      }
    } else {
      NothingRefused(input);
    }
  }

  lemma FirstLineDecides(input: string, line: string)
    requires FindCrlf(input).Some? && line == input[..FindCrlf(input).value]
    ensures Parse(Fresh(input)).outcome == Rejected <==> !FirstLine(NEW_REQUEST, line).1
  {
    hide FirstLine, StepHeaders, StepBody;
    if FirstLine(NEW_REQUEST, line).1 {
      OnlyAtStart(Step(Fresh(input)).0);
    }
  }

  lemma NothingRefused(input: string)
    requires FindCrlf(input).None?
    ensures Parse(Fresh(input)).outcome != Rejected && !StartsRefused(input)
  {
    hide FirstLine;
    forall first: string | first + CRLF <= input
      ensures CrlfAt(input, |first|)
    {
    }
  }

  /** Behind the first line nothing is refused. */
  lemma {:induction false} OnlyAtStart(c: Context)
    requires c.state != ExpectRequestLine
    ensures Parse(c).outcome != Rejected
    decreases |c.unread|
  {
    if Step(c).1.None? {
      OnlyAtStart(Step(c).0);
    }
  }

  // ----- where the parser stands in between -----

  /** Nothing is left that could be read: without a line end the parser stays where it is. */
  lemma NoLineYet(c: Context)
    requires (c.state == ExpectRequestLine || c.state == ExpectHeaders) && NoCrlf(c.unread)
    ensures Parse(c) == Result(c, Accepted)
  {
  }

  lemma {:induction false} HeadersOpen(r: Request, s: string, headers: seq<string>, u: string)
    requires (forall i :: 0 <= i < |headers| ==> IsHeader(headers[i])) && NoCrlf(u) && s == Lines(headers) + u
    ensures Parse(Context(ExpectHeaders, r, s)) == Result(Context(ExpectHeaders, AddHeaders(r, headers), u), Accepted)
    decreases |headers|
  {
    hide WithHeaderLine, HasColon, StepBody;
    if headers == [] {
      EmptyIsUnit(u);
      NoLineYet(Context(ExpectHeaders, r, s));
    } else {
      var line, rest := headers[0], Lines(headers[1..]) + u;
      assert IsHeader(line);
      assert s == line + CRLF + rest;
      LineAhead(line, rest);
      HeadersOpen(WithHeaderLine(r, line), rest, headers[1..], u);
    }
  }

  lemma {:induction false} HeadersLeft(r: Request, s: string) returns (headers: seq<string>, u: string)
    requires Parse(Context(ExpectHeaders, r, s)).ctx.state == ExpectHeaders
    ensures (forall i :: 0 <= i < |headers| ==> IsHeader(headers[i])) && NoCrlf(u) && s == Lines(headers) + u
    decreases |s|
  {
    hide StepBody, WithHeaderLine, HasLength;
    if FindCrlf(s).None? {
      headers, u := [], s;
      EmptyIsUnit(s);
    } else {
      var rest := s[FindCrlf(s).value + 2..];
      var line := CutLine(s);
      assert s[..FindCrlf(s).value] == line;
      LineIsHeader(r, s, line, rest);
      headers, u := HeadersLeft(WithHeaderLine(r, line), rest);
      assert ([line] + headers)[1..] == headers;
      assert line + CRLF + (Lines(headers) + u) == (line + CRLF + Lines(headers)) + u;
      headers := [line] + headers;
    }
  }

  /** Where the parser still awaits headers, the line it has read was one. */
  lemma LineIsHeader(r: Request, s: string, line: string, rest: string)
    requires FindCrlf(s).Some? && line == s[..FindCrlf(s).value] && rest == s[FindCrlf(s).value + 2..]
    requires Parse(Context(ExpectHeaders, r, s)).ctx.state == ExpectHeaders
    ensures IsHeader(line)
    ensures Parse(Context(ExpectHeaders, r, s)) == Parse(Context(ExpectHeaders, WithHeaderLine(r, line), rest))
  {
    hide WithHeaderLine, HasColon;
  }

  /** What has come so far is an accepted request line, headers, and no further line end. */
  ghost predicate OpenHead(input: string, r: Request, u: string) {
    NoCrlf(u) && exists m: Message :: WellStarted(m) && r == HeadOf(m) && input == StartText(m) + u
  }

  /** What has come so far is a head and the first part of its body. */
  ghost predicate OpenBody(input: string, r: Request) {
    exists m: Message :: WellHeaded(m) && r == HeadOf(m).(body := m.body) &&
                         |m.body| < BodyLength(HeadOf(m)) && input == Text(m)
  }

  /** Where the parser stands over any split into reads, exactly. Before the first line end it
      has done nothing; behind the request line it has taken every line that is complete, each
      as the header it is; behind the head it has taken every byte into the body. So nothing
      that could be read is left for a later read. */
  lemma ProgressExact(pieces: seq<string>, r: Request, u: string)
    requires pieces != []
    ensures var input, end := Concat(pieces), Feed(Fresh(""), pieces);
            && (end == Result(Fresh(input), Accepted) <==> NoCrlf(input))
            && (end == Result(Context(ExpectHeaders, r, u), Accepted) <==> OpenHead(input, r, u))
            && (end == Result(Context(ExpectBody, r, u), Accepted) <==> u == "" && OpenBody(input, r))
            && (end == Result(Context(GotAll, r, u), Accepted) <==>
                exists m: Message :: Grammatical(m) && r == Meaning(m) && input == Text(m) + u)
  {
    hide Feed, Parse, OpenHead, OpenBody;
    var input := Concat(pieces);
    Confluence(Fresh(""), pieces);
    EmptyIsUnit(input);
    NothingExact(input);
    HeadExact(input, r, u);
    BodyExact(input, r, u);
    ParseExact(input, r, u);
  }

  lemma NothingExact(input: string)
    ensures Parse(Fresh(input)) == Result(Fresh(input), Accepted) <==> NoCrlf(input)
  {
    hide FirstLine, StepHeaders, StepBody;
    if FindCrlf(input).None? {
      NoLineYet(Fresh(input));
    } else if FirstLine(NEW_REQUEST, input[..FindCrlf(input).value]).1 {
      LeavesStart(Step(Fresh(input)).0);
    }
  }

  lemma {:induction false} LeavesStart(c: Context)
    requires c.state != ExpectRequestLine
    ensures Parse(c).ctx.state != ExpectRequestLine
    decreases |c.unread|
  {
    if Step(c).1.None? {
      LeavesStart(Step(c).0);
    }
  }

  lemma HeadExact(input: string, r: Request, u: string)
    ensures Parse(Fresh(input)) == Result(Context(ExpectHeaders, r, u), Accepted) <==> OpenHead(input, r, u)
  {
    if Parse(Fresh(input)) == Result(Context(ExpectHeaders, r, u), Accepted) {
      var m := StartFound(input);
      assert WellStarted(m) && r == HeadOf(m) && input == StartText(m) + u;
    }
    if OpenHead(input, r, u) {
      var m: Message :| WellStarted(m) && r == HeadOf(m) && input == StartText(m) + u;
      StartRead(m, u);
    }
  }

  lemma StartRead(m: Message, u: string)
    requires WellStarted(m) && NoCrlf(u)
    ensures Parse(Fresh(StartText(m) + u)) == Result(Context(ExpectHeaders, HeadOf(m), u), Accepted)
  {
    hide Lines, AddHeaders, FirstLine, StepHeaders, StepBody;
    var rest := Lines(m.headers) + u;
    assert StartText(m) + u == m.first + CRLF + rest;
    LineAhead(m.first, rest);
    var r := FirstLine(NEW_REQUEST, m.first).0;
    assert Step(Fresh(StartText(m) + u)) == (Context(ExpectHeaders, r, rest), None);
    HeadersOpen(r, rest, m.headers, u);
  }

  lemma StartFound(input: string) returns (m: Message)
    requires Parse(Fresh(input)).ctx.state == ExpectHeaders
    ensures var c := Parse(Fresh(input)).ctx;
            WellStarted(m) && NoCrlf(c.unread) && c.request == HeadOf(m) && input == StartText(m) + c.unread
  {
    hide Lines, FirstLine, StepBody, AddHeaders;
    var first := CutLine(input);
    assert input[..FindCrlf(input).value] == first;
    var d := Step(Fresh(input)).0;
    var headers, u := HeadersLeft(d.request, d.unread);
    m := Message(first, headers, "", "");
    assert StartText(m) + u == first + CRLF + (Lines(headers) + u);
    StartRead(m, u);
  }

  lemma BodyExact(input: string, r: Request, u: string)
    ensures Parse(Fresh(input)) == Result(Context(ExpectBody, r, u), Accepted) <==> u == "" && OpenBody(input, r)
  {
    hide Parse, Beyond, HeadOf, WellStarted, HeadText;
    if Parse(Fresh(input)) == Result(Context(ExpectBody, r, u), Accepted) {
      var head, behind := HeadFound(input);
      HeadRead(head, behind);
      HeadHasNoBody(head);
      BeyondExact(HeadOf(head), behind);
      var m := head.(body := behind);
      SameHead(m, head);
      assert WellHeaded(m) && r == HeadOf(m).(body := m.body) && input == Text(m);
    }
    if u == "" && OpenBody(input, r) {
      var m: Message :| WellHeaded(m) && r == HeadOf(m).(body := m.body) &&
                        |m.body| < BodyLength(HeadOf(m)) && input == Text(m);
      HeadRead(m, m.body);
      HeadHasNoBody(m);
      BeyondExact(HeadOf(m), m.body);
    }
  }

  // ----- refused lines -----

  /** What is left of a line that is no request line: nothing without a blank, the method alone
      without a second blank or for an unknown method, and else all but the version. */
  lemma RefusedLine(name: string, path: string, query: string, text: string)
    requires ' ' !in name && IsTarget(path, query)
    ensures FirstLine(NEW_REQUEST, name) == (NEW_REQUEST, false)
    ensures ' ' !in text || MethodOf(name) == Invalid ==>
              FirstLine(NEW_REQUEST, name + [' '] + text) == (NEW_REQUEST.(method_ := MethodOf(name)), false)
    ensures MethodOf(name) != Invalid && text != "HTTP/1.0" && text != "HTTP/1.1" ==>
              FirstLine(NEW_REQUEST, name + [' '] + ((path + query) + [' '] + text)) ==
              (NEW_REQUEST.(method_ := MethodOf(name), path := path, query := query), false)
  {
    hide WithTarget, MethodOf;
    NoBlank(name);
    SplitAtFirst(name, ' ', text);
    if ' ' !in text {
      NoBlank(text);
    }
    SplitAtFirst(name, ' ', (path + query) + [' '] + text);
    SplitAtFirst(path + query, ' ', text);
    TargetSplit(NEW_REQUEST.(method_ := MethodOf(name)), path, query);
    VersionOfExact(text);
  }

  lemma NoBlank(s: string)
    requires ' ' !in s
    ensures Find(s, ' ') == |s|
  {
  }

  lemma VersionOfExact(text: string)
    ensures VersionOf(text) == Http10 <==> text == "HTTP/1.0"
    ensures VersionOf(text) == Http11 <==> text == "HTTP/1.1"
  {
    if VersionOf(text) != Unknown {
      NameOfVersion(text);
    }
  }
}
