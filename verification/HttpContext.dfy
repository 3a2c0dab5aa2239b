/** http/http_context.cpp: the resumable request parser.

    `Parse` is what one call of parse_request does to the parser and the unread bytes;
    the class below performs it step by step. */
module HttpContexts {
  import opened Pieces
  import opened TextSearch
  import opened HttpRequests

  datatype ParseState = ExpectRequestLine | ExpectHeaders | ExpectBody | GotAll

  /** Parser state, request so far, and the bytes of the buffer not yet consumed. */
  datatype Context = Context(state: ParseState, request: Request, unread: string) {
    function Append(piece: string): Context {
      this.(unread := unread + piece)
    }
  }

  /** parse_request returns true or false, or one of its asserts stops the process. */
  datatype Outcome = Accepted | Rejected | Aborted

  datatype Result = Result(ctx: Context, outcome: Outcome)

  function Fresh(unread: string): Context {
    Context(ExpectRequestLine, NEW_REQUEST, unread)
  }

  // ----- request line -----

  /** The fields parse_first_line has set when it returns, and whether it accepts. */
  function FirstLine(r: Request, line: string): (Request, bool) {
    var space := Find(line, ' ');
    if space == |line| then (r, false)
    else
      var r1 := r.(method_ := MethodOf(line[..space]));
      var rest := line[space + 1..];
      var space2 := Find(rest, ' ');
      if r1.method_ == Invalid || space2 == |rest| then (r1, false)
      else
        var r2 := WithTarget(r1, rest[..space2]);
        match VersionOf(rest[space2 + 1..])
        case Unknown => (r2, false)
        case v => (r2.(version := v), true)
  }

  /** The query starts at the first question mark; without one the old query stays. */
  function WithTarget(r: Request, target: string): Request {
    var question := Find(target, '?');
    if question < |target| then r.(path := target[..question], query := target[question..])
    else r.(path := target)
  }

  function VersionOf(text: string): Version {
    if |text| != 8 || text[..7] != "HTTP/1." then Unknown
    else if text[7] == '1' then Http11
    else if text[7] == '0' then Http10
    else Unknown
  }

  /** A line that was refused is refused again, with the same fields set. */
  lemma FirstLineIdempotent(r: Request, line: string)
    ensures FirstLine(FirstLine(r, line).0, line) == FirstLine(r, line)
  {
  }

  // ----- one call of parse_request -----

  /** One round of the loop; the outcome is set when the loop is left. */
  function Step(c: Context): (r: (Context, Option<Outcome>))
    ensures r.1.None? ==> |r.0.unread| < |c.unread|
  {
    match c.state
    case ExpectRequestLine => StepRequestLine(c)
    case ExpectHeaders => StepHeaders(c)
    case ExpectBody => StepBody(c)
    case GotAll => (c, Some(Accepted))
  }

  function StepRequestLine(c: Context): (Context, Option<Outcome>) {
    match FindCrlf(c.unread)
    case None => (c, Some(Accepted))
    case Some(i) =>
      var (r, ok) := FirstLine(c.request, c.unread[..i]);
      if ok then (Context(ExpectHeaders, r, c.unread[i + 2..]), None)
      else (c.(request := r), Some(Rejected))
  }

  function StepHeaders(c: Context): (Context, Option<Outcome>) {
    match FindCrlf(c.unread)
    case None => (c, Some(Accepted))
    case Some(i) =>
      var line, rest := c.unread[..i], c.unread[i + 2..];
      if HasColon(line) then (Context(ExpectHeaders, WithHeaderLine(c.request, line), rest), None)
      else if HasLength(c.request) then (Context(ExpectBody, c.request, rest), None)
      else (Context(GotAll, c.request, rest), Some(Accepted))
  }

  function StepBody(c: Context): (Context, Option<Outcome>) {
    match RemainingBody(c.request)
    case None => (c, Some(Aborted))
    case Some(n) =>
      var k := if n < |c.unread| then n else |c.unread|;
      (Context(if k == n then GotAll else ExpectBody,
               c.request.(body := c.request.body + c.unread[..k]), c.unread[k..]), Some(Accepted))
  }

  function Parse(c: Context): Result
    decreases |c.unread|
  {
    match Step(c)
    case (d, Some(outcome)) => Result(d, outcome)
    case (d, None) => Parse(d)
  }

  predicate IsHeader(line: string) {
    NoCrlf(line) && HasColon(line)
  }

  predicate HasColon(line: string) {
    Find(line, ':') < |line|
  }

  function WithHeaderLine(r: Request, line: string): Request
    requires HasColon(line)
  {
    WithHeader(r, line, Find(line, ':'))
  }

  predicate HasLength(r: Request) {
    GetHeader(r.headers, CONTENT_LENGTH) != ""
  }

  // ----- the object -----

  /** The part of muduo's Buffer that the parser uses. */
  class Buffer {
    var unread: string

    constructor ()
      ensures unread == ""
    {
      unread := "";
    }

    method Append(piece: string)
      modifies this
      ensures unread == old(unread) + piece
    {
      unread := unread + piece;
    }

    method Retrieve(n: nat)
      requires n <= |unread|
      modifies this
      ensures unread == old(unread)[n..]
    {
      unread := unread[n..];
    }
  }

  class HttpContext {
    var state: ParseState
    var request: HttpRequest

    ghost function View(buf: Buffer): Context
      reads this, request, buf
    {
      Context(state, request.View(), buf.unread)
    }

    constructor ()
      ensures state == ExpectRequestLine && fresh(request) && request.View() == NEW_REQUEST
    {
      state := ExpectRequestLine;
      request := new HttpRequest();
    }

    /** After this the next request can be read; the unread bytes are not touched. */
    method Reset(ghost buf: Buffer)
      modifies this
      ensures fresh(request) && View(buf) == Fresh(old(buf.unread))
    {
      state := ExpectRequestLine;
      request := new HttpRequest();
    }

    method ParseFirstLine(line: string) returns (ok: bool)
      modifies request
      ensures (request.View(), ok) == FirstLine(old(request.View()), line)
    {
      hide Find, WithTarget, VersionOf, MethodOf;
      var space := Find(line, ' ');
      if space == |line| {
        return false;
      }
      var known := request.SetMethod(line[..space]);
      if !known {
        return false;
      }
      var rest := line[space + 1..];
      var space2 := Find(rest, ' ');
      if space2 == |rest| {
        return false;
      }
      ParseTarget(rest[..space2]);
      ok := ParseVersion(rest[space2 + 1..]);
    }

    method ParseTarget(target: string)
      modifies request
      ensures request.View() == WithTarget(old(request.View()), target)
    {
      var question := Find(target, '?');
      if question != |target| {
        request.path := target[..question];
        request.query := target[question..];
      } else {
        request.path := target;
      }
    }

    method ParseVersion(v: string) returns (ok: bool)
      modifies request
      ensures ok <==> VersionOf(v) != Unknown
      ensures request.View() == if ok then old(request.View()).(version := VersionOf(v)) else old(request.View())
    {
      if !(|v| == 8 && v[..7] == "HTTP/1.") {
        return false;
      }
      if v[7] == '1' {
        request.version := Http11;
      } else if v[7] == '0' {
        request.version := Http10;
      } else {
        return false;
      }
      return true;
    }

    method ParseRequest(buf: Buffer) returns (outcome: Outcome)
      modifies this, request, buf
      ensures request == old(request)
      ensures Result(View(buf), outcome) == Parse(old(View(buf)))
    {
      ghost var goal := Parse(View(buf));
      while true
        invariant request == old(request)
        invariant Parse(View(buf)) == goal
        decreases |buf.unread|
      {
        var left: Option<Outcome>;
        match state {
          case ExpectRequestLine => left := ReadRequestLine(buf);
          case ExpectHeaders => left := ReadHeader(buf);
          case ExpectBody => left := ReadBody(buf);
          case GotAll => left := Some(Accepted);
        }
        if left.Some? {
          return left.value;
        }
      }
    }

    // The branches of that loop; None where it goes round again.

    method ReadRequestLine(buf: Buffer) returns (left: Option<Outcome>)
      requires state == ExpectRequestLine
      modifies this, request, buf
      ensures request == old(request)
      ensures (View(buf), left) == Step(old(View(buf)))
    {
      hide FirstLine;
      var crlf := FindCrlf(buf.unread);
      if crlf.None? {
        return Some(Accepted);
      }
      var ok := ParseFirstLine(buf.unread[..crlf.value]);
      if !ok {
        return Some(Rejected);
      }
      buf.Retrieve(crlf.value + 2);
      state := ExpectHeaders;
      return None;
    }

    method ReadHeader(buf: Buffer) returns (left: Option<Outcome>)
      requires state == ExpectHeaders
      modifies this, request, buf
      ensures request == old(request)
      ensures (View(buf), left) == Step(old(View(buf)))
    {
      var crlf := FindCrlf(buf.unread);
      if crlf.None? {
        return Some(Accepted);
      }
      var line := buf.unread[..crlf.value];
      var colon := Find(line, ':');
      if colon != |line| {
        request.AddHeader(line, colon);
        buf.Retrieve(crlf.value + 2);
        return None;
      }
      if GetHeader(request.headers, CONTENT_LENGTH) != "" {
        state := ExpectBody;
        buf.Retrieve(crlf.value + 2);
        return None;
      }
      state := GotAll;
      buf.Retrieve(crlf.value + 2);
      return Some(Accepted);
    }

    method ReadBody(buf: Buffer) returns (left: Option<Outcome>)
      requires state == ExpectBody
      modifies this, request, buf
      ensures request == old(request)
      ensures (View(buf), left) == Step(old(View(buf)))
    {
      hide LexicalCast;
      var remaining := request.GetRemainBodyLen();
      if remaining.None? {
        return Some(Aborted);
      }
      if remaining.value < |buf.unread| {
        request.AppendBody(buf.unread[..remaining.value]);
        buf.Retrieve(remaining.value);
        var none := request.GetRemainBodyLen();
        assert none == Some(0);
      } else {
        assert buf.unread[..|buf.unread|] == buf.unread;
        request.AppendBody(buf.unread);
        buf.Retrieve(|buf.unread|);
      }
      var rest := request.GetRemainBodyLen();
      assert rest.Some?;
      if rest.value == 0 {
        state := GotAll;
      }
      return Some(Accepted);
    }
  }
}
