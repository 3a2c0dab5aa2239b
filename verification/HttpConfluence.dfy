/** What parse_request does over whole runs: the way the bytes are cut into reads does
    not matter, and no byte is lost. */
module HttpConfluence {
  import opened Pieces
  import opened TextSearch
  import opened HttpRequests
  import opened HttpContexts

  /** Read after read: each piece is appended to the buffer and parse_request called. */
  function Feed(c: Context, pieces: seq<string>): Result
    requires pieces != []
  {
    var last := |pieces| - 1;
    if last == 0 then Parse(c.Append(pieces[0]))
    else Parse(Feed(c, pieces[..last]).ctx.Append(pieces[last]))
  }

  /** Confluence: for every parser state, every byte stream and every split into reads,
      the final state, request, unread bytes and result are those of a single read.
      Refused first lines, stopped processes and bytes of a following request included. */
  lemma {:induction false} Confluence(c: Context, pieces: seq<string>)
    requires pieces != []
    ensures Feed(c, pieces) == Parse(c.Append(Concat(pieces)))
  {
    var last := |pieces| - 1;
    var front := pieces[..last];
    AppendTwice(c, Concat(front), pieces[last]);
    if last == 0 {
      assert Concat(front) == "";
      EmptyIsUnit(pieces[0]);
    } else {
      Confluence(c, front);
      ParseResumes(c.Append(Concat(front)), pieces[last]);
    }
  }

  lemma AppendTwice(c: Context, a: string, b: string)
    ensures c.Append(a).Append(b) == c.Append(a + b)
  {
    assert (c.unread + a) + b == c.unread + (a + b);
  }

  /** Parsing, then appending and parsing again, is appending first and parsing once. */
  lemma {:induction false} ParseResumes(c: Context, more: string)
    ensures Parse(Parse(c).ctx.Append(more)) == Parse(c.Append(more))
    decreases |c.unread|
  {
    match Step(c)
    case (d, None) =>
      StepOnMore(c, more);
      ParseResumes(d, more);
    case (d, Some(_)) =>
      LeaveOnMore(c, more);
  }

  /** Bytes behind those a round has looked at do not change that round. */
  lemma StepOnMore(c: Context, more: string)
    requires Step(c).1.None?
    ensures Step(c.Append(more)) == (Step(c).0.Append(more), None)
  {
    hide FirstLine, WithHeaderLine, HasColon, HasLength;
    LineOnMore(c.unread, more);
  }

  lemma LineOnMore(s: string, more: string)
    requires FindCrlf(s).Some?
    ensures FindCrlf(s + more) == FindCrlf(s)
    ensures var i := FindCrlf(s).value;
            (s + more)[..i] == s[..i] && (s + more)[i + 2..] == s[i + 2..] + more
  {
    FindCrlfExtends(s, more);
  }

  /** Where a round leaves the loop, the next call goes on as if it had not been left. */
  lemma LeaveOnMore(c: Context, more: string)
    requires Step(c).1.Some?
    ensures Parse(Step(c).0.Append(more)) == Parse(c.Append(more))
  {
    match c.state
    case ExpectRequestLine =>
      if FindCrlf(c.unread).Some? {
        LineOnMore(c.unread, more);
        FirstLineIdempotent(c.request, c.unread[..FindCrlf(c.unread).value]);
      }
    case ExpectHeaders =>
      if FindCrlf(c.unread).Some? {
        LineOnMore(c.unread, more);
      }
    case ExpectBody =>
      BodyOnMore(c, more);
    case GotAll =>
  }

  lemma BodyOnMore(c: Context, more: string)
    requires c.state == ExpectBody
    ensures Parse(Step(c).0.Append(more)) == Parse(c.Append(more))
  {
    if RemainingBody(c.request).Some? {
      var n := RemainingBody(c.request).value;
      if n <= |c.unread| {
        BodyCompleted(c, more, n);
      } else {
        BodyContinued(c, more, n);
      }
    }
  }

  lemma BodyCompleted(c: Context, more: string, n: nat)
    requires c.state == ExpectBody && RemainingBody(c.request) == Some(n) && n <= |c.unread|
    ensures Parse(Step(c).0.Append(more)) == Parse(c.Append(more))
  {
    hide RemainingBody;
    TakeFromFirst(c.unread, more, n);
  }

  lemma BodyContinued(c: Context, more: string, n: nat)
    requires c.state == ExpectBody && RemainingBody(c.request) == Some(n) && n > |c.unread|
    ensures Parse(Step(c).0.Append(more)) == Parse(c.Append(more))
  {
    hide ExpectedLength;
    var u := c.unread;
    var k := if n < |u + more| then n else |u + more|;
    assert u[..|u|] == u && u[|u|..] + more == more;
    TakeFromBoth(c.request.body, u, more, k);
  }

  lemma TakeFromFirst(u: string, more: string, n: nat)
    requires n <= |u|
    ensures (u + more)[..n] == u[..n] && (u + more)[n..] == u[n..] + more
  {
  }

  lemma TakeFromBoth(body: string, u: string, more: string, k: nat)
    requires |u| <= k <= |u + more|
    ensures body + (u + more)[..k] == (body + u) + more[..k - |u|]
    ensures (u + more)[k..] == more[k - |u|..]
  {
    assert (u + more)[..k] == u + more[..k - |u|];
    assert body + (u + more[..k - |u|]) == (body + u) + more[..k - |u|];
  }

  // ----- accounting -----

  /** What holds of a parser between any two calls. */
  predicate Consistent(c: Context) {
    var r := c.request;
    match c.state
    case ExpectRequestLine => r.body == "" && r.headers == map[]
    case ExpectHeaders => r.body == ""
    case ExpectBody => HasLength(r) && (r.body == "" || |r.body| < ExpectedLength(r.headers))
    case GotAll => |r.body| == if HasLength(r) then ExpectedLength(r.headers) else 0
  }

  lemma StepConsistent(c: Context)
    requires Consistent(c)
    ensures Consistent(Step(c).0)
    ensures Step(c).1 == Some(Aborted) <==> c.state == ExpectBody && ExpectedLength(c.request.headers) < 0
    ensures Step(c).1 == Some(Rejected) ==> c.state == ExpectRequestLine && FindCrlf(c.unread).Some?
  {
    hide FirstLine, HasColon, ExpectedLength;
    if c.state == ExpectRequestLine && FindCrlf(c.unread).Some? {
      FirstLineKeeps(c.request, c.unread[..FindCrlf(c.unread).value]);
    }
  }

  lemma FirstLineKeeps(r: Request, line: string)
    ensures FirstLine(r, line).0.body == r.body && FirstLine(r, line).0.headers == r.headers
  {
  }

  /** Over every run: got_all means the body has exactly the announced length (none when
      there is no Content-Length), the body is never longer, and the process is stopped
      by an assert exactly when the announced length is negative. */
  lemma {:induction false} FeedConsistent(c: Context, pieces: seq<string>)
    requires Consistent(c) && pieces != []
    ensures var r := Feed(c, pieces);
            Consistent(r.ctx) &&
            (r.outcome == Aborted <==>
             r.ctx.state == ExpectBody && ExpectedLength(r.ctx.request.headers) < 0)
  {
    Confluence(c, pieces);
    ParseConsistent(c.Append(Concat(pieces)));
  }

  lemma {:induction false} ParseConsistent(c: Context)
    requires Consistent(c)
    ensures var r := Parse(c);
            Consistent(r.ctx) &&
            (r.outcome == Aborted <==>
             r.ctx.state == ExpectBody && ExpectedLength(r.ctx.request.headers) < 0)
    decreases |c.unread|
  {
    StepConsistent(c);
    if Step(c).1.None? {
      ParseConsistent(Step(c).0);
    }
  }

  /** Whole lines, each with its line end. */
  function Lines(ls: seq<string>): string {
    if ls == [] then "" else ls[0] + CRLF + Lines(ls[1..])
  }

  /** `s` is some whole lines, then `piece`, then `rest`. */
  predicate Splits(s: string, ls: seq<string>, piece: string, rest: string) {
    && s == Lines(ls) + piece + rest
    && forall i :: 0 <= i < |ls| ==> NoCrlf(ls[i])
  }

  lemma SplitsWithoutLines(piece: string, rest: string)
    ensures Splits(piece + rest, [], piece, rest)
  {
    EmptyIsUnit(piece);
  }

  lemma SplitsAddLine(s: string, line: string, rest: string, ls: seq<string>, piece: string, left: string)
    requires NoCrlf(line) && s == line + CRLF + rest && Splits(rest, ls, piece, left)
    ensures Splits(s, [line] + ls, piece, left)
  {
    assert ([line] + ls)[1..] == ls;
    assert line + CRLF + (Lines(ls) + piece + left) == (line + CRLF + Lines(ls)) + piece + left;
  }

  lemma CutLine(s: string) returns (line: string)
    requires FindCrlf(s).Some?
    ensures NoCrlf(line) && s == line + CRLF + s[FindCrlf(s).value + 2..]
  {
    var i := FindCrlf(s).value;
    line := s[..i];
    assert s[i..i + 2] == CRLF;
    assert s == s[..i] + s[i..i + 2] + s[i + 2..];
  }

  /** Conservation: the input is some whole lines, then the bytes added to the body, then
      what is still unread. */
  lemma {:induction false} ParseConserves(c: Context) returns (ls: seq<string>, piece: string)
    ensures Parse(c).ctx.request.body == c.request.body + piece
    ensures Splits(c.unread, ls, piece, Parse(c).ctx.unread)
    decreases |c.unread|
  {
    if c.state == ExpectBody {
      ls := [];
      piece := BodyConserves(c);
    } else if Step(c).1.None? {
      ls, piece := ParseConserves(Step(c).0);
      ls := TurnConserves(c, ls, piece, Parse(Step(c).0).ctx.unread);
    } else {
      piece := "";
      ls := LeaveConserves(c);
    }
  }

  lemma TurnConserves(c: Context, ls: seq<string>, piece: string, left: string) returns (all: seq<string>)
    requires c.state != ExpectBody && Step(c).1.None? && Splits(Step(c).0.unread, ls, piece, left)
    ensures Step(c).0.request.body == c.request.body
    ensures Splits(c.unread, all, piece, left)
  {
    var line := CutLine(c.unread);
    SplitsAddLine(c.unread, line, Step(c).0.unread, ls, piece, left);
    all := [line] + ls;
  }

  lemma LeaveConserves(c: Context) returns (ls: seq<string>)
    requires c.state != ExpectBody && Step(c).1.Some?
    ensures Parse(c).ctx.request.body == c.request.body + ""
    ensures Splits(c.unread, ls, "", Parse(c).ctx.unread)
  {
    hide Splits, HasColon, WithHeaderLine;
    var rest := Step(c).0.unread;
    BodyKept(c);
    if rest == c.unread {
      ls := [];
      NothingTaken(rest);
    } else {
      ls := LineConserves(c.unread);
    }
  }

  lemma BodyKept(c: Context)
    requires c.state != ExpectBody
    ensures Step(c).0.request.body == c.request.body == c.request.body + ""
  {
    EmptyIsUnit(c.request.body);
  }

  lemma NothingTaken(s: string)
    ensures Splits(s, [], "", s)
  {
    SplitsWithoutLines("", s);
    EmptyIsUnit(s);
  }

  lemma LineConserves(s: string) returns (ls: seq<string>)
    requires FindCrlf(s).Some?
    ensures Splits(s, ls, "", s[FindCrlf(s).value + 2..])
  {
    hide Splits;
    var rest := s[FindCrlf(s).value + 2..];
    var line := CutLine(s);
    NothingTaken(rest);
    SplitsAddLine(s, line, rest, [], "", rest);
    ls := [line] + [];
  }

  lemma BodyConserves(c: Context) returns (piece: string)
    requires c.state == ExpectBody
    ensures Parse(c).ctx.request.body == c.request.body + piece
    ensures Splits(c.unread, [], piece, Parse(c).ctx.unread)
  {
    var rest := StepBody(c).0.unread;
    piece := c.unread[..|c.unread| - |rest|];
    SplitsWithoutLines(piece, rest);
    assert c.unread == piece + rest;
    if RemainingBody(c.request).None? {
      EmptyIsUnit(c.request.body);
    }
  }

  /** From the start of a request: lines ++ body ++ unread bytes = everything received. */
  lemma FeedConserves(pieces: seq<string>) returns (ls: seq<string>)
    requires pieces != []
    ensures var c := Feed(Fresh(""), pieces).ctx;
            Concat(pieces) == Lines(ls) + c.request.body + c.unread
    ensures forall i :: 0 <= i < |ls| ==> NoCrlf(ls[i])
  {
    Confluence(Fresh(""), pieces);
    EmptyIsUnit(Concat(pieces));
    var piece;
    ls, piece := ParseConserves(Fresh(Concat(pieces)));
    EmptyIsUnit(piece);
  }
}
