/** Rendering a request and parsing it gives back every component. */
module HttpRoundTrip {
  import opened Pieces
  import opened TextSearch
  import opened HttpRequests
  import opened HttpContexts
  import opened HttpConfluence
  import opened HttpGrammar
  import Decimal

  /** A header field as in section 4.2 of RFC 2616: white space may surround the value. */
  datatype Field = Field(name: string, lead: string, value: string, trail: string) {
    function Line(): string {
      name + [':'] + (lead + value + trail)
    }

    predicate Valid() {
      && ':' !in name && NoCrlf(Line())
      && AllSpace(lead) && AllSpace(trail) && Trimmed(value)
    }
  }

  datatype Rendered = Rendered(
    method_: Method, path: string, query: string, version: Version, fields: seq<Field>, body: string)

  function FieldMap(fields: seq<Field>): map<string, string> {
    if fields == [] then map[]
    else var last := |fields| - 1; FieldMap(fields[..last])[fields[last].name := fields[last].value]
  }

  predicate DistinctNames(fields: seq<Field>) {
    forall i, j :: 0 <= i < j < |fields| ==> fields[i].name != fields[j].name
  }

  /** With distinct names, the map holds each field's value and nothing else. */
  lemma {:induction false} FieldMapExact(fields: seq<Field>)
    requires DistinctNames(fields)
    ensures forall i :: 0 <= i < |fields| ==> GetHeader(FieldMap(fields), fields[i].name) == fields[i].value
    ensures forall name :: (forall i :: 0 <= i < |fields| ==> fields[i].name != name)
                           ==> GetHeader(FieldMap(fields), name) == ""
  {
    if fields != [] {
      var last := |fields| - 1;
      var front := fields[..last];
      FieldMapExact(front);
      forall i | 0 <= i < |fields|
        ensures GetHeader(FieldMap(fields), fields[i].name) == fields[i].value
      {
        if i < last {
          assert front[i] == fields[i] && fields[i].name != fields[last].name;
          assert GetHeader(FieldMap(front), front[i].name) == front[i].value;
        }
        assert GetHeader(FieldMap(fields), fields[i].name) == fields[i].value;
      }
      forall name | forall i :: 0 <= i < |fields| ==> fields[i].name != name
        ensures GetHeader(FieldMap(fields), name) == ""
      {
        assert fields[last].name != name;
        assert forall i :: 0 <= i < |front| ==> front[i] == fields[i];
        assert GetHeader(FieldMap(front), name) == "";
      }
    }
  }

  ghost predicate WellFormed(q: Rendered) {
    && q.method_ != Invalid && q.version != Unknown && IsTarget(q.path, q.query)
    && NoCrlf(RequestLine(q.method_, q.path, q.query, q.version))
    && (forall i :: 0 <= i < |q.fields| ==> q.fields[i].Valid())
    && DistinctNames(q.fields)
    && LengthAnnounced(q)
  }

  /** Content-Length is the decimal length of the body; without it there is no body. */
  ghost predicate LengthAnnounced(q: Rendered) {
    || (exists i :: 0 <= i < |q.fields| && q.fields[i].name == CONTENT_LENGTH &&
                    q.fields[i].value == Decimal.Text(|q.body|) && |q.body| <= SSIZE_MAX)
    || (q.body == "" && forall i :: 0 <= i < |q.fields| ==> q.fields[i].name != CONTENT_LENGTH)
  }

  function FieldLines(fields: seq<Field>): seq<string> {
    seq(|fields|, i requires 0 <= i < |fields| => fields[i].Line())
  }

  function MessageOf(q: Rendered): Message {
    Message(RequestLine(q.method_, q.path, q.query, q.version), FieldLines(q.fields), "", q.body)
  }

  lemma FieldRead(f: Field, r: Request)
    requires f.Valid()
    ensures IsHeader(f.Line())
    ensures WithHeaderLine(r, f.Line()) == r.(headers := r.headers[f.name := f.value])
  {
    var line, padded := f.Line(), f.lead + f.value + f.trail;
    SplitAtFirst(f.name, ':', padded);
    assert line[|f.name|] == ':';
    TrimOfPadded(f.lead, f.value, f.trail);
  }

  lemma {:induction false} AddLastHeader(r: Request, headers: seq<string>, line: string)
    requires forall i :: 0 <= i < |headers| ==> IsHeader(headers[i])
    requires IsHeader(line)
    ensures AddHeaders(r, headers + [line]) ==
            WithHeaderLine(AddHeaders(r, headers), line)
    decreases |headers|
  {
    if headers == [] {
      assert headers + [line] == [line];
      assert AddHeaders(r, [line]) == AddHeaders(WithHeaderLine(r, line), [line][1..]);
    } else {
      assert (headers + [line])[1..] == headers[1..] + [line];
      AddLastHeader(WithHeaderLine(r, headers[0]), headers[1..], line);
    }
  }

  lemma {:induction false} FieldsRead(r: Request, fields: seq<Field>)
    requires forall i :: 0 <= i < |fields| ==> fields[i].Valid()
    requires r.headers == map[]
    ensures forall i :: 0 <= i < |fields| ==> IsHeader(FieldLines(fields)[i])
    ensures AddHeaders(r, FieldLines(fields)) == r.(headers := FieldMap(fields))
  {
    hide WithHeaderLine, IsHeader;
    if fields != [] {
      var last := |fields| - 1;
      var front := fields[..last];
      FieldsRead(r, front);
      FieldRead(fields[last], AddHeaders(r, FieldLines(front)));
      AddLastHeader(r, FieldLines(front), fields[last].Line());
      assert FieldLines(fields) == FieldLines(front) + [fields[last].Line()];
    }
  }

  /** Round trip: whatever follows, and however the bytes are cut into reads, parsing the
      rendering of a well-formed request ends with got_all, holds each component again,
      and has consumed exactly the rendered bytes. */
  lemma RoundTrip(q: Rendered, rest: string, pieces: seq<string>)
    requires WellFormed(q) && pieces != [] && Concat(pieces) == Text(MessageOf(q)) + rest
    ensures var r := Feed(Fresh(""), pieces);
            r.outcome == Accepted && r.ctx.state == GotAll && r.ctx.unread == rest &&
            r.ctx.request == RequestOf(q)
  {
    Confluence(Fresh(""), pieces);
    assert "" + Concat(pieces) == Concat(pieces);
    RoundTripAtOnce(q, rest);
  }

  lemma RoundTripAtOnce(q: Rendered, rest: string)
    requires WellFormed(q)
    ensures Parsed(Text(MessageOf(q)) + rest, RequestOf(q), rest)
  {
    hide FirstLine, RequestLine, Lines, Parse, FieldMap, AddHeaders;
    var first := FirstLine(NEW_REQUEST, RequestLine(q.method_, q.path, q.query, q.version)).0;
    RequestLineAccepted(q.method_, q.path, q.query, q.version);
    FieldsRead(first, q.fields);
    AnnouncedIsRead(q, AddHeaders(first, FieldLines(q.fields)));
    ParseComplete(MessageOf(q), rest);
  }

  function RequestOf(q: Rendered): Request {
    Request(q.method_, q.path, q.query, q.body, q.version, FieldMap(q.fields))
  }

  // ----- requests behind one another -----

  /** The requests taken so far, the parser, and what the last call of parse_request said. */
  datatype Served = Served(requests: seq<Request>, ctx: Context, outcome: Outcome) {
    function Then(next: Served): Served {
      next.(requests := requests + next.requests)
    }
  }

  /** Parse, take the request, reset, and go on with the bytes left over, as long as a request
      is complete. (The servers of the repository take at most one request from each read and
      leave a further one in the buffer until the next read.) */
  function Drain(c: Context): Served
    decreases |c.unread|, if c.state == ExpectRequestLine then 0 else 1
  {
    var r := Parse(c);
    ParseShrinks(c);
    if r.outcome == Accepted && r.ctx.state == GotAll
      then Served([r.ctx.request], r.ctx, r.outcome).Then(Drain(Fresh(r.ctx.unread)))
    else Served([], r.ctx, r.outcome)
  }

  lemma {:induction false} ParseShrinks(c: Context)
    ensures |Parse(c).ctx.unread| <= |c.unread|
    ensures c.state == ExpectRequestLine && Parse(c).ctx.state == GotAll ==> |Parse(c).ctx.unread| < |c.unread|
    decreases |c.unread|
  {
    hide FirstLine, WithHeaderLine, HasLength;
    if Step(c).1.None? {
      ParseShrinks(Step(c).0);
    }
  }

  /** Read after read, each of them drained. */
  function Serve(c: Context, pieces: seq<string>): Served
    requires pieces != []
  {
    var last := |pieces| - 1;
    if last == 0 then Drain(c.Append(pieces[0]))
    else
      var s := Serve(c, pieces[..last]);
      s.Then(Drain(s.ctx.Append(pieces[last])))
  }

  lemma {:induction false} DrainResumes(c: Context, more: string)
    ensures var s := Drain(c);
            s.Then(Drain(s.ctx.Append(more))) == Drain(c.Append(more))
    decreases |c.unread|, if c.state == ExpectRequestLine then 0 else 1
  {
    hide Step;
    var r := Parse(c);
    ParseShrinks(c);
    ParseResumes(c, more);
    if r.outcome == Accepted && r.ctx.state == GotAll {
      GotAllStays(r.ctx.Append(more));
      var rest := Fresh(r.ctx.unread);
      DrainResumes(rest, more);
      FirstTaken(c, r.ctx);
      FirstTaken(c.Append(more), r.ctx.Append(more));
      Regroup([r.ctx.request], Drain(rest).requests, Drain(Drain(rest).ctx.Append(more)).requests);
    } else {
      DrainByParse(r.ctx.Append(more), c.Append(more));
      NothingThen(r.ctx, r.outcome, Drain(c.Append(more)));
    }
  }

  lemma GotAllStays(c: Context)
    requires c.state == GotAll
    ensures Parse(c) == Result(c, Accepted)
  {
  }

  lemma FirstTaken(c: Context, d: Context)
    requires Parse(c) == Result(d, Accepted) && d.state == GotAll
    ensures Drain(c) == Drain(Fresh(d.unread)).(requests := [d.request] + Drain(Fresh(d.unread)).requests)
  {
  }

  lemma DrainByParse(c: Context, d: Context)
    requires Parse(c) == Parse(d)
    ensures Drain(c) == Drain(d)
  {
    hide Parse;
  }

  lemma NothingThen(c: Context, outcome: Outcome, next: Served)
    ensures Served([], c, outcome).Then(next) == next
  {
    assert [] + next.requests == next.requests;
  }

  lemma Regroup(a: seq<Request>, b: seq<Request>, c: seq<Request>)
    ensures a + b + c == a + (b + c)
  {
  }

  /** For any bytes and any split, the requests taken and what is left are those of one read.
      This is about reads that are drained; with one request from each read it would not hold. */
  lemma {:induction false} ServeConfluence(c: Context, pieces: seq<string>)
    requires pieces != []
    ensures Serve(c, pieces) == Drain(c.Append(Concat(pieces)))
  {
    hide Drain;
    var last := |pieces| - 1;
    var front := pieces[..last];
    AppendTwice(c, Concat(front), pieces[last]);
    if last == 0 {
      assert Concat(front) == "";
      EmptyIsUnit(pieces[0]);
    } else {
      ServeConfluence(c, front);
      DrainResumes(c.Append(Concat(front)), pieces[last]);
    }
  }

  function AllText(qs: seq<Rendered>): string {
    if qs == [] then "" else Text(MessageOf(qs[0])) + AllText(qs[1..])
  }

  function RequestsOf(qs: seq<Rendered>): seq<Request> {
    if qs == [] then [] else [RequestOf(qs[0])] + RequestsOf(qs[1..])
  }

  lemma RestBehind(a: string, b: string, c: string)
    ensures a + b + c == a + (b + c)
  {
  }

  lemma {:induction false} AllDrained(qs: seq<Rendered>, rest: string)
    requires forall i :: 0 <= i < |qs| ==> WellFormed(qs[i])
    ensures Drain(Fresh(AllText(qs) + rest)) ==
            Drain(Fresh(rest)).(requests := RequestsOf(qs) + Drain(Fresh(rest)).requests)
  {
    hide Drain, MessageOf, Text, RequestOf, WellFormed;
    if qs == [] {
      EmptyIsUnit(rest);
      assert [] + Drain(Fresh(rest)).requests == Drain(Fresh(rest)).requests;
    } else {
      var behind := AllText(qs[1..]) + rest;
      RestBehind(Text(MessageOf(qs[0])), AllText(qs[1..]), rest);
      RoundTripAtOnce(qs[0], behind);
      AllDrained(qs[1..], rest);
      FirstTaken(Fresh(AllText(qs) + rest), Context(GotAll, RequestOf(qs[0]), behind));
      Regroup([RequestOf(qs[0])], RequestsOf(qs[1..]), Drain(Fresh(rest)).requests);
    }
  }

  /** Requests sent behind one another on a connection, cut into reads in any way, are read
      back one by one with a reset between them, and the bytes behind them are left to what
      comes next. */
  lemma Pipeline(qs: seq<Rendered>, rest: string, pieces: seq<string>)
    requires forall i :: 0 <= i < |qs| ==> WellFormed(qs[i])
    requires pieces != [] && Concat(pieces) == AllText(qs) + rest
    ensures var behind := Drain(Fresh(rest));
            Serve(Fresh(""), pieces) == behind.(requests := RequestsOf(qs) + behind.requests)
  {
    hide Drain, Serve;
    ServeConfluence(Fresh(""), pieces);
    EmptyIsUnit(Concat(pieces));
    AllDrained(qs, rest);
  }

  /** Field names are matched letter by letter, which section 4.2 of RFC 2616 does not ask
      for: among any fields, a length is honoured exactly under the one spelling. */
  lemma LengthHonoured(r: Request, fields: seq<Field>, i: nat, n: nat)
    requires DistinctNames(fields) && r.headers == FieldMap(fields)
    requires i < |fields| && fields[i].value == Decimal.Text(n) && n <= SSIZE_MAX
    ensures fields[i].name == CONTENT_LENGTH ==> BodyLength(r) == n
    ensures (forall k :: 0 <= k < |fields| ==> fields[k].name != CONTENT_LENGTH) ==> BodyLength(r) == 0
  {
    FieldMapExact(fields);
    LexicalCastOfText(n);
  }

  /** A request that announces a negative length stops the process, whatever else it says. */
  lemma NegativeLengthStops(m: Method, path: string, query: string, v: Version, n: nat, behind: string)
    requires m != Invalid && v != Unknown && IsTarget(path, query) && NoCrlf(RequestLine(m, path, query, v))
    requires 0 < n <= SSIZE_MAX
    ensures var line := CONTENT_LENGTH + [':'] + (" " + (['-'] + Decimal.Text(n)) + "");
            StartsNegative(Text(Message(RequestLine(m, path, query, v), [line], "", "")) + behind)
  {
    hide FirstLine, RequestLine, IsTarget, Text, HeadText;
    var f := Field(CONTENT_LENGTH, " ", ['-'] + Decimal.Text(n), "");
    var message := Message(RequestLine(m, path, query, v), [f.Line()], "", "");
    var first := FirstLine(NEW_REQUEST, message.first).0;
    NegativeField(f, n);
    RequestLineAccepted(m, path, query, v);
    FieldRead(f, first);
    assert [f.Line()][1..] == [];
    assert AddHeaders(first, [f.Line()]) == WithHeaderLine(first, f.Line());
    NegativeRead(WithHeaderLine(first, f.Line()), f, n);
    assert Text(message) <= Text(message) + behind;
  }

  lemma NegativeField(f: Field, n: nat)
    requires f == Field(CONTENT_LENGTH, " ", ['-'] + Decimal.Text(n), "")
    ensures f.Valid()
  {
    var digits := Decimal.Text(n);
    Decimal.DigitsOnly(digits, '\r');
    assert '\r' !in CONTENT_LENGTH && ':' !in CONTENT_LENGTH;
    assert '\r' !in f.Line();
    forall i | 0 <= i < |f.Line()|
      ensures !CrlfAt(f.Line(), i)
    {
      assert f.Line()[i] in f.Line();
    }
    assert Decimal.IsDigit(digits[|digits| - 1]);
  }

  lemma NegativeRead(r: Request, f: Field, n: nat)
    requires 0 < n <= SSIZE_MAX && f.name == CONTENT_LENGTH && f.value == ['-'] + Decimal.Text(n)
    requires f.name in r.headers && r.headers[f.name] == f.value
    ensures BodyLength(r) + n == 0
  {
    assert f.value[1..] == Decimal.Text(n);
    Decimal.ValueOfText(n);
  }

  lemma AnnouncedIsRead(q: Rendered, r: Request)
    requires DistinctNames(q.fields) && LengthAnnounced(q) && r.headers == FieldMap(q.fields)
    ensures BodyLength(r) == |q.body|
  {
    FieldMapExact(q.fields);
    if i :| 0 <= i < |q.fields| && q.fields[i].name == CONTENT_LENGTH &&
            q.fields[i].value == Decimal.Text(|q.body|) && |q.body| <= SSIZE_MAX {
      LexicalCastOfText(|q.body|);
    }
  }
}
