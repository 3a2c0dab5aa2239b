/** http/http_request.h: the request object that the parser fills field by field. */
module HttpRequests {
  import opened Pieces
  import opened TextSearch
  import Decimal

  datatype Method = Invalid | Get | Post | Head | Put | Delete

  datatype Version = Unknown | Http10 | Http11

  /** The value of a request object at one moment. */
  datatype Request = Request(
    method_: Method, path: string, query: string, body: string, version: Version,
    headers: map<string, string>)

  const NEW_REQUEST := Request(Invalid, "", "", "", Unknown, map[])

  const CONTENT_LENGTH := "Content-Length"

  const SSIZE_MAX := 0x7FFF_FFFF_FFFF_FFFF

  function MethodOf(name: string): Method {
    if name == "GET" then Get
    else if name == "POST" then Post
    else if name == "HEAD" then Head
    else if name == "PUT" then Put
    else if name == "DELETE" then Delete
    else Invalid
  }

  function MethodName(m: Method): string {
    match m
    case Get => "GET"
    case Post => "POST"
    case Head => "HEAD"
    case Put => "PUT"
    case Delete => "DELETE"
    case Invalid => "INVALID"
  }

  /** `set_method` and `method_str` are inverse on everything the parser accepts. */
  lemma MethodNameRoundTrip(name: string, m: Method)
    ensures MethodOf(name) != Invalid ==> MethodName(MethodOf(name)) == name
    ensures MethodOf(MethodName(m)) == m
  {
    assert "INVALID"[0] == 'I';
  }

  /** Methods are upper case and known by five names. */
  lemma MethodOfExact(name: string)
    ensures MethodOf(name) == Get <==> name == "GET"
    ensures MethodOf(name) == Post <==> name == "POST"
    ensures MethodOf(name) == Head <==> name == "HEAD"
    ensures MethodOf(name) == Put <==> name == "PUT"
    ensures MethodOf(name) == Delete <==> name == "DELETE"
  {
  }

  function GetHeader(headers: map<string, string>, field: string): string {
    if field in headers then headers[field] else ""
  }

  /** lexical_cast<ssize_t>: an optional sign and at least one digit, nothing else;
      None where it throws bad_lexical_cast. */
  function LexicalCast(s: string): Option<int> {
    var minus := s != [] && s[0] == '-';
    var digits := if s != [] && s[0] in "+-" then s[1..] else s;
    if digits == [] || !Decimal.AllDigits(digits) then None
    else
      var n: int := Decimal.Value(digits);
      if n > SSIZE_MAX + (if minus then 1 else 0) then None
      else Some(if minus then -n else n)
  }

  function ExpectedLength(headers: map<string, string>): int {
    match LexicalCast(GetHeader(headers, CONTENT_LENGTH))
    case Some(n) => n
    case None => 0
  }

  /** The decimal text of any length that fits is read back as that length. */
  lemma LexicalCastOfText(n: nat)
    requires n <= SSIZE_MAX
    ensures LexicalCast(Decimal.Text(n)) == Some(n)
  {
    var s := Decimal.Text(n);
    Decimal.ValueOfText(n);
    assert Decimal.IsDigit(s[0]);
  }

  /** An optional sign and digits that denote `n`, a number within ssize_t. */
  predicate Numeral(s: string, sign: string, digits: string, n: int) {
    && s == sign + digits && Decimal.IsSign(sign) && digits != "" && Decimal.AllDigits(digits)
    && n == (if sign == "-" then 0 - Decimal.Value(digits) else Decimal.Value(digits))
    && -SSIZE_MAX - 1 <= n <= SSIZE_MAX
  }

  lemma LexicalCastExact(s: string, n: int)
    ensures LexicalCast(s) == Some(n) <==> exists sign: string, digits: string :: Numeral(s, sign, digits, n)
  {
    if LexicalCast(s) == Some(n) {
      var sign := if s[0] in "+-" then s[..1] else "";
      assert s == sign + s[|sign|..];
      assert Numeral(s, sign, s[|sign|..], n);
    }
    forall sign: string, digits: string | Numeral(s, sign, digits, n)
      ensures LexicalCast(s) == Some(n)
    {
      assert Decimal.IsDigit(digits[0]);
      assert s[|sign|..] == digits;
    }
  }

  /** The announced length is the number in the header, and 0 if there is none or it is no number. */
  lemma ExpectedLengthExact(headers: map<string, string>, value: string, n: int)
    requires GetHeader(headers, CONTENT_LENGTH) == value
    ensures (exists sign: string, digits: string :: Numeral(value, sign, digits, n)) ==> ExpectedLength(headers) == n
    ensures (forall m: int, sign: string, digits: string :: !Numeral(value, sign, digits, m)) ==>
              ExpectedLength(headers) == 0
  {
    LexicalCastExact(value, n);
    if LexicalCast(value).Some? {
      LexicalCastExact(value, LexicalCast(value).value);
    }
  }

  /** `line[..colon]` names the field; what is left of the value once white space
      is cut off both its ends replaces any earlier value of that field. */
  function WithHeader(r: Request, line: string, colon: nat): Request
    requires colon < |line|
  {
    r.(headers := r.headers[line[..colon] := Trim(line[colon + 1..])])
  }

  /** How much of the announced body is still to come; None when more has arrived than announced. */
  function RemainingBody(r: Request): Option<nat> {
    var expected := ExpectedLength(r.headers);
    if expected < |r.body| then None else Some(expected - |r.body|)
  }

  class HttpRequest {
    var method_: Method
    var path: string
    var query: string
    var body: string
    var version: Version
    var headers: map<string, string>

    ghost function View(): Request
      reads this
    {
      Request(method_, path, query, body, version, headers)
    }

    constructor ()
      ensures View() == NEW_REQUEST
    {
      method_, path, query, body, version, headers := Invalid, "", "", "", Unknown, map[];
    }

    method SetMethod(m: string) returns (ok: bool)
      modifies this
      ensures View() == old(View()).(method_ := MethodOf(m))
      ensures ok <==> m in {"GET", "POST", "HEAD", "PUT", "DELETE"}
      ensures ok <==> MethodOf(m) != Invalid
    {
      if m == "GET" {
        method_ := Get;
      } else if m == "POST" {
        method_ := Post;
      } else if m == "HEAD" {
        method_ := Head;
      } else if m == "PUT" {
        method_ := Put;
      } else if m == "DELETE" {
        method_ := Delete;
      } else {
        method_ := Invalid;
      }
      return method_ != Invalid;
    }

    method AddHeader(line: string, colon: nat)
      requires colon < |line|
      modifies this
      ensures View() == WithHeader(old(View()), line, colon)
    {
      var start := SkipSpace(line, colon + 1);
      var value := DropTrailingSpace(line[start..]);
      headers := headers[line[..colon] := value];
    }

    static method SkipSpace(line: string, from: nat) returns (start: nat)
      requires from <= |line|
      ensures from <= start <= |line| && line[start..] == TrimLeft(line[from..])
    {
      start := from;
      while start < |line| && IsSpace(line[start])
        invariant from <= start <= |line|
        invariant TrimLeft(line[start..]) == TrimLeft(line[from..])
      {
        assert line[start..][1..] == line[start + 1..];
        start := start + 1;
      }
    }

    static method DropTrailingSpace(text: string) returns (value: string)
      ensures value == TrimRight(text)
    {
      value := text;
      while value != [] && IsSpace(value[|value| - 1])
        invariant TrimRight(value) == TrimRight(text)
      {
        value := value[..|value| - 1];
      }
    }

    /** get_remain_body_len; None where its assert fails and stops the process. */
    method GetRemainBodyLen() returns (r: Option<nat>)
      ensures r == RemainingBody(View())
    {
      var expected := ExpectedLength(headers);
      if expected < |body| {
        return None;
      }
      return Some(expected - |body|);
    }

    method AppendBody(piece: string)
      modifies this
      ensures View() == old(View()).(body := old(body) + piece)
    {
      body := body + piece;
    }
  }
}
