/** What Python 3's `str` makes of a bytes object: its literal, as in b'a\n', here as the
    ASCII codes that go to stdout. */
module PythonText {
  import opened Bytes
  import opened Pieces

  const TAB: Byte := 9
  const LINE_FEED: Byte := 10
  const RETURN: Byte := 13
  const DOUBLE_QUOTE: Byte := 34
  const QUOTE: Byte := 39
  const BACKSLASH: Byte := 92
  const LETTER_B: Byte := 98
  const LETTER_N: Byte := 110
  const LETTER_R: Byte := 114
  const LETTER_T: Byte := 116
  const LETTER_X: Byte := 120

  /** Double quotes only around text that holds a single quote and no double one. */
  function QuoteFor(data: seq<Byte>): Byte {
    if QUOTE in data && DOUBLE_QUOTE !in data then DOUBLE_QUOTE else QUOTE
  }

  function HexDigit(d: int): Byte
    requires 0 <= d < 16
  {
    if d < 10 then 48 + d else 87 + d
  }

  function Escaped(b: Byte, quote: Byte): (s: seq<Byte>)
    ensures s != []
  {
    if b == quote || b == BACKSLASH then [BACKSLASH, b]
    else if b == TAB then [BACKSLASH, LETTER_T]
    else if b == LINE_FEED then [BACKSLASH, LETTER_N]
    else if b == RETURN then [BACKSLASH, LETTER_R]
    else if b < 32 || b >= 127 then [BACKSLASH, LETTER_X, HexDigit(b / 16), HexDigit(b % 16)]
    else [b]
  }

  function Body(data: seq<Byte>, quote: Byte): seq<Byte> {
    if data == [] then [] else Escaped(data[0], quote) + Body(data[1..], quote)
  }

  /** str(data) */
  function Shown(data: seq<Byte>): seq<Byte> {
    var quote := QuoteFor(data);
    [LETTER_B, quote] + (Body(data, quote) + [quote])
  }

  /** The literals behind one another. */
  function Printed(pieces: seq<seq<Byte>>): seq<Byte> {
    if pieces == [] then [] else Shown(pieces[0]) + Printed(pieces[1..])
  }

  // ----- never the bytes themselves -----

  lemma {:induction false} BodyLonger(data: seq<Byte>, quote: Byte)
    ensures |Body(data, quote)| >= |data|
  {
    if data != [] {
      BodyLonger(data[1..], quote);
    }
  }

  /** What is printed is the bytes themselves only if there are none. */
  lemma {:induction false} PrintedLonger(pieces: seq<seq<Byte>>)
    ensures |Printed(pieces)| >= |Concat(pieces)| + 3 * |pieces|
  {
    if pieces != [] {
      BodyLonger(pieces[0], QuoteFor(pieces[0]));
      PrintedLonger(pieces[1..]);
      ConcatFront(pieces);
    }
  }

  // ----- but they can be told from it -----

  function DigitValue(d: Byte): int {
    if d < 58 then d - 48 else d - 87
  }

  /** The byte whose escaped form `s` starts with. */
  function Unescaped(s: seq<Byte>): int {
    if s == [] then -1
    else if s[0] != BACKSLASH then s[0]
    else if |s| == 1 then -1
    else if s[1] == LETTER_T then TAB
    else if s[1] == LETTER_N then LINE_FEED
    else if s[1] == LETTER_R then RETURN
    else if s[1] == LETTER_X && |s| >= 4 then DigitValue(s[2]) * 16 + DigitValue(s[3])
    else s[1]
  }

  predicate IsHex(d: Byte) {
    '0' as int <= d <= '9' as int || 'a' as int <= d <= 'f' as int
  }

  /** Printable ASCII stands for itself, but for the quote around it and the backslash; these,
      tab, line feed and return take two bytes, and all others four, in lower-case hex. */
  lemma EscapedForms(b: Byte, quote: Byte)
    requires IsQuote(quote)
    ensures var e, own := Escaped(b, quote), 32 <= b < 127 && b != quote && b != BACKSLASH;
            && (e == [b] <==> own) && (|e| == 1 <==> own) && (!own ==> e[0] == BACKSLASH)
            && (|e| == 2 <==> b in [quote, BACKSLASH, TAB, LINE_FEED, RETURN])
            && (|e| > 2 ==> |e| == 4 && e[1] == LETTER_X && IsHex(e[2]) && IsHex(e[3]))
  {
  }

  /** The literal is a b and, in quotes, the bytes one after the other; the quotes are double
      ones exactly around text that holds a single quote and no double one. */
  lemma ShownForm(a: seq<Byte>, b: seq<Byte>)
    ensures var s := Shown(a);
            && |s| >= 3 && s[0] == LETTER_B && s[1] == s[|s| - 1] && IsQuote(s[1]) && s[2..|s| - 1] == Body(a, s[1])
            && (s[1] == DOUBLE_QUOTE <==> QUOTE in a && DOUBLE_QUOTE !in a)
    ensures forall quote :: Body(a + b, quote) == Body(a, quote) + Body(b, quote)
    ensures forall quote :: |b| == 1 ==> Body(b, quote) == Escaped(b[0], quote)
  {
    hide Escaped;
    forall quote
      ensures Body(a + b, quote) == Body(a, quote) + Body(b, quote)
    {
      BodyAppend(a, b, quote);
    }
    forall quote | |b| == 1
      ensures Body(b, quote) == Escaped(b[0], quote)
    {
      assert b[1..] == [] && Body(b[1..], quote) == [];
    }
  }

  lemma {:induction false} BodyAppend(a: seq<Byte>, b: seq<Byte>, quote: Byte)
    ensures Body(a + b, quote) == Body(a, quote) + Body(b, quote)
    decreases |a|
  {
    hide Escaped;
    if a == [] {
      assert a + b == b;
    } else {
      assert (a + b)[1..] == a[1..] + b;
      BodyAppend(a[1..], b, quote);
    }
  }

  predicate IsQuote(b: Byte) {
    b == QUOTE || b == DOUBLE_QUOTE
  }

  lemma EscapedReadBack(b: Byte, quote: Byte, rest: seq<Byte>)
    requires IsQuote(quote)
    ensures Unescaped(Escaped(b, quote) + rest) == b
    ensures (Escaped(b, quote) + rest)[0] != quote
  {
    assert b == b / 16 * 16 + b % 16;
    var s := Escaped(b, quote) + rest;
    assert s[0] == Escaped(b, quote)[0];
  }

  /** A body, its closing quote and what follows. */
  function Closed(data: seq<Byte>, quote: Byte, rest: seq<Byte>): (s: seq<Byte>)
    ensures s != []
  {
    Body(data, quote) + ([quote] + rest)
  }

  lemma ClosedEmpty(quote: Byte, rest: seq<Byte>)
    ensures Closed([], quote, rest) == [quote] + rest
  {
  }

  lemma ClosedCons(data: seq<Byte>, quote: Byte, rest: seq<Byte>)
    requires data != []
    ensures Closed(data, quote, rest) == Escaped(data[0], quote) + Closed(data[1..], quote, rest)
  {
    hide Escaped;
    var e, b := Escaped(data[0], quote), Body(data[1..], quote);
    assert e + b + ([quote] + rest) == e + (b + ([quote] + rest));
  }

  lemma {:induction false} BodyReadBack(a: seq<Byte>, b: seq<Byte>, quote: Byte, x: seq<Byte>, y: seq<Byte>)
    requires IsQuote(quote) && Closed(a, quote, x) == Closed(b, quote, y)
    ensures a == b && x == y
    decreases |a|
  {
    hide Escaped, Unescaped, Closed;
    BodyStart(a, quote, x);
    BodyStart(b, quote, y);
    if a != [] && b != [] {
      SameTail(Escaped(a[0], quote), Closed(a[1..], quote, x), Closed(b[1..], quote, y));
      BodyReadBack(a[1..], b[1..], quote, x, y);
      assert a == [a[0]] + a[1..] && b == [b[0]] + b[1..];
    } else {
      SameTail([quote], x, y);
    }
  }

  /** It starts with the closing quote exactly if there is nothing between the quotes. */
  lemma BodyStart(data: seq<Byte>, quote: Byte, rest: seq<Byte>)
    requires IsQuote(quote)
    ensures Closed(data, quote, rest)[0] == quote <==> data == []
    ensures data == [] ==> Closed(data, quote, rest) == [quote] + rest
    ensures data != [] ==>
              Unescaped(Closed(data, quote, rest)) == data[0] &&
              Closed(data, quote, rest) == Escaped(data[0], quote) + Closed(data[1..], quote, rest)
  {
    hide Escaped, Unescaped, Closed;
    if data == [] {
      ClosedEmpty(quote, rest);
    } else {
      ClosedCons(data, quote, rest);
      EscapedReadBack(data[0], quote, Closed(data[1..], quote, rest));
    }
  }

  lemma SameTail(e: seq<Byte>, x: seq<Byte>, y: seq<Byte>)
    requires e + x == e + y
    ensures x == y
  {
    assert x == (e + x)[|e|..] && y == (e + y)[|e|..];
  }

  /** The printed text determines which pieces were printed. */
  lemma {:induction false} PrintedReadBack(ps: seq<seq<Byte>>, qs: seq<seq<Byte>>)
    requires Printed(ps) == Printed(qs)
    ensures ps == qs
  {
    if ps != [] && qs != [] {
      FirstReadBack(ps[0], qs[0], Printed(ps[1..]), Printed(qs[1..]));
      PrintedReadBack(ps[1..], qs[1..]);
      assert ps == [ps[0]] + ps[1..] && qs == [qs[0]] + qs[1..];
    } else {
      PrintedLonger(ps);
      PrintedLonger(qs);
    }
  }

  lemma FirstReadBack(p: seq<Byte>, q: seq<Byte>, x: seq<Byte>, y: seq<Byte>)
    requires Shown(p) + x == Shown(q) + y
    ensures p == q && x == y
  {
    hide Body;
    var s, quote := Shown(p) + x, QuoteFor(p);
    assert s[1] == quote && (Shown(q) + y)[1] == QuoteFor(q);
    assert s == [LETTER_B, quote] + Closed(p, quote, x);
    assert s == [LETTER_B, quote] + Closed(q, quote, y);
    SameTail([LETTER_B, quote], Closed(p, quote, x), Closed(q, quote, y));
    BodyReadBack(p, q, quote, x, y);
  }
}
