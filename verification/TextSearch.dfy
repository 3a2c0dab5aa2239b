/** Searching and scanning of character buffers: what the HTTP parser and the
    memcached session take from std::find, muduo's findCRLF and isspace. */
module TextSearch {
  import opened Pieces

  const CRLF := "\r\n"

  lemma EmptyIsUnit(s: string)
    ensures "" + s == s && s + "" == s
  {
  }

  /** Index of the first `c` in `s`, or |s|: std::find. */
  function Find(s: string, c: char): (i: nat)
    ensures i <= |s|
    ensures i < |s| ==> s[i] == c
    ensures forall j :: 0 <= j < i ==> s[j] != c
  {
    if s == [] || s[0] == c then 0 else 1 + Find(s[1..], c)
  }

  /** A carriage return at `i` with a line feed right behind it. */
  predicate CrlfAt(s: string, i: int) {
    0 <= i < |s| - 1 && s[i] == '\r' && s[i + 1] == '\n'
  }

  predicate NoCrlf(s: string) {
    forall i :: 0 <= i < |s| ==> !CrlfAt(s, i)
  }

  /** Buffer::findCRLF(start): the first line end at or behind `from`. */
  function FindCrlfFrom(s: string, from: nat): (r: Option<nat>)
    requires from <= |s|
    ensures r.None? ==> forall i :: from <= i ==> !CrlfAt(s, i)
    ensures r.Some? ==> from <= r.value && CrlfAt(s, r.value)
    ensures r.Some? ==> forall i :: from <= i < r.value ==> !CrlfAt(s, i)
    decreases |s| - from
  {
    if CrlfAt(s, from) then Some(from)
    else if from == |s| then None
    else FindCrlfFrom(s, from + 1)
  }

  function FindCrlf(s: string): (r: Option<nat>)
    ensures r.None? <==> NoCrlf(s)
    ensures r.Some? ==> CrlfAt(s, r.value) && NoCrlf(s[..r.value])
    ensures r.Some? ==> forall i :: 0 <= i < r.value ==> !CrlfAt(s, i)
  {
    var r := FindCrlfFrom(s, 0);
    assert r.Some? ==> forall i :: 0 <= i < r.value && CrlfAt(s[..r.value], i) ==> CrlfAt(s, i);
    r
  }

  /** A line end that is already in the buffer stays the first one when bytes are appended. */
  lemma FindCrlfExtends(s: string, more: string)
    requires FindCrlf(s).Some?
    ensures FindCrlf(s + more) == FindCrlf(s)
  {
    var i := FindCrlf(s).value;
    assert CrlfAt(s + more, i);
    assert forall j :: 0 <= j < i ==> (CrlfAt(s + more, j) <==> CrlfAt(s, j));
  }

  /** The first line end behind a line without one is the one that closes it. */
  lemma FindCrlfOfLine(line: string, rest: string)
    requires NoCrlf(line)
    ensures FindCrlf(line + CRLF + rest) == Some(|line|)
  {
    var s := line + CRLF + rest;
    assert CrlfAt(s, |line|);
    forall j | 0 <= j < |line|
      ensures !CrlfAt(s, j)
    {
      assert !CrlfAt(line, j);
    }
  }

  /** The first `c` behind text that does not hold it, and the two parts it separates. */
  lemma {:induction false} SplitAtFirst(text: string, c: char, rest: string)
    requires c !in text
    ensures var s := text + [c] + rest;
            Find(s, c) == |text| && s[..|text|] == text && s[|text| + 1..] == rest
  {
    if text == [] {
      assert (text + [c] + rest)[0] == c;
    } else {
      SplitAtFirst(text[1..], c, rest);
      assert (text + [c] + rest)[1..] == text[1..] + [c] + rest;
    }
  }

  /** isspace of the C locale: blank, and tab to carriage return. */
  predicate IsSpace(c: char) {
    c == ' ' || '\t' <= c <= '\r'
  }

  predicate AllSpace(s: string) {
    forall i :: 0 <= i < |s| ==> IsSpace(s[i])
  }

  /** Neither end is white space; the empty text is trimmed. */
  predicate Trimmed(s: string) {
    s != [] ==> !IsSpace(s[0]) && !IsSpace(s[|s| - 1])
  }

  function TrimLeft(s: string): string {
    if s != [] && IsSpace(s[0]) then TrimLeft(s[1..]) else s
  }

  function TrimRight(s: string): string {
    if s != [] && IsSpace(s[|s| - 1]) then TrimRight(s[..|s| - 1]) else s
  }

  /** What add_header keeps of a header's value. */
  function Trim(s: string): string {
    TrimRight(TrimLeft(s))
  }

  lemma {:induction false} TrimLeftOfPadded(lead: string, text: string)
    requires AllSpace(lead) && (text != [] ==> !IsSpace(text[0]))
    ensures TrimLeft(lead + text) == text
  {
    if lead == [] {
      assert lead + text == text;
    } else {
      TrimLeftOfPadded(lead[1..], text);
      assert (lead + text)[1..] == lead[1..] + text;
    }
  }

  lemma {:induction false} TrimRightOfPadded(text: string, trail: string)
    requires AllSpace(trail) && (text != [] ==> !IsSpace(text[|text| - 1]))
    ensures TrimRight(text + trail) == text
  {
    if trail == [] {
      assert text + trail == text;
    } else {
      var n := |trail| - 1;
      TrimRightOfPadded(text, trail[..n]);
      assert (text + trail)[..|text| + n] == text + trail[..n];
    }
  }

  /** White space around a trimmed text is all that Trim removes. */
  lemma TrimOfPadded(lead: string, text: string, trail: string)
    requires AllSpace(lead) && AllSpace(trail) && Trimmed(text)
    ensures Trim(lead + text + trail) == text
  {
    if text == [] {
      assert lead + text + trail == lead + trail + [];
      TrimLeftOfPadded(lead + trail, []);
    } else {
      assert lead + text + trail == lead + (text + trail);
      TrimLeftOfPadded(lead, text + trail);
      TrimRightOfPadded(text, trail);
    }
  }
}
