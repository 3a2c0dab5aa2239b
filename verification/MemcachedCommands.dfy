/** memcached/server/session.h: splitting a command line into words and reading numbers. */
module MemcachedCommands {
  import opened Pieces
  import opened TextSearch
  import Decimal

  const ULLONG_MAX := 0xFFFF_FFFF_FFFF_FFFF

  /** The words between single blanks or runs of them. */
  function Words(s: string): seq<string>
    decreases |s|
  {
    if s == [] then []
    else if s[0] == ' ' then Words(s[1..])
    else
      var i := Find(s, ' ');
      assert i > 0;
      [s[..i]] + Words(s[i..])
  }

  predicate IsWord(w: string) {
    w != "" && ' ' !in w
  }

  /** A word and a blank in front of anything is split off as it is. */
  lemma WordSplitOff(w: string, rest: string)
    requires IsWord(w)
    ensures Words(w + [' '] + rest) == [w] + Words(rest)
  {
    var s := w + [' '] + rest;
    SplitAtFirst(w, ' ', rest);
    assert s[|w|..] == [' '] + rest;
    assert s[0] == w[0] && w[0] in w;
    assert ([' '] + rest)[1..] == rest;
  }

  lemma LastWord(w: string)
    requires IsWord(w)
    ensures Words(w) == [w]
  {
    assert w[0] in w;
    assert Find(w, ' ') == |w|;
    assert w[..|w|] == w && w[|w|..] == [];
  }

  /** A blank separates words, whatever stands on either side of it. */
  lemma {:induction false} WordsAcross(a: string, b: string)
    ensures Words(a + [' '] + b) == Words(a) + Words(b)
    decreases |a|
  {
    hide Find;
    var s := a + [' '] + b;
    if a == "" {
      assert s[1..] == b && Words(a) == [];
    } else if a[0] == ' ' {
      assert s[1..] == a[1..] + [' '] + b;
      WordsAcross(a[1..], b);
    } else {
      var i := Find(a, ' ');
      WordEnds(a, b);
      WordsAcross(a[i..], b);
      assert Words(s) == [a[..i]] + Words(a[i..] + [' '] + b);
    }
  }

  /** The first word of a text ends where it does without what follows. */
  lemma WordEnds(a: string, b: string)
    ensures var s, i := a + [' '] + b, Find(a, ' ');
            Find(s, ' ') == i && s[..i] == a[..i] && s[i..] == a[i..] + [' '] + b
  {
    FindInFront(a, b);
  }

  lemma {:induction false} FindInFront(a: string, b: string)
    ensures Find(a + [' '] + b, ' ') == Find(a, ' ')
  {
    if a == "" || a[0] == ' ' {
      assert (a + [' '] + b)[0] == ' ';
    } else {
      assert (a + [' '] + b)[1..] == a[1..] + [' '] + b;
      FindInFront(a[1..], b);
    }
  }

  /** The room that words take with a blank behind each. */
  function Room(words: seq<string>): nat {
    if words == [] then 0 else |words[0]| + 1 + Room(words[1..])
  }

  /** A line has room for its words. */
  lemma {:induction false} WordsFit(s: string)
    ensures Room(Words(s)) <= |s| + 1
    decreases |s|
  {
    if s != [] {
      if s[0] == ' ' {
        WordsFit(s[1..]);
      } else {
        var i := Find(s, ' ');
        assert Words(s)[0] == s[..i] && Words(s)[1..] == Words(s[i..]);
        if i < |s| {
          assert s[i..][0] == ' ' && s[i..][1..] == s[i + 1..];
          WordsFit(s[i + 1..]);
        }
      }
    }
  }

  /** strtoull(token, 10), given that it stops exactly at the end of the token. */
  function Strtoull(token: string): Option<nat> {
    var t := TrimLeft(token);
    var minus := t != [] && t[0] == '-';
    var digits := if t != [] && (t[0] == '-' || t[0] == '+') then t[1..] else t;
    if digits == [] || !Decimal.AllDigits(digits) then None
    else
      var n := Decimal.Value(digits);
      if n > ULLONG_MAX then Some(ULLONG_MAX)
      else if minus && n > 0 then Some(ULLONG_MAX + 1 - n)
      else Some(n)
  }

  /** static_cast<int> of an unsigned 64-bit number: its low 32 bits. */
  function LowInt(x: nat): int {
    var u := x % 0x1_0000_0000;
    if u < 0x8000_0000 then u else u - 0x1_0000_0000
  }

  function ReadNumber(token: string): Option<int> {
    match Strtoull(token)
    case None => None
    case Some(x) => Some(LowInt(x))
  }

  /** A decimal text is read as the number it denotes below 2^31; larger ones wrap round
      (2^32 is read as 0), and all from 2^64 on are read as -1. */
  lemma ReadNumberOfText(n: nat)
    ensures ReadNumber(Decimal.Text(n)) == Some(if n <= ULLONG_MAX then LowInt(n) else -1)
    ensures n < 0x8000_0000 ==> ReadNumber(Decimal.Text(n)) == Some(n)
    ensures IsWord(Decimal.Text(n))
  {
    var s := Decimal.Text(n);
    DigitsAreWord(s);
    Decimal.ValueOfText(n);
    assert LowInt(ULLONG_MAX) == -1;
  }

  /** White space, an optional sign, and digits. */
  predicate Numeral(token: string, lead: string, sign: string, digits: string) {
    && token == lead + (sign + digits) && AllSpace(lead) && Decimal.IsSign(sign)
    && digits != "" && Decimal.AllDigits(digits)
  }

  /** Exactly the numerals are read, and 0 with any sign as 0. Up to 2^64 - 1 the low 32 bits
      of the number or of its negation are taken; beyond, the answer is -1, sign or not. */
  lemma ReadNumberExact(token: string)
    ensures ReadNumber(token).Some? <==>
            exists lead: string, sign: string, digits: string :: Numeral(token, lead, sign, digits)
    ensures forall lead: string, sign: string, digits: string :: Numeral(token, lead, sign, digits) ==>
              var n: int := Decimal.Value(digits);
              ReadNumber(token) == Some(if n > ULLONG_MAX then -1 else AsInt(if sign == "-" then -n else n))
  {
    forall lead: string, sign: string, digits: string | Numeral(token, lead, sign, digits)
      ensures var n: int := Decimal.Value(digits);
              ReadNumber(token) == Some(if n > ULLONG_MAX then -1 else AsInt(if sign == "-" then -n else n))
    {
      NumeralRead(token, lead, sign, digits);
    }
    if ReadNumber(token).Some? {
      var t := TrimLeft(token);
      var lead := TrimmedOff(token);
      var sign := if t != [] && (t[0] == '-' || t[0] == '+') then t[..1] else "";
      assert t == sign + t[|sign|..] && Decimal.IsSign(sign);
      assert Numeral(token, lead, sign, t[|sign|..]);
    }
  }

  /** The integer in the range of int that has the same low 32 bits. */
  function AsInt(n: int): (v: int)
    ensures -0x8000_0000 <= v < 0x8000_0000 && (n - v) % 0x1_0000_0000 == 0
  {
    (n + 0x8000_0000) % 0x1_0000_0000 - 0x8000_0000
  }

  lemma NumeralRead(token: string, lead: string, sign: string, digits: string)
    requires Numeral(token, lead, sign, digits)
    ensures var n: int := Decimal.Value(digits);
            ReadNumber(token) == Some(if n > ULLONG_MAX then -1 else AsInt(if sign == "-" then -n else n))
  {
    hide TrimLeft;
    var t := sign + digits;
    DigitsAreWord(digits);
    assert Decimal.IsDigit(digits[0]);
    assert t[|sign|..] == digits;
    TrimLeftOfPadded(lead, t);
    var n := Decimal.Value(digits);
    LowIntExact(n);
    if n <= ULLONG_MAX {
      LowIntExact(ULLONG_MAX + 1 - n);
    }
    assert LowInt(ULLONG_MAX) == -1;
  }

  lemma LowIntExact(n: nat)
    ensures LowInt(n) == AsInt(n)
    ensures LowInt(n) == AsInt(n - (ULLONG_MAX + 1))
  {
    var q, u := n / 0x1_0000_0000, n % 0x1_0000_0000;
    LowBits(n, q, u);
    LowBits(n - (ULLONG_MAX + 1), q - 0x1_0000_0000, u);
  }

  lemma LowBits(n: int, q: int, u: nat)
    requires n == q * 0x1_0000_0000 + u && u < 0x1_0000_0000
    ensures AsInt(n) == if u < 0x8000_0000 then u else u - 0x1_0000_0000
  {
    if u < 0x8000_0000 {
      Remainder(n + 0x8000_0000, q, u + 0x8000_0000);
    } else {
      Remainder(n + 0x8000_0000, q + 1, u - 0x8000_0000);
    }
  }

  lemma Remainder(n: int, q: int, u: nat)
    requires n == q * 0x1_0000_0000 + u && u < 0x1_0000_0000
    ensures n % 0x1_0000_0000 == u
  {
  }

  lemma {:induction false} TrimmedOff(token: string) returns (lead: string)
    ensures AllSpace(lead) && token == lead + TrimLeft(token)
  {
    lead := "";
    if token != "" && IsSpace(token[0]) {
      lead := TrimmedOff(token[1..]);
      lead := [token[0]] + lead;
    }
  }

  /** A token that is read as a number that is not negative is at least as long as the text of
      that number, whatever was skipped, negated or cut off. */
  lemma ReadNumberIsShort(token: string)
    requires ReadNumber(token).Some? && ReadNumber(token).value >= 0
    ensures |Decimal.Text(ReadNumber(token).value)| <= |token|
  {
    var t := TrimLeft(token);
    TrimLeftShortens(token);
    var digits := if t != [] && (t[0] == '-' || t[0] == '+') then t[1..] else t;
    var n := Decimal.Value(digits);
    var v := ReadNumber(token).value;
    assert v <= n by {
      LowIntSmall(n);
      assert LowInt(ULLONG_MAX) == -1;
    }
    Decimal.LongerForMore(v, n);
    Decimal.TextIsShortest(digits);
  }

  lemma LowIntSmall(n: nat)
    ensures LowInt(n) <= n
    ensures n <= ULLONG_MAX && LowInt(ULLONG_MAX + 1 - n) >= 0 ==> LowInt(ULLONG_MAX + 1 - n) <= n || n == 0
  {
  }

  lemma {:induction false} TrimLeftShortens(s: string)
    ensures |TrimLeft(s)| <= |s|
  {
    if s != [] && IsSpace(s[0]) {
      TrimLeftShortens(s[1..]);
    }
  }

  lemma DigitsAreWord(s: string)
    requires s != [] && Decimal.AllDigits(s)
    ensures IsWord(s) && TrimLeft(s) == s && s[0] != '-' && s[0] != '+'
  {
    assert Decimal.IsDigit(s[0]);
    Decimal.DigitsOnly(s, ' ');
  }

  /** The position of a tokenizer in its line. */
  class WordReader {
    const text: string
    var next: nat

    ghost predicate Valid()
      reads this
    {
      next <= |text|
    }

    /** The words not yet taken. */
    ghost function Left(): seq<string>
      reads this
      requires Valid()
    {
      Words(text[next..])
    }

    constructor (text: string)
      ensures Valid() && Left() == Words(text)
    {
      this.text, next := text, 0;
    }

    /** SpaceSeparator: skips blanks, then takes everything up to the next one. */
    method Next() returns (token: Option<string>)
      requires Valid()
      modifies this
      ensures Valid()
      ensures token == if old(Left()) == [] then None else Some(old(Left())[0])
      ensures old(Left()) != [] ==> Left() == old(Left())[1..]
      ensures old(Left()) == [] ==> Left() == []
    {
      while next < |text| && text[next] == ' '
        invariant Valid() && Left() == old(Left())
      {
        assert text[next..][1..] == text[next + 1..];
        next := next + 1;
      }
      if next == |text| {
        return None;
      }
      var length := Find(text[next..], ' ');
      token := Some(text[next..][..length]);
      assert text[next..][length..] == text[next + length..];
      next := next + length;
    }

    /** Reader::read: the next word as an int. */
    method Read() returns (value: Option<int>)
      requires Valid()
      modifies this
      ensures Valid()
      ensures value == if old(Left()) == [] then None else ReadNumber(old(Left())[0])
      ensures value.Some? ==> Left() == old(Left())[1..]
    {
      var token := Next();
      match token {
        case None => return None;
        case Some(t) => return ReadNumber(t);
      }
    }
  }
}
