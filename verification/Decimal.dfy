/** Decimal text: the digits that lexical_cast and strtoull read. */
module Decimal {

  predicate IsDigit(c: char) { '0' <= c <= '9' }

  predicate AllDigits(s: string) {
    forall i :: 0 <= i < |s| ==> IsDigit(s[i])
  }

  predicate IsSign(s: string) { s == "" || s == "+" || s == "-" }

  lemma DigitsOnly(s: string, c: char)
    requires AllDigits(s) && !IsDigit(c)
    ensures c !in s
  {
    forall i | 0 <= i < |s|
      ensures s[i] != c
    {
      assert IsDigit(s[i]);
    }
  }

  /** The number a row of digits denotes, leading zeros allowed. */
  function Value(s: string): nat
    requires AllDigits(s)
  {
    if s == [] then 0
    else 10 * Value(s[..|s| - 1]) + (s[|s| - 1] as int - '0' as int)
  }

  /** The shortest decimal text of a number. */
  function Text(n: nat): (s: string)
    ensures s != [] && AllDigits(s)
  {
    var last := ('0' as int + n % 10) as char;
    if n < 10 then [last] else Text(n / 10) + [last]
  }

  lemma {:induction false} LeadingZeros(zeros: string, s: string)
    requires AllDigits(s) && forall i :: 0 <= i < |zeros| ==> zeros[i] == '0'
    ensures AllDigits(zeros + s) && Value(zeros + s) == Value(s)
    decreases |zeros| + |s|
  {
    var t := zeros + s;
    if s != "" {
      assert t[..|t| - 1] == zeros + s[..|s| - 1];
      LeadingZeros(zeros, s[..|s| - 1]);
    } else if zeros != "" {
      assert t[..|t| - 1] == zeros[..|zeros| - 1] + "";
      LeadingZeros(zeros[..|zeros| - 1], "");
    }
  }

  /** No text of a number is shorter. */
  lemma {:induction false} TextIsShortest(s: string)
    requires s != [] && AllDigits(s)
    ensures |Text(Value(s))| <= |s|
  {
    var n := |s| - 1;
    assert IsDigit(s[n]);
    if n > 0 && Value(s) >= 10 {
      TextIsShortest(s[..n]);
      assert Value(s) / 10 == Value(s[..n]);
    }
  }

  lemma {:induction false} LongerForMore(a: nat, b: nat)
    requires a <= b
    ensures |Text(a)| <= |Text(b)|
  {
    if a >= 10 {
      LongerForMore(a / 10, b / 10);
    }
  }

  lemma {:induction false} ValueOfText(n: nat)
    ensures Value(Text(n)) == n
  {
    var s := Text(n);
    assert s[|s| - 1] as int - '0' as int == n % 10;
    if n < 10 {
      assert s[..|s| - 1] == [];
    } else {
      ValueOfText(n / 10);
      assert s[..|s| - 1] == Text(n / 10);
    }
  }
}
