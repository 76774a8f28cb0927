/** Decimal texts: which of them stand for which number. */
module Decimals {
  import opened Basics

  /** Printing is in decimal, and the first digit is 0 for the number 0 alone. */
  lemma PrintedInDecimal(high: nat, digit: nat)
    requires digit < 10
    ensures NatToString(digit) == ["0123456789"[digit]]
    ensures high > 0 ==> NatToString(10 * high + digit) == NatToString(high) + ["0123456789"[digit]]
    ensures high > 0 ==> NatToString(high)[0] != '0'
  {
    var n := 10 * high + digit;
    assert n / 10 == high && n % 10 == digit;
    if high > 0 {
      NoLeadingZero(high);
    }
  }

  lemma {:induction false} NoLeadingZero(n: nat)
    requires n > 0
    ensures NatToString(n)[0] != '0'
  {
    if n >= 10 {
      NoLeadingZero(n / 10);
    }
  }

  function Zeros(n: nat): (z: string)
    ensures |z| == n && forall i :: 0 <= i < n ==> z[i] == '0'
  {
    seq(n, _ => '0')
  }

  /** A text is read as digits exactly when it has no other characters. */
  lemma {:induction false} DigitsIff(s: string)
    ensures Digits(s).Some? <==> forall i :: 0 <= i < |s| ==> '0' <= s[i] <= '9'
  {
    if s != [] {
      var k := |s| - 1;
      DigitsIff(s[..k]);
      assert forall i :: 0 <= i < k ==> s[i] == s[..k][i];
    }
  }

  lemma {:induction false} ZerosAdd(n: nat, s: string)
    ensures Digits(Zeros(n) + s) == Digits(s)
    decreases |s|, n
  {
    var t := Zeros(n) + s;
    if s != [] {
      ZerosAdd(n, s[..|s| - 1]);
      assert t[..|t| - 1] == Zeros(n) + s[..|s| - 1];
    } else if n > 0 {
      ZerosAdd(n - 1, s);
      assert t[..n - 1] == Zeros(n - 1) + s;
    }
  }

  /** Only the printed number, behind any zeros, is read as it. */
  lemma {:induction false} DigitsArePrinted(s: string) returns (zeros: nat)
    requires s != [] && Digits(s).Some?
    ensures s == Zeros(zeros) + NatToString(Digits(s).value)
  {
    var k := |s| - 1;
    var front, high, digit := s[..k], Digits(s[..k]).value, s[k] as int - '0' as int;
    PrintedInDecimal(high, digit);
    DigitChar(s[k]);
    assert s == front + [s[k]];
    if high == 0 {
      ZeroIsZeros(front);
      return k;
    }
    zeros := DigitsArePrinted(front);
    assert front + [s[k]] == Zeros(zeros) + (NatToString(high) + [s[k]]);
  }

  lemma DigitChar(c: char)
    requires IsDigit(c)
    ensures "0123456789"[c as int - '0' as int] == c
  {
  }

  lemma {:induction false} ZeroIsZeros(s: string)
    requires Digits(s) == Some(0)
    ensures s == Zeros(|s|)
  {
    if s != [] {
      var k := |s| - 1;
      ZeroIsZeros(s[..k]);
      assert s == s[..k] + [s[k]];
    }
  }

  function Printed(zeros: nat, n: nat): string {
    Zeros(zeros) + NatToString(n)
  }

  lemma PrintedIsDigits(zeros: nat, n: nat)
    ensures var body := Printed(zeros, n);
            body != "" && Digits(body) == Some(n) && forall i :: 0 <= i < |body| ==> '0' <= body[i] <= '9'
  {
    DigitsOfNat(n);
    ZerosAdd(zeros, NatToString(n));
    DigitsIff(Printed(zeros, n));
  }

  ghost predicate StandsAs(text: string, n: int, sign: string, zeros: nat) {
    && (sign == "" || sign == "+" || sign == "-") && (n > 0 ==> sign != "-") && (n < 0 ==> sign == "-")
    && text == sign + Printed(zeros, if n < 0 then -n else n)
  }

  /** The text is the number in decimal, with any zeros in front and a sign in front of them. */
  ghost predicate Stands(text: string, n: int) {
    exists sign, zeros :: StandsAs(text, n, sign, zeros)
  }

  lemma AtoiOnlyIf(text: string)
    requires Atoi(text).Some?
    ensures Stands(text, Atoi(text).value)
  {
    var signed := text[0] == '-' || text[0] == '+';
    var body := if signed then text[1..] else text;
    var zeros := DigitsArePrinted(body);
    var sign := if signed then text[..1] else "";
    assert text == sign + body;
    assert StandsAs(text, Atoi(text).value, sign, zeros);
  }

  lemma AtoiOfBody(sign: string, body: string, m: nat)
    requires (sign == "" || sign == "+" || sign == "-") && body != "" && '0' <= body[0] <= '9' && Digits(body) == Some(m)
    ensures Atoi(sign + body) ==
            var n: int := if sign == "-" then -(m as int) else m; if MIN_INT64 <= n <= MAX_INT64 then Some(n) else None
  {
    var text := sign + body;
    if sign == "" {
      assert text == body;
      return;
    }
    assert text[0] == sign[0] && text[1..] == body;
  }

  lemma AtoiIf(text: string, n: int64, sign: string, zeros: nat)
    requires StandsAs(text, n, sign, zeros)
    ensures Atoi(text) == Some(n)
  {
    var m: nat := if n < 0 then -(n as int) else n;
    PrintedIsDigits(zeros, m);
    AtoiOfBody(sign, Printed(zeros, m), m);
  }

  /** A text is read as a number exactly when it stands for it. */
  lemma AtoiIff(text: string, n: int64)
    ensures Atoi(text) == Some(n) <==> Stands(text, n)
  {
    if Atoi(text) == Some(n) {
      AtoiOnlyIf(text);
    }
    if Stands(text, n) {
      var sign, zeros :| StandsAs(text, n, sign, zeros);
      AtoiIf(text, n, sign, zeros);
    }
  }

  lemma PrintedStands(n: int64)
    ensures Stands(Itoa(n), n)
  {
    AtoiOfItoa(n);
    AtoiOnlyIf(Itoa(n));
  }

  /** What stands for a number consists of digits behind an optional sign. */
  lemma StandsIsDigits(text: string, n: int)
    requires Stands(text, n)
    ensures text != "" && (text[0] == '+' || text[0] == '-' || '0' <= text[0] <= '9')
    ensures forall i :: 0 < i < |text| ==> '0' <= text[i] <= '9'
  {
    var sign, zeros :| StandsAs(text, n, sign, zeros);
    var m: nat := if n < 0 then -n else n;
    PrintedIsDigits(zeros, m);
    DigitsBehind(sign, Printed(zeros, m));
  }

  lemma DigitsBehind(sign: string, body: string)
    requires |sign| <= 1 && forall i :: 0 <= i < |body| ==> '0' <= body[i] <= '9'
    ensures forall i :: |sign| <= i < |body| + |sign| ==> '0' <= (sign + body)[i] <= '9'
  {
  }
}
