/** Shared value types: options, and the decimal reading of strconv.Atoi. */
module Basics {
  datatype Option<+T> = None | Some(value: T) {
    function GetOr(default: T): T {
      if Some? then value else default
    }
  }

  const MAX_INT64: int := 0x7FFF_FFFF_FFFF_FFFF
  const MIN_INT64: int := -0x8000_0000_0000_0000

  /** Go's int and int64. */
  type int64 = x: int | MIN_INT64 <= x <= MAX_INT64

  /** An object identifier: its arcs from the root. */
  type OID = seq<int64>

  predicate IsDigit(c: char) {
    '0' <= c <= '9'
  }

  predicate IsLetter(c: char) {
    'a' <= c <= 'z' || 'A' <= c <= 'Z'
  }

  /** The value of a string of decimal digits, most significant first. */
  function Digits(s: string): Option<nat> {
    if s == [] then Some(0)
    else
      var high := Digits(s[..|s| - 1]);
      var c := s[|s| - 1];
      if high.None? || !IsDigit(c) then None
      else Some(10 * high.value + (c as int - '0' as int))
  }

  /** strconv.Atoi: an optional sign, at least one digit, and a result that fits 64 bits. */
  function Atoi(s: string): Option<int64> {
    var signed := s != [] && (s[0] == '-' || s[0] == '+');
    var body := if signed then s[1..] else s;
    if body == [] then None
    else
      var magnitude := Digits(body);
      if magnitude.None? then None
      else
        var n: int := if signed && s[0] == '-' then -(magnitude.value as int) else magnitude.value;
        if MIN_INT64 <= n <= MAX_INT64 then Some(n) else None
  }

  function NatToString(n: nat): (s: string)
    ensures s != [] && IsDigit(s[0])
  {
    if n < 10 then ['0' + n as char]
    else NatToString(n / 10) + ['0' + (n % 10) as char]
  }

  /** strconv.Itoa. */
  function Itoa(n: int64): string {
    if n < 0 then ['-'] + NatToString(-(n as int)) else NatToString(n)
  }

  lemma {:induction false} DigitsOfNat(n: nat)
    ensures Digits(NatToString(n)) == Some(n)
  {
    var s := NatToString(n);
    if n < 10 {
      assert s[..|s| - 1] == [];
    } else {
      DigitsOfNat(n / 10);
      assert s[..|s| - 1] == NatToString(n / 10);
    }
  }

  /** Reading back a printed number gives the number. */
  lemma AtoiOfItoa(n: int64)
    ensures Atoi(Itoa(n)) == Some(n)
  {
    if n < 0 {
      DigitsOfNat(-(n as int));
      assert Itoa(n)[1..] == NatToString(-(n as int));
    } else {
      DigitsOfNat(n);
    }
  }
}
