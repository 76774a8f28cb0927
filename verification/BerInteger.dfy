/** Integers in two's complement; section 8.3 of ITU-T X.690. */
module BerInteger {
  import opened Basics
  import opened Bytes

  // ---------------------------------------------------------------- two's complement

  /** The number that bytes stand for in two's complement; none stand for zero. */
  function Signed(bytes: seq<byte>): int {
    if bytes != [] && bytes[0] >= 128 then BigEndian(bytes) - Pow256(|bytes|) else BigEndian(bytes)
  }

  /** No shorter form has the same value: the first nine bits are not all the same. */
  predicate Shortest(bytes: seq<byte>) {
    && bytes != []
    && (|bytes| > 1 ==> !(bytes[0] == 0 && bytes[1] < 128) && !(bytes[0] == 255 && bytes[1] >= 128))
  }

  function Half(k: nat): int
    requires k > 0
  {
    ShiftLeft(128, k - 1)
  }

  /** A number is in the range of `k` bytes. */
  predicate Fits(n: int, k: nat)
    requires k > 0
  {
    -Half(k) <= n < Half(k)
  }

  lemma HalfIsHalf(k: nat)
    requires k > 0
    ensures 2 * Half(k) == Pow256(k)
  {
    ShiftLeftAdds(128, 128, k - 1);
    ShiftLeftTwice(1, 1, k - 1);
    assert ShiftLeft(1, 1) == 256;
    ShiftLeftOne(k);
  }

  /** The first bit is the sign. */
  lemma SignBit(bytes: seq<byte>)
    requires bytes != []
    ensures bytes[0] >= 128 <==> BigEndian(bytes) >= Half(|bytes|)
    ensures Fits(Signed(bytes), |bytes|) && (Signed(bytes) < 0 <==> bytes[0] >= 128)
  {
    var k := |bytes|;
    HalfIsHalf(k);
    BigEndianBound(bytes);
    BigEndianBound(bytes[1..]);
    if bytes[0] >= 128 {
      ShiftLeftMonotone(128, bytes[0], k - 1);
    } else {
      var first: int := bytes[0];
      ShiftLeftSteps(first, k - 1);
      ShiftLeftMonotone(first + 1, 128, k - 1);
    }
  }

  /** A first byte that repeats the sign of the second can go. */
  lemma DropFirst(bytes: seq<byte>)
    requires |bytes| > 1
    requires bytes[0] == (if bytes[1] >= 128 then 255 else 0)
    ensures Signed(bytes[1..]) == Signed(bytes)
  {
    var k := |bytes| - 1;
    if bytes[0] == 255 {
      ShiftLeftSteps(255, k);
      ShiftLeftTwice(1, 1, k);
      assert ShiftLeft(1, 1) == 256;
      ShiftLeftOne(k + 1);
    } else {
      ShiftLeftZero(k);
    }
  }

  /** Any other first byte is needed. */
  lemma FirstIsNeeded(bytes: seq<byte>)
    requires |bytes| > 1
    requires bytes[0] != (if bytes[1] >= 128 then 255 else 0)
    ensures !Fits(Signed(bytes), |bytes| - 1)
  {
    var k, rest := |bytes| - 1, bytes[1..];
    HalfIsHalf(k);
    SignBit(rest);
    BigEndianBound(rest);
    var first: int := bytes[0];
    if first == 0 {
      ShiftLeftZero(k);
    } else if first < 128 {
      ShiftLeftSteps(first, k);
    } else {
      ShiftLeftTwice(1, 1, k);
      assert ShiftLeft(1, 1) == 256;
      ShiftLeftOne(k + 1);
      ShiftLeftSteps(255, k);
      if first < 255 {
        ShiftLeftSteps(254, k);
        ShiftLeftMonotone(first, 254, k);
      }
    }
  }

  lemma {:induction false} FitsMonotone(n: int, j: nat, k: nat)
    requires 0 < j <= k && Fits(n, j)
    ensures Fits(n, k)
  {
    HalfIsHalf(j);
    HalfIsHalf(k);
    PowMonotone(j, k);
  }

  /** The length of the shortest form says exactly how many bytes the number needs. */
  lemma ShortestLength(bytes: seq<byte>, k: nat)
    requires Shortest(bytes) && k > 0
    ensures |bytes| <= k <==> Fits(Signed(bytes), k)
  {
    SignBit(bytes);
    if |bytes| <= k {
      FitsMonotone(Signed(bytes), |bytes|, k);
    } else {
      FirstIsNeeded(bytes);
      if Fits(Signed(bytes), k) {
        FitsMonotone(Signed(bytes), k, |bytes| - 1);
      }
    }
  }

  /** Every number has at most one shortest form. */
  lemma ShortestIsUnique(a: seq<byte>, b: seq<byte>)
    requires Shortest(a) && Shortest(b) && Signed(a) == Signed(b)
    ensures a == b
  {
    ShortestLength(a, |a|);
    ShortestLength(a, |b|);
    ShortestLength(b, |a|);
    ShortestLength(b, |b|);
    SignBit(a);
    SignBit(b);
    BigEndianInjective(a, b);
  }

  // ---------------------------------------------------------------- what the front and the back of the bytes say

  function Fill(bytes: seq<byte>): byte
    requires bytes != []
  {
    if bytes[0] >= 128 then 255 else 0
  }

  /** All bytes from the `k`th on are the fill byte: what GetInt looks at. */
  predicate FilledFrom(bytes: seq<byte>, k: int)
    requires bytes != []
  {
    forall i :: 0 <= i < |bytes| && i >= k ==> bytes[i] == Fill(bytes)
  }

  /** All but the last `k` bytes only repeat the sign: what makes a number fit. */
  predicate RepeatsSign(bytes: seq<byte>, k: nat)
    requires 0 < k < |bytes|
  {
    && (forall i :: 0 <= i < |bytes| - k ==> bytes[i] == Fill(bytes))
    && (bytes[|bytes| - k] >= 128 <==> bytes[0] >= 128)
  }

  lemma {:induction false} FitsIffRepeatsSign(bytes: seq<byte>, k: nat)
    requires 0 < k < |bytes|
    ensures Fits(Signed(bytes), k) <==> RepeatsSign(bytes, k)
    decreases |bytes|
  {
    if bytes[0] == (if bytes[1] >= 128 then 255 else 0) {
      DropFirst(bytes);
      var rest := bytes[1..];
      if |rest| > k {
        FitsIffRepeatsSign(rest, k);
        assert RepeatsSign(bytes, k) <==> RepeatsSign(rest, k) by {
          assert forall i :: 0 <= i < |rest| ==> rest[i] == bytes[i + 1];
          if RepeatsSign(rest, k) {
            forall i | 0 <= i < |bytes| - k
              ensures bytes[i] == Fill(bytes)
            {
              assert i > 0 ==> bytes[i] == rest[i - 1];
            }
          }
        }
      } else {
        SignBit(rest);
      }
    } else {
      FirstIsNeeded(bytes);
      if Fits(Signed(bytes), k) {
        FitsMonotone(Signed(bytes), k, |bytes| - 1);
      }
    }
  }

  // ---------------------------------------------------------------- what GetInt reads

  datatype Read = Number(n: int64) | Error | Panics

  /** Shifts out all bits above the number's own and back in again. */
  function SignExtend(n: int64, length: nat): int
    requires length <= 8
  {
    ShiftRight(Wrap(ShiftLeft(n, 8 - length)), 8 - length)
  }

  /** More than 8 bytes make the shift negative. */
  function GetIntSpec(bytes: seq<byte>, bits: int): Read {
    if bits > 64 || bits % 8 != 0 then Error
    else if bytes == [] then Number(0)
    else if !FilledFrom(bytes, bits / 8) then Error
    else
      var n := Wrap(BigEndian(bytes));
      if bytes[0] < 128 then Number(n)
      else if |bytes| > 8 then Panics
      else
        SignExtendRange(n, |bytes|);
        Number(SignExtend(n, |bytes|))
  }

  lemma {:induction false} ShiftRightRange(n: int64, k: nat)
    ensures MIN_INT64 <= ShiftRight(n, k) <= MAX_INT64
  {
    if k > 0 {
      ShiftRightRange(n, k - 1);
    }
  }

  lemma SignExtendRange(n: int64, length: nat)
    requires length <= 8
    ensures MIN_INT64 <= SignExtend(n, length) <= MAX_INT64
  {
    ShiftRightRange(Wrap(ShiftLeft(n, 8 - length)), 8 - length);
  }

  lemma WholeWord()
    ensures Pow256(8) == TWO64 && Half(8) == MAX_INT64 + 1
  {
    HalfIsHalf(8);
    assert Pow256(4) == 0x1_0000_0000;
    assert Pow256(8) == 256 * (256 * (256 * (256 * Pow256(4))));
  }

  lemma {:induction false} ShiftCongruent(a: int, b: int, q: int, k: nat)
    requires a == b + q * TWO64
    ensures ShiftLeft(a, k) == ShiftLeft(b, k) + ShiftLeft(q, k) * TWO64
  {
    if k > 0 {
      ShiftCongruent(a, b, q, k - 1);
    }
  }

  /** Through wrap-around and shifts, up to 8 bytes are read as what they stand for. */
  lemma ReadsSigned(bytes: seq<byte>)
    requires 0 < |bytes| <= 8
    ensures var n := Wrap(BigEndian(bytes));
            Signed(bytes) == if bytes[0] < 128 then n else SignExtend(n, |bytes|)
  {
    var m := |bytes|;
    SignBit(bytes);
    WholeWord();
    FitsMonotone(Signed(bytes), m, 8);
    if bytes[0] >= 128 {
      ShiftedFits(Signed(bytes), m);
      WrapShifted(BigEndian(bytes), Signed(bytes), m);
      ShiftBack(Signed(bytes), 8 - m);
    }
  }

  /** Shifting `m` bytes to the top of a word leaves no trace of what is added above them. */
  lemma WrapShifted(u: int, n: int, m: nat)
    requires m <= 8 && u == n + Pow256(m)
    requires MIN_INT64 <= ShiftLeft(n, 8 - m) <= MAX_INT64
    ensures Wrap(ShiftLeft(Wrap(u), 8 - m)) == ShiftLeft(n, 8 - m)
  {
    var k := 8 - m;
    var q := WrapTakes(u);
    ShiftCongruent(u, Wrap(u), q, k);
    ShiftLeftAdds(n, Pow256(m), k);
    ShiftLeftOne(m);
    ShiftLeftTwice(1, m, k);
    ShiftLeftOne(8);
    WholeWord();
    var p := 1 - ShiftLeft(q, k);
    assert ShiftLeft(Wrap(u), k) == ShiftLeft(n, k) + p * TWO64;
    WrapMultiple(ShiftLeft(n, k), p);
  }

  lemma ShiftedFits(n: int, m: nat)
    requires 0 < m <= 8 && Fits(n, m)
    ensures MIN_INT64 <= ShiftLeft(n, 8 - m) <= MAX_INT64
  {
    WholeWord();
    ShiftLeftTwice(128, m - 1, 8 - m);
    ShiftLeftMonotone(-Half(m), n, 8 - m);
    ShiftLeftSteps(n, 8 - m);
    ShiftLeftMonotone(n + 1, Half(m), 8 - m);
    ShiftLeftAdds(-Half(m), Half(m), 8 - m);
    ShiftLeftZero(8 - m);
  }

  /** Reading gives the number if it fits the bits that are asked for, and an error if it does not. */
  ghost predicate ReadRight(bytes: seq<byte>, k: nat)
    requires 0 < k <= 8
  {
    if Fits(Signed(bytes), k) then
      MIN_INT64 <= Signed(bytes) <= MAX_INT64 && GetIntSpec(bytes, 8 * k) == Number(Signed(bytes))
    else GetIntSpec(bytes, 8 * k) == Error
  }

  /**
   * Bytes are read right when there are no more than asked for. Of longer ones the check looks at
   * the back instead of the front: they are read right exactly when both say the same, and when
   * the shift does not panic.
   */
  lemma ReadRightIff(bytes: seq<byte>, k: nat)
    requires bytes != [] && 0 < k <= 8
    ensures ReadRight(bytes, k) <==>
            || |bytes| <= k
            || ((RepeatsSign(bytes, k) <==> FilledFrom(bytes, k)) && !(FilledFrom(bytes, k) && bytes[0] >= 128 && |bytes| > 8))
  {
    SignBit(bytes);
    WholeWord();
    if |bytes| <= k {
      FitsMonotone(Signed(bytes), |bytes|, k);
      ReadsSigned(bytes);
    } else {
      FitsIffRepeatsSign(bytes, k);
      if Fits(Signed(bytes), k) {
        FitsMonotone(Signed(bytes), k, 8);
      }
      if |bytes| <= 8 {
        ReadsSigned(bytes);
      }
    }
  }

  /** 256 is read as a number of 8 bits. */
  lemma TooLongIsMissed()
    ensures Signed([1, 0]) == 256 && !Fits(256, 1) && GetIntSpec([1, 0], 8) == Number(256)
  {
    var bytes: seq<byte> := [1, 0];
    assert bytes[1..] == [0];
    assert BigEndian(bytes[1..]) == 0;
  }

  // ---------------------------------------------------------------- integers

  class Integer {
    var bytes: seq<byte>

    constructor ()
      ensures bytes == []
    {
      bytes := [];
    }

    method GetInt(bits: int) returns (r: Read)
      ensures r == GetIntSpec(bytes, bits)
    {
      if bits > 64 || bits % 8 != 0 {
        return Error;
      }
      if |bytes| == 0 {
        return Number(0);
      }
      var n: int64 := 0;
      var negate := bytes[0] >= 128;
      var bitsRead := 0;
      assert bytes[..0] == [];
      for i := 0 to |bytes|
        invariant bitsRead == 8 * i && n == Wrap(BigEndian(bytes[..i]))
        invariant forall j :: 0 <= j < i && j >= bits / 8 ==> bytes[j] == Fill(bytes)
      {
        if bitsRead >= bits && ((negate && bytes[i] != 255) || (!negate && bytes[i] != 0)) {
          return Error;
        }
        ReadOneMore(bytes[..i], bytes[i]);
        assert bytes[..i + 1] == bytes[..i] + [bytes[i]];
        n := Wrap(256 * n + bytes[i]);
        bitsRead := bitsRead + 8;
      }
      assert bytes[..|bytes|] == bytes;
      if negate {
        if bitsRead > 64 {
          return Panics;
        }
        SignExtendRange(n, |bytes|);
        n := SignExtend(n, |bytes|);
      }
      return Number(n);
    }

    method SetInt(value: int64)
      modifies this
      ensures Shortest(bytes) && Signed(bytes) == value
    {
      var v: int := value;
      bytes := seq(8, _ => 0);
      var i := 7;
      while i >= 0
        invariant -1 <= i <= 7 && |bytes| == 8
        invariant v == ShiftRight(value, 7 - i) && bytes[i + 1..] == LowBytes(value, 7 - i)
      {
        bytes := bytes[i := v % 256];
        assert bytes[i..] == [v % 256] + bytes[i + 1..];
        v := v / 256;
        i := i - 1;
      }
      assert bytes == bytes[0..];
      SignedWord(value);
      var trim: byte := if value < 0 then 255 else 0;
      while |bytes| > 1 && bytes[0] == trim && (bytes[1] >= 128 <==> trim >= 128)
        invariant bytes != [] && Signed(bytes) == value
      {
        DropFirst(bytes);
        bytes := bytes[1..];
      }
      SignBit(bytes);
    }
  }

  lemma ReadOneMore(read: seq<byte>, b: byte)
    ensures Wrap(256 * Wrap(BigEndian(read)) + b) == Wrap(BigEndian(read + [b]))
  {
    BigEndianAppend(read, b);
    var q := WrapTakes(BigEndian(read));
    WrapMultiple(256 * Wrap(BigEndian(read)) + b, 256 * q);
  }

  /** `k` bytes hold a number in their range. */
  lemma SignedLowBytes(value: int, k: nat)
    requires k > 0 && Fits(value, k)
    ensures Signed(LowBytes(value, k)) == value
  {
    var bytes := LowBytes(value, k);
    HalfIsHalf(k);
    LowBytesRest(value, k);
    BigEndianBound(bytes);
    SignBit(bytes);
    var q := ShiftRight(value, k);
    ShiftLeftSteps(q, k);
    ShiftLeftSteps(q + 1, k);
    ShiftLeftZero(k);
  }

  /** Eight bytes hold a 64-bit number. */
  lemma SignedWord(value: int64)
    ensures Signed(LowBytes(value, 8)) == value
  {
    WholeWord();
    SignedLowBytes(value, 8);
  }
}
