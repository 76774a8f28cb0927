/** Bytes, big-endian numbers, and the wrap-around of 64-bit arithmetic. */
module Bytes {
  import opened Basics

  type byte = x: int | 0 <= x < 256

  /** Bytes in front of others, if there are any others. */
  function Behind(b: seq<byte>, rest: Option<seq<byte>>): Option<seq<byte>> {
    if rest.None? then None else Some(b + rest.value)
  }

  lemma BehindTwice(a: seq<byte>, b: seq<byte>, rest: Option<seq<byte>>)
    ensures Behind(a, Behind(b, rest)) == Behind(a + b, rest)
  {
    assert rest.Some? ==> a + (b + rest.value) == a + b + rest.value;
  }

  // ---------------------------------------------------------------- shifts by whole bytes

  function ShiftLeft(n: int, k: nat): (r: int)
    ensures n >= 0 ==> r >= 0
  {
    if k == 0 then n else 256 * ShiftLeft(n, k - 1)
  }

  /** Rounds down, as an arithmetic shift does. */
  function ShiftRight(n: int, k: nat): (r: int)
    ensures n >= 0 ==> r >= 0
  {
    if k == 0 then n else ShiftRight(n, k - 1) / 256
  }

  /** The number of values of `k` bytes. */
  function Pow256(k: nat): (p: nat)
    ensures p > 0
  {
    if k == 0 then 1 else 256 * Pow256(k - 1)
  }

  lemma {:induction false} ShiftLeftAdds(a: int, b: int, k: nat)
    ensures ShiftLeft(a + b, k) == ShiftLeft(a, k) + ShiftLeft(b, k)
  {
    if k > 0 {
      ShiftLeftAdds(a, b, k - 1);
    }
  }

  lemma {:induction false} ShiftLeftTwice(n: int, j: nat, k: nat)
    ensures ShiftLeft(ShiftLeft(n, j), k) == ShiftLeft(n, j + k)
  {
    if k > 0 {
      ShiftLeftTwice(n, j, k - 1);
    }
  }

  /** Below the next value there is room for `k` bytes. */
  lemma {:induction false} ShiftLeftSteps(n: int, k: nat)
    ensures ShiftLeft(n, k) + Pow256(k) == ShiftLeft(n + 1, k)
    ensures n > 0 ==> ShiftLeft(n, k) >= Pow256(k)
    ensures n < 0 ==> ShiftLeft(n, k) + Pow256(k) <= 0
  {
    if k > 0 {
      ShiftLeftSteps(n, k - 1);
    }
  }

  lemma {:induction false} ShiftLeftMonotone(a: int, b: int, k: nat)
    requires a <= b
    ensures ShiftLeft(a, k) <= ShiftLeft(b, k)
  {
    ShiftLeftAdds(a, b - a, k);
  }

  lemma {:induction false} ShiftBack(n: int, k: nat)
    ensures ShiftRight(ShiftLeft(n, k), k) == n
    decreases k
  {
    if k > 0 {
      ShiftLeftTwice(n, 1, k - 1);
      ShiftBack(ShiftLeft(n, 1), k - 1);
    }
  }

  lemma {:induction false} PowMonotone(a: nat, b: nat)
    requires a <= b
    ensures Pow256(a) <= Pow256(b)
  {
    if a < b {
      PowMonotone(a, b - 1);
    }
  }

  // ---------------------------------------------------------------- big-endian numbers

  /** The number that bytes stand for, most significant byte first. */
  function BigEndian(bytes: seq<byte>): nat {
    if bytes == [] then 0 else ShiftLeft(bytes[0], |bytes| - 1) + BigEndian(bytes[1..])
  }

  lemma {:induction false} BigEndianBound(bytes: seq<byte>)
    ensures BigEndian(bytes) < Pow256(|bytes|)
  {
    if bytes != [] {
      var k := |bytes| - 1;
      BigEndianBound(bytes[1..]);
      ShiftLeftSteps(bytes[0], k);
      var next: nat := bytes[0];
      ShiftLeftMonotone(next + 1, 256, k);
      ShiftLeftTwice(1, 1, k);
      assert ShiftLeft(1, 1) == 256;
      ShiftLeftOne(k + 1);
    }
  }

  lemma {:induction false} ShiftLeftOne(k: nat)
    ensures ShiftLeft(1, k) == Pow256(k)
  {
    if k > 0 {
      ShiftLeftOne(k - 1);
    }
  }

  lemma BigEndianStep(b: byte, later: seq<byte>)
    ensures BigEndian([b] + later) == ShiftLeft(b, |later|) + BigEndian(later)
  {
    assert ([b] + later)[1..] == later;
  }

  lemma {:induction false} BigEndianConcat(a: seq<byte>, b: seq<byte>)
    ensures BigEndian(a + b) == ShiftLeft(BigEndian(a), |b|) + BigEndian(b)
  {
    if a == [] {
      assert a + b == b;
      ShiftLeftZero(|b|);
    } else {
      assert (a + b)[1..] == a[1..] + b;
      BigEndianConcat(a[1..], b);
      ShiftLeftTwice(a[0], |a| - 1, |b|);
      ShiftLeftAdds(ShiftLeft(a[0], |a| - 1), BigEndian(a[1..]), |b|);
    }
  }

  lemma {:induction false} ShiftLeftZero(k: nat)
    ensures ShiftLeft(0, k) == 0
  {
    if k > 0 {
      ShiftLeftZero(k - 1);
    }
  }

  /** One more byte at the end. */
  lemma BigEndianAppend(a: seq<byte>, b: byte)
    ensures BigEndian(a + [b]) == 256 * BigEndian(a) + b
  {
    BigEndianConcat(a, [b]);
    BigEndianStep(b, []);
    assert [b] + [] == [b];
    assert ShiftLeft(BigEndian(a), 1) == 256 * BigEndian(a);
  }

  /** Bytes of the same number stand for different numbers unless they are the same. */
  lemma {:induction false} BigEndianInjective(a: seq<byte>, b: seq<byte>)
    requires |a| == |b| && BigEndian(a) == BigEndian(b)
    ensures a == b
  {
    if a != [] {
      var k := |a| - 1;
      assert a == a[..k] + [a[k]] && b == b[..k] + [b[k]];
      BigEndianAppend(a[..k], a[k]);
      BigEndianAppend(b[..k], b[k]);
      BigEndianInjective(a[..k], b[..k]);
    }
  }

  /** The lowest `k` bytes of a number, most significant first. */
  function LowBytes(n: int, k: nat): (bytes: seq<byte>)
    ensures |bytes| == k
  {
    if k == 0 then [] else [ShiftRight(n, k - 1) % 256] + LowBytes(n, k - 1)
  }

  lemma {:induction false} LowBytesRest(n: int, k: nat)
    ensures n == ShiftLeft(ShiftRight(n, k), k) + BigEndian(LowBytes(n, k))
  {
    if k > 0 {
      LowBytesRest(n, k - 1);
      var q := ShiftRight(n, k - 1);
      ShiftLeftAdds(q / 256 * 256, q % 256, k - 1);
      ShiftLeftTwice(q / 256, 1, k - 1);
      assert ShiftLeft(q / 256, 1) == q / 256 * 256;
      BigEndianStep(q % 256, LowBytes(n, k - 1));
    }
  }

  /** A number that fits is recovered from its lowest bytes. */
  lemma BigEndianOfLowBytes(n: nat, k: nat)
    requires n < Pow256(k)
    ensures BigEndian(LowBytes(n, k)) == n
  {
    LowBytesRest(n, k);
    BigEndianBound(LowBytes(n, k));
    ShiftLeftSteps(ShiftRight(n, k), k);
    ShiftLeftZero(k);
  }

  // ---------------------------------------------------------------- 64-bit arithmetic

  const TWO64: int := 0x1_0000_0000_0000_0000

  /** The 64-bit two's complement number with the same low 64 bits. */
  function Wrap(n: int): int64
    decreases if n > MAX_INT64 then n - MAX_INT64 else MIN_INT64 - n
  {
    if n > MAX_INT64 then Wrap(n - TWO64)
    else if n < MIN_INT64 then Wrap(n + TWO64)
    else n
  }

  /** What wrapping takes away is a multiple of 2^64. */
  lemma {:induction false} WrapTakes(n: int) returns (q: int)
    ensures n == Wrap(n) + q * TWO64
    decreases if n > MAX_INT64 then n - MAX_INT64 else MIN_INT64 - n
  {
    if n > MAX_INT64 {
      q := WrapTakes(n - TWO64);
      q := q + 1;
    } else if n < MIN_INT64 {
      q := WrapTakes(n + TWO64);
      q := q - 1;
    } else {
      q := 0;
    }
  }

  /** Numbers that are apart by a multiple of 2^64 wrap to the same. */
  lemma {:induction false} WrapMultiple(n: int, q: int)
    ensures Wrap(n + q * TWO64) == Wrap(n)
    decreases if q > 0 then q else -q
  {
    if q > 0 {
      WrapMultiple(n, q - 1);
      WrapAround(n + (q - 1) * TWO64);
    } else if q < 0 {
      WrapMultiple(n, q + 1);
      WrapAround(n + q * TWO64);
    }
  }

  lemma {:induction false} WrapAround(n: int)
    ensures Wrap(n + TWO64) == Wrap(n)
    decreases if n > MAX_INT64 then n - MAX_INT64 else MIN_INT64 - n
  {
    if n > MAX_INT64 {
      WrapAround(n - TWO64);
    } else if n < MIN_INT64 - TWO64 {
      WrapAround(n + TWO64);
    }
  }

  lemma WrapSum(a: int, b: int)
    ensures Wrap(Wrap(a) + b) == Wrap(a + b)
  {
    var q := WrapTakes(a);
    WrapMultiple(Wrap(a) + b, q);
  }
}
