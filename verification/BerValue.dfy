/** Framing of tagged values; section 8.1 of ITU-T X.690. */
module BerValue {
  import opened Basics
  import opened Bytes

  datatype Envelope = Envelope(class_: int64, tag: int64)

  datatype Tlv = Tlv(envelope: Envelope, content: seq<byte>)

  // ---------------------------------------------------------------- the bytes of a frame

  /** The class in the two high bits, the tag in the rest. */
  function HeaderByte(e: Envelope): byte {
    e.class_ % 4 * 64 + e.tag % 64
  }

  /** How many bytes the length is written in. */
  function LengthBytes(length: nat): nat {
    length / 256 + if length % 256 != 0 then 1 else 0
  }

  /** The bytes of a frame; None where the array for the length is too short. */
  function Frame(v: Tlv): (data: Option<seq<byte>>)
    ensures data.Some? ==> data.value != []
  {
    var n := |v.content|;
    if n < 128 then Some([HeaderByte(v.envelope), n] + v.content)
    else
      var count := LengthBytes(n);
      if count > 5 then None
      else Some([HeaderByte(v.envelope), 128 + count] + LowBytes(n, count) + v.content)
  }

  datatype Unframed = Framed(value: Tlv, rest: seq<byte>) | Truncated | Panics

  function EnvelopeOf(header: byte): Envelope {
    Envelope(header / 64, header % 64)
  }

  /** The length that the bytes behind the second one of a long form stand for, in 64-bit arithmetic. */
  function LongLength(data: seq<byte>): int64
    requires |data| >= 2 && data[1] >= 128 && |data| >= 2 + (data[1] - 128)
  {
    Wrap(BigEndian(data[2..2 + (data[1] - 128)]))
  }

  /** A sum that wraps around lets a frame without an end pass for a complete one, and slicing it panics. */
  function Unframe(data: seq<byte>): (r: Unframed)
    ensures r.Framed? ==> |r.rest| + |r.value.content| + 2 <= |data|
  {
    if |data| < 2 then Truncated
    else if data[1] < 128 then
      var end := 2 + data[1];
      if |data| < end then Truncated else Framed(Tlv(EnvelopeOf(data[0]), data[2..end]), data[end..])
    else
      var start := 2 + (data[1] - 128);
      if |data| < start then Truncated
      else
        var end := Wrap(start + LongLength(data));
        if |data| < end then Truncated
        else if end < start then Panics
        else Framed(Tlv(EnvelopeOf(data[0]), data[start..end]), data[end..])
  }

  // ---------------------------------------------------------------- values

  /** Fills in the length from its last byte to its first. */
  method EncodeLength(encodedLength: array<byte>, length: nat, byteCount: nat)
    requires byteCount < encodedLength.Length && byteCount < 128
    modifies encodedLength
    ensures encodedLength[..byteCount + 1] == [128 + byteCount] + LowBytes(length, byteCount)
  {
    encodedLength[0] := 128 + byteCount;
    for i := 0 to byteCount
      invariant encodedLength[0] == 128 + byteCount
      invariant encodedLength[byteCount - i + 1..byteCount + 1] == LowBytes(length, i)
    {
      ghost var done := encodedLength[byteCount - i + 1..byteCount + 1];
      encodedLength[byteCount - i] := ShiftRight(length, i) % 256;
      assert encodedLength[byteCount - i..byteCount + 1] == [encodedLength[byteCount - i]] + done;
    }
  }

  /** Adds up the length from its last byte to its first; the bytes fill different bits, so that the sum is their disjunction. */
  method DecodeLength(data: seq<byte>, byteCount: nat) returns (length: int64)
    requires |data| >= 2 + byteCount
    ensures length == Wrap(BigEndian(data[2..2 + byteCount]))
  {
    length := 0;
    ghost var all := data[2..2 + byteCount];
    for i := 0 to byteCount
      invariant length == Wrap(BigEndian(all[byteCount - i..]))
    {
      var b := data[1 + byteCount - i];
      ghost var done := all[byteCount - i..];
      assert all[byteCount - i - 1..] == [b] + done;
      BigEndianStep(b, done);
      WrapSum(BigEndian(done), ShiftLeft(b, i));
      length := Wrap(length + ShiftLeft(b, i));
    }
    assert all[0..] == all;
  }

  class Value {
    var envelope: Envelope
    var bytes: seq<byte>

    constructor ()
      ensures envelope == Envelope(0, 0) && bytes == []
    {
      envelope := Envelope(0, 0);
      bytes := [];
    }

    function Contents(): Tlv
      reads this
    {
      Tlv(envelope, bytes)
    }

    method Marshal() returns (data: Option<seq<byte>>)
      ensures data == Frame(Contents())
    {
      var header, length := HeaderByte(envelope), |bytes|;
      if length < 128 {
        return Some([header, length] + bytes);
      }
      var encodedLength := new byte[6](_ => 0);
      var byteCount := length / 256;
      if length % 256 != 0 {
        byteCount := byteCount + 1;
      }
      if byteCount >= encodedLength.Length {
        return None;
      }
      EncodeLength(encodedLength, length, byteCount);
      assert [header] + ([128 + byteCount] + LowBytes(length, byteCount)) == [header, 128 + byteCount] + LowBytes(length, byteCount);
      return Some([header] + encodedLength[..byteCount + 1] + bytes);
    }

    /** The envelope is kept even when the frame turns out to be truncated. */
    method Unmarshal(data: seq<byte>) returns (r: Unframed)
      modifies this
      ensures r == Unframe(data)
      ensures r.Framed? ==> Contents() == r.value
      ensures !r.Framed? ==> bytes == old(bytes)
      ensures envelope == if |data| < 2 then old(envelope) else EnvelopeOf(data[0])
    {
      if |data| < 2 {
        return Truncated;
      }
      envelope := EnvelopeOf(data[0]);
      var length: int64 := data[1];
      if length < 128 {
        if |data| < 2 + length {
          return Truncated;
        }
        bytes := data[2..2 + length];
        return Framed(Contents(), data[2 + length..]);
      }
      var byteCount := length - 128;
      if |data| < 2 + byteCount {
        return Truncated;
      }
      length := DecodeLength(data, byteCount);
      var end := Wrap(2 + byteCount + length);
      if |data| < end {
        return Truncated;
      }
      if end < 2 + byteCount {
        return Panics;
      }
      bytes := data[2 + byteCount..end];
      return Framed(Contents(), data[end..]);
    }
  }

  // ---------------------------------------------------------------- any bytes

  function HeaderLength(data: seq<byte>): nat
    requires |data| >= 2
  {
    if data[1] < 128 then 2 else 2 + (data[1] - 128)
  }

  /** The length that is announced, in unbounded arithmetic. */
  function Announced(data: seq<byte>): nat
    requires |data| >= 2 && |data| >= HeaderLength(data)
  {
    if data[1] < 128 then data[1] else BigEndian(data[2..HeaderLength(data)])
  }

  predicate Complete(data: seq<byte>) {
    |data| >= 2 && |data| >= HeaderLength(data) && |data| >= HeaderLength(data) + Announced(data)
  }

  /** Data with no more than 7 bytes of length is unframed exactly when it is complete, and falls into header, content and rest. */
  lemma UnframesComplete(data: seq<byte>)
    requires |data| >= 2 ==> data[1] <= 128 + 7
    ensures Unframe(data) == Truncated <==> !Complete(data)
    ensures Complete(data) ==>
              var start, end := HeaderLength(data), HeaderLength(data) + Announced(data);
              Unframe(data) == Framed(Tlv(EnvelopeOf(data[0]), data[start..end]), data[end..])
  {
    if |data| >= 2 && data[1] >= 128 && |data| >= HeaderLength(data) {
      BigEndianBound(data[2..HeaderLength(data)]);
      PowMonotone(data[1] - 128, 7);
      assert Pow256(7) == 0x100_0000_0000_0000;
    }
  }

  /** Data that follows a frame does not change it. */
  lemma UnframeIsStable(data: seq<byte>, more: seq<byte>)
    requires Unframe(data).Framed?
    ensures Unframe(data + more) == Framed(Unframe(data).value, Unframe(data).rest + more)
  {
    var r := Unframe(data);
    var all := data + more;
    if data[1] < 128 {
      var end := 2 + data[1];
      assert all[2..end] == data[2..end] && all[end..] == data[end..] + more;
    } else {
      var start := HeaderLength(data);
      assert all[2..start] == data[2..start];
      var end := Wrap(start + LongLength(data));
      assert all[start..end] == data[start..end] && all[end..] == data[end..] + more;
    }
  }

  /** Slicing panics exactly when the announced length, cut to 64 bits, is negative or leads past the largest index. */
  lemma PanicsIff(data: seq<byte>)
    ensures Unframe(data) == Panics <==>
            && |data| >= 2 && data[1] >= 128 && |data| >= HeaderLength(data)
            && (LongLength(data) < 0 || HeaderLength(data) + LongLength(data) > MAX_INT64)
  {
    if |data| >= 2 && data[1] >= 128 && |data| >= HeaderLength(data) {
      var end := HeaderLength(data) + LongLength(data);
      assert Wrap(end) == if end > MAX_INT64 then end - TWO64 else end;
    }
  }

  // ---------------------------------------------------------------- round trip

  /** What survives framing: a content of 256 bytes is announced as empty, and one above 1280 bytes panics. */
  predicate InDomain(v: Tlv) {
    0 <= v.envelope.class_ <= 3 && 0 <= v.envelope.tag <= 63 && |v.content| <= 1280 && |v.content| != 256
  }

  lemma LengthSurvives(n: nat)
    requires 128 <= n <= 1280
    ensures 1 <= LengthBytes(n) <= 5
    ensures BigEndian(LowBytes(n, LengthBytes(n))) == if n == 256 then 0 else n
  {
    var count := LengthBytes(n);
    if n == 256 {
      BigEndianStep(0, []);
    } else {
      PowMonotone(if n < 256 then 1 else 2, count);
      assert Pow256(1) == 256 && Pow256(2) == 0x1_0000;
      BigEndianOfLowBytes(n, count);
    }
  }

  lemma HeaderSurvives(e: Envelope)
    ensures EnvelopeOf(HeaderByte(e)) == e <==> 0 <= e.class_ <= 3 && 0 <= e.tag <= 63
  {
    var high, low := e.class_ % 4, e.tag % 64;
    assert (high * 64 + low) / 64 == high && (high * 64 + low) % 64 == low;
  }

  lemma ShortFrame(header: byte, content: seq<byte>, rest: seq<byte>)
    requires |content| < 128
    ensures Unframe([header, |content|] + content + rest) == Framed(Tlv(EnvelopeOf(header), content), rest)
  {
    var data := [header, |content|] + content + rest;
    assert data[2..2 + |content|] == content && data[2 + |content|..] == rest;
  }

  /** A long form is unframed by what the bytes of its length stand for. */
  lemma LongForm(data: seq<byte>, bytes: seq<byte>, part: seq<byte>, tail: seq<byte>)
    requires |bytes| <= 7 && |data| >= 2 + |bytes| + |part| && data[1] == 128 + |bytes| && |part| == BigEndian(bytes)
    requires var start := 2 + |bytes|;
             data[2..start] == bytes && data[start..start + |part|] == part && data[start + |part|..] == tail
    ensures Unframe(data) == Framed(Tlv(EnvelopeOf(data[0]), part), tail)
  {
    assert HeaderLength(data) == 2 + |bytes| && Announced(data) == |part|;
    UnframesComplete(data);
  }

  lemma LongFrame(head: seq<byte>, bytes: seq<byte>, content: seq<byte>, rest: seq<byte>, n: nat)
    requires |head| == 2 && head[1] == 128 + |bytes| <= 135 && n == BigEndian(bytes) && n <= |content| <= 1280
    ensures Unframe(head + bytes + content + rest) == Framed(Tlv(EnvelopeOf(head[0]), content[..n]), content[n..] + rest)
  {
    Slices(head, bytes, content, rest, n);
    LongForm(head + bytes + content + rest, bytes, content[..n], content[n..] + rest);
  }

  lemma Slices(head: seq<byte>, bytes: seq<byte>, content: seq<byte>, rest: seq<byte>, n: nat)
    requires |head| == 2 && n <= |content|
    ensures var data, start := head + bytes + content + rest, 2 + |bytes|;
            && data[0] == head[0] && data[1] == head[1] && data[2..start] == bytes
            && data[start..start + n] == content[..n] && data[start + n..] == content[n..] + rest
  {
  }

  /** Where framing does not panic, unframing gives as much content as is announced. */
  lemma UnframeOfFrame(v: Tlv, rest: seq<byte>)
    requires |v.content| <= 1280
    ensures Frame(v).Some?
    ensures var n := if |v.content| == 256 then 0 else |v.content|;
            Unframe(Frame(v).value + rest) ==
            Framed(Tlv(EnvelopeOf(HeaderByte(v.envelope)), v.content[..n]), v.content[n..] + rest)
  {
    var n := |v.content|;
    if n < 128 {
      ShortFrame(HeaderByte(v.envelope), v.content, rest);
      assert v.content[..n] == v.content && v.content[n..] + rest == rest;
    } else {
      LengthSurvives(n);
      var count := LengthBytes(n);
      LongFrame([HeaderByte(v.envelope), 128 + count], LowBytes(n, count), v.content, rest, if n == 256 then 0 else n);
    }
  }

  /** Unframing gives back a value and what follows it exactly on the domain. */
  lemma FrameRoundTrip(v: Tlv, rest: seq<byte>)
    ensures Frame(v).Some? && Unframe(Frame(v).value + rest) == Framed(v, rest) <==> InDomain(v)
  {
    HeaderSurvives(v.envelope);
    if |v.content| <= 1280 {
      UnframeOfFrame(v, rest);
      if |v.content| != 256 {
        assert v.content[..|v.content|] == v.content && v.content[|v.content|..] + rest == rest;
      }
    }
  }

  /** Frames end where they say, so that what was framed one after the other can be told apart. */
  lemma FramesAreSeparable(v: Tlv, rest: seq<byte>, w: Tlv, other: seq<byte>)
    requires InDomain(v) && InDomain(w)
    ensures Frame(v).Some? && Frame(w).Some?
    ensures Frame(v).value + rest == Frame(w).value + other ==> v == w && rest == other
  {
    FrameRoundTrip(v, rest);
    FrameRoundTrip(w, other);
  }
}
