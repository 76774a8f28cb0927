/** The bytes on the wire, in numbers: tags, headers, lengths and groups. */
module BerWire {
  import opened Basics
  import opened Bytes
  import opened BerValue
  import opened BerReflect
  import BerInteger
  import BerOid

  // ---------------------------------------------------------------- tags

  /** Universal tags: 1 boolean, 2 integer, 6 object identifier, 12 string, 16 sequence. */
  lemma PackedEnvelope(d: Data)
    requires Pack(d).Some?
    ensures var e := Pack(d).value.envelope;
            match d
            case BoolData(_) => e == Envelope(0, 1)
            case IntData(_) => e == Envelope(0, 2)
            case OidData(_) => e == Envelope(0, 6)
            case StringData(_) => e == Envelope(0, 12)
            case SliceData(_) => e == Envelope(0, 16)
            case StructData(envelope, _) => e == if envelope.Some? then envelope.value else Envelope(0, 0)
  {
  }

  /** The two high bits of the first byte are the class, the six low bits the tag. */
  lemma HeaderBits(e: Envelope, b: byte)
    ensures HeaderByte(e) / 64 == e.class_ % 4 && HeaderByte(e) % 64 == e.tag % 64
    ensures EnvelopeOf(b).class_ in {0, 1, 2, 3} && 0 <= EnvelopeOf(b).tag < 64
    ensures EnvelopeOf(b).class_ * 64 + EnvelopeOf(b).tag == b
  {
  }

  lemma FrameStarts(v: Tlv)
    requires Frame(v).Some?
    ensures Frame(v).value[0] == HeaderByte(v.envelope)
  {
  }

  lemma UniversalHeader(tag: int64)
    requires 0 <= tag < 64
    ensures HeaderByte(Envelope(0, tag)) == tag
  {
  }

  lemma ChunkStarts(d: Data)
    requires Chunk(d).Some?
    ensures Pack(d).Some? && Chunk(d).value != [] && Chunk(d).value[0] == HeaderByte(Pack(d).value.envelope)
  {
    FrameStarts(Pack(d).value);
  }

  /** The first byte of a packed value, which says what it is. */
  lemma FirstByteOfChunk(d: Data)
    requires Chunk(d).Some? && !d.StructData?
    ensures Chunk(d).value != []
    ensures Chunk(d).value[0] ==
            match d
            case BoolData(_) => 0x01
            case IntData(_) => 0x02
            case OidData(_) => 0x06
            case StringData(_) => 0x0C
            case _ => 0x10
  {
    ChunkStarts(d);
    PackedEnvelope(d);
    UniversalHeader(Pack(d).value.envelope.tag);
  }

  lemma FirstByteOfStruct(d: Data)
    requires Chunk(d).Some? && d.StructData?
    ensures Chunk(d).value != []
    ensures var e := if d.envelope.Some? then d.envelope.value else Envelope(0, 0);
            Chunk(d).value[0] / 64 == e.class_ % 4 && Chunk(d).value[0] % 64 == e.tag % 64
  {
    ChunkStarts(d);
    PackedEnvelope(d);
    HeaderBits(Pack(d).value.envelope, 0);
  }

  function Flat(chunks: seq<seq<byte>>): seq<byte> {
    if chunks == [] then [] else chunks[0] + Flat(chunks[1..])
  }

  /** Elements and fields are framed one behind the other. */
  lemma {:induction false} PartsAreChunks(ds: seq<Data>) returns (chunks: seq<seq<byte>>)
    requires PackAll(ds).Some?
    ensures |chunks| == |ds| && PackAll(ds) == Some(Flat(chunks))
    ensures forall i :: 0 <= i < |ds| ==> Chunk(ds[i]) == Some(chunks[i])
  {
    chunks := [];
    if ds != [] {
      var later := PartsAreChunks(ds[1..]);
      chunks := [Chunk(ds[0]).value] + later;
      assert chunks[1..] == later;
      assert forall i :: 0 < i < |ds| ==> chunks[i] == later[i - 1] && ds[i] == ds[1..][i - 1];
    }
  }

  /** The contents of packed values: 1 and 0 for booleans, the shortest two's complement form for integers, the bytes of a string. */
  lemma PackedContent(d: Data)
    requires Pack(d).Some?
    ensures var content := Pack(d).value.content;
            match d
            case BoolData(b) => content == if b then [1] else [0]
            case IntData(n) => BerInteger.Shortest(content) && BerInteger.Signed(content) == n
            case OidData(oid) => BerOid.Pack(oid) == Some(content)
            case StringData(text) => content == text
            case SliceData(elems) => PackAll(elems) == Some(content)
            case StructData(_, values) => PackAll(values) == Some(content)
  {
  }

  // ---------------------------------------------------------------- what is accepted

  /** For which envelopes and contents a basic type is unpacked, and to what. */
  lemma BasicUnpacksIff(t: Type, e: Envelope, content: seq<byte>)
    ensures t == BoolType ==>
      Unpack(t, Tlv(e, content)) == if e.tag == 1 && |content| == 1 then Some(BoolData(content[0] != 0)) else None
    ensures t == StringType ==>
      Unpack(t, Tlv(e, content)) == if e.tag == 12 || e.tag == 4 then Some(StringData(content)) else None
    ensures t.IntType? && 0 < t.size <= 8 ==>
      (Unpack(t, Tlv(e, content)).Some? <==>
        (e.class_ != 0 || e.tag == 2) && BerInteger.GetIntSpec(content, 8 * t.size).Number?)
    ensures t == OidType ==>
      (Unpack(t, Tlv(e, content)).Some? <==> e.tag == 6 && content != [] && (|content| == 1 || content[|content| - 1] < 128))
  {
    if t == OidType && e.tag == 6 && content != [] {
      ElementsEnd([content[0] / 40, content[0] % 40], content[1..]);
    }
  }

  lemma {:induction false} GroupEnds(n: int64, bytes: seq<byte>)
    ensures bytes != [] && bytes[|bytes| - 1] < 128 ==>
      var r := BerOid.UnpackGroup(n, bytes);
      r.Some? && (r.value.1 == [] || r.value.1[|r.value.1| - 1] == bytes[|bytes| - 1])
    ensures bytes == [] || bytes[|bytes| - 1] >= 128 ==>
      var r := BerOid.UnpackGroup(n, bytes);
      r.Some? ==> r.value.1 != [] && r.value.1[|r.value.1| - 1] == bytes[|bytes| - 1]
    decreases |bytes|
  {
    if bytes != [] && bytes[0] >= 128 {
      GroupEnds(Wrap(128 * n + bytes[0] % 128), bytes[1..]);
    }
  }

  /** Elements can be read to the end exactly when the last byte does not announce another one. */
  lemma {:induction false} ElementsEnd(read: OID, bytes: seq<byte>)
    ensures BerOid.UnpackElements(read, bytes).Some? <==> bytes == [] || bytes[|bytes| - 1] < 128
    decreases |bytes|
  {
    if bytes == [] {
      return;
    }
    GroupEnds(0, bytes);
    var group := BerOid.UnpackGroup(0, bytes);
    if group.Some? {
      ElementsEnd(read + [group.value.0], group.value.1);
    }
  }

  /** Sizes that are no whole number of bytes, or more than eight, are an error; no bytes are the number 0. */
  lemma SizeIsChecked(bytes: seq<byte>, bits: int)
    ensures bits > 64 || bits % 8 != 0 ==> BerInteger.GetIntSpec(bytes, bits) == BerInteger.Error
    ensures bits in {8, 16, 32, 64} && bytes == [] ==> BerInteger.GetIntSpec(bytes, bits) == BerInteger.Number(0)
  {
  }

  /** The envelope decides nothing about slices and structs. */
  lemma AnyEnvelope(t: Type, e: Envelope, f: Envelope, content: seq<byte>)
    requires t.SliceType? || t.StructType?
    ensures Unpack(t, Tlv(e, content)).Some? <==> Unpack(t, Tlv(f, content)).Some?
  {
  }

  /** With which envelopes a type can be unpacked at all. */
  lemma EnvelopesAccepted(t: Type, e: Envelope)
    requires TypeOk(t) && !t.StructType?
    ensures (exists content :: Unpack(t, Tlv(e, content)).Some?) <==>
            match t
            case BoolType => e.tag == 1
            case IntType(_) => e.class_ != 0 || e.tag == 2
            case OidType => e.tag == 6
            case StringType => e.tag == 12 || e.tag == 4
            case _ => true
  {
    forall content
      ensures Unpack(t, Tlv(e, content)).Some? ==>
              match t
              case BoolType => e.tag == 1
              case IntType(_) => e.class_ != 0 || e.tag == 2
              case OidType => e.tag == 6
              case StringType => e.tag == 12 || e.tag == 4
              case _ => true
    {
      BasicUnpacksIff(t, e, content);
    }
    BasicUnpacksIff(t, e, [0]);
    if t.SliceType? {
      assert UnpackElems(t.elem, [], []) == Some([]);
      assert Unpack(t, Tlv(e, [])).Some?;
    }
    if t.IntType? {
      BasicUnpacksIff(t, e, []);
    }
  }

  // ---------------------------------------------------------------- lengths

  /** The length of a content of 128 bytes or more: one byte for each 256 bytes that are begun. */
  ghost predicate IsLength(length: seq<byte>, n: nat) {
    256 * (|length| - 1) < n <= 256 * |length| && BigEndian(length) == if n == 256 then 0 else n
  }

  /** Up to 127 bytes of content have their length in one byte; more are announced by 128 and the number of bytes of the length. */
  lemma FrameLayout(v: Tlv)
    ensures var n, h := |v.content|, HeaderByte(v.envelope);
            && (n < 128 ==> Frame(v) == Some([h, n] + v.content))
            && (n > 1280 ==> Frame(v) == None)
            && (128 <= n <= 1280 ==>
                  exists length :: IsLength(length, n) && |length| <= 5 && Frame(v) == Some([h, 128 + |length|] + length + v.content))
  {
    var n := |v.content|;
    if 128 <= n <= 1280 {
      LengthSurvives(n);
      assert IsLength(LowBytes(n, LengthBytes(n)), n);
    }
  }

  // ---------------------------------------------------------------- object identifiers

  /** The number of the lowest seven bits of each byte. */
  function Base128(group: seq<byte>): nat {
    if group == [] then 0 else 128 * Base128(group[..|group| - 1]) + group[|group| - 1] % 128
  }

  /** All bytes but the last have the high bit, and the first is not empty. */
  predicate IsGroup(group: seq<byte>, n: int) {
    && group != [] && Base128(group) == n && group[|group| - 1] < 128
    && (forall i :: 0 <= i < |group| - 1 ==> group[i] >= 128) && (|group| > 1 ==> group[0] != 128)
  }

  lemma {:induction false} ContinuedIs(n: nat)
    ensures var more := BerOid.Continued(n); Base128(more) == n && forall i :: 0 <= i < |more| ==> more[i] >= 128
    ensures n > 0 ==> BerOid.Continued(n) != [] && BerOid.Continued(n)[0] > 128
  {
    if n > 0 {
      var high, septet := n / 128, n % 128;
      ContinuedIs(high);
      assert (BerOid.Continued(high) + [128 + septet])[..|BerOid.Continued(high)|] == BerOid.Continued(high);
      assert (128 + septet) % 128 == septet;
    }
  }

  lemma GroupIs(n: nat)
    ensures IsGroup(BerOid.Group(n), n)
  {
    var high, septet := n / 128, n % 128;
    ContinuedIs(high);
    assert (BerOid.Continued(high) + [septet])[..|BerOid.Continued(high)|] == BerOid.Continued(high);
  }

  lemma {:induction false} ElementsAreGroups(v: OID) returns (groups: seq<seq<byte>>)
    requires BerOid.PackElements(v).Some?
    ensures |groups| == |v| && BerOid.PackElements(v).value == Flat(groups)
    ensures forall i :: 0 <= i < |v| ==> IsGroup(groups[i], v[i])
  {
    groups := [];
    if v != [] {
      var later := ElementsAreGroups(v[1..]);
      GroupIs(v[0]);
      groups := [BerOid.Group(v[0])] + later;
      assert groups[1..] == later;
      assert forall i :: 0 < i < |v| ==> groups[i] == later[i - 1] && v[i] == v[1..][i - 1];
    }
  }

  /** The first two elements share a byte as 40 times the one and the other; each later one is a group. */
  lemma PackedOid(v: OID) returns (groups: seq<seq<byte>>)
    requires BerOid.Pack(v).Some?
    ensures |v| == |groups| + 2 && BerOid.Pack(v).value == [(40 * (v[0] as int) + v[1] as int) % 256] + Flat(groups)
    ensures forall i :: 0 <= i < |groups| ==> IsGroup(groups[i], v[i + 2])
  {
    groups := ElementsAreGroups(v[2..]);
  }

  lemma Element311()
    ensures BerOid.PackElements([311]) == Some([0x82, 0x37])
  {
    assert BerOid.Continued(2) == [0x82] by {
      assert BerOid.Continued(0) == [];
    }
    assert BerOid.Group(311) == [0x82, 0x37];
    OneMoreElement(311, [], []);
    var last: OID, bytes: seq<byte> := [311], [0x82, 0x37];
    assert [311] + [] == last && BerOid.Group(311) + [] == bytes;
  }

  lemma MiddleElements()
    ensures BerOid.PackElements([4, 1, 311]) == Some([0x04, 0x01, 0x82, 0x37])
  {
    Element311();
    SmallElement(1, [311], [0x82, 0x37], [1, 311], [0x01, 0x82, 0x37]);
    SmallElement(4, [1, 311], [0x01, 0x82, 0x37], [4, 1, 311], [0x04, 0x01, 0x82, 0x37]);
  }

  lemma LaterElements()
    ensures BerOid.PackElements([6, 1, 4, 1, 311]) == Some([0x06, 0x01, 0x04, 0x01, 0x82, 0x37])
  {
    MiddleElements();
    SmallElement(1, [4, 1, 311], [0x04, 0x01, 0x82, 0x37], [1, 4, 1, 311], [0x01, 0x04, 0x01, 0x82, 0x37]);
    SmallElement(6, [1, 4, 1, 311], [0x01, 0x04, 0x01, 0x82, 0x37], [6, 1, 4, 1, 311], [0x06, 0x01, 0x04, 0x01, 0x82, 0x37]);
  }

  /** 1.3.6.1.4.1.311 is 2B 06 01 04 01 82 37. */
  lemma Enterprise311()
    ensures BerOid.Pack([1, 3, 6, 1, 4, 1, 311]) == Some([0x2B, 0x06, 0x01, 0x04, 0x01, 0x82, 0x37])
  {
    LaterElements();
    var v: OID, rest: seq<byte> := [1, 3, 6, 1, 4, 1, 311], [0x06, 0x01, 0x04, 0x01, 0x82, 0x37];
    assert v[2..] == [6, 1, 4, 1, 311];
    assert [0x2B] + rest == [0x2B, 0x06, 0x01, 0x04, 0x01, 0x82, 0x37];
  }

  lemma OneMoreElement(n: int64, v: OID, bytes: seq<byte>)
    requires n >= 0 && BerOid.PackElements(v) == Some(bytes)
    ensures BerOid.PackElements([n] + v) == Some(BerOid.Group(n) + bytes)
  {
    assert ([n] + v)[1..] == v;
  }

  lemma SmallElement(n: int64, v: OID, bytes: seq<byte>, longer: OID, more: seq<byte>)
    requires 0 <= n < 128 && BerOid.PackElements(v) == Some(bytes) && longer == [n] + v && more == [n] + bytes
    ensures BerOid.PackElements(longer) == Some(more)
  {
    SmallGroup(n);
    OneMoreElement(n, v, bytes);
  }

  lemma SmallGroup(n: nat)
    requires n < 128
    ensures BerOid.Group(n) == [n]
  {
    assert n / 128 == 0 && BerOid.Continued(0) == [];
  }
}
