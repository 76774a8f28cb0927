/** Packing and unpacking values as their Go types direct: basic types, slices and structs. */
module BerReflect {
  import opened Basics
  import opened Bytes
  import opened BerValue
  import BerInteger
  import BerOid

  const TAG_BOOLEAN := 1
  const TAG_INTEGER := 2
  const TAG_OCTET_STRING := 4
  const TAG_UTF8_STRING := 0x0C
  const TAG_SEQUENCE := 0x10

  /** Go types: integers by their size in bytes, and structs by whether they start with an Envelope. */
  datatype Type =
    | IntType(size: nat)
    | BoolType
    | StringType
    | OidType
    | SliceType(elem: Type)
    | StructType(hasEnvelope: bool, fields: seq<Type>)

  datatype Data =
    | IntData(n: int64)
    | BoolData(b: bool)
    | StringData(text: seq<byte>)
    | OidData(oid: OID)
    | SliceData(elems: seq<Data>)
    | StructData(envelope: Option<Envelope>, values: seq<Data>)

  /** Types that there are; a struct has at least one field. */
  predicate TypeOk(t: Type)
    decreases t, 0
  {
    match t
    case IntType(size) => 0 < size <= 8
    case SliceType(elem) => TypeOk(elem)
    case StructType(hasEnvelope, fields) => (hasEnvelope || fields != []) && TypesOk(fields)
    case _ => true
  }

  predicate TypesOk(ts: seq<Type>)
    decreases ts, 0
  {
    ts == [] || (TypeOk(ts[0]) && TypesOk(ts[1..]))
  }

  predicate HasType(d: Data, t: Type)
    decreases d, 0
  {
    match t
    case IntType(size) => d.IntData? && (size > 0 ==> BerInteger.Fits(d.n, size))
    case BoolType => d.BoolData?
    case StringType => d.StringData?
    case OidType => d.OidData?
    case SliceType(elem) => d.SliceData? && AllHaveType(d.elems, elem)
    case StructType(hasEnvelope, fields) =>
      d.StructData? && (d.envelope.Some? <==> hasEnvelope) && HaveTypes(d.values, fields)
  }

  predicate AllHaveType(ds: seq<Data>, t: Type)
    decreases ds, 0
  {
    ds == [] || (HasType(ds[0], t) && AllHaveType(ds[1..], t))
  }

  predicate HaveTypes(ds: seq<Data>, ts: seq<Type>)
    decreases ds, 0
  {
    if ds == [] || ts == [] then ds == [] && ts == []
    else HasType(ds[0], ts[0]) && HaveTypes(ds[1..], ts[1..])
  }

  // ---------------------------------------------------------------- packing

  /** The shortest form of a number: the one that SetInt gives. */
  ghost predicate IsForm(bytes: seq<byte>, n: int64) {
    BerInteger.Shortest(bytes) && BerInteger.Signed(bytes) == n
  }

  function Trimmed(bytes: seq<byte>): (r: seq<byte>)
    requires bytes != []
    ensures BerInteger.Shortest(r) && BerInteger.Signed(r) == BerInteger.Signed(bytes)
    decreases |bytes|
  {
    if |bytes| > 1 && bytes[0] == (if bytes[1] >= 128 then 255 else 0) then
      BerInteger.DropFirst(bytes);
      Trimmed(bytes[1..])
    else bytes
  }

  function IntForm(n: int64): (bytes: seq<byte>)
    ensures IsForm(bytes, n)
  {
    BerInteger.SignedWord(n);
    Trimmed(LowBytes(n, 8))
  }

  /** None where packing fails or panics. */
  function Pack(d: Data): Option<Tlv>
    decreases d, 0
  {
    match d
    case IntData(n) => Some(Tlv(Envelope(0, TAG_INTEGER), IntForm(n)))
    case BoolData(b) => Some(Tlv(Envelope(0, TAG_BOOLEAN), [if b then 1 else 0]))
    case StringData(text) => Some(Tlv(Envelope(0, TAG_UTF8_STRING), text))
    case OidData(oid) =>
      (match BerOid.Pack(oid)
       case None => None
       case Some(bytes) => Some(Tlv(Envelope(0, BerOid.TAG_OID), bytes)))
    case SliceData(elems) =>
      (match PackAll(elems)
       case None => None
       case Some(bytes) => Some(Tlv(Envelope(0, TAG_SEQUENCE), bytes)))
    case StructData(envelope, values) =>
      (match PackAll(values)
       case None => None
       case Some(bytes) => Some(Tlv(envelope.GetOr(Envelope(0, 0)), bytes)))
  }

  /** A value in its frame. */
  function Chunk(d: Data): Option<seq<byte>>
    decreases d, 1
  {
    match Pack(d)
    case None => None
    case Some(v) => Frame(v)
  }

  function PackAll(ds: seq<Data>): Option<seq<byte>>
    decreases ds, 0
  {
    if ds == [] then Some([])
    else
      var first := Chunk(ds[0]);
      var rest := PackAll(ds[1..]);
      if first.None? || rest.None? then None else Some(first.value + rest.value)
  }

  // ---------------------------------------------------------------- unpacking

  /** What is left of a number in a variable of `size` bytes. */
  function Stored(n: int64, size: nat): int64
    requires 0 < size <= 8
  {
    BerInteger.SignBit(LowBytes(n, size));
    BerInteger.FitsMonotone(BerInteger.Signed(LowBytes(n, size)), size, 8);
    BerInteger.WholeWord();
    BerInteger.Signed(LowBytes(n, size))
  }

  /** Into a zero value of the type; None where unpacking fails or panics. */
  function Unpack(t: Type, v: Tlv): Option<Data>
    decreases t, 2, 0
  {
    var Tlv(e, bytes) := v;
    match t
    case IntType(size) =>
      if e.class_ == 0 && e.tag != TAG_INTEGER then None
      else
        (match BerInteger.GetIntSpec(bytes, 8 * size)
         case Number(n) => if 0 < size <= 8 then Some(IntData(Stored(n, size))) else None
         case _ => None)
    case BoolType => if |bytes| != 1 || e.tag != TAG_BOOLEAN then None else Some(BoolData(bytes[0] != 0))
    case StringType => if e.tag == TAG_UTF8_STRING || e.tag == TAG_OCTET_STRING then Some(StringData(bytes)) else None
    case OidType =>
      (match BerOid.Unpack(e.tag, bytes)
       case None => None
       case Some(oid) => Some(OidData(oid)))
    case SliceType(elem) =>
      (match UnpackElems(elem, [], bytes)
       case None => None
       case Some(elems) => Some(SliceData(elems)))
    case StructType(hasEnvelope, fields) =>
      if !hasEnvelope && fields == [] then None
      else
        (match UnpackFields(fields, [], bytes)
         case None => None
         case Some(values) => Some(StructData(if hasEnvelope then Some(e) else None, values)))
  }

  /** The value of the frame at the front, and what follows the frame. */
  function UnpackChunk(t: Type, bytes: seq<byte>): (r: Option<(Data, seq<byte>)>)
    ensures r.Some? ==> |r.value.1| < |bytes|
    decreases t, 3
  {
    match Unframe(bytes)
    case Framed(v, rest) =>
      (match Unpack(t, v)
       case None => None
       case Some(d) => Some((d, rest)))
    case _ => None
  }

  function UnpackElems(elem: Type, read: seq<Data>, bytes: seq<byte>): Option<seq<Data>>
    decreases elem, 4, |bytes|
  {
    if bytes == [] then Some(read)
    else
      var first := UnpackChunk(elem, bytes);
      if first.None? then None else UnpackElems(elem, read + [first.value.0], first.value.1)
  }

  function UnpackFields(fields: seq<Type>, read: seq<Data>, bytes: seq<byte>): Option<seq<Data>>
    decreases fields, 0
  {
    if bytes == [] then if fields == [] then Some(read) else None
    else if fields == [] then None
    else
      var first := UnpackChunk(fields[0], bytes);
      if first.None? then None else UnpackFields(fields[1..], read + [first.value.0], first.value.1)
  }

  // ---------------------------------------------------------------- round trip

  /** A value that unpacking gives back: its parts survive framing, and its object identifiers packing. */
  predicate Survives(d: Data)
    decreases d, 0
  {
    match d
    case OidData(oid) => BerOid.InDomain(oid)
    case SliceData(elems) => AllSurvive(elems)
    case StructData(_, values) => AllSurvive(values)
    case _ => true
  }

  predicate AllSurvive(ds: seq<Data>)
    decreases ds, 0
  {
    ds == [] || (ChunkSurvives(ds[0]) && AllSurvive(ds[1..]))
  }

  predicate ChunkSurvives(d: Data)
    decreases d, 1
  {
    Survives(d) && Pack(d).Some? && InDomain(Pack(d).value)
  }

  /** Unpacking what was packed gives the same value exactly for the values that survive. */
  lemma {:induction false} RoundTrip(t: Type, d: Data)
    requires TypeOk(t) && HasType(d, t)
    ensures Pack(d).Some? && Unpack(t, Pack(d).value) == Some(d) <==> Survives(d)
    decreases d, 2
  {
    match d {
      case IntData(n) => IntRoundTrip(t, n);
      case BoolData(_) =>
      case StringData(_) =>
      case OidData(oid) => BerOid.OidRoundTrip(oid);
      case SliceData(elems) =>
        SliceRoundTrip(t, d);
      case StructData(_, values) =>
        StructRoundTrip(t, d);
    }
  }

  lemma {:induction false} SliceRoundTrip(t: Type, d: Data)
    requires TypeOk(t) && HasType(d, t) && d.SliceData?
    ensures Pack(d).Some? && Unpack(t, Pack(d).value) == Some(d) <==> Survives(d)
    decreases d, 0
  {
    if AllSurvive(d.elems) {
      SurvivorsArePacked(d.elems);
    }
    if PackAll(d.elems).Some? {
      ElemsRoundTrip(t.elem, [], d.elems);
      assert [] + d.elems == d.elems;
    }
  }

  lemma {:induction false} StructRoundTrip(t: Type, d: Data)
    requires TypeOk(t) && HasType(d, t) && d.StructData?
    ensures Pack(d).Some? && Unpack(t, Pack(d).value) == Some(d) <==> Survives(d)
    decreases d, 0
  {
    if AllSurvive(d.values) {
      SurvivorsArePacked(d.values);
    }
    if PackAll(d.values).Some? {
      FieldsRoundTrip(t.fields, [], d.values);
      assert [] + d.values == d.values;
    }
  }

  lemma IntRoundTrip(t: Type, n: int64)
    requires TypeOk(t) && HasType(IntData(n), t)
    ensures Unpack(t, Pack(IntData(n)).value) == Some(IntData(n))
  {
    var bytes := IntForm(n);
    BerInteger.ShortestLength(bytes, t.size);
    BerInteger.ReadRightIff(bytes, t.size);
    BerInteger.SignedLowBytes(n, t.size);
  }

  lemma {:induction false} SurvivorsArePacked(ds: seq<Data>)
    requires AllSurvive(ds)
    ensures PackAll(ds).Some?
    decreases ds
  {
    if ds != [] {
      FrameRoundTrip(Pack(ds[0]).value, []);
      SurvivorsArePacked(ds[1..]);
    }
  }

  /** Next to nothing is packed to no more than a byte. */
  lemma EmptyIsShort(t: Type, e: Envelope, d: Data)
    requires TypeOk(t) && Unpack(t, Tlv(e, [])) == Some(d)
    ensures Pack(d).Some? ==> |Pack(d).value.content| <= 1
  {
    if t.IntType? {
      ShiftLeftZero(t.size);
      BerInteger.SignedLowBytes(0, t.size) by {
        BerInteger.HalfIsHalf(t.size);
      }
      BerInteger.ShortestLength(IntForm(0), 1);
    }
  }

  /** Only structs with an envelope of their own are packed with one that does not fit the header. */
  lemma OddEnvelope(d: Data)
    requires Pack(d).Some? && EnvelopeOf(HeaderByte(Pack(d).value.envelope)) != Pack(d).value.envelope
    ensures d.StructData? && d.envelope == Some(Pack(d).value.envelope)
  {
    HeaderSurvives(Pack(d).value.envelope);
  }

  /** The first value that is unpacked from a chunk is the one that was packed exactly if it survives. */
  lemma {:induction false} ChunkRoundTrip(t: Type, d: Data, rest: seq<byte>)
    requires TypeOk(t) && HasType(d, t)
    ensures ChunkSurvives(d) ==> Chunk(d).Some?
    ensures Chunk(d).Some? ==>
              var r := UnpackChunk(t, Chunk(d).value + rest);
              if ChunkSurvives(d) then r == Some((d, rest)) else r.None? || r.value.0 != d
    decreases d, 3
  {
    if Chunk(d).None? {
      if ChunkSurvives(d) {
        FrameRoundTrip(Pack(d).value, rest);
      }
      return;
    }
    var v, bytes := Pack(d).value, Chunk(d).value + rest;
    RoundTrip(t, d);
    FrameRoundTrip(v, rest);
    if InDomain(v) {
      UnpacksFramed(t, bytes, v, rest);
    } else {
      UnframeOfFrame(v, rest);
      var Framed(w, later) := Unframe(bytes);
      UnpacksFramed(t, bytes, w, later);
      if Unpack(t, w) == Some(d) {
        OddChunk(t, d, w);
      }
    }
  }

  lemma UnpacksFramed(t: Type, bytes: seq<byte>, v: Tlv, rest: seq<byte>)
    requires Unframe(bytes) == Framed(v, rest)
    ensures UnpackChunk(t, bytes) == if Unpack(t, v).Some? then Some((Unpack(t, v).value, rest)) else None
  {
  }

  /** What framing has damaged is not unpacked to the same value. */
  lemma OddChunk(t: Type, d: Data, w: Tlv)
    requires TypeOk(t) && Pack(d).Some? && Unpack(t, w) == Some(d)
    requires var v := Pack(d).value; w.envelope == EnvelopeOf(HeaderByte(v.envelope)) && (|v.content| == 256 ==> w.content == [])
    requires |Pack(d).value.content| <= 1280
    ensures InDomain(Pack(d).value)
  {
    var v := Pack(d).value;
    HeaderSurvives(v.envelope);
    if |v.content| == 256 {
      EmptyIsShort(t, w.envelope, d);
    }
    if w.envelope != v.envelope {
      OddEnvelope(d);
    }
  }

  lemma {:induction false} ElemsKeep(elem: Type, read: seq<Data>, bytes: seq<byte>)
    ensures var r := UnpackElems(elem, read, bytes); r.Some? ==> read <= r.value
    decreases |bytes|
  {
    if bytes != [] && UnpackChunk(elem, bytes).Some? {
      var (d, rest) := UnpackChunk(elem, bytes).value;
      ElemsKeep(elem, read + [d], rest);
    }
  }

  lemma {:induction false} ElemsRoundTrip(elem: Type, read: seq<Data>, ds: seq<Data>)
    requires TypeOk(elem) && AllHaveType(ds, elem) && PackAll(ds).Some?
    ensures UnpackElems(elem, read, PackAll(ds).value) == Some(read + ds) <==> AllSurvive(ds)
    decreases ds, 0
  {
    if ds == [] {
      assert read + ds == read;
      return;
    }
    var first, rest, bytes := ds[0], PackAll(ds[1..]).value, PackAll(ds).value;
    ChunkRoundTrip(elem, first, rest);
    if UnpackChunk(elem, bytes).None? {
      return;
    }
    var (d, later) := UnpackChunk(elem, bytes).value;
    assert UnpackElems(elem, read, bytes) == UnpackElems(elem, read + [d], later);
    if ChunkSurvives(first) {
      ElemsRoundTrip(elem, read + [first], ds[1..]);
      assert read + [first] + ds[1..] == read + ds;
    } else {
      ElemsKeep(elem, read + [d], later);
      assert (read + [d])[|read|] != (read + ds)[|read|];
    }
  }

  lemma {:induction false} FieldsKeep(fields: seq<Type>, read: seq<Data>, bytes: seq<byte>)
    ensures var r := UnpackFields(fields, read, bytes); r.Some? ==> read <= r.value
  {
    if bytes != [] && fields != [] && UnpackChunk(fields[0], bytes).Some? {
      var (d, rest) := UnpackChunk(fields[0], bytes).value;
      FieldsKeep(fields[1..], read + [d], rest);
    }
  }

  /** A first field that is not read back spoils the whole. */
  lemma DamagedField(fields: seq<Type>, read: seq<Data>, ds: seq<Data>, bytes: seq<byte>)
    requires fields != [] && ds != [] && bytes != []
    requires var r := UnpackChunk(fields[0], bytes); r.None? || r.value.0 != ds[0]
    ensures UnpackFields(fields, read, bytes) != Some(read + ds)
  {
    var r := UnpackChunk(fields[0], bytes);
    if r.Some? {
      var more := read + [r.value.0];
      FieldsKeep(fields[1..], more, r.value.1);
      assert more[|read|] != (read + ds)[|read|];
    }
  }

  lemma PackedHead(ds: seq<Data>)
    requires ds != [] && PackAll(ds).Some?
    ensures Chunk(ds[0]).Some? && PackAll(ds[1..]).Some? && PackAll(ds).value != []
    ensures PackAll(ds).value == Chunk(ds[0]).value + PackAll(ds[1..]).value
  {
  }

  lemma HeadInBetween(read: seq<Data>, ds: seq<Data>)
    requires ds != []
    ensures read + [ds[0]] + ds[1..] == read + ds
  {
  }

  lemma {:induction false} FieldsRoundTrip(fields: seq<Type>, read: seq<Data>, ds: seq<Data>)
    requires TypesOk(fields) && HaveTypes(ds, fields) && PackAll(ds).Some?
    ensures UnpackFields(fields, read, PackAll(ds).value) == Some(read + ds) <==> AllSurvive(ds)
    decreases ds, 0
  {
    if ds == [] {
      assert read + ds == read;
      return;
    }
    PackedHead(ds);
    ChunkRoundTrip(fields[0], ds[0], PackAll(ds[1..]).value);
    if !ChunkSurvives(ds[0]) {
      DamagedField(fields, read, ds, PackAll(ds).value);
      return;
    }
    HeadInBetween(read, ds);
    FieldsRoundTrip(fields[1..], read + [ds[0]], ds[1..]);
  }
}
