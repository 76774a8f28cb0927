/** Packing and unpacking as it runs: element by element, through one reused frame. */
module BerPacker {
  import opened Basics
  import opened Bytes
  import opened BerValue
  import opened BerReflect
  import BerInteger
  import BerOid

  method PackValue(d: Data) returns (v: Option<Tlv>)
    ensures v == Pack(d)
    decreases d, 0
  {
    match d {
      case IntData(n) =>
        var number := new BerInteger.Integer();
        number.SetInt(n);
        BerInteger.ShortestIsUnique(number.bytes, IntForm(n));
        return Some(Tlv(Envelope(0, TAG_INTEGER), number.bytes));
      case BoolData(b) =>
        return Some(Tlv(Envelope(0, TAG_BOOLEAN), [if b then 1 else 0]));
      case StringData(text) =>
        return Some(Tlv(Envelope(0, TAG_UTF8_STRING), text));
      case OidData(oid) =>
        var bytes := BerOid.PackAsn1(oid);
        return if bytes.Some? then Some(Tlv(Envelope(0, BerOid.TAG_OID), bytes.value)) else None;
      case SliceData(elems) =>
        var bytes := PackParts(elems);
        return if bytes.Some? then Some(Tlv(Envelope(0, TAG_SEQUENCE), bytes.value)) else None;
      case StructData(envelope, values) =>
        var bytes := PackParts(values);
        return if bytes.Some? then Some(Tlv(envelope.GetOr(Envelope(0, 0)), bytes.value)) else None;
    }
  }

  /** The loop that elements of a slice and fields of a struct have in common. */
  method PackParts(ds: seq<Data>) returns (bytes: Option<seq<byte>>)
    ensures bytes == PackAll(ds)
    decreases ds, 0
  {
    var b: seq<byte> := [];
    var asn1Value := new Value();
    assert ds[0..] == ds && Behind([], PackAll(ds)) == PackAll(ds) by {
      assert PackAll(ds).Some? ==> [] + PackAll(ds).value == PackAll(ds).value;
    }
    for i := 0 to |ds|
      invariant fresh(asn1Value)
      invariant Behind(b, PackAll(ds[i..])) == PackAll(ds)
    {
      assert ds[i..][1..] == ds[i + 1..];
      var v := PackValue(ds[i]);
      if v.None? {
        return None;
      }
      asn1Value.envelope, asn1Value.bytes := v.value.envelope, v.value.content;
      var elemChunk := asn1Value.Marshal();
      if elemChunk.None? {
        return None;
      }
      assert PackAll(ds[i..]) == Behind(elemChunk.value, PackAll(ds[i + 1..]));
      BehindTwice(b, elemChunk.value, PackAll(ds[i + 1..]));
      b := b + elemChunk.value;
    }
    assert b + [] == b;
    return Some(b);
  }

  method UnpackValue(t: Type, v: Tlv) returns (d: Option<Data>)
    ensures d == Unpack(t, v)
    decreases t, 2, 0
  {
    var Tlv(e, bytes) := v;
    match t {
      case IntType(size) =>
        if e.class_ == 0 && e.tag != TAG_INTEGER {
          return None;
        }
        var number := new BerInteger.Integer();
        number.bytes := bytes;
        var r := number.GetInt(8 * size);
        return if r.Number? && 0 < size <= 8 then Some(IntData(Stored(r.n, size))) else None;
      case BoolType =>
        return if |bytes| != 1 || e.tag != TAG_BOOLEAN then None else Some(BoolData(bytes[0] != 0));
      case StringType =>
        return if e.tag == TAG_UTF8_STRING || e.tag == TAG_OCTET_STRING then Some(StringData(bytes)) else None;
      case OidType =>
        var oid := BerOid.UnpackAsn1(e.tag, bytes);
        return if oid.Some? then Some(OidData(oid.value)) else None;
      case SliceType(elem) =>
        var elems := UnpackSlice(elem, bytes);
        return if elems.Some? then Some(SliceData(elems.value)) else None;
      case StructType(hasEnvelope, fields) =>
        if !hasEnvelope && |fields| == 0 {
          return None;
        }
        var values := UnpackStruct(fields, bytes);
        return if values.Some? then Some(StructData(if hasEnvelope then Some(e) else None, values.value)) else None;
    }
  }

  method UnpackSlice(elem: Type, bytes: seq<byte>) returns (elems: Option<seq<Data>>)
    ensures elems == UnpackElems(elem, [], bytes)
    decreases elem, 3
  {
    var read: seq<Data>, rest := [], bytes;
    var asn1Value := new Value();
    while |rest| > 0
      invariant fresh(asn1Value)
      invariant UnpackElems(elem, read, rest) == UnpackElems(elem, [], bytes)
      decreases |rest|
    {
      var r := asn1Value.Unmarshal(rest);
      if !r.Framed? {
        return None;
      }
      var d := UnpackValue(elem, asn1Value.Contents());
      UnpacksFramed(elem, rest, r.value, r.rest);
      if d.None? {
        return None;
      }
      read := read + [d.value];
      rest := r.rest;
    }
    return Some(read);
  }

  method UnpackStruct(fields: seq<Type>, bytes: seq<byte>) returns (values: Option<seq<Data>>)
    ensures values == UnpackFields(fields, [], bytes)
    decreases fields, 0
  {
    var read: seq<Data>, rest, i := [], bytes, 0;
    var asn1Value := new Value();
    assert fields[0..] == fields;
    while |rest| > 0
      invariant fresh(asn1Value) && i <= |fields|
      invariant UnpackFields(fields[i..], read, rest) == UnpackFields(fields, [], bytes)
      decreases |rest|
    {
      if i >= |fields| {
        return None;
      }
      assert fields[i..][1..] == fields[i + 1..];
      var r := asn1Value.Unmarshal(rest);
      if !r.Framed? {
        return None;
      }
      var d := UnpackValue(fields[i], asn1Value.Contents());
      UnpacksFramed(fields[i], rest, r.value, r.rest);
      if d.None? {
        return None;
      }
      read := read + [d.value];
      rest := r.rest;
      i := i + 1;
    }
    return if i < |fields| then None else Some(read);
  }
}
