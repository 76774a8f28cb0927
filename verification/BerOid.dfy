/** Object identifiers in groups of seven bits; section 8.19 of ITU-T X.690. */
module BerOid {
  import opened Basics
  import opened Bytes

  const TAG_OID := 6

  // ---------------------------------------------------------------- packing

  /** The septets of a number with the bit for "more to come" set. */
  function Continued(n: nat): seq<byte> {
    if n == 0 then [] else Continued(n / 128) + [128 + n % 128]
  }

  /** A group: only the last byte does not announce another one. */
  function Group(n: nat): (group: seq<byte>)
    ensures group != []
  {
    Continued(n / 128) + [n % 128]
  }

  function PackElements(v: OID): Option<seq<byte>> {
    if v == [] then Some([])
    else if v[0] < 0 then None
    else
      var rest := PackElements(v[1..]);
      if rest.None? then None else Some(Group(v[0]) + rest.value)
  }

  /** What the first two elements are combined to. */
  function Combined(first: int, second: int): int {
    40 * first + second
  }

  /** The first two elements share a byte. */
  function Pack(v: OID): Option<seq<byte>> {
    if |v| < 2 then None
    else
      var rest := PackElements(v[2..]);
      if rest.None? then None else Some([Combined(v[0], v[1]) % 256] + rest.value)
  }

  /** The seven bits of a byte that are left when the one for "more to come" is masked out. */
  type Septet = x: int | 0 <= x < 128

  function Mark(septet: Septet, more: bool): byte {
    var b: int := septet;
    if more then 128 + b else b
  }

  /** Septets, last one first, as a group that has still to be written. */
  function Marked(reverse: seq<Septet>): seq<byte> {
    if reverse == [] then []
    else
      var j := |reverse| - 1;
      [Mark(reverse[j], j > 0)] + Marked(reverse[..j])
  }

  lemma ContinuedStep(high: nat, septet: Septet)
    requires 128 * high + septet > 0
    ensures Continued(128 * high + septet) == Continued(high) + [128 + septet]
  {
    var n := 128 * high + septet;
    assert n / 128 == high && n % 128 == septet;
  }

  lemma MarkedStep(reverse: seq<Septet>, septet: Septet)
    requires reverse != []
    ensures Marked(reverse + [septet]) == [128 + septet] + Marked(reverse)
  {
    assert (reverse + [septet])[..|reverse|] == reverse;
  }

  /** Taking off a septet moves a byte from what is left to what has to be written. */
  lemma NextSeptet(high: nat, septet: Septet, reverse: seq<Septet>)
    requires 128 * high + septet > 0 && reverse != []
    ensures Continued(high) + Marked(reverse + [septet]) == Continued(128 * high + septet) + Marked(reverse)
  {
    ContinuedStep(high, septet);
    MarkedStep(reverse, septet);
    Associative(Continued(high), [128 + septet], Marked(reverse));
  }

  lemma Associative(a: seq<byte>, b: seq<byte>, c: seq<byte>)
    ensures a + (b + c) == a + b + c
  {
  }

  lemma WriteSeptet(group: seq<byte>, septets: seq<Septet>, j: nat)
    requires j < |septets|
    ensures group + [Mark(septets[j], j > 0)] + Marked(septets[..j]) == group + Marked(septets[..j + 1])
  {
    assert septets[..j + 1][..j] == septets[..j];
  }

  function Pow128(k: nat): nat {
    if k == 0 then 1 else 128 * Pow128(k - 1)
  }

  lemma {:induction false} Pow128Monotone(a: nat, b: nat)
    requires a <= b
    ensures Pow128(a) <= Pow128(b)
  {
    if a < b {
      Pow128Monotone(a, b - 1);
    }
  }

  /** Nine septets hold every element, so that the buffer of ten is never too short. */
  lemma NineSeptets()
    ensures 128 * Pow128(8) == MAX_INT64 + 1
  {
    assert Pow128(4) == 0x1000_0000;
    assert Pow128(8) == 128 * (128 * (128 * (128 * Pow128(4))));
  }

  /** Takes an element apart, last septet first. */
  method Septets(element: int64, reverse: array<Septet>) returns (j: nat)
    requires element > 0 && reverse.Length == 10
    modifies reverse
    ensures 0 < j <= 9
    ensures Marked(reverse[..j]) == Group(element)
  {
    NineSeptets();
    ghost var goal := Group(element);
    var n: int := element / 128;
    reverse[0], j := element % 128, 1;
    assert Marked(reverse[..1]) == [element % 128] by {
      assert reverse[..1] == [element % 128] && [element % 128][..0] == [];
    }
    while n > 0
      invariant 1 <= j <= 9 && 0 <= n < Pow128(9 - j)
      invariant Continued(n) + Marked(reverse[..j]) == goal
    {
      ghost var read := reverse[..j];
      reverse[j] := n % 128;
      assert reverse[..j + 1] == read + [n % 128];
      NextSeptet(n / 128, n % 128, read);
      n := n / 128;
      j := j + 1;
    }
    assert Continued(0) + Marked(reverse[..j]) == Marked(reverse[..j]);
  }

  method PackElement(element: int64) returns (group: seq<byte>)
    requires element >= 0
    ensures group == Group(element)
  {
    if element < 128 {
      return [element];
    }
    var reverse := new Septet[10](_ => 0);
    var k := Septets(element, reverse);
    ghost var septets := reverse[..k];
    var j := k - 1;
    group := [];
    assert septets[..j + 1] == septets;
    while j >= 0
      invariant -1 <= j < k && reverse[..k] == septets
      invariant group + Marked(septets[..j + 1]) == Group(element)
    {
      assert septets[j] == reverse[j];
      WriteSeptet(group, septets, j);
      group := group + [Mark(reverse[j], j > 0)];
      j := j - 1;
    }
  }

  method PackAsn1(v: OID) returns (bytes: Option<seq<byte>>)
    ensures bytes == Pack(v)
  {
    if |v| < 2 {
      return None;
    }
    var b: seq<byte> := [Combined(v[0], v[1]) % 256];
    for i := 2 to |v|
      invariant Behind(b, PackElements(v[i..])) == Pack(v)
    {
      if v[i] < 0 {
        return None;
      }
      assert v[i..][1..] == v[i + 1..];
      var group := PackElement(v[i]);
      BehindTwice(b, group, PackElements(v[i + 1..]));
      b := b + group;
    }
    assert v[|v|..] == [] && b + [] == b;
    return Some(b);
  }

  // ---------------------------------------------------------------- unpacking

  /** The number at the front, in 64-bit arithmetic, and what follows it. */
  function UnpackGroup(n: int64, bytes: seq<byte>): (r: Option<(int64, seq<byte>)>)
    ensures r.Some? ==> |r.value.1| < |bytes|
    decreases |bytes|
  {
    if bytes == [] then None
    else
      var m := Wrap(128 * n + bytes[0] % 128);
      if bytes[0] < 128 then Some((m, bytes[1..])) else UnpackGroup(m, bytes[1..])
  }

  function UnpackElements(read: OID, bytes: seq<byte>): Option<OID>
    decreases |bytes|
  {
    if bytes == [] then Some(read)
    else
      var group := UnpackGroup(0, bytes);
      if group.None? then None else UnpackElements(read + [group.value.0], group.value.1)
  }

  function Unpack(tag: int64, bytes: seq<byte>): Option<OID> {
    if tag != TAG_OID || bytes == [] then None
    else UnpackElements([bytes[0] / 40, bytes[0] % 40], bytes[1..])
  }

  method UnpackAsn1(tag: int64, bytes: seq<byte>) returns (v: Option<OID>)
    ensures v == Unpack(tag, bytes)
  {
    if tag != TAG_OID || |bytes| < 1 {
      return None;
    }
    var read: OID := [bytes[0] / 40, bytes[0] % 40];
    var i := 1;
    while i < |bytes|
      invariant 1 <= i <= |bytes|
      invariant UnpackElements(read, bytes[i..]) == Unpack(tag, bytes)
    {
      ghost var start := i;
      var n: int64, endOfOID := 0, false;
      while i < |bytes| && !endOfOID
        invariant start <= i <= |bytes|
        invariant !endOfOID ==> UnpackGroup(n, bytes[i..]) == UnpackGroup(0, bytes[start..])
        invariant endOfOID ==> start < i && UnpackGroup(0, bytes[start..]) == Some((n, bytes[i..]))
        decreases |bytes| - i
      {
        assert bytes[i..][1..] == bytes[i + 1..];
        n := Wrap(128 * n + bytes[i] % 128);
        endOfOID := bytes[i] < 128;
        i := i + 1;
      }
      if !endOfOID {
        return None;
      }
      read := read + [n];
    }
    return Some(read);
  }

  // ---------------------------------------------------------------- from elements to bytes and back

  lemma OneSeptet(high: nat, septet: Septet, more: bool, later: seq<byte>)
    requires 128 * high + septet <= MAX_INT64
    ensures var n := 128 * high + septet;
            UnpackGroup(high, [if more then 128 + septet else septet] + later) ==
            if more then UnpackGroup(n, later) else Some((n, later))
  {
    var b: byte := if more then 128 + septet else septet;
    assert b % 128 == septet;
    assert ([b] + later)[1..] == later;
  }

  lemma {:induction false} ContinuedIsRead(n: nat, later: seq<byte>)
    requires n <= MAX_INT64
    ensures UnpackGroup(0, Continued(n) + later) == UnpackGroup(n, later)
  {
    if n == 0 {
      assert Continued(n) + later == later;
      return;
    }
    var high, septet := n / 128, n % 128;
    ContinuedIsRead(high, [128 + septet] + later);
    Associative(Continued(high), [128 + septet], later);
    OneSeptet(high, septet, true, later);
  }

  lemma GroupIsRead(n: nat, later: seq<byte>)
    requires n <= MAX_INT64
    ensures UnpackGroup(0, Group(n) + later) == Some((n, later))
  {
    var high, septet := n / 128, n % 128;
    ContinuedIsRead(high, [septet] + later);
    Associative(Continued(high), [septet], later);
    OneSeptet(high, septet, false, later);
  }

  lemma {:induction false} ElementsAreRead(read: OID, v: OID)
    requires PackElements(v).Some?
    ensures UnpackElements(read, PackElements(v).value) == Some(read + v)
    decreases |v|
  {
    if v == [] {
      assert read + v == read;
    } else {
      GroupIsRead(v[0], PackElements(v[1..]).value);
      ElementsAreRead(read + [v[0]], v[1..]);
      assert read + [v[0]] + v[1..] == read + v;
    }
  }

  lemma {:induction false} PacksNonNegative(v: OID)
    ensures PackElements(v).Some? <==> forall i :: 0 <= i < |v| ==> v[i] >= 0
  {
    if v != [] {
      PacksNonNegative(v[1..]);
      assert forall i :: 0 < i < |v| ==> v[i] == v[1..][i - 1];
    }
  }

  /** What the first byte can tell apart, and no negative elements. */
  predicate InDomain(v: OID) {
    && |v| >= 2 && 0 <= v[1] <= 39 && 0 <= Combined(v[0], v[1]) <= 255
    && forall i :: 2 <= i < |v| ==> v[i] >= 0
  }

  /** Which two elements a byte tells apart. */
  lemma FirstByte(first: int, second: int)
    ensures var b := Combined(first, second) % 256;
            b / 40 == first && b % 40 == second <==> 0 <= second <= 39 && 0 <= Combined(first, second) <= 255
  {
  }

  lemma RestIsRead(v: OID)
    requires |v| >= 2 && PackElements(v[2..]).Some?
    ensures var b := Combined(v[0], v[1]) % 256;
            Unpack(TAG_OID, Pack(v).value) == Some([b / 40, b % 40] + v[2..])
  {
    var b: byte := Combined(v[0], v[1]) % 256;
    var rest := PackElements(v[2..]).value;
    assert Pack(v).value[1..] == rest && Pack(v).value[0] == b;
    ElementsAreRead([b / 40, b % 40], v[2..]);
  }

  /** Exactly the object identifiers in the domain survive packing. */
  lemma OidRoundTrip(v: OID)
    ensures Pack(v).Some? && Unpack(TAG_OID, Pack(v).value) == Some(v) <==> InDomain(v)
  {
    if |v| < 2 {
      return;
    }
    PacksNonNegative(v[2..]);
    assert forall i :: 2 <= i < |v| ==> v[i] == v[2..][i - 2];
    if PackElements(v[2..]).None? {
      return;
    }
    RestIsRead(v);
    FirstByte(v[0], v[1]);
    var b := Combined(v[0], v[1]) % 256;
    SameStart(v, b / 40, b % 40);
  }

  lemma SameStart(v: OID, first: int64, second: int64)
    requires |v| >= 2
    ensures [first, second] + v[2..] == v <==> first == v[0] && second == v[1]
  {
    var w := [first, second] + v[2..];
    assert w[0] == first && w[1] == second;
    assert v == [v[0], v[1]] + v[2..];
  }

  // ---------------------------------------------------------------- from bytes to elements and back

  /** Where the first group ends; the length when it does not. */
  function GroupEnd(bytes: seq<byte>): (n: nat)
    ensures n <= |bytes|
  {
    if bytes == [] || bytes[0] < 128 then 0 else 1 + GroupEnd(bytes[1..])
  }

  /** Complete groups of at most nine bytes, none of which starts with an empty septet. */
  predicate Canonical(bytes: seq<byte>)
    decreases |bytes|
  {
    bytes != [] ==>
      var n := GroupEnd(bytes);
      n < |bytes| && n <= 8 && bytes[0] != 128 && Canonical(bytes[n + 1..])
  }

  lemma {:induction false} ContinuedEnds(n: nat, last: byte, later: seq<byte>)
    requires last < 128
    ensures GroupEnd(Continued(n) + ([last] + later)) == |Continued(n)|
    ensures n > 0 ==> Continued(n)[0] > 128
    ensures forall i :: 0 <= i < |Continued(n)| ==> Continued(n)[i] >= 128
  {
    if n > 0 {
      ContinuedEnds(n / 128, last, later);
    }
    AllContinued(Continued(n), last, later);
  }

  lemma {:induction false} AllContinued(more: seq<byte>, last: byte, later: seq<byte>)
    requires last < 128 && forall i :: 0 <= i < |more| ==> more[i] >= 128
    ensures GroupEnd(more + ([last] + later)) == |more|
  {
    if more == [] {
      assert more + ([last] + later) == [last] + later;
    } else {
      assert (more + ([last] + later))[1..] == more[1..] + ([last] + later);
      AllContinued(more[1..], last, later);
    }
  }

  lemma {:induction false} ContinuedLength(n: nat, k: nat)
    requires n < Pow128(k)
    ensures |Continued(n)| <= k
  {
    if n > 0 {
      ContinuedLength(n / 128, k - 1);
    }
  }

  /** What is packed is canonical. */
  lemma {:induction false} PackedIsCanonical(v: OID)
    requires PackElements(v).Some?
    ensures Canonical(PackElements(v).value)
  {
    if v != [] {
      var n, later := v[0], PackElements(v[1..]).value;
      var bytes := PackElements(v).value;
      var last: byte := n % 128;
      assert bytes == Continued(n / 128) + ([last] + later);
      ContinuedEnds(n / 128, last, later);
      NineSeptets();
      ContinuedLength(n / 128, 8);
      assert bytes[|Continued(n / 128)| + 1..] == later;
      PackedIsCanonical(v[1..]);
    }
  }

  lemma {:induction false} ContinuedExists(more: seq<byte>) returns (n: nat)
    requires forall i :: 0 <= i < |more| ==> more[i] >= 128
    requires more != [] ==> more[0] > 128
    ensures Continued(n) == more && n < Pow128(|more|) && (more != [] ==> n > 0)
  {
    n := 0;
    if more != [] {
      var k := |more| - 1;
      var high := ContinuedExists(more[..k]);
      n := 128 * high + (more[k] - 128);
      assert n / 128 == high && n % 128 == more[k] - 128;
      assert more == more[..k] + [more[k]];
      assert k == 0 ==> high == 0;
    }
  }

  lemma {:induction false} BeforeGroupEnd(bytes: seq<byte>)
    ensures forall i :: 0 <= i < GroupEnd(bytes) ==> bytes[i] >= 128
    ensures GroupEnd(bytes) < |bytes| ==> bytes[GroupEnd(bytes)] < 128
  {
    if bytes != [] && bytes[0] >= 128 {
      BeforeGroupEnd(bytes[1..]);
      assert forall i :: 0 < i < |bytes| ==> bytes[i] == bytes[1..][i - 1];
    }
  }

  /** A canonical group is that of its number. */
  lemma FirstGroup(bytes: seq<byte>) returns (n: nat)
    requires bytes != [] && Canonical(bytes)
    ensures n <= MAX_INT64 && bytes == Group(n) + bytes[GroupEnd(bytes) + 1..]
  {
    var k := GroupEnd(bytes);
    BeforeGroupEnd(bytes);
    var more := bytes[..k];
    assert k > 0 ==> more[0] == bytes[0];
    var high := ContinuedExists(more);
    n := 128 * high + bytes[k];
    Pow128Monotone(k, 8);
    NineSeptets();
    assert n / 128 == high && n % 128 == bytes[k];
  }

  /** Canonical bytes come from exactly one sequence of elements, which is what they are unpacked to. */
  lemma {:induction false} CanonicalIsPacked(read: OID, bytes: seq<byte>) returns (v: OID)
    requires Canonical(bytes)
    ensures PackElements(v) == Some(bytes) && UnpackElements(read, bytes) == Some(read + v)
    decreases |bytes|
  {
    v := [];
    if bytes == [] {
      assert read + v == read;
    } else {
      var n := FirstGroup(bytes);
      var later := CanonicalIsPacked(read, bytes[GroupEnd(bytes) + 1..]);
      v := [n] + later;
      assert v[1..] == later;
      ElementsAreRead(read, v);
    }
  }

  /** Packing gives back exactly the bytes whose groups are canonical. */
  lemma BytesRoundTrip(bytes: seq<byte>)
    ensures (exists v :: Unpack(TAG_OID, bytes) == Some(v) && Pack(v) == Some(bytes)) <==> bytes != [] && Canonical(bytes[1..])
  {
    if bytes != [] && Canonical(bytes[1..]) {
      var first: byte := bytes[0];
      var start: OID := [first / 40, first % 40];
      var later := CanonicalIsPacked(start, bytes[1..]);
      var v := start + later;
      assert v[2..] == later && v[0] == first / 40 && v[1] == first % 40;
      assert [first] + bytes[1..] == bytes;
      assert Unpack(TAG_OID, bytes) == Some(v) && Pack(v) == Some(bytes);
    }
    if v :| Unpack(TAG_OID, bytes) == Some(v) && Pack(v) == Some(bytes) {
      PackedIsCanonical(v[2..]);
      assert bytes[1..] == PackElements(v[2..]).value;
    }
  }

  // ---------------------------------------------------------------- order

  function Less(a: OID, b: OID): bool {
    if a == [] || b == [] then |a| < |b|
    else if a[0] != b[0] then a[0] < b[0]
    else Less(a[1..], b[1..])
  }

  method LessThan(o: OID, other: OID) returns (less: bool)
    ensures less == Less(o, other)
  {
    var mLen := if |o| < |other| then |o| else |other|;
    assert o[0..] == o && other[0..] == other;
    for i := 0 to mLen
      invariant Less(o[i..], other[i..]) == Less(o, other)
    {
      if o[i] != other[i] {
        return o[i] < other[i];
      }
      assert o[i..][1..] == o[i + 1..] && other[i..][1..] == other[i + 1..];
    }
    return |o| < |other|;
  }

  /** The first `k` elements agree, and then the one ends or has the smaller element. */
  ghost predicate SmallerAt(a: OID, b: OID, k: nat) {
    && k <= |a| && k <= |b| && a[..k] == b[..k]
    && k < |b| && (k < |a| ==> a[k] < b[k])
  }

  lemma {:induction false} LessIff(a: OID, b: OID)
    ensures Less(a, b) <==> exists k: nat :: SmallerAt(a, b, k)
  {
    if a == [] || b == [] {
      assert b != [] ==> SmallerAt(a, b, 0);
      return;
    }
    if a[0] != b[0] {
      assert a[0] < b[0] ==> SmallerAt(a, b, 0);
      forall k: nat
        ensures k > 0 ==> !SmallerAt(a, b, k)
      {
        if 0 < k <= |a| && k <= |b| {
          assert a[..k][0] == a[0] && b[..k][0] == b[0];
        }
      }
      return;
    }
    LessIff(a[1..], b[1..]);
    assert !SmallerAt(a, b, 0);
    if k: nat :| SmallerAt(a, b, k) {
      SmallerBehind(a, b, k - 1);
    }
    if k: nat :| SmallerAt(a[1..], b[1..], k) {
      SmallerBehind(a, b, k);
    }
  }

  lemma SmallerBehind(a: OID, b: OID, k: nat)
    requires a != [] && b != [] && a[0] == b[0]
    ensures SmallerAt(a, b, k + 1) <==> SmallerAt(a[1..], b[1..], k)
  {
    if k < |a| && k < |b| {
      assert a[..k + 1] == [a[0]] + a[1..][..k] && b[..k + 1] == [b[0]] + b[1..][..k];
      assert a[1..][..k] == a[..k + 1][1..] && b[1..][..k] == b[..k + 1][1..];
    }
  }

  /** A strict total order in which prefixes come first. */
  lemma {:induction false} LessIsTotal(a: OID, b: OID)
    ensures !(Less(a, b) && Less(b, a))
    ensures a == b <==> !Less(a, b) && !Less(b, a)
  {
    if a != [] && b != [] && a[0] == b[0] {
      LessIsTotal(a[1..], b[1..]);
      assert a == [a[0]] + a[1..] && b == [b[0]] + b[1..];
    }
  }

  lemma {:induction false} LessIsTransitive(a: OID, b: OID, c: OID)
    requires Less(a, b) && Less(b, c)
    ensures Less(a, c)
  {
    if a != [] && b != [] && c != [] && a[0] == b[0] == c[0] {
      LessIsTransitive(a[1..], b[1..], c[1..]);
    }
  }

  lemma {:induction false} PrefixIsLess(a: OID, more: OID)
    requires more != []
    ensures Less(a, a + more)
  {
    if a != [] {
      assert (a + more)[1..] == a[1..] + more;
      PrefixIsLess(a[1..], more);
    }
  }
}
