/** The static source: hosts by name, and the addresses of IPv4 and IPv6 networks. */
module StaticRoot {
  import opened Basics
  import opened Bytes

  // ---------------------------------------------------------------- the next address

  /** Adds one to the last byte; a byte that overflows carries into the one before. */
  function Next(ip: seq<byte>): (r: seq<byte>)
    ensures |r| == |ip|
  {
    if ip == [] then []
    else
      var k := |ip| - 1;
      if ip[k] < 255 then ip[..k] + [ip[k] + 1] else Next(ip[..k]) + [0]
  }

  lemma Carry(ip: seq<byte>, j: nat, low: seq<byte>)
    requires j < |ip|
    ensures Next(ip[..j + 1]) + low ==
            if ip[j] < 255 then ip[..j] + ([ip[j] + 1] + low) else Next(ip[..j]) + ([0] + low)
  {
    var high, b := ip[..j], ip[j];
    assert ip[..j + 1] == high + [b] && (high + [b])[..j] == high;
    assert b < 255 ==> high + [b + 1] + low == high + ([b + 1] + low);
    assert Next(high) + [0] + low == Next(high) + ([0] + low);
  }

  method IncIP(ip: array<byte>)
    modifies ip
    ensures ip[..] == Next(old(ip[..]))
  {
    ghost var start := ip[..];
    var j := ip.Length - 1;
    assert start[..j + 1] == start && Next(start) + ip[j + 1..] == Next(start);
    while j >= 0
      invariant -1 <= j < ip.Length
      invariant ip[..j + 1] == start[..j + 1]
      invariant Next(start[..j + 1]) + ip[j + 1..] == Next(start)
    {
      ghost var low := ip[j + 1..];
      Carry(start, j, low);
      assert ip[j] == start[..j + 1][j] && ip[..j] == ip[..j + 1][..j] == start[..j];
      var b: int := ip[j];
      ip[j] := (b + 1) % 256;
      assert ip[j..] == [ip[j]] + low && ip[..j] == start[..j];
      if ip[j] > 0 {
        assert ip[..] == ip[..j] + ip[j..];
        return;
      }
      j := j - 1;
    }
  }

  /** The next address is the successor of the big-endian number, and 0 behind the last one. */
  lemma {:induction false} NextIsSuccessor(ip: seq<byte>)
    ensures BigEndian(Next(ip)) == if BigEndian(ip) + 1 < Pow256(|ip|) then BigEndian(ip) + 1 else 0
  {
    if ip != [] {
      var k := |ip| - 1;
      var high := ip[..k];
      assert ip == high + [ip[k]];
      BigEndianAppend(high, ip[k]);
      BigEndianBound(high);
      if ip[k] < 255 {
        BigEndianAppend(high, ip[k] + 1);
      } else {
        NextIsSuccessor(high);
        BigEndianAppend(Next(high), 0);
      }
    }
  }

  // ---------------------------------------------------------------- masks

  function Pow2(k: nat): (p: nat)
    ensures p > 0
  {
    if k == 0 then 1 else 2 * Pow2(k - 1)
  }

  /** Masking: the lowest `bits` bits cleared, byte by byte. */
  function Cleared(ip: seq<byte>, bits: nat): (r: seq<byte>)
    ensures |r| == |ip|
  {
    if ip == [] || bits == 0 then ip
    else
      var k := |ip| - 1;
      if bits >= 8 then Cleared(ip[..k], bits - 8) + [0] else ip[..k] + [ClearedByte(ip[k], bits)]
  }

  function ClearedByte(b: byte, bits: nat): (r: byte)
    requires 0 < bits < 8
    ensures r < 255 && r <= b < r + Pow2(bits) <= 256
  {
    ByteBlock(b, bits);
    b / Pow2(bits) * Pow2(bits)
  }

  lemma SmallPow2(bits: nat)
    requires 0 < bits < 8
    ensures Pow2(bits) == [2, 4, 8, 16, 32, 64, 128][bits - 1]
  {
    assert Pow2(1) == 2 && Pow2(2) == 4 && Pow2(3) == 8 && Pow2(4) == 16;
    assert Pow2(5) == 32 && Pow2(6) == 64 && Pow2(7) == 128;
  }

  lemma ByteBlock(b: byte, bits: nat)
    requires 0 < bits < 8
    ensures Pow2(bits) in {2, 4, 8, 16, 32, 64, 128}
    ensures var r := b / Pow2(bits) * Pow2(bits); 0 <= r < 255 && r <= b < r + Pow2(bits) <= 256
  {
    SmallPow2(bits);
    var n := Pow2(bits);
    if n == 2 {
    } else if n == 4 {
    } else if n == 8 {
    } else if n == 16 {
    } else if n == 32 {
    } else if n == 64 {
    } else {
    }
  }

  lemma Pow2OfByte(bits: nat)
    requires bits >= 8
    ensures Pow2(bits) == 256 * Pow2(bits - 8)
  {
    assert Pow2(bits) == 2 * Pow2(bits - 1) == 4 * Pow2(bits - 2) == 8 * Pow2(bits - 3) == 16 * Pow2(bits - 4);
    assert Pow2(bits - 4) == 2 * Pow2(bits - 5) == 4 * Pow2(bits - 6) == 8 * Pow2(bits - 7) == 16 * Pow2(bits - 8);
  }

  lemma MultipleOfByte(high: nat, b: byte, bits: nat) returns (q: nat)
    requires 0 < bits < 8
    ensures 256 * high + ClearedByte(b, bits) == q * Pow2(bits)
  {
    SmallPow2(bits);
    var n := Pow2(bits);
    q := 256 / n * high + b / n;
    if n == 2 {
    } else if n == 4 {
    } else if n == 8 {
    } else if n == 16 {
    } else if n == 32 {
    } else if n == 64 {
    } else {
    }
  }

  /** As a number, a masked address is the start of the block of `Pow2(bits)` numbers that the address is in. */
  lemma {:induction false} ClearedIsBlock(ip: seq<byte>, bits: nat) returns (q: nat)
    requires bits <= 8 * |ip|
    ensures BigEndian(Cleared(ip, bits)) == q * Pow2(bits)
    ensures BigEndian(Cleared(ip, bits)) <= BigEndian(ip) < BigEndian(Cleared(ip, bits)) + Pow2(bits) <= Pow256(|ip|)
  {
    if bits == 0 {
      BigEndianBound(ip);
      return BigEndian(ip);
    }
    var k := |ip| - 1;
    var high, b := ip[..k], ip[k];
    assert ip == high + [b];
    BigEndianAppend(high, b);
    if bits >= 8 {
      q := ClearedIsBlock(high, bits - 8);
      BigEndianAppend(Cleared(high, bits - 8), 0);
      Pow2OfByte(bits);
      Scaled(q, Pow2(bits - 8));
    } else {
      var r := ClearedByte(b, bits);
      BigEndianAppend(high, r);
      BigEndianBound(high);
      q := MultipleOfByte(BigEndian(high), b, bits);
    }
  }

  lemma Scaled(q: nat, n: nat)
    ensures 256 * (q * n) == q * (256 * n)
  {
  }

  lemma {:induction false} Apart(p: int, q: int, n: nat)
    requires p < q
    ensures n * p + n <= n * q
    decreases q - p
  {
    if p + 1 < q {
      Apart(p + 1, q, n);
    }
  }

  lemma SameBlock(p: nat, q: nat, n: nat, v: nat)
    requires q * n <= v < q * n + n
    ensures p == q <==> p * n <= v < p * n + n
  {
    if p < q {
      Apart(p, q, n);
    } else if q < p {
      Apart(q, p, n);
    }
  }

  /** Two addresses have the same mask exactly when the second is in the block that the masked first one starts. */
  lemma SameMaskIff(a: seq<byte>, b: seq<byte>, bits: nat)
    requires |a| == |b| && bits <= 8 * |a|
    ensures var start := BigEndian(Cleared(a, bits));
            Cleared(a, bits) == Cleared(b, bits) <==> start <= BigEndian(b) < start + Pow2(bits)
  {
    var p := ClearedIsBlock(a, bits);
    var q := ClearedIsBlock(b, bits);
    SameBlock(p, q, Pow2(bits), BigEndian(b));
    if p == q {
      BigEndianInjective(Cleared(a, bits), Cleared(b, bits));
    }
  }

  /** Masking changes nothing in front of the bytes that it clears, */
  lemma {:induction false} ClearedKeepsFront(ip: seq<byte>, bits: nat, n: nat)
    requires n <= |ip| && bits <= 8 * (|ip| - n)
    ensures Cleared(ip, bits)[..n] == ip[..n]
  {
    if bits >= 8 {
      ClearedKeepsFront(ip[..|ip| - 1], bits - 8, n);
    }
  }

  /** and leaves no 255 where it clears a bit. */
  lemma {:induction false} ClearedIsNot255(ip: seq<byte>, bits: nat, n: nat)
    requires n < |ip| && bits > 8 * (|ip| - 1 - n)
    ensures Cleared(ip, bits)[n] < 255
  {
    if bits >= 8 && n < |ip| - 1 {
      ClearedIsNot255(ip[..|ip| - 1], bits - 8, n);
    }
  }

  // ---------------------------------------------------------------- networks

  /** A network as net.ParseCIDR gives it: four or sixteen bytes, masked already. */
  datatype Cidr = Cidr(ip: seq<byte>, ones: nat)

  predicate Parsed(c: Cidr) {
    (|c.ip| == 4 || |c.ip| == 16) && c.ones <= 8 * |c.ip| && Cleared(c.ip, Bits(c)) == c.ip
  }

  /** What newStaticRoot lets pass. */
  predicate Accepted(c: Cidr) {
    Parsed(c) && c.ones >= 24
  }

  /** How many bits the mask clears. */
  function Bits(c: Cidr): nat {
    if c.ones <= 8 * |c.ip| then 8 * |c.ip| - c.ones else 0
  }

  function Zeros(n: nat): (z: seq<byte>)
    ensures |z| == n
  {
    if n == 0 then [] else Zeros(n - 1) + [0]
  }

  /** An IPv4 address written with sixteen bytes. */
  predicate Mapped(ip: seq<byte>) {
    |ip| == 16 && ip[..12] == Zeros(10) + [255, 255]
  }

  /** net.IPNet.Contains: mapped addresses are compared as IPv4, and so with mapped networks only. */
  predicate Contains(c: Cidr, ip: seq<byte>) {
    |ip| == |c.ip| && Mapped(ip) == Mapped(c.ip) && Cleared(ip, Bits(c)) == Cleared(c.ip, Bits(c))
  }

  const MAPPED: nat := 0xFFFF_0000_0000
  const BEHIND_MAPPED: nat := 0x1_0000_0000_0000

  lemma {:induction false} ZerosAreZero(n: nat)
    ensures BigEndian(Zeros(n)) == 0
  {
    if n > 0 {
      ZerosAreZero(n - 1);
      BigEndianAppend(Zeros(n - 1), 0);
    }
  }

  lemma ShiftLeftFour(n: nat)
    ensures ShiftLeft(n, 4) == 0x1_0000_0000 * n && Pow256(4) == 0x1_0000_0000
  {
    assert ShiftLeft(n, 1) == 256 * n;
    assert ShiftLeft(n, 2) == 0x1_0000 * n;
    assert ShiftLeft(n, 3) == 0x100_0000 * n;
  }

  lemma MappedIff(ip: seq<byte>)
    requires |ip| == 16
    ensures Mapped(ip) <==> MAPPED <= BigEndian(ip) < BEHIND_MAPPED
  {
    var front, low, prefix := ip[..12], ip[12..], Zeros(10) + [255, 255];
    assert ip == front + low;
    BigEndianConcat(front, low);
    BigEndianBound(low);
    var n := BigEndian(front);
    ShiftLeftFour(n);
    ZerosAreZero(10);
    BigEndianAppend(Zeros(10), 255);
    BigEndianAppend(Zeros(10) + [255], 255);
    assert Zeros(10) + [255] + [255] == prefix;
    if n == BigEndian(prefix) {
      BigEndianInjective(front, prefix);
    }
  }

  /** How many addresses are enumerated: those of the network, up to the first mapped one where the network is not mapped itself. */
  function Count(c: Cidr): (n: nat)
    requires Parsed(c)
  {
    var base := BigEndian(c.ip);
    if |c.ip| == 16 && base < MAPPED < base + Pow2(Bits(c)) then MAPPED - base else Pow2(Bits(c))
  }

  lemma CountFits(c: Cidr)
    requires Parsed(c)
    ensures 0 < Count(c) && BigEndian(c.ip) + Count(c) <= BigEndian(c.ip) + Pow2(Bits(c)) <= Pow256(|c.ip|)
  {
    var _ := ClearedIsBlock(c.ip, Bits(c));
  }

  /** A network that is mapped, or next to mapped addresses, does not mix with them. */
  lemma MappedAlike(c: Cidr, ip: seq<byte>)
    requires Parsed(c) && |ip| == |c.ip| && Cleared(ip, Bits(c)) == c.ip
    ensures Bits(c) <= 32 ==> Mapped(ip) == Mapped(c.ip)
    ensures Bits(c) > 32 ==> !Mapped(c.ip)
  {
    if |c.ip| == 16 {
      if Bits(c) <= 32 {
        ClearedKeepsFront(ip, Bits(c), 12);
        ClearedKeepsFront(c.ip, Bits(c), 12);
      } else {
        ClearedIsNot255(c.ip, Bits(c), 11);
      }
    }
  }

  /** In its block, a network contains just the addresses in front of the first mapped one and behind the last. */
  lemma ContainsIff(c: Cidr, ip: seq<byte>)
    requires Parsed(c) && |ip| == |c.ip|
    ensures var base, v := BigEndian(c.ip), BigEndian(ip);
            Contains(c, ip) <==> base <= v < base + Pow2(Bits(c)) && (base + Count(c) <= v ==> v >= BEHIND_MAPPED)
  {
    SameMaskIff(c.ip, ip, Bits(c));
    if |ip| == 16 {
      MappedIff(ip);
      MappedIff(c.ip);
    }
    if Cleared(ip, Bits(c)) == c.ip {
      MappedAlike(c, ip);
    }
  }

  function Address(c: Cidr, k: nat): seq<byte> {
    LowBytes(BigEndian(c.ip) + k, |c.ip|)
  }

  /** The addresses that are enumerated. */
  function Addresses(c: Cidr): seq<seq<byte>>
    requires Parsed(c)
  {
    seq(Count(c), k requires 0 <= k < Count(c) => Address(c, k))
  }

  lemma AddressIs(c: Cidr, k: nat)
    requires Parsed(c) && k < Count(c)
    ensures |Address(c, k)| == |c.ip| && BigEndian(Address(c, k)) == BigEndian(c.ip) + k
    ensures Addresses(c)[k] == Address(c, k)
  {
    CountFits(c);
    BigEndianOfLowBytes(BigEndian(c.ip) + k, |c.ip|);
  }

  /** The list has every address of the network up to the first mapped one, and no other, once and in increasing order. */
  lemma AddressesAreExact(c: Cidr, ip: seq<byte>)
    requires Parsed(c)
    ensures ip in Addresses(c) <==> Contains(c, ip) && BigEndian(ip) < BigEndian(c.ip) + Count(c)
    ensures forall i, j :: 0 <= i < j < Count(c) ==> BigEndian(Addresses(c)[i]) < BigEndian(Addresses(c)[j])
  {
    forall i, j | 0 <= i < j < Count(c)
      ensures BigEndian(Addresses(c)[i]) < BigEndian(Addresses(c)[j])
    {
      AddressIs(c, i);
      AddressIs(c, j);
    }
    CountFits(c);
    if Contains(c, ip) && BigEndian(ip) < BigEndian(c.ip) + Count(c) {
      ContainsIff(c, ip);
      var k := BigEndian(ip) - BigEndian(c.ip);
      AddressIs(c, k);
      BigEndianInjective(ip, Address(c, k));
    }
    if ip in Addresses(c) {
      var k :| 0 <= k < Count(c) && Addresses(c)[k] == ip;
      AddressIs(c, k);
      ContainsIff(c, ip);
    }
  }

  lemma Numbered(v: nat, n: nat) returns (ip: seq<byte>)
    requires v < Pow256(n)
    ensures |ip| == n && BigEndian(ip) == v
  {
    ip := LowBytes(v, n);
    BigEndianOfLowBytes(v, n);
  }

  /** Addresses of the network are missed exactly when some of them lie behind the mapped ones. */
  lemma MissesIff(c: Cidr)
    requires Parsed(c)
    ensures (exists ip :: Contains(c, ip) && ip !in Addresses(c)) <==>
            Count(c) < Pow2(Bits(c)) && BigEndian(c.ip) + Pow2(Bits(c)) > BEHIND_MAPPED
  {
    CountFits(c);
    if ip :| Contains(c, ip) && ip !in Addresses(c) {
      AddressesAreExact(c, ip);
      ContainsIff(c, ip);
    }
    if Count(c) < Pow2(Bits(c)) && BigEndian(c.ip) + Pow2(Bits(c)) > BEHIND_MAPPED {
      var ip := Numbered(BEHIND_MAPPED, |c.ip|);
      ContainsIff(c, ip);
      AddressesAreExact(c, ip);
    }
  }

  lemma SixBytes()
    ensures Pow256(6) == BEHIND_MAPPED
  {
    assert Pow256(3) == 0x100_0000;
    assert Pow256(4) == 0x1_0000_0000;
    assert Pow256(5) == 0x100_0000_0000;
  }

  lemma ZeroInFront(front: seq<byte>, low: seq<byte>)
    requires |low| == 6
    ensures BigEndian(front + low) < BEHIND_MAPPED <==> BigEndian(front) == 0
  {
    BigEndianConcat(front, low);
    BigEndianBound(low);
    ShiftLeftSteps(BigEndian(front), 6);
    ShiftLeftZero(6);
    SixBytes();
  }

  lemma BelowMappedEnd(c: Cidr, ip: seq<byte>)
    requires Parsed(c) && |c.ip| == 16 && c.ones >= 80 && BigEndian(c.ip) < BEHIND_MAPPED && Contains(c, ip)
    ensures BigEndian(ip) < BEHIND_MAPPED
  {
    ClearedKeepsFront(ip, Bits(c), 10);
    ClearedKeepsFront(c.ip, Bits(c), 10);
    assert ip == ip[..10] + ip[10..] && c.ip == c.ip[..10] + c.ip[10..];
    ZeroInFront(ip[..10], ip[10..]);
    ZeroInFront(c.ip[..10], c.ip[10..]);
  }

  /** An IPv4 network, and one of IPv6 with a prefix of 80 bits or more, misses none. */
  lemma LongPrefixMissesNone(c: Cidr, ip: seq<byte>)
    requires Parsed(c) && (|c.ip| == 4 || c.ones >= 80) && Contains(c, ip)
    ensures ip in Addresses(c)
  {
    AddressesAreExact(c, ip);
    ContainsIff(c, ip);
    if BigEndian(ip) >= BigEndian(c.ip) + Count(c) {
      BelowMappedEnd(c, ip);
    }
  }

  // ---------------------------------------------------------------- discovery

  datatype Host = Ip(address: seq<byte>) | Name(text: string)

  function Ips(addresses: seq<seq<byte>>): seq<Host> {
    seq(|addresses|, i requires 0 <= i < |addresses| => Ip(addresses[i]))
  }

  predicate AllAccepted(cidr: seq<Cidr>) {
    forall i :: 0 <= i < |cidr| ==> Accepted(cidr[i])
  }

  function AllIps(cidr: seq<Cidr>): seq<Host>
    requires AllAccepted(cidr)
  {
    if cidr == [] then [] else AllIps(cidr[..|cidr| - 1]) + Ips(Addresses(cidr[|cidr| - 1]))
  }

  function Names(hosts: seq<string>): seq<Host> {
    seq(|hosts|, i requires 0 <= i < |hosts| => Name(hosts[i]))
  }

  function Blanks(n: nat): seq<Host> {
    seq(n, _ => Name(""))
  }

  /** How many addresses some networks have together. */
  function Total(cidr: seq<Cidr>): nat
    requires AllAccepted(cidr)
  {
    if cidr == [] then 0 else Total(cidr[..|cidr| - 1]) + Count(cidr[|cidr| - 1])
  }

  lemma AllIpsMore(cidr: seq<Cidr>)
    requires AllAccepted(cidr) && cidr != []
    ensures var m := |cidr| - 1;
            AllAccepted(cidr[..m]) && AllIps(cidr) == AllIps(cidr[..m]) + Ips(Addresses(cidr[m])) && |Addresses(cidr[m])| == Count(cidr[m])
  {
  }

  lemma {:induction false} AllIpsLength(cidr: seq<Cidr>)
    requires AllAccepted(cidr)
    ensures |AllIps(cidr)| == Total(cidr)
  {
    if cidr != [] {
      AllIpsMore(cidr);
      AllIpsLength(cidr[..|cidr| - 1]);
    }
  }

  lemma {:induction false} AllIpsPrefix(cidr: seq<Cidr>, n: nat)
    requires AllAccepted(cidr) && n <= |cidr|
    ensures AllIps(cidr[..n]) <= AllIps(cidr)
  {
    if n == |cidr| {
      assert cidr[..n] == cidr;
    } else {
      var m := |cidr| - 1;
      assert cidr[..m][..n] == cidr[..n];
      AllIpsPrefix(cidr[..m], n);
      AllIpsMore(cidr);
    }
  }

  /** Address `k` of network `c` comes behind all those of the networks before it. */
  lemma AllIpsAt(cidr: seq<Cidr>, c: nat, k: nat)
    requires AllAccepted(cidr) && c < |cidr| && k < Count(cidr[c])
    ensures Total(cidr[..c]) + k < |AllIps(cidr)| && AllIps(cidr)[Total(cidr[..c]) + k] == Ip(Address(cidr[c], k))
  {
    var upTo := cidr[..c + 1];
    assert upTo[..c] == cidr[..c] && upTo[c] == cidr[c];
    AllIpsPrefix(cidr, c + 1);
    AllIpsMore(upTo);
    AllIpsLength(cidr[..c]);
    AddressIs(cidr[c], k);
  }

  /** The hosts of a list, position by position. */
  lemma HostAt(n: nat, cidr: seq<Cidr>, hosts: seq<string>, c: nat, k: nat)
    requires AllAccepted(cidr)
    ensures var h, total := Blanks(n) + AllIps(cidr) + Names(hosts), Total(cidr);
            && |h| == n + total + |hosts|
            && (k < n ==> h[k] == Name(""))
            && (c < |cidr| && k < Count(cidr[c]) ==>
                  n + Total(cidr[..c]) + k < |h| && h[n + Total(cidr[..c]) + k] == Ip(Address(cidr[c], k)))
            && (k < |hosts| ==> h[n + total + k] == Name(hosts[k]))
  {
    AllIpsLength(cidr);
    if c < |cidr| && k < Count(cidr[c]) {
      AllIpsAt(cidr, c, k);
    }
  }

  lemma OneMoreAddress(c: Cidr, k: nat)
    requires Parsed(c) && k < Count(c)
    ensures Ips(Addresses(c)[..k + 1]) == Ips(Addresses(c)[..k]) + [Ip(Address(c, k))]
  {
    AddressIs(c, k);
  }

  lemma AllAddresses(c: Cidr, k: nat)
    requires Parsed(c) && k <= Count(c)
    ensures k < Count(c) ==> Contains(c, Address(c, k))
    ensures k == Count(c) ==> Addresses(c)[..k] == Addresses(c)
  {
    if k < Count(c) {
      AddressIs(c, k);
      ContainsIff(c, Address(c, k));
    }
  }

  /** Starts at the network's own address and goes on for as long as the network contains the next one. */
  method Enumerate(c: Cidr) returns (h: seq<Host>)
    requires Accepted(c)
    ensures h == Ips(Addresses(c))
  {
    h := [];
    CountFits(c);
    var start := Cleared(c.ip, Bits(c));
    var ip := new byte[|c.ip|](i requires 0 <= i < |c.ip| => start[i]);
    ghost var k := 0;
    assert ip[..] == c.ip;
    FirstAddress(c);
    while Contains(c, ip[..])
      invariant fresh(ip) && ip.Length == |c.ip| && k <= Count(c) && h == Ips(Addresses(c)[..k])
      invariant if k < Count(c) then ip[..] == Address(c, k) else !Contains(c, ip[..])
      decreases Count(c) - k
    {
      h := h + [Ip(ip[..])];
      OneMoreAddress(c, k);
      NextAddress(c, k);
      IncIP(ip);
      k := k + 1;
    }
    AllAddresses(c, k);
  }

  lemma FirstAddress(c: Cidr)
    requires Parsed(c)
    ensures Address(c, 0) == c.ip
  {
    CountFits(c);
    AddressIs(c, 0);
    BigEndianInjective(Address(c, 0), c.ip);
  }

  lemma {:induction false} Pow2Below(bits: nat, n: nat)
    requires bits < 8 * n
    ensures Pow2(bits) < Pow256(n)
  {
    if bits >= 8 {
      Pow2OfByte(bits);
      Pow2Below(bits - 8, n - 1);
    } else if bits > 0 {
      ByteBlock(0, bits);
    }
  }

  /** Behind the last address the network contains none that comes next, not even where the addresses start again at 0. */
  lemma NextAddress(c: Cidr, k: nat)
    requires Accepted(c) && k < Count(c)
    ensures if k + 1 < Count(c) then Next(Address(c, k)) == Address(c, k + 1) else !Contains(c, Next(Address(c, k)))
  {
    CountFits(c);
    AddressIs(c, k);
    var next := Next(Address(c, k));
    NextIsSuccessor(Address(c, k));
    if k + 1 < Count(c) {
      AddressIs(c, k + 1);
      BigEndianInjective(next, Address(c, k + 1));
    } else {
      ContainsIff(c, next);
      Pow2Below(Bits(c), |c.ip|);
    }
  }

  class StaticRoot {
    const hosts: seq<string>
    const cidr: seq<Cidr>
    var size: nat

    constructor (cidr: seq<Cidr>, hosts: seq<string>)
      ensures this.cidr == cidr && this.hosts == hosts && size == 0
    {
      this.cidr, this.hosts, this.size := cidr, hosts, 0;
    }

    /** The list is made with as many blank hosts as there were hosts the last time. */
    method Discover() returns (h: seq<Host>)
      requires AllAccepted(cidr)
      modifies this
      ensures h == Blanks(old(size)) + AllIps(cidr) + Names(hosts)
      ensures size == |h|
    {
      h := Blanks(size);
      assert cidr[..0] == [] && h + [] == h;
      for i := 0 to |cidr|
        invariant h == Blanks(size) + AllIps(cidr[..i]) && size == old(size)
      {
        var addresses := Enumerate(cidr[i]);
        assert cidr[..i + 1][..i] == cidr[..i];
        h := h + addresses;
      }
      assert cidr[..|cidr|] == cidr;
      h := h + Names(hosts);
      size := |h|;
    }
  }

  /** A network with a prefix of fewer than 24 bits is refused, and so is a source without any host. */
  method NewStaticRoot(cidr: seq<Cidr>, hosts: seq<string>) returns (root: StaticRoot?)
    requires forall c :: c in cidr ==> Parsed(c)
    ensures root == null <==> (exists i :: 0 <= i < |cidr| && cidr[i].ones < 24) || (cidr == [] && hosts == [])
    ensures root != null ==> fresh(root) && root.cidr == cidr && root.hosts == hosts && root.size == 0
  {
    for i := 0 to |cidr|
      invariant forall j :: 0 <= j < i ==> cidr[j].ones >= 24
    {
      if cidr[i].ones < 24 {
        return null;
      }
    }
    if |cidr| == 0 && |hosts| == 0 {
      return null;
    }
    root := new StaticRoot(cidr, hosts);
  }
}
