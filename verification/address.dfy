/** Socket addresses as the layer stores them (`sockaddr_storage` holding a
    `sockaddr_in` or a `sockaddr_in6`), their three-way comparison, the port
    they carry and their rendering as text. */
module Address {
  import opened Decimal

  type Byte = b: int | 0 <= b < 0x100
  type U16 = x: int | 0 <= x < 0x1_0000
  type U32 = x: int | 0 <= x < 0x1_0000_0000

  /** The 16 bytes of an IPv6 address, in memory order. */
  type In6Addr = s: seq<Byte> | |s| == 16 witness seq(16, i => 0)

  // address family numbers of Linux
  const AF_INET := 2
  const AF_INET6 := 10

  /** A socket address. `port` is the stored port (network byte order, as
      `sin_port`/`sin6_port` hold it), `addr` the stored `s_addr` word or the
      `sin6_addr` bytes. */
  datatype SockAddr =
    | V4(port: U16, addr: U32)
    | V6(port: U16, flowinfo: U32, addr6: In6Addr, scopeId: U32)

  function Family(a: SockAddr): int
  {
    if a.V4? then AF_INET else AF_INET6
  }

  /** htons/ntohs on a little-endian host: the two bytes of the port swap places. */
  function Htons(p: U16): (n: U16)
  {
    (p % 0x100) * 0x100 + p / 0x100
  }

  function Ntohs(n: U16): (p: U16)
  {
    (n % 0x100) * 0x100 + n / 0x100
  }

  /** The conversion to network order is undone by the conversion back, both ways. */
  lemma PortRoundTrip(p: U16)
    ensures Ntohs(Htons(p)) == p
    ensures Htons(Ntohs(p)) == p
  {
    var lo, hi := p % 0x100, p / 0x100;
    assert p == hi * 0x100 + lo;
    assert Htons(p) == lo * 0x100 + hi;
    assert (lo * 0x100 + hi) % 0x100 == hi;
    assert (lo * 0x100 + hi) / 0x100 == lo;
  }

  /** `htons(port)` of an `int` port: the value is first truncated to 16 bits. */
  function HtonsInt(port: int): U16
  {
    Htons(port % 0x1_0000)
  }

  /** The port number an address carries, in host order. */
  function GetPort(a: SockAddr): (p: U16)
    ensures Htons(p) == a.port
  {
    PortRoundTrip(a.port);
    Ntohs(a.port)
  }

  /** The address with its stored port replaced by `htons(port)`. */
  function WithPort(a: SockAddr, port: int): (b: SockAddr)
    ensures GetPort(b) == port % 0x1_0000
    ensures Family(b) == Family(a)
    ensures b.V4? ==> b.addr == a.addr
    ensures b.V6? ==> b.addr6 == a.addr6 && b.flowinfo == a.flowinfo && b.scopeId == a.scopeId
  {
    PortRoundTrip(port % 0x1_0000);
    a.(port := HtonsInt(port))
  }

  /** The sign of an integer comparison, as `compareAddress` reports it. */
  function Cmp(x: int, y: int): (r: int)
    ensures r == -1 || r == 0 || r == 1
    ensures r == 0 <==> x == y
    ensures r < 0 <==> x < y
  {
    if x < y then -1 else if y < x then 1 else 0
  }

  /** The sign of `memcmp` over two byte strings of one length. */
  function MemCmp(x: seq<Byte>, y: seq<Byte>): (r: int)
    requires |x| == |y|
    ensures r == -1 || r == 0 || r == 1
  {
    if |x| == 0 then 0
    else if x[0] < y[0] then -1
    else if y[0] < x[0] then 1
    else MemCmp(x[1..], y[1..])
  }

  /** `compareAddress`: family first, then the stored port, then the address
      (the raw `s_addr` word, or the `sin6_addr` bytes in memory order). The
      IPv6 flow label and scope id take no part. */
  function Compare(a: SockAddr, b: SockAddr): (r: int)
    ensures r == -1 || r == 0 || r == 1
  {
    if Family(a) < Family(b) then -1
    else if Family(b) < Family(a) then 1
    else if a.port < b.port then -1
    else if b.port < a.port then 1
    else if a.V4? then Cmp(a.addr, b.addr)
    else MemCmp(a.addr6, b.addr6)
  }

  /** The parts of an address that `compareAddress` looks at. */
  predicate SameEndpoint(a: SockAddr, b: SockAddr)
  {
    Family(a) == Family(b) && a.port == b.port
    && (a.V4? ==> a.addr == b.addr)
    && (a.V6? ==> a.addr6 == b.addr6)
  }

  lemma {:induction false} MemCmpZero(x: seq<Byte>, y: seq<Byte>)
    requires |x| == |y|
    ensures MemCmp(x, y) == 0 <==> x == y
  {
    if |x| > 0 {
      MemCmpZero(x[1..], y[1..]);
      if x[0] == y[0] && x[1..] == y[1..] {
        assert x == [x[0]] + x[1..] && y == [y[0]] + y[1..];
      }
    }
  }

  lemma {:induction false} MemCmpAntisymmetric(x: seq<Byte>, y: seq<Byte>)
    requires |x| == |y|
    ensures MemCmp(x, y) == -MemCmp(y, x)
  {
    if |x| > 0 && x[0] == y[0] {
      MemCmpAntisymmetric(x[1..], y[1..]);
    }
  }

  lemma {:induction false} MemCmpTransitive(x: seq<Byte>, y: seq<Byte>, z: seq<Byte>)
    requires |x| == |y| == |z|
    requires MemCmp(x, y) <= 0 && MemCmp(y, z) <= 0
    ensures MemCmp(x, z) <= 0
    ensures MemCmp(x, y) < 0 || MemCmp(y, z) < 0 ==> MemCmp(x, z) < 0
  {
    if |x| > 0 && x[0] == y[0] == z[0] {
      MemCmpTransitive(x[1..], y[1..], z[1..]);
    }
  }

  /** `compareAddress(a, a) == 0`. */
  lemma CompareReflexive(a: SockAddr)
    ensures Compare(a, a) == 0
  {
    if a.V6? { MemCmpZero(a.addr6, a.addr6); }
  }

  /** Swapping the arguments negates the result. */
  lemma CompareAntisymmetric(a: SockAddr, b: SockAddr)
    ensures Compare(a, b) == -Compare(b, a)
  {
    if a.V6? && b.V6? { MemCmpAntisymmetric(a.addr6, b.addr6); }
  }

  /** The result is 0 exactly when family, stored port and address agree. */
  lemma CompareZeroIff(a: SockAddr, b: SockAddr)
    ensures Compare(a, b) == 0 <==> SameEndpoint(a, b)
  {
    if a.V6? && b.V6? { MemCmpZero(a.addr6, b.addr6); }
  }

  /** "At most" and "strictly less" are both transitive. */
  lemma CompareTransitive(a: SockAddr, b: SockAddr, c: SockAddr)
    requires Compare(a, b) <= 0 && Compare(b, c) <= 0
    ensures Compare(a, c) <= 0
    ensures Compare(a, b) < 0 || Compare(b, c) < 0 ==> Compare(a, c) < 0
  {
    if a.V6? && b.V6? && c.V6? && a.port == b.port == c.port {
      MemCmpTransitive(a.addr6, b.addr6, c.addr6);
    }
  }

  /** Comparing 0 is an equivalence: it is also transitive. */
  lemma CompareZeroTransitive(a: SockAddr, b: SockAddr, c: SockAddr)
    requires Compare(a, b) == 0 && Compare(b, c) == 0
    ensures Compare(a, c) == 0
  {
    CompareZeroIff(a, b);
    CompareZeroIff(b, c);
    CompareZeroIff(a, c);
  }

  /** Two IPv6 addresses that differ only in flow label and scope id compare equal. */
  lemma CompareIgnoresScope(a: SockAddr, flow: U32, scope: U32)
    requires a.V6?
    ensures Compare(a, a.(flowinfo := flow, scopeId := scope)) == 0
  {
    CompareZeroIff(a, a.(flowinfo := flow, scopeId := scope));
  }

  /** Ports are compared in stored (network) order, which is not numeric order:
      port 1 sorts after port 256 on a little-endian host. */
  lemma StoredPortOrderIsNotNumeric()
    ensures Compare(WithPort(V4(0, 0), 1), WithPort(V4(0, 0), 256)) == 1
  {
    assert HtonsInt(1) == 256 && HtonsInt(256) == 1;
  }

  /** `IN6_IS_ADDR_UNSPECIFIED`: the address `::` (section 2.5.2 of RFC 4291). */
  predicate IsUnspecified6(s: In6Addr)
  {
    forall i :: 0 <= i < 16 ==> s[i] == 0
  }

  /** `IN6_IS_ADDR_LINKLOCAL`: the prefix fe80::/10 (section 2.5.6 of RFC 4291). */
  predicate IsLinkLocal6(s: In6Addr)
  {
    s[0] == 0xfe && s[1] / 0x40 == 2
  }

  /** The "any" address of either family (`INADDR_ANY` or `::`). */
  predicate IsAnyAddress(a: SockAddr)
  {
    if a.V4? then a.addr == 0 else IsUnspecified6(a.addr6)
  }

  /** `addrToString`: the numeric host (rendered by `inetAddrToString`, passed
      in as `host` because it is `getnameinfo`'s work), a colon, the port. */
  function AddrToString(host: SockAddr -> string, a: SockAddr): string
  {
    host(a) + ":" + NatToString(GetPort(a))
  }

  /** `addressesToString`: the local address, then the peer address or a
      marker when there is no peer. */
  function AddressesToString(host: SockAddr -> string, local: SockAddr, remote: SockAddr,
                             peerConnected: bool): (s: string)
    ensures |s| > 16 && s[..16] == "local address = "
    ensures s[|s| - 1] == '>' <==> !peerConnected
  {
    "local address = " + AddrToString(host, local)
      + (if peerConnected then "\nremote address = " + AddrToString(host, remote)
         else "\nremote address = <not connected>")
  }

  /** The port survives rendering: it is read back from the text after the
      colon that follows the host. */
  lemma AddrToStringPort(host: SockAddr -> string, a: SockAddr)
    ensures var s := AddrToString(host, a);
      var k := |host(a)| + 1;
      s[k - 1] == ':' && ParseNat(s[k..]) == GetPort(a)
  {
    var s := AddrToString(host, a);
    var k := |host(a)| + 1;
    assert s[k..] == NatToString(GetPort(a));
    NatRoundTrip(GetPort(a));
  }
}
