/** IPv4 addresses as the code sees them, the fake addresses it hands out, and the networks it leaves alone. */
module AddressCodec {
  import opened Bits

  /** An `in_addr_t` in network byte order: the four bytes in memory, first octet first. */
  datatype Addr = Addr(a: Byte, b: Byte, c: Byte, d: Byte)

  function Ntohl(x: Addr): Word {
    ((x.a * 256 + x.b) * 256 + x.c) * 256 + x.d
  }

  function Htonl(h: Word): Addr {
    Addr(h / 256 / 256 / 256, h / 256 / 256 % 256, h / 256 % 256, h % 256)
  }

  lemma ByteOrder(x: Addr, h: Word)
    ensures Htonl(Ntohl(x)) == x && Ntohl(Htonl(h)) == h
  {
    var n := Ntohl(x);
    assert n / 256 == (x.a * 256 + x.b) * 256 + x.c;
    assert n / 256 / 256 == x.a * 256 + x.b;
  }

  lemma Sizes()
    ensures Shl(1, 8) == 0x100 && Shl(1, 24) == 0x100_0000 && Shl(1, 32) == 0x1_0000_0000
  {
    assert Shl(1, 8) == 0x100 && Shl(1, 16) == 0x1_0000;
  }

  // ---------- the fake addresses ----------

  const ADDR_PREFIX: Byte := 240
  const BITS_COUNT: nat := 24
  const ADDR_COUNT: nat := 0xff_ffff

  lemma PrefixShifted()
    ensures Shl(ADDR_PREFIX, BITS_COUNT) == 0xf000_0000
  {
    Sizes();
    ShlIsProduct(ADDR_PREFIX, 24);
  }

  /** The prefix shifted into place, or-ed with the index plus one truncated to 32 bits. */
  function HostOfIndex(index: nat): Word {
    PrefixShifted();
    Sizes();
    BitsBound(32, Shl(ADDR_PREFIX, BITS_COUNT), (index + 1) % 0x1_0000_0000);
    Or(Shl(ADDR_PREFIX, BITS_COUNT), (index + 1) % 0x1_0000_0000)
  }

  /** The subtraction wraps. */
  function IndexOfHost(host: Word): nat {
    And(ADDR_COUNT, (host + 0xffff_ffff) % 0x1_0000_0000)
  }

  /** index_to_addr */
  function IndexToAddr(index: nat): Addr {
    Htonl(HostOfIndex(index))
  }

  /** addr_to_index */
  function AddrToIndex(addr: Addr): nat {
    IndexOfHost(Ntohl(addr))
  }

  /** is_resolved_addr looks at the first byte in memory. */
  predicate IsResolvedAddr(addr: Addr) {
    addr.a == ADDR_PREFIX
  }

  lemma PrefixOr(index: nat, shifted: nat)
    requires index < ADDR_COUNT && shifted == Shl(ADDR_PREFIX, BITS_COUNT)
    ensures Or(shifted, index + 1) == shifted + (index + 1)
  {
    assert Shl(1, 24) == 0x100_0000 by { Sizes(); }
    OrLow(24, ADDR_PREFIX, index + 1);
  }

  lemma HostValue(index: nat, host: Word)
    requires index < ADDR_COUNT && host == HostOfIndex(index)
    ensures host == 0xf000_0000 + index + 1
  {
    var shifted := Shl(ADDR_PREFIX, BITS_COUNT);
    PrefixShifted();
    assert (index + 1) % 0x1_0000_0000 == index + 1;
    PrefixOr(index, shifted);
  }

  lemma LowBits(x: nat)
    ensures And(ADDR_COUNT, x) == x % 0x100_0000
  {
    Sizes();
    ShlIsProduct(x / 0x100_0000, 24);
    AndLow(24, x / 0x100_0000, x % 0x100_0000);
    AndCommutes(ADDR_COUNT, x);
  }

  lemma Before(host: Word, x: nat)
    requires x == (host + 0xffff_ffff) % 0x1_0000_0000
    ensures x == (if host == 0 then 0xffff_ffff else host - 1)
  {
  }

  lemma BeforeMod(host: nat)
    requires host > 0
    ensures (host - 1) % 0x100_0000 == (if host % 0x100_0000 == 0 then ADDR_COUNT else host % 0x100_0000 - 1)
  {
  }

  lemma PredecessorMod(host: Word, x: nat)
    requires x == (if host == 0 then 0xffff_ffff else host - 1)
    ensures x % 0x100_0000 == (if host % 0x100_0000 == 0 then ADDR_COUNT else host % 0x100_0000 - 1)
  {
    if host > 0 { BeforeMod(host); }
  }

  lemma IndexValue(host: Word, index: nat)
    requires index == IndexOfHost(host)
    ensures index == (if host % 0x100_0000 == 0 then ADDR_COUNT else host % 0x100_0000 - 1)
  {
    var x := (host + 0xffff_ffff) % 0x1_0000_0000;
    LowBits(x);
    Before(host, x);
    PredecessorMod(host, x);
  }

  lemma HostRoundTrip(host: Word, index: nat)
    requires index == IndexOfHost(host)
    ensures (index < ADDR_COUNT && HostOfIndex(index) == host) <==> 0xf000_0000 < host < 0xf100_0000
  {
    IndexValue(host, index);
    if index < ADDR_COUNT { HostValue(index, HostOfIndex(index)); }
  }

  lemma HostPrefix(addr: Addr, host: Word)
    requires host == Ntohl(addr)
    ensures IsResolvedAddr(addr) <==> 0xf000_0000 <= host < 0xf100_0000
    ensures addr == Addr(ADDR_PREFIX, 0, 0, 0) <==> host == 0xf000_0000
    ensures addr == Addr(ADDR_PREFIX, 0, 0, 0) ==> host % 0x100_0000 == 0
  {
  }

  /** Every index of the ring has its own address in 240.0.0.0/8, and its address gives the index back. */
  lemma IndexRoundTrip(index: nat, addr: Addr)
    requires index < ADDR_COUNT && addr == IndexToAddr(index)
    ensures IsResolvedAddr(addr) && addr != Addr(ADDR_PREFIX, 0, 0, 0) && AddrToIndex(addr) == index
    ensures addr.a == 240 && (addr.b * 256 + addr.c) * 256 + addr.d == index + 1
  {
    var host := HostOfIndex(index);
    HostValue(index, host);
    ByteOrder(addr, host);
    HostPrefix(addr, host);
    ResultOf(host, index);
  }

  lemma ResultOf(host: Word, index: nat)
    requires index < ADDR_COUNT && host == 0xf000_0000 + index + 1
    ensures IndexOfHost(host) == index
  {
    IndexValue(host, IndexOfHost(host));
  }

  lemma AddrOfHost(addr: Addr, host: Word, back: Word)
    requires host == Ntohl(addr)
    ensures Htonl(back) == addr <==> back == host
  {
    ByteOrder(addr, back);
  }

  /** An address comes back from its index exactly when it is one the ring hands out: 240.x.y.z but not 240.0.0.0. */
  lemma AddrRoundTripIff(addr: Addr, index: nat)
    requires index == AddrToIndex(addr)
    ensures (index < ADDR_COUNT && IndexToAddr(index) == addr) <==> (IsResolvedAddr(addr) && addr != Addr(ADDR_PREFIX, 0, 0, 0))
    ensures addr == Addr(ADDR_PREFIX, 0, 0, 0) ==> index == ADDR_COUNT
  {
    var host := Ntohl(addr);
    HostPrefix(addr, host);
    AddrOfHost(addr, host, HostOfIndex(index));
    HostRoundTrip(host, index);
    IndexValue(host, index);
  }

  /** A proxy; address 0 stands for none. Ports are the two bytes in memory. */
  datatype SocketAddress = SocketAddress(addr: Addr, port: Bytes)

  const NO_ADDR: Addr := Addr(0, 0, 0, 0)
  const NO_PROXY: SocketAddress := SocketAddress(NO_ADDR, [0, 0])

  // ---------- addresses that are never proxied ----------

  /** `&` on the four bytes. */
  function And8(x: Byte, y: Byte): Byte {
    Sizes();
    BitsBound(8, x, y);
    And(x, y)
  }

  function AndAddr(x: Addr, y: Addr): Addr {
    Addr(And8(x.a, y.a), And8(x.b, y.b), And8(x.c, y.c), And8(x.d, y.d))
  }

  /** A network to bypass, in network byte order; port 0 stands for every port. */
  datatype Network = Network(addr: Addr, mask: Addr, port: nat)

  function HostNetwork(addr: Word, mask: Word): Network {
    Network(Htonl(addr), Htonl(mask), 0)
  }

  const BYPASS_NETWORKS: seq<Network> := [
    HostNetwork(0x7f00_0000, 0xff00_0000),
    HostNetwork(0x0a00_0000, 0xff00_0000),
    HostNetwork(0xac10_0000, 0xfff0_0000),
    HostNetwork(0xc0a8_0000, 0xffff_0000)
  ]

  predicate Matches(n: Network, addr: Addr, port: nat) {
    AndAddr(addr, n.mask) == AndAddr(n.addr, n.mask) && (n.port == 0 || port == n.port)
  }

  /** A network with a port matches on that port only, and there as one for every port. */
  lemma PortOfNetwork(addr: Addr, mask: Addr, q: nat, target: Addr, port: nat)
    ensures Matches(Network(addr, mask, q), target, port) <==>
      Matches(Network(addr, mask, 0), target, 0) && (q == 0 || q == port)
  {
  }

  method ShouldBypass(networks: seq<Network>, addr: Addr, port: nat, ipv6: bool) returns (r: bool)
    ensures r <==> !ipv6 && exists i :: 0 <= i < |networks| && Matches(networks[i], addr, port)
  {
    if !ipv6 {
      for i := 0 to |networks|
        invariant forall j :: 0 <= j < i ==> !Matches(networks[j], addr, port)
      {
        var n := networks[i];
        if AndAddr(addr, n.mask) == AndAddr(n.addr, n.mask) && (n.port == 0 || port == n.port) {
          return true;
        }
      }
    }
    return false;
  }

  /** An octet under the masks 255, 240 and 0. */
  lemma OctetMasks(x: Byte)
    ensures And8(x, 255) == x && And8(x, 240) == x / 16 * 16 && And8(x, 0) == 0
  {
    Sizes();
    AndOnes(8, x);
    assert Shl(1, 4) == 16 && Shl(15, 4) == 240;
    ShlIsProduct(x / 16, 4);
    AndHigh(4, x / 16, x % 16, 15);
    AndOnes(4, x / 16);
    AndZero(x);
  }

  /** A mask of one octet and a prefix of the second. */
  lemma InNetwork(n: Network, x: Byte, y: Byte, m: Byte, addr: Addr, port: nat)
    requires n == Network(Addr(x, y, 0, 0), Addr(255, m, 0, 0), 0)
    ensures Matches(n, addr, port) <==> addr.a == x && And8(addr.b, m) == And8(y, m)
  {
    OctetMasks(addr.a);
    OctetMasks(addr.c);
    OctetMasks(addr.d);
    OctetMasks(x);
    OctetMasks(0);
  }

  predicate Bypassed(networks: seq<Network>, addr: Addr, port: nat) {
    exists i :: 0 <= i < |networks| && Matches(networks[i], addr, port)
  }

  lemma ConfiguredNetworks(ns: seq<Network>)
    requires ns == BYPASS_NETWORKS
    ensures |ns| == 4
    ensures ns[0] == Network(Addr(127, 0, 0, 0), Addr(255, 0, 0, 0), 0)
    ensures ns[1] == Network(Addr(10, 0, 0, 0), Addr(255, 0, 0, 0), 0)
    ensures ns[2] == Network(Addr(172, 16, 0, 0), Addr(255, 240, 0, 0), 0)
    ensures ns[3] == Network(Addr(192, 168, 0, 0), Addr(255, 255, 0, 0), 0)
  {
  }

  lemma BypassedByFour(ns: seq<Network>, addr: Addr, port: nat)
    requires |ns| == 4
    requires ns[0] == Network(Addr(127, 0, 0, 0), Addr(255, 0, 0, 0), 0)
    requires ns[1] == Network(Addr(10, 0, 0, 0), Addr(255, 0, 0, 0), 0)
    requires ns[2] == Network(Addr(172, 16, 0, 0), Addr(255, 240, 0, 0), 0)
    requires ns[3] == Network(Addr(192, 168, 0, 0), Addr(255, 255, 0, 0), 0)
    ensures Bypassed(ns, addr, port) <==>
      addr.a == 127 || addr.a == 10 || (addr.a == 172 && 16 <= addr.b < 32) || (addr.a == 192 && addr.b == 168)
  {
    OneOfFour(ns, addr, port);
    InNetwork(ns[0], 127, 0, 0, addr, port);
    InNetwork(ns[1], 10, 0, 0, addr, port);
    InNetwork(ns[2], 172, 16, 240, addr, port);
    InNetwork(ns[3], 192, 168, 255, addr, port);
    OctetMasks(addr.b);
    OctetMasks(0);
    OctetMasks(16);
    OctetMasks(168);
  }

  lemma OneOfFour(ns: seq<Network>, addr: Addr, port: nat)
    requires |ns| == 4
    ensures Bypassed(ns, addr, port) <==>
      Matches(ns[0], addr, port) || Matches(ns[1], addr, port) || Matches(ns[2], addr, port) || Matches(ns[3], addr, port)
  {
  }

  /** The configured networks are exactly loopback and the three private ranges; no fake address is in any of them. */
  lemma BypassedIff(addr: Addr, port: nat, ns: seq<Network>)
    requires ns == BYPASS_NETWORKS
    ensures Bypassed(ns, addr, port) <==>
      addr.a == 127 || addr.a == 10 || (addr.a == 172 && 16 <= addr.b < 32) || (addr.a == 192 && addr.b == 168)
    ensures IsResolvedAddr(addr) ==> !Bypassed(ns, addr, port)
  {
    ConfiguredNetworks(ns);
    BypassedByFour(ns, addr, port);
  }
}
