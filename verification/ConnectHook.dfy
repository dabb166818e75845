/**
 The replaced `connect`: which calls it passes on, how it reaches the target directly or through the proxy, and what
 that does to the process's descriptors and to the flags of the caller's socket.
 */
module ConnectHook {
  import opened AddressCodec
  import opened Bits
  import opened Options
  import opened Socks5
  import opened SocksClient

  // ---------- descriptors ----------

  /** An open file description. */
  datatype File = File(stream: bool, nonblock: bool)

  /** The descriptors of the process, and the descriptions they refer to: several may refer to the same one. */
  class Kernel {
    var fds: map<int, nat>
    var files: seq<File>

    ghost predicate Valid()
      reads this
    {
      forall fd :: fd in fds ==> 0 <= fd && fds[fd] < |files|
    }

    predicate Nonblock(fd: int)
      requires Valid()
      reads this
    {
      fd in fds && files[fds[fd]].nonblock
    }

    constructor ()
      ensures Valid() && fds == map[] && files == []
    {
      fds, files := map[], [];
    }

    /** socket: the kernel gives a free descriptor of its choice, or none. */
    method Socket(choice: int) returns (fd: int)
      requires Valid()
      modifies this
      ensures Valid()
      ensures choice < 0 || choice in old(fds) ==> fd == -1 && fds == old(fds) && files == old(files)
      ensures choice >= 0 && choice !in old(fds) ==> fd == choice && Opened(old(fds), old(files), fds, files, fd)
    {
      if choice < 0 || choice in fds {
        return -1;
      }
      fds := fds[choice := |files|];
      files := files + [File(true, false)];
      return choice;
    }

    /** fcntl with F_SETFL; no effect on a descriptor that is not open. */
    method SetNonblock(fd: int, on: bool)
      requires Valid()
      modifies this`files
      ensures Valid() && |files| == |old(files)|
      ensures files == if fd in fds then old(files)[fds[fd] := old(files[fds[fd]]).(nonblock := on)] else old(files)
    {
      if fd in fds {
        files := files[fds[fd] := files[fds[fd]].(nonblock := on)];
      }
    }

    method Dup2(source: int, target: int)
      requires Valid() && source in fds && target >= 0
      modifies this`fds
      ensures Valid() && fds == old(fds)[target := old(fds)[source]]
    {
      fds := fds[target := fds[source]];
    }

    method Close(fd: int)
      requires Valid()
      modifies this`fds
      ensures Valid() && fds == old(fds) - {fd}
    {
      fds := fds - {fd};
    }
  }

  /** Exactly one descriptor was opened, on a new blocking stream; nothing else changed. */
  ghost predicate Opened(fds: map<int, nat>, files: seq<File>, fds': map<int, nat>, files': seq<File>, sock: int) {
    && sock >= 0 && sock !in fds && sock in fds' && fds' == fds[sock := fds'[sock]]
    && files <= files' && |files| <= fds'[sock] < |files'| && files'[fds'[sock]] == File(true, false)
  }

  // ---------- connecting a new socket ----------

  /** What the original connect answers on a non-blocking socket, and select after it. */
  datatype ConnectAnswer = Done | InProgress(ready: bool) | Refused

  /** What socket and connect answer for one address. */
  datatype Candidate = Candidate(fd: int, answer: ConnectAnswer)

  predicate Usable(fds: map<int, nat>, c: Candidate) {
    c.fd >= 0 && c.fd !in fds && c.answer == InProgress(true)
  }

  /**
   timed_connect: only a connection that was in progress first counts; one that is made at once is an error. The
   socket is blocking afterwards either way.
   */
  method TimedConnect(k: Kernel, sock: int, answer: ConnectAnswer) returns (ok: bool)
    requires k.Valid() && sock in k.fds
    modifies k`files
    ensures k.Valid() && k.files == old(k.files)[k.fds[sock] := old(k.files[k.fds[sock]]).(nonblock := false)]
    ensures ok <==> answer == InProgress(true)
  {
    k.SetNonblock(sock, true);
    match answer {
      case InProgress(ready) => ok := ready;
      case Done => ok := false;
      case Refused => ok := false;
    }
    k.SetNonblock(sock, false);
  }

  /** A new socket, connected: what make_direct does for one address and make_proxied for the proxy. */
  method OpenConnected(k: Kernel, c: Candidate) returns (sock: int, connected: bool)
    requires k.Valid()
    modifies k
    ensures k.Valid() && (connected <==> Usable(old(k.fds), c))
    ensures sock != -1 <==> c.fd >= 0 && c.fd !in old(k.fds)
    ensures sock == -1 ==> k.fds == old(k.fds) && k.files == old(k.files)
    ensures sock != -1 ==> sock == c.fd && Opened(old(k.fds), old(k.files), k.fds, k.files, sock)
  {
    sock := k.Socket(c.fd);
    connected := false;
    if sock != -1 {
      connected := TimedConnect(k, sock, c.answer);
    }
  }

  // ---------- targets ----------

  /** A socket address; ports are the two bytes in memory. */
  datatype SockAddr = Null | Inet(addr: Bytes, port: Bytes) | Inet6(addr: Bytes, port: Bytes) | Unsupported

  predicate IsSockAddr(x: SockAddr) {
    match x
    case Inet(addr, port) => |addr| == 4 && |port| == 2
    case Inet6(addr, port) => |addr| == 16 && |port| == 2
    case _ => true
  }

  /** Where the caller wants to go. */
  datatype Target = Target(addr: Bytes, port: Bytes, ipv6: bool)

  predicate IsTarget(t: Target) {
    |t.addr| == (if t.ipv6 then 16 else 4) && |t.port| == 2
  }

  const MAPPED: Bytes := [0, 0, 0, 0, 0, 0, 0, 0, 0, 0, 255, 255]

  /** extract_target: an IPv4-mapped IPv6 address is the IPv4 address in its last four bytes. */
  function ExtractTarget(x: SockAddr): (t: Target)
    requires IsSockAddr(x) && (x.Inet? || x.Inet6?)
    ensures IsTarget(t) && t.port == x.port
  {
    if x.Inet? then Target(x.addr, x.port, false)
    else if x.addr[..12] == MAPPED then Target(x.addr[12..], x.port, false)
    else Target(x.addr, x.port, true)
  }

  /** Ten zeros and two 255s in front of an IPv4 address. */
  predicate Mapped(addr: Bytes)
    requires |addr| == 16
  {
    (forall i :: 0 <= i < 10 ==> addr[i] == 0) && addr[10] == 255 && addr[11] == 255
  }

  lemma MappedPrefix(addr: Bytes)
    requires |addr| == 16
    ensures Mapped(addr) <==> addr[..12] == MAPPED
  {
    if addr[..12] == MAPPED {
      forall i | 0 <= i < 12 ensures addr[i] == MAPPED[i] { assert addr[..12][i] == addr[i]; }
    }
  }

  /** What becomes of each kind of address: IPv4 and mapped ones keep their four bytes, the others all sixteen. */
  lemma ExtractedBytes(x: SockAddr)
    requires IsSockAddr(x) && (x.Inet? || x.Inet6?)
    ensures x.Inet? ==> ExtractTarget(x) == Target(x.addr, x.port, false)
    ensures x.Inet6? && Mapped(x.addr) ==>
      ExtractTarget(x) == Target([x.addr[12], x.addr[13], x.addr[14], x.addr[15]], x.port, false)
    ensures x.Inet6? && !Mapped(x.addr) ==> ExtractTarget(x) == Target(x.addr, x.port, true)
  {
    if x.Inet6? { MappedPrefix(x.addr); }
  }

  /** Exactly the mapped addresses are the targets of the plain ones. */
  lemma MappedIff(addr: Bytes, port: Bytes, x: SockAddr)
    requires |addr| == 4 && |port| == 2 && IsSockAddr(x) && x.Inet6?
    ensures ExtractTarget(x) == ExtractTarget(Inet(addr, port)) <==>
            x == Inet6([0, 0, 0, 0, 0, 0, 0, 0, 0, 0, 255, 255] + addr, port)
  {
    assert x.addr == x.addr[..12] + x.addr[12..];
    assert (MAPPED + addr)[..12] == MAPPED && (MAPPED + addr)[12..] == addr;
  }

  /** The first word of the address. */
  function Head(t: Target): Addr
    requires IsTarget(t)
  {
    Addr(t.addr[0], t.addr[1], t.addr[2], t.addr[3])
  }

  function Ntohs(port: Bytes): nat
    requires |port| == 2
  {
    (port[0] as nat) * 256 + port[1]
  }

  /** The name of a target: what the table knows a fake address by, and the numeric form otherwise. */
  function NameOf(t: Target, looked: Bytes, text: (Bytes, bool) -> Bytes): Bytes
    requires IsTarget(t)
  {
    if !t.ipv6 && IsResolvedAddr(Head(t)) then looked else text(t.addr, t.ipv6)
  }

  /** The destination of the SOCKS request. */
  function HostOf(t: Target, looked: Bytes): Host
    requires IsTarget(t)
  {
    if t.ipv6 then V6(t.addr) else if IsResolvedAddr(Head(t)) then Name(looked) else V4(t.addr)
  }

  /** The test for a fake address without a name, which does not ask whether the target is IPv6. */
  predicate Unknown(t: Target, looked: Bytes)
    requires IsTarget(t)
  {
    IsResolvedAddr(Head(t)) && |looked| == 0
  }

  /** A port of the host in network byte order, and back. */
  lemma PortOf(p: nat)
    requires p < 0x1_0000
    ensures Ntohs([p / 256, p % 256]) == p
  {
  }

  /**
   What the proxy reads from a complete request: the four or sixteen bytes of an ordinary address as they are, and
   for a fake IPv4 address the name, cut at 255 bytes.
   */
  lemma RequestNames(t: Target, named: Bytes)
    requires IsTarget(t)
    ensures t.ipv6 ==> ReadClient(GREETING + Request(HostOf(t, named), t.port)) == Some(([0], V6(t.addr), t.port, []))
    ensures !t.ipv6 && t.addr[0] != 240 ==>
      ReadClient(GREETING + Request(HostOf(t, named), t.port)) == Some(([0], V4(t.addr), t.port, []))
    ensures !t.ipv6 && t.addr[0] == 240 && |named| <= 255 ==>
      ReadClient(GREETING + Request(HostOf(t, named), t.port)) == Some(([0], Name(named), t.port, []))
    ensures !t.ipv6 && t.addr[0] == 240 && |named| > 255 ==>
      ReadClient(GREETING + Request(HostOf(t, named), t.port)) == Some(([0], Name(named[..255]), t.port, []))
  {
    ClientRoundTrip(HostOf(t, named), t.port);
  }

  // ---------- connecting to the target ----------

  /** make_direct: the first address of the list that a socket can be connected to; sockets that fail are closed. */
  method MakeDirect(k: Kernel, list: Option<seq<Candidate>>) returns (result: bool, sock: int)
    requires k.Valid()
    modifies k
    ensures k.Valid() && old(k.files) <= k.files
    ensures result <==> list.Some? && exists i :: 0 <= i < |list.value| && Usable(old(k.fds), list.value[i])
    ensures !result ==> k.fds == old(k.fds)
    ensures result ==>
      && Opened(old(k.fds), old(k.files), k.fds, k.files, sock)
      && exists i :: && 0 <= i < |list.value| && Usable(old(k.fds), list.value[i]) && sock == list.value[i].fd
                     && forall j :: 0 <= j < i ==> !Usable(old(k.fds), list.value[j])
  {
    result, sock := false, -1;
    if list.Some? {
      var i := 0;
      while i < |list.value|
        invariant 0 <= i <= |list.value| && k.Valid() && k.fds == old(k.fds) && old(k.files) <= k.files
        invariant forall j :: 0 <= j < i ==> !Usable(old(k.fds), list.value[j])
      {
        var connected;
        sock, connected := OpenConnected(k, list.value[i]);
        if connected {
          return true, sock;
        }
        if sock != -1 {
          k.Close(sock);
        }
        i := i + 1;
      }
    }
  }

  /**
   make_proxied: a socket connected to the proxy, on which the handshake has succeeded. `checked` and `named` are
   two lookups of the name, and `unset` is what the descriptor variable holds before it is assigned.
   */
  method MakeProxied(k: Kernel, target: Target, checked: Bytes, named: Bytes, proxy: Candidate,
      peer: Connection, unset: int)
    returns (result: bool, sock: int)
    requires k.Valid() && IsTarget(target) && peer.Fresh()
    modifies k, peer
    ensures k.Valid() && old(k.files) <= k.files
    ensures result <==> && !Unknown(target, checked) && Usable(old(k.fds), proxy)
                        && !peer.faulted && Accepts(peer.input).Some?
    ensures result ==>
      && Opened(old(k.fds), old(k.files), k.fds, k.files, sock) && peer.pos == Accepts(peer.input).value
      && peer.sent == GREETING + Request(HostOf(target, named), target.port)
      && ReadClient(peer.sent) ==
         Some(([0], if target.ipv6 then V6(target.addr)
                    else if target.addr[0] != 240 then V4(target.addr)
                    else Name(if |named| <= 255 then named else named[..255]), target.port, []))
    ensures !result ==> k.fds == if Unknown(target, checked) then old(k.fds) - {unset} else old(k.fds)
    ensures peer.sent <= GREETING + Request(HostOf(target, named), target.port)
    ensures peer.Reliable() ==> !peer.faulted
  {
    RequestNames(target, named);
    sock := unset;
    if IsResolvedAddr(Head(target)) && |checked| == 0 {
      k.Close(sock);
      return false, sock;
    }
    sock, result := OpenConnected(k, proxy);
    if result {
      result := peer.Handshake(HostOf(target, named), target.port);
    }
    if !result {
      k.Close(sock);
    }
  }

  // ---------- the hook ----------

  datatype Errno = NoError | EInProgress | ETimedOut | Other(code: int)

  /**
   What a call of `connect` finds in its surroundings: the original connect for this call, the names the table
   has for the target at the four times it is asked, numeric forms, the proxy for a name and a port,
   the addresses of a name, the descriptors and the answers for the proxy, and an uninitialised variable.
   */
  datatype World = World(original: (int, Errno),
                         consulted: Bytes, direct: Bytes, checked: Bytes, named: Bytes,
                         text: (Bytes, bool) -> Bytes,
                         proxyFor: (Bytes, nat) -> SocketAddress,
                         resolve: Bytes -> Option<seq<Candidate>>,
                         proxy: Candidate,
                         unset: int)

  /** The calls that go to the original connect. */
  predicate PassedOn(fds: map<int, nat>, files: seq<File>, sock: int, x: SockAddr)
    requires IsSockAddr(x) && (sock in fds ==> fds[sock] < |files|)
  {
    || sock < 0 || sock !in fds || !files[fds[sock]].stream
    || !(x.Inet? || x.Inet6?)
    || (!ExtractTarget(x).ipv6 && Bypassed(BYPASS_NETWORKS, Head(ExtractTarget(x)), Ntohs(x.port)))
  }

  /**
   Exactly which calls are passed on: those on anything but an open stream socket, those to other families, and those
   to loopback and private addresses, plain or mapped. IPv6 is not passed on.
   */
  lemma PassedOnIff(fds: map<int, nat>, files: seq<File>, sock: int, x: SockAddr)
    requires IsSockAddr(x) && (sock in fds ==> fds[sock] < |files|)
    ensures PassedOn(fds, files, sock, x) <==>
      || sock < 0 || sock !in fds || !files[fds[sock]].stream
      || match x
         case Null => true
         case Unsupported => true
         case Inet(addr, _) =>
           || addr[0] == 127 || addr[0] == 10
           || (addr[0] == 172 && 16 <= addr[1] < 32) || (addr[0] == 192 && addr[1] == 168)
         case Inet6(addr, _) =>
           && (forall i :: 0 <= i < 10 ==> addr[i] == 0) && addr[10] == 255 && addr[11] == 255
           && (|| addr[12] == 127 || addr[12] == 10
               || (addr[12] == 172 && 16 <= addr[13] < 32) || (addr[12] == 192 && addr[13] == 168))
  {
    if x.Inet? || x.Inet6? {
      ExtractedBytes(x);
      BypassedIff(Head(ExtractTarget(x)), Ntohs(x.port), BYPASS_NETWORKS);
    }
  }

  /** The proxy the script chooses for the target. */
  function ChosenProxy(t: Target, w: World): SocketAddress
    requires IsTarget(t)
  {
    w.proxyFor(NameOf(t, w.consulted, w.text), Ntohs(t.port))
  }

  /** The addresses to try when there is no proxy. */
  function DirectList(t: Target, w: World): Option<seq<Candidate>>
    requires IsTarget(t)
  {
    w.resolve(NameOf(t, w.direct, w.text))
  }

  /**
   What the script is asked, what is looked up directly, and what the guard refuses, by the bytes of the address:
   an ordinary address goes by its numeric form, a fake one by its name, and the port is the number in the address.
   */
  lemma AskedAbout(x: SockAddr, p: nat, w: World)
    requires IsSockAddr(x) && (x.Inet? || x.Inet6?) && p < 0x1_0000 && x.port == [p / 256, p % 256]
    ensures x.Inet? && x.addr[0] == 240 ==> Asks(ExtractTarget(x), w, w.consulted, w.direct, p)
    ensures x.Inet? && x.addr[0] != 240 ==> Asks(ExtractTarget(x), w, w.text(x.addr, false), w.text(x.addr, false), p)
    ensures x.Inet6? && Mapped(x.addr) && x.addr[12] == 240 ==> Asks(ExtractTarget(x), w, w.consulted, w.direct, p)
    ensures x.Inet6? && Mapped(x.addr) && x.addr[12] != 240 ==>
      var text := w.text([x.addr[12], x.addr[13], x.addr[14], x.addr[15]], false); Asks(ExtractTarget(x), w, text, text, p)
    ensures x.Inet6? && !Mapped(x.addr) ==> Asks(ExtractTarget(x), w, w.text(x.addr, true), w.text(x.addr, true), p)
    ensures Unknown(ExtractTarget(x), w.checked) <==>
      w.checked == [] && x.addr[if x.Inet6? && Mapped(x.addr) then 12 else 0] == 240
  {
    ExtractedBytes(x);
    PortOf(p);
  }

  /** The script is asked about `name` and port `p`, and a direct connection looks up `direct`. */
  predicate Asks(t: Target, w: World, name: Bytes, direct: Bytes, p: nat)
    requires IsTarget(t)
  {
    ChosenProxy(t, w) == w.proxyFor(name, p) && DirectList(t, w) == w.resolve(direct)
  }

  /** The caller's descriptor now refers to a new stream; all other descriptors and descriptions are as they were. */
  ghost predicate HandedOver(fds: map<int, nat>, files: seq<File>, fds': map<int, nat>, files': seq<File>, sock: int) {
    && sock in fds && sock in fds' && fds' == fds[sock := fds'[sock]] && fds[sock] < |files|
    && files <= files' && |files| <= fds'[sock] < |files'|
    && files'[fds'[sock]] == File(true, files[fds[sock]].nonblock)
  }

  /** What that means descriptor by descriptor. */
  lemma OthersKeep(fds: map<int, nat>, files: seq<File>, fds': map<int, nat>, files': seq<File>, sock: int)
    requires HandedOver(fds, files, fds', files', sock) && (forall fd :: fd in fds ==> fds[fd] < |files|)
    ensures fds'.Keys == fds.Keys
    ensures forall fd :: fd in fds && fd != sock ==> fds'[fd] == fds[fd] && files'[fds'[fd]] == files[fds[fd]]
    ensures files'[fds'[sock]].nonblock == files[fds[sock]].nonblock
    ensures forall fd :: fd in fds ==> fds[fd] != fds'[sock]
  {
    assert fds'.Keys == fds.Keys + {sock};
  }

  /** An unnamed fake address and a proxy: the hook closes whatever an uninitialised variable holds. */
  predicate ClosesUnset(fds: map<int, nat>, t: Target, w: World)
    requires IsTarget(t)
  {
    ChosenProxy(t, w).addr != NO_ADDR && Unknown(t, w.checked) && w.unset in fds
  }

  lemma OpenedThenHandedOver(fds: map<int, nat>, files: seq<File>, fds': map<int, nat>, files': seq<File>,
      sock: int, newSock: int)
    requires Opened(fds, files, fds', files', newSock) && sock in fds && fds[sock] < |files|
    ensures var d := fds'[newSock]; var fds'' := fds'[sock := d] - {newSock};
      HandedOver(fds, files, fds'', files'[d := File(true, files[fds[sock]].nonblock)], sock)
  {
  }

  /** The proxy reads, from what it was sent, the destination of the socket address. */
  predicate OnTheWire(x: SockAddr, named: Bytes, sent: Bytes)
    requires IsSockAddr(x) && (x.Inet? || x.Inet6?)
  {
    if x.Inet6? && !Mapped(x.addr) then ReadClient(sent) == Some(([0], V6(x.addr), x.port, []))
    else
      var addr := if x.Inet? then x.addr else [x.addr[12], x.addr[13], x.addr[14], x.addr[15]];
      if addr[0] != 240 then ReadClient(sent) == Some(([0], V4(addr), x.port, []))
      else ReadClient(sent) == Some(([0], Name(if |named| <= 255 then named else named[..255]), x.port, []))
  }

  lemma ReadFromWire(x: SockAddr, named: Bytes, sent: Bytes)
    requires IsSockAddr(x) && (x.Inet? || x.Inet6?)
    requires var t := ExtractTarget(x);
      ReadClient(sent) == Some(([0], if t.ipv6 then V6(t.addr)
                                     else if t.addr[0] != 240 then V4(t.addr)
                                     else Name(if |named| <= 255 then named else named[..255]), t.port, []))
    ensures OnTheWire(x, named, sent)
  {
    ExtractedBytes(x);
  }

  datatype Branch = Original | Direct | Proxied

  /** The replaced connect; `branch` is the way it takes. */
  method Connect(k: Kernel, sock: int, x: SockAddr, w: World, peer: Connection)
      returns (ret: int, errno: Errno, ghost branch: Branch)
    requires k.Valid() && IsSockAddr(x) && peer.Fresh()
    modifies k, peer
    ensures k.Valid() && old(k.files) <= k.files
    ensures branch == if old(PassedOn(k.fds, k.files, sock, x)) then Original
                      else if ChosenProxy(ExtractTarget(x), w).addr == Addr(0, 0, 0, 0) then Direct else Proxied
    ensures branch.Original? ==>
      (ret, errno) == w.original && k.fds == old(k.fds) && k.files == old(k.files) && peer.sent == []
    ensures !branch.Original? ==>
      var t, direct := ExtractTarget(x), branch.Direct?;
      var done := if direct then DirectList(t, w).Some? && exists c :: c in DirectList(t, w).value && Usable(old(k.fds), c)
                  else && !Unknown(t, w.checked) && Usable(old(k.fds), w.proxy)
                       && !peer.faulted && Accepts(peer.input).Some?;
      && (done ==> && HandedOver(old(k.fds), old(k.files), k.fds, k.files, sock)
                   && (ret, errno) == (if old(k.Nonblock(sock)) then (-1, EInProgress) else (0, NoError))
                   && (!direct ==> && peer.sent == GREETING + Request(HostOf(t, w.named), t.port)
                                   && OnTheWire(x, w.named, peer.sent) && peer.pos == Accepts(peer.input).value))
      && (!direct ==> peer.sent <= GREETING + Request(HostOf(t, w.named), t.port))
      && (!done ==> && (ret, errno) == (-1, ETimedOut)
                    && k.fds == if !direct && Unknown(t, w.checked) then old(k.fds) - {w.unset} else old(k.fds))
      && (direct ==> peer.sent == [])
    ensures k.fds.Keys == old(k.fds.Keys) <==>
      branch.Original? || !ClosesUnset(old(k.fds), ExtractTarget(x), w)
    ensures peer.Reliable() ==> !peer.faulted
  {
    if sock < 0 || sock !in k.fds || !k.files[k.fds[sock]].stream || !(x.Inet? || x.Inet6?) {
      return w.original.0, w.original.1, Original;
    }
    var target := ExtractTarget(x);
    var bypass := ShouldBypass(BYPASS_NETWORKS, Head(target), Ntohs(target.port), target.ipv6);
    if bypass {
      return w.original.0, w.original.1, Original;
    }
    var proxy := w.proxyFor(NameOf(target, w.consulted, w.text), Ntohs(target.port));
    var result, newSock;
    if proxy.addr == NO_ADDR {
      branch := Direct;
      result, newSock := MakeDirect(k, w.resolve(NameOf(target, w.direct, w.text)));
    } else {
      branch := Proxied;
      result, newSock := MakeProxied(k, target, w.checked, w.named, w.proxy, peer, w.unset);
      if result { ReadFromWire(x, w.named, peer.sent); }
    }
    if result {
      ret, errno := HandOver(k, sock, newSock, old(k.fds), old(k.files));
    } else {
      ret, errno := -1, ETimedOut;
    }
  }

  /** The new socket takes the place of the caller's, which gets its flag back. */
  method HandOver(k: Kernel, sock: int, newSock: int, ghost fds: map<int, nat>, ghost files: seq<File>)
      returns (ret: int, errno: Errno)
    requires k.Valid() && sock in fds && fds[sock] < |files| && Opened(fds, files, k.fds, k.files, newSock)
    modifies k
    ensures k.Valid() && HandedOver(fds, files, k.fds, k.files, sock)
    ensures (ret, errno) == if files[fds[sock]].nonblock then (-1, EInProgress) else (0, NoError)
  {
    OpenedThenHandedOver(fds, files, k.fds, k.files, sock, newSock);
    var nonblock := k.files[k.fds[sock]].nonblock;
    k.Dup2(newSock, sock);
    k.Close(newSock);
    if nonblock {
      k.SetNonblock(sock, true);
      return -1, EInProgress;
    }
    return 0, NoError;
  }
}
