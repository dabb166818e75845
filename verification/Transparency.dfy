/**
 End to end: a program that resolves a host name and connects to the fake address it got reaches that host, through
 the proxy by name or directly, as if it had connected to the name.
 */
module Transparency {
  import opened AddressCodec
  import opened Bits
  import opened ConnectHook
  import opened Options
  import opened ResolveTable
  import opened Socks5
  import ProxyCache
  import ResolveRace
  import Lookups = ResolveTable

  /** addr_to_name: an address whose index is not in the table has the empty name. */
  function AddrToName(t: Table<Bytes>, addr: Addr): Bytes {
    if AddrToIndex(addr) in t.indices then t.indices[AddrToIndex(addr)] else []
  }

  // ---------- the address keeps its name ----------

  lemma NameAtIndex(t: Table<Bytes>, index: nat, addr: Addr)
    requires index < ADDR_COUNT && addr == IndexToAddr(index) && index in t.indices
    ensures AddrToName(t, addr) == t.indices[index]
  {
    IndexRoundTrip(index, addr);
  }

  /** `looked` is the name of `addr` at some time before the window of history entry `i` closes. */
  ghost predicate LookedInTime(p: Past<Bytes>, i: nat, addr: Addr, looked: Bytes) {
    exists requests :: LooksUp(p, i, addr, looked, requests)
  }

  ghost predicate LooksUp(p: Past<Bytes>, i: nat, addr: Addr, looked: Bytes, requests: seq<Request<Bytes>>) {
    var q := Serve(ADDR_COUNT, p, requests);
    |q.history| <= i + ADDR_COUNT && looked == AddrToName(q.table, addr)
  }

  lemma AddressKeepsName(p: Past<Bytes>, i: nat, size: nat, addr: Addr, looked: Bytes)
    requires size == ADDR_COUNT && Ring(size, p.table, p.history) && i < |p.history|
    requires addr == IndexToAddr(Slot(size, i)) && LookedInTime(p, i, addr, looked)
    ensures looked == p.history[i]
  {
    var requests :| LooksUp(p, i, addr, looked, requests);
    StabilityWindow(size, p, i, requests);
    NameAtIndex(Serve(size, p, requests).table, Slot(size, i), addr);
  }

  /** What name_to_addr answers, by thread and table, is a history entry's address. */
  lemma AnsweredAddress(size: nat, p: Past<Bytes>, h: Bytes, victims: set<Bytes>) returns (q: Past<Bytes>, i: nat)
    requires size == ADDR_COUNT && Ring(size, p.table, p.history) && Evicts(size, p.table, victims)
    ensures q == Serve(size, p, [Lookups.Request(h, victims)]) && Ring(size, q.table, q.history)
    ensures i < |q.history| && q.history[i] == h && h in q.table.names && q.table.names[h] == Slot(size, i)
    ensures |q.history| <= i + size && (h !in p.table.names ==> i == |p.history|)
  {
    var r := [Lookups.Request(h, victims)];
    q := Serve(size, p, r);
    assert r[..0] == [] && Serve(size, p, r[..0]) == p;
    SequentialRunsAreRings(size, p, r);
    assert h in q.table.names;
    i := SlotHasEntry(size, q.history, q.table.names[h]);
  }

  // ---------- the call of connect ----------

  /** A socket address of `addr` and port number `p`, plain or IPv4-mapped. */
  predicate SockAddrOf(x: SockAddr, addr: Addr, p: nat) {
    && p < 0x1_0000
    && (|| x == Inet([addr.a, addr.b, addr.c, addr.d], [p / 256, p % 256])
        || x == Inet6([0, 0, 0, 0, 0, 0, 0, 0, 0, 0, 255, 255, addr.a, addr.b, addr.c, addr.d], [p / 256, p % 256]))
  }

  /**
   A call of connect on an open stream socket is taken over; the script is asked about `h` and the port number; a direct
   connection looks up `h`; and the guard against unnamed addresses lets it pass to a SOCKS request from which the
   proxy reads the name, cut at 255 bytes, and the port.
   */
  ghost predicate ReachesHost(h: Bytes, x: SockAddr, p: nat, w: World) {
    && IsSockAddr(x) && (x.Inet? || x.Inet6?) && 0 < p < 0x1_0000 && x.port == [p / 256, p % 256]
    && (forall fds: map<int, nat>, files: seq<File>, sock: nat ::
          sock in fds && fds[sock] < |files| && files[fds[sock]].stream ==> !PassedOn(fds, files, sock, x))
    && var t := ExtractTarget(x);
    && ChosenProxy(t, w) == w.proxyFor(h, p) && !ProxyCache.Unasked(h, p)
    && DirectList(t, w) == w.resolve(h)
    && !Unknown(t, w.checked)
    && ReadClient(GREETING + Socks5.Request(HostOf(t, w.named), x.port))
       == Some(([0], Name(if |h| <= 255 then h else h[..255]), [p / 256, p % 256], []))
  }

  lemma FakeAddressReachesHost(h: Bytes, addr: Addr, x: SockAddr, p: nat, w: World)
    requires |h| > 0 && IsResolvedAddr(addr) && SockAddrOf(x, addr, p) && p != 0
    requires w.consulted == w.direct == w.checked == w.named == h
    ensures ReachesHost(h, x, p, w)
  {
    ExtractedBytes(x);
    AskedAbout(x, p, w);
    RequestNames(ExtractTarget(x), w.named);
    forall fds: map<int, nat>, files: seq<File>, sock: nat | sock in fds && fds[sock] < |files| && files[fds[sock]].stream
      ensures !PassedOn(fds, files, sock, x)
    {
      PassedOnIff(fds, files, sock, x);
    }
  }

  /** The four lookups of the call happen before the window closes. */
  ghost predicate InTime(p: Past<Bytes>, i: nat, addr: Addr, w: World) {
    && LookedInTime(p, i, addr, w.consulted) && LookedInTime(p, i, addr, w.direct)
    && LookedInTime(p, i, addr, w.checked) && LookedInTime(p, i, addr, w.named)
  }

  /**
   Transparency of sequential runs. Whatever was resolved before, the address that a name gets, used on a port other
   than 0 before `size` later allocations, reaches the host. `i` is the allocation of the name: for a name that was
   not in the table it is this one, so the window is `size - 1` further allocations.
   */
  lemma Transparent(size: nat, past: Past<Bytes>, h: Bytes, victims: set<Bytes>, x: SockAddr, p: nat, w: World)
      returns (q: Past<Bytes>, i: nat, addr: Addr)
    requires size == ADDR_COUNT && Ring(size, past.table, past.history) && Evicts(size, past.table, victims) && |h| > 0
    ensures q == Serve(size, past, [Lookups.Request(h, victims)])
    ensures i < |q.history| <= i + size && q.history[i] == h && (h !in past.table.names ==> i == |past.history|)
    ensures h in q.table.names && addr == IndexToAddr(q.table.names[h]) && IsResolvedAddr(addr)
    ensures SockAddrOf(x, addr, p) && p != 0 && InTime(q, i, addr, w) ==> ReachesHost(h, x, p, w)
  {
    q, i := AnsweredAddress(size, past, h, victims);
    addr := IndexToAddr(Slot(size, i));
    IndexRoundTrip(Slot(size, i), addr);
    if SockAddrOf(x, addr, p) && p != 0 && InTime(q, i, addr, w) {
      AddressKeepsName(q, i, size, addr, w.consulted);
      AddressKeepsName(q, i, size, addr, w.direct);
      AddressKeepsName(q, i, size, addr, w.checked);
      AddressKeepsName(q, i, size, addr, w.named);
      FakeAddressReachesHost(h, addr, x, p, w);
    }
  }

  // ---------- with other threads resolving ----------

  /** `looked` is the name of `addr` after `before` and some more steps, while no slot has been used twice yet. */
  ghost predicate LookedEarly(before: seq<ResolveRace.Event<Bytes>>, addr: Addr, looked: Bytes) {
    exists after :: LooksUpEarly(before, addr, looked, after)
  }

  ghost predicate LooksUpEarly(before: seq<ResolveRace.Event<Bytes>>, addr: Addr, looked: Bytes,
      after: seq<ResolveRace.Event<Bytes>>) {
    var s := ResolveRace.Run(ADDR_COUNT, ResolveRace.Start(), before + after);
    |s.log| <= ADDR_COUNT && looked == AddrToName(s.table, addr)
  }

  ghost predicate AllEarly(before: seq<ResolveRace.Event<Bytes>>, addr: Addr, w: World) {
    && LookedEarly(before, addr, w.consulted) && LookedEarly(before, addr, w.direct)
    && LookedEarly(before, addr, w.checked) && LookedEarly(before, addr, w.named)
  }

  lemma AnswerKeepsName(size: nat, before: seq<ResolveRace.Event<Bytes>>, h: Bytes, slot: nat, addr: Addr,
      looked: Bytes)
    requires size == ADDR_COUNT && (h, slot) in ResolveRace.Run(size, ResolveRace.Start(), before).issued
    requires slot < size && addr == IndexToAddr(slot) && LookedEarly(before, addr, looked)
    ensures looked == h
  {
    var after :| LooksUpEarly(before, addr, looked, after);
    ResolveRace.AnswersStayValid(size, before, after);
    NameAtIndex(ResolveRace.Run(size, ResolveRace.Start(), before + after).table, slot, addr);
  }

  lemma AnswersAreSlots(size: nat, evs: seq<ResolveRace.Event<Bytes>>, h: Bytes, slot: nat)
    requires size > 0 && (h, slot) in ResolveRace.Run(size, ResolveRace.Start(), evs).issued
    ensures slot < size
  {
    var s0: ResolveRace.State<Bytes> := ResolveRace.Start();
    ResolveRace.RunKeepsInv(size, s0, evs);
    assert ResolveRace.Given(size, ResolveRace.Run(size, s0, evs).log, h, slot);
  }

  /**
   Transparency in every interleaving of threads, races included: as long as at most `size` allocations have been
   made in all, every address ever answered for a name reaches the host.
   */
  lemma TransparentUnderRaces(size: nat, before: seq<ResolveRace.Event<Bytes>>, h: Bytes, slot: nat,
                              x: SockAddr, p: nat, w: World) returns (addr: Addr)
    requires size == ADDR_COUNT && (h, slot) in ResolveRace.Run(size, ResolveRace.Start(), before).issued && |h| > 0
    ensures slot < size && addr == IndexToAddr(slot)
    ensures SockAddrOf(x, addr, p) && p != 0 && AllEarly(before, addr, w) ==> ReachesHost(h, x, p, w)
  {
    AnswersAreSlots(size, before, h, slot);
    addr := IndexToAddr(slot);
    IndexRoundTrip(slot, addr);
    if SockAddrOf(x, addr, p) && p != 0 && AllEarly(before, addr, w) {
      AnswerKeepsName(size, before, h, slot, addr, w.consulted);
      AnswerKeepsName(size, before, h, slot, addr, w.direct);
      AnswerKeepsName(size, before, h, slot, addr, w.checked);
      AnswerKeepsName(size, before, h, slot, addr, w.named);
      FakeAddressReachesHost(h, addr, x, p, w);
    }
  }

  // ---------- addresses without a name ----------

  /** 240.0.0.0 has no name in any reachable table, and so IPv6 targets that start with it are always refused. */
  lemma ReservedAddress(size: nat, evs: seq<ResolveRace.Event<Bytes>>, table: Table<Bytes>, t: Target)
    requires size == ADDR_COUNT && table == ResolveRace.Run(size, ResolveRace.Start(), evs).table
    requires IsTarget(t) && Head(t) == Addr(ADDR_PREFIX, 0, 0, 0)
    ensures AddrToName(table, Head(t)) == [] && Unknown(t, AddrToName(table, Head(t)))
  {
    var s0: ResolveRace.State<Bytes> := ResolveRace.Start();
    ResolveRace.RunKeepsInv(size, s0, evs);
    AddrRoundTripIff(Head(t), AddrToIndex(Head(t)));
  }

  /** The empty name is never resolved: the hooks leave it to the original resolver. */
  predicate NoEmptyNames(evs: seq<ResolveRace.Event<Bytes>>) {
    forall i :: 0 <= i < |evs| && evs[i].Find? ==> |evs[i].name| > 0
  }

  ghost predicate AllNamed(s: ResolveRace.State<Bytes>) {
    && (forall j :: j in s.table.indices ==> |s.table.indices[j]| > 0)
    && (forall t :: t in s.pending ==> |s.pending[t]| > 0)
  }

  /** Slots are reused but never emptied. */
  lemma {:induction false} SlotsStayNamed(size: nat, s: ResolveRace.State<Bytes>, evs: seq<ResolveRace.Event<Bytes>>)
    requires size > 0 && AllNamed(s) && NoEmptyNames(evs)
    ensures var q := ResolveRace.Run(size, s, evs);
      AllNamed(q) && forall j :: j in s.table.indices ==> j in q.table.indices
    decreases |evs|
  {
    if evs != [] {
      SlotsStayNamed(size, s, evs[..|evs| - 1]);
    }
  }

  /** `checked` is looked up after `consulted`, in any interleaving, and without a name or a port there is no proxy. */
  ghost predicate LookedInOrder(size: nat, s: ResolveRace.State<Bytes>, more: seq<ResolveRace.Event<Bytes>>,
      t: Target, w: World)
    requires size > 0 && IsTarget(t)
  {
    && AllNamed(s) && NoEmptyNames(more)
    && w.consulted == AddrToName(s.table, Head(t))
    && w.checked == AddrToName(ResolveRace.Run(size, s, more).table, Head(t))
    && (forall name: Bytes, port: nat :: |name| == 0 || port == 0 ==> w.proxyFor(name, port).addr == Addr(0, 0, 0, 0))
  }

  /**
   When the hook closes a descriptor it never opened: the target is IPv6 and its first word is a fake address without
   a name. For an IPv4 target it cannot happen, because a target without a name gets no proxy and one with a
   name keeps one.
   */
  lemma ClosesUnsetIff(size: nat, s: ResolveRace.State<Bytes>, more: seq<ResolveRace.Event<Bytes>>,
      fds: map<int, nat>, t: Target, w: World)
    requires size > 0 && IsTarget(t) && LookedInOrder(size, s, more, t, w)
    ensures ClosesUnset(fds, t, w) <==>
      && t.ipv6 && t.addr[0] == 240 && AddrToIndex(Head(t)) !in ResolveRace.Run(size, s, more).table.indices
      && w.proxyFor(w.text(t.addr, true), Ntohs(t.port)).addr != Addr(0, 0, 0, 0) && w.unset in fds
  {
    SlotsStayNamed(size, s, more);
  }
}
