/**
 The SOCKS5 messages of the CONNECT client (RFC 1928 sections 3 to 6): what the client writes, an independent
 reader for it, and which server streams the client accepts.
 */
module Socks5 {
  import opened Bits
  import opened Options

  /** The destination of a request, or the bound address of a reply. */
  datatype Host = V4(addr: Bytes) | Name(name: Bytes) | V6(addr: Bytes)

  ghost predicate WellFormed(h: Host) {
    match h
    case V4(a) => |a| == 4
    case Name(n) => |n| <= 255
    case V6(a) => |a| == 16
  }

  // ---------- what the client writes ----------

  const GREETING: Bytes := [5, 1, 0]

  /** The length byte of a name is capped, and so is what follows it. */
  function NameLength(name: Bytes): Byte {
    if |name| < 255 then |name| else 255
  }

  function AddressType(h: Host): Byte {
    match h case V4(_) => 1 case Name(_) => 3 case V6(_) => 4
  }

  function AddressBytes(h: Host): Bytes {
    match h
    case V4(a) => a
    case Name(n) => [NameLength(n)] + n[..NameLength(n)]
    case V6(a) => a
  }

  /** ATYP, ADDR and PORT. */
  function Address(h: Host, port: Bytes): Bytes {
    [AddressType(h)] + (AddressBytes(h) + port)
  }

  function Request(h: Host, port: Bytes): Bytes {
    [5, 1, 0] + Address(h, port)
  }

  // ---------- a reader for it, after sections 3, 4 and 5 ----------

  /** VER, NMETHODS and METHODS; returns the methods and the rest of the stream. */
  function ReadGreeting(s: Bytes): Option<(Bytes, Bytes)> {
    if |s| < 2 || s[0] != 5 then None else
      var n: nat := s[1];
      if |s| < 2 + n then None else Some((s[2..2 + n], s[2 + n..]))
  }

  function ReadAddress(s: Bytes): Option<(Host, Bytes, Bytes)> {
    if |s| < 1 then None
    else if s[0] == 1 then
      if |s| < 7 then None else Some((V4(s[1..5]), s[5..7], s[7..]))
    else if s[0] == 3 then
      if |s| < 2 then None else
        var n: nat := s[1];
        if |s| < 4 + n then None else Some((Name(s[2..2 + n]), s[2 + n..4 + n], s[4 + n..]))
    else if s[0] == 4 then
      if |s| < 19 then None else Some((V6(s[1..17]), s[17..19], s[19..]))
    else None
  }

  /** VER, CMD = CONNECT, RSV = 0 and the address. */
  function ReadRequest(s: Bytes): Option<(Host, Bytes, Bytes)> {
    if |s| < 3 || s[0] != 5 || s[1] != 1 || s[2] != 0 then None else ReadAddress(s[3..])
  }

  /** All a server reads: the offered methods, the destination and its port, and what is left over. */
  function ReadClient(s: Bytes): Option<(Bytes, Host, Bytes, Bytes)> {
    match ReadGreeting(s)
    case None => None
    case Some((methods, rest)) =>
      match ReadRequest(rest)
      case None => None
      case Some((h, port, left)) => Some((methods, h, port, left))
  }

  /** The destination as it goes over the wire: names keep their first 255 bytes. */
  function Clip(h: Host): (r: Host) {
    match h
    case Name(n) => Name(if |n| <= 255 then n else n[..255])
    case _ => h
  }

  lemma AddressRoundTrip(h: Host, port: Bytes)
    requires (h.Name? || WellFormed(h)) && |port| == 2
    ensures ReadAddress(Address(h, port)) == Some((Clip(h), port, []))
  {
    var s := Address(h, port);
    match h
    case V4(a) =>
      assert s == [1] + a + port;
      assert s[1..5] == a && s[5..7] == port && s[7..] == [];
    case Name(n) =>
      var k := NameLength(n);
      assert s == [3, k] + n[..k] + port && Clip(h) == Name(n[..k]);
      assert s[2..2 + k] == n[..k] && s[2 + k..4 + k] == port && s[4 + k..] == [];
    case V6(a) =>
      assert s == [4] + a + port;
      assert s[1..17] == a && s[17..19] == port && s[19..] == [];
  }

  /** Round trip: from the wire bytes a server recovers the offer "no authentication" and the exact target and port. */
  lemma ClientRoundTrip(h: Host, port: Bytes)
    requires (h.Name? || WellFormed(h)) && |port| == 2
    ensures h.Name? && |h.name| > 255 ==> ReadClient(GREETING + Request(h, port)) == Some(([0], Name(h.name[..255]), port, []))
    ensures !h.Name? || |h.name| <= 255 ==> ReadClient(GREETING + Request(h, port)) == Some(([0], h, port, []))
  {
    var s := GREETING + Request(h, port);
    assert s[2..3] == [0] && s[3..] == Request(h, port) && Request(h, port)[3..] == Address(h, port);
    AddressRoundTrip(h, port);
  }

  // ---------- what the client accepts ----------

  /** The length of a reply, as far as its first bytes tell; none if the client refuses it. */
  function ReplyLength(r: Bytes): Option<nat> {
    if |r| < 4 || r[0] != 5 || r[1] != 0 then None
    else if r[3] == 1 then Some(10)
    else if r[3] == 3 then (if |r| < 5 then None else var n: nat := r[4]; Some(7 + n))
    else if r[3] == 4 then Some(22)
    else None
  }

  /** The number of bytes of the server stream a successful handshake reads. */
  function Accepts(input: Bytes): Option<nat> {
    if |input| < 2 || input[0] != 5 || input[1] != 0 then None
    else match ReplyLength(input[2..])
         case None => None
         case Some(n) => if |input| < 2 + n then None else Some(2 + n)
  }

  /** A reply of section 6 with status "succeeded"; the reserved byte is not looked at. */
  function Reply(reserved: Byte, bound: Host, port: Bytes): Bytes
  {
    [5, 0, reserved] + Address(bound, port)
  }

  lemma ReplySize(reserved: Byte, bound: Host, port: Bytes)
    requires WellFormed(bound) && |port| == 2
    ensures var r := Reply(reserved, bound, port);
      |r| == (match bound case V4(_) => 10 case Name(n) => 7 + |n| case V6(_) => 22) && ReplyLength(r) == Some(|r|)
  {
    var r := Reply(reserved, bound, port);
    assert r[3] == AddressType(bound);
    if bound.Name? { assert r[4] == NameLength(bound.name) == |bound.name|; }
  }

  ghost predicate IsServerHello(hello: Bytes, reserved: Byte, bound: Host, port: Bytes) {
    WellFormed(bound) && |port| == 2 && hello == [5, 0] + Reply(reserved, bound, port)
  }

  /** A whole successful reply is the reply for the address it carries. */
  lemma ReplyOf(r: Bytes) returns (bound: Host, port: Bytes)
    requires ReplyLength(r) == Some(|r|)
    ensures WellFormed(bound) && |port| == 2 && r == Reply(r[2], bound, port)
  {
    if r[3] == 1 {
      bound, port := V4(r[4..8]), r[8..];
      assert r[4..] == r[4..8] + r[8..];
    } else if r[3] == 3 {
      var n: nat := r[4];
      bound, port := Name(r[5..5 + n]), r[5 + n..];
      assert bound.name[..n] == bound.name && r[4..] == [r[4]] + r[5..5 + n] + r[5 + n..];
    } else {
      bound, port := V6(r[4..20]), r[20..];
      assert r[4..] == r[4..20] + r[20..];
    }
    Reassembled(r, bound, port);
  }

  lemma Reassembled(r: Bytes, bound: Host, port: Bytes)
    requires |r| >= 4 && r[0] == 5 && r[1] == 0 && WellFormed(bound)
    requires r[3] == AddressType(bound) && r[4..] == AddressBytes(bound) + port
    ensures r == Reply(r[2], bound, port)
  {
    assert r == [5, 0, r[2]] + ([r[3]] + r[4..]);
  }

  lemma HelloAccepted(input: Bytes, n: nat, reserved: Byte, bound: Host, port: Bytes)
    requires n <= |input| && IsServerHello(input[..n], reserved, bound, port)
    ensures Accepts(input) == Some(n)
  {
    var r := Reply(reserved, bound, port);
    ReplySize(reserved, bound, port);
    assert input[..n][2..] == r;
    assert forall i :: 0 <= i < |r| ==> input[2..][i] == r[i];
  }

  /**
   The client accepts exactly the streams that start with "no authentication" and one complete, successful reply
   of section 6, and reads exactly those bytes.
   */
  lemma AcceptsIff(input: Bytes, n: nat)
    ensures Accepts(input) == Some(n) <==>
      n <= |input| && exists reserved, bound, port :: IsServerHello(input[..n], reserved, bound, port)
  {
    if Accepts(input) == Some(n) {
      var hello := input[..n];
      assert hello[2..] == input[2..][..n - 2];
      var bound, port := ReplyOf(hello[2..]);
      assert IsServerHello(hello, hello[4], bound, port);
    }
    if n <= |input| && exists reserved, bound, port :: IsServerHello(input[..n], reserved, bound, port) {
      var reserved, bound, port :| IsServerHello(input[..n], reserved, bound, port);
      HelloAccepted(input, n, reserved, bound, port);
    }
  }
}
