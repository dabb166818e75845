/**
 The client half of the handshake over a connected socket: loops that send and receive until done, a buffer that
 is reused, and a reply whose length depends on its first bytes.
 */
module SocksClient {
  import opened Bits
  import opened Options
  import opened Socks5

  const BUFFER_SIZE: nat := 1024

  /**
   A connected socket. `input` is all the peer will ever send; `answers(n)` is what the n-th system call answers:
   how many bytes it moves at most, or, if not positive, that it fails.
   */
  class Connection {
    const input: Bytes
    const answers: nat -> int
    var calls: nat
    var pos: nat
    var sent: Bytes
    /** A call failed although there was something to move. */
    ghost var faulted: bool

    ghost predicate Valid()
      reads this
    {
      pos <= |input| && (faulted ==> exists n: nat :: n < calls && answers(n) <= 0)
    }

    ghost predicate Fresh()
      reads this
    {
      Valid() && pos == 0 && sent == [] && !faulted
    }

    /** The system calls never fail, however few bytes they move at a time. */
    ghost predicate Reliable()
      reads this
    {
      forall n: nat :: answers(n) > 0
    }

    constructor (input: Bytes, answers: nat -> int)
      ensures Fresh() && this.input == input && this.answers == answers
    {
      this.input, this.answers := input, answers;
      calls, pos, sent, faulted := 0, 0, [], false;
    }

    method Answer() returns (a: int)
      modifies this`calls
      ensures a == answers(old(calls)) && calls == old(calls) + 1
    {
      a := answers(calls);
      calls := calls + 1;
    }

    /** send: some of the bytes, at least one, or a failure. */
    method Send(bytes: Bytes) returns (current: int)
      requires Valid() && bytes != []
      modifies this`calls, this`sent, this`faulted
      ensures Valid() && current <= |bytes|
      ensures current > 0 ==> sent == old(sent) + bytes[..current] && faulted == old(faulted)
      ensures current <= 0 ==> sent == old(sent) && faulted
    {
      current := Answer();
      if current > |bytes| { current := |bytes|; }
      if current > 0 { sent := sent + bytes[..current]; } else { faulted := true; }
    }

    /** select for reading: not ready, if there is nothing to read, is no fault. */
    method SelectForRead() returns (ready: bool)
      requires Valid()
      modifies this`calls, this`faulted
      ensures Valid() && (ready ==> faulted == old(faulted)) && (!ready ==> faulted || (faulted == old(faulted) && pos == |input|))
    {
      var a := Answer();
      ready := a > 0;
      if !ready && pos < |input| { faulted := true; }
    }

    /** recv into `buffer[at..limit]`: some bytes, at least one, or 0 at the end of the stream, or a failure. */
    method Recv(buffer: array<Byte>, at: nat, limit: nat) returns (current: int)
      requires Valid() && at < limit <= buffer.Length
      modifies this`calls, this`pos, this`faulted, buffer
      ensures Valid()
      ensures current > 0 ==> pos == old(pos) + current && at + current <= limit && faulted == old(faulted)
      ensures current <= 0 ==> pos == old(pos) && (faulted || (faulted == old(faulted) && pos == |input|))
      ensures forall i :: 0 <= i < buffer.Length ==>
        buffer[i] == if at <= i < at + current then input[old(pos) + i - at] else old(buffer[i])
    {
      current := Answer();
      if pos == |input| {
        current := if current > 0 then 0 else current;
      } else if current > 0 {
        if current > limit - at { current := limit - at; }
        if current > |input| - pos { current := |input| - pos; }
        Store(buffer, at, input[pos..pos + current]);
        pos := pos + current;
      } else {
        faulted := true;
      }
    }

    /** send_bytes */
    method SendBytes(bytes: Bytes) returns (ok: bool)
      requires Valid()
      modifies this`calls, this`sent, this`faulted
      ensures Valid() && old(sent) <= sent <= old(sent) + bytes
      ensures ok ==> sent == old(sent) + bytes && faulted == old(faulted)
      ensures !ok ==> sent != old(sent) + bytes && faulted
    {
      var total := 0;
      while total < |bytes|
        invariant Valid() && total <= |bytes| && sent == old(sent) + bytes[..total] && faulted == old(faulted)
      {
        var current := Send(bytes[total..]);
        if current > 0 {
          assert bytes[..total] + bytes[total..][..current] == bytes[..total + current];
          total := total + current;
        } else {
          return false;
        }
      }
      return true;
    }

    /** recv_bytes: fills `buffer[..len]`, and takes nothing beyond that off the stream. */
    method RecvBytes(buffer: array<Byte>, len: nat) returns (ok: bool)
      requires Valid() && len <= buffer.Length
      modifies this`calls, this`pos, this`faulted, buffer
      ensures Valid() && old(pos) <= pos <= old(pos) + len
      ensures ok ==> pos == old(pos) + len && faulted == old(faulted)
      ensures ok ==> forall i :: 0 <= i < len ==> buffer[i] == input[old(pos) + i]
      ensures forall i :: len <= i < buffer.Length ==> buffer[i] == old(buffer[i])
      ensures !ok ==> pos < old(pos) + len && (faulted || (faulted == old(faulted) && old(pos) + len > |input|))
    {
      var total := 0;
      while total < len
        invariant Valid() && total <= len && pos == old(pos) + total && faulted == old(faulted)
        invariant forall i :: 0 <= i < buffer.Length ==> buffer[i] == if i < total then input[old(pos) + i] else old(buffer[i])
      {
        var ready := SelectForRead();
        if !ready {
          return false;
        }
        var current := Recv(buffer, total, len);
        if current > 0 {
          total := total + current;
        } else {
          return false;
        }
      }
      return true;
    }

    /** The negotiation: offer "no authentication" and expect it to be taken up. */
    method Greet(buffer: array<Byte>) returns (ok: bool)
      requires Fresh() && buffer.Length == BUFFER_SIZE
      modifies this`calls, this`pos, this`sent, this`faulted, buffer
      ensures Valid() && sent <= GREETING && pos <= 2
      ensures ok <==> !faulted && |input| >= 2 && input[0] == 5 && input[1] == 0
      ensures ok ==> sent == GREETING && pos == 2
    {
      buffer[0] := 5;
      buffer[1] := 1;
      buffer[2] := 0;
      assert buffer[..3] == GREETING;
      ok := SendBytes(buffer[..3]);
      if ok { ok := RecvBytes(buffer, 2); }
      return ok && buffer[0] == 5 && buffer[1] == 0;
    }

    /** One of several sends: `all` is to go out after `start`, and `done` of it has. */
    method SendNext(bytes: Bytes, ghost start: Bytes, ghost done: Bytes, ghost all: Bytes) returns (ok: bool)
      requires Valid() && sent == start + done && done + bytes <= all
      modifies this`calls, this`sent, this`faulted
      ensures Valid() && start <= sent <= start + all
      ensures ok ==> sent == start + (done + bytes) && faulted == old(faulted)
      ensures !ok ==> faulted
    {
      assert start + done + bytes == start + (done + bytes);
      assert start + (done + bytes) <= start + all;
      ok := SendBytes(bytes);
    }

    /** The request: head, destination and port go out separately, a name after its length byte. */
    method SendRequest(buffer: array<Byte>, host: Host, port: Bytes) returns (ok: bool)
      requires Valid() && buffer.Length == BUFFER_SIZE
      modifies this`calls, this`sent, this`faulted, buffer
      ensures Valid() && old(sent) <= sent <= old(sent) + Request(host, port)
      ensures ok ==> sent == old(sent) + Request(host, port) && faulted == old(faulted)
      ensures !ok ==> faulted
    {
      buffer[0] := 5;
      buffer[1] := 1;
      buffer[2] := 0;
      buffer[3] := AddressType(host);
      ghost var all := Request(host, port);
      ghost var head := [5, 1, 0, AddressType(host)];
      assert buffer[..4] == head && all == head + AddressBytes(host) + port;
      ok := SendNext(buffer[..4], sent, [], all);
      if ok {
        ok := SendHost(buffer, host, old(sent), head, all);
      }
      if ok {
        assert head + AddressBytes(host) + port == all;
        ok := SendNext(port, old(sent), head + AddressBytes(host), all);
      }
    }

    method SendHost(buffer: array<Byte>, host: Host, ghost start: Bytes, ghost head: Bytes, ghost all: Bytes)
        returns (ok: bool)
      requires Valid() && buffer.Length == BUFFER_SIZE && sent == start + head && head + AddressBytes(host) <= all
      modifies this`calls, this`sent, this`faulted, buffer
      ensures Valid() && start <= sent <= start + all
      ensures ok ==> sent == start + (head + AddressBytes(host)) && faulted == old(faulted)
      ensures !ok ==> faulted
    {
      match host {
        case V4(addr) =>
          ok := SendNext(addr, start, head, all);
        case V6(addr) =>
          ok := SendNext(addr, start, head, all);
        case Name(name) =>
          buffer[0] := NameLength(name);
          var kept := name[..buffer[0]];
          assert buffer[..1] == [NameLength(name)];
          assert head + [NameLength(name)] + kept == head + AddressBytes(host);
          ok := SendNext(buffer[..1], start, head, all);
          if ok {
            ok := SendNext(kept, start, head + [NameLength(name)], all);
          }
      }
    }

    /** The reply: four bytes, for a name its length, and then exactly what is left of it. */
    method ReadReply(buffer: array<Byte>) returns (ok: bool)
      requires Valid() && !faulted && buffer.Length == BUFFER_SIZE
      modifies this`calls, this`pos, this`faulted, buffer
      ensures Valid() && old(pos) <= pos
      ensures var length := ReplyLength(input[old(pos)..]);
        && (ok <==> !faulted && length.Some? && old(pos) + length.value <= |input|)
        && (ok ==> pos == old(pos) + length.value) && (length.Some? ==> pos <= old(pos) + length.value)
    {
      ok := RecvBytes(buffer, 4);
      if !ok {
        return false;
      }
      if buffer[0] != 5 || buffer[1] != 0 {
        return false;
      }
      var remaining: nat := 0;
      if buffer[3] == 1 {
        remaining := 4 + 2;
      } else if buffer[3] == 3 {
        ok := RecvBytes(buffer, 1);
        if !ok {
          return false;
        }
        remaining := buffer[0];
        remaining := remaining + 2;
      } else if buffer[3] == 4 {
        remaining := 16 + 2;
      } else {
        return false;
      }
      ok := RecvBytes(buffer, remaining);
    }

    /**
     The handshake. Whatever the peer sends and however the system calls cut the two streams up: if no call fails
     it succeeds exactly on the streams that `Accepts` describes, takes exactly the accepted bytes, leaves the rest,
     and has then sent exactly the greeting and the request. At no time has it sent anything else.
     */
    method Handshake(host: Host, port: Bytes) returns (ok: bool)
      requires Fresh()
      modifies this
      ensures Valid() && sent <= GREETING + Request(host, port)
      ensures ok <==> !faulted && Accepts(input).Some?
      ensures ok ==> sent == GREETING + Request(host, port) && pos == Accepts(input).value
      ensures Accepts(input).Some? ==> pos <= Accepts(input).value
      ensures |input| < 2 || input[0] != 5 || input[1] != 0 ==> sent <= GREETING
      ensures Reliable() ==> (ok <==> Accepts(input).Some?)
    {
      var buffer := new Byte[BUFFER_SIZE];
      ok := Greet(buffer);
      assert GREETING <= GREETING + Request(host, port);
      if ok {
        ok := SendRequest(buffer, host, port);
        assert Accepts(input).Some? ==> pos <= Accepts(input).value;
        if ok {
          ok := ReadReply(buffer);
        }
      }
    }
  }

  method Store(buffer: array<Byte>, at: nat, bytes: Bytes)
    requires at + |bytes| <= buffer.Length
    modifies buffer
    ensures forall i :: 0 <= i < buffer.Length ==> buffer[i] == if at <= i < at + |bytes| then bytes[i - at] else old(buffer[i])
  {
    for j := 0 to |bytes|
      invariant forall i :: 0 <= i < buffer.Length ==> buffer[i] == if at <= i < at + j then bytes[i - at] else old(buffer[i])
    {
      buffer[at + j] := bytes[j];
    }
  }
}
