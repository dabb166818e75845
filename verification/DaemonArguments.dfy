/** The argument list that stores a configuration, and the reader that searches it for flags. */
module DaemonArguments {
  import opened Options

  /** The fixed words of the list. */
  datatype Words<N> = Words(program: N, s: N, p: N, b: N, l: N, m: N, k: N, t: N, localhost: N, timeout: N)

  /** What a configuration stores. */
  datatype Values<N> = Values(serverAddress: N, serverPort: N, localPort: N, cipher: N, key: N)

  datatype Shown<N> = Shown(serverAddress: N, serverPort: N, localAddress: N, localPort: N, cipher: N, key: N)

  function Arguments<N>(w: Words<N>, v: Values<N>): seq<N> {
    [w.program, w.s, v.serverAddress, w.p, v.serverPort, w.b, w.localhost, w.l, v.localPort,
     w.m, v.cipher, w.k, v.key, w.t, w.timeout]
  }

  /** The first index of a word, or the length. */
  function IndexOf<N(==)>(args: seq<N>, word: N): (i: nat)
    ensures i <= |args|
  {
    if args == [] || args[0] == word then 0 else 1 + IndexOf(args[1..], word)
  }

  /** The word after the first occurrence of a flag; out of range, and so an exception, without one. */
  function ValueAfter<N(==)>(args: seq<N>, flag: N): Option<N> {
    var i := IndexOf(args, flag);
    if i + 1 < |args| then Some(args[i + 1]) else None
  }

  function ReadStatus<N(==)>(w: Words<N>, args: seq<N>): Option<Shown<N>> {
    var s, p, b := ValueAfter(args, w.s), ValueAfter(args, w.p), ValueAfter(args, w.b);
    var l, m, k := ValueAfter(args, w.l), ValueAfter(args, w.m), ValueAfter(args, w.k);
    if s.None? || p.None? || b.None? || l.None? || m.None? || k.None? then None
    else Some(Shown(s.value, p.value, b.value, l.value, m.value, k.value))
  }

  /** What the status should say. */
  function Stored<N>(w: Words<N>, v: Values<N>): Shown<N> {
    Shown(v.serverAddress, v.serverPort, w.localhost, v.localPort, v.cipher, v.key)
  }

  /** The flags differ from each other and from the other words. */
  predicate Distinct<N(==)>(w: Words<N>) {
    && w.program != w.s && w.program != w.p && w.program != w.b && w.program != w.l && w.program != w.m && w.program != w.k
    && w.localhost != w.p && w.localhost != w.b && w.localhost != w.l && w.localhost != w.m && w.localhost != w.k
    && w.s != w.p && w.s != w.b && w.s != w.l && w.s != w.m && w.s != w.k
    && w.p != w.b && w.p != w.l && w.p != w.m && w.p != w.k
    && w.b != w.l && w.b != w.m && w.b != w.k
    && w.l != w.m && w.l != w.k && w.m != w.k
  }

  /**
   The configurations that are read back as they were stored: a value that looks like a flag searched for later is
   found in its place, which does no harm only if the word after it happens to be the right one.
   */
  predicate Legible<N(==)>(w: Words<N>, v: Values<N>) {
    && (v.serverAddress == w.p ==> v.serverPort == w.p)
    && v.serverAddress != w.b && v.serverPort != w.b
    && (if v.serverAddress == w.l then v.localPort == w.p else v.serverPort == w.l ==> v.localPort == w.b)
    && (if v.serverAddress == w.m then v.cipher == w.p
        else if v.serverPort == w.m then v.cipher == w.b
        else v.localPort == w.m ==> v.cipher == w.m)
    && (if v.serverAddress == w.k then v.key == w.p
        else if v.serverPort == w.k then v.key == w.b
        else if v.localPort == w.k then v.key == w.m
        else v.cipher == w.k ==> v.key == w.k)
  }

  lemma {:induction false} FirstAt<N>(args: seq<N>, word: N, i: nat)
    requires i < |args| && args[i] == word && (forall j :: 0 <= j < i ==> args[j] != word)
    ensures IndexOf(args, word) == i
  {
    if i > 0 { FirstAt(args[1..], word, i - 1); }
  }

  /** Where the search for a flag of an argument list ends, by the values that come before it. */
  lemma FlagS<N>(w: Words<N>, v: Values<N>, args: seq<N>)
    requires Distinct(w) && args == Arguments(w, v)
    ensures ValueAfter(args, w.s) == Some(v.serverAddress)
  {
    FirstAt(args, w.s, 1);
  }

  lemma FlagP<N>(w: Words<N>, v: Values<N>, args: seq<N>)
    requires Distinct(w) && args == Arguments(w, v)
    ensures ValueAfter(args, w.p) == Some(if v.serverAddress == w.p then w.p else v.serverPort)
  {
    FirstAt(args, w.p, if v.serverAddress == w.p then 2 else 3);
  }

  lemma FlagB<N>(w: Words<N>, v: Values<N>, args: seq<N>)
    requires Distinct(w) && args == Arguments(w, v)
    ensures ValueAfter(args, w.b) == Some(if v.serverAddress == w.b then w.p else if v.serverPort == w.b then w.b
                                          else w.localhost)
  {
    FirstAt(args, w.b, if v.serverAddress == w.b then 2 else if v.serverPort == w.b then 4 else 5);
  }

  lemma FlagL<N>(w: Words<N>, v: Values<N>, args: seq<N>)
    requires Distinct(w) && args == Arguments(w, v)
    ensures ValueAfter(args, w.l) == Some(if v.serverAddress == w.l then w.p else if v.serverPort == w.l then w.b
                                          else v.localPort)
  {
    FirstAt(args, w.l, if v.serverAddress == w.l then 2 else if v.serverPort == w.l then 4 else 7);
  }

  lemma FlagM<N>(w: Words<N>, v: Values<N>, args: seq<N>)
    requires Distinct(w) && args == Arguments(w, v)
    ensures ValueAfter(args, w.m) == Some(if v.serverAddress == w.m then w.p else if v.serverPort == w.m then w.b
                                          else if v.localPort == w.m then w.m else v.cipher)
  {
    FirstAt(args, w.m, if v.serverAddress == w.m then 2 else if v.serverPort == w.m then 4
                       else if v.localPort == w.m then 8 else 9);
  }

  lemma FlagK<N>(w: Words<N>, v: Values<N>, args: seq<N>)
    requires Distinct(w) && args == Arguments(w, v)
    ensures ValueAfter(args, w.k) == Some(if v.serverAddress == w.k then w.p else if v.serverPort == w.k then w.b
                                          else if v.localPort == w.k then w.m else if v.cipher == w.k then w.k else v.key)
  {
    FirstAt(args, w.k, if v.serverAddress == w.k then 2 else if v.serverPort == w.k then 4
                       else if v.localPort == w.k then 8 else if v.cipher == w.k then 10 else 11);
  }

  /** A stored configuration can always be read, and is read as it was stored exactly when it is legible. */
  lemma StatusIff<N>(w: Words<N>, v: Values<N>)
    requires Distinct(w)
    ensures ReadStatus(w, Arguments(w, v)).Some?
    ensures ReadStatus(w, Arguments(w, v)) == Some(Stored(w, v)) <==> Legible(w, v)
  {
    var args := Arguments(w, v);
    FlagS(w, v, args);
    FlagP(w, v, args);
    FlagB(w, v, args);
    FlagL(w, v, args);
    FlagM(w, v, args);
    FlagK(w, v, args);
  }
}
