/**
 The cache of the configuration script's answers: its keys, any interleaving of the threads that use it, and when
 a cached answer is final.
 */
module ProxyCache {
  import opened AddressCodec
  import opened Bits

  // ---------- keys ----------

  const COLON: Byte := 58

  function Digit(d: nat): Byte
    requires d < 10
  {
    48 + d
  }

  /** Decimal digits, most significant first. */
  function Decimal(n: nat): (s: Bytes)
    ensures s != [] && COLON !in s
  {
    if n < 10 then [Digit(n)] else Decimal(n / 10) + [Digit(n % 10)]
  }

  function Key(name: Bytes, port: nat): Bytes {
    name + [COLON] + Decimal(port)
  }

  lemma {:induction false} DecimalInjective(m: nat, n: nat)
    requires Decimal(m) == Decimal(n)
    ensures m == n
  {
    var s := Decimal(m);
    if m >= 10 && n >= 10 {
      assert s[..|s| - 1] == Decimal(m / 10) == Decimal(n / 10);
      assert s[|s| - 1] == Digit(m % 10) == Digit(n % 10);
      DecimalInjective(m / 10, n / 10);
    }
  }

  /** The last colon of a key is the one before the port, colons in the name or not. */
  lemma KeyInjective(name: Bytes, port: nat, name': Bytes, port': nat)
    requires Key(name, port) == Key(name', port')
    ensures name == name' && port == port'
  {
    var k := Key(name, port);
    LastColon(name, port, name', port');
    assert k[..|name|] == name && k[..|name|] == name';
    assert k[|name| + 1..] == Decimal(port) && k[|name| + 1..] == Decimal(port');
    DecimalInjective(port, port');
  }

  lemma AfterColon(name: Bytes, port: nat, i: nat)
    requires |name| < i < |Key(name, port)|
    ensures Key(name, port)[i] != COLON
  {
    assert Key(name, port)[i] == Decimal(port)[i - |name| - 1];
  }

  lemma LastColon(name: Bytes, port: nat, name': Bytes, port': nat)
    requires Key(name, port) == Key(name', port')
    ensures |name| == |name'|
  {
    var k := Key(name, port);
    assert k[|name|] == COLON && k[|name'|] == COLON;
    forall i: nat | |name| < i < |k| ensures k[i] != COLON { AfterColon(name, port, i); }
    forall i: nat | |name'| < i < |k| ensures k[i] != COLON { AfterColon(name', port', i); }
  }

  // ---------- threads ----------

  /** What the script answers: a proxy, and whether it may be remembered. */
  datatype Answer = Answer(proxy: SocketAddress, noCache: bool)

  /** A lookup that found nothing: first waiting for the script, then about to store its answer. */
  datatype Call = Missed(name: Bytes, port: nat) | Told(name: Bytes, port: nat, answer: Answer)

  datatype Given = Given(name: Bytes, port: nat, answer: Answer)

  datatype Returned = Returned(name: Bytes, port: nat, proxy: SocketAddress)

  /** The cache, the calls under way, and all that the script has said and callers have been told. */
  datatype State = State(cache: map<Bytes, SocketAddress>, calls: map<nat, Call>, given: set<Given>, told: seq<Returned>)

  /** The stretches of a lookup by thread `t`: under the shared lock, in the script, under the exclusive lock. */
  datatype Event = Look(t: nat, name: Bytes, port: nat) | Ask(t: nat, answer: Answer) | Store(t: nat)

  const START: State := State(map[], map[], {}, [])

  predicate Unasked(name: Bytes, port: nat) {
    |name| == 0 || port == 0
  }

  /** A step that is not its thread's next changes nothing. */
  function Step(s: State, ev: Event): State {
    match ev
    case Look(t, name, port) =>
      if t in s.calls then s
      else if Unasked(name, port) then s.(told := s.told + [Returned(name, port, NO_PROXY)])
      else if Key(name, port) in s.cache then s.(told := s.told + [Returned(name, port, s.cache[Key(name, port)])])
      else s.(calls := s.calls[t := Missed(name, port)])
    case Ask(t, answer) =>
      if t in s.calls && s.calls[t].Missed? then
        var c := s.calls[t];
        s.(calls := s.calls[t := Told(c.name, c.port, answer)], given := s.given + {Given(c.name, c.port, answer)})
      else s
    case Store(t) =>
      if t in s.calls && s.calls[t].Told? then
        var c := s.calls[t];
        State(if c.answer.noCache then s.cache else s.cache[Key(c.name, c.port) := c.answer.proxy],
              s.calls - {t}, s.given, s.told + [Returned(c.name, c.port, c.answer.proxy)])
      else s
  }

  function Run(s: State, evs: seq<Event>): State {
    if evs == [] then s else Step(Run(s, evs[..|evs| - 1]), evs[|evs| - 1])
  }

  lemma RunOne(s: State, evs: seq<Event>, ev: Event)
    ensures Run(s, evs + [ev]) == Step(Run(s, evs), ev)
  {
    assert (evs + [ev])[..|evs|] == evs;
  }

  lemma {:induction false} RunSplit(s: State, evs: seq<Event>, more: seq<Event>)
    ensures Run(s, evs + more) == Run(Run(s, evs), more)
  {
    if more == [] {
      assert evs + more == evs;
    } else {
      var n := |more| - 1;
      assert (evs + more)[..|evs| + n] == evs + more[..n];
      RunSplit(s, evs, more[..n]);
    }
  }

  // ---------- every answer is the script's ----------

  /** The script gave this proxy for this key, and let it be remembered. */
  ghost predicate Cacheable(given: set<Given>, key: Bytes, proxy: SocketAddress) {
    exists g :: g in given && Key(g.name, g.port) == key && g.answer == Answer(proxy, false)
  }

  /** The script gave this proxy for this name and this port; without a name or a port it is not asked. */
  ghost predicate Scripted(given: set<Given>, r: Returned) {
    if Unasked(r.name, r.port) then r.proxy == NO_PROXY
    else exists g :: g in given && g.name == r.name && g.port == r.port && g.answer.proxy == r.proxy
  }

  ghost predicate Coherent(s: State) {
    && (forall k :: k in s.cache ==> Cacheable(s.given, k, s.cache[k]))
    && (forall t :: t in s.calls ==> !Unasked(s.calls[t].name, s.calls[t].port))
    && (forall t :: t in s.calls && s.calls[t].Told? ==> Given(s.calls[t].name, s.calls[t].port, s.calls[t].answer) in s.given)
    && (forall i :: 0 <= i < |s.told| ==> Scripted(s.given, s.told[i]))
  }

  lemma HitIsScripted(s: State, name: Bytes, port: nat)
    requires Coherent(s) && !Unasked(name, port) && Key(name, port) in s.cache
    ensures Scripted(s.given, Returned(name, port, s.cache[Key(name, port)]))
  {
    var key := Key(name, port);
    var g :| g in s.given && Key(g.name, g.port) == key && g.answer == Answer(s.cache[key], false);
    KeyInjective(name, port, g.name, g.port);
  }

  lemma StepKeepsCoherent(s: State, ev: Event)
    requires Coherent(s)
    ensures Coherent(Step(s, ev)) && s.given <= Step(s, ev).given
  {
    match ev
    case Look(t, name, port) =>
      if t !in s.calls && !Unasked(name, port) && Key(name, port) in s.cache { HitIsScripted(s, name, port); }
    case Ask(t, answer) =>
      AskKeepsCoherent(s, t, answer);
    case Store(t) =>
      StoreKeepsCoherent(s, t);
  }

  lemma AskKeepsCoherent(s: State, t: nat, answer: Answer)
    requires Coherent(s)
    ensures Coherent(Step(s, Ask(t, answer)))
  {
    var q := Step(s, Ask(t, answer));
    forall k | k in q.cache ensures Cacheable(q.given, k, q.cache[k]) {
      assert Cacheable(s.given, k, s.cache[k]);
    }
    forall i | 0 <= i < |q.told| ensures Scripted(q.given, q.told[i]) {
      assert Scripted(s.given, s.told[i]);
    }
  }

  lemma StoreKeepsCoherent(s: State, t: nat)
    requires Coherent(s)
    ensures Coherent(Step(s, Store(t)))
  {
    if t in s.calls && s.calls[t].Told? {
      var c := s.calls[t];
      var g := Given(c.name, c.port, c.answer);
      assert g in s.given;
      assert !c.answer.noCache ==> c.answer == Answer(c.answer.proxy, false);
    }
  }

  /** In every interleaving: what is cached may be, and what callers are told the script said for that very pair. */
  lemma {:induction false} RunsAreCoherent(s: State, evs: seq<Event>)
    requires Coherent(s)
    ensures Coherent(Run(s, evs)) && s.given <= Run(s, evs).given
  {
    if evs != [] {
      RunsAreCoherent(s, evs[..|evs| - 1]);
      StepKeepsCoherent(Run(s, evs[..|evs| - 1]), evs[|evs| - 1]);
    }
  }

  /** With a script that always says the same for the same pair, the cache cannot be noticed. */
  lemma CachedIsUncached(evs: seq<Event>, script: (Bytes, nat) -> Answer)
    requires forall g :: g in Run(START, evs).given ==> g.answer == script(g.name, g.port)
    ensures forall r :: r in Run(START, evs).told ==>
      r.proxy == if |r.name| == 0 || r.port == 0 then SocketAddress(Addr(0, 0, 0, 0), [0, 0]) else script(r.name, r.port).proxy
  {
    RunsAreCoherent(START, evs);
    var s := Run(START, evs);
    forall r | r in s.told ensures r.proxy == if Unasked(r.name, r.port) then NO_PROXY else script(r.name, r.port).proxy {
      var i :| 0 <= i < |s.told| && s.told[i] == r;
      assert Scripted(s.given, s.told[i]);
    }
  }

  // ---------- when a cached answer is final ----------

  /** A call for the pair is under way that may still store something else. */
  ghost predicate Threatened(s: State, name: Bytes, port: nat, proxy: SocketAddress) {
    exists t :: t in s.calls && Threatens(s.calls[t], name, port, proxy)
  }

  predicate Threatens(c: Call, name: Bytes, port: nat, proxy: SocketAddress) {
    c.name == name && c.port == port && (c.Missed? || (!c.answer.noCache && c.answer.proxy != proxy))
  }

  ghost predicate Cached(s: State, name: Bytes, port: nat, proxy: SocketAddress) {
    Key(name, port) in s.cache && s.cache[Key(name, port)] == proxy
  }

  /** What callers have been told, and since then only `proxy` for the pair by calls that found it in the cache. */
  ghost predicate Settled(s: State, name: Bytes, port: nat, proxy: SocketAddress) {
    Cached(s, name, port, proxy) && !Threatened(s, name, port, proxy)
  }

  lemma StepKeepsSettled(s: State, ev: Event, name: Bytes, port: nat, proxy: SocketAddress)
    requires Settled(s, name, port, proxy)
    ensures Settled(Step(s, ev), name, port, proxy)
  {
    var q := Step(s, ev);
    if ev.Store? && ev.t in s.calls {
      var c := s.calls[ev.t];
      assert !Threatens(c, name, port, proxy);
      if Key(c.name, c.port) == Key(name, port) { KeyInjective(c.name, c.port, name, port); }
    }
    forall t | t in q.calls ensures !Threatens(q.calls[t], name, port, proxy) {
      if t in s.calls { assert !Threatens(s.calls[t], name, port, proxy); }
    }
  }

  lemma {:induction false} RunKeepsSettled(s: State, evs: seq<Event>, name: Bytes, port: nat, proxy: SocketAddress)
    requires Settled(s, name, port, proxy)
    ensures Settled(Run(s, evs), name, port, proxy)
  {
    if evs != [] {
      RunKeepsSettled(s, evs[..|evs| - 1], name, port, proxy);
      StepKeepsSettled(Run(s, evs[..|evs| - 1]), evs[|evs| - 1], name, port, proxy);
    }
  }

  /** A call under way can replace the answer. */
  lemma ThreatComesTrue(s: State, name: Bytes, port: nat, proxy: SocketAddress) returns (evs: seq<Event>)
    requires Threatened(s, name, port, proxy)
    ensures !Cached(Run(s, evs), name, port, proxy)
  {
    var t :| t in s.calls && Threatens(s.calls[t], name, port, proxy);
    var other := SocketAddress(if proxy.addr == NO_ADDR then Addr(1, 0, 0, 0) else NO_ADDR, proxy.port);
    evs := if s.calls[t].Missed? then [Ask(t, Answer(other, false))] else [];
    var m := Run(s, evs);
    if s.calls[t].Missed? { RunOne(s, [], Ask(t, Answer(other, false))); }
    assert t in m.calls && m.calls[t].Told? && Threatens(m.calls[t], name, port, proxy);
    RunOne(s, evs, Store(t));
    evs := evs + [Store(t)];
  }

  /**
   A cached answer is final exactly when no call that missed it is still under way with something else to store:
   one after another, the first answer that may be remembered stays, but a call that started before it may replace it.
   */
  lemma FinalIff(s: State, name: Bytes, port: nat, proxy: SocketAddress)
    requires Cached(s, name, port, proxy)
    ensures (forall evs :: Cached(Run(s, evs), name, port, proxy)) <==> !Threatened(s, name, port, proxy)
  {
    if Threatened(s, name, port, proxy) {
      var evs := ThreatComesTrue(s, name, port, proxy);
    } else {
      forall evs ensures Cached(Run(s, evs), name, port, proxy) { RunKeepsSettled(s, evs, name, port, proxy); }
    }
  }

  /** From then on whoever looks the pair up is told the same. */
  lemma LaterLooks(s: State, evs: seq<Event>, name: Bytes, port: nat, proxy: SocketAddress, t: nat)
    requires Settled(s, name, port, proxy) && !Unasked(name, port) && t !in Run(s, evs).calls
    ensures var q := Run(s, evs); Run(s, evs + [Look(t, name, port)]) == q.(told := q.told + [Returned(name, port, proxy)])
  {
    RunKeepsSettled(s, evs, name, port, proxy);
    RunOne(s, evs, Look(t, name, port));
  }

  // ---------- the object ----------

  predicate Elsewhere(others: seq<Event>, t: nat) {
    forall i :: 0 <= i < |others| ==> others[i].t != t
  }

  lemma {:induction false} OthersKeepCall(s: State, others: seq<Event>, t: nat)
    requires Elsewhere(others, t)
    ensures t in Run(s, others).calls <==> t in s.calls
    ensures t in s.calls ==> Run(s, others).calls[t] == s.calls[t]
  {
    if others != [] { OthersKeepCall(s, others[..|others| - 1], t); }
  }

  /** A lookup that misses, in one go but for the steps of others while the lock is free. */
  lemma MissRuns(s: State, t: nat, name: Bytes, port: nat, answer: Answer, others: seq<Event>)
    requires t !in s.calls && !Unasked(name, port) && Key(name, port) !in s.cache && Elsewhere(others, t)
    ensures var m := Run(Step(s, Look(t, name, port)), others);
      Run(s, [Look(t, name, port)] + others + [Ask(t, answer), Store(t)])
      == State(if answer.noCache then m.cache else m.cache[Key(name, port) := answer.proxy], m.calls - {t},
               m.given + {Given(name, port, answer)}, m.told + [Returned(name, port, answer.proxy)])
  {
    var look, ask := Look(t, name, port), Ask(t, answer);
    var first := Step(s, look);
    var m := Run(first, others);
    OthersKeepCall(first, others, t);
    RunOne(s, [], look);
    RunSplit(s, [look], others);
    RunOne(s, [look] + others, ask);
    RunOne(s, [look] + others + [ask], Store(t));
    assert [look] + others + [ask] + [Store(t)] == [look] + others + [ask, Store(t)];
    assert m.calls[t := Told(name, port, answer)] - {t} == m.calls - {t};
  }

  /** When nobody else is looking anything up, the first answer that may be remembered is final. */
  lemma FirstAnswerStays(s: State, t: nat, name: Bytes, port: nat, answer: Answer)
    requires s.calls == map[] && |name| > 0 && port > 0 && Key(name, port) !in s.cache && !answer.noCache
    ensures Settled(Run(s, [Look(t, name, port), Ask(t, answer), Store(t)]), name, port, answer.proxy)
  {
    MissRuns(s, t, name, port, answer, []);
    assert [Look(t, name, port)] + [] + [Ask(t, answer), Store(t)] == [Look(t, name, port), Ask(t, answer), Store(t)];
  }

  /** The part of `skia` that remembers answers. */
  class Skia {
    var cache: map<Bytes, SocketAddress>
    ghost var history: seq<Event>

    ghost function Now(): State
      reads this
    {
      Run(START, history)
    }

    ghost predicate Valid()
      reads this
    {
      cache == Now().cache
    }

    constructor ()
      ensures Valid() && cache == map[] && history == []
    {
      cache, history := map[], [];
    }

    /**
     query_proxy by thread `t`. Between the lookup and the store the lock is free: `others` are the steps that other
     threads take meanwhile, and `meanwhile` the cache they leave. `answer` is what the script says if asked.
     */
    method QueryProxy(t: nat, name: Bytes, port: nat, answer: Answer, meanwhile: map<Bytes, SocketAddress>,
        ghost others: seq<Event>)
      returns (proxy: SocketAddress, ghost steps: seq<Event>)
      requires Valid() && t !in Now().calls && Elsewhere(others, t)
      requires meanwhile == Run(Step(Now(), Look(t, name, port)), others).cache
      modifies this
      ensures Valid() && history == old(history) + steps && t !in Now().calls
      ensures |name| == 0 || port == 0 ==> proxy == SocketAddress(Addr(0, 0, 0, 0), [0, 0]) && cache == old(cache)
      ensures |name| > 0 && port > 0 && Key(name, port) !in old(cache) ==> proxy == answer.proxy
      ensures steps == if |name| == 0 || port == 0 || Key(name, port) in old(cache) then [Look(t, name, port)]
                       else [Look(t, name, port)] + others + [Ask(t, answer), Store(t)]
      ensures Now().told != [] && Now().told[|Now().told| - 1] == Returned(name, port, proxy)
    {
      steps := [Look(t, name, port)];
      if |name| == 0 || port == 0 {
        RunOne(START, history, Look(t, name, port));
        history := history + steps;
        return NO_PROXY, steps;
      }
      var key := Key(name, port);
      if key in cache {
        proxy := cache[key];
        RunOne(START, history, Look(t, name, port));
        history := history + steps;
      } else {
        MissRuns(Now(), t, name, port, answer, others);
        steps := [Look(t, name, port)] + others + [Ask(t, answer), Store(t)];
        RunSplit(START, history, steps);
        history := history + steps;
        cache := meanwhile;
        proxy := answer.proxy;
        if !answer.noCache {
          cache := cache[key := proxy];
        }
      }
    }
  }
}
