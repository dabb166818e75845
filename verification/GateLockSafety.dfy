/** What every run of the lock keeps: exclusion, the meaning of the word, and refinement of a plain lock. */
module GateLockSafety {
  import opened GateLock

  predicate IsShared(p: Phase) { p.HoldShared? }

  predicate IsUnique(p: Phase) { p.HoldUnique? }

  /** The writer flag belongs to the thread draining readers at gate2 or holding exclusively. */
  predicate OwnsFlag(p: Phase) { p.Gate2? || p.HoldUnique? }

  ghost predicate Inv(cap: nat, s: Lock) {
    && 0 <= s.readers <= cap
    && s.readers == Count(s.threads, IsShared)
    && Count(s.threads, OwnsFlag) == (if s.entered then 1 else 0)
    && (Count(s.threads, IsUnique) > 0 ==> s.readers == 0)
    && forall i :: 0 <= i < |s.threads| && AsleepAt2(s.threads[i]) ==> s.readers > 0
  }

  lemma CountMember(threads: seq<Phase>, p: Phase -> bool, i: nat)
    requires i < |threads| && p(threads[i])
    ensures Count(threads, p) > 0
  {
    CountZero(threads, p);
  }

  /** One thread owns the flag: a second owner would make the count two. */
  lemma OwnerIsUnique(cap: nat, s: Lock, i: nat, j: nat)
    requires Inv(cap, s) && i < |s.threads| && j < |s.threads|
    requires OwnsFlag(s.threads[i]) && OwnsFlag(s.threads[j])
    ensures i == j && s.entered
  {
    CountMember(s.threads, OwnsFlag, i);
    if i != j {
      CountPair(s.threads, OwnsFlag, i, j, HoldUnique, Idle);
    }
  }

  lemma FlagHasOwner(cap: nat, s: Lock) returns (t: nat)
    requires Inv(cap, s) && s.entered
    ensures t < |s.threads| && OwnsFlag(s.threads[t])
  {
    CountZero(s.threads, OwnsFlag);
    t :| t < |s.threads| && OwnsFlag(s.threads[t]);
  }

  lemma Updates(s: Lock, t: nat, x: Phase)
    requires t < |s.threads|
    ensures Count(s.threads[t := x], IsShared) ==
            Count(s.threads, IsShared) - (if s.threads[t].HoldShared? then 1 else 0) + (if x.HoldShared? then 1 else 0)
    ensures Count(s.threads[t := x], IsUnique) ==
            Count(s.threads, IsUnique) - (if s.threads[t].HoldUnique? then 1 else 0) + (if x.HoldUnique? then 1 else 0)
    ensures Count(s.threads[t := x], OwnsFlag) ==
            Count(s.threads, OwnsFlag) - (if OwnsFlag(s.threads[t]) then 1 else 0) + (if OwnsFlag(x) then 1 else 0)
  {
    CountUpdate(s.threads, IsShared, t, x);
    CountUpdate(s.threads, IsUnique, t, x);
    CountUpdate(s.threads, OwnsFlag, t, x);
  }

  /** Notifications change only the `signalled` marks, which no count looks at. */
  lemma NotifyCounts(threads: seq<Phase>, asleep: Phase -> bool, pick: nat)
    ensures forall p: Phase -> bool | p in {IsShared, IsUnique, OwnsFlag} ::
      Count(NotifyAllGate1(threads), p) == Count(threads, p) && Count(NotifyOne(threads, asleep, pick), p) == Count(threads, p)
  {
    var all, one := NotifyAllGate1(threads), NotifyOne(threads, asleep, pick);
    CountSame(all, threads, IsShared);
    CountSame(all, threads, IsUnique);
    CountSame(all, threads, OwnsFlag);
    CountSame(one, threads, IsShared);
    CountSame(one, threads, IsUnique);
    CountSame(one, threads, OwnsFlag);
  }

  lemma EnterKeepsInv(cap: nat, s: Lock, t: nat, kind: Kind, timed: bool)
    requires Inv(cap, s) && t < |s.threads| && (s.threads[t].Idle? || s.threads[t].Gate1?)
    ensures Inv(cap, Enter(cap, s, t, kind, timed))
  {
    Updates(s, t, Gate1(kind, timed, false));
    Updates(s, t, HoldShared);
    Updates(s, t, HoldUnique);
    Updates(s, t, Gate2(timed, false));
    CountZero(s.threads, IsUnique);
    CountZero(s.threads, OwnsFlag);
  }

  lemma WakeKeepsInv(cap: nat, s: Lock, t: nat, expired: bool)
    requires Inv(cap, s) && t < |s.threads| && Parked(s.threads[t])
    ensures Inv(cap, WakeUp(cap, s, t, expired))
  {
    Updates(s, t, Idle);
    match s.threads[t]
    case Gate1(kind, timed, _) =>
      EnterKeepsInv(cap, s, t, kind, timed);
    case Gate2(timed, _) =>
      Updates(s, t, HoldUnique);
      Updates(s, t, Gate2(timed, false));
      NotifyCounts(s.threads[t := Idle], AsleepAt1, 0);
      CountMember(s.threads, OwnsFlag, t);
      forall i | 0 <= i < |s.threads| && i != t && OwnsFlag(s.threads[i]) ensures false { OwnerIsUnique(cap, s, t, i); }
      CountZero(s.threads[t := Idle], OwnsFlag);
  }

  lemma UnlockKeepsInv(cap: nat, s: Lock, t: nat)
    requires Inv(cap, s) && t < |s.threads| && s.threads[t].HoldUnique?
    ensures Inv(cap, Apply(cap, s, Unlock(t)))
  {
    Updates(s, t, Idle);
    NotifyCounts(s.threads[t := Idle], Nobody, 0);
    CountMember(s.threads, IsUnique, t);
    CountMember(s.threads, OwnsFlag, t);
    forall i | 0 <= i < |s.threads| && i != t && OwnsFlag(s.threads[i]) ensures false { OwnerIsUnique(cap, s, t, i); }
  }

  /** The last reader to leave a draining writer wakes exactly that writer: no sleeper is left at gate2. */
  lemma LastReaderWakesWriter(cap: nat, s: Lock, t: nat, pick: nat, i: nat)
    requires Inv(cap, s) && Enabled(cap, s, UnlockShared(t, pick)) && s.readers == 1
    requires i < |s.threads| && AsleepAt2(s.threads[i])
    ensures i == pick
  {
    CountMember(s.threads, OwnsFlag, i);
    assert Audience(cap, s, s.readers - 1)(s.threads[i]);
    OwnerIsUnique(cap, s, i, pick);
  }

  lemma NoSleepingWriterWithoutReaders(cap: nat, s: Lock, t: nat, pick: nat, i: nat)
    requires Inv(cap, s) && Enabled(cap, s, UnlockShared(t, pick))
    requires i < |s.threads| && AsleepAt2(Apply(cap, s, UnlockShared(t, pick)).threads[i])
    ensures s.readers > 1
  {
    assert i != t && AsleepAt2(s.threads[i]);
    if s.readers == 1 {
      LastReaderWakesWriter(cap, s, t, pick, i);
      CountMember(s.threads, OwnsFlag, i);
    }
  }

  lemma UnlockSharedKeepsInv(cap: nat, s: Lock, t: nat, pick: nat)
    requires Inv(cap, s) && Enabled(cap, s, UnlockShared(t, pick))
    ensures Inv(cap, Apply(cap, s, UnlockShared(t, pick)))
  {
    Updates(s, t, Idle);
    NotifyCounts(s.threads[t := Idle], Audience(cap, s, s.readers - 1), pick);
    CountMember(s.threads, IsShared, t);
    var s' := Apply(cap, s, UnlockShared(t, pick));
    forall i | 0 <= i < |s'.threads| && AsleepAt2(s'.threads[i]) ensures s'.readers > 0 {
      NoSleepingWriterWithoutReaders(cap, s, t, pick, i);
    }
  }

  lemma StepKeepsInv(cap: nat, s: Lock, ev: Event)
    requires Inv(cap, s)
    ensures Inv(cap, Apply(cap, s, ev))
  {
    if Enabled(cap, s, ev) {
      match ev
      case Call(t, kind, timed) => EnterKeepsInv(cap, s, t, kind, timed);
      case Attempt(t, kind) => EnterKeepsInv(cap, s, t, kind, false);
      case Unlock(t) => UnlockKeepsInv(cap, s, t);
      case UnlockShared(t, pick) => UnlockSharedKeepsInv(cap, s, t, pick);
      case Wake(t, expired) => WakeKeepsInv(cap, s, t, expired);
    }
  }

  lemma InitInv(cap: nat, n: nat)
    ensures Inv(cap, Init(n))
  {
    CountZero(Init(n).threads, IsShared);
    CountZero(Init(n).threads, IsUnique);
    CountZero(Init(n).threads, OwnsFlag);
  }

  lemma {:induction false} RunKeepsInv(cap: nat, s: Lock, evs: seq<Event>)
    requires Inv(cap, s)
    ensures Inv(cap, Run(cap, s, evs))
    decreases |evs|
  {
    if evs != [] {
      RunKeepsInv(cap, s, evs[..|evs| - 1]);
      StepKeepsInv(cap, Run(cap, s, evs[..|evs| - 1]), evs[|evs| - 1]);
    }
  }

  function Where(threads: seq<Phase>, p: Phase -> bool): set<nat> {
    set i | 0 <= i < |threads| && p(threads[i])
  }

  lemma {:induction false} CountIsCard(threads: seq<Phase>, p: Phase -> bool)
    ensures Count(threads, p) == |Where(threads, p)|
    decreases |threads|
  {
    if threads != [] {
      var front, last := threads[..|threads| - 1], |threads| - 1;
      CountIsCard(front, p);
      CountSplit(front, threads[last], p);
      assert threads == front + [threads[last]];
      assert Where(threads, p) == Where(front, p) + (if p(threads[last]) then {last} else {});
    }
  }

  lemma {:induction false} CountSplit(front: seq<Phase>, x: Phase, p: Phase -> bool)
    ensures Count(front + [x], p) == Count(front, p) + (if p(x) then 1 else 0)
  {
    if front != [] {
      assert (front + [x])[1..] == front[1..] + [x];
      CountSplit(front[1..], x, p);
    }
  }

  /** Exclusion over all runs: any threads, interleaving, spurious wake-up, timeout or notify_one choice. */
  lemma Exclusion(cap: nat, n: nat, evs: seq<Event>)
    ensures var s := Run(cap, Init(n), evs);
      && (forall i, j :: 0 <= i < n && 0 <= j < n && i != j && s.threads[i].HoldUnique? ==>
            !s.threads[j].HoldUnique? && !s.threads[j].HoldShared?)
      && (forall i, j :: 0 <= i < n && 0 <= j < n && OwnsFlag(s.threads[i]) && OwnsFlag(s.threads[j]) ==> i == j)
      && (s.entered <==> exists i :: 0 <= i < n && OwnsFlag(s.threads[i]))
      && s.readers == |set i | 0 <= i < n && s.threads[i].HoldShared?| <= cap
  {
    InitInv(cap, n);
    RunKeepsInv(cap, Init(n), evs);
    var s := Run(cap, Init(n), evs);
    forall i, j | 0 <= i < n && 0 <= j < n && OwnsFlag(s.threads[i]) && OwnsFlag(s.threads[j]) ensures i == j && s.entered {
      OwnerIsUnique(cap, s, i, j);
    }
    if s.entered { var t := FlagHasOwner(cap, s); }
    CountZero(s.threads, IsShared);
    CountZero(s.threads, IsUnique);
    CountIsCard(s.threads, IsShared);
    assert Where(s.threads, IsShared) == set i | 0 <= i < n && s.threads[i].HoldShared?;
  }

  // ---------- the plain lock: who holds it, and nothing else ----------

  datatype Plain = Plain(writers: set<nat>, readers: set<nat>)

  function Abs(s: Lock): Plain {
    Plain(Where(s.threads, IsUnique), Where(s.threads, IsShared))
  }

  /** The moves thread `t` may make on a plain reader/writer lock that admits up to `cap` readers. */
  predicate PlainNext(cap: nat, p: Plain, q: Plain, t: nat) {
    || q == p
    || (p.writers == {} && p.readers == {} && q == Plain({t}, {}))
    || (p.writers == {} && t !in p.readers && |p.readers| < cap && q == Plain({}, p.readers + {t}))
    || (p.writers == {t} && p.readers == {} && q == Plain({}, {}))
    || (p.writers == {} && t in p.readers && q == Plain({}, p.readers - {t}))
  }

  lemma WhereUpdate(threads: seq<Phase>, t: nat, x: Phase, p: Phase -> bool)
    requires t < |threads|
    ensures Where(threads[t := x], p) == if p(x) then Where(threads, p) + {t} else Where(threads, p) - {t}
  {
  }

  lemma WhereNotify(threads: seq<Phase>, asleep: Phase -> bool, pick: nat)
    ensures forall p: Phase -> bool | p in {IsShared, IsUnique} ::
      Where(NotifyAllGate1(threads), p) == Where(threads, p) && Where(NotifyOne(threads, asleep, pick), p) == Where(threads, p)
  {
  }

  lemma AbsOfInv(cap: nat, s: Lock)
    requires Inv(cap, s)
    ensures s.readers == |Abs(s).readers|
    ensures Abs(s).writers != {} ==> Abs(s).readers == {} && s.entered
    ensures forall i, j :: i in Abs(s).writers && j in Abs(s).writers ==> i == j
    ensures !s.entered ==> Abs(s).writers == {}
  {
    CountIsCard(s.threads, IsShared);
    CountZero(s.threads, IsUnique);
    CountZero(s.threads, OwnsFlag);
    forall i, j | i in Abs(s).writers && j in Abs(s).writers ensures i == j && s.entered {
      OwnerIsUnique(cap, s, i, j);
    }
  }

  lemma MoveAbs(s: Lock, t: nat, x: Phase, after: seq<Phase>, asleep: Phase -> bool, pick: nat)
    requires t < |s.threads|
    requires after == s.threads[t := x] || after == NotifyAllGate1(s.threads[t := x]) || after == NotifyOne(s.threads[t := x], asleep, pick)
    ensures Where(after, IsUnique) == if x.HoldUnique? then Abs(s).writers + {t} else Abs(s).writers - {t}
    ensures Where(after, IsShared) == if x.HoldShared? then Abs(s).readers + {t} else Abs(s).readers - {t}
  {
    WhereUpdate(s.threads, t, x, IsUnique);
    WhereUpdate(s.threads, t, x, IsShared);
    WhereNotify(s.threads[t := x], asleep, pick);
  }

  lemma EnterRefines(cap: nat, s: Lock, t: nat, kind: Kind, timed: bool)
    requires Inv(cap, s) && t < |s.threads| && (s.threads[t].Idle? || s.threads[t].Gate1?)
    ensures PlainNext(cap, Abs(s), Abs(Enter(cap, s, t, kind, timed)), t)
  {
    AbsOfInv(cap, s);
    var s' := Enter(cap, s, t, kind, timed);
    MoveAbs(s, t, s'.threads[t], s'.threads, Nobody, 0);
  }

  lemma WriterWakeRefines(cap: nat, s: Lock, t: nat, expired: bool)
    requires Inv(cap, s) && t < |s.threads| && s.threads[t].Gate2?
    ensures PlainNext(cap, Abs(s), Abs(WakeUp(cap, s, t, expired)), t)
  {
    AbsOfInv(cap, s);
    var s' := WakeUp(cap, s, t, expired);
    forall i | i in Abs(s).writers ensures false { OwnerIsUnique(cap, s, i, t); }
    assert Abs(s).writers == {};
    MoveAbs(s, t, s'.threads[t], s'.threads, Nobody, 0);
    if s.readers == 0 {
      assert Abs(s).readers == {};
      assert Abs(s') == Plain({t}, {});
    } else {
      assert Abs(s') == Abs(s);
    }
  }

  lemma WakeRefines(cap: nat, s: Lock, t: nat, expired: bool)
    requires Inv(cap, s) && t < |s.threads| && Parked(s.threads[t])
    ensures PlainNext(cap, Abs(s), Abs(WakeUp(cap, s, t, expired)), t)
  {
    if s.threads[t].Gate1? {
      EnterRefines(cap, s, t, s.threads[t].kind, s.threads[t].timed);
      MoveAbs(s, t, Idle, s.threads[t := Idle], Nobody, 0);
      assert Abs(Move(s, t, Idle)) == Abs(s);
    } else {
      WriterWakeRefines(cap, s, t, expired);
    }
  }

  /** A release by a holder always takes effect: exactly the caller's hold goes. */
  lemma ReleaseRefines(cap: nat, s: Lock, ev: Event)
    requires Inv(cap, s) && ev.t < |s.threads|
    requires || (ev.Unlock? && s.threads[ev.t].HoldUnique?)
             || (ev.UnlockShared? && s.threads[ev.t].HoldShared?
                 && CanPick(s.threads, Audience(cap, s, s.readers - 1), ev.pick))
    ensures var p, q := Abs(s), Abs(Apply(cap, s, ev));
      && PlainNext(cap, p, q, ev.t) && q == Plain(p.writers - {ev.t}, p.readers - {ev.t})
      && ev.t in p.writers + p.readers
  {
    AbsOfInv(cap, s);
    var s' := Apply(cap, s, ev);
    MoveAbs(s, ev.t, Idle, s'.threads, Audience(cap, s, s.readers - 1), if ev.UnlockShared? then ev.pick else 0);
    if ev.Unlock? {
      assert ev.t in Abs(s).writers;
      assert Abs(s).writers == {ev.t};
    } else {
      assert ev.t in Abs(s).readers;
    }
  }

  /** Refinement: each atomic step is one move of the plain lock by the same thread, or no move. */
  lemma RefinesPlainLock(cap: nat, s: Lock, ev: Event)
    requires Inv(cap, s)
    ensures PlainNext(cap, Abs(s), Abs(Apply(cap, s, ev)), ev.t)
  {
    if Enabled(cap, s, ev) {
      match ev
      case Call(t, kind, timed) => EnterRefines(cap, s, t, kind, timed);
      case Attempt(t, kind) => EnterRefines(cap, s, t, kind, false);
      case Wake(t, expired) => WakeRefines(cap, s, t, expired);
      case _ => ReleaseRefines(cap, s, ev);
    }
  }

  /** A try-lock succeeds exactly when the plain lock is free and no writer is draining readers. */
  lemma AttemptIsExact(cap: nat, s: Lock, t: nat, kind: Kind)
    requires Inv(cap, s) && t < |s.threads| && s.threads[t].Idle?
    ensures var p, q := Abs(s), Abs(Apply(cap, s, Attempt(t, kind)));
      var free := forall i :: 0 <= i < |s.threads| ==> !OwnsFlag(s.threads[i]);
      q == if kind.Unique? && free && p.readers == {} then Plain({t}, {})
           else if kind.Shared? && free && |p.readers| < cap then Plain({}, p.readers + {t})
           else p
  {
    AbsOfInv(cap, s);
    CountZero(s.threads, OwnsFlag);
    WhereUpdate(s.threads, t, HoldUnique, IsUnique);
    WhereUpdate(s.threads, t, HoldUnique, IsShared);
    WhereUpdate(s.threads, t, HoldShared, IsUnique);
    WhereUpdate(s.threads, t, HoldShared, IsShared);
  }
}
