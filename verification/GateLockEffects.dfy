/** What every step does, in terms of who holds the lock: no step that its thread may take is without effect. */
module GateLockEffects {
  import opened GateLock
  import opened GateLockSafety

  /**
   unlock() by the holder always takes effect: afterwards the lock is free, every other thread is where it was, and
   nobody sleeps at gate1.
   */
  lemma UnlockReleases(cap: nat, s: Lock, t: nat)
    requires Inv(cap, s) && t < |s.threads| && s.threads[t].HoldUnique?
    ensures var s' := Apply(cap, s, Unlock(t));
      && s'.threads[t].Idle? && !s'.entered && s'.readers == 0 && Abs(s') == Plain({}, {})
      && (forall i :: 0 <= i < |s.threads| ==> !AsleepAt1(s'.threads[i]))
      && (forall i :: 0 <= i < |s.threads| && i != t ==>
            s'.threads[i] == match s.threads[i]
                             case Gate1(kind, timed, _) => Gate1(kind, timed, true)
                             case p => p)
  {
    assert Enabled(cap, s, Unlock(t));
    ReleaseRefines(cap, s, Unlock(t));
    AbsOfInv(cap, s);
    assert t in Abs(s).writers;
  }

  /** `pick` is a thread that notify_one may wake: one that is asleep at the gate, if there is one. */
  predicate Admissible(cap: nat, s: Lock, pick: nat) {
    && (s.entered && s.readers == 1 ==>
          (pick < |s.threads| && AsleepAt2(s.threads[pick])) || forall i :: 0 <= i < |s.threads| ==> !AsleepAt2(s.threads[i]))
    && (!s.entered && s.readers == cap ==>
          (pick < |s.threads| && AsleepAt1(s.threads[pick])) || forall i :: 0 <= i < |s.threads| ==> !AsleepAt1(s.threads[i]))
  }

  /** There is always one. */
  lemma SomePick(cap: nat, s: Lock) returns (pick: nat)
    ensures Admissible(cap, s, pick)
  {
    pick := 0;
    if s.entered {
      if i :| 0 <= i < |s.threads| && AsleepAt2(s.threads[i]) { pick := i; }
    } else {
      if i :| 0 <= i < |s.threads| && AsleepAt1(s.threads[i]) { pick := i; }
    }
  }

  /** Notified when the last reader leaves a draining writer, or when the first leaves a full lock. */
  predicate Notified(cap: nat, s: Lock, p: Phase) {
    (s.entered && s.readers == 1 && AsleepAt2(p)) || (!s.entered && s.readers == cap && AsleepAt1(p))
  }

  /**
   unlock_shared() by a holder always takes effect, also while a writer drains: exactly this reader goes, the count
   falls by one, the flag stays, and of the others only the notified one changes.
   */
  lemma UnlockSharedReleases(cap: nat, s: Lock, t: nat, pick: nat)
    requires Inv(cap, s) && t < |s.threads| && s.threads[t].HoldShared? && Admissible(cap, s, pick)
    ensures var s' := Apply(cap, s, UnlockShared(t, pick));
      && s'.threads[t].Idle? && s'.readers == s.readers - 1 && s'.entered == s.entered
      && t in Abs(s).readers && Abs(s') == Plain({}, Abs(s).readers - {t})
      && (forall i :: 0 <= i < |s.threads| && i != t ==>
            s'.threads[i] == if i == pick && Notified(cap, s, s.threads[i]) then Signal(s.threads[i]) else s.threads[i])
  {
    ReaderLeaves(cap, s, t, pick);
  }

  lemma ReaderLeaves(cap: nat, s: Lock, t: nat, pick: nat)
    requires Inv(cap, s) && t < |s.threads| && s.threads[t].HoldShared? && Admissible(cap, s, pick)
    ensures Enabled(cap, s, UnlockShared(t, pick)) && t in Abs(s).readers
    ensures Abs(Apply(cap, s, UnlockShared(t, pick))) == Plain({}, Abs(s).readers - {t})
  {
    AbsOfInv(cap, s);
    assert t in Abs(s).readers;
    ReleaseRefines(cap, s, UnlockShared(t, pick));
  }

  /** The plain lock is free of writers, and none is draining. */
  predicate NoWriter(s: Lock) {
    forall i :: 0 <= i < |s.threads| ==> !s.threads[i].Gate2? && !s.threads[i].HoldUnique?
  }

  predicate OthersStay(s: Lock, s': Lock, t: nat) {
    |s'.threads| == |s.threads| && forall i :: 0 <= i < |s.threads| && i != t ==> s'.threads[i] == s.threads[i]
  }

  lemma FlagIffWriter(cap: nat, s: Lock)
    requires Inv(cap, s)
    ensures !s.entered <==> NoWriter(s)
  {
    CountZero(s.threads, OwnsFlag);
    if s.entered { var t := FlagHasOwner(cap, s); }
    if !s.entered {
      forall i | 0 <= i < |s.threads| ensures !OwnsFlag(s.threads[i]) { }
    }
  }

  lemma EnterIsExact(cap: nat, s: Lock, t: nat, kind: Kind, timed: bool, s': Lock)
    requires Inv(cap, s) && t < |s.threads| && (s.threads[t].Idle? || s.threads[t].Gate1?) && s' == Enter(cap, s, t, kind, timed)
    ensures var p := Abs(s);
      && OthersStay(s, s', t)
      && (if !s.entered && kind.Unique? && p.readers == {} then s'.threads[t].HoldUnique? && Abs(s') == Plain({t}, {})
          else if !s.entered && kind.Unique? then s'.threads[t] == Gate2(timed, false) && s'.entered && Abs(s') == p
          else if !s.entered && |p.readers| < cap then s'.threads[t].HoldShared? && Abs(s') == Plain({}, p.readers + {t})
          else s'.threads[t] == Gate1(kind, timed, false) && Abs(s') == p && s'.entered == s.entered)
  {
    AbsOfInv(cap, s);
    MoveAbs(s, t, s'.threads[t], s'.threads, Nobody, 0);
    assert t !in Abs(s).readers && t !in Abs(s).writers;
  }

  /**
   The first step of a blocking or deadline acquisition always takes effect: it acquires exactly when the plain lock is
   free for it and no writer is draining, a writer with readers in its way goes on to gate2, and otherwise it parks.
   */
  lemma CallIsExact(cap: nat, s: Lock, t: nat, kind: Kind, timed: bool)
    requires Inv(cap, s) && t < |s.threads| && s.threads[t].Idle?
    ensures var s', p := Apply(cap, s, Call(t, kind, timed)), Abs(s);
      && OthersStay(s, s', t)
      && (if NoWriter(s) && kind.Unique? && p.readers == {} then s'.threads[t].HoldUnique? && Abs(s') == Plain({t}, {})
          else if NoWriter(s) && kind.Unique? then s'.threads[t] == Gate2(timed, false) && s'.entered && Abs(s') == p
          else if NoWriter(s) && |p.readers| < cap then s'.threads[t].HoldShared? && Abs(s') == Plain({}, p.readers + {t})
          else s'.threads[t] == Gate1(kind, timed, false) && Abs(s') == p && s'.entered == s.entered)
  {
    FlagIffWriter(cap, s);
    EnterIsExact(cap, s, t, kind, timed, Apply(cap, s, Call(t, kind, timed)));
  }

  /** So does a wake-up at gate1, notified, spurious or late: one that is still blocked at its deadline leaves. */
  lemma WakeAtGate1IsExact(cap: nat, s: Lock, t: nat, expired: bool)
    requires Inv(cap, s) && t < |s.threads| && s.threads[t].Gate1? && (expired ==> s.threads[t].timed)
    ensures var s', p, x := Apply(cap, s, Wake(t, expired)), Abs(s), s.threads[t];
      && OthersStay(s, s', t)
      && (if NoWriter(s) && x.kind.Unique? && p.readers == {} then s'.threads[t].HoldUnique? && Abs(s') == Plain({t}, {})
          else if NoWriter(s) && x.kind.Unique? then s'.threads[t] == Gate2(x.timed, false) && s'.entered && Abs(s') == p
          else if NoWriter(s) && |p.readers| < cap then s'.threads[t].HoldShared? && Abs(s') == Plain({}, p.readers + {t})
          else && s'.threads[t] == (if expired then Idle else Gate1(x.kind, x.timed, false))
               && Abs(s') == p && s'.entered == s.entered)
  {
    FlagIffWriter(cap, s);
    AbsOfInv(cap, s);
    EnterIsExact(cap, s, t, s.threads[t].kind, s.threads[t].timed, Enter(cap, s, t, s.threads[t].kind, s.threads[t].timed));
    MoveAbs(s, t, Idle, s.threads[t := Idle], Nobody, 0);
  }

  lemma NoHolderWhileDraining(cap: nat, s: Lock, t: nat)
    requires Inv(cap, s) && t < |s.threads| && s.threads[t].Gate2?
    ensures s.entered && Abs(s).writers == {} && t !in Abs(s).readers && s.readers == |Abs(s).readers|
  {
    AbsOfInv(cap, s);
    CountMember(s.threads, OwnsFlag, t);
    forall i | i in Abs(s).writers ensures false { OwnerIsUnique(cap, s, i, t); }
  }

  /** A wake-up at gate2 with no reader left always makes the writer the holder, deadline or not. */
  lemma DrainedWriterHolds(cap: nat, s: Lock, t: nat, expired: bool)
    requires Inv(cap, s) && t < |s.threads| && s.threads[t].Gate2? && (expired ==> s.threads[t].timed) && Abs(s).readers == {}
    ensures var s' := Apply(cap, s, Wake(t, expired));
      OthersStay(s, s', t) && s'.threads[t].HoldUnique? && s'.entered && Abs(s') == Plain({t}, {})
  {
    NoHolderWhileDraining(cap, s, t);
    MoveAbs(s, t, HoldUnique, s.threads[t := HoldUnique], Nobody, 0);
  }

  /** With readers left it parks again. */
  lemma DrainingWriterWaits(cap: nat, s: Lock, t: nat)
    requires Inv(cap, s) && t < |s.threads| && s.threads[t].Gate2? && Abs(s).readers != {}
    ensures var s' := Apply(cap, s, Wake(t, false));
      OthersStay(s, s', t) && s'.threads[t] == Gate2(s.threads[t].timed, false) && s'.entered && Abs(s') == Abs(s)
  {
    NoHolderWhileDraining(cap, s, t);
    var x := Gate2(s.threads[t].timed, false);
    MoveAbs(s, t, x, s.threads[t := x], Nobody, 0);
  }

  /** At its deadline, with readers left, it gives the flag back and wakes everybody at gate1. */
  lemma DrainingWriterGivesUp(cap: nat, s: Lock, t: nat)
    requires Inv(cap, s) && t < |s.threads| && s.threads[t].Gate2? && s.threads[t].timed && Abs(s).readers != {}
    ensures var s' := Apply(cap, s, Wake(t, true));
      && s'.threads[t].Idle? && !s'.entered && s'.readers == s.readers && Abs(s') == Abs(s)
      && (forall i :: 0 <= i < |s.threads| ==> !AsleepAt1(s'.threads[i]))
      && (forall i :: 0 <= i < |s.threads| && i != t && !s.threads[i].Gate1? ==> s'.threads[i] == s.threads[i])
  {
    NoHolderWhileDraining(cap, s, t);
    MoveAbs(s, t, Idle, NotifyAllGate1(s.threads[t := Idle]), Nobody, 0);
  }
}
