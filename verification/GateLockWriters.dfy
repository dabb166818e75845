/** How a writer drains the readers, and what a deadline undoes. */
module GateLockWriters {
  import opened GateLock
  import opened GateLockSafety

  // ---------- writer drain ----------

  /** `w` stays parked at gate2 from `s` to the end of `evs`. */
  predicate Draining(cap: nat, s: Lock, evs: seq<Event>, w: nat)
    requires w < |s.threads|
  {
    forall i :: 0 <= i <= |evs| ==> Run(cap, s, evs[..i]).threads[w].Gate2?
  }

  /** The number of unlock_shared steps actually taken in a run. */
  function Unlocks(cap: nat, s: Lock, evs: seq<Event>): (n: nat)
    decreases |evs|
  {
    if evs == [] then 0 else
      var front, last := evs[..|evs| - 1], evs[|evs| - 1];
      Unlocks(cap, s, front) + (if last.UnlockShared? && Enabled(cap, Run(cap, s, front), last) then 1 else 0)
  }

  lemma DrainingPrefix(cap: nat, s: Lock, evs: seq<Event>, w: nat, k: nat)
    requires w < |s.threads| && k <= |evs| && Draining(cap, s, evs, w)
    ensures Draining(cap, s, evs[..k], w)
  {
    forall i | 0 <= i <= k ensures Run(cap, s, evs[..k][..i]).threads[w].Gate2? {
      assert evs[..k][..i] == evs[..i];
    }
  }

  lemma EnteredBy(cap: nat, s: Lock, w: nat)
    requires Inv(cap, s) && w < |s.threads| && OwnsFlag(s.threads[w])
    ensures s.entered && forall i :: 0 <= i < |s.threads| && OwnsFlag(s.threads[i]) ==> i == w
  {
    CountMember(s.threads, OwnsFlag, w);
    forall i | 0 <= i < |s.threads| && OwnsFlag(s.threads[i]) ensures i == w { OwnerIsUnique(cap, s, i, w); }
  }

  /** While a writer drains, one step lowers the count by one exactly when it is an unlock_shared. */
  lemma DrainStep(cap: nat, s: Lock, ev: Event, w: nat)
    requires Inv(cap, s) && w < |s.threads| && s.threads[w].Gate2?
    requires var x := Apply(cap, s, ev).threads[w]; x.Gate2?
    ensures Apply(cap, s, ev).readers == s.readers - (if ev.UnlockShared? && Enabled(cap, s, ev) then 1 else 0)
  {
    EnteredBy(cap, s, w);
    if Enabled(cap, s, ev) && ev.Wake? && s.threads[ev.t].Gate2? { assert ev.t == w; }
  }

  /** Nobody joins while a writer drains: the count is what it was, less the unlock_shared steps taken. */
  lemma {:induction false} DrainCounts(cap: nat, s: Lock, evs: seq<Event>, w: nat)
    requires Inv(cap, s) && w < |s.threads| && Draining(cap, s, evs, w)
    ensures var s' := Run(cap, s, evs);
      && s'.readers + Unlocks(cap, s, evs) == s.readers
      && s'.threads[w].Gate2? && (s'.readers == 0 ==> s'.threads[w].signalled)
    decreases |evs|
  {
    RunKeepsInv(cap, s, evs);
    assert evs[..|evs|] == evs;
    if evs != [] {
      var front := evs[..|evs| - 1];
      DrainingPrefix(cap, s, evs, w, |evs| - 1);
      DrainCounts(cap, s, front, w);
      RunKeepsInv(cap, s, front);
      DrainStep(cap, Run(cap, s, front), evs[|evs| - 1], w);
    }
  }

  /** The only ways out of gate2: the writer's own wake-up, holding or (with a deadline) giving up. */
  lemma LeavesGate2(cap: nat, s: Lock, ev: Event, w: nat)
    requires Inv(cap, s) && w < |s.threads| && s.threads[w].Gate2? && !s.threads[w].timed
    ensures var x := Apply(cap, s, ev).threads[w];
      if ev == Wake(w, false) && s.readers == 0 then x.HoldUnique? else x.Gate2? && !x.timed
  {
  }

  /** `w` has been parked at gate2 without a deadline all along. */
  predicate StillDraining(cap: nat, s: Lock, evs: seq<Event>, w: nat)
    requires w < |s.threads|
  {
    && Draining(cap, s, evs, w)
    && (var x := Run(cap, s, evs).threads[w]; x.Gate2? && !x.timed)
    && Unlocks(cap, s, evs) <= s.readers
  }

  lemma DrainOn(cap: nat, s: Lock, front: seq<Event>, ev: Event, w: nat)
    requires Inv(cap, s) && w < |s.threads| && StillDraining(cap, s, front, w)
    ensures StillDraining(cap, s, front + [ev], w) || HoldsAt(cap, s, front + [ev], w, |front|)
  {
    var evs := front + [ev];
    assert evs[..|front|] == front && evs[..|evs|] == evs;
    RunStep(cap, s, front, ev);
    RunKeepsInv(cap, s, front);
    DrainCounts(cap, s, front, w);
    LeavesGate2(cap, Run(cap, s, front), ev, w);
    if Run(cap, s, evs).threads[w].Gate2? {
      forall i | 0 <= i <= |evs| ensures Run(cap, s, evs[..i]).threads[w].Gate2? {
        if i < |evs| { assert evs[..i] == front[..i]; }
      }
      DrainCounts(cap, s, evs, w);
      RunKeepsInv(cap, s, evs);
    }
  }

  /**
   A writer without a deadline holds the lock after exactly as many unlock_shared steps as there
   were readers when it started to drain, followed by its own wake-up; until then it drains.
   */
  lemma {:induction false} WriterDrains(cap: nat, s: Lock, evs: seq<Event>, w: nat)
    requires Inv(cap, s) && w < |s.threads| && s.threads[w].Gate2? && !s.threads[w].timed
    ensures StillDraining(cap, s, evs, w) || exists k: nat :: k < |evs| && HoldsAt(cap, s, evs, w, k)
    decreases |evs|
  {
    if evs != [] {
      var m := |evs| - 1;
      var front := evs[..m];
      assert evs == front + [evs[m]];
      WriterDrains(cap, s, front, w);
      if StillDraining(cap, s, front, w) {
        DrainOn(cap, s, front, evs[m], w);
      } else {
        var k: nat :| k < m && HoldsAt(cap, s, front, w, k);
        assert front[..k] == evs[..k] && front[..k + 1] == evs[..k + 1];
        assert HoldsAt(cap, s, evs, w, k);
      }
    }
  }

  /** Event `k` is the wake-up with which `w` takes the lock, all readers of `s` having unlocked. */
  predicate HoldsAt(cap: nat, s: Lock, evs: seq<Event>, w: nat, k: nat)
    requires w < |s.threads|
  {
    && k < |evs|
    && Draining(cap, s, evs[..k], w)
    && Unlocks(cap, s, evs[..k]) == s.readers
    && evs[k] == Wake(w, false)
    && Run(cap, s, evs[..k + 1]).threads[w].HoldUnique?
  }

  // ---------- deadlines ----------

  /** `ev` is a deadline with which thread `t` gives up. */
  predicate GivesUp(cap: nat, s: Lock, ev: Event, t: nat) {
    && ev == Wake(t, true) && Enabled(cap, s, ev)
    && Apply(cap, s, ev).threads[t].Idle?
  }

  /**
   Giving up grants nothing and takes nothing: ownership is as before and every other thread is where
   it was. The flag is cleared exactly by a writer that had set it, and then nobody sleeps at gate1.
   */
  lemma TimeoutRollsBack(cap: nat, s: Lock, t: nat)
    requires Inv(cap, s) && GivesUp(cap, s, Wake(t, true), t)
    ensures var s' := Apply(cap, s, Wake(t, true));
      && Abs(s') == Abs(s) && s'.readers == s.readers
      && (s.threads[t].Gate1? ==> s' == Move(s, t, Idle))
      && (s.threads[t].Gate2? ==>
          && s.entered && !s'.entered
          && (forall i :: 0 <= i < |s.threads| && i != t ==>
                s'.threads[i] == (if s.threads[i].Gate1? then Signal(s.threads[i]) else s.threads[i])))
      && (s'.entered != s.entered ==> s.threads[t].Gate2? && (forall i :: 0 <= i < |s.threads| ==> !AsleepAt1(s'.threads[i])))
  {
    if s.threads[t].Gate2? { EnteredBy(cap, s, t); }
    MoveAbs(s, t, Idle, Apply(cap, s, Wake(t, true)).threads, Nobody, 0);
    assert t !in Abs(s).writers && t !in Abs(s).readers;
  }

  function UntimePhase(p: Phase): Phase {
    match p
    case Gate1(k, _, g) => Gate1(k, false, g)
    case Gate2(_, g) => Gate2(false, g)
    case _ => p
  }

  /** The same lock, had thread `t` called the blocking operation. */
  function Untime(s: Lock, t: nat): (r: Lock)
    ensures |r.threads| == |s.threads|
  {
    if t < |s.threads| then Move(s, t, UntimePhase(s.threads[t])) else s
  }

  function UntimeEvent(ev: Event, t: nat): Event {
    if ev.t != t then ev else
    match ev
    case Call(_, k, _) => Call(t, k, false)
    case Wake(_, _) => Wake(t, false)
    case _ => ev
  }

  function UntimeEvents(evs: seq<Event>, t: nat): (r: seq<Event>)
    ensures |r| == |evs|
  {
    seq(|evs|, i requires 0 <= i < |evs| => UntimeEvent(evs[i], t))
  }

  lemma UntimeCanPick(s: Lock, t: nat, asleep: Phase -> bool, pick: nat)
    requires asleep in {AsleepAt1, AsleepAt2, Nobody}
    ensures CanPick(Untime(s, t).threads, asleep, pick) <==> CanPick(s.threads, asleep, pick)
  {
    var u := Untime(s, t).threads;
    assert forall i :: 0 <= i < |u| ==> asleep(u[i]) == asleep(s.threads[i]);
  }

  lemma UntimeMove(s: Lock, i: nat, x: Phase, t: nat)
    requires i < |s.threads|
    ensures Untime(Move(s, i, x), t) == Move(Untime(s, t), i, if i == t then UntimePhase(x) else x)
  {
    assert Untime(Move(s, i, x), t).threads == Move(Untime(s, t), i, if i == t then UntimePhase(x) else x).threads;
  }

  lemma UntimeNotify(s: Lock, t: nat, asleep: Phase -> bool, pick: nat)
    requires asleep in {AsleepAt1, AsleepAt2, Nobody}
    ensures Untime(s.(threads := NotifyAllGate1(s.threads)), t).threads == NotifyAllGate1(Untime(s, t).threads)
    ensures Untime(s.(threads := NotifyOne(s.threads, asleep, pick)), t).threads == NotifyOne(Untime(s, t).threads, asleep, pick)
  {
  }

  lemma UntimeEnter(cap: nat, s: Lock, i: nat, kind: Kind, timed: bool, t: nat)
    requires i < |s.threads|
    ensures Untime(Enter(cap, s, i, kind, timed), t) == Enter(cap, Untime(s, t), i, kind, if i == t then false else timed)
  {
    UntimeMove(s, i, Gate1(kind, timed, false), t);
    UntimeMove(s.(readers := s.readers + 1), i, HoldShared, t);
    UntimeMove(s.(entered := true), i, if s.readers != 0 then Gate2(timed, false) else HoldUnique, t);
  }

  lemma UntimeWake(cap: nat, s: Lock, i: nat, expired: bool, t: nat)
    requires t < |s.threads| && Enabled(cap, s, Wake(i, expired))
    requires i == t ==> !GivesUp(cap, s, Wake(i, expired), t)
    ensures Untime(WakeUp(cap, s, i, expired), t) == WakeUp(cap, Untime(s, t), i, if i == t then false else expired)
  {
    UntimeMove(s, i, Idle, t);
    match s.threads[i]
    case Gate1(kind, timed, _) =>
      UntimeEnter(cap, s, i, kind, timed, t);
    case Gate2(timed, _) =>
      UntimeMove(s, i, if s.readers != 0 then Gate2(timed, false) else HoldUnique, t);
      UntimeNotify(Move(s, i, Idle), t, Nobody, 0);
  }

  lemma UntimeStep(cap: nat, s: Lock, ev: Event, t: nat)
    requires t < |s.threads| && (ev.t == t ==> Enabled(cap, s, ev) && !GivesUp(cap, s, ev, t))
    ensures Untime(Apply(cap, s, ev), t) == Apply(cap, Untime(s, t), UntimeEvent(ev, t))
  {
    var u, e := Untime(s, t), UntimeEvent(ev, t);
    if ev.UnlockShared? { UntimeCanPick(s, t, Audience(cap, s, s.readers - 1), ev.pick); }
    assert Enabled(cap, u, e) == Enabled(cap, s, ev);
    if Enabled(cap, s, ev) {
      UntimeMove(s, ev.t, Idle, t);
      match ev
      case Call(i, kind, timed) => UntimeEnter(cap, s, i, kind, timed, t);
      case Attempt(i, kind) => UntimeEnter(cap, s, i, kind, false, t);
      case Wake(i, expired) => UntimeWake(cap, s, i, expired, t);
      case Unlock(i) => UntimeNotify(Move(s, i, Idle), t, Nobody, 0);
      case UnlockShared(i, pick) => UntimeNotify(Move(s, i, Idle), t, Audience(cap, s, s.readers - 1), pick);
    }
  }

  /** Every step of `t` in the run takes effect, and none of them gives up. */
  predicate NeverGivesUp(cap: nat, s: Lock, evs: seq<Event>, t: nat)
    decreases |evs|
  {
    evs == [] ||
    (var front, last := evs[..|evs| - 1], evs[|evs| - 1];
     && NeverGivesUp(cap, s, front, t)
     && (last.t == t ==> Enabled(cap, Run(cap, s, front), last) && !GivesUp(cap, Run(cap, s, front), last, t)))
  }

  /**
   A deadline call that does not give up is the blocking call: with `t`'s deadlines erased from the
   events, the run goes through the same states, so a `true` result is the state lock() would leave.
   */
  lemma {:induction false} TimedSuccessIsBlocking(cap: nat, s: Lock, evs: seq<Event>, t: nat)
    requires t < |s.threads| && NeverGivesUp(cap, s, evs, t)
    ensures Untime(Run(cap, s, evs), t) == Run(cap, Untime(s, t), UntimeEvents(evs, t))
    ensures !Parked(Run(cap, s, evs).threads[t]) ==> Untime(Run(cap, s, evs), t) == Run(cap, s, evs)
    decreases |evs|
  {
    if evs != [] {
      var front, last := evs[..|evs| - 1], evs[|evs| - 1];
      TimedSuccessIsBlocking(cap, s, front, t);
      UntimeStep(cap, Run(cap, s, front), last, t);
      assert UntimeEvents(evs, t) == UntimeEvents(front, t) + [UntimeEvent(last, t)];
      RunStep(cap, Untime(s, t), UntimeEvents(front, t), UntimeEvent(last, t));
    }
    if !Parked(Run(cap, s, evs).threads[t]) { UntimeHolder(Run(cap, s, evs), t); }
  }

  lemma UntimeHolder(s: Lock, t: nat)
    requires t < |s.threads| && !Parked(s.threads[t])
    ensures Untime(s, t) == s
  {
  }
}
