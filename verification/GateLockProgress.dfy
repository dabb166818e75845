/** Lost wake-ups: no waiter is ever forgotten, exactly when the threads exceed the reader cap by at most one. */
module GateLockProgress {
  import opened GateLock
  import opened GateLockSafety

  /** Somebody is parked, nobody holds the lock, and nobody parked has been notified. */
  predicate Stuck(s: Lock) {
    && (exists t :: 0 <= t < |s.threads| && Parked(s.threads[t]))
    && (forall t :: 0 <= t < |s.threads| ==> s.threads[t].Idle? || AsleepAt1(s.threads[t]) || AsleepAt2(s.threads[t]))
  }

  /** A thread sleeping at gate1 is blocked there: by the flag, or by a full reader count. */
  predicate NoneForgotten(cap: nat, s: Lock) {
    forall i :: 0 <= i < |s.threads| && AsleepAt1(s.threads[i]) ==> s.entered || s.readers == cap
  }

  lemma EnoughRoom(cap: nat, s: Lock, i: nat, j: nat)
    requires Inv(cap, s) && |s.threads| <= cap + 1 && s.readers == cap
    requires i < |s.threads| && j < |s.threads| && !s.threads[i].HoldShared? && !s.threads[j].HoldShared?
    ensures i == j
  {
    if i != j { CountPair(s.threads, IsShared, i, j, HoldShared, Idle); }
  }

  lemma StepForgetsNone(cap: nat, s: Lock, ev: Event)
    requires Inv(cap, s) && |s.threads| <= cap + 1 && NoneForgotten(cap, s)
    ensures NoneForgotten(cap, Apply(cap, s, ev))
  {
    var s' := Apply(cap, s, ev);
    if ev.UnlockShared? && Enabled(cap, s, ev) && !s.entered && s.readers == cap {
      forall i | 0 <= i < |s.threads| && AsleepAt1(s'.threads[i]) ensures false {
        assert AsleepAt1(s.threads[i]) && Audience(cap, s, s.readers - 1)(s.threads[i]);
        EnoughRoom(cap, s, i, ev.pick);
      }
    }
  }

  lemma {:induction false} RunForgetsNone(cap: nat, n: nat, evs: seq<Event>)
    requires n <= cap + 1
    ensures Inv(cap, Run(cap, Init(n), evs)) && NoneForgotten(cap, Run(cap, Init(n), evs))
    decreases |evs|
  {
    InitInv(cap, n);
    RunKeepsInv(cap, Init(n), evs);
    if evs != [] {
      var front := evs[..|evs| - 1];
      RunForgetsNone(cap, n, front);
      StepForgetsNone(cap, Run(cap, Init(n), front), evs[|evs| - 1]);
    }
  }

  /**
   With at most `cap` threads a sleeper at gate1 waits for the flag alone and a sleeper at gate2 for
   readers that exist; with `cap + 1` the first may also wait for a full count.
   */
  lemma NoStrandedWaiter(cap: nat, n: nat, evs: seq<Event>, t: nat)
    requires n <= cap + 1 && t < n
    ensures var s := Run(cap, Init(n), evs);
      && (AsleepAt1(s.threads[t]) ==> s.entered || (s.readers == cap && n == cap + 1))
      && (AsleepAt2(s.threads[t]) ==> s.readers > 0 && exists i :: 0 <= i < n && s.threads[i].HoldShared?)
  {
    RunForgetsNone(cap, n, evs);
    var s := Run(cap, Init(n), evs);
    CountZero(s.threads, IsShared);
    if s.readers == cap && n <= cap && !s.threads[t].HoldShared? {
      CountUpdate(s.threads, IsShared, t, HoldShared);
    }
  }

  lemma NeverStuck(cap: nat, n: nat, evs: seq<Event>)
    requires 0 < cap && n <= cap + 1
    ensures !Stuck(Run(cap, Init(n), evs))
  {
    var s := Run(cap, Init(n), evs);
    RunForgetsNone(cap, n, evs);
    if Stuck(s) {
      CountZero(s.threads, IsShared);
      if s.entered { var o := FlagHasOwner(cap, s); }
      assert false;
    }
  }

  // ---------- the run that forgets a reader ----------

  function Enters(k: nat): (r: seq<Event>)
    ensures |r| == k
  {
    if k == 0 then [] else Enters(k - 1) + [Call(k - 1, Shared, false)]
  }

  function Entered(n: nat, k: nat): Lock {
    Lock(false, k, seq(n, i => if i < k then HoldShared else Idle))
  }

  lemma {:induction false} EnterAll(cap: nat, n: nat, k: nat)
    requires k <= cap && k <= n
    ensures Run(cap, Init(n), Enters(k)) == Entered(n, k)
  {
    if k == 0 {
      assert Entered(n, 0).threads == Init(n).threads;
    } else {
      EnterAll(cap, n, k - 1);
      RunStep(cap, Init(n), Enters(k - 1), Call(k - 1, Shared, false));
      assert Entered(n, k - 1).threads[k - 1 := HoldShared] == Entered(n, k).threads;
    }
  }

  /** `k` of the `cap` readers have left; the first of two parked readers was notified, the second was not. */
  function Left(cap: nat, n: nat, k: nat): Lock {
    Lock(false, cap - k, seq(n, i =>
      if i < k then Idle else if i < cap then HoldShared
      else if i == cap then Gate1(Shared, false, k > 0) else if i == cap + 1 then Gate1(Shared, false, false) else Idle))
  }

  function Leaves(cap: nat, k: nat): (r: seq<Event>)
    ensures |r| == k
  {
    if k == 0 then [] else Leaves(cap, k - 1) + [UnlockShared(k - 1, cap)]
  }

  /** The first reader to leave notifies the first sleeper. */
  lemma FirstLeaves(cap: nat, n: nat, s: Lock)
    requires 0 < cap && cap + 2 <= n && s == Left(cap, n, 0)
    ensures Apply(cap, s, UnlockShared(0, cap)) == Left(cap, n, 1)
  {
    assert AsleepAt1(s.threads[cap]);
    assert s.threads[0 := Idle][cap := Gate1(Shared, false, true)] == Left(cap, n, 1).threads;
  }

  /** The others notify nobody. */
  lemma NextLeaves(cap: nat, n: nat, k: nat, s: Lock)
    requires 0 < k < cap && cap + 2 <= n && s == Left(cap, n, k)
    ensures Apply(cap, s, UnlockShared(k, cap)) == Left(cap, n, k + 1)
  {
    assert Audience(cap, s, s.readers - 1) == Nobody;
    assert s.threads[k := Idle] == Left(cap, n, k + 1).threads;
  }

  lemma {:induction false} LeaveAll(cap: nat, n: nat, k: nat)
    requires 0 < cap && k <= cap && cap + 2 <= n
    ensures Run(cap, Left(cap, n, 0), Leaves(cap, k)) == Left(cap, n, k)
  {
    if k > 0 {
      LeaveAll(cap, n, k - 1);
      RunStep(cap, Left(cap, n, 0), Leaves(cap, k - 1), UnlockShared(k - 1, cap));
      if k == 1 { FirstLeaves(cap, n, Left(cap, n, 0)); } else { NextLeaves(cap, n, k - 1, Left(cap, n, k - 1)); }
    }
  }

  /** After the readers leave, the notified one comes and goes, and the other sleeps on a free lock. */
  function Forgetful(cap: nat): seq<Event> {
    Enters(cap) + [Call(cap, Shared, false), Call(cap + 1, Shared, false)]
    + Leaves(cap, cap) + [Wake(cap, false), UnlockShared(cap, cap)]
  }

  lemma TwoSteps(cap: nat, s: Lock, a: Event, b: Event)
    ensures Run(cap, s, [a, b]) == Apply(cap, Apply(cap, s, a), b)
  {
    RunStep(cap, s, [a], b);
    assert [a] + [b] == [a, b] && [] + [a] == [a];
    RunStep(cap, s, [], a);
  }

  lemma TwoReadersPark(cap: nat, n: nat)
    requires 2 <= cap && cap + 2 <= n
    ensures Run(cap, Entered(n, cap), [Call(cap, Shared, false), Call(cap + 1, Shared, false)]) == Left(cap, n, 0)
  {
    var s := Entered(n, cap);
    TwoSteps(cap, s, Call(cap, Shared, false), Call(cap + 1, Shared, false));
    assert s.threads[cap := Gate1(Shared, false, false)][cap + 1 := Gate1(Shared, false, false)] == Left(cap, n, 0).threads;
  }

  lemma NotifiedReaderComesAndGoes(cap: nat, n: nat)
    requires 2 <= cap && cap + 2 <= n
    ensures Stuck(Run(cap, Left(cap, n, cap), [Wake(cap, false), UnlockShared(cap, cap)]))
  {
    var s := Left(cap, n, cap);
    TwoSteps(cap, s, Wake(cap, false), UnlockShared(cap, cap));
    var held := Lock(false, 1, s.threads[cap := HoldShared]);
    assert Apply(cap, s, Wake(cap, false)) == held;
    assert Audience(cap, held, 0) == Nobody;
    var left := Apply(cap, held, UnlockShared(cap, cap));
    assert left.threads[cap + 1] == Gate1(Shared, false, false);
    assert forall t :: 0 <= t < n && t != cap + 1 ==> left.threads[t].Idle?;
  }

  lemma ForgetfulIsStuck(cap: nat, n: nat)
    requires 2 <= cap && cap + 2 <= n
    ensures Stuck(Run(cap, Init(n), Forgetful(cap)))
  {
    var calls, ends := [Call(cap, Shared, false), Call(cap + 1, Shared, false)], [Wake(cap, false), UnlockShared(cap, cap)];
    RunAppend(cap, Init(n), Enters(cap) + calls + Leaves(cap, cap), ends);
    RunAppend(cap, Init(n), Enters(cap) + calls, Leaves(cap, cap));
    RunAppend(cap, Init(n), Enters(cap), calls);
    EnterAll(cap, n, cap);
    TwoReadersPark(cap, n);
    LeaveAll(cap, n, cap);
    NotifiedReaderComesAndGoes(cap, n);
  }

  predicate StuckAfter(cap: nat, n: nat, evs: seq<Event>) {
    Stuck(Run(cap, Init(n), evs))
  }

  /** Freedom from lost wake-ups over all runs holds exactly up to one thread more than the reader cap. */
  lemma StuckThreshold(cap: nat, n: nat)
    requires 2 <= cap
    ensures (forall evs :: !StuckAfter(cap, n, evs)) <==> n <= cap + 1
  {
    if n <= cap + 1 {
      forall evs ensures !StuckAfter(cap, n, evs) { NeverStuck(cap, n, evs); }
    } else {
      ForgetfulIsStuck(cap, n);
      assert StuckAfter(cap, n, Forgetful(cap));
    }
  }
}
