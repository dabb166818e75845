/**
 The two-gate reader/writer lock as a transition system.

 Every stretch of code between taking the internal mutex and the next wait or return is one
 atomic step. A step is an `Event`; `Apply` executes it. An event that its thread cannot take
 (unlocking what it does not hold, waking while not parked, ...) leaves the lock unchanged, so
 a run is simply a sequence of events and "every interleaving" is "every sequence".
 */
module GateLock {

  datatype Kind = Unique | Shared

  /** Where a thread is. `signalled` is set by a notification and cleared when the thread parks again. */
  datatype Phase =
    | Idle
    | Gate1(kind: Kind, timed: bool, signalled: bool)
    | Gate2(timed: bool, signalled: bool)
    | HoldShared
    | HoldUnique

  /** `entered` is the writer flag and `readers` the count field of the state word. */
  datatype Lock = Lock(entered: bool, readers: int, threads: seq<Phase>)

  /**
   `Call` starts a blocking (or, when `timed`, a deadline) acquisition, `Attempt` is a try-lock.
   `pick` is the thread that notify_one chooses when it has a choice. `Wake` is the return of a
   wait, whether notified or spurious; `expired` says that the wait reported its deadline.
   */
  datatype Event =
    | Call(t: nat, kind: Kind, timed: bool)
    | Attempt(t: nat, kind: Kind)
    | Unlock(t: nat)
    | UnlockShared(t: nat, pick: nat)
    | Wake(t: nat, expired: bool)

  function Init(n: nat): Lock {
    Lock(false, 0, seq(n, i => Idle))
  }

  predicate AsleepAt1(p: Phase) { p.Gate1? && !p.signalled }

  predicate AsleepAt2(p: Phase) { p.Gate2? && !p.signalled }

  predicate Parked(p: Phase) { p.Gate1? || p.Gate2? }

  function Signal(p: Phase): Phase {
    match p
    case Gate1(k, timed, _) => Gate1(k, timed, true)
    case Gate2(timed, _) => Gate2(timed, true)
    case _ => p
  }

  function NotifyAllGate1(threads: seq<Phase>): (r: seq<Phase>)
    ensures |r| == |threads|
    ensures forall i :: 0 <= i < |r| ==> r[i] == if threads[i].Gate1? then Signal(threads[i]) else threads[i]
  {
    seq(|threads|, i requires 0 <= i < |threads| => if threads[i].Gate1? then Signal(threads[i]) else threads[i])
  }

  /** notify_one must wake a sleeper when there is one, and wakes nobody otherwise. */
  predicate CanPick(threads: seq<Phase>, asleep: Phase -> bool, pick: nat) {
    (pick < |threads| && asleep(threads[pick])) || forall i :: 0 <= i < |threads| ==> !asleep(threads[i])
  }

  function NotifyOne(threads: seq<Phase>, asleep: Phase -> bool, pick: nat): (r: seq<Phase>)
    ensures |r| == |threads|
  {
    if pick < |threads| && asleep(threads[pick]) then threads[pick := Signal(threads[pick])] else threads
  }

  /** Which sleepers unlock_shared notifies one of, if any, once the count has become `left`. */
  function Audience(cap: nat, s: Lock, left: int): Phase -> bool {
    if s.entered then
      if left == 0 then AsleepAt2 else Nobody
    else
      if left == cap - 1 then AsleepAt1 else Nobody
  }

  predicate Nobody(p: Phase) { false }

  predicate Enabled(cap: nat, s: Lock, ev: Event) {
    && ev.t < |s.threads|
    && match ev
       case Call(t, _, _) => s.threads[t].Idle?
       case Attempt(t, _) => s.threads[t].Idle?
       case Unlock(t) => s.threads[t].HoldUnique?
       case UnlockShared(t, pick) => s.threads[t].HoldShared? && CanPick(s.threads, Audience(cap, s, s.readers - 1), pick)
       case Wake(t, expired) => Parked(s.threads[t]) && (expired ==> s.threads[t].timed)
  }

  function Move(s: Lock, t: nat, p: Phase): (r: Lock)
    requires t < |s.threads|
    ensures |r.threads| == |s.threads|
  {
    s.(threads := s.threads[t := p])
  }

  predicate Blocked(cap: nat, s: Lock, kind: Kind) {
    s.entered || (kind.Shared? && s.readers == cap)
  }

  /** The code after the gate1 test of an acquisition: park again, or go on. */
  function Enter(cap: nat, s: Lock, t: nat, kind: Kind, timed: bool): (r: Lock)
    requires t < |s.threads|
    ensures |r.threads| == |s.threads|
  {
    if Blocked(cap, s, kind) then Move(s, t, Gate1(kind, timed, false))
    else if kind.Shared? then Move(s.(readers := s.readers + 1), t, HoldShared)
    else Drain(s.(entered := true), t, timed)
  }

  /** The gate2 test of a writer that has set the flag. */
  function Drain(s: Lock, t: nat, timed: bool): (r: Lock)
    requires t < |s.threads|
    ensures |r.threads| == |s.threads|
  {
    Move(s, t, if s.readers != 0 then Gate2(timed, false) else HoldUnique)
  }

  function WakeUp(cap: nat, s: Lock, t: nat, expired: bool): (r: Lock)
    requires t < |s.threads| && Parked(s.threads[t])
    ensures |r.threads| == |s.threads|
  {
    match s.threads[t]
    case Gate1(kind, timed, _) =>
      if expired && Blocked(cap, s, kind) then Move(s, t, Idle) else Enter(cap, s, t, kind, timed)
    case Gate2(timed, _) =>
      if expired && s.readers != 0
      then Lock(false, s.readers, NotifyAllGate1(s.threads[t := Idle]))
      else Drain(s, t, timed)
  }

  function Apply(cap: nat, s: Lock, ev: Event): (r: Lock)
    ensures |r.threads| == |s.threads|
  {
    if !Enabled(cap, s, ev) then s else
    match ev
    case Call(t, kind, timed) => Enter(cap, s, t, kind, timed)
    case Attempt(t, Unique) =>
      if !s.entered && s.readers == 0 then Move(s.(entered := true), t, HoldUnique) else s
    case Attempt(t, Shared) =>
      if !s.entered && s.readers != cap then Move(s.(readers := s.readers + 1), t, HoldShared) else s
    case Unlock(t) => Lock(false, 0, NotifyAllGate1(s.threads[t := Idle]))
    case UnlockShared(t, pick) =>
      var left := s.readers - 1;
      Lock(s.entered, left, NotifyOne(s.threads[t := Idle], Audience(cap, s, left), pick))
    case Wake(t, expired) => WakeUp(cap, s, t, expired)
  }

  function Run(cap: nat, s: Lock, evs: seq<Event>): (r: Lock)
    ensures |r.threads| == |s.threads|
    decreases |evs|
  {
    if evs == [] then s else Apply(cap, Run(cap, s, evs[..|evs| - 1]), evs[|evs| - 1])
  }

  lemma RunStep(cap: nat, s: Lock, evs: seq<Event>, ev: Event)
    ensures Run(cap, s, evs + [ev]) == Apply(cap, Run(cap, s, evs), ev)
  {
    assert (evs + [ev])[..|evs|] == evs;
  }

  lemma {:induction false} RunAppend(cap: nat, s: Lock, a: seq<Event>, b: seq<Event>)
    ensures Run(cap, s, a + b) == Run(cap, Run(cap, s, a), b)
    decreases |b|
  {
    if b == [] {
      assert a + b == a;
    } else {
      var b', e := b[..|b| - 1], b[|b| - 1];
      assert a + b == (a + b') + [e] && b == b' + [e];
      RunStep(cap, s, a + b', e);
      RunAppend(cap, s, a, b');
      RunStep(cap, Run(cap, s, a), b', e);
    }
  }

  /** How many threads satisfy `p`. */
  function Count(threads: seq<Phase>, p: Phase -> bool): (n: nat)
    ensures n <= |threads|
  {
    if threads == [] then 0 else (if p(threads[0]) then 1 else 0) + Count(threads[1..], p)
  }

  lemma {:induction false} CountUpdate(threads: seq<Phase>, p: Phase -> bool, t: nat, x: Phase)
    requires t < |threads|
    ensures Count(threads[t := x], p) == Count(threads, p) - (if p(threads[t]) then 1 else 0) + (if p(x) then 1 else 0)
  {
    if t == 0 {
      assert threads[t := x][1..] == threads[1..];
    } else {
      assert threads[t := x][1..] == threads[1..][t - 1 := x];
      CountUpdate(threads[1..], p, t - 1, x);
    }
  }

  lemma {:induction false} CountSame(a: seq<Phase>, b: seq<Phase>, p: Phase -> bool)
    requires |a| == |b| && forall i :: 0 <= i < |a| ==> p(a[i]) == p(b[i])
    ensures Count(a, p) == Count(b, p)
  {
    if a != [] {
      assert forall i :: 0 <= i < |a[1..]| ==> a[1..][i] == a[i + 1] && b[1..][i] == b[i + 1];
      CountSame(a[1..], b[1..], p);
    }
  }

  lemma {:induction false} CountZero(threads: seq<Phase>, p: Phase -> bool)
    ensures Count(threads, p) == 0 <==> forall i :: 0 <= i < |threads| ==> !p(threads[i])
  {
    if threads != [] {
      CountZero(threads[1..], p);
      assert forall i :: 0 < i < |threads| ==> threads[i] == threads[1..][i - 1];
    }
  }

  /** Two members make the count at least two, and two non-members keep it two below the length. */
  lemma CountPair(threads: seq<Phase>, p: Phase -> bool, i: nat, j: nat, yes: Phase, no: Phase)
    requires i < |threads| && j < |threads| && i != j && p(yes) && !p(no)
    ensures p(threads[i]) && p(threads[j]) ==> Count(threads, p) >= 2
    ensures !p(threads[i]) && !p(threads[j]) ==> Count(threads, p) + 2 <= |threads|
  {
    CountUpdate(threads, p, i, no);
    CountUpdate(threads[i := no], p, j, no);
    CountUpdate(threads, p, i, yes);
    CountUpdate(threads[i := yes], p, j, yes);
  }
}
