/**
 `__shared_mutex_base` and the deadline operations of `shared_timed_mutex` over the packed state word.

 A thread that waits gives the internal mutex up. What other threads do meanwhile, and whether the wait
 reports its deadline, is a `Nap`; a call takes the naps it needs and, should they run out, is `Waiting`.
 Every method is proved to be a run of the transition system: its own atomic steps, interleaved with
 the steps of the naps.
 */
module SharedMutex {
  import opened Bits
  import opened GateLock
  import opened GateLockEffects
  import opened GateLockSafety
  import opened GateLockWriters

  const WRITE_ENTERED: nat := 0x8000_0000
  const N_READERS: nat := 0x7fff_ffff
  const CAP := N_READERS

  function Not(w: Word): Word {
    0xffff_ffff - w
  }

  // ---------- the word ----------

  lemma Top()
    ensures Shl(1, 31) == WRITE_ENTERED && Shl(0, 31) == 0
  {
    assert Shl(1, 8) == 0x100 && Shl(1, 16) == 0x1_0000 && Shl(1, 24) == 0x100_0000;
    ShlIsProduct(0, 31);
  }

  /** Every mask of the source, as arithmetic on the flag and the count. */
  lemma Masks(w: Word, count: nat)
    requires count < WRITE_ENTERED
    ensures var flag: nat := if w >= WRITE_ENTERED then WRITE_ENTERED else 0;
      && And(w, WRITE_ENTERED) == flag
      && And(w, N_READERS) == w - flag
      && Or(w, WRITE_ENTERED) == WRITE_ENTERED + (w - flag)
      && And(w, Not(WRITE_ENTERED)) == w - flag
      && Or(And(w, Not(N_READERS)), count) == flag + count
  {
    Top();
    var f: nat := if w >= WRITE_ENTERED then 1 else 0;
    var low := w - Shl(f, 31);
    assert w == Shl(f, 31) + low && low < Shl(1, 31);
    AndLow(31, f, low);
    AndHigh(31, f, low, 1);
    OrHigh(31, f, low, 1);
    OrLow(31, f, count);
    AndZero(1);
    assert And(1, 1) == 1 && Or(1, 1) == 1;
  }

  function Pack(entered: bool, readers: nat): Word
    requires readers <= CAP
  {
    if entered then WRITE_ENTERED + readers else readers
  }

  function Unpack(w: Word, threads: seq<Phase>): (s: Lock)
    ensures s.threads == threads
  {
    Lock(And(w, WRITE_ENTERED) != 0, And(w, N_READERS), threads)
  }

  /** The word determines the pair (flag, count) and is determined by it. */
  lemma PackUnpack(w: Word, entered: bool, readers: nat, threads: seq<Phase>)
    requires readers <= CAP
    ensures Unpack(w, threads).readers <= CAP && Pack(Unpack(w, threads).entered, Unpack(w, threads).readers) == w
    ensures Unpack(Pack(entered, readers), threads) == Lock(entered, readers, threads)
  {
    Masks(w, 0);
    Masks(Pack(entered, readers), 0);
  }

  // ---------- calls that wait ----------

  datatype Nap = Nap(others: seq<Event>, expired: bool)

  datatype Outcome = Acquired | TimedOut | Waiting

  predicate Elsewhere(others: seq<Event>, t: nat) {
    forall j :: 0 <= j < |others| ==> others[j].t != t
  }

  /** The naps of a call by `t` hold only steps of other threads. */
  predicate AllElsewhere(naps: seq<Nap>, t: nat) {
    forall i :: 0 <= i < |naps| ==> Elsewhere(naps[i].others, t)
  }

  /** The steps of a call that has slept through its first `k` naps. */
  function Trace(call: Event, naps: seq<Nap>, timed: bool, k: nat): (evs: seq<Event>)
    requires k <= |naps|
  {
    if k == 0 then [call]
    else Trace(call, naps, timed, k - 1) + naps[k - 1].others + [Wake(call.t, timed && naps[k - 1].expired)]
  }

  lemma StepElsewhere(cap: nat, s: Lock, ev: Event, t: nat)
    requires t < |s.threads| && ev.t != t
    ensures var p, q := s.threads[t], Apply(cap, s, ev).threads[t]; q == p || q == Signal(p)
  {
  }

  lemma {:induction false} OthersElsewhere(cap: nat, s: Lock, others: seq<Event>, t: nat)
    requires t < |s.threads| && Elsewhere(others, t)
    ensures var p, q := s.threads[t], Run(cap, s, others).threads[t]; q == p || q == Signal(p)
    decreases |others|
  {
    if others != [] {
      var front := others[..|others| - 1];
      OthersElsewhere(cap, s, front, t);
      StepElsewhere(cap, Run(cap, s, front), others[|others| - 1], t);
    }
  }

  lemma Regroup<T>(a: seq<T>, b: seq<T>, c: seq<T>, last: T)
    ensures a + b + c + [last] == a + (b + c + [last])
  {
  }

  predicate AtGate1(p: Phase, kind: Kind, timed: bool) {
    p.Gate1? && p.kind == kind && p.timed == timed
  }

  class SharedMutexBase {
    var state: Word
    /** Where each client thread is: the two wait queues, and who was granted what. */
    var threads: seq<Phase>
    /** Every atomic step since construction. */
    ghost var history: seq<Event>

    function View(): Lock
      reads this
    {
      Unpack(state, threads)
    }

    /** The lock after the steps of the history: while a step is under way, the lock as the step found it. */
    ghost function Found(): (s: Lock)
      reads this
      ensures |s.threads| == |threads|
    {
      Run(CAP, Init(|threads|), history)
    }

    ghost predicate Valid()
      reads this
    {
      View() == Found()
    }

    /** Valid objects are in reachable states, and so keep everything that runs keep. */
    lemma ValidKeepsInv()
      requires Valid()
      ensures Inv(CAP, View())
    {
      InitInv(CAP, |threads|);
      RunKeepsInv(CAP, Init(|threads|), history);
    }

    constructor (n: nat)
      ensures Valid() && View() == Init(n) && history == []
    {
      state := 0;
      threads := Init(n).threads;
      history := [];
      new;
      PackUnpack(0, false, 0, threads);
    }

    /** The step `ev` ends with thread `t` in phase `x`. */
    method Settle(t: nat, x: Phase, ghost ev: Event)
      requires t < |threads| && Move(View(), t, x) == Apply(CAP, Found(), ev)
      modifies this`threads, this`history
      ensures Valid() && history == old(history) + [ev]
      ensures threads == old(threads)[t := x]
    {
      RunStep(CAP, Init(|threads|), history, ev);
      threads := threads[t := x];
      history := history + [ev];
    }

    /** What the other threads do while the internal mutex is free. */
    method Sleep(others: seq<Event>, t: nat)
      requires Valid() && t < |threads| && Elsewhere(others, t)
      modifies this
      ensures Valid() && history == old(history) + others
      ensures |threads| == |old(threads)| && (threads[t] == old(threads[t]) || threads[t] == Signal(old(threads[t])))
    {
      ValidKeepsInv();
      RunKeepsInv(CAP, View(), others);
      OthersElsewhere(CAP, View(), others, t);
      RunAppend(CAP, Init(|threads|), history, others);
      var s := Run(CAP, View(), others);
      PackUnpack(state, s.entered, s.readers, s.threads);
      state := Pack(s.entered, s.readers);
      threads := s.threads;
      history := history + others;
    }

    /**
     One wait of a call: its step `ev` ends parked at `gate`. If there is another nap, the others run and the wake-up
     becomes due; otherwise the call is left waiting.
     */
    method Wait(t: nat, gate: Phase, naps: seq<Nap>, slept: nat, timed: bool, ghost call: Event,
        ghost ev: Event, ghost start: seq<Event>)
      returns (woken: bool, expired: bool, ghost due: Event)
      requires t < |threads| && slept <= |naps| && AllElsewhere(naps, t) && call.t == t
      requires history + [ev] == start + Trace(call, naps, timed, slept)
      requires Move(View(), t, gate) == Apply(CAP, Found(), ev)
      modifies this
      ensures Valid() && |threads| == |old(threads)|
      ensures !woken ==> slept == |naps| && history == start + Trace(call, naps, timed, slept) && threads[t] == gate
      ensures woken ==> && slept < |naps| && (threads[t] == gate || threads[t] == Signal(gate))
                        && expired == naps[slept].expired && due == Wake(t, timed && expired)
                        && history + [due] == start + Trace(call, naps, timed, slept + 1)
    {
      Settle(t, gate, ev);
      if slept == |naps| {
        return false, false, ev;
      }
      due := Wake(t, timed && naps[slept].expired);
      Sleep(naps[slept].others, t);
      Regroup(start, Trace(call, naps, timed, slept), naps[slept].others, due);
      return true, naps[slept].expired, due;
    }

    /** The call has not got past gate1: its first step is due, or that of a wake-up. */
    ghost predicate Entering(t: nat, kind: Kind, timed: bool, ev: Event)
      requires t < |threads|
      reads this
    {
      (threads[t].Idle? && ev == Call(t, kind, timed)) || (AtGate1(threads[t], kind, timed) && ev == Wake(t, false))
    }

    lemma EnteringEnters(t: nat, kind: Kind, timed: bool, ev: Event)
      requires Valid() && t < |threads| && Entering(t, kind, timed, ev)
      ensures Apply(CAP, Found(), ev) == Enter(CAP, View(), t, kind, timed)
    {
    }

    /** A wake-up at gate1: when its deadline has passed and it is still blocked it leaves, otherwise it enters. */
    lemma WokenAtGate1(t: nat, kind: Kind, timed: bool, ev: Event)
      requires Valid() && t < |threads| && AtGate1(threads[t], kind, timed) && ev.Wake? && ev.t == t && (ev.expired ==> timed)
      ensures Apply(CAP, Found(), ev) ==
              if ev.expired && Blocked(CAP, View(), kind) then Move(View(), t, Idle) else Enter(CAP, View(), t, kind, timed)
    {
    }

    /** One wait at gate1 of a call that is blocked. */
    method WaitAtGate1(t: nat, kind: Kind, timed: bool, naps: seq<Nap>, slept: nat, ghost ev: Event,
        ghost start: seq<Event>)
      returns (woken: bool, expired: bool, ghost due: Event)
      requires Valid() && t < |threads| && slept <= |naps| && AllElsewhere(naps, t)
      requires Entering(t, kind, timed, ev) && Blocked(CAP, View(), kind)
      requires history + [ev] == start + Trace(Call(t, kind, timed), naps, timed, slept)
      modifies this
      ensures Valid() && |threads| == |old(threads)|
      ensures !woken ==> slept == |naps| && history == start + Trace(Call(t, kind, timed), naps, timed, slept) && Parked(threads[t])
      ensures woken ==> && slept < |naps| && (!(timed && expired) ==> Entering(t, kind, timed, due))
                        && history + [due] == start + Trace(Call(t, kind, timed), naps, timed, slept + 1)
                        && Apply(CAP, Found(), due) ==
                           if timed && expired && Blocked(CAP, View(), kind) then Move(View(), t, Idle)
                           else Enter(CAP, View(), t, kind, timed)
    {
      EnteringEnters(t, kind, timed, ev);
      woken, expired, due := Wait(t, Gate1(kind, timed, false), naps, slept, timed, Call(t, kind, timed), ev, start);
      if woken { WokenAtGate1(t, kind, timed, due); }
    }

    /** One wait at gate2 of a writer that is still draining. */
    method WaitAtGate2(t: nat, timed: bool, naps: seq<Nap>, slept: nat, ghost ev: Event, ghost start: seq<Event>)
      returns (woken: bool, expired: bool, ghost due: Event)
      requires t < |threads| && slept <= |naps| && AllElsewhere(naps, t)
      requires View().readers != 0 && Apply(CAP, Found(), ev) == Drain(View(), t, timed)
      requires history + [ev] == start + Trace(Call(t, Unique, timed), naps, timed, slept)
      modifies this
      ensures |threads| == |old(threads)|
      ensures !woken ==> && Valid() && slept == |naps| && Parked(threads[t])
                         && history == start + Trace(Call(t, Unique, timed), naps, timed, slept)
      ensures woken ==> && Valid() && slept < |naps| && due == Wake(t, timed && expired)
                        && threads[t].Gate2? && threads[t].timed == timed
                        && history + [due] == start + Trace(Call(t, Unique, timed), naps, timed, slept + 1)
                        && (!(timed && expired) || View().readers == 0 ==> Apply(CAP, Found(), due) == Drain(View(), t, timed))
    {
      woken, expired, due := Wait(t, Gate2(timed, false), naps, slept, timed, Call(t, Unique, timed), ev, start);
    }

    /** `__state_ |= __write_entered_` */
    method RaiseFlag()
      modifies this`state
      ensures View() == old(View()).(entered := true)
    {
      Masks(state, 0);
      state := Or(state, WRITE_ENTERED);
      Masks(state, 0);
    }

    /** `__state_ = __write_entered_` */
    method StoreFlagOnly()
      modifies this`state
      ensures View() == old(View()).(entered := true, readers := 0)
    {
      state := WRITE_ENTERED;
      Masks(state, 0);
    }

    lemma StateZero()
      ensures state == 0 <==> !View().entered && View().readers == 0
    {
      Masks(state, 0);
    }

    /** `__state_ &= ~__write_entered_` */
    method LowerFlag()
      modifies this`state
      ensures View() == old(View()).(entered := false)
    {
      Masks(state, 0);
      state := And(state, Not(WRITE_ENTERED));
      Masks(state, 0);
    }

    /** Replacing the count field never touches the writer flag. */
    method StoreReaders(numReaders: nat)
      requires numReaders <= CAP
      modifies this`state
      ensures View() == old(View()).(readers := numReaders)
    {
      Masks(state, numReaders);
      state := And(state, Not(N_READERS));
      state := Or(state, numReaders);
      Masks(state, 0);
    }

    function Readers(): (n: nat)
      reads this
      ensures n == View().readers && n <= CAP
    {
      Masks(state, 0);
      And(state, N_READERS)
    }

    /** The gate1 test on the word. */
    predicate Gate1Open(kind: Kind): (open: bool)
      reads this
      ensures open <==> !Blocked(CAP, View(), kind)
    {
      And(state, WRITE_ENTERED) == 0 && (kind.Shared? ==> Readers() < N_READERS)
    }

    /** The tail of a shared acquisition: one more reader, and the step ends. */
    method Admit(t: nat, ghost ev: Event)
      requires t < |threads| && Readers() < CAP
      requires Apply(CAP, Found(), ev) == Move(View().(readers := View().readers + 1), t, HoldShared)
      modifies this
      ensures Valid() && |threads| == |old(threads)| && threads[t].HoldShared? && history == old(history) + [ev]
    {
      var numReaders := Readers() + 1;
      StoreReaders(numReaders);
      Settle(t, HoldShared, ev);
    }

    method TryLock(t: nat) returns (ok: bool)
      requires Valid() && t < |threads| && threads[t].Idle?
      modifies this
      ensures Valid() && |threads| == |old(threads)| && history == old(history) + [Attempt(t, Unique)]
      ensures ok <==> old(state) == 0
      ensures ok ==> state == 0x8000_0000 && threads == old(threads)[t := HoldUnique]
      ensures !ok ==> state == old(state) && threads == old(threads)
    {
      StateZero();
      if state == 0 {
        StoreFlagOnly();
        WordOf();
        Settle(t, HoldUnique, Attempt(t, Unique));
        return true;
      }
      Settle(t, Idle, Attempt(t, Unique));
      return false;
    }

    /** The holder's unlock leaves the lock free and nobody asleep at gate1. */
    method Unlock(t: nat)
      requires Valid() && t < |threads| && threads[t].HoldUnique?
      modifies this
      ensures Valid() && |threads| == |old(threads)| && history == old(history) + [GateLock.Unlock(t)]
      ensures state == 0 && threads[t].Idle? && Abs(View()) == Plain({}, {})
      ensures forall i :: 0 <= i < |threads| ==> !AsleepAt1(threads[i])
      ensures forall i :: 0 <= i < |threads| && i != t ==>
        threads[i] == match old(threads)[i]
                      case Gate1(kind, timed, _) => Gate1(kind, timed, true)
                      case p => p
    {
      ValidKeepsInv();
      UnlockReleases(CAP, View(), t);
      RunStep(CAP, Init(|threads|), history, GateLock.Unlock(t));
      Masks(0, 0);
      state := 0;
      threads := NotifyAllGate1(threads[t := Idle]);
      history := history + [GateLock.Unlock(t)];
    }

    method TryLockShared(t: nat) returns (ok: bool)
      requires Valid() && t < |threads| && threads[t].Idle?
      modifies this
      ensures Valid() && |threads| == |old(threads)| && history == old(history) + [Attempt(t, Shared)]
      ensures ok <==> old(state) < 0x7fff_ffff
      ensures ok ==> state == old(state) + 1 && threads == old(threads)[t := HoldShared]
      ensures !ok ==> state == old(state) && threads == old(threads)
    {
      Masks(state, 0);
      var numReaders := Readers();
      if And(state, WRITE_ENTERED) == 0 && numReaders != N_READERS {
        numReaders := numReaders + 1;
        StoreReaders(numReaders);
        WordOf();
        Settle(t, HoldShared, Attempt(t, Shared));
        return true;
      }
      Settle(t, Idle, Attempt(t, Shared));
      return false;
    }

    /** One reader goes: the count falls by one, and of the others only the notified one changes. */
    method UnlockShared(t: nat, pick: nat)
      requires Valid() && t < |threads| && threads[t].HoldShared? && Admissible(CAP, View(), pick)
      modifies this
      ensures Valid() && |threads| == |old(threads)| && history == old(history) + [GateLock.UnlockShared(t, pick)]
      ensures state == old(state) - 1 && threads[t].Idle?
      ensures t in old(Abs(View())).readers && Abs(View()) == Plain({}, old(Abs(View())).readers - {t})
      ensures forall i :: 0 <= i < |threads| && i != t ==>
        threads[i] == if i == pick && Notified(CAP, old(View()), old(threads)[i]) then Signal(old(threads)[i]) else old(threads)[i]
    {
      ghost var ev := GateLock.UnlockShared(t, pick);
      RunStep(CAP, Init(|threads|), history, ev);
      ValidKeepsInv();
      UnlockSharedReleases(CAP, View(), t, pick);
      ReaderLeaves(CAP, View(), t, pick);
      HolderCounted(t);
      WordOf();
      var numReaders := Readers() - 1;
      StoreReaders(numReaders);
      WordOf();
      threads := threads[t := Idle];
      if And(state, WRITE_ENTERED) != 0 {
        if numReaders == 0 {
          threads := NotifyOne(threads, AsleepAt2, pick);
        }
      } else {
        if numReaders == N_READERS - 1 {
          threads := NotifyOne(threads, AsleepAt1, pick);
        }
      }
      history := history + [ev];
    }

    /** The word is the flag plus the count. */
    lemma WordOf()
      ensures state == (if View().entered then 0x8000_0000 else 0) + View().readers
    {
      Masks(state, 0);
    }

    /** The word while somebody holds the lock exclusively. */
    lemma HolderWord(t: nat)
      requires Valid() && t < |threads| && threads[t].HoldUnique?
      ensures state == 0x8000_0000 && Abs(View()) == Plain({t}, {})
    {
      ValidKeepsInv();
      WordOf();
      AbsOfInv(CAP, View());
      CountMember(threads, IsUnique, t);
      assert t in Abs(View()).writers;
      assert Abs(View()).writers == {t};
    }

    lemma HolderCounted(t: nat)
      requires Valid() && t < |threads| && threads[t].HoldShared?
      ensures View().readers > 0
    {
      ValidKeepsInv();
      CountMember(threads, IsShared, t);
    }

    method Lock(t: nat, naps: seq<Nap>) returns (r: Outcome, used: nat)
      requires Valid() && t < |threads| && threads[t].Idle? && AllElsewhere(naps, t)
      modifies this
      ensures Valid() && |threads| == |old(threads)| && used <= |naps|
      ensures history == old(history) + Trace(Call(t, Unique, false), naps, false, used)
      ensures match r
              case Acquired => threads[t].HoldUnique? && state == 0x8000_0000 && Abs(View()) == Plain({t}, {})
              case Waiting => used == |naps| && Parked(threads[t])
              case TimedOut => false
    {
      ghost var call := Call(t, Unique, false);
      ghost var ev := call;
      used := 0;
      while And(state, WRITE_ENTERED) != 0
        invariant Valid() && t < |threads| == |old(threads)| && used <= |naps|
        invariant history + [ev] == old(history) + Trace(call, naps, false, used)
        invariant Entering(t, Unique, false, ev)
        decreases |naps| - used
      {
        var woken, expired;
        woken, expired, ev := WaitAtGate1(t, Unique, false, naps, used, ev, old(history));
        if !woken {
          return Waiting, used;
        }
        used := used + 1;
      }
      EnteringEnters(t, Unique, false, ev);
      RaiseFlag();
      r, used := DrainReaders(t, naps, used, old(history), ev);
      if r.Acquired? { HolderWord(t); }
    }

    /** lock(), from setting the flag on: sleep at gate2 until the readers have left. */
    method DrainReaders(t: nat, naps: seq<Nap>, slept: nat, ghost start: seq<Event>, ghost due: Event)
        returns (r: Outcome, used: nat)
      requires t < |threads| && slept <= |naps| && AllElsewhere(naps, t)
      requires history + [due] == start + Trace(Call(t, Unique, false), naps, false, slept)
      requires Apply(CAP, Found(), due) == Drain(View(), t, false)
      modifies this
      ensures Valid() && |threads| == |old(threads)| && used <= |naps|
      ensures history == start + Trace(Call(t, Unique, false), naps, false, used)
      ensures match r
              case Acquired => threads[t].HoldUnique?
              case Waiting => used == |naps| && Parked(threads[t])
              case TimedOut => false
    {
      ghost var call, ev := Call(t, Unique, false), due;
      used := slept;
      while Readers() != 0
        invariant t < |threads| == |old(threads)| && used <= |naps|
        invariant history + [ev] == start + Trace(call, naps, false, used)
        invariant Apply(CAP, Found(), ev) == Drain(View(), t, false)
        decreases |naps| - used
      {
        var woken, expired;
        woken, expired, ev := WaitAtGate2(t, false, naps, used, ev, start);
        if !woken {
          return Waiting, used;
        }
        used := used + 1;
      }
      Settle(t, HoldUnique, ev);
      return Acquired, used;
    }

    method LockShared(t: nat, naps: seq<Nap>) returns (r: Outcome, used: nat)
      requires Valid() && t < |threads| && threads[t].Idle? && AllElsewhere(naps, t)
      modifies this
      ensures Valid() && |threads| == |old(threads)| && used <= |naps|
      ensures history == old(history) + Trace(Call(t, Shared, false), naps, false, used)
      ensures match r
              case Acquired => threads[t].HoldShared?
              case Waiting => used == |naps| && Parked(threads[t])
              case TimedOut => false
    {
      ghost var call := Call(t, Shared, false);
      ghost var ev := call;
      used := 0;
      while And(state, WRITE_ENTERED) != 0 || Readers() == N_READERS
        invariant Valid() && t < |threads| == |old(threads)| && used <= |naps|
        invariant history + [ev] == old(history) + Trace(call, naps, false, used)
        invariant Entering(t, Shared, false, ev)
        decreases |naps| - used
      {
        var woken, expired;
        woken, expired, ev := WaitAtGate1(t, Shared, false, naps, used, ev, old(history));
        if !woken {
          return Waiting, used;
        }
        used := used + 1;
      }
      EnteringEnters(t, Shared, false, ev);
      Admit(t, ev);
      return Acquired, used;
    }

    method TryLockUntil(t: nat, naps: seq<Nap>) returns (r: Outcome, used: nat)
      requires Valid() && t < |threads| && threads[t].Idle? && AllElsewhere(naps, t)
      modifies this
      ensures Valid() && |threads| == |old(threads)| && used <= |naps|
      ensures history == old(history) + Trace(Call(t, Unique, true), naps, true, used)
      ensures match r
              case Acquired => threads[t].HoldUnique? && state == 0x8000_0000 && Abs(View()) == Plain({t}, {})
              case Waiting => used == |naps| && Parked(threads[t])
              case TimedOut => threads[t].Idle?
    {
      ghost var ev;
      r, used, ev := AwaitGate1Until(t, Unique, naps);
      if r.Acquired? {
        RaiseFlag();
        r, used := DrainReadersUntil(t, naps, used, old(history), ev);
        if r.Acquired? { HolderWord(t); }
      }
    }

    /** The first loop of both deadline operations: `Acquired` says that the call got past gate1, its step `ev` still due. */
    method AwaitGate1Until(t: nat, kind: Kind, naps: seq<Nap>) returns (r: Outcome, used: nat, ghost ev: Event)
      requires Valid() && t < |threads| && threads[t].Idle? && AllElsewhere(naps, t)
      modifies this
      ensures Valid() && |threads| == |old(threads)| && used <= |naps|
      ensures history + (if r.Acquired? then [ev] else []) == old(history) + Trace(Call(t, kind, true), naps, true, used)
      ensures match r
              case Acquired => !Blocked(CAP, View(), kind) && Apply(CAP, Found(), ev) == Enter(CAP, View(), t, kind, true)
              case Waiting => used == |naps| && Parked(threads[t])
              case TimedOut => threads[t].Idle?
    {
      ev := Call(t, kind, true);
      used := 0;
      EnteringEnters(t, kind, true, ev);
      if !Gate1Open(kind) {
        while true
          invariant Valid() && t < |threads| == |old(threads)| && used <= |naps|
          invariant history + [ev] == old(history) + Trace(Call(t, kind, true), naps, true, used)
          invariant Entering(t, kind, true, ev) && Blocked(CAP, View(), kind)
          decreases |naps| - used
        {
          var woken, expired;
          woken, expired, ev := WaitAtGate1(t, kind, true, naps, used, ev, old(history));
          if !woken {
            return Waiting, used, ev;
          }
          used := used + 1;
          if Gate1Open(kind) {
            break;
          }
          if expired {
            Settle(t, Idle, ev);
            return TimedOut, used, ev;
          }
        }
      }
      return Acquired, used, ev;
    }

    /** try_lock_until(), from setting the flag on. */
    method DrainReadersUntil(t: nat, naps: seq<Nap>, slept: nat, ghost start: seq<Event>, ghost due: Event)
        returns (r: Outcome, used: nat)
      requires t < |threads| && slept <= |naps| && AllElsewhere(naps, t)
      requires history + [due] == start + Trace(Call(t, Unique, true), naps, true, slept)
      requires Apply(CAP, Found(), due) == Drain(View(), t, true)
      modifies this
      ensures Valid() && |threads| == |old(threads)| && used <= |naps|
      ensures history == start + Trace(Call(t, Unique, true), naps, true, used)
      ensures match r
              case Acquired => threads[t].HoldUnique?
              case Waiting => used == |naps| && Parked(threads[t])
              case TimedOut => threads[t].Idle?
    {
      ghost var call, ev := Call(t, Unique, true), due;
      used := slept;
      if Readers() != 0 {
        while true
          invariant t < |threads| == |old(threads)| && used <= |naps|
          invariant history + [ev] == start + Trace(call, naps, true, used)
          invariant Apply(CAP, Found(), ev) == Drain(View(), t, true)
          invariant Readers() != 0
          decreases |naps| - used
        {
          var woken, expired;
          woken, expired, ev := WaitAtGate2(t, true, naps, used, ev, start);
          if !woken {
            return Waiting, used;
          }
          used := used + 1;
          if Readers() == 0 {
            break;
          }
          if expired {
            GiveUp(t, ev);
            return TimedOut, used;
          }
        }
      }
      Settle(t, HoldUnique, ev);
      return Acquired, used;
    }

    /** The deadline of a draining writer: the flag is cleared and everyone at gate1 is told. */
    method GiveUp(t: nat, ghost ev: Event)
      requires Valid() && t < |threads| && threads[t].Gate2? && threads[t].timed && View().readers != 0
      requires ev == Wake(t, true)
      modifies this
      ensures Valid() && |threads| == |old(threads)| && history == old(history) + [ev] && threads[t].Idle?
    {
      RunStep(CAP, Init(|threads|), history, ev);
      LowerFlag();
      threads := NotifyAllGate1(threads[t := Idle]);
      history := history + [ev];
    }

    method TryLockSharedUntil(t: nat, naps: seq<Nap>) returns (r: Outcome, used: nat)
      requires Valid() && t < |threads| && threads[t].Idle? && AllElsewhere(naps, t)
      modifies this
      ensures Valid() && |threads| == |old(threads)| && used <= |naps|
      ensures history == old(history) + Trace(Call(t, Shared, true), naps, true, used)
      ensures match r
              case Acquired => threads[t].HoldShared?
              case Waiting => used == |naps| && Parked(threads[t])
              case TimedOut => threads[t].Idle?
    {
      ghost var ev;
      r, used, ev := AwaitGate1Until(t, Shared, naps);
      if r.Acquired? {
        Admit(t, ev);
      }
    }
  }
}
