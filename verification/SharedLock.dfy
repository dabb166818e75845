/** `shared_lock`: movable handles on the shared side of a mutex, and where every shared hold is accounted for. */
module SharedLock {

  /** The shared side of a mutex as its clients see it: the number of shared holds granted and not given back. */
  class Mutex {
    var shares: nat

    constructor ()
      ensures shares == 0
    {
      shares := 0;
    }

    method LockShared()
      modifies this
      ensures shares == old(shares) + 1
    {
      shares := shares + 1;
    }

    /** `granted` is what the lock decides: a try, or a wait with a deadline. */
    method TryLockShared(granted: bool) returns (ok: bool)
      modifies this
      ensures ok == granted && shares == old(shares) + (if ok then 1 else 0)
    {
      if granted { shares := shares + 1; }
      return granted;
    }

    method UnlockShared()
      requires shares > 0
      modifies this
      ensures shares == old(shares) - 1
    {
      shares := shares - 1;
    }
  }

  /** What the throwing operations report. */
  datatype Status = Ok | NullMutex | AlreadyLocked | NotLocked

  class Handle {
    var m: Mutex?
    var owns: bool

    constructor Empty()
      ensures m == null && !owns
    {
      m, owns := null, false;
    }

    constructor Locked(mutex: Mutex)
      modifies mutex
      ensures m == mutex && owns && mutex.shares == old(mutex.shares) + 1
    {
      m, owns := mutex, true;
      mutex.LockShared();
    }

    constructor Deferred(mutex: Mutex)
      ensures m == mutex && !owns
    {
      m, owns := mutex, false;
    }

    constructor TryToLock(mutex: Mutex, granted: bool)
      modifies mutex
      ensures m == mutex && owns == granted && mutex.shares == old(mutex.shares) + (if granted then 1 else 0)
    {
      var ok := mutex.TryLockShared(granted);
      m, owns := mutex, ok;
    }

    constructor Adopted(mutex: Mutex)
      ensures m == mutex && owns
    {
      m, owns := mutex, true;
    }

    constructor MovedFrom(u: Handle)
      modifies u
      ensures m == old(u.m) && owns == old(u.owns) && u.m == null && !u.owns
    {
      m, owns := u.m, u.owns;
      new;
      u.m := null;
      u.owns := false;
    }

    method Destroy()
      requires owns ==> m != null && m.shares > 0
      modifies m
      ensures old(m) != null ==> old(m).shares == old(m.shares) - (if owns then 1 else 0)
    {
      if owns {
        m.UnlockShared();
      }
    }

    /** Move assignment; moving a handle to itself gives its hold back and empties it. */
    method MoveAssign(u: Handle)
      requires owns ==> m != null && m.shares > 0
      modifies this, u, m
      ensures u != this ==> m == old(u.m) && owns == old(u.owns) && u.m == null && !u.owns
      ensures u == this ==> m == null && !owns
      ensures old(m) != null ==> old(m).shares == old(m.shares) - (if old(owns) then 1 else 0)
    {
      if owns {
        m.UnlockShared();
      }
      m := null;
      owns := false;
      m := u.m;
      owns := u.owns;
      u.m := null;
      u.owns := false;
    }

    method Swap(u: Handle)
      modifies this, u
      ensures m == old(u.m) && owns == old(u.owns) && u.m == old(m) && u.owns == old(owns)
    {
      var tm := m;
      m := u.m;
      u.m := tm;
      var to := owns;
      owns := u.owns;
      u.owns := to;
    }

    method Release() returns (r: Mutex?)
      modifies this
      ensures r == old(m) && m == null && !owns
    {
      r := m;
      m := null;
      owns := false;
    }

    method Lock() returns (e: Status)
      modifies this`owns, m
      ensures e == (if m == null then NullMutex else if old(owns) then AlreadyLocked else Ok)
      ensures owns == (old(owns) || e == Ok)
      ensures m != null ==> m.shares == old(m.shares) + (if e == Ok then 1 else 0)
    {
      if m == null { return NullMutex; }
      if owns { return AlreadyLocked; }
      m.LockShared();
      owns := true;
      return Ok;
    }

    /** try_lock, try_lock_for and try_lock_until. */
    method TryLock(granted: bool) returns (e: Status)
      modifies this`owns, m
      ensures e == (if m == null then NullMutex else if old(owns) then AlreadyLocked else Ok)
      ensures owns == (if e == Ok then granted else old(owns))
      ensures m != null ==> m.shares == old(m.shares) + (if e == Ok && granted then 1 else 0)
    {
      if m == null { return NullMutex; }
      if owns { return AlreadyLocked; }
      owns := m.TryLockShared(granted);
      return Ok;
    }

    method Unlock() returns (e: Status)
      requires owns ==> m != null && m.shares > 0
      modifies this`owns, m
      ensures e == (if old(owns) then Ok else NotLocked) && !owns
      ensures m != null ==> m.shares == old(m.shares) - (if e == Ok then 1 else 0)
    {
      if !owns { return NotLocked; }
      m.UnlockShared();
      owns := false;
      return Ok;
    }
  }

  /** What a ledger knows of a handle: gone, or the mutex it refers to and whether it owns a hold. */
  datatype Entry = Gone | Entry(m: Mutex?, owns: bool)

  predicate Owns(e: Entry, x: Mutex) {
    e.Entry? && e.owns && e.m == x
  }

  /** The number of handles that own mutex `x`. */
  function Held(book: seq<Entry>, x: Mutex): nat {
    if book == [] then 0 else (if Owns(book[0], x) then 1 else 0) + Held(book[1..], x)
  }

  /** One entry changes: only that handle's own contribution changes. */
  lemma {:induction false} HeldUpdate(book: seq<Entry>, i: nat, e: Entry, x: Mutex)
    requires i < |book|
    ensures Held(book[i := e], x) == Held(book, x) - (if Owns(book[i], x) then 1 else 0) + (if Owns(e, x) then 1 else 0)
  {
    if i == 0 {
      assert book[i := e][1..] == book[1..];
    } else {
      assert book[i := e][1..] == book[1..][i - 1 := e];
      HeldUpdate(book[1..], i - 1, e, x);
    }
  }

  lemma {:induction false} HeldAppend(book: seq<Entry>, e: Entry, x: Mutex)
    ensures Held(book + [e], x) == Held(book, x) + (if Owns(e, x) then 1 else 0)
  {
    if book == [] {
      assert book + [e] == [e];
    } else {
      assert (book + [e])[1..] == book[1..] + [e];
      HeldAppend(book[1..], e, x);
    }
  }

  lemma {:induction false} HeldMember(book: seq<Entry>, i: nat, x: Mutex)
    requires i < |book| && Owns(book[i], x)
    ensures Held(book, x) > 0
  {
    if i > 0 { HeldMember(book[1..], i - 1, x); }
  }

  /** The effect of a move on the entries; `i == j` is a self-move. */
  function Moved(book: seq<Entry>, i: nat, j: nat): (r: seq<Entry>)
    requires i < |book| && j < |book|
    ensures |r| == |book|
  {
    book[i := book[j]][j := Entry(null, false)]
  }

  /** Moving an entry drops what the target owned, and nothing else; a self-move drops its own hold. */
  lemma HeldMove(book: seq<Entry>, i: nat, j: nat, x: Mutex)
    requires i < |book| && j < |book|
    ensures Held(Moved(book, i, j), x) == Held(book, x) - (if Owns(book[i], x) then 1 else 0)
  {
    HeldUpdate(book, i, book[j], x);
    HeldUpdate(book[i := book[j]], j, Entry(null, false), x);
  }

  lemma HeldSwap(book: seq<Entry>, i: nat, j: nat, x: Mutex)
    requires i < |book| && j < |book|
    ensures Held(book[i := book[j]][j := book[i]], x) == Held(book, x)
  {
    HeldUpdate(book, i, book[j], x);
    HeldUpdate(book[i := book[j]], j, book[i], x);
  }

  /**
   All handles and mutexes of a program, handles numbered in order of creation. `loose` counts, per mutex, the
   shared holds no handle owns: taken directly, or given up by `release`. `Valid` says that nothing else exists:
   the shares of each mutex are the handles that own it plus its loose holds, so no operation loses or invents one.
   */
  class Ledger {
    var handles: seq<Handle>
    ghost var book: seq<Entry>
    ghost var loose: map<Mutex, nat>

    ghost predicate Valid()
      reads this, handles, loose.Keys
    {
      && Faithful()
      && forall x :: x in loose ==> x.shares == Held(book, x) + loose[x]
    }

    ghost predicate Faithful()
      reads this, handles
    {
      && |book| == |handles|
      && (forall i, j :: 0 <= i < j < |handles| ==> handles[i] != handles[j])
      && (forall i :: 0 <= i < |book| && book[i].Entry? ==>
            && book[i] == Entry(handles[i].m, handles[i].owns)
            && (book[i].m != null ==> book[i].m in loose) && (book[i].owns ==> book[i].m != null))
    }

    ghost predicate Live(i: nat)
      reads this
    {
      i < |handles| == |book| && book[i].Entry?
    }

    lemma OwnerHasShare(i: nat)
      requires Valid() && Live(i) && handles[i].owns
      ensures handles[i].m != null && handles[i].m in loose && handles[i].m.shares > 0
    {
      HeldMember(book, i, book[i].m);
    }

    constructor ()
      ensures Valid() && handles == [] && book == [] && loose == map[]
    {
      handles, book, loose := [], [], map[];
    }

    /** Handle `h` joins with entry `e`. */
    ghost method Note(e: Entry)
      modifies this`book
      ensures book == old(book) + [e]
      ensures forall x :: x in loose ==> Held(book, x) == Held(old(book), x) + (if Owns(e, x) then 1 else 0)
    {
      forall x | x in loose ensures Held(book + [e], x) == Held(book, x) + (if Owns(e, x) then 1 else 0) { HeldAppend(book, e, x); }
      book := book + [e];
    }

    ghost method Change(i: nat, e: Entry)
      requires i < |book|
      modifies this`book
      ensures book == old(book)[i := e]
      ensures forall x :: x in loose ==>
        Held(book, x) == Held(old(book), x) - (if Owns(old(book)[i], x) then 1 else 0) + (if Owns(e, x) then 1 else 0)
    {
      forall x | x in loose
        ensures Held(book[i := e], x) == Held(book, x) - (if Owns(book[i], x) then 1 else 0) + (if Owns(e, x) then 1 else 0)
      {
        HeldUpdate(book, i, e, x);
      }
      book := book[i := e];
    }

    method NewMutex() returns (x: Mutex)
      requires Valid()
      modifies this
      ensures Valid() && fresh(x) && handles == old(handles) && book == old(book) && loose == old(loose)[x := 0]
    {
      x := new Mutex();
      NobodyHolds(x);
      loose := loose[x := 0];
    }

    lemma NobodyHolds(x: Mutex)
      requires Faithful() && x !in loose
      ensures Held(book, x) == 0
    {
      UnheldBy(book, x);
    }

    method NewEmpty()
      requires Valid()
      modifies this
      ensures Valid() && old(handles) < handles && loose == old(loose) && book == old(book) + [Entry(null, false)]
    {
      var h := new Handle.Empty();
      handles := handles + [h];
      Note(Entry(null, false));
    }

    method NewLocked(x: Mutex)
      requires Valid() && x in loose
      modifies this, x
      ensures Valid() && old(handles) < handles && loose == old(loose) && book == old(book) + [Entry(x, true)]
    {
      var h := new Handle.Locked(x);
      handles := handles + [h];
      Note(Entry(x, true));
    }

    method NewTryToLock(x: Mutex, granted: bool)
      requires Valid() && x in loose
      modifies this, x
      ensures Valid() && old(handles) < handles && loose == old(loose) && book == old(book) + [Entry(x, granted)]
    {
      var h := new Handle.TryToLock(x, granted);
      handles := handles + [h];
      Note(Entry(x, granted));
    }

    method NewDeferred(x: Mutex)
      requires Valid() && x in loose
      modifies this
      ensures Valid() && old(handles) < handles && loose == old(loose) && book == old(book) + [Entry(x, false)]
    {
      var h := new Handle.Deferred(x);
      handles := handles + [h];
      Note(Entry(x, false));
    }

    /** adopt_lock: the caller hands over a hold it already has. */
    method NewAdopted(x: Mutex)
      requires Valid() && x in loose && loose[x] > 0
      modifies this
      ensures Valid() && old(handles) < handles && book == old(book) + [Entry(x, true)]
      ensures loose == old(loose)[x := old(loose)[x] - 1]
    {
      var h := new Handle.Adopted(x);
      handles := handles + [h];
      Note(Entry(x, true));
      loose := loose[x := loose[x] - 1];
    }

    method NewMoved(j: nat)
      requires Valid() && Live(j)
      modifies this, handles[j]
      ensures Valid() && old(handles) < handles && loose == old(loose)
      ensures book == old(book)[j := Entry(null, false)] + [old(book)[j]]
    {
      ghost var e := book[j];
      var h := new Handle.MovedFrom(handles[j]);
      handles := handles + [h];
      Change(j, Entry(null, false));
      Note(e);
    }

    method MoveAssign(i: nat, j: nat)
      requires Valid() && Live(i) && Live(j)
      modifies this`book, handles[i], handles[j], handles[i].m
      ensures Valid() && book == Moved(old(book), i, j)
    {
      if handles[i].owns { OwnerHasShare(i); }
      ghost var was, x0 := book, handles[i].m;
      handles[i].MoveAssign(handles[j]);
      book := Moved(book, i, j);
      forall x | x in loose ensures x.shares == Held(book, x) + loose[x] {
        HeldMove(was, i, j, x);
      }
    }

    method Swap(i: nat, j: nat)
      requires Valid() && Live(i) && Live(j)
      modifies this`book, handles[i], handles[j]
      ensures Valid() && book == old(book)[i := old(book)[j]][j := old(book)[i]]
    {
      ghost var was := book;
      handles[i].Swap(handles[j]);
      book := book[i := book[j]][j := book[i]];
      forall x | x in loose ensures x.shares == Held(book, x) + loose[x] {
        HeldSwap(was, i, j, x);
      }
    }

    /** release() gives the hold up without giving it back: it becomes loose. */
    method Release(i: nat) returns (x: Mutex?)
      requires Valid() && Live(i)
      modifies this`book, this`loose, handles[i]
      ensures Valid() && x == old(book)[i].m && book == old(book)[i := Entry(null, false)]
      ensures loose == if x != null && old(book)[i].owns then old(loose)[x := old(loose)[x] + 1] else old(loose)
    {
      ghost var owned := handles[i].owns;
      x := handles[i].Release();
      Change(i, Entry(null, false));
      if x != null && owned { loose := loose[x := loose[x] + 1]; }
    }

    method Lock(i: nat) returns (e: Status)
      requires Valid() && Live(i)
      modifies this`book, handles[i], handles[i].m
      ensures Valid() && e == (if old(book)[i].m == null then NullMutex else if old(book)[i].owns then AlreadyLocked else Ok)
      ensures book == if e == Ok then old(book)[i := Entry(old(book)[i].m, true)] else old(book)
    {
      e := handles[i].Lock();
      if e == Ok { Change(i, Entry(handles[i].m, true)); }
    }

    method TryLock(i: nat, granted: bool) returns (e: Status)
      requires Valid() && Live(i)
      modifies this`book, handles[i], handles[i].m
      ensures Valid() && e == (if old(book)[i].m == null then NullMutex else if old(book)[i].owns then AlreadyLocked else Ok)
      ensures book == if e == Ok then old(book)[i := Entry(old(book)[i].m, granted)] else old(book)
    {
      e := handles[i].TryLock(granted);
      if e == Ok { Change(i, Entry(handles[i].m, granted)); }
    }

    method Unlock(i: nat) returns (e: Status)
      requires Valid() && Live(i)
      modifies this`book, handles[i], handles[i].m
      ensures Valid() && e == (if old(book)[i].owns then Ok else NotLocked)
      ensures book == if e == Ok then old(book)[i := Entry(old(book)[i].m, false)] else old(book)
    {
      if handles[i].owns { OwnerHasShare(i); }
      e := handles[i].Unlock();
      if e == Ok { Change(i, Entry(handles[i].m, false)); }
    }

    method Destroy(i: nat)
      requires Valid() && Live(i)
      modifies this`book, handles[i].m
      ensures Valid() && book == old(book)[i := Gone]
    {
      if handles[i].owns { OwnerHasShare(i); }
      handles[i].Destroy();
      Change(i, Gone);
    }

    method DirectLock(x: Mutex)
      requires Valid() && x in loose
      modifies this`loose, x
      ensures Valid() && loose == old(loose)[x := old(loose)[x] + 1]
    {
      x.LockShared();
      loose := loose[x := loose[x] + 1];
    }

    method DirectUnlock(x: Mutex)
      requires Valid() && x in loose && loose[x] > 0
      modifies this`loose, x
      ensures Valid() && loose == old(loose)[x := old(loose)[x] - 1]
    {
      x.UnlockShared();
      loose := loose[x := loose[x] - 1];
    }
  }

  lemma {:induction false} UnheldBy(book: seq<Entry>, x: Mutex)
    requires forall i :: 0 <= i < |book| ==> !Owns(book[i], x)
    ensures Held(book, x) == 0
  {
    if book != [] { UnheldBy(book[1..], x); }
  }
}
