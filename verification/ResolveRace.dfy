/**
 `resolve_table` shared by threads. A lookup that misses gives the shared lock up before it allocates under the
 exclusive one, and the allocation does not look again, so two threads may allocate the same name twice.
 */
module ResolveRace {
  import opened ResolveTable

  /** `pending` holds the threads between their miss and their allocation; `issued` every answer ever given. */
  datatype State<N> = State(table: Table<N>, pending: map<nat, N>, log: seq<N>, issued: set<(N, nat)>)

  /** `Find` is name_to_index up to the release of the shared lock, `Make` the make_index that follows a miss. */
  datatype Event<N> = Find(t: nat, name: N) | Make(t: nat, victims: set<N>)

  function Start<N>(): State<N> {
    State(Empty(), map[], [], {})
  }

  ghost function Apply<N>(size: nat, s: State<N>, ev: Event<N>): State<N>
    requires size > 0
  {
    match ev
    case Find(t, name) =>
      if t in s.pending then s
      else if name in s.table.names then s.(issued := s.issued + {(name, s.table.names[name])})
      else s.(pending := s.pending[t := name])
    case Make(t, victims) =>
      if t !in s.pending || !Evicts(size, s.table, victims) then s
      else
        var name := s.pending[t];
        State(Allocate(size, s.table, name, victims), s.pending - {t}, s.log + [name], s.issued + {(name, s.table.cursor)})
  }

  ghost function Run<N>(size: nat, s: State<N>, evs: seq<Event<N>>): State<N>
    requires size > 0
    decreases |evs|
  {
    if evs == [] then s else Apply(size, Run(size, s, evs[..|evs| - 1]), evs[|evs| - 1])
  }

  lemma RunStep<N>(size: nat, s: State<N>, evs: seq<Event<N>>, ev: Event<N>)
    requires size > 0
    ensures Run(size, s, evs + [ev]) == Apply(size, Run(size, s, evs), ev)
  {
    assert (evs + [ev])[..|evs|] == evs;
  }

  lemma {:induction false} RunAppend<N>(size: nat, s: State<N>, a: seq<Event<N>>, b: seq<Event<N>>)
    requires size > 0
    ensures Run(size, s, a + b) == Run(size, Run(size, s, a), b)
    decreases |b|
  {
    if b == [] {
      assert a + b == a;
    } else {
      var b', e := b[..|b| - 1], b[|b| - 1];
      assert a + b == (a + b') + [e] && b == b' + [e];
      RunStep(size, s, a + b', e);
      RunAppend(size, s, a, b');
      RunStep(size, Run(size, s, a), b', e);
    }
  }

  // ---------- what every interleaving keeps ----------

  /** The index table is the ring of the log, whether or not names were allocated twice. */
  ghost predicate Slots<N>(size: nat, t: Table<N>, log: seq<N>)
    requires size > 0
  {
    var ring := RingAfter(size, log);
    && t.cursor == Slot(size, |log|)
    && (forall j: nat :: j in t.indices <==> j < |ring|)
    && (forall j: nat :: j in t.indices ==> t.indices[j] == ring[j])
  }

  /** `(name, s)` is what some entry of the log was given. */
  ghost predicate Given<N>(size: nat, log: seq<N>, name: N, s: nat)
    requires size > 0
  {
    exists i: nat :: i < |log| && log[i] == name && Slot(size, i) == s
  }

  ghost predicate Inv<N>(size: nat, s: State<N>)
    requires size > 0
  {
    && Slots(size, s.table, s.log)
    && (forall k :: k in s.table.names ==> Given(size, s.log, k, s.table.names[k]))
    && (forall a :: a in s.issued ==> Given(size, s.log, a.0, a.1))
  }

  lemma GivenGrows<N>(size: nat, log: seq<N>, log': seq<N>, name: N, s: nat)
    requires size > 0 && log <= log' && Given(size, log, name, s)
    ensures Given(size, log', name, s)
  {
    var i: nat :| i < |log| && log[i] == name && Slot(size, i) == s;
    assert log'[i] == name;
  }

  lemma AllocateKeepsSlots<N>(size: nat, t: Table<N>, log: seq<N>, name: N, victims: set<N>, t': Table<N>, log': seq<N>)
    requires size > 0 && Slots(size, t, log) && t' == Allocate(size, t, name, victims) && log' == log + [name]
    ensures Slots(size, t', log')
  {
    RingAfterAppend(size, log, name);
    NextSlot(size, |log|);
    SmallSlots(size, |log|);
  }

  lemma MakeKeepsInv<N>(size: nat, s: State<N>, t: nat, victims: set<N>, s': State<N>)
    requires size > 0 && Inv(size, s) && t in s.pending && Evicts(size, s.table, victims)
    requires s' == Apply(size, s, Make(t, victims))
    ensures Inv(size, s')
  {
    var name := s.pending[t];
    AllocateKeepsSlots(size, s.table, s.log, name, victims, s'.table, s'.log);
    assert s'.log[|s.log|] == name;
    assert Given(size, s'.log, name, s.table.cursor);
    forall k | k in s'.table.names ensures Given(size, s'.log, k, s'.table.names[k]) {
      if k != name { GivenGrows(size, s.log, s'.log, k, s.table.names[k]); }
    }
    forall a | a in s'.issued ensures Given(size, s'.log, a.0, a.1) {
      if a in s.issued { GivenGrows(size, s.log, s'.log, a.0, a.1); }
    }
  }

  lemma StepKeepsInv<N>(size: nat, s: State<N>, ev: Event<N>)
    requires size > 0 && Inv(size, s)
    ensures Inv(size, Apply(size, s, ev))
  {
    match ev
    case Find(t, name) =>
    case Make(t, victims) =>
      if t in s.pending && Evicts(size, s.table, victims) { MakeKeepsInv(size, s, t, victims, Apply(size, s, ev)); }
  }

  lemma {:induction false} RunKeepsInv<N>(size: nat, s: State<N>, evs: seq<Event<N>>)
    requires size > 0 && Inv(size, s)
    ensures var s' := Run(size, s, evs); Inv(size, s') && s.log <= s'.log && s.issued <= s'.issued
    decreases |evs|
  {
    if evs != [] {
      RunKeepsInv(size, s, evs[..|evs| - 1]);
      StepKeepsInv(size, Run(size, s, evs[..|evs| - 1]), evs[|evs| - 1]);
    }
  }

  /**
   Address validity in every interleaving: as long as at most `size` allocations have been made in all, every
   answer ever given for a name resolves to that name, even where a race gave the name two answers.
   */
  lemma AnswersStayValid<N>(size: nat, before: seq<Event<N>>, after: seq<Event<N>>)
    requires size > 0 && |Run(size, Start(), before + after).log| <= size
    ensures var s, t := Run(size, Start(), before), Run(size, Start(), before + after).table;
      forall a :: a in s.issued ==> a.1 in t.indices && t.indices[a.1] == a.0
  {
    var s0: State<N> := Start();
    RunAppend(size, s0, before, after);
    RunKeepsInv(size, s0, before);
    var s := Run(size, s0, before);
    RunKeepsInv(size, s, after);
    var s' := Run(size, s, after);
    forall a | a in s.issued ensures a.1 in s'.table.indices && s'.table.indices[a.1] == a.0 {
      assert Given(size, s'.log, a.0, a.1);
      var i: nat :| i < |s'.log| && s'.log[i] == a.0 && Slot(size, i) == a.1;
      EntryAtSlot(size, s'.log, i);
    }
  }

  /** In any run whatever, an allocation's slot resolves to its name until `size` more allocations were made. */
  lemma AllocationsLast<N>(size: nat, evs: seq<Event<N>>, i: nat)
    requires size > 0
    ensures var s := Run(size, Start(), evs);
      i < |s.log| <= i + size ==> Slot(size, i) in s.table.indices && s.table.indices[Slot(size, i)] == s.log[i]
  {
    var s0: State<N> := Start();
    RunKeepsInv(size, s0, evs);
    var s := Run(size, s0, evs);
    if i < |s.log| <= i + size { EntryAtSlot(size, s.log, i); }
  }

  // ---------- the object, shared ----------

  ghost predicate Elsewhere<N>(others: seq<Event<N>>, t: nat) {
    forall i :: 0 <= i < |others| ==> others[i].t != t
  }

  lemma {:induction false} OthersKeepPending<N>(size: nat, s: State<N>, others: seq<Event<N>>, t: nat)
    requires size > 0 && Elsewhere(others, t)
    ensures t in Run(size, s, others).pending <==> t in s.pending
    ensures t in s.pending ==> Run(size, s, others).pending[t] == s.pending[t]
    decreases |others|
  {
    if others != [] { OthersKeepPending(size, s, others[..|others| - 1], t); }
  }

  /** A lookup that misses, in one go but for the steps of others while the lock is free. */
  lemma MissRuns<N>(size: nat, s: State<N>, t: nat, name: N, others: seq<Event<N>>, victims: set<N>)
    requires size > 0 && t !in s.pending && name !in s.table.names && Elsewhere(others, t)
    requires Evicts(size, Run(size, Apply(size, s, Find(t, name)), others).table, victims)
    ensures var m, q := Run(size, Apply(size, s, Find(t, name)), others), Run(size, s, [Find(t, name)] + others + [Make(t, victims)]);
      q.table == Allocate(size, m.table, name, victims) && (name, m.table.cursor) in q.issued && t !in q.pending
  {
    var find := Find(t, name);
    OthersKeepPending(size, Apply(size, s, find), others, t);
    RunStep(size, s, [], find);
    assert [] + [find] == [find];
    RunAppend(size, s, [find], others);
    RunStep(size, s, [find] + others, Make(t, victims));
  }

  /**
   name_to_index by thread `t` on a table that other threads use. After a miss the lock is free: `others` are the
   steps taken meanwhile, `meanwhile` is the table they leave, and `order` its enumeration, which by then may well
   have the name. The answer is one that the run records as given.
   */
  method NameToIndex<N(==)>(table: ResolveTable<N>, t: nat, name: N, order: seq<N>, meanwhile: Table<N>,
                            ghost past: seq<Event<N>>, ghost others: seq<Event<N>>)
      returns (result: nat, ghost steps: seq<Event<N>>)
    requires table.size > 0 && Elsewhere(others, t)
    requires var s := Run(table.size, Start(), past);
      && table.View() == s.table && t !in s.pending
      && meanwhile == Run(table.size, Apply(table.size, s, Find(t, name)), others).table
    requires forall k :: k in order <==> k in meanwhile.names
    modifies table
    ensures var s := Run(table.size, Start(), past + steps);
      table.View() == s.table && t !in s.pending && (name, result) in s.issued
    ensures if name in old(table.names) then steps == [Find(t, name)]
            else exists victims :: steps == [Find(t, name)] + others + [Make(t, victims)]
  {
    ghost var s := Run<N>(table.size, Start(), past);
    if name in table.names {
      result := table.names[name];
      steps := [Find(t, name)];
      RunStep<N>(table.size, Start(), past, Find(t, name));
    } else {
      table.names, table.indices, table.index := meanwhile.names, meanwhile.indices, meanwhile.cursor;
      assert table.View() == meanwhile;
      ghost var victims;
      result, victims := table.MakeIndex(name, order);
      steps := [Find(t, name)] + others + [Make(t, victims)];
      MissRuns(table.size, s, t, name, others, victims);
      RunAppend<N>(table.size, Start(), past, steps);
    }
  }

  // ---------- when the race does no harm ----------

  /** Whenever a thread allocates, its name is still absent. */
  ghost predicate RaceFree<N>(size: nat, s: State<N>, evs: seq<Event<N>>)
    requires size > 0
    decreases |evs|
  {
    evs == [] ||
    (var front, last := evs[..|evs| - 1], evs[|evs| - 1];
     && RaceFree(size, s, front)
     && (last.Make? ==> var u := Run(size, s, front); last.t in u.pending ==> u.pending[last.t] !in u.table.names))
  }

  /** Interleaved runs in which no name is allocated twice at once keep the strong ring, as if lookups were atomic. */
  lemma {:induction false} RaceFreeRunsAreRings<N>(size: nat, evs: seq<Event<N>>)
    requires size > 0 && RaceFree(size, Start(), evs)
    ensures var s := Run(size, Start(), evs); Ring(size, s.table, s.log)
    decreases |evs|
  {
    if evs == [] {
      EmptyIsRing<N>(size);
    } else {
      var front, last := evs[..|evs| - 1], evs[|evs| - 1];
      RaceFreeRunsAreRings(size, front);
      var u := Run(size, Start(), front);
      if last.Make? && last.t in u.pending && Evicts(size, u.table, last.victims) {
        AllocateKeepsRing(size, u.table, u.log, u.pending[last.t], last.victims);
      }
    }
  }

  /** Looking a name up and resolving the answer gives the name back. */
  ghost predicate Coherent<N>(t: Table<N>) {
    forall k :: k in t.names ==> t.names[k] in t.indices && t.indices[t.names[k]] == k
  }

  /**
   One make_index keeps the table coherent exactly when the table is full by the code's own measure, so that the
   scan runs, or nobody else owns the slot about to be reused.
   */
  lemma CoherenceIsKeptIff<N>(size: nat, t: Table<N>, name: N, victims: set<N>)
    requires size > 0 && Coherent(t) && Evicts(size, t, victims)
    ensures Coherent(Allocate(size, t, name, victims)) <==>
      |t.names| >= size || forall k :: k in t.names && k != name ==> t.names[k] != t.cursor
  {
    var t' := Allocate(size, t, name, victims);
    if |t.names| < size && exists k :: k in t.names && k != name && t.names[k] == t.cursor {
      var k :| k in t.names && k != name && t.names[k] == t.cursor;
      assert t'.names[k] == t.cursor && t'.indices[t.cursor] == name;
    } else {
      forall k | k in t'.names ensures t'.names[k] in t'.indices && t'.indices[t'.names[k]] == k {
      }
    }
  }

  // ---------- the run that breaks coherence ----------

  function FirstName<N>(names: seq<N>): seq<Event<N>>
    requires 0 < |names|
  {
    [Find(0, names[0]), Make(0, {})]
  }

  function SecondNameTwice<N>(names: seq<N>): seq<Event<N>>
    requires 1 < |names|
  {
    [Find(0, names[1]), Find(1, names[1])] + [Make(0, {}), Make(1, {})]
  }

  function NextName<N>(names: seq<N>, k: nat): seq<Event<N>>
    requires k < |names|
  {
    [Find(0, names[k]), Make(0, {})]
  }

  /** After `k` allocations of `k - 1` names: the first at slot 0, the next at slots 1 and 2. */
  ghost predicate Lagging<N>(size: nat, s: State<N>, names: seq<N>, k: nat)
    requires size > 0 && 0 < |names|
  {
    && s.pending == map[] && |s.log| == k
    && (k < size ==> s.table.cursor == k) && (k == size ==> s.table.cursor == 0) && |s.table.names| == k - 1
    && names[0] in s.table.names && s.table.names[names[0]] == 0
    && forall i :: k <= i < |names| ==> names[i] !in s.table.names
  }

  lemma TwoEvents<N>(size: nat, s: State<N>, a: Event<N>, b: Event<N>)
    requires size > 0
    ensures Run(size, s, [a, b]) == Apply(size, Apply(size, s, a), b)
  {
    assert [a] + [b] == [a, b] && [] + [a] == [a];
    RunStep(size, s, [a], b);
    RunStep(size, s, [], a);
  }

  ghost predicate Distinct<N>(names: seq<N>) {
    forall i, j :: 0 <= i < j < |names| ==> names[i] != names[j]
  }

  lemma NextNameTable<N>(size: nat, s: State<N>, names: seq<N>, k: nat, s': State<N>)
    requires 3 <= size && 3 <= k <= size < |names| && Lagging(size, s, names, k)
    requires s' == Run(size, s, NextName(names, k))
    ensures s'.table == Allocate(size, s.table, names[k], {}) && s'.pending == map[] && s'.log == s.log + [names[k]]
  {
    TwoEvents(size, s, Find(0, names[k]), Make(0, {}));
    var s1 := Apply(size, s, Find(0, names[k]));
    assert s1 == s.(pending := map[0 := names[k]]);
    assert Evicts(size, s1.table, {});
    assert s1.pending - {0} == map[];
  }

  lemma AllocateLags<N>(size: nat, s: State<N>, names: seq<N>, k: nat, s': State<N>)
    requires 3 <= size && 3 <= k <= size < |names| && Lagging(size, s, names, k) && Distinct(names)
    requires s'.table == Allocate(size, s.table, names[k], {}) && s'.pending == map[] && s'.log == s.log + [names[k]]
    ensures Lagging(size, s', names, k + 1)
  {
    assert s.table.names - {} == s.table.names;
    AddOne(s.table.names, names[k], s.table.cursor);
    if k < size { StepSlot(size, k); }
  }

  lemma NextNameLags<N>(size: nat, s: State<N>, names: seq<N>, k: nat, s': State<N>)
    requires 3 <= size && 3 <= k <= size < |names| && Lagging(size, s, names, k) && Distinct(names)
    requires s' == Run(size, s, NextName(names, k))
    ensures Lagging(size, s', names, k + 1)
  {
    NextNameTable(size, s, names, k, s');
    AllocateLags(size, s, names, k, s');
  }

  lemma FirstNameTaken<N>(size: nat, names: seq<N>, s: State<N>)
    requires 3 <= size < |names| && s == Run(size, Start(), FirstName(names))
    ensures s.table.names == map[names[0] := 0] && s.table.cursor == 1 && s.pending == map[] && s.log == [names[0]]
  {
    TwoEvents<N>(size, Start(), Find(0, names[0]), Make(0, {}));
    var s1: State<N> := Apply(size, Start(), Find(0, names[0]));
    assert Evicts(size, s1.table, {});
  }

  lemma BothMiss<N>(size: nat, names: seq<N>, s: State<N>, s': State<N>)
    requires 3 <= size < |names| && Distinct(names)
    requires s.table.names == map[names[0] := 0] && s.pending == map[]
    requires s' == Run(size, s, [Find(0, names[1]), Find(1, names[1])])
    ensures s' == s.(pending := map[0 := names[1], 1 := names[1]])
  {
    TwoEvents(size, s, Find(0, names[1]), Find(1, names[1]));
  }

  lemma BothMake<N>(size: nat, names: seq<N>, s: State<N>, s': State<N>)
    requires 3 <= size < |names| && Distinct(names)
    requires s.table.names == map[names[0] := 0] && s.table.cursor == 1 && s.log == [names[0]]
    requires s.pending == map[0 := names[1], 1 := names[1]]
    requires s' == Run(size, s, [Make(0, {}), Make(1, {})])
    ensures s'.table.names == map[names[0] := 0, names[1] := 2] && s'.table.cursor == (if size == 3 then 0 else 3)
    ensures s'.pending == map[] && |s'.log| == 3
  {
    TwoEvents(size, s, Make(0, {}), Make(1, {}));
    var s1 := Apply(size, s, Make(0, {}));
    FirstMakes(size, names, s, s1);
    SecondMakes(size, names, s1, s');
  }

  lemma SecondMakes<N>(size: nat, names: seq<N>, s1: State<N>, s': State<N>)
    requires 3 <= size < |names| && Distinct(names)
    requires s1.table.names == map[names[0] := 0, names[1] := 1] && s1.table.cursor == 2
    requires s1.pending == map[1 := names[1]] && |s1.log| == 2
    requires s' == Apply(size, s1, Make(1, {}))
    ensures s'.table.names == map[names[0] := 0, names[1] := 2] && s'.table.cursor == (if size == 3 then 0 else 3)
    ensures s'.pending == map[] && |s'.log| == 3
  {
    StepSlot(size, 2);
    assert |s1.table.names| == 2;
    assert Evicts(size, s1.table, {});
    assert s1.pending - {1} == map[];
    assert s1.table.names - {} == s1.table.names;
  }

  lemma FirstMakes<N>(size: nat, names: seq<N>, s: State<N>, s1: State<N>)
    requires 3 <= size < |names| && Distinct(names)
    requires s.table.names == map[names[0] := 0] && s.table.cursor == 1 && s.log == [names[0]]
    requires s.pending == map[0 := names[1], 1 := names[1]]
    requires s1 == Apply(size, s, Make(0, {}))
    ensures s1.table.names == map[names[0] := 0, names[1] := 1] && s1.table.cursor == 2
    ensures s1.pending == map[1 := names[1]] && |s1.log| == 2
  {
    assert Evicts(size, s.table, {});
    StepSlot(size, 1);
    assert s.pending - {0} == map[1 := names[1]];
  }

  lemma RaceLags<N>(size: nat, names: seq<N>, s: State<N>)
    requires 3 <= size < |names| && Distinct(names)
    requires s == Run(size, Start(), FirstName(names) + SecondNameTwice(names))
    ensures Lagging(size, s, names, 3)
  {
    var s1: State<N> := Run(size, Start(), FirstName(names));
    FirstNameTaken(size, names, s1);
    RunAppend<N>(size, Start(), FirstName(names), SecondNameTwice(names));
    RunAppend(size, s1, [Find(0, names[1]), Find(1, names[1])], [Make(0, {}), Make(1, {})]);
    var s2 := Run(size, s1, [Find(0, names[1]), Find(1, names[1])]);
    BothMiss(size, names, s1, s2);
    BothMake(size, names, s2, s);
    assert |s.table.names| == 2;
  }

  /** A run of `size` allocations with one race in it. */
  lemma RunThatLags<N>(size: nat, names: seq<N>) returns (evs: seq<Event<N>>, s: State<N>)
    requires 3 <= size < |names| && Distinct(names)
    ensures s == Run(size, Start(), evs) && Lagging(size, s, names, size)
  {
    evs := FirstName(names) + SecondNameTwice(names);
    s := Run(size, Start(), evs);
    RaceLags(size, names, s);
    var k := 3;
    while k < size
      invariant 3 <= k <= size
      invariant s == Run(size, Start(), evs) && Lagging(size, s, names, k)
    {
      evs, s := OneMore(size, names, k, evs, s);
      k := k + 1;
    }
  }

  lemma OneMore<N>(size: nat, names: seq<N>, k: nat, evs: seq<Event<N>>, s: State<N>)
      returns (evs': seq<Event<N>>, s': State<N>)
    requires 3 <= k <= size < |names| && Distinct(names) && s == Run(size, Start(), evs) && Lagging(size, s, names, k)
    ensures s' == Run(size, Start(), evs') && s' == Run(size, s, NextName(names, k)) && Lagging(size, s', names, k + 1)
  {
    evs', s' := evs + NextName(names, k), Run(size, s, NextName(names, k));
    RunAppend<N>(size, Start(), evs, NextName(names, k));
    NextNameLags(size, s, names, k, s');
  }

  lemma SlotIsShared<N>(size: nat, s: State<N>, names: seq<N>, t': Table<N>)
    requires 3 <= size && |names| == size + 1 && Distinct(names) && Lagging(size, s, names, size)
    requires t' == Allocate(size, s.table, names[size], {})
    ensures names[0] in t'.names && names[size] in t'.names && t'.names[names[0]] == t'.names[names[size]] == 0
    ensures 0 in t'.indices && t'.indices[0] == names[size] != names[0]
    ensures !Coherent(t')
  {
    assert t'.names[names[0]] == 0;
  }

  /**
   For every ring of three slots or more, and whatever the names, there is a run with one race and one allocation more
   than the ring has slots that leaves two names on one slot: the first name still looks up slot 0, and slot 0
   resolves to the last.
   */
  lemma RaceBreaksCoherence<N>(size: nat, names: seq<N>) returns (evs: seq<Event<N>>, s: State<N>)
    requires 3 <= size && |names| == size + 1 && Distinct(names)
    ensures s == Run(size, Start(), evs) && |s.log| == size + 1 && !Coherent(s.table)
    ensures names[0] in s.table.names && names[size] in s.table.names
    ensures s.table.names[names[0]] == s.table.names[names[size]] == 0
    ensures 0 in s.table.indices && s.table.indices[0] == names[size] != names[0]
  {
    var s1;
    evs, s1 := RunThatLags(size, names);
    evs, s := OneMore(size, names, size, evs, s1);
    NextNameTable(size, s1, names, size, s);
    SlotIsShared(size, s1, names, s.table);
  }
}
