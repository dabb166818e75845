/**
 `resolve_table`: host names numbered into a ring of `size` slots, so that the n-th allocation takes slot
 `n mod size`. `Ring` states exactly what the two maps hold after a history of allocations.
 */
module ResolveTable {

  datatype Table<N> = Table(names: map<N, nat>, indices: map<nat, N>, cursor: nat)

  function Empty<N>(): Table<N> {
    Table(map[], map[], 0)
  }

  /** The names the eviction scan may erase: one owner of the slot about to be reused, once the table is full. */
  ghost predicate Evicts<N>(size: nat, t: Table<N>, victims: set<N>) {
    if |t.names| >= size && (exists k :: k in t.names && t.names[k] == t.cursor)
    then exists k :: k in t.names && t.names[k] == t.cursor && victims == {k}
    else victims == {}
  }

  function Allocate<N(==)>(size: nat, t: Table<N>, name: N, victims: set<N>): Table<N>
    requires size > 0
  {
    Table((t.names - victims)[name := t.cursor], t.indices[t.cursor := name], Slot(size, t.cursor + 1))
  }

  // ---------- slots ----------

  /** The slot of allocation `i`: its remainder by `size`. */
  function Slot(size: nat, i: nat): (s: nat)
    requires size > 0
    ensures s < size
  {
    if i < size then i else Slot(size, i - size)
  }

  lemma {:induction false} SlotsDiffer(size: nat, i: nat, j: nat)
    requires 0 < size && i < j < i + size
    ensures Slot(size, i) != Slot(size, j)
    decreases i
  {
    if i >= size { SlotsDiffer(size, i - size, j - size); }
  }

  lemma {:induction false} NextSlot(size: nat, i: nat)
    requires 0 < size
    ensures Slot(size, Slot(size, i) + 1) == Slot(size, i + 1)
  {
    if i >= size { NextSlot(size, i - size); }
  }

  lemma SmallRemainder(size: nat, i: nat)
    requires 0 < size && i <= size
    ensures i % size == (if i == size then 0 else i)
  {
  }

  lemma {:induction false} SlotIsRemainder(size: nat, i: nat)
    requires 0 < size
    ensures Slot(size, i) == i % size
  {
    if i < size {
      SmallRemainder(size, i);
    } else {
      SlotIsRemainder(size, i - size);
      var q := (i - size) / size;
      assert i == size * (q + 1) + (i - size) % size;
      RemainderUnique(size, i, q + 1, (i - size) % size);
    }
  }

  lemma RemainderUnique(size: nat, i: nat, q: nat, r: nat)
    requires 0 < size && r < size && i == size * q + r
    ensures i % size == r
  {
    var q' := i / size;
    if q > q' {
      Multiples(size, q', q);
    } else if q < q' {
      Multiples(size, q, q');
    }
  }

  lemma {:induction false} Multiples(size: nat, a: nat, b: nat)
    requires a < b
    ensures size * a + size <= size * b
  {
    assert size * b == size * (b - 1) + size;
    if a < b - 1 { Multiples(size, a, b - 1); }
  }

  // ---------- the ring ----------

  /**
   The two maps are inverse to each other and hold exactly the names of `ring`, name `j` at slot `j`. While the
   ring is filling up the cursor is its end.
   */
  ghost predicate Inverse<N>(size: nat, t: Table<N>, ring: seq<N>) {
    && |ring| <= size && t.cursor < size && |t.names| == |ring|
    && (|ring| < size ==> t.cursor == |ring|)
    && (forall j: nat :: j < |ring| ==> ring[j] in t.names && t.names[ring[j]] == j)
    && (forall k :: k in t.names ==> t.names[k] < |ring| && ring[t.names[k]] == k)
    && (forall j: nat :: j in t.indices <==> j < |ring|)
    && (forall j: nat :: j in t.indices ==> t.indices[j] == ring[j])
  }

  /** The name a full ring gives up next. */
  function Departing<N(==)>(size: nat, t: Table<N>, ring: seq<N>): set<N> {
    if |ring| == size && t.cursor < |ring| then {ring[t.cursor]} else {}
  }

  function Put<N>(size: nat, ring: seq<N>, cursor: nat, name: N): seq<N> {
    if |ring| < size then ring + [name] else if cursor < |ring| then ring[cursor := name] else ring
  }

  /** The scan finds the one owner of the slot about to be reused, whatever the iteration order of the map. */
  lemma OnlyOwner<N>(size: nat, t: Table<N>, ring: seq<N>, victims: set<N>)
    requires Inverse(size, t, ring)
    ensures Evicts(size, t, victims) <==> victims == Departing(size, t, ring)
  {
    if |ring| == size {
      assert ring[t.cursor] in t.names;
    }
  }

  lemma SizeAfter<N>(size: nat, t: Table<N>, ring: seq<N>, name: N)
    requires Inverse(size, t, ring) && name !in t.names
    ensures |(t.names - Departing(size, t, ring))[name := t.cursor]| == |Put(size, ring, t.cursor, name)|
  {
    var gone := Departing(size, t, ring);
    if |ring| == size {
      RemoveOne(t.names, ring[t.cursor]);
    } else {
      assert t.names - gone == t.names;
    }
    AddOne(t.names - gone, name, t.cursor);
  }

  lemma FillKeepsInverse<N>(size: nat, t: Table<N>, ring: seq<N>, name: N)
    requires size > 0 && Inverse(size, t, ring) && name !in t.names && |ring| < size
    ensures Inverse(size, Allocate(size, t, name, {}), ring + [name])
  {
    SizeAfter(size, t, ring, name);
    StepSlot(size, t.cursor);
    assert t.names - {} == t.names;
  }

  lemma ReplaceKeepsInverse<N>(size: nat, t: Table<N>, ring: seq<N>, name: N)
    requires size > 0 && Inverse(size, t, ring) && name !in t.names && |ring| == size
    ensures Inverse(size, Allocate(size, t, name, {ring[t.cursor]}), ring[t.cursor := name])
  {
    SizeAfter(size, t, ring, name);
    StepSlot(size, t.cursor);
  }

  /** A fresh allocation puts the name at the cursor, in place of the only name that was there. */
  lemma AllocateKeepsInverse<N>(size: nat, t: Table<N>, ring: seq<N>, name: N, victims: set<N>)
    requires size > 0 && Inverse(size, t, ring) && name !in t.names && Evicts(size, t, victims)
    ensures Inverse(size, Allocate(size, t, name, victims), Put(size, ring, t.cursor, name))
  {
    OnlyOwner(size, t, ring, victims);
    if |ring| < size { FillKeepsInverse(size, t, ring, name); } else { ReplaceKeepsInverse(size, t, ring, name); }
  }

  lemma StepSlot(size: nat, c: nat)
    requires c < size
    ensures Slot(size, c + 1) == (if c + 1 == size then 0 else c + 1)
  {
  }

  /** The ring after a history of allocations. */
  function RingAfter<N>(size: nat, history: seq<N>): (r: seq<N>)
    requires size > 0
    ensures |r| == (if |history| < size then |history| else size)
  {
    if history == [] then [] else
      var n := |history| - 1;
      Put(size, RingAfter(size, history[..n]), Slot(size, n), history[n])
  }

  lemma RingAfterAppend<N>(size: nat, history: seq<N>, name: N)
    requires size > 0
    ensures RingAfter(size, history + [name]) == Put(size, RingAfter(size, history), Slot(size, |history|), name)
  {
    assert (history + [name])[..|history|] == history;
  }

  /** Entry `i` of the history sits at slot `i mod size` until `size` more entries have come. */
  lemma {:induction false} EntryAtSlot<N>(size: nat, history: seq<N>, i: nat)
    requires size > 0 && i < |history| <= i + size
    ensures Slot(size, i) < |RingAfter(size, history)| && RingAfter(size, history)[Slot(size, i)] == history[i]
    decreases |history|
  {
    var n := |history| - 1;
    SmallSlots(size, n);
    if i < n {
      SmallSlots(size, i);
      EntryAtSlot(size, history[..n], i);
      SlotsDiffer(size, i, n);
    }
  }

  lemma SmallSlots(size: nat, n: nat)
    requires size > 0
    ensures n < size ==> Slot(size, n) == n
  {
  }

  /** Every slot of the ring holds one of the last `size` entries. */
  lemma {:induction false} SlotHasEntry<N>(size: nat, history: seq<N>, j: nat) returns (i: nat)
    requires size > 0 && j < |RingAfter(size, history)|
    ensures i < |history| <= i + size && Slot(size, i) == j && RingAfter(size, history)[j] == history[i]
    decreases |history|
  {
    var n := |history| - 1;
    SmallSlots(size, n);
    if j == Slot(size, n) {
      i := n;
    } else {
      i := SlotHasEntry(size, history[..n], j);
      assert i + size != n;
    }
  }

  /** No name comes back while it is among the last `size` entries. */
  ghost predicate Spaced<N>(size: nat, history: seq<N>) {
    forall i: nat, j: nat :: i < j < |history| && j <= i + size ==> history[i] != history[j]
  }

  /** The table after a history of allocations, each of a name absent at the time. */
  ghost predicate Ring<N>(size: nat, t: Table<N>, history: seq<N>)
    requires size > 0
  {
    && Inverse(size, t, RingAfter(size, history))
    && t.cursor == Slot(size, |history|)
    && Spaced(size, history)
  }

  lemma EmptyIsRing<N>(size: nat)
    requires size > 0
    ensures Ring<N>(size, Empty(), [])
  {
  }

  lemma AllocateKeepsRing<N>(size: nat, t: Table<N>, history: seq<N>, name: N, victims: set<N>)
    requires size > 0 && Ring(size, t, history) && name !in t.names && Evicts(size, t, victims)
    ensures Ring(size, Allocate(size, t, name, victims), history + [name])
  {
    var t', h' := Allocate(size, t, name, victims), history + [name];
    AllocateMatchesHistory(size, t, history, name, victims, t', h');
    CursorAfter(size, t, history, name, victims, t');
    AppendKeepsSpaced(size, t, history, name, h');
  }

  lemma CursorAfter<N>(size: nat, t: Table<N>, history: seq<N>, name: N, victims: set<N>, t': Table<N>)
    requires size > 0 && t.cursor == Slot(size, |history|) && t' == Allocate(size, t, name, victims)
    ensures t'.cursor == Slot(size, |history| + 1)
  {
    NextSlot(size, |history|);
  }

  lemma AllocateMatchesHistory<N>(size: nat, t: Table<N>, history: seq<N>, name: N, victims: set<N>,
      t': Table<N>, h': seq<N>)
    requires size > 0 && Inverse(size, t, RingAfter(size, history)) && t.cursor == Slot(size, |history|)
    requires name !in t.names && Evicts(size, t, victims)
    requires t' == Allocate(size, t, name, victims) && h' == history + [name]
    ensures Inverse(size, t', RingAfter(size, h'))
  {
    var ring := RingAfter(size, history);
    AllocateKeepsInverse(size, t, ring, name, victims);
    RingAfterAppend(size, history, name);
  }

  lemma AppendKeepsSpaced<N>(size: nat, t: Table<N>, history: seq<N>, name: N, h': seq<N>)
    requires size > 0 && Ring(size, t, history) && name !in t.names && h' == history + [name]
    ensures Spaced(size, h')
  {
    forall i: nat | i < |history| <= i + size ensures history[i] != name {
      EntryAtSlot(size, history, i);
    }
  }

  /**
   What the tables hold after any history: exactly its last `size` entries, entry `i` at slot `i mod size`, each
   name mapped to its slot and each slot to its name.
   */
  lemma RingContents<N>(size: nat, t: Table<N>, history: seq<N>)
    requires size > 0 && Ring(size, t, history)
    ensures forall i: nat :: i < |history| <= i + size ==>
      var s := Slot(size, i); history[i] in t.names && t.names[history[i]] == s && s in t.indices && t.indices[s] == history[i]
    ensures forall k :: k in t.names ==> exists i: nat :: i < |history| <= i + size && history[i] == k
    ensures forall s :: s in t.indices ==> exists i: nat :: i < |history| <= i + size && Slot(size, i) == s
    ensures |t.names| == (if |history| < size then |history| else size)
  {
    forall i: nat | i < |history| <= i + size ensures
      var s := Slot(size, i); history[i] in t.names && t.names[history[i]] == s && s in t.indices && t.indices[s] == history[i]
    {
      EntryAtSlot(size, history, i);
    }
    forall k | k in t.names ensures exists i: nat :: i < |history| <= i + size && history[i] == k {
      var i := SlotHasEntry(size, history, t.names[k]);
      assert history[i] == k;
    }
    forall s | s in t.indices ensures exists i: nat :: i < |history| <= i + size && Slot(size, i) == s {
      var i := SlotHasEntry(size, history, s);
      assert Slot(size, i) == s;
    }
  }

  // ---------- sequential runs ----------

  /** A lookup, with the choice the eviction scan makes should it come to that. */
  datatype Request<N> = Request(name: N, victims: set<N>)

  ghost predicate Misses<N>(size: nat, t: Table<N>, r: Request<N>) {
    r.name !in t.names && Evicts(size, t, r.victims)
  }

  /** A table and the history of its allocations. */
  datatype Past<N> = Past(table: Table<N>, history: seq<N>)

  /** Lookups one after another: a hit changes nothing, a miss allocates. */
  ghost function Serve<N>(size: nat, p: Past<N>, requests: seq<Request<N>>): (q: Past<N>)
    requires size > 0
    ensures p.history <= q.history
    decreases |requests|
  {
    if requests == [] then p else
      var q, r := Serve(size, p, requests[..|requests| - 1]), requests[|requests| - 1];
      if Misses(size, q.table, r) then Past(Allocate(size, q.table, r.name, r.victims), q.history + [r.name]) else q
  }

  /** Ring refinement over all sequential runs. */
  lemma {:induction false} SequentialRunsAreRings<N>(size: nat, p: Past<N>, requests: seq<Request<N>>)
    requires size > 0 && Ring(size, p.table, p.history)
    ensures var q := Serve(size, p, requests); Ring(size, q.table, q.history)
    decreases |requests|
  {
    if requests != [] {
      var q, r := Serve(size, p, requests[..|requests| - 1]), requests[|requests| - 1];
      SequentialRunsAreRings(size, p, requests[..|requests| - 1]);
      if Misses(size, q.table, r) {
        AllocateKeepsRing(size, q.table, q.history, r.name, r.victims);
      }
    }
  }

  /** Entry `i` is in both maps, at its slot. */
  ghost predicate Resolves<N>(t: Table<N>, name: N, s: nat) {
    name in t.names && t.names[name] == s && s in t.indices && t.indices[s] == name
  }

  lemma KeepsSlot<N>(size: nat, t: Table<N>, history: seq<N>, i: nat)
    requires size > 0 && Ring(size, t, history) && i < |history| <= i + size
    ensures Resolves(t, history[i], Slot(size, i))
  {
    EntryAtSlot(size, history, i);
  }

  lemma LosesSlot<N>(size: nat, t: Table<N>, history: seq<N>, i: nat)
    requires size > 0 && Ring(size, t, history) && |history| == i + size + 1
    ensures history[i] !in t.names && Resolves(t, history[i + size], Slot(size, i)) && history[i + size] != history[i]
  {
    KeepsSlot(size, t, history, i + size);
    assert Slot(size, i + size) == Slot(size, i);
    if history[i] in t.names {
      var j := SlotHasEntry(size, history, t.names[history[i]]);
      assert false;
    }
  }

  /**
   The name of entry `i` keeps its slot, and the slot keeps resolving to it, through the next `size - 1`
   allocations; exactly the `size`-th removes the name and hands the slot to the new one.
   */
  lemma StabilityWindow<N>(size: nat, p: Past<N>, i: nat, requests: seq<Request<N>>)
    requires size > 0 && Ring(size, p.table, p.history) && i < |p.history|
    ensures var q, name := Serve(size, p, requests), p.history[i];
      && (|q.history| <= i + size ==> Resolves(q.table, name, Slot(size, i)))
      && (|q.history| == i + size + 1 ==>
            && name !in q.table.names
            && Resolves(q.table, q.history[i + size], Slot(size, i)) && q.history[i + size] != name)
  {
    var q := Serve(size, p, requests);
    SequentialRunsAreRings(size, p, requests);
    assert q.history[i] == p.history[i];
    if |q.history| <= i + size { KeepsSlot(size, q.table, q.history, i); }
    if |q.history| == i + size + 1 { LosesSlot(size, q.table, q.history, i); }
  }

  lemma RemoveOne<N, V>(m: map<N, V>, k: N)
    requires k in m
    ensures |m - {k}| == |m| - 1
  {
    assert (m - {k}).Keys == m.Keys - {k};
  }

  lemma AddOne<N, V>(m: map<N, V>, k: N, v: V)
    ensures |m[k := v]| == |m| + (if k in m then 0 else 1)
  {
    assert m[k := v].Keys == m.Keys + {k};
  }

  /** The table itself. `size` is `addr_count`; the order in which a map is enumerated is up to the caller. */
  class ResolveTable<N(==)> {
    const size: nat
    var names: map<N, nat>
    var indices: map<nat, N>
    var index: nat
    ghost var history: seq<N>

    function View(): Table<N>
      reads this
    {
      Table(names, indices, index)
    }

    ghost predicate Valid()
      reads this
    {
      size > 0 && Ring(size, View(), history)
    }

    constructor (size: nat)
      requires size > 0
      ensures Valid() && this.size == size && View() == Empty() && history == []
    {
      this.size := size;
      names, indices, index, history := map[], map[], 0, [];
      new;
      EmptyIsRing<N>(size);
    }

    /** The eviction scan: erase the first entry, in enumeration order, that owns the slot at the cursor. */
    method EvictOwner(order: seq<N>) returns (ghost victims: set<N>)
      requires forall k :: k in order <==> k in names
      modifies this`names
      ensures names == old(names) - victims
      ensures (victims == {} && forall k :: k in old(names) ==> old(names)[k] != index)
        || exists k :: k in old(names) && old(names)[k] == index && victims == {k}
    {
      victims := {};
      var entry := 0;
      while entry < |order|
        invariant 0 <= entry <= |order| && names == old(names)
        invariant forall j :: 0 <= j < entry ==> names[order[j]] != index
      {
        if names[order[entry]] == index {
          victims := {order[entry]};
          names := names - {order[entry]};
          return;
        }
        entry := entry + 1;
      }
      assert names == old(names) - {};
    }

    /** make_index: called for a name the caller did not find. It does not look again. */
    method MakeIndex(name: N, order: seq<N>) returns (result: nat, ghost victims: set<N>)
      requires size > 0 && (forall k :: k in order <==> k in names)
      modifies this
      ensures Evicts(size, old(View()), victims) && View() == Allocate(size, old(View()), name, victims)
      ensures result == old(index) && history == old(history) + [name]
    {
      victims := {};
      result := 0;
      assert names - {} == names;
      if |names| >= size {
        victims := EvictOwner(order);
      }
      names := names[name := index];
      indices := indices[index := name];
      result := index;
      SlotIsRemainder(size, index + 1);
      index := (index + 1) % size;
      history := history + [name];
    }

    /** name_to_index, nobody else calling meanwhile. */
    method NameToIndex(name: N, order: seq<N>) returns (result: nat)
      requires Valid() && (forall k :: k in order <==> k in names)
      modifies this
      ensures Valid() && name in names && names[name] == result && result in indices && indices[result] == name
      ensures old(name in names) ==> View() == old(View()) && history == old(history)
      ensures old(name !in names) ==> history == old(history) + [name] && result == Slot(size, |old(history)|)
    {
      if name in names {
        result := names[name];
      } else {
        ghost var victims;
        result, victims := MakeIndex(name, order);
        AllocateKeepsRing(size, old(View()), old(history), name, victims);
      }
    }

    /** index_to_name; `nobody` stands for the empty name of an index that is not in the table. */
    method IndexToName(i: nat, nobody: N) returns (name: N)
      ensures name == if i in indices then indices[i] else nobody
      ensures Valid() ==> forall j: nat :: j < |history| <= j + size && Slot(size, j) == i ==> name == history[j]
      ensures Valid() && (forall j: nat :: j < |history| <= j + size ==> Slot(size, j) != i) ==> name == nobody
    {
      name := nobody;
      if i in indices {
        name := indices[i];
      }
      if size > 0 && Ring(size, View(), history) {
        RingContents(size, View(), history);
      }
    }
  }
}
