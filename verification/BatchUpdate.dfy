/**
 A batch of named operations on files, applied in whatever order a dictionary is enumerated, and when that order
 makes no difference.
 */
module BatchUpdate {

  datatype Op<F, V> = Skip | Remove(file: F) | Write(file: F, content: V)

  function Perform<F, V>(files: map<F, V>, op: Op<F, V>): map<F, V> {
    match op
    case Skip => files
    case Remove(f) => files - {f}
    case Write(f, v) => files[f := v]
  }

  function Batch<N, F, V>(files: map<F, V>, ops: map<N, Op<F, V>>, order: seq<N>): map<F, V>
    requires forall n :: n in order ==> n in ops
  {
    if order == [] then files
    else Perform(Batch(files, ops, order[..|order| - 1]), ops[order[|order| - 1]])
  }

  lemma OneMore<N, F, V>(files: map<F, V>, ops: map<N, Op<F, V>>, order: seq<N>, i: nat)
    requires (forall n :: n in order ==> n in ops) && i < |order|
    ensures forall n :: n in order[..i + 1] ==> n in ops
    ensures Batch(files, ops, order[..i + 1]) == Perform(Batch(files, ops, order[..i]), ops[order[i]])
  {
    assert order[..i + 1][..i] == order[..i];
  }

  /** Every key once. */
  ghost predicate Enumerates<N>(order: seq<N>, keys: set<N>) {
    && (forall n :: n in order ==> n in keys)
    && (forall n :: n in keys ==> n in order)
    && (forall i, j :: 0 <= i < j < |order| ==> order[i] != order[j])
  }

  ghost predicate Touches<F, V>(op: Op<F, V>, f: F) {
    !op.Skip? && op.file == f
  }

  /** The file is as the operation leaves it. */
  ghost predicate LeftBy<F, V>(files: map<F, V>, f: F, op: Op<F, V>)
    requires !op.Skip?
  {
    if op.Write? then f in files && files[f] == op.content else f !in files
  }

  /** Operations on the same file do the same. */
  ghost predicate Agreeing<N, F, V>(ops: map<N, Op<F, V>>) {
    forall m, n :: m in ops && n in ops && !ops[m].Skip? && !ops[n].Skip? && ops[m].file == ops[n].file ==> ops[m] == ops[n]
  }

  ghost predicate Independent<N(!new), F, V>(files: map<F, V>, ops: map<N, Op<F, V>>) {
    forall o1, o2 :: Enumerates(o1, ops.Keys) && Enumerates(o2, ops.Keys) ==> Batch(files, ops, o1) == Batch(files, ops, o2)
  }

  lemma {:induction false} Untouched<N, F, V>(files: map<F, V>, ops: map<N, Op<F, V>>, order: seq<N>, f: F)
    requires forall n :: n in order ==> n in ops && !Touches(ops[n], f)
    ensures f in Batch(files, ops, order) <==> f in files
    ensures f in files ==> Batch(files, ops, order)[f] == files[f]
    decreases |order|
  {
    if order != [] {
      var n := order[|order| - 1];
      Untouched(files, ops, order[..|order| - 1], f);
      assert n in order && !Touches(ops[n], f);
    }
  }

  lemma {:induction false} Touched<N, F, V>(files: map<F, V>, ops: map<N, Op<F, V>>, order: seq<N>, n: N, f: F)
    requires (forall m :: m in order ==> m in ops) && Agreeing(ops) && n in order && Touches(ops[n], f)
    ensures LeftBy(Batch(files, ops, order), f, ops[n])
    decreases |order|
  {
    var last := order[|order| - 1];
    assert last in order;
    if n != last {
      var front := order[..|order| - 1];
      assert order == front + [last];
      assert n in front;
      Touched(files, ops, front, n, f);
    }
  }

  /** What is in a file after the batch does not depend on the order. */
  lemma SameFile<N, F, V>(files: map<F, V>, ops: map<N, Op<F, V>>, o1: seq<N>, o2: seq<N>, f: F)
    requires Agreeing(ops) && Enumerates(o1, ops.Keys) && Enumerates(o2, ops.Keys)
    ensures var b1, b2 := Batch(files, ops, o1), Batch(files, ops, o2);
      (f in b1 <==> f in b2) && (f in b1 ==> b1[f] == b2[f])
  {
    if n :| n in ops && Touches(ops[n], f) {
      Touched(files, ops, o1, n, f);
      Touched(files, ops, o2, n, f);
    } else {
      Untouched(files, ops, o1, f);
      Untouched(files, ops, o2, f);
    }
  }

  lemma SameBatch<N, F, V>(files: map<F, V>, ops: map<N, Op<F, V>>, o1: seq<N>, o2: seq<N>)
    requires Agreeing(ops) && Enumerates(o1, ops.Keys) && Enumerates(o2, ops.Keys)
    ensures Batch(files, ops, o1) == Batch(files, ops, o2)
  {
    var b1, b2 := Batch(files, ops, o1), Batch(files, ops, o2);
    forall f | f in b1 ensures f in b2 && b1[f] == b2[f] { SameFile(files, ops, o1, o2, f); }
    forall f | f in b2 ensures f in b1 { SameFile(files, ops, o1, o2, f); }
    SameMaps(b1, b2);
  }

  lemma SameMaps<F, V>(b1: map<F, V>, b2: map<F, V>)
    requires forall f :: f in b1 ==> f in b2 && b1[f] == b2[f]
    requires forall f :: f in b2 ==> f in b1
    ensures b1 == b2
  {
    assert b1.Keys == b2.Keys;
  }

  lemma {:induction false} SomeOrder<N>(keys: set<N>) returns (order: seq<N>)
    ensures Enumerates(order, keys)
    decreases |keys|
  {
    if keys == {} {
      order := [];
    } else {
      var n :| n in keys;
      var front := SomeOrder(keys - {n});
      order := front + [n];
    }
  }

  lemma LastWins<N, F, V>(files: map<F, V>, ops: map<N, Op<F, V>>, front: seq<N>, n: N, f: F)
    requires (forall m :: m in front ==> m in ops) && n in ops && Touches(ops[n], f)
    ensures LeftBy(Batch(files, ops, front + [n]), f, ops[n])
  {
    assert (front + [n])[..|front|] == front;
  }

  lemma TwoLast<N>(rest: seq<N>, keys: set<N>, m: N, n: N)
    requires Enumerates(rest, keys - {m, n}) && m in keys && n in keys && m != n
    ensures Enumerates(rest + [m] + [n], keys)
  {
    var order := rest + [m] + [n];
    forall k | k in keys ensures k in order {
      assert order[|rest|] == m && order[|rest| + 1] == n;
      if k != m && k != n { assert k in rest; }
    }
    forall k | k in order ensures k in keys {
      assert k in rest || k == m || k == n;
    }
  }

  lemma ConflictDepends<N(!new), F, V>(files: map<F, V>, ops: map<N, Op<F, V>>, m: N, n: N, f: F)
    requires m in ops && n in ops && Touches(ops[m], f) && Touches(ops[n], f) && ops[m] != ops[n]
    ensures !Independent(files, ops)
  {
    var rest := SomeOrder(ops.Keys - {m, n});
    EndsWith(files, ops, rest, m, n, f);
    assert {n, m} == {m, n};
    EndsWith(files, ops, rest, n, m, f);
    BothEnds(Batch(files, ops, rest + [m] + [n]), Batch(files, ops, rest + [n] + [m]), f, ops[n], ops[m]);
  }

  lemma EndsWith<N, F, V>(files: map<F, V>, ops: map<N, Op<F, V>>, rest: seq<N>, m: N, n: N, f: F)
    requires Enumerates(rest, ops.Keys - {m, n}) && m in ops && n in ops && m != n && Touches(ops[n], f)
    ensures var order := rest + [m] + [n]; Enumerates(order, ops.Keys) && LeftBy(Batch(files, ops, order), f, ops[n])
  {
    TwoLast(rest, ops.Keys, m, n);
    LastWins(files, ops, rest + [m], n, f);
  }

  lemma BothEnds<F, V>(b1: map<F, V>, b2: map<F, V>, f: F, op1: Op<F, V>, op2: Op<F, V>)
    requires Touches(op1, f) && Touches(op2, f) && op1 != op2 && LeftBy(b1, f, op1) && LeftBy(b2, f, op2)
    ensures b1 != b2
  {
  }

  /** The order makes no difference exactly when operations on the same file do the same. */
  lemma IndependentIff<N(!new), F, V>(files: map<F, V>, ops: map<N, Op<F, V>>)
    ensures Independent(files, ops) <==> Agreeing(ops)
  {
    if Agreeing(ops) {
      forall o1, o2 | Enumerates(o1, ops.Keys) && Enumerates(o2, ops.Keys) ensures Batch(files, ops, o1) == Batch(files, ops, o2) {
        SameBatch(files, ops, o1, o2);
      }
    } else {
      var m, n :| m in ops && n in ops && !ops[m].Skip? && !ops[n].Skip? && ops[m].file == ops[n].file && ops[m] != ops[n];
      ConflictDepends(files, ops, m, n, ops[m].file);
    }
  }
}
