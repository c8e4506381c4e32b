/** The abstract state of a record table and its in-memory operations as
    functions on values, with the laws that hold of single operations and
    of whole sequences of them. */
module TableSpec {
  import opened DbErrors

  /** The configuration of a table and its set of records; being a set,
      the records never hold two equal entries. */
  datatype Table<T> = Table(name: string, savePath: Option<Path>, strictDupes: bool, items: set<T>)

  predicate SameConfig<T>(t: Table<T>, u: Table<T>)
  {
    t.name == u.name && t.savePath == u.savePath && t.strictDupes == u.strictDupes
  }

  /** add_item: under the strict policy a present record is refused with
      DupeFound; otherwise the record is inserted (a no-op if present). */
  function Add<T(==)>(t: Table<T>, item: T): (r: (Table<T>, Result<()>))
    ensures SameConfig(t, r.0)
    ensures t.items <= r.0.items <= t.items + {item}
    ensures r.1.Ok? ==> item in r.0.items
    ensures r.1.Err? ==> r.1 == Err(DupeFound) && r.0 == t
  {
    if t.strictDupes && item in t.items then (t, Err(DupeFound))
    else (t.(items := t.items + {item}), Ok(()))
  }

  /** remove_item: a present record is deleted; an absent one is ItemNotFound. */
  function Remove<T(==)>(t: Table<T>, item: T): (r: (Table<T>, Result<()>))
    ensures SameConfig(t, r.0)
    ensures t.items - {item} <= r.0.items <= t.items
    ensures item !in r.0.items
    ensures r.1.Ok? <==> item in t.items
    ensures r.1.Err? ==> r.1 == Err(ItemNotFound)
  {
    if item in t.items then (t.(items := t.items - {item}), Ok(()))
    else (t, Err(ItemNotFound))
  }

  /** query_item: the stored record equal to the argument, if any. */
  function Query<T(==)>(t: Table<T>, item: T): (r: Option<T>)
    ensures r.Some? <==> item in t.items
    ensures r.Some? ==> r.value == item
  {
    if item in t.items then Some(item) else None
  }

  lemma AddStrictPresent<T>(t: Table<T>, x: T)
    requires t.strictDupes && x in t.items
    ensures Add(t, x) == (t, Err(DupeFound))
    ensures |Add(t, x).0.items| == |t.items|
  {
  }

  lemma AddAccepted<T>(t: Table<T>, x: T)
    requires !(t.strictDupes && x in t.items)
    ensures var (u, r) := Add(t, x);
      && r == Ok(())
      && SameConfig(t, u)
      && u.items == t.items + {x}
      && Query(u, x) == Some(x)
      && |u.items| == |t.items| + (if x in t.items then 0 else 1)
  {
    if x in t.items {
      assert t.items + {x} == t.items;
    } else {
      assert |t.items + {x}| == |t.items| + |{x}|;
    }
  }

  /** Re-adding a present record under the lenient policy succeeds and
      changes nothing. */
  lemma AddLenientPresentIsNoop<T>(t: Table<T>, x: T)
    requires !t.strictDupes && x in t.items
    ensures Add(t, x) == (t, Ok(()))
  {
    assert t.items + {x} == t.items;
  }

  lemma RemovePresent<T>(t: Table<T>, x: T)
    requires x in t.items
    ensures var (u, r) := Remove(t, x);
      && r == Ok(())
      && SameConfig(t, u)
      && u.items == t.items - {x}
      && |u.items| == |t.items| - 1
      && Query(u, x) == None
  {
    assert t.items == (t.items - {x}) + {x};
  }

  lemma RemoveAbsent<T>(t: Table<T>, x: T)
    requires x !in t.items
    ensures Remove(t, x) == (t, Err(ItemNotFound))
  {
  }

  /** Removing a record that was just added (and was new) restores the table. */
  lemma RemoveUndoesAdd<T>(t: Table<T>, x: T)
    requires x !in t.items
    ensures Remove(Add(t, x).0, x) == (t, Ok(()))
  {
    assert t.items + {x} - {x} == t.items;
  }

  /** Adding back a record that was just removed restores the table. */
  lemma AddUndoesRemove<T>(t: Table<T>, x: T)
    requires x in t.items
    ensures Add(Remove(t, x).0, x) == (t, Ok(()))
  {
    assert t.items - {x} + {x} == t.items;
  }

  /** A host operation on the table. */
  datatype Op<T> = AddOp(item: T) | RemoveOp(item: T) | QueryOp(item: T)

  /** What the host gets back from one operation. */
  datatype Reply<T> = Added(status: Result<()>) | Removed(status: Result<()>) | Found(record: Option<T>)

  function Step<T(==)>(t: Table<T>, op: Op<T>): (r: (Table<T>, Reply<T>))
  {
    match op
    case AddOp(x) => var (u, r) := Add(t, x); (u, Added(r))
    case RemoveOp(x) => var (u, r) := Remove(t, x); (u, Removed(r))
    case QueryOp(x) => (t, Found(Query(t, x)))
  }

  /** The table after a sequence of operations, and the replies in order. */
  function Run<T(==)>(t: Table<T>, ops: seq<Op<T>>): (r: (Table<T>, seq<Reply<T>>))
    decreases |ops|
  {
    if ops == [] then (t, [])
    else
      var (u, y) := Step(t, ops[0]);
      var (v, ys) := Run(u, ops[1..]);
      (v, [y] + ys)
  }

  /** The operations that add the given records, in order. */
  function Adds<T>(xs: seq<T>): (ops: seq<Op<T>>)
    ensures |ops| == |xs|
    ensures forall i :: 0 <= i < |xs| ==> ops[i] == AddOp(xs[i])
    decreases |xs|
  {
    if xs == [] then [] else [AddOp(xs[0])] + Adds(xs[1..])
  }

  /** +1 for an accepted add, -1 for an accepted remove, 0 otherwise. */
  function Growth<T>(y: Reply<T>): (g: int)
  {
    match y
    case Added(Ok(_)) => 1
    case Removed(Ok(_)) => -1
    case _ => 0
  }

  function NetGrowth<T>(ys: seq<Reply<T>>): (g: int)
    decreases |ys|
  {
    if ys == [] then 0 else Growth(ys[0]) + NetGrowth(ys[1..])
  }

  /** The reply an operation may legitimately produce: an add fails only
      with DupeFound and only under the strict policy, a remove fails only
      with ItemNotFound, a query finds the record itself or nothing. */
  ghost predicate Fits<T>(strict: bool, op: Op<T>, y: Reply<T>)
  {
    match op
    case AddOp(_) => y.Added? && (y.status.Ok? || (strict && y.status == Err(DupeFound)))
    case RemoveOp(_) => y.Removed? && (y.status.Ok? || y.status == Err(ItemNotFound))
    case QueryOp(x) => y.Found? && (y.record == None || y.record == Some(x))
  }

  /** No sequence of operations changes name, save path or policy, and
      every operation gets exactly one reply of the kind it may produce. */
  lemma {:induction false} RunKeepsConfig<T>(t: Table<T>, ops: seq<Op<T>>)
    ensures SameConfig(t, Run(t, ops).0)
    ensures |Run(t, ops).1| == |ops|
    ensures forall i :: 0 <= i < |ops| ==> Fits(t.strictDupes, ops[i], Run(t, ops).1[i])
    decreases |ops|
  {
    if ops != [] {
      var (u, y) := Step(t, ops[0]);
      RunKeepsConfig(u, ops[1..]);
      var ys := Run(u, ops[1..]).1;
      assert Run(t, ops).1 == [y] + ys;
      forall i | 0 <= i < |ops|
        ensures Fits(t.strictDupes, ops[i], Run(t, ops).1[i])
      {
        if i > 0 {
          assert ops[i] == ops[1..][i - 1];
        }
      }
    }
  }

  /** Under the strict policy the replies account exactly for the size of
      the table: it grows by one per accepted add and shrinks by one per
      accepted remove, and by nothing else. */
  lemma {:induction false} RunStrictCardinality<T>(t: Table<T>, ops: seq<Op<T>>)
    requires t.strictDupes
    ensures |Run(t, ops).0.items| == |t.items| + NetGrowth(Run(t, ops).1)
    decreases |ops|
  {
    if ops != [] {
      var (u, y) := Step(t, ops[0]);
      match ops[0] {
        case AddOp(x) => if x !in t.items { AddAccepted(t, x); }
        case RemoveOp(x) => if x in t.items { RemovePresent(t, x); }
        case QueryOp(_) =>
      }
      RunStrictCardinality(u, ops[1..]);
      var ys := Run(u, ops[1..]).1;
      assert ([y] + ys)[0] == y && ([y] + ys)[1..] == ys;
    }
  }

  /** Whatever the policy, adding a sequence of records leaves the table
      holding exactly the old records and the added ones. */
  lemma {:induction false} RunAddsCollects<T>(t: Table<T>, xs: seq<T>)
    ensures Run(t, Adds(xs)).0.items == t.items + set x | x in xs
    decreases |xs|
  {
    if xs != [] {
      var ops := Adds(xs);
      assert ops[0] == AddOp(xs[0]) && ops[1..] == Adds(xs[1..]);
      var u := Step(t, ops[0]).0;
      assert u.items == t.items + {xs[0]};
      RunAddsCollects(u, xs[1..]);
      assert (set x | x in xs) == {xs[0]} + set x | x in xs[1..];
    }
  }

  /** Under the strict policy, in a run of adds the number of accepted adds
      equals the number of distinct records not yet present. */
  lemma StrictAddsAcceptEachNewRecordOnce<T>(t: Table<T>, xs: seq<T>)
    requires t.strictDupes
    ensures NetGrowth(Run(t, Adds(xs)).1) == |t.items + set x | x in xs| - |t.items|
  {
    RunAddsCollects(t, xs);
    RunStrictCardinality(t, Adds(xs));
  }

  /** Under the strict policy, in a run of adds exactly the adds of a record
      that was neither present at the start nor added earlier in the run
      succeed; every other add is refused. */
  lemma {:induction false} StrictAddsAcceptExactlyTheNew<T>(t: Table<T>, xs: seq<T>)
    requires t.strictDupes
    ensures |Run(t, Adds(xs)).1| == |xs|
    ensures forall i :: 0 <= i < |xs| ==>
      (Run(t, Adds(xs)).1[i] == Added(Ok(())) <==> xs[i] !in t.items && xs[i] !in xs[..i])
    decreases |xs|
  {
    RunKeepsConfig(t, Adds(xs));
    if xs != [] {
      var ops := Adds(xs);
      assert ops[0] == AddOp(xs[0]) && ops[1..] == Adds(xs[1..]);
      var (u, y) := Step(t, ops[0]);
      assert u.items == t.items + {xs[0]};
      assert y == Added(Ok(())) <==> xs[0] !in t.items;
      StrictAddsAcceptExactlyTheNew(u, xs[1..]);
      var ys := Run(u, ops[1..]).1;
      assert Run(t, ops).1 == [y] + ys;
      forall i | 0 < i < |xs|
        ensures (Run(t, ops).1[i] == Added(Ok(())) <==> xs[i] !in t.items && xs[i] !in xs[..i])
      {
        assert xs[1..][i - 1] == xs[i];
        assert xs[..i] == [xs[0]] + xs[1..][..i - 1];
      }
    }
  }
}
