/**
 `SizeTiredCompaction.Compact` (internal/lsm/strategy.go:156-182) over whole runs, range
 deletes included. Sequence numbers grow from deep layers to shallow ones and along each
 layer; that is what makes the tombstone-dropping merge of the last layer safe.
 */
module SizeTiered {
  import opened Keys
  import opened Options
  import opened Records
  import opened RangeTombstones
  import opened Tables
  import opened MergeLoop
  import opened SSTables
  import opened SSTableManager
  import opened History

  /** Every sequence number of `a`, on records and tombstones alike, is below every one of `b`. */
  ghost predicate Older(a: Table, b: Table) {
    forall s, s' :: a.HasSeq(s) && b.HasSeq(s') ==> s < s'
  }

  /** Deeper layers are older, and each layer lists its tables from old to new. */
  ghost predicate Chronological(layers: Layers) {
    && (forall i, p, j, q :: 0 <= j < i < |layers| && 0 <= p < |layers[i]| && 0 <= q < |layers[j]| ==>
          Older(layers[i][p], layers[j][q]))
    && (forall i, p, q :: 0 <= i < |layers| && 0 <= p < q < |layers[i]| ==> Older(layers[i][p], layers[i][q]))
  }

  /** The last layer is the oldest part of the store, so its tombstones hide nothing else. */
  lemma LastLayerOldest(layers: Layers, nextId: nat, i: nat)
    requires LayersOk(layers, nextId) && Chronological(layers) && i + 1 == |layers|
    ensures InputsAreOldest(AllTables(layers), AsSet(layers[i]))
  {
    var all, inputs := AllTables(layers), AsSet(layers[i]);
    forall x, b | HasRecord(all - inputs, x) && b in inputs
      ensures forall s: nat :: b.HasSeq(s) ==> s < x.seqId
    {
      var t :| t in all - inputs && x in t.records;
      var j, q :| 0 <= j < |layers| && 0 <= q < |layers[j]| && layers[j][q] == t;
      assert j != i;
      var p :| 0 <= p < |layers[i]| && layers[i][p] == b;
      assert Older(b, t);
      assert t.HasSeq(x.seqId);
    }
    forall x | HasRecord(all - inputs, x)
      ensures !Hides(inputs, x.key, x.seqId)
      ensures forall y :: HasRecord(inputs, y) && y.key == x.key ==> y.seqId < x.seqId
    {
      forall y | HasRecord(inputs, y) ensures y.seqId < x.seqId {
        var b :| b in inputs && y in b.records;
        assert b.HasSeq(y.seqId);
      }
      if Hides(inputs, x.key, x.seqId) {
        var b :| b in inputs && Covered(b.rangeDels, x.key, x.seqId);
        var d :| d in b.rangeDels && d.Spans(x.key) && d.seqId > x.seqId;
        assert b.HasSeq(d.seqId);
        assert false;
      }
    }
  }

  lemma OlderThanMerge(a: Table, m: Table, inputs: set<Table>, skip: bool)
    requires MergeOf(m, inputs, skip) && forall b :: b in inputs ==> Older(a, b)
    ensures Older(a, m)
  {
    forall s, s' | a.HasSeq(s) && m.HasSeq(s') ensures s < s' {
      MergeSeqs(m, inputs, skip, s');
      var b :| b in inputs && b.HasSeq(s');
      assert Older(a, b);
    }
  }

  lemma MergeOlderThan(a: Table, m: Table, inputs: set<Table>, skip: bool)
    requires MergeOf(m, inputs, skip) && forall b :: b in inputs ==> Older(b, a)
    ensures Older(m, a)
  {
    forall s, s' | m.HasSeq(s) && a.HasSeq(s') ensures s < s' {
      MergeSeqs(m, inputs, skip, s);
      var b :| b in inputs && b.HasSeq(s);
      assert Older(b, a);
    }
  }

  /** The layers after merging all of layer `i` into layer `to`. */
  ghost function Merged(layers: Layers, i: nat, m: Table, to: nat): Layers
    requires i < |layers|
  {
    Purge(Append(layers, to, m), Ids(layers[i]))
  }

  lemma MergedDown(layers: Layers, id: nat, i: nat, m: Table)
    requires LayersOk(layers, id) && i < |layers| && m.id == id
    ensures Merged(layers, i, m, i + 1) == Append(layers[i := []], i + 1, m)
  {
    var added := Append(layers, i + 1, m);
    var after := Merged(layers, i, m, i + 1);
    var want := Append(layers[i := []], i + 1, m);
    forall j | 0 <= j < |added| ensures after[j] == want[j] {
      if j == i {
        AllGone(layers[i]);
      } else {
        OthersKept(layers, id, i, m, added[j], j);
        WithoutNone(added[j], Ids(layers[i]));
      }
    }
  }

  lemma AllGone(tables: seq<Table>)
    ensures Without(tables, Ids(tables)) == []
  {
    forall t | t in tables ensures t.id in Ids(tables) {
      var p :| 0 <= p < |tables| && tables[p] == t;
    }
    WithoutAll(tables, Ids(tables));
  }

  lemma OthersKept(layers: Layers, id: nat, i: nat, m: Table, tables: seq<Table>, j: nat)
    requires LayersOk(layers, id) && i < |layers| && i != j && m.id == id
    requires forall t :: t in tables ==> t == m || (j < |layers| && t in layers[j])
    ensures forall t :: t in tables ==> t.id !in Ids(layers[i])
  {
    forall t | t in tables && t != m ensures exists q :: 0 <= q < |layers[j]| && layers[j][q] == t {
    }
  }

  lemma MergedInPlace(layers: Layers, id: nat, i: nat, m: Table)
    requires LayersOk(layers, id) && i < |layers| && m.id == id
    ensures Merged(layers, i, m, i) == layers[i := [m]]
  {
    var added := Append(layers, i, m);
    var after := Merged(layers, i, m, i);
    forall j | 0 <= j < |added| ensures after[j] == layers[i := [m]][j] {
      if j == i {
        forall t | t in layers[i] ensures t.id in Ids(layers[i]) {
          var p :| 0 <= p < |layers[i]| && layers[i][p] == t;
        }
        WithoutAll(layers[i], Ids(layers[i]));
        assert m.id !in Ids(layers[i]);
        WithoutPush(layers[i], m, Ids(layers[i]));
      } else {
        OthersKept(layers, id, i, m, added[j], j);
        WithoutNone(added[j], Ids(layers[i]));
      }
    }
  }

  lemma ChronologicalDown(layers: Layers, i: nat, m: Table)
    requires Chronological(layers) && i < |layers| && MergeOf(m, AsSet(layers[i]), false)
    ensures Chronological(Append(layers[i := []], i + 1, m))
  {
    var after := Append(layers[i := []], i + 1, m);
    forall j, q | 0 <= j < |layers| && 0 <= q < |layers[j]|
      ensures j < i ==> Older(m, layers[j][q])
      ensures j > i ==> Older(layers[j][q], m)
    {
      if j < i {
        MergeOlderThan(layers[j][q], m, AsSet(layers[i]), false);
      } else if j > i {
        OlderThanMerge(layers[j][q], m, AsSet(layers[i]), false);
      }
    }
    forall j, q | 0 <= j < |after| && 0 <= q < |after[j]|
      ensures (j == i + 1 && q == |after[j]| - 1 && after[j][q] == m)
              || (j < |layers| && j != i && q < |layers[j]| && after[j][q] == layers[j][q])
    {
    }
  }

  lemma ChronologicalInPlace(layers: Layers, i: nat, m: Table)
    requires Chronological(layers) && i + 1 == |layers| && MergeOf(m, AsSet(layers[i]), true)
    ensures Chronological(layers[i := [m]])
  {
    forall j, q | 0 <= j < i && 0 <= q < |layers[j]| ensures Older(m, layers[j][q]) {
      MergeOlderThan(layers[j][q], m, AsSet(layers[i]), true);
    }
  }

  lemma ChronologicalFlush(layers: Layers, t: Table)
    requires Chronological(layers) && |layers| > 0 && NewerThan(t, AllTables(layers))
    ensures Chronological(Append(layers, 0, t))
  {
    forall j, q | 0 <= j < |layers| && 0 <= q < |layers[j]| ensures Older(layers[j][q], t) {
      forall s, s' | layers[j][q].HasSeq(s) && t.HasSeq(s') ensures s < s' {
        assert layers[j][q] in AllTables(layers);
        assert Occurs(AllTables(layers), s);
      }
    }
  }

  /** The state of the store between operations of a run. */
  ghost predicate Inv(layers: Layers, maxHeight: nat, history: set<Table>, now: int) {
    Chronological(layers) && |layers| <= maxHeight && Faithful(AllTables(layers), history, now)
  }

  /** Merging layer `i` into the next one, or in place at the last, keeps the invariant. */
  lemma MergeKeepsInv(layers: Layers, id: nat, i: nat, m: Table, maxHeight: nat, history: set<Table>, now: int)
    requires LayersOk(layers, id) && Inv(layers, maxHeight, history, now)
    requires i < |layers| && m.id == id
    requires MergeOf(m, AsSet(layers[i]), i + 1 == maxHeight)
    requires AllTables(Merged(layers, i, m, if i + 1 == maxHeight then i else i + 1)) == Replaced(AllTables(layers), AsSet(layers[i]), m)
    ensures Inv(Merged(layers, i, m, if i + 1 == maxHeight then i else i + 1), maxHeight, history, now)
    ensures SameView(AllTables(layers), Replaced(AllTables(layers), AsSet(layers[i]), m))
  {
    var all, inputs := AllTables(layers), AsSet(layers[i]);
    assert inputs <= all;
    if i + 1 == maxHeight {
      LastLayerOldest(layers, id, i);
      DroppingPreservesView(all, inputs, m);
      MergeFaithful(all, inputs, m, true, history, now);
      MergedInPlace(layers, id, i, m);
      ChronologicalInPlace(layers, i, m);
    } else {
      MergePreservesView(all, inputs, m);
      MergeFaithful(all, inputs, m, false, history, now);
      MergedDown(layers, id, i, m);
      ChronologicalDown(layers, i, m);
    }
  }

  // ------------------------------------------------------------------ what a compaction does to the layers

  /**
   All tables of layer `i` become one table of layer `to`. When none of their records is kept, the layers stay as they are,
   which is an error if tombstones are to be kept.
   */
  ghost predicate Sinks(layers: Layers, after: Layers, i: nat, to: nat, skip: bool, ok: bool)
    requires i < |layers|
  {
    || (after == layers && NothingKept(AsSet(layers[i]), skip) && (ok ==> skip || layers[i] == []))
    || (ok && exists m :: SinksAs(layers, after, i, to, skip, m))
  }

  ghost predicate SinksAs(layers: Layers, after: Layers, i: nat, to: nat, skip: bool, m: Table)
    requires i < |layers|
  {
    && MergeOf(m, AsSet(layers[i]), skip) && m.WellFormed() && m.layer == to
    && after == Append(layers[i := []], to, m)
  }

  ghost predicate SinksDown(layers: Layers, after: Layers, i: nat, ok: bool)
    requires i < |layers|
  {
    Sinks(layers, after, i, i + 1, false, ok)
  }

  /** From layer `i` down: every layer that has reached the threshold sinks into the next, the last one into itself. */
  ghost predicate Cascades(layers: Layers, after: Layers, i: nat, maxHeight: nat, threshold: int, ok: bool)
    decreases maxHeight - i
  {
    if i >= |layers| || i >= maxHeight then ok && after == layers
    else if |layers[i]| < threshold then Cascades(layers, after, i + 1, maxHeight, threshold, ok)
    else if i + 1 == maxHeight then Sinks(layers, after, i, i, true, ok)
    else CascadesOn(layers, after, i, maxHeight, threshold, ok)
  }

  ghost predicate CascadesOn(layers: Layers, after: Layers, i: nat, maxHeight: nat, threshold: int, ok: bool)
    requires i < |layers| && i < maxHeight
    decreases maxHeight - i, 0
  {
    || (!ok && SinksDown(layers, after, i, false))
    || (exists next :: SinksDown(layers, next, i, true) && Cascades(next, after, i + 1, maxHeight, threshold, ok))
  }

  /** Layers that stay below the threshold stay as they are. */
  lemma {:induction false} QuietCascade(layers: Layers, after: Layers, i: nat, maxHeight: nat, threshold: int, ok: bool)
    requires Cascades(layers, after, i, maxHeight, threshold, ok)
    requires forall j :: i <= j < |layers| && j < maxHeight ==> |layers[j]| < threshold
    ensures ok && after == layers
    decreases maxHeight - i
  {
    if i < |layers| && i < maxHeight {
      QuietCascade(layers, after, i + 1, maxHeight, threshold, ok);
    }
  }

  /** The layers above `i` and above the last one are below the threshold. */
  ghost predicate Settled(layers: Layers, i: nat, maxHeight: nat, threshold: int) {
    forall j :: 0 <= j < i && j < |layers| && j + 1 < maxHeight ==> |layers[j]| < threshold
  }

  /** Without an error every layer above the last one is below the threshold in the end. */
  lemma {:induction false} CascadeSettles(layers: Layers, after: Layers, i: nat, maxHeight: nat, threshold: int)
    requires Cascades(layers, after, i, maxHeight, threshold, true) && threshold >= 1 && Settled(layers, i, maxHeight, threshold)
    ensures Settled(after, |after|, maxHeight, threshold)
    decreases maxHeight - i
  {
    if i < |layers| && i < maxHeight {
      if |layers[i]| < threshold {
        CascadeSettles(layers, after, i + 1, maxHeight, threshold);
      } else if i + 1 == maxHeight {
        SinkSettles(layers, after, i, i, true, maxHeight, threshold);
      } else {
        var next :| SinksDown(layers, next, i, true) && Cascades(next, after, i + 1, maxHeight, threshold, true);
        SinkSettles(layers, next, i, i + 1, false, maxHeight, threshold);
        CascadeSettles(next, after, i + 1, maxHeight, threshold);
      }
    }
  }

  lemma SinkSettles(layers: Layers, next: Layers, i: nat, to: nat, skip: bool, maxHeight: nat, threshold: int)
    requires i < |layers| && i <= to <= i + 1 && (to == i <==> i + 1 == maxHeight) && (skip <==> to == i) && threshold >= 1
    requires Sinks(layers, next, i, to, skip, true) && Settled(layers, i, maxHeight, threshold)
    ensures Settled(next, i + 1, maxHeight, threshold) && (to == i ==> Settled(next, |next|, maxHeight, threshold))
  {
  }

  /** One iteration of `Compact` at layer `i`. */
  method CompactLayer(manager: Manager, i: nat, maxHeight: nat, ghost history: set<Table>, now: int) returns (ok: bool)
    requires manager.Valid() && Inv(manager.layers, maxHeight, history, now) && i < |manager.layers|
    modifies manager
    ensures manager.Valid() && Inv(manager.layers, maxHeight, history, now) && |manager.layers| > i
    ensures SameView(AllTables(old(manager.layers)), AllTables(manager.layers))
    ensures Sinks(old(manager.layers), manager.layers, i, if i + 1 == maxHeight then i else i + 1, i + 1 == maxHeight, ok)
  {
    ghost var before, id := manager.layers, manager.nextId;
    var readers := manager.layers[i];
    LayerReaders(manager.layers, i, now);
    var merged;
    ghost var m;
    if i + 1 == maxHeight {
      ok, merged, m := manager.MergeSSTables(readers, i, true, now);
    } else {
      ok, merged, m := manager.MergeSSTables(readers, i + 1, false, now);
    }
    if merged {
      MergeKeepsInv(before, id, i, m, maxHeight, history, now);
      MergeSinks(before, id, i, m, maxHeight);
    }
  }

  lemma LayerReaders(layers: Layers, i: nat, now: int)
    requires i < |layers| && NoneExpired(AllTables(layers), now)
    ensures (forall p :: 0 <= p < |layers[i]| ==> layers[i][p] in AllTables(layers)) && NoneExpired(AsSet(layers[i]), now)
  {
    forall r | HasRecord(AsSet(layers[i]), r) ensures !Expired(r, now) {
      assert HasRecord(AllTables(layers), r);
    }
  }

  lemma MergeSinks(layers: Layers, id: nat, i: nat, m: Table, maxHeight: nat)
    requires LayersOk(layers, id) && i < |layers| && m.id == id && m.WellFormed() && m.layer == if i + 1 == maxHeight then i else i + 1
    requires MergeOf(m, AsSet(layers[i]), i + 1 == maxHeight)
    ensures var to := if i + 1 == maxHeight then i else i + 1;
            SinksAs(layers, Merged(layers, i, m, to), i, to, i + 1 == maxHeight, m)
  {
    if i + 1 == maxHeight {
      MergedInPlace(layers, id, i, m);
      assert Append(layers[i := []], i, m) == layers[i := [m]];
    } else {
      MergedDown(layers, id, i, m);
    }
  }

  /**
   `Compact`: cascading merges from layer zero down; an error stops it early. Exactly the layers that have reached the
   threshold on the way sink, so that in the end every layer above the last one is below it.
   */
  method Compact(manager: Manager, maxHeight: nat, minMergeThreshold: int, ghost history: set<Table>, now: int)
    returns (ok: bool)
    requires manager.Valid() && Inv(manager.layers, maxHeight, history, now)
    modifies manager
    ensures manager.Valid() && Inv(manager.layers, maxHeight, history, now)
    ensures SameView(AllTables(old(manager.layers)), AllTables(manager.layers))
    ensures Cascades(old(manager.layers), manager.layers, 0, maxHeight, minMergeThreshold, ok)
    ensures ok && minMergeThreshold >= 1 ==>
              forall i :: 0 <= i < |manager.layers| && i + 1 < maxHeight ==> |manager.layers[i]| < minMergeThreshold
    ensures (forall i :: 0 <= i < |old(manager.layers)| ==> |old(manager.layers)[i]| < minMergeThreshold) ==>
              ok && manager.layers == old(manager.layers)
  {
    ghost var start := manager.layers;
    ok := true;
    var i := 0;
    while i < |manager.layers|
      invariant manager.Valid() && Inv(manager.layers, maxHeight, history, now) && ok
      invariant SameView(AllTables(start), AllTables(manager.layers))
      invariant forall after, ok' :: Cascades(manager.layers, after, i, maxHeight, minMergeThreshold, ok')
                                     ==> Cascades(start, after, 0, maxHeight, minMergeThreshold, ok')
      decreases maxHeight - i
    {
      ghost var before := manager.layers;
      if |manager.layers[i]| >= minMergeThreshold {
        ok := CompactLayer(manager, i, maxHeight, history, now);
        CascadeFirst(before, manager.layers, i, maxHeight, minMergeThreshold, ok);
        if !ok || i + 1 == maxHeight {
          CompactEnds(start, manager.layers, maxHeight, minMergeThreshold, ok);
          return;
        }
      }
      i := i + 1;
    }
    assert Cascades(manager.layers, manager.layers, i, maxHeight, minMergeThreshold, true);
    CompactEnds(start, manager.layers, maxHeight, minMergeThreshold, true);
  }

  lemma CascadeFirst(layers: Layers, next: Layers, i: nat, maxHeight: nat, threshold: int, ok: bool)
    requires i < |layers| <= maxHeight && |layers[i]| >= threshold
    requires Sinks(layers, next, i, if i + 1 == maxHeight then i else i + 1, i + 1 == maxHeight, ok)
    ensures !ok || i + 1 == maxHeight ==> Cascades(layers, next, i, maxHeight, threshold, ok)
    ensures ok && i + 1 < maxHeight ==>
              forall after, ok' :: Cascades(next, after, i + 1, maxHeight, threshold, ok') ==> Cascades(layers, after, i, maxHeight, threshold, ok')
  {
    assert i + 1 < maxHeight ==> SinksDown(layers, next, i, ok);
  }

  lemma CompactEnds(layers: Layers, after: Layers, maxHeight: nat, threshold: int, ok: bool)
    requires Cascades(layers, after, 0, maxHeight, threshold, ok)
    ensures ok && threshold >= 1 ==> forall i :: 0 <= i < |after| && i + 1 < maxHeight ==> |after[i]| < threshold
    ensures (forall i :: 0 <= i < |layers| ==> |layers[i]| < threshold) ==> ok && after == layers
  {
    if ok && threshold >= 1 {
      CascadeSettles(layers, after, 0, maxHeight, threshold);
    }
    if forall i :: 0 <= i < |layers| ==> |layers[i]| < threshold {
      QuietCascade(layers, after, 0, maxHeight, threshold, ok);
    }
  }

  // ------------------------------------------------------------------ runs

  /** The layers between the operations of a run. */
  ghost predicate LayerTrace(ops: seq<Op>, layers: seq<Layers>, maxHeight: nat, threshold: int) {
    && |layers| == |ops| + 1 && layers[0] == [[]]
    && forall n {:trigger ops[n]} :: 0 <= n < |ops| ==> LayersFollow(ops[n], layers[n], layers[n + 1], maxHeight, threshold)
  }

  ghost predicate LayersFollow(op: Op, before: Layers, after: Layers, maxHeight: nat, threshold: int) {
    match op
    case Flush(entries, rangeDels) => if entries == [] then after == before else FlushedInto(before, after, entries, rangeDels)
    case Compact => exists ok :: Cascades(before, after, 0, maxHeight, threshold, ok)
  }

  ghost predicate FlushedInto(before: Layers, after: Layers, entries: seq<Record>, rangeDels: seq<Tombstone>) {
    exists t :: FlushOf(t, entries, rangeDels) && t.layer == 0 && after == Append(before, 0, t)
  }

  lemma LayerTraceOn(ops: seq<Op>, n: nat, layers: seq<Layers>, after: Layers, maxHeight: nat, threshold: int)
    requires n < |ops| && LayerTrace(ops[..n], layers, maxHeight, threshold)
    requires LayersFollow(ops[n], layers[n], after, maxHeight, threshold)
    ensures LayerTrace(ops[..n + 1], layers + [after], maxHeight, threshold)
  {
    var ops', layers' := ops[..n + 1], layers + [after];
    forall m | 0 <= m < |ops'| ensures LayersFollow(ops'[m], layers'[m], layers'[m + 1], maxHeight, threshold) {
      if m < n {
        assert ops[..n][m] == ops'[m];
        assert LayersFollow(ops[..n][m], layers[m], layers[m + 1], maxHeight, threshold);
      }
    }
  }

  /** One flush of a run. */
  method FlushStep(manager: Manager, ops: seq<Op>, n: nat, maxHeight: nat, now: int)
    requires n < |ops| && ops[n].Flush? && GoodRun(ops, now)
    requires manager.Valid() && Inv(manager.layers, maxHeight, Flushed(ops[..n]), now)
    modifies manager
    ensures manager.Valid() && Inv(manager.layers, maxHeight, Flushed(ops[..n + 1]), now)
    ensures if ops[n].entries == [] then manager.layers == old(manager.layers)
            else FlushedInto(old(manager.layers), manager.layers, ops[n].entries, ops[n].rangeDels)
  {
    FlushedStep(ops, n);
    ghost var before := manager.layers;
    ghost var u, history := FlushTable(ops, n), Flushed(ops[..n]);
    FreshVersions(AllTables(manager.layers), history, u, now);
    ghost var t := manager.FlushToSSTable(ops[n].entries, ops[n].rangeDels);
    if ops[n].entries != [] {
      FlushFaithful(AllTables(before), history, t, u, now);
      AllTablesAppend(before, 0, t);
      ChronologicalFlush(before, t);
    }
  }

  /** One operation of a run. */
  method RunStep(manager: Manager, ops: seq<Op>, n: nat, maxHeight: nat, minMergeThreshold: int, now: int)
    requires maxHeight > 0 && n < |ops| && GoodRun(ops, now)
    requires manager.Valid() && Inv(manager.layers, maxHeight, Flushed(ops[..n]), now)
    modifies manager
    ensures manager.Valid() && Inv(manager.layers, maxHeight, Flushed(ops[..n + 1]), now)
    ensures LayersFollow(ops[n], old(manager.layers), manager.layers, maxHeight, minMergeThreshold)
  {
    match ops[n] {
      case Flush(_, _) =>
        FlushStep(manager, ops, n, maxHeight, now);
      case Compact =>
        FlushedStep(ops, n);
        var ok := Compact(manager, maxHeight, minMergeThreshold, Flushed(ops[..n]), now);
    }
  }

  /**
   Every run of flushes and size-tiered compactions: the layers on the way, and afterwards the store shows
   exactly what its history says, whatever was merged and dropped.
   */
  method Run(ops: seq<Op>, maxHeight: nat, minMergeThreshold: int, now: int) returns (manager: Manager, ghost layers: seq<Layers>)
    requires maxHeight > 0 && GoodRun(ops, now)
    ensures fresh(manager) && manager.Valid() && Chronological(manager.layers)
    ensures LayerTrace(ops, layers, maxHeight, minMergeThreshold) && layers[|ops|] == manager.layers
    ensures SameView(Flushed(ops), AllTables(manager.layers))
    ensures SameView(Written(ops), AllTables(manager.layers))
            <==> forall r :: Visible(Flushed(ops), r) ==> !LostCover(ops, r.key, r.seqId)
  {
    manager := new Manager();
    layers := [manager.layers];
    for n := 0 to |ops|
      invariant fresh(manager) && manager.Valid()
      invariant Inv(manager.layers, maxHeight, Flushed(ops[..n]), now)
      invariant LayerTrace(ops[..n], layers, maxHeight, minMergeThreshold) && layers[n] == manager.layers
    {
      RunStep(manager, ops, n, maxHeight, minMergeThreshold, now);
      LayerTraceOn(ops, n, layers, manager.layers, maxHeight, minMergeThreshold);
      layers := layers + [manager.layers];
    }
    assert ops[..|ops|] == ops;
    ShowsWritesExactly(ops, AllTables(manager.layers));
  }

  /** `Get` after any run gives the answer that the writes call for, unless a lost tombstone covers what it finds. */
  method GetAfterRun(ops: seq<Op>, maxHeight: nat, minMergeThreshold: int, now: int, key: Key, later: int) returns (found: Option<Record>)
    requires maxHeight > 0 && GoodRun(ops, now)
    ensures Answers(Flushed(ops), key, later, found)
    ensures Answers(Written(ops), key, later, found) <==>
            forall r: Record :: r.key == key && Visible(Flushed(ops), r) && !Expired(r, later) ==> !LostCover(ops, key, r.seqId)
  {
    var manager;
    ghost var layers;
    manager, layers := Run(ops, maxHeight, minMergeThreshold, now);
    found := manager.Get(key, later);
    AnswersWritesExactly(ops, key, later, found);
  }

  lemma OneFlushed(r: Record, d: Tombstone, ops: seq<Op>)
    requires ops == [Flush([r], []), Flush([], [d])]
    ensures Flushed(ops) == {Table(0, 0, [r], [])}
    ensures forall s: nat :: Table(0, 0, [r], []).HasSeq(s) <==> s == r.seqId
  {
    var t := FlushTable(ops, 0);
    forall x ensures x in Flushed(ops) <==> x == t {
      if x in Flushed(ops) {
        var i :| 0 <= i < |ops| && ops[i].Flush? && ops[i].entries != [] && x == FlushTable(ops, i);
        assert i == 0;
      }
    }
    assert r in t.records;
  }

  /** A key written and flushed, then deleted by a range delete that fills a memtable on its own: the lookup still finds it. */
  method LostRangeDelete(r: Record, d: Tombstone) returns (found: Option<Record>)
    requires r == Record(1.0, [], 1, Put, 0) && d == Tombstone(0.0, 2.0, 2)
    ensures found == Some(r) && !Answers(Written([Flush([r], []), Flush([], [d])]), r.key, 0, found)
  {
    ghost var ops := [Flush([r], []), Flush([], [d])];
    OneFlushed(r, d, ops);
    assert GoodRun(ops, 0) by {
      RunOfTwo(r, d, ops);
    }
    found := GetAfterRun([Flush([r], []), Flush([], [d])], 1, 4, 0, r.key, 0);
    OnlyRecord(r, found);
    assert ops[1].entries == [] && d in ops[1].rangeDels && d.Spans(r.key);
    assert Covered(ops[1].rangeDels, r.key, r.seqId);
    assert LostCover(ops, r.key, r.seqId);
  }

  lemma RunOfTwo(r: Record, d: Tombstone, ops: seq<Op>)
    requires ops == [Flush([r], []), Flush([], [d])] && r.seqId == 1 && d.seqId == 2 && r.expiresAt == 0
    ensures GoodRun(ops, 0)
  {
    assert Flushed(ops[..0]) == {};
    assert ops[..1] == [Flush([r], [])];
    forall s | Occurs(Flushed(ops[..1]), s) ensures s == 1 {
      var t :| t in Flushed(ops[..1]) && t.HasSeq(s);
    }
    forall s | FlushTable(ops, 1).HasSeq(s) ensures s == 2 {
    }
  }

  lemma OnlyRecord(r: Record, found: Option<Record>)
    requires r == Record(1.0, [], 1, Put, 0) && Answers({Table(0, 0, [r], [])}, r.key, 0, found)
    ensures found == Some(r)
  {
    var tables := {Table(0, 0, [r], [])};
    assert Table(0, 0, [r], []) in tables && r in Table(0, 0, [r], []).records;
    assert HasRecord(tables, r);
    assert forall x :: HasRecord(tables, x) ==> x == r;
    assert Visible(tables, r);
  }
}
