/**
 Runs of flushes, range deletes included, and leveled compactions (internal/lsm/strategy.go:22-122): what the store
 shows after any of them, said exactly.
 */
module LeveledRuns {
  import opened Keys
  import opened Options
  import opened Records
  import opened RangeTombstones
  import opened Tables
  import opened MergeLoop
  import opened SSTables
  import opened SSTableManager
  import opened History
  import opened Leveled

  /** The tables between the operations of a run, and the merges of the last layer on the way. */
  ghost predicate Trace(ops: seq<Op>, states: seq<set<Table>>, drops: seq<Option<Drop>>) {
    && |states| == |ops| + 1 && |drops| == |ops| && states[0] == {}
    && forall n {:trigger ops[n]} :: 0 <= n < |ops| ==> Follow(ops, n, states[n], states[n + 1], drops[n])
  }

  /** What operation `n` makes of the tables. */
  ghost predicate Follow(ops: seq<Op>, n: nat, before: set<Table>, after: set<Table>, drop: Option<Drop>)
    requires n < |ops|
  {
    match ops[n]
    case Flush(entries, _) => drop == None && if entries == [] then after == before else FlushedOn(before, after, FlushTable(ops, n))
    case Compact => Compacted(before, after, drop)
  }

  /** One table more, with these contents. */
  ghost predicate FlushedOn(before: set<Table>, after: set<Table>, u: Table) {
    exists t :: SameContents(t, u) && after == before + {t}
  }

  /** No flush from operation `k` on writes the key or range-deletes the record. */
  ghost predicate Untouched(ops: seq<Op>, k: nat, r: Record) {
    forall m :: k <= m < |ops| && ops[m].Flush? && ops[m].entries != [] ==>
      !Covered(ops[m].rangeDels, r.key, r.seqId) && forall x :: x in ops[m].entries ==> x.key != r.key
  }

  /** A merge of the last layer uncovered the record, and nothing flushed since hides it again. */
  ghost predicate Resurfaced(ops: seq<Op>, drops: seq<Option<Drop>>, r: Record) {
    exists k: nat :: UncoveredAt(drops, k, r) && Untouched(ops, k + 1, r)
  }

  ghost predicate UncoveredAt(drops: seq<Option<Drop>>, k: nat, r: Record) {
    k < |drops| && drops[k].Some? && Uncovered(drops[k].value.all, drops[k].value.last, r)
  }

  /** The trace is in step with the history: nothing foreign in it, and what it shows is exactly known. */
  ghost predicate InStep(ops: seq<Op>, drops: seq<Option<Drop>>, tables: set<Table>) {
    && (forall s :: Occurs(tables, s) ==> Occurs(Flushed(ops), s))
    && (forall key, s: nat :: Hides(tables, key, s) ==> Hides(Flushed(ops), key, s))
    && forall r :: ShownExactly(ops, drops, tables, r)
  }

  /** The record is shown if and only if its history shows it or it has resurfaced, never both; and then a range delete covers it. */
  ghost predicate ShownExactly(ops: seq<Op>, drops: seq<Option<Drop>>, tables: set<Table>, r: Record) {
    && (Visible(tables, r) <==> Visible(Flushed(ops), r) || Resurfaced(ops, drops, r))
    && (Resurfaced(ops, drops, r) ==> !Visible(Flushed(ops), r) && Hides(Flushed(ops), r.key, r.seqId) && r.op != Del)
  }

  // ------------------------------------------------------------------ flushes

  lemma ResurfacedFlush(ops: seq<Op>, drops: seq<Option<Drop>>, op: Op, r: Record)
    requires op.Flush? && |drops| == |ops|
    ensures Resurfaced(ops + [op], drops + [None], r) <==>
            Resurfaced(ops, drops, r)
            && (op.entries != [] ==> !Covered(op.rangeDels, r.key, r.seqId) && forall x :: x in op.entries ==> x.key != r.key)
  {
    var ops', drops' := ops + [op], drops + [None];
    forall k: nat ensures UncoveredAt(drops', k, r) <==> UncoveredAt(drops, k, r) {
    }
    forall k: nat | k <= |ops| ensures Untouched(ops', k, r) <==> Untouched(ops, k, r) && Untouched(ops', |ops|, r) {
      UntouchedSnoc(ops, op, k, r);
    }
    if Resurfaced(ops', drops', r) {
      var k: nat :| UncoveredAt(drops', k, r) && Untouched(ops', k + 1, r);
      assert UncoveredAt(drops, k, r) && Untouched(ops, k + 1, r);
    }
    if Resurfaced(ops, drops, r) && Untouched(ops', |ops|, r) {
      var k: nat :| UncoveredAt(drops, k, r) && Untouched(ops, k + 1, r);
      assert UncoveredAt(drops', k, r) && Untouched(ops', k + 1, r);
    }
    assert ops'[|ops|] == op;
  }

  lemma UntouchedSnoc(ops: seq<Op>, op: Op, k: nat, r: Record)
    requires k <= |ops|
    ensures Untouched(ops + [op], k, r) <==> Untouched(ops, k, r) && Untouched(ops + [op], |ops|, r)
  {
    var ops' := ops + [op];
    assert forall m :: 0 <= m < |ops| ==> ops'[m] == ops[m];
  }

  lemma FlushShows(ops: seq<Op>, drops: seq<Option<Drop>>, tables: set<Table>, op: Op, t: Table, u: Table, r: Record)
    requires op.Flush? && op.entries != [] && |drops| == |ops|
    requires u.records == op.entries && u.rangeDels == op.rangeDels && SameContents(t, u)
    requires NewerThan(t, tables) && NewerThan(u, Flushed(ops)) && Flushed(ops + [op]) == Flushed(ops) + {u}
    requires ShownExactly(ops, drops, tables, r)
    ensures ShownExactly(ops + [op], drops + [None], tables + {t}, r)
  {
    VisibleAfterFlush(tables, t, r);
    VisibleAfterFlush(Flushed(ops), u, r);
    ResurfacedFlush(ops, drops, op, r);
    HidesAdded(Flushed(ops), u, r.key, r.seqId);
  }

  lemma FlushInStep(ops: seq<Op>, drops: seq<Option<Drop>>, tables: set<Table>, op: Op, t: Table, u: Table)
    requires op.Flush? && op.entries != [] && |drops| == |ops|
    requires u.records == op.entries && u.rangeDels == op.rangeDels && SameContents(t, u)
    requires NewerThan(u, Flushed(ops)) && Flushed(ops + [op]) == Flushed(ops) + {u} && InStep(ops, drops, tables)
    ensures InStep(ops + [op], drops + [None], tables + {t})
  {
    forall s, s' | Occurs(tables, s) && t.HasSeq(s') ensures s < s' {
      SameSeqs(t, u, s');
    }
    forall s | Occurs(tables + {t}, s) ensures Occurs(Flushed(ops) + {u}, s) {
      var x :| x in tables + {t} && x.HasSeq(s);
      if x == t {
        SameSeqs(t, u, s);
        assert u in Flushed(ops) + {u};
      } else {
        assert Occurs(tables, s);
        var h :| h in Flushed(ops) && h.HasSeq(s);
        assert h in Flushed(ops) + {u};
      }
    }
    forall key, s: nat | Hides(tables + {t}, key, s) ensures Hides(Flushed(ops) + {u}, key, s) {
      HidesAdded(tables, t, key, s);
      HidesAdded(Flushed(ops), u, key, s);
    }
    forall r ensures ShownExactly(ops + [op], drops + [None], tables + {t}, r) {
      FlushShows(ops, drops, tables, op, t, u, r);
    }
  }

  // ------------------------------------------------------------------ compactions

  lemma ResurfacedCompact(ops: seq<Op>, drops: seq<Option<Drop>>, drop: Option<Drop>, r: Record)
    requires |drops| == |ops|
    ensures Resurfaced(ops + [Compact], drops + [drop], r) <==>
            Resurfaced(ops, drops, r) || (drop.Some? && Uncovered(drop.value.all, drop.value.last, r))
  {
    var ops', drops' := ops + [Compact], drops + [drop];
    assert drops'[|ops|] == drop && ops'[|ops|] == Compact;
    forall k: nat | k <= |ops| ensures Untouched(ops', k, r) <==> Untouched(ops, k, r) {
      UntouchedSnoc(ops, Compact, k, r);
    }
    forall k: nat | k < |ops| ensures UncoveredAt(drops', k, r) <==> UncoveredAt(drops, k, r) {
      assert drops'[k] == drops[k];
    }
    if Resurfaced(ops', drops', r) {
      var k: nat :| UncoveredAt(drops', k, r) && Untouched(ops', k + 1, r);
      assert k < |ops| ==> UncoveredAt(drops, k, r) && Untouched(ops, k + 1, r);
    }
    if Resurfaced(ops, drops, r) {
      var k: nat :| UncoveredAt(drops, k, r) && Untouched(ops, k + 1, r);
      assert UncoveredAt(drops', k, r) && Untouched(ops', k + 1, r);
    }
    if drop.Some? && Uncovered(drop.value.all, drop.value.last, r) {
      assert UncoveredAt(drops', |ops|, r) && Untouched(ops', |ops| + 1, r);
    }
  }

  lemma CompactShows(ops: seq<Op>, drops: seq<Option<Drop>>, before: set<Table>, after: set<Table>, drop: Option<Drop>, r: Record)
    requires |drops| == |ops| && Flushed(ops + [Compact]) == Flushed(ops) && InStep(ops, drops, before) && Compacted(before, after, drop)
    ensures ShownExactly(ops + [Compact], drops + [drop], after, r)
  {
    ResurfacedCompact(ops, drops, drop, r);
    assert ShownExactly(ops, drops, before, r);
    if drop.Some? {
      DropSeenExactly(drop.value, after);
      if Uncovered(drop.value.all, drop.value.last, r) {
        UncoveredHidden(drop.value, r);
      }
    }
  }

  /** What only the last layer hides is hidden before the merge. */
  lemma UncoveredHidden(d: Drop, r: Record)
    requires d.last <= d.all && Uncovered(d.all, d.last, r)
    ensures !Visible(d.all, r) && Hides(d.all, r.key, r.seqId)
  {
    var t :| t in d.last && Covered(t.rangeDels, r.key, r.seqId);
  }

  lemma CompactInStep(ops: seq<Op>, drops: seq<Option<Drop>>, before: set<Table>, after: set<Table>, drop: Option<Drop>)
    requires |drops| == |ops| && Flushed(ops + [Compact]) == Flushed(ops) && InStep(ops, drops, before) && Compacted(before, after, drop)
    ensures InStep(ops + [Compact], drops + [drop], after)
  {
    if drop.Some? {
      DropSeenExactly(drop.value, after);
    }
    assert Within(after, before);
    forall r ensures ShownExactly(ops + [Compact], drops + [drop], after, r) {
      CompactShows(ops, drops, before, after, drop, r);
    }
  }

  // ------------------------------------------------------------------ traces

  lemma NothingInStep()
    ensures InStep([], [], {})
  {
    assert Flushed([]) == {};
    forall r ensures ShownExactly([], [], {}, r) {
      assert forall k: nat :: !UncoveredAt([], k, r);
    }
  }

  lemma GoodPrefix(ops: seq<Op>, n: nat, now: int)
    requires n < |ops| && ops[n].Flush? && ops[n].entries != [] && GoodRun(ops, now)
    ensures NewerThan(FlushTable(ops, n), Flushed(ops[..n]))
    ensures Flushed(ops[..n] + [ops[n]]) == Flushed(ops[..n]) + {FlushTable(ops, n)}
  {
    FlushedStep(ops, n);
    assert ops[..n + 1] == ops[..n] + [ops[n]];
  }

  /** Every trace of a run is in step with its history, all the way. */
  lemma {:induction false} TraceInStep(ops: seq<Op>, states: seq<set<Table>>, drops: seq<Option<Drop>>, n: nat, now: int)
    requires GoodRun(ops, now) && Trace(ops, states, drops) && n <= |ops|
    ensures InStep(ops[..n], drops[..n], states[n])
  {
    if n == 0 {
      NothingInStep();
    } else {
      var m := n - 1;
      TraceInStep(ops, states, drops, m, now);
      assert ops[..n] == ops[..m] + [ops[m]] && drops[..n] == drops[..m] + [drops[m]];
      FlushedStep(ops, m);
      assert Follow(ops, m, states[m], states[m + 1], drops[m]);
      StepInStep(ops, m, states[m], states[n], drops, now);
    }
  }

  lemma StepInStep(ops: seq<Op>, m: nat, before: set<Table>, after: set<Table>, drops: seq<Option<Drop>>, now: int)
    requires GoodRun(ops, now) && m < |ops| == |drops| && Follow(ops, m, before, after, drops[m])
    requires InStep(ops[..m], drops[..m], before)
    ensures InStep(ops[..m] + [ops[m]], drops[..m] + [drops[m]], after)
  {
    var front, ds, op := ops[..m], drops[..m], ops[m];
    FlushedStep(ops, m);
    assert ops[..m + 1] == front + [op];
    if op.Compact? {
      CompactInStep(front, ds, before, after, drops[m]);
    } else if op.entries == [] {
      IdleInStep(front, ds, before, op);
    } else {
      var u := FlushTable(ops, m);
      GoodPrefix(ops, m, now);
      var t :| SameContents(t, u) && after == before + {t};
      FlushInStep(front, ds, before, op, t, u);
    }
  }

  lemma IdleInStep(ops: seq<Op>, drops: seq<Option<Drop>>, tables: set<Table>, op: Op)
    requires op.Flush? && op.entries == [] && |drops| == |ops| && InStep(ops, drops, tables)
    requires Flushed(ops + [op]) == Flushed(ops)
    ensures InStep(ops + [op], drops + [None], tables)
  {
    forall r ensures ShownExactly(ops + [op], drops + [None], tables, r) {
      ResurfacedFlush(ops, drops, op, r);
      assert ShownExactly(ops, drops, tables, r);
    }
  }

  /**
   Exactly what the store shows after a run: what its history shows, and the records that a merge of the last layer
   uncovered and nothing flushed since has hidden. So all the history shows is shown, and whatever else is shown lies
   under a range delete.
   */
  lemma TraceShows(ops: seq<Op>, states: seq<set<Table>>, drops: seq<Option<Drop>>, now: int, r: Record)
    requires GoodRun(ops, now) && Trace(ops, states, drops)
    ensures Visible(states[|ops|], r) <==> Visible(Flushed(ops), r) || Resurfaced(ops, drops, r)
    ensures Resurfaced(ops, drops, r) ==> !Visible(Flushed(ops), r) && Hides(Flushed(ops), r.key, r.seqId)
  {
    TraceInStep(ops, states, drops, |ops|, now);
    assert ops[..|ops|] == ops && drops[..|ops|] == drops;
    assert ShownExactly(ops, drops, states[|ops|], r);
  }

  // ------------------------------------------------------------------ the layers on the way

  /** The layers between the operations of a run; `oversized(n, i)`: whether layer `i` counts as oversized in operation `n`. */
  ghost predicate LayerTrace(ops: seq<Op>, layers: seq<Layers>, maxHeight: nat, oversized: (nat, nat) -> bool) {
    && |layers| == |ops| + 1 && layers[0] == [[]]
    && forall n {:trigger ops[n]} :: 0 <= n < |ops| ==> LayersFollow(ops[n], n, layers[n], layers[n + 1], maxHeight, oversized)
  }

  ghost predicate LayersFollow(op: Op, n: nat, before: Layers, after: Layers, maxHeight: nat, oversized: (nat, nat) -> bool) {
    match op
    case Flush(entries, rangeDels) => if entries == [] then after == before else FlushedInto(before, after, entries, rangeDels)
    case Compact => Rounds(before, after, 0, maxHeight, Choice(oversized, n))
  }

  /** What counts as oversized in operation `n`. */
  function Choice(oversized: (nat, nat) -> bool, n: nat): nat -> bool { (i: nat) => oversized(n, i) }

  ghost predicate FlushedInto(before: Layers, after: Layers, entries: seq<Record>, rangeDels: seq<Tombstone>) {
    exists t :: FlushOf(t, entries, rangeDels) && t.layer == 0 && after == Append(before, 0, t)
  }

  lemma LayerTraceOn(ops: seq<Op>, n: nat, layers: seq<Layers>, after: Layers, maxHeight: nat, oversized: (nat, nat) -> bool)
    requires n < |ops| && LayerTrace(ops[..n], layers, maxHeight, oversized)
    requires LayersFollow(ops[n], n, layers[n], after, maxHeight, oversized)
    ensures LayerTrace(ops[..n + 1], layers + [after], maxHeight, oversized)
  {
    var ops', layers' := ops[..n + 1], layers + [after];
    forall m | 0 <= m < |ops'| ensures LayersFollow(ops'[m], m, layers'[m], layers'[m + 1], maxHeight, oversized) {
      if m < n {
        assert ops[..n][m] == ops'[m];
        assert LayersFollow(ops[..n][m], m, layers[m], layers[m + 1], maxHeight, oversized);
      }
    }
  }

  // ------------------------------------------------------------------ runs

  method FlushStep(manager: Manager, ops: seq<Op>, n: nat, maxHeight: nat, now: int)
    requires n < |ops| && ops[n].Flush? && GoodRun(ops, now)
    requires manager.Valid() && Inv(manager.layers, maxHeight, Flushed(ops[..n]), now)
    modifies manager
    ensures manager.Valid() && Inv(manager.layers, maxHeight, Flushed(ops[..n + 1]), now)
    ensures Follow(ops, n, AllTables(old(manager.layers)), AllTables(manager.layers), None)
    ensures if ops[n].entries == [] then manager.layers == old(manager.layers)
            else FlushedInto(old(manager.layers), manager.layers, ops[n].entries, ops[n].rangeDels)
  {
    FlushedStep(ops, n);
    ghost var before := manager.layers;
    ghost var u, history := FlushTable(ops, n), Flushed(ops[..n]);
    FreshVersions(AllTables(manager.layers), history, u, now);
    ghost var t := manager.FlushToSSTable(ops[n].entries, ops[n].rangeDels);
    if ops[n].entries != [] {
      FlushSourced(AllTables(before), history, t, u, now);
      AllTablesAppend(before, 0, t);
      FlushInv(before, t, maxHeight, history + {u}, now);
      assert SameContents(t, u);
    }
  }

  lemma FlushInv(layers: Layers, t: Table, maxHeight: nat, history: set<Table>, now: int)
    requires DisjointLayers(layers) && OlderDown(layers) && 0 < |layers| <= maxHeight
    requires NewerThan(t, AllTables(layers))
    requires Sourced(AllTables(layers) + {t}, history, now)
    requires AllTables(Append(layers, 0, t)) == AllTables(layers) + {t}
    ensures Inv(Append(layers, 0, t), maxHeight, history, now)
  {
    forall i, b | 1 <= i < |layers| && b in layers[i] ensures VersionsBelow(b, t) {
      assert b in AllTables(layers);
      forall x, y | x in b.records && y in t.records ensures x.seqId < y.seqId {
        assert HasRecord(AllTables(layers), x);
        NewerBeatsOlder(AllTables(layers), t, y, x);
      }
    }
  }

  /** The trace goes on with one operation. */
  lemma TraceOn(ops: seq<Op>, n: nat, states: seq<set<Table>>, drops: seq<Option<Drop>>, after: set<Table>, drop: Option<Drop>)
    requires n < |ops| && Trace(ops[..n], states, drops) && Follow(ops, n, states[n], after, drop)
    ensures Trace(ops[..n + 1], states + [after], drops + [drop])
  {
    var ops', states', drops' := ops[..n + 1], states + [after], drops + [drop];
    forall m | 0 <= m < |ops'| ensures Follow(ops', m, states'[m], states'[m + 1], drops'[m]) {
      if m < n {
        assert ops[..n][m] == ops'[m];
        assert Follow(ops[..n], m, states[m], states[m + 1], drops[m]);
      }
    }
  }

  /** One operation of a run. */
  method RunStep(manager: Manager, ops: seq<Op>, n: nat, maxHeight: nat, oversized: (nat, nat) -> bool, now: int)
    returns (ghost drop: Option<Drop>)
    requires maxHeight > 0 && n < |ops| && GoodRun(ops, now)
    requires manager.Valid() && Inv(manager.layers, maxHeight, Flushed(ops[..n]), now)
    modifies manager
    ensures manager.Valid() && Inv(manager.layers, maxHeight, Flushed(ops[..n + 1]), now)
    ensures Follow(ops, n, AllTables(old(manager.layers)), AllTables(manager.layers), drop)
    ensures LayersFollow(ops[n], n, old(manager.layers), manager.layers, maxHeight, oversized)
  {
    drop := None;
    match ops[n] {
      case Flush(_, _) =>
        FlushStep(manager, ops, n, maxHeight, now);
      case Compact =>
        FlushedStep(ops, n);
        var ok;
        ok, drop := Leveled.Compact(manager, maxHeight, Choice(oversized, n), Flushed(ops[..n]), now);
    }
  }

  /** Flushes carry no range deletes. */
  ghost predicate NoRangeDels(ops: seq<Op>) { forall n :: 0 <= n < |ops| && ops[n].Flush? ==> ops[n].rangeDels == [] }

  lemma NothingHidden(ops: seq<Op>)
    requires NoRangeDels(ops)
    ensures forall key, s: nat :: !Hides(Flushed(ops), key, s) && !LostCover(ops, key, s)
  {
  }

  /** Every run: the layers and the tables on the way, and exactly what the store shows in the end. */
  method Run(ops: seq<Op>, maxHeight: nat, oversized: (nat, nat) -> bool, now: int)
    returns (manager: Manager, ghost layers: seq<Layers>, ghost states: seq<set<Table>>, ghost drops: seq<Option<Drop>>)
    requires maxHeight > 0 && GoodRun(ops, now)
    ensures fresh(manager) && manager.Valid() && DisjointLayers(manager.layers) && OlderDown(manager.layers)
    ensures Trace(ops, states, drops) && LayerTrace(ops, layers, maxHeight, oversized) && layers[|ops|] == manager.layers
    ensures forall n :: 0 <= n <= |ops| ==> states[n] == AllTables(layers[n])
    ensures forall r :: Visible(Flushed(ops), r) ==> Visible(AllTables(manager.layers), r)
    ensures forall r :: Visible(AllTables(manager.layers), r) && !Visible(Flushed(ops), r) ==> Hides(Flushed(ops), r.key, r.seqId)
    ensures forall r :: Visible(AllTables(manager.layers), r) <==> Visible(Flushed(ops), r) || Resurfaced(ops, drops, r)
    ensures NoRangeDels(ops) ==> SameView(Written(ops), AllTables(manager.layers))
  {
    manager := new Manager();
    layers, states, drops := [manager.layers], [{}], [];
    for n := 0 to |ops|
      invariant fresh(manager) && manager.Valid()
      invariant Inv(manager.layers, maxHeight, Flushed(ops[..n]), now)
      invariant Trace(ops[..n], states, drops) && LayerTrace(ops[..n], layers, maxHeight, oversized) && layers[n] == manager.layers
      invariant forall m :: 0 <= m <= n ==> states[m] == AllTables(layers[m])
    {
      ghost var drop := RunStep(manager, ops, n, maxHeight, oversized, now);
      TraceOn(ops, n, states, drops, AllTables(manager.layers), drop);
      LayerTraceOn(ops, n, layers, manager.layers, maxHeight, oversized);
      layers := layers + [manager.layers];
      states, drops := states + [AllTables(manager.layers)], drops + [drop];
    }
    assert ops[..|ops|] == ops;
    RunShows(ops, states, drops, now);
  }

  lemma RunShows(ops: seq<Op>, states: seq<set<Table>>, drops: seq<Option<Drop>>, now: int)
    requires GoodRun(ops, now) && Trace(ops, states, drops)
    ensures forall r :: Visible(states[|ops|], r) <==> Visible(Flushed(ops), r) || Resurfaced(ops, drops, r)
    ensures forall r :: Resurfaced(ops, drops, r) ==> !Visible(Flushed(ops), r) && Hides(Flushed(ops), r.key, r.seqId)
    ensures NoRangeDels(ops) ==> SameView(Written(ops), states[|ops|])
  {
    forall r
      ensures Visible(states[|ops|], r) <==> Visible(Flushed(ops), r) || Resurfaced(ops, drops, r)
      ensures Resurfaced(ops, drops, r) ==> !Visible(Flushed(ops), r) && Hides(Flushed(ops), r.key, r.seqId)
    {
      TraceShows(ops, states, drops, now, r);
    }
    if NoRangeDels(ops) {
      NothingHidden(ops);
      ShowsWritesExactly(ops, states[|ops|]);
    }
  }

  /** No flush range-deletes the key. */
  ghost predicate Unspanned(ops: seq<Op>, key: Key) {
    forall n, d :: 0 <= n < |ops| && ops[n].Flush? && d in ops[n].rangeDels ==> !d.Spans(key)
  }

  lemma UnspannedHidesNothing(ops: seq<Op>, key: Key)
    requires Unspanned(ops, key)
    ensures forall s: nat :: !Hides(Flushed(ops), key, s) && !LostCover(ops, key, s)
  {
  }

  /** No live record of the key has resurfaced, and none that the flushed tables show was range-deleted by a flush without entries. */
  ghost predicate Unspoilt(ops: seq<Op>, drops: seq<Option<Drop>>, key: Key, now: int) {
    forall r: Record :: r.key == key && !Expired(r, now) ==>
      !Resurfaced(ops, drops, r) && (Visible(Flushed(ops), r) ==> !LostCover(ops, key, r.seqId))
  }

  /**
   `Get` after any such run: the answer that the writes call for if and only if no live record of the key has resurfaced,
   nor one that a range delete of a flush without entries covers; for a key that no range delete spans always.
   */
  method GetAfterRun(ops: seq<Op>, maxHeight: nat, oversized: (nat, nat) -> bool, now: int, key: Key, later: int)
    returns (found: Option<Record>, ghost states: seq<set<Table>>, ghost drops: seq<Option<Drop>>)
    requires maxHeight > 0 && GoodRun(ops, now)
    ensures Trace(ops, states, drops) && Answers(states[|ops|], key, later, found)
    ensures Answers(Written(ops), key, later, found) <==> Unspoilt(ops, drops, key, later)
    ensures Unspanned(ops, key) ==> Answers(Written(ops), key, later, found)
  {
    var manager;
    ghost var layers;
    manager, layers, states, drops := Run(ops, maxHeight, oversized, now);
    found := manager.Get(key, later);
    AnswerExactly(ops, states, drops, now, key, later, found);
  }

  lemma AnswerExactly(ops: seq<Op>, states: seq<set<Table>>, drops: seq<Option<Drop>>, now: int, key: Key, later: int, found: Option<Record>)
    requires GoodRun(ops, now) && Trace(ops, states, drops) && Answers(states[|ops|], key, later, found)
    requires UniqueVersions(states[|ops|])
    ensures Answers(Written(ops), key, later, found) <==> Unspoilt(ops, drops, key, later)
    ensures Unspanned(ops, key) ==> Answers(Written(ops), key, later, found)
  {
    RunShows(ops, states, drops, now);
    forall r ensures Visible(Written(ops), r) <==> Visible(Flushed(ops), r) && !LostCover(ops, r.key, r.seqId) {
      WrittenView(ops, r);
    }
    if found.Some? {
      forall r: Record | r.key == key && Visible(states[|ops|], r) ensures r == found.value {
        assert IsNewest(states[|ops|], r) && IsNewest(states[|ops|], found.value);
      }
    }
    if Unspanned(ops, key) {
      UnspannedHidesNothing(ops, key);
    }
  }
}
