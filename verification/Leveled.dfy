/**
 `LeveledCompaction.Compact` (internal/lsm/strategy.go:22-122) over whole runs. Below layer zero
 the tables of a layer have disjoint key ranges, and the versions of a key get older from layer
 to layer. A table's range does not count its range tombstones, so a merge of the last layer,
 which drops them, can uncover a record above.
 */
module Leveled {
  import opened Keys
  import opened Options
  import opened Records
  import opened RangeTombstones
  import opened Tables
  import opened MergeLoop
  import opened SSTables
  import opened SSTableManager
  import opened History
  import opened SizeTiered

  /** The key ranges recorded in two tables' metadata do not meet. */
  predicate Disjoint(a: Table, b: Table) {
    a.MaxKey() < b.MinKey() || b.MaxKey() < a.MinKey()
  }

  /** Every version of a key in `deep` is older than every version of that key in `shallow`. */
  ghost predicate VersionsBelow(deep: Table, shallow: Table) {
    forall x, y :: x in deep.records && y in shallow.records && x.key == y.key ==> x.seqId < y.seqId
  }

  /** Layers below the first hold tables with pairwise disjoint ranges. */
  ghost predicate DisjointLayers(layers: Layers) {
    forall i, a, b :: 1 <= i < |layers| && a in layers[i] && b in layers[i] && a.id != b.id ==> Disjoint(a, b)
  }

  ghost predicate OlderDown(layers: Layers) {
    forall i, j, a, b :: 0 <= j < i < |layers| && a in layers[j] && b in layers[i] ==> VersionsBelow(b, a)
  }

  ghost predicate Inv(layers: Layers, maxHeight: nat, history: set<Table>, now: int) {
    DisjointLayers(layers) && OlderDown(layers) && |layers| <= maxHeight && Sourced(AllTables(layers), history, now)
  }

  /** No record, no cover and no sequence number comes in. */
  ghost predicate Within(after: set<Table>, before: set<Table>) {
    && (forall r :: HasRecord(after, r) ==> HasRecord(before, r))
    && (forall key, s: nat :: Hides(after, key, s) ==> Hides(before, key, s))
    && (forall s :: Occurs(after, s) ==> Occurs(before, s))
  }

  /** The view stays, and nothing comes in. */
  ghost predicate KeepsView(before: set<Table>, after: set<Table>) { SameView(before, after) && Within(after, before) }

  lemma MergedWithin(all: set<Table>, inputs: set<Table>, m: Table, skip: bool)
    requires inputs <= all && MergeOf(m, inputs, skip)
    ensures Within(Replaced(all, inputs, m), all)
  {
    var after := Replaced(all, inputs, m);
    forall r | HasRecord(after, r) ensures HasRecord(all, r) {
      MergeOnlyKeeps(all, inputs, m, r);
    }
    forall key, s: nat | Hides(after, key, s) ensures Hides(all, key, s) {
      HidesSplit(all, inputs, m, key, s);
    }
    forall s | Occurs(after, s) ensures Occurs(all, s) {
      var x :| x in after && x.HasSeq(s);
      if x == m {
        MergeSeqs(m, inputs, skip, s);
      }
    }
  }

  lemma MovedWithin(all: set<Table>, t: Table, m: Table)
    requires t in all && m.records == t.records && m.rangeDels == t.rangeDels
    ensures Within(all - {t} + {m}, all)
  {
    var after := all - {t} + {m};
    forall r | HasRecord(after, r) ensures HasRecord(all, r) {
      var x :| x in after && r in x.records;
      assert r in (if x == m then t else x).records;
    }
    forall key, s: nat | Hides(after, key, s) ensures Hides(all, key, s) {
      var x :| x in after && Covered(x.rangeDels, key, s);
      assert Covered((if x == m then t else x).rangeDels, key, s);
    }
    forall s | Occurs(after, s) ensures Occurs(all, s) {
      var x :| x in after && x.HasSeq(s);
      assert (if x == m then t else x).HasSeq(s);
    }
  }

  lemma WithinSourced(after: set<Table>, before: set<Table>, history: set<Table>, now: int)
    requires Within(after, before) && Sourced(before, history, now)
    ensures Sourced(after, history, now)
  {
  }

  // ------------------------------------------------------------------ ranges and overlaps

  /** The keys of a well formed table lie within its range. */
  lemma KeysInRange(t: Table, r: Record)
    requires t.WellFormed() && r in t.records
    ensures t.MinKey() <= r.key <= t.MaxKey()
  {
    KeyRange(t);
  }

  lemma DisjointNoShared(a: Table, b: Table, x: Record, y: Record)
    requires a.WellFormed() && b.WellFormed() && Disjoint(a, b) && x in a.records && y in b.records
    ensures x.key != y.key
  {
    KeysInRange(a, x);
    KeysInRange(b, y);
  }

  /** The smallest range that holds all tables. */
  ghost predicate RangeOf(tables: seq<Table>, minKey: Key, maxKey: Key) {
    && (forall t :: t in tables ==> minKey <= t.MinKey() && t.MaxKey() <= maxKey)
    && (exists t :: t in tables && t.MinKey() == minKey) && (exists t :: t in tables && t.MaxKey() == maxKey)
  }

  /** `l0Range`. */
  method L0Range(tables: seq<Table>) returns (minKey: Key, maxKey: Key)
    requires |tables| > 0
    ensures RangeOf(tables, minKey, maxKey)
  {
    assert tables[0] in tables;
    minKey, maxKey := tables[0].MinKey(), tables[0].MaxKey();
    for n := 1 to |tables|
      invariant forall p :: 0 <= p < n ==> minKey <= tables[p].MinKey() && tables[p].MaxKey() <= maxKey
      invariant (exists t :: t in tables && t.MinKey() == minKey) && (exists t :: t in tables && t.MaxKey() == maxKey)
    {
      assert tables[n] in tables;
      if tables[n].MinKey() < minKey {
        minKey := tables[n].MinKey();
      }
      if tables[n].MaxKey() > maxKey {
        maxKey := tables[n].MaxKey();
      }
    }
  }

  ghost predicate Overlaps(t: Table, minKey: Key, maxKey: Key) {
    t.MaxKey() >= minKey && t.MinKey() <= maxKey
  }

  /** Exactly the tables of the layer whose range meets the given one. */
  ghost predicate Meets(out: seq<Table>, layer: seq<Table>, minKey: Key, maxKey: Key) {
    forall t :: t in out <==> t in layer && Overlaps(t, minKey, maxKey)
  }

  /** Those tables in the order of the layer. */
  ghost function Overlapping(layer: seq<Table>, minKey: Key, maxKey: Key): (out: seq<Table>) {
    if layer == [] then []
    else
      var n := |layer| - 1;
      Overlapping(layer[..n], minKey, maxKey) + if minKey <= layer[n].MaxKey() && layer[n].MinKey() <= maxKey then [layer[n]] else []
  }

  /** `overlappingInLayer`. */
  method OverlappingInLayer(minKey: Key, maxKey: Key, layer: seq<Table>) returns (out: seq<Table>)
    ensures out == Overlapping(layer, minKey, maxKey) && Meets(out, layer, minKey, maxKey)
  {
    out := [];
    for n := 0 to |layer|
      invariant out == Overlapping(layer[..n], minKey, maxKey)
      invariant forall t :: t in out <==> t in layer[..n] && Overlaps(t, minKey, maxKey)
    {
      var t := layer[n];
      assert t in layer;
      assert layer[..n + 1] == layer[..n] + [t] && layer[..n + 1][..n] == layer[..n];
      if !(t.MaxKey() < minKey) && !(t.MinKey() > maxKey) {
        out := out + [t];
      }
    }
    assert layer[..|layer|] == layer;
  }

  // ------------------------------------------------------------------ what a compaction step does to the layers

  /** Layers `after` are `layers` with the tables `ids` removed and `m` added at layer `to`. */
  ghost predicate Rewritten(layers: Layers, after: Layers, ids: set<nat>, m: Table, to: nat) {
    && to < |after| && |after| >= |layers|
    && forall j, t :: 0 <= j < |after| ==>
         (t in after[j] <==> (j < |layers| && t in layers[j] && t.id !in ids) || (j == to && t == m))
  }

  lemma RewrittenAt(layers: Layers, after: Layers, ids: set<nat>, m: Table, to: nat, j: nat, t: Table)
    requires Rewritten(layers, after, ids, m, to) && j < |after| && t in after[j]
    ensures (j < |layers| && t in layers[j] && t.id !in ids) || (j == to && t == m)
  {
  }

  lemma MergeRewrites(layers: Layers, ids: set<nat>, m: Table, to: nat)
    requires m.id !in ids
    ensures Rewritten(layers, Purge(Append(layers, to, m), ids), ids, m, to)
  {
    var added := Append(layers, to, m);
    var after := Purge(added, ids);
    forall j, t: Table | 0 <= j < |after|
      ensures t in after[j] <==> (j < |layers| && t in layers[j] && t.id !in ids) || (j == to && t == m)
    {
      PurgedLayer(layers, added, ids, m, to, j, t);
    }
  }

  lemma PurgedLayer(layers: Layers, added: Layers, ids: set<nat>, m: Table, to: nat, j: nat, t: Table)
    requires m.id !in ids && added == Append(layers, to, m) && j < |added|
    ensures t in Without(added[j], ids) <==> (j < |layers| && t in layers[j] && t.id !in ids) || (j == to && t == m)
  {
    InWithout(added[j], ids, t);
  }

  lemma MoveRewrites(layers: Layers, id: nat, m: Table, to: nat)
    ensures Rewritten(layers, Append(Purge(layers, {id}), to, m), {id}, m, to)
  {
    var purged := Purge(layers, {id});
    var after := Append(purged, to, m);
    forall j, t: Table | 0 <= j < |after|
      ensures t in after[j] <==> (j < |layers| && t in layers[j] && t.id !in {id}) || (j == to && t == m)
    {
      if j < |layers| {
        InWithout(layers[j], {id}, t);
      }
    }
  }

  /**
   The inputs of a step from layer `i` to the next: tables `upper` of layer `i` whose ranges
   lie in [lo, hi], and every table of layer `i + 1` that meets [lo, hi].
   */
  ghost predicate StepInputs(layers: Layers, i: nat, upper: seq<Table>, lower: seq<Table>, lo: Key, hi: Key) {
    && i < |layers|
    && (forall t :: t in upper ==> t in layers[i] && t.WellFormed() && lo <= t.MinKey() && t.MaxKey() <= hi)
    && (forall t :: t in lower ==> i + 1 < |layers| && t in layers[i + 1])
    && (i + 1 < |layers| ==>
          forall t :: t in layers[i + 1] ==> t.WellFormed() && (t in lower <==> Overlaps(t, lo, hi)))
    && (i == 0 ==> forall t :: t in layers[0] ==> t in upper)
  }

  /** Every record of `m` comes from one of the inputs. */
  ghost predicate ComesFrom(m: Table, upper: seq<Table>, lower: seq<Table>) {
    forall r :: r in m.records ==> exists t :: (t in upper || t in lower) && r in t.records
  }

  /** The new table's range meets no table left in its layer. */
  lemma NewTableDisjoint(layers: Layers, i: nat, upper: seq<Table>, lower: seq<Table>, lo: Key, hi: Key, m: Table, t: Table)
    requires StepInputs(layers, i, upper, lower, lo, hi) && DisjointLayers(layers) && ComesFrom(m, upper, lower)
    requires m.WellFormed() && i + 1 < |layers| && t in layers[i + 1] && t !in lower
    requires forall a, b :: a in layers[i + 1] && b in layers[i + 1] && a.id == b.id ==> a == b
    ensures Disjoint(m, t)
  {
    if t.MaxKey() < lo {
      forall r | r in m.records ensures t.MaxKey() < r.key {
        RightOf(layers, i, upper, lower, lo, hi, m, t, r);
      }
      assert m.records[0] in m.records;
    } else {
      forall r | r in m.records ensures r.key < t.MinKey() {
        LeftOf(layers, i, upper, lower, lo, hi, m, t, r);
      }
      assert m.records[|m.records| - 1] in m.records;
    }
  }

  lemma RightOf(layers: Layers, i: nat, upper: seq<Table>, lower: seq<Table>, lo: Key, hi: Key, m: Table, t: Table, r: Record)
    requires StepInputs(layers, i, upper, lower, lo, hi) && DisjointLayers(layers) && ComesFrom(m, upper, lower)
    requires i + 1 < |layers| && t in layers[i + 1] && t !in lower && t.MaxKey() < lo && r in m.records
    requires forall a, b :: a in layers[i + 1] && b in layers[i + 1] && a.id == b.id ==> a == b
    ensures t.MaxKey() < r.key
  {
    var s :| (s in upper || s in lower) && r in s.records;
    KeysInRange(s, r);
    assert t.records[0] in t.records;
    KeysInRange(t, t.records[0]);
    if s in lower {
      assert Overlaps(s, lo, hi) && Disjoint(s, t);
    }
  }

  lemma LeftOf(layers: Layers, i: nat, upper: seq<Table>, lower: seq<Table>, lo: Key, hi: Key, m: Table, t: Table, r: Record)
    requires StepInputs(layers, i, upper, lower, lo, hi) && DisjointLayers(layers) && ComesFrom(m, upper, lower)
    requires i + 1 < |layers| && t in layers[i + 1] && t !in lower && t.MinKey() > hi && r in m.records
    requires forall a, b :: a in layers[i + 1] && b in layers[i + 1] && a.id == b.id ==> a == b
    ensures r.key < t.MinKey()
  {
    var s :| (s in upper || s in lower) && r in s.records;
    KeysInRange(s, r);
    assert t.records[0] in t.records;
    KeysInRange(t, t.records[0]);
    if s in lower {
      assert Overlaps(s, lo, hi) && Disjoint(s, t);
    }
  }

  lemma Members(layers: Layers, id: nat, j: nat, t: Table)
    requires LayersOk(layers, id) && j < |layers| && t in layers[j]
    ensures t.WellFormed() && t.layer == j && t.id < id && t in AllTables(layers)
  {
    var p :| 0 <= p < |layers[j]| && layers[j][p] == t;
  }

  lemma SameIdInLayer(layers: Layers, id: nat, j: nat, a: Table, b: Table)
    requires LayersOk(layers, id) && j < |layers| && a in layers[j] && b in layers[j] && a.id == b.id
    ensures a == b
  {
    Members(layers, id, j, a);
    Members(layers, id, j, b);
    SameId(layers, id, a, b);
  }

  /** All facts about one step from layer `i` to the next. */
  ghost predicate Step(layers: Layers, after: Layers, i: nat, upper: seq<Table>, lower: seq<Table>,
                       lo: Key, hi: Key, ids: set<nat>, m: Table) {
    && StepInputs(layers, i, upper, lower, lo, hi) && ComesFrom(m, upper, lower) && m.WellFormed()
    && Rewritten(layers, after, ids, m, i + 1)
    && (forall t :: t in upper || t in lower ==> t.id in ids)
  }

  lemma StepDisjoint(layers: Layers, id: nat, after: Layers, i: nat, upper: seq<Table>, lower: seq<Table>,
                     lo: Key, hi: Key, ids: set<nat>, m: Table)
    requires LayersOk(layers, id) && DisjointLayers(layers) && OlderDown(layers)
    requires Step(layers, after, i, upper, lower, lo, hi, ids, m)
    ensures DisjointLayers(after)
  {
    if i + 1 < |layers| {
      forall a, b | a in layers[i + 1] && b in layers[i + 1] && a.id == b.id ensures a == b {
        SameIdInLayer(layers, id, i + 1, a, b);
      }
      forall t | t in layers[i + 1] && t.id !in ids ensures Disjoint(m, t) {
        NewTableDisjoint(layers, i, upper, lower, lo, hi, m, t);
      }
    }
  }

  lemma StepOlderAbove(layers: Layers, id: nat, after: Layers, i: nat, upper: seq<Table>, lower: seq<Table>,
                       lo: Key, hi: Key, ids: set<nat>, m: Table, j: nat, a: Table)
    requires LayersOk(layers, id) && DisjointLayers(layers) && OlderDown(layers)
    requires Step(layers, after, i, upper, lower, lo, hi, ids, m)
    requires j <= i && a in layers[j] && a.id !in ids
    ensures VersionsBelow(m, a)
  {
    Members(layers, id, j, a);
    forall x, y | x in m.records && y in a.records && x.key == y.key ensures x.seqId < y.seqId {
      var s :| (s in upper || s in lower) && x in s.records;
      if s in lower || j < i {
        assert VersionsBelow(s, a);
      } else {
        assert Disjoint(s, a);
        DisjointNoShared(s, a, x, y);
      }
    }
  }

  lemma StepOlderBelow(layers: Layers, id: nat, after: Layers, i: nat, upper: seq<Table>, lower: seq<Table>,
                       lo: Key, hi: Key, ids: set<nat>, m: Table, k: nat, b: Table)
    requires LayersOk(layers, id) && DisjointLayers(layers) && OlderDown(layers)
    requires Step(layers, after, i, upper, lower, lo, hi, ids, m)
    requires i + 1 < k < |layers| && b in layers[k]
    ensures VersionsBelow(b, m)
  {
    forall x, y | x in b.records && y in m.records && x.key == y.key ensures x.seqId < y.seqId {
      var s :| (s in upper || s in lower) && y in s.records;
      assert VersionsBelow(b, s);
    }
  }

  lemma StepOlder(layers: Layers, id: nat, after: Layers, i: nat, upper: seq<Table>, lower: seq<Table>,
                  lo: Key, hi: Key, ids: set<nat>, m: Table)
    requires LayersOk(layers, id) && DisjointLayers(layers) && OlderDown(layers)
    requires Step(layers, after, i, upper, lower, lo, hi, ids, m)
    ensures OlderDown(after)
  {
    forall k: nat, j: nat, a, b | j < k < |after| && a in after[j] && b in after[k] ensures VersionsBelow(b, a) {
      RewrittenAt(layers, after, ids, m, i + 1, j, a);
      RewrittenAt(layers, after, ids, m, i + 1, k, b);
      if b == m && k == i + 1 {
        StepOlderAbove(layers, id, after, i, upper, lower, lo, hi, ids, m, j, a);
      } else if a == m && j == i + 1 {
        StepOlderBelow(layers, id, after, i, upper, lower, lo, hi, ids, m, k, b);
      }
    }
  }

  lemma StepShape(layers: Layers, id: nat, after: Layers, i: nat, upper: seq<Table>, lower: seq<Table>,
                  lo: Key, hi: Key, ids: set<nat>, m: Table)
    requires LayersOk(layers, id) && DisjointLayers(layers) && OlderDown(layers)
    requires Step(layers, after, i, upper, lower, lo, hi, ids, m)
    ensures DisjointLayers(after) && OlderDown(after)
  {
    StepDisjoint(layers, id, after, i, upper, lower, lo, hi, ids, m);
    StepOlder(layers, id, after, i, upper, lower, lo, hi, ids, m);
  }

  // ------------------------------------------------------------------ the last layer

  lemma LastLayerOldestVersions(layers: Layers, id: nat, i: nat)
    requires LayersOk(layers, id) && OlderDown(layers) && i + 1 == |layers|
    ensures VersionsOldest(AllTables(layers), AsSet(layers[i]))
  {
    var all, inputs := AllTables(layers), AsSet(layers[i]);
    assert inputs <= all;
    forall x, y | HasRecord(all - inputs, x) && HasRecord(inputs, y) && y.key == x.key ensures y.seqId < x.seqId {
      var t :| t in all - inputs && x in t.records;
      var j, q :| 0 <= j < |layers| && 0 <= q < |layers[j]| && layers[j][q] == t;
      var b :| b in inputs && y in b.records;
      assert j != i && t in layers[j] && b in layers[i];
      assert VersionsBelow(b, t);
    }
  }

  lemma LastLayerInv(layers: Layers, i: nat, m: Table)
    requires DisjointLayers(layers) && OlderDown(layers) && i + 1 == |layers|
    requires MergeOf(m, AsSet(layers[i]), true)
    ensures DisjointLayers(layers[i := [m]]) && OlderDown(layers[i := [m]])
  {
    forall j, a | 0 <= j < i && a in layers[j] ensures VersionsBelow(m, a) {
      forall x, y | x in m.records && y in a.records && x.key == y.key ensures x.seqId < y.seqId {
        var b :| b in AsSet(layers[i]) && x in b.records;
        assert VersionsBelow(b, a);
      }
    }
  }

  // ------------------------------------------------------------------ compaction

  lemma ReadersIn(layers: Layers, id: nat, j: nat, tables: seq<Table>)
    requires LayersOk(layers, id) && j < |layers| && forall t :: t in tables ==> t in layers[j]
    ensures forall p :: 0 <= p < |tables| ==> tables[p] in AllTables(layers)
  {
    forall p | 0 <= p < |tables| ensures tables[p] in AllTables(layers) {
      assert tables[p] in tables;
      Members(layers, id, j, tables[p]);
    }
  }

  lemma MergeComesFrom(m: Table, upper: seq<Table>, lower: seq<Table>)
    requires MergeOf(m, AsSet(lower + upper), false)
    ensures ComesFrom(m, upper, lower)
  {
    forall r | r in m.records ensures exists t :: (t in upper || t in lower) && r in t.records {
      var t :| t in AsSet(lower + upper) && r in t.records;
      assert t in lower + upper;
    }
  }

  lemma IdsOf(upper: seq<Table>, lower: seq<Table>)
    ensures forall t :: t in upper || t in lower ==> t.id in Ids(lower + upper)
  {
    forall t | t in upper || t in lower ensures t.id in Ids(lower + upper) {
      assert t in lower + upper;
      var p :| 0 <= p < |lower + upper| && (lower + upper)[p] == t;
    }
  }

  lemma MergeIsStep(layers: Layers, i: nat, upper: seq<Table>, lower: seq<Table>, lo: Key, hi: Key, m: Table)
    requires StepInputs(layers, i, upper, lower, lo, hi)
    requires MergeOf(m, AsSet(lower + upper), false) && m.id !in Ids(lower + upper) && m.WellFormed()
    ensures Step(layers, Purge(Append(layers, i + 1, m), Ids(lower + upper)), i, upper, lower, lo, hi,
                 Ids(lower + upper), m)
  {
    MergeRewrites(layers, Ids(lower + upper), m, i + 1);
    MergeComesFrom(m, upper, lower);
    IdsOf(upper, lower);
  }

  lemma NewId(layers: Layers, id: nat, tables: seq<Table>)
    requires LayersOk(layers, id) && forall p :: 0 <= p < |tables| ==> tables[p] in AllTables(layers)
    ensures id !in Ids(tables) && AsSet(tables) <= AllTables(layers)
  {
  }

  lemma MergeStepView(all: set<Table>, inputs: set<Table>, m: Table, history: set<Table>, now: int)
    requires inputs <= all && MergeOf(m, inputs, false) && Sourced(all, history, now)
    ensures KeepsView(all, Replaced(all, inputs, m)) && Sourced(Replaced(all, inputs, m), history, now)
  {
    MergePreservesView(all, inputs, m);
    MergedWithin(all, inputs, m, false);
  }

  /** Merging the inputs of a step into the next layer keeps the invariant. */
  lemma MergeStepInv(layers: Layers, id: nat, i: nat, upper: seq<Table>, lower: seq<Table>, lo: Key, hi: Key,
                     m: Table, after: Layers, maxHeight: nat, history: set<Table>, now: int)
    requires LayersOk(layers, id) && Inv(layers, maxHeight, history, now) && i + 1 < maxHeight
    requires StepInputs(layers, i, upper, lower, lo, hi)
    requires forall p :: 0 <= p < |lower + upper| ==> (lower + upper)[p] in AllTables(layers)
    requires MergeOf(m, AsSet(lower + upper), false) && m.id == id && m.WellFormed()
    requires after == Purge(Append(layers, i + 1, m), Ids(lower + upper))
    requires AllTables(after) == Replaced(AllTables(layers), AsSet(lower + upper), m)
    ensures Inv(after, maxHeight, history, now) && KeepsView(AllTables(layers), AllTables(after))
  {
    NewId(layers, id, lower + upper);
    MergeIsStep(layers, i, upper, lower, lo, hi, m);
    StepShape(layers, id, after, i, upper, lower, lo, hi, Ids(lower + upper), m);
    MergeStepView(AllTables(layers), AsSet(lower + upper), m, history, now);
  }

  lemma MoveIsStep(layers: Layers, i: nat, t: Table, m: Table, upper: seq<Table>, lower: seq<Table>)
    requires upper == [t] && lower == [] && m == t.(layer := i + 1)
    requires StepInputs(layers, i, upper, lower, t.MinKey(), t.MaxKey())
    ensures Step(layers, Append(Purge(layers, {t.id}), i + 1, m), i, upper, lower, t.MinKey(), t.MaxKey(), {t.id}, m)
  {
    MovedComesFrom(layers, i, t, m, upper, lower);
    MoveRewrites(layers, t.id, m, i + 1);
  }

  lemma MovedComesFrom(layers: Layers, i: nat, t: Table, m: Table, upper: seq<Table>, lower: seq<Table>)
    requires upper == [t] && lower == [] && m == t.(layer := i + 1)
    requires StepInputs(layers, i, upper, lower, t.MinKey(), t.MaxKey())
    ensures ComesFrom(m, upper, lower) && m.WellFormed()
  {
    assert t in upper;
    assert m.WellFormed();
  }

  /** Moving a table that overlaps nothing in the next layer keeps the invariant. */
  lemma MoveStepInv(layers: Layers, id: nat, i: nat, t: Table, m: Table, upper: seq<Table>, lower: seq<Table>,
                    after: Layers, maxHeight: nat, history: set<Table>, now: int)
    requires LayersOk(layers, id) && Inv(layers, maxHeight, history, now) && i + 1 < maxHeight
    requires upper == [t] && lower == [] && m == t.(layer := i + 1) && t in AllTables(layers)
    requires StepInputs(layers, i, upper, lower, t.MinKey(), t.MaxKey())
    requires after == Append(Purge(layers, {t.id}), i + 1, m)
    requires AllTables(after) == AllTables(layers) - {t} + {m}
    requires SameView(AllTables(layers), AllTables(after))
    ensures Inv(after, maxHeight, history, now) && |after| > i && KeepsView(AllTables(layers), AllTables(after))
  {
    MoveIsStep(layers, i, t, m, upper, lower);
    StepShape(layers, id, after, i, upper, lower, t.MinKey(), t.MaxKey(), {t.id}, m);
    MovedWithin(AllTables(layers), t, m);
    WithinSourced(AllTables(after), AllTables(layers), history, now);
  }

  lemma NotExpiredIn(all: set<Table>, some: set<Table>, now: int)
    requires NoneExpired(all, now) && some <= all
    ensures NoneExpired(some, now)
  {
    forall r | HasRecord(some, r) ensures HasRecord(all, r) {
    }
  }

  // ------------------------------------------------------------------ what a compaction does to the layers, said in full

  ghost predicate Newer(m: Table, layers: Layers) { forall t :: t in AllTables(layers) ==> t.id < m.id }

  /** A merge: nothing happens, with or without an error, if nothing is kept; or else the new table is in and the inputs are out. */
  ghost predicate Merges(layers: Layers, after: Layers, readers: seq<Table>, to: nat, skip: bool, ok: bool) {
    || (after == layers && NothingKept(AsSet(readers), skip) && (ok ==> skip || readers == []))
    || (ok && exists m :: MergeInto(layers, after, readers, to, skip, m))
  }

  ghost predicate MergeInto(layers: Layers, after: Layers, readers: seq<Table>, to: nat, skip: bool, m: Table) {
    && MergeOf(m, AsSet(readers), skip) && m.layer == to && m.WellFormed() && Newer(m, layers)
    && after == Purge(Append(layers, to, m), Ids(readers))
  }

  /** The tables of the next layer that meet the range of `upper`. */
  ghost predicate LowerFor(lower: seq<Table>, layer: seq<Table>, upper: seq<Table>) {
    exists lo, hi :: RangeOf(upper, lo, hi) && Meets(lower, layer, lo, hi)
  }

  /** From layer `i` to the next: all of layer zero, or the first table of a deeper one, which just moves if it meets nothing. */
  ghost predicate Sinks(layers: Layers, after: Layers, i: nat, ok: bool)
    requires i < |layers| && |layers[i]| > 0
  {
    var g := Grow(layers, i + 1);
    SinksFrom(g, after, i, if i == 0 then g[0] else [g[i][0]], ok)
  }

  ghost predicate SinksFrom(g: Layers, after: Layers, i: nat, upper: seq<Table>, ok: bool)
    requires i + 1 < |g| && |upper| > 0
  {
    exists lower :: SinksWith(g, after, i, upper, lower, ok)
  }

  ghost predicate SinksWith(g: Layers, after: Layers, i: nat, upper: seq<Table>, lower: seq<Table>, ok: bool)
    requires i + 1 < |g| && |upper| > 0
  {
    && LowerFor(lower, g[i + 1], upper)
    && if i > 0 && lower == [] then ok && after == Append(Purge(g, {upper[0].id}), i + 1, upper[0].(layer := i + 1))
       else Merges(g, after, lower + upper, i + 1, false, ok)
  }

  /** One round of the loop, at layer `i`; `stop` if it is the last one. */
  ghost predicate Round(layers: Layers, after: Layers, i: nat, maxHeight: nat, oversized: bool, stop: bool)
    requires i < |layers|
  {
    if i == 0 then
      if |layers[0]| < 4 then after == layers && !stop
      else if maxHeight <= 1 then stop && exists ok :: Merges(layers, after, layers[0], 0, true, ok)
      else Sinks(layers, after, 0, !stop)
    else if !oversized then after == layers && !stop
    else if i == maxHeight - 1 then
      if |layers[i]| > 1 then stop && exists ok :: Merges(layers, after, layers[i], i, true, ok)
      else after == layers && !stop
    else if |layers[i]| == 0 then after == layers && !stop
    else Sinks(layers, after, i, !stop)
  }

  /** The rounds from layer `i` on. */
  ghost predicate Rounds(layers: Layers, after: Layers, i: nat, maxHeight: nat, oversized: nat -> bool)
    decreases maxHeight - i
  {
    if i >= |layers| || i >= maxHeight then after == layers
    else exists next, stop :: Round(layers, next, i, maxHeight, oversized(i), stop)
                              && if stop then after == next else Rounds(next, after, i + 1, maxHeight, oversized)
  }

  /** No layer calls for a round: fewer than four tables in layer zero, and below it nothing oversized that could move or merge. */
  ghost predicate Still(layers: Layers, maxHeight: nat, oversized: nat -> bool) {
    && (|layers| > 0 ==> |layers[0]| < 4)
    && forall i :: 0 < i < |layers| ==> !oversized(i) || |layers[i]| == 0 || (i == maxHeight - 1 && |layers[i]| == 1)
  }

  lemma StillRound(layers: Layers, after: Layers, i: nat, maxHeight: nat, oversized: nat -> bool, stop: bool)
    requires i < |layers| && Still(layers, maxHeight, oversized) && Round(layers, after, i, maxHeight, oversized(i), stop)
    ensures after == layers && !stop
  {
  }

  // ------------------------------------------------------------------ the methods

  /** Merge tables of one layer with the overlapping tables of the next. */
  method MergeDown(manager: Manager, i: nat, upper: seq<Table>, lower: seq<Table>, ghost lo: Key, ghost hi: Key,
                   ghost maxHeight: nat, ghost history: set<Table>, now: int) returns (ok: bool)
    requires manager.Valid() && Inv(manager.layers, maxHeight, history, now)
    requires i + 1 < |manager.layers| && StepInputs(manager.layers, i, upper, lower, lo, hi)
    requires |upper| > 0 && LowerFor(lower, manager.layers[i + 1], upper) && (i == 0 || lower != [])
    modifies manager
    ensures manager.Valid() && Inv(manager.layers, maxHeight, history, now) && |manager.layers| > i
    ensures KeepsView(AllTables(old(manager.layers)), AllTables(manager.layers))
    ensures SinksFrom(old(manager.layers), manager.layers, i, upper, ok)
  {
    ghost var before, id := manager.layers, manager.nextId;
    ReadersIn(manager.layers, manager.nextId, i, upper);
    ReadersIn(manager.layers, manager.nextId, i + 1, lower);
    var toMerge := lower + upper;
    NotExpiredIn(AllTables(manager.layers), AsSet(toMerge), now);
    var merged;
    ghost var m;
    ok, merged, m := manager.MergeSSTables(toMerge, i + 1, false, now);
    if merged {
      MergeStepInv(before, id, i, upper, lower, lo, hi, m, manager.layers, maxHeight, history, now);
      NewestId(before, id, m);
      assert MergeInto(before, manager.layers, toMerge, i + 1, false, m);
    }
    MergedSinks(before, manager.layers, i, upper, lower, ok);
  }

  lemma NewestId(layers: Layers, id: nat, m: Table)
    requires LayersOk(layers, id) && m.id == id
    ensures Newer(m, layers)
  {
  }

  /** A merge of the last layer: all tables there were, those of that layer, and what they became. */
  datatype Drop = Drop(all: set<Table>, last: set<Table>, m: Table)

  /** What such a merge makes of the store. */
  ghost predicate Follows(d: Drop, after: set<Table>) {
    && d.last <= d.all && MergeOf(d.m, d.last, true) && VersionsOldest(d.all, d.last)
    && after == Replaced(d.all, d.last, d.m)
  }

  /** It is seen if and only if it uncovers a record. */
  lemma DropSeenExactly(d: Drop, after: set<Table>)
    requires Follows(d, after)
    ensures SameView(d.all, after) <==> NothingUncovered(d.all, d.last)
    ensures Within(after, d.all)
    ensures forall r :: Visible(after, r) <==> Visible(d.all, r) || Uncovered(d.all, d.last, r)
  {
    DroppingExactly(d.all, d.last, d.m);
    MergedWithin(d.all, d.last, d.m, true);
    forall r ensures Visible(after, r) <==> Visible(d.all, r) || Uncovered(d.all, d.last, r) {
      if Visible(d.all, r) {
        DroppedStaysVisible(d.all, d.last, d.m, r);
      }
      if Uncovered(d.all, d.last, r) {
        UncoveredShows(d.all, d.last, d.m, r);
      }
      if Visible(after, r) {
        DroppedRevives(d.all, d.last, d.m, r);
      }
    }
  }

  /** Merge the whole last layer in place, dropping tombstones. */
  method MergeLast(manager: Manager, i: nat, ghost maxHeight: nat, ghost history: set<Table>, now: int)
    returns (ok: bool, ghost drop: Option<Drop>)
    requires manager.Valid() && Inv(manager.layers, maxHeight, history, now)
    requires i + 1 == |manager.layers| == maxHeight
    modifies manager
    ensures manager.Valid() && Inv(manager.layers, maxHeight, history, now)
    ensures Compacted(AllTables(old(manager.layers)), AllTables(manager.layers), drop)
    ensures Merges(old(manager.layers), manager.layers, old(manager.layers)[i], i, true, ok)
  {
    ghost var before, id := manager.layers, manager.nextId;
    var readers := manager.layers[i];
    ReadersIn(manager.layers, manager.nextId, i, readers);
    NotExpiredIn(AllTables(manager.layers), AsSet(readers), now);
    var merged;
    ghost var m;
    ok, merged, m := manager.MergeSSTables(readers, i, true, now);
    drop := None;
    if merged {
      LastStepInv(before, id, i, m, maxHeight, history, now);
      drop := Some(Drop(AllTables(before), AsSet(readers), m));
      NewestId(before, id, m);
      assert MergeInto(before, manager.layers, readers, i, true, m);
    }
  }

  /** A compaction keeps the view, up to the merge of the last layer if it comes to that. */
  ghost predicate Compacted(before: set<Table>, after: set<Table>, drop: Option<Drop>) {
    if drop.None? then KeepsView(before, after) else KeepsView(before, drop.value.all) && Follows(drop.value, after)
  }

  lemma KeepsViewTwice(a: set<Table>, b: set<Table>, c: set<Table>)
    requires KeepsView(a, b) && KeepsView(b, c)
    ensures KeepsView(a, c)
  {
  }

  /** What came before a merge of the last layer kept the view. */
  lemma CompactedAfter(start: set<Table>, before: set<Table>, after: set<Table>, drop: Option<Drop>)
    requires KeepsView(start, before) && Compacted(before, after, drop)
    ensures Compacted(start, after, drop)
  {
    KeepsViewTwice(start, before, if drop.None? then after else drop.value.all);
  }

  lemma LastStepInv(layers: Layers, id: nat, i: nat, m: Table, maxHeight: nat, history: set<Table>, now: int)
    requires LayersOk(layers, id) && Inv(layers, maxHeight, history, now) && i + 1 == |layers| == maxHeight
    requires MergeOf(m, AsSet(layers[i]), true) && m.id == id
    requires AllTables(Merged(layers, i, m, i)) == Replaced(AllTables(layers), AsSet(layers[i]), m)
    ensures Inv(Merged(layers, i, m, i), maxHeight, history, now)
    ensures Follows(Drop(AllTables(layers), AsSet(layers[i]), m), AllTables(Merged(layers, i, m, i)))
  {
    var all, inputs := AllTables(layers), AsSet(layers[i]);
    assert inputs <= all;
    LastLayerOldestVersions(layers, id, i);
    MergedWithin(all, inputs, m, true);
    WithinSourced(Replaced(all, inputs, m), all, history, now);
    MergedInPlace(layers, id, i, m);
    LastLayerInv(layers, i, m);
  }

  lemma GrowInv(layers: Layers, n: nat, maxHeight: nat, history: set<Table>, now: int)
    requires Inv(layers, maxHeight, history, now) && n < maxHeight
    requires AllTables(Grow(layers, n)) == AllTables(layers)
    ensures Inv(Grow(layers, n), maxHeight, history, now)
  {
  }

  /** Layer zero into layer one: all its tables, with every table they overlap. */
  method CompactL0(manager: Manager, maxHeight: nat, ghost history: set<Table>, now: int) returns (ok: bool)
    requires manager.Valid() && Inv(manager.layers, maxHeight, history, now)
    requires 1 < maxHeight && |manager.layers[0]| > 0
    modifies manager
    ensures manager.Valid() && Inv(manager.layers, maxHeight, history, now)
    ensures KeepsView(AllTables(old(manager.layers)), AllTables(manager.layers))
    ensures Sinks(old(manager.layers), manager.layers, 0, ok)
  {
    ghost var before := manager.layers;
    EnsureLayer(manager, 1, maxHeight, history, now);
    ghost var g := manager.layers;
    ok := MergeL0(manager, maxHeight, history, now);
    GrownSinks(before, g, manager.layers, 0, g[0], ok);
  }

  lemma GrownSinks(layers: Layers, g: Layers, after: Layers, i: nat, upper: seq<Table>, ok: bool)
    requires i < |layers| && |layers[i]| > 0 && g == Grow(layers, i + 1) && upper == (if i == 0 then g[0] else [g[i][0]])
    requires SinksFrom(g, after, i, upper, ok)
    ensures Sinks(layers, after, i, ok)
  {
  }

  method MergeL0(manager: Manager, ghost maxHeight: nat, ghost history: set<Table>, now: int) returns (ok: bool)
    requires manager.Valid() && Inv(manager.layers, maxHeight, history, now)
    requires 1 < |manager.layers| && |manager.layers[0]| > 0
    modifies manager
    ensures manager.Valid() && Inv(manager.layers, maxHeight, history, now)
    ensures KeepsView(AllTables(old(manager.layers)), AllTables(manager.layers))
    ensures SinksFrom(old(manager.layers), manager.layers, 0, old(manager.layers)[0], ok)
  {
    var upper := manager.layers[0];
    var lower, lo, hi := BelowL0(upper, manager.layers[1], manager.layers, manager.nextId);
    ok := MergeDown(manager, 0, upper, lower, lo, hi, maxHeight, history, now);
  }

  /** The tables of layer one that the range of layer zero overlaps. */
  method BelowL0(upper: seq<Table>, below: seq<Table>, ghost layers: Layers, ghost id: nat) returns (lower: seq<Table>, lo: Key, hi: Key)
    requires LayersOk(layers, id) && 1 < |layers| && upper == layers[0] && |upper| > 0 && below == layers[1]
    ensures StepInputs(layers, 0, upper, lower, lo, hi) && LowerFor(lower, below, upper)
  {
    lo, hi := L0Range(upper);
    lower := OverlappingInLayer(lo, hi, below);
    L0Inputs(layers, id, upper, lower, lo, hi);
  }

  lemma MergedSinks(g: Layers, after: Layers, i: nat, upper: seq<Table>, lower: seq<Table>, ok: bool)
    requires i + 1 < |g| && |upper| > 0 && LowerFor(lower, g[i + 1], upper) && (i == 0 || lower != [])
    requires Merges(g, after, lower + upper, i + 1, false, ok)
    ensures SinksFrom(g, after, i, upper, ok)
  {
    assert SinksWith(g, after, i, upper, lower, ok);
  }

  /** Appending empty layers up to layer `n`. */
  method EnsureLayer(manager: Manager, n: nat, ghost maxHeight: nat, ghost history: set<Table>, ghost now: int)
    requires manager.Valid() && Inv(manager.layers, maxHeight, history, now) && n < maxHeight
    modifies manager
    ensures manager.Valid() && Inv(manager.layers, maxHeight, history, now) && n < |manager.layers|
    ensures AllTables(manager.layers) == AllTables(old(manager.layers)) && manager.layers == Grow(old(manager.layers), n)
  {
    ghost var before := manager.layers;
    manager.EnsureLayer(n);
    GrowInv(before, n, maxHeight, history, now);
  }

  lemma StepInputsOf(layers: Layers, id: nat, i: nat, upper: seq<Table>, lower: seq<Table>, lo: Key, hi: Key)
    requires LayersOk(layers, id) && i + 1 < |layers|
    requires RangeOf(upper, lo, hi) && Meets(lower, layers[i + 1], lo, hi)
    requires (forall t :: t in upper ==> t in layers[i]) && (i == 0 ==> upper == layers[0])
    ensures StepInputs(layers, i, upper, lower, lo, hi) && LowerFor(lower, layers[i + 1], upper)
  {
    forall t | t in upper ensures t.WellFormed() {
      Members(layers, id, i, t);
    }
    forall t | t in layers[i + 1] ensures t.WellFormed() {
      Members(layers, id, i + 1, t);
    }
  }

  lemma L0Inputs(layers: Layers, id: nat, upper: seq<Table>, lower: seq<Table>, lo: Key, hi: Key)
    requires LayersOk(layers, id) && 1 < |layers| && upper == layers[0]
    requires RangeOf(upper, lo, hi) && Meets(lower, layers[1], lo, hi)
    ensures StepInputs(layers, 0, upper, lower, lo, hi) && LowerFor(lower, layers[1], upper)
  {
    StepInputsOf(layers, id, 0, upper, lower, lo, hi);
  }

  method MoveDown(manager: Manager, i: nat, picked: Table, ghost upper: seq<Table>, ghost lower: seq<Table>,
                  ghost maxHeight: nat, ghost history: set<Table>, now: int)
    requires manager.Valid() && Inv(manager.layers, maxHeight, history, now) && i + 1 < maxHeight
    requires upper == [picked] && lower == [] && picked in AllTables(manager.layers)
    requires StepInputs(manager.layers, i, upper, lower, picked.MinKey(), picked.MaxKey())
    modifies manager
    ensures manager.Valid() && Inv(manager.layers, maxHeight, history, now) && |manager.layers| > i
    ensures KeepsView(AllTables(old(manager.layers)), AllTables(manager.layers))
    ensures manager.layers == Append(Purge(old(manager.layers), {picked.id}), i + 1, picked.(layer := i + 1))
  {
    ghost var before, id := manager.layers, manager.nextId;
    ghost var moved := manager.MoveSSTable(picked, i + 1);
    MoveStepInv(before, id, i, picked, moved, upper, lower, manager.layers, maxHeight, history, now);
  }

  /** One table of layer `i`, moved down if it overlaps nothing there, merged down otherwise. */
  method PickDown(manager: Manager, i: nat, ghost maxHeight: nat, ghost history: set<Table>, now: int) returns (ok: bool)
    requires manager.Valid() && Inv(manager.layers, maxHeight, history, now)
    requires 1 <= i && i + 1 < |manager.layers| && |manager.layers[i]| > 0
    modifies manager
    ensures manager.Valid() && Inv(manager.layers, maxHeight, history, now) && |manager.layers| > i
    ensures KeepsView(AllTables(old(manager.layers)), AllTables(manager.layers))
    ensures SinksFrom(old(manager.layers), manager.layers, i, [old(manager.layers)[i][0]], ok)
  {
    ghost var before := manager.layers;
    var picked := manager.layers[i][0];
    var upper := [picked];
    var lower := OverlappingInLayer(picked.MinKey(), picked.MaxKey(), manager.layers[i + 1]);
    OneInRange(picked);
    StepInputsOf(manager.layers, manager.nextId, i, upper, lower, picked.MinKey(), picked.MaxKey());
    if |lower| == 0 {
      MoveDown(manager, i, picked, upper, lower, maxHeight, history, now);
      ok := true;
      assert SinksWith(before, manager.layers, i, upper, lower, ok);
    } else {
      ok := MergeDown(manager, i, upper, lower, picked.MinKey(), picked.MaxKey(), maxHeight, history, now);
    }
  }

  lemma OneInRange(t: Table)
    ensures RangeOf([t], t.MinKey(), t.MaxKey())
  {
    assert t in [t];
  }

  method CompactDown(manager: Manager, i: nat, maxHeight: nat, ghost history: set<Table>, now: int) returns (ok: bool)
    requires manager.Valid() && Inv(manager.layers, maxHeight, history, now)
    requires 1 <= i < |manager.layers| && i + 1 < maxHeight && |manager.layers[i]| > 0
    modifies manager
    ensures manager.Valid() && Inv(manager.layers, maxHeight, history, now) && |manager.layers| > i
    ensures KeepsView(AllTables(old(manager.layers)), AllTables(manager.layers))
    ensures Sinks(old(manager.layers), manager.layers, i, ok)
  {
    ghost var before := manager.layers;
    EnsureLayer(manager, i + 1, maxHeight, history, now);
    ghost var g := manager.layers;
    ok := PickDown(manager, i, maxHeight, history, now);
    GrownSinks(before, g, manager.layers, i, [g[i][0]], ok);
  }

  /** One round of the loop of `Compact`; `stop` if it returns. */
  method CompactLayer(manager: Manager, i: nat, maxHeight: nat, oversized: bool, ghost history: set<Table>, now: int)
    returns (ok: bool, stop: bool, ghost drop: Option<Drop>)
    requires maxHeight > 0 && manager.Valid() && Inv(manager.layers, maxHeight, history, now) && i < |manager.layers|
    modifies manager
    ensures manager.Valid() && Inv(manager.layers, maxHeight, history, now) && (drop.Some? ==> stop) && (!stop ==> ok)
    ensures Compacted(AllTables(old(manager.layers)), AllTables(manager.layers), drop)
    ensures Round(old(manager.layers), manager.layers, i, maxHeight, oversized, stop)
  {
    ok, stop, drop := true, false, None;
    if i == 0 {
      if |manager.layers[0]| >= 4 {
        if 1 >= maxHeight {
          ok, drop := MergeLast(manager, 0, maxHeight, history, now);
          stop := true;
        } else {
          ok := CompactL0(manager, maxHeight, history, now);
          stop := !ok;
        }
      }
    } else if oversized {
      if i == maxHeight - 1 {
        if |manager.layers[i]| > 1 {
          ok, drop := MergeLast(manager, i, maxHeight, history, now);
          stop := true;
        }
      } else if |manager.layers[i]| > 0 {
        ok := CompactDown(manager, i, maxHeight, history, now);
        stop := !ok;
      }
    }
  }

  /** `Compact`: which layers below the first count as oversized is left open. */
  method Compact(manager: Manager, maxHeight: nat, oversized: nat -> bool, ghost history: set<Table>, now: int)
    returns (ok: bool, ghost drop: Option<Drop>)
    requires maxHeight > 0 && manager.Valid() && Inv(manager.layers, maxHeight, history, now)
    modifies manager
    ensures manager.Valid() && Inv(manager.layers, maxHeight, history, now)
    ensures Compacted(AllTables(old(manager.layers)), AllTables(manager.layers), drop)
    ensures Rounds(old(manager.layers), manager.layers, 0, maxHeight, oversized)
    ensures Still(old(manager.layers), maxHeight, oversized) ==> ok && manager.layers == old(manager.layers)
  {
    ghost var start := manager.layers;
    ok, drop := true, None;
    var i, stop := 0, false;
    while i < |manager.layers| && !stop
      invariant manager.Valid() && Inv(manager.layers, maxHeight, history, now)
      invariant Compacted(AllTables(start), AllTables(manager.layers), drop) && (!stop ==> drop == None)
      invariant stop ==> Rounds(start, manager.layers, 0, maxHeight, oversized)
      invariant !stop ==> ok && GoesOn(start, manager.layers, i, maxHeight, oversized)
      invariant Still(start, maxHeight, oversized) ==> manager.layers == start && !stop
      decreases !stop, maxHeight - i
    {
      ghost var before := manager.layers;
      ok, stop, drop := CompactLayer(manager, i, maxHeight, oversized(i), history, now);
      CompactedAfter(AllTables(start), AllTables(before), AllTables(manager.layers), drop);
      RoundGoesOn(start, before, manager.layers, i, maxHeight, oversized, stop);
      if Still(start, maxHeight, oversized) {
        StillRound(before, manager.layers, i, maxHeight, oversized, stop);
      }
      i := i + 1;
    }
    if !stop {
      NoRoundLeft(start, manager.layers, i, maxHeight, oversized);
    }
  }

  /** Whatever the rounds from layer `i` on make of `layers`, all rounds make of `start`. */
  ghost predicate GoesOn(start: Layers, layers: Layers, i: nat, maxHeight: nat, oversized: nat -> bool) {
    forall after :: Rounds(layers, after, i, maxHeight, oversized) ==> Rounds(start, after, 0, maxHeight, oversized)
  }

  lemma NoRoundLeft(start: Layers, layers: Layers, i: nat, maxHeight: nat, oversized: nat -> bool)
    requires GoesOn(start, layers, i, maxHeight, oversized) && i >= |layers|
    ensures Rounds(start, layers, 0, maxHeight, oversized)
  {
    assert Rounds(layers, layers, i, maxHeight, oversized);
  }

  lemma RoundFirst(layers: Layers, next: Layers, i: nat, maxHeight: nat, oversized: nat -> bool, stop: bool)
    requires i < |layers| <= maxHeight && Round(layers, next, i, maxHeight, oversized(i), stop)
    ensures stop ==> Rounds(layers, next, i, maxHeight, oversized)
    ensures !stop ==> forall after :: Rounds(next, after, i + 1, maxHeight, oversized) ==> Rounds(layers, after, i, maxHeight, oversized)
  {
  }

  lemma RoundGoesOn(start: Layers, layers: Layers, next: Layers, i: nat, maxHeight: nat, oversized: nat -> bool, stop: bool)
    requires i < |layers| <= maxHeight && Round(layers, next, i, maxHeight, oversized(i), stop)
    requires GoesOn(start, layers, i, maxHeight, oversized)
    ensures stop ==> Rounds(start, next, 0, maxHeight, oversized)
    ensures !stop ==> GoesOn(start, next, i + 1, maxHeight, oversized)
  {
    RoundFirst(layers, next, i, maxHeight, oversized, stop);
  }
}
