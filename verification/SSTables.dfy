/**
 `SSTableManager` (internal/sstable/manager.go): flushing, reading, merging and moving tables.
 */
module SSTables {
  import opened Keys
  import opened Records
  import opened RangeTombstones
  import opened KWayMerge
  import opened Tables
  import opened MergeLoop
  import opened MergeStructures

  type Layers = seq<seq<Table>>

  ghost function AllTables(layers: Layers): (all: set<Table>) {
    set i, p | 0 <= i < |layers| && 0 <= p < |layers[i]| :: layers[i][p]
  }

  /** Every table is well formed, knows its layer, and has an identifier of its own below `nextId`. */
  ghost predicate LayersOk(layers: Layers, nextId: nat) {
    && (forall i, p :: 0 <= i < |layers| && 0 <= p < |layers[i]| ==>
          layers[i][p].WellFormed() && layers[i][p].layer == i && layers[i][p].id < nextId)
    && (forall i, p, j, q ::
          0 <= i < |layers| && 0 <= p < |layers[i]| && 0 <= j < |layers| && 0 <= q < |layers[j]| &&
          layers[i][p].id == layers[j][q].id ==>
            i == j && p == q)
  }

  /** The tables of one layer whose identifiers are not in `ids`, in order. */
  ghost function Without(tables: seq<Table>, ids: set<nat>): (rest: seq<Table>) {
    if |tables| == 0 then []
    else
      var n := |tables| - 1;
      Without(tables[..n], ids) + (if tables[n].id in ids then [] else [tables[n]])
  }

  ghost function Purge(layers: Layers, ids: set<nat>): (rest: Layers)
    ensures |rest| == |layers| && forall i :: 0 <= i < |layers| ==> rest[i] == Without(layers[i], ids)
  {
    seq(|layers|, i requires 0 <= i < |layers| => Without(layers[i], ids))
  }

  /** `addToLayers`: create missing layers, then append. */
  function Grow(layers: Layers, toLayer: nat): (grown: Layers)
    ensures |grown| > toLayer && |grown| >= |layers|
    ensures forall i :: 0 <= i < |grown| ==> grown[i] == if i < |layers| then layers[i] else []
  {
    if |layers| > toLayer then layers else layers + seq(toLayer + 1 - |layers|, _ => [])
  }

  function Append(layers: Layers, toLayer: nat, t: Table): (added: Layers) {
    var grown := Grow(layers, toLayer);
    grown[toLayer := grown[toLayer] + [t]]
  }

  /** Missing layers are created empty, the table comes last in its layer, and nothing else changes. */
  lemma AppendsLast(layers: Layers, toLayer: nat, t: Table)
    ensures |Append(layers, toLayer, t)| == if toLayer < |layers| then |layers| else toLayer + 1
    ensures forall i :: 0 <= i < |Append(layers, toLayer, t)| ==>
              Append(layers, toLayer, t)[i] == (if i < |layers| then layers[i] else []) + (if i == toLayer then [t] else [])
  {
    var added := Append(layers, toLayer, t);
    forall i | 0 <= i < |added| ensures added[i] == (if i < |layers| then layers[i] else []) + (if i == toLayer then [t] else []) {
      var kept := if i < |layers| then layers[i] else [];
      assert kept + [] == kept;
    }
  }

  ghost function Ids(tables: seq<Table>): (ids: set<nat>) {
    set p | 0 <= p < |tables| :: tables[p].id
  }

  ghost function AsSet(tables: seq<Table>): (s: set<Table>) {
    set p | 0 <= p < |tables| :: tables[p]
  }

  // ------------------------------------------------------------------ lemmas on layers

  lemma {:induction false} InWithout(tables: seq<Table>, ids: set<nat>, t: Table)
    ensures t in Without(tables, ids) <==> t in tables && t.id !in ids
  {
    if |tables| > 0 {
      var n := |tables| - 1;
      InWithout(tables[..n], ids, t);
      assert tables == tables[..n] + [tables[n]];
    }
  }

  lemma {:induction false} WithoutNone(tables: seq<Table>, ids: set<nat>)
    requires forall t :: t in tables ==> t.id !in ids
    ensures Without(tables, ids) == tables
  {
    if |tables| > 0 {
      var n := |tables| - 1;
      WithoutNone(tables[..n], ids);
      assert tables == tables[..n] + [tables[n]];
    }
  }

  lemma {:induction false} WithoutAll(tables: seq<Table>, ids: set<nat>)
    requires forall t :: t in tables ==> t.id in ids
    ensures Without(tables, ids) == []
  {
    if |tables| > 0 {
      var n := |tables| - 1;
      WithoutAll(tables[..n], ids);
      assert tables[n] in tables;
    }
  }

  lemma WithoutPush(tables: seq<Table>, t: Table, ids: set<nat>)
    requires t.id !in ids
    ensures Without(tables + [t], ids) == Without(tables, ids) + [t]
  {
    assert (tables + [t])[..|tables|] == tables;
  }

  /** Removing in two rounds is removing the union. */
  lemma {:induction false} WithoutTwice(tables: seq<Table>, a: set<nat>, b: set<nat>)
    ensures Without(Without(tables, a), b) == Without(tables, a + b)
  {
    if |tables| > 0 {
      var n := |tables| - 1;
      var t := tables[n];
      WithoutTwice(tables[..n], a, b);
      var w := Without(tables[..n], a);
      if t.id in a {
        assert Without(tables, a) == w;
      } else {
        assert Without(tables, a) == w + [t];
        assert (w + [t])[..|w|] == w;
      }
    }
  }

  /** Removing an identifier is removing the one position that has it. */
  lemma {:induction false} WithoutOne(tables: seq<Table>, p: nat)
    requires p < |tables|
    requires forall q :: 0 <= q < |tables| && q != p ==> tables[q].id != tables[p].id
    ensures Without(tables, {tables[p].id}) == tables[..p] + tables[p + 1..]
  {
    var n := |tables| - 1;
    if p == n {
      WithoutNone(tables[..n], {tables[p].id});
    } else {
      WithoutOne(tables[..n], p);
      assert tables[..n][..p] == tables[..p];
      assert tables[p + 1..] == tables[..n][p + 1..] + [tables[n]];
    }
  }

  /** Each position of what is left comes from a position of the original, in order. */
  lemma {:induction false} WithoutOrder(tables: seq<Table>, ids: set<nat>, p: nat, q: nat) returns (p': nat, q': nat)
    requires p < q < |Without(tables, ids)|
    ensures p' < q' < |tables| && tables[p'] == Without(tables, ids)[p] && tables[q'] == Without(tables, ids)[q]
  {
    var n := |tables| - 1;
    var w := Without(tables[..n], ids);
    if q < |w| {
      p', q' := WithoutOrder(tables[..n], ids, p, q);
    } else {
      q' := n;
      InWithout(tables[..n], ids, w[p]);
      p' :| 0 <= p' < n && tables[..n][p'] == w[p];
    }
  }

  lemma AllTablesPurge(layers: Layers, ids: set<nat>, t: Table)
    ensures t in AllTables(Purge(layers, ids)) <==> t in AllTables(layers) && t.id !in ids
  {
    var purged := Purge(layers, ids);
    if t in AllTables(purged) {
      var i, p :| 0 <= i < |purged| && 0 <= p < |purged[i]| && purged[i][p] == t;
      InWithout(layers[i], ids, t);
      var q :| 0 <= q < |layers[i]| && layers[i][q] == t;
    }
    if t in AllTables(layers) && t.id !in ids {
      var i, p :| 0 <= i < |layers| && 0 <= p < |layers[i]| && layers[i][p] == t;
      InWithout(layers[i], ids, t);
      assert t in purged[i];
      var q :| 0 <= q < |purged[i]| && purged[i][q] == t;
    }
  }

  lemma AllTablesAppend(layers: Layers, toLayer: nat, t: Table)
    ensures AllTables(Append(layers, toLayer, t)) == AllTables(layers) + {t}
  {
    var added := Append(layers, toLayer, t);
    forall x ensures x in AllTables(added) <==> x in AllTables(layers) || x == t {
      if x in AllTables(layers) {
        var i, p :| 0 <= i < |layers| && 0 <= p < |layers[i]| && layers[i][p] == x;
        assert added[i][p] == x;
      }
      if x == t {
        assert added[toLayer][|added[toLayer]| - 1] == t;
      }
      if x in AllTables(added) {
        var i, p :| 0 <= i < |added| && 0 <= p < |added[i]| && added[i][p] == x;
        if x != t {
          assert i < |layers| && layers[i][p] == x;
        }
      }
    }
  }

  /** Tables are told apart by identifier, so removing identifiers removes exactly those tables. */
  lemma SameId(layers: Layers, nextId: nat, a: Table, b: Table)
    requires LayersOk(layers, nextId) && a in AllTables(layers) && b in AllTables(layers) && a.id == b.id
    ensures a == b
  {
    var i, p :| 0 <= i < |layers| && 0 <= p < |layers[i]| && layers[i][p] == a;
    var j, q :| 0 <= j < |layers| && 0 <= q < |layers[j]| && layers[j][q] == b;
  }

  lemma AppendOk(layers: Layers, nextId: nat, toLayer: nat, t: Table)
    requires LayersOk(layers, nextId) && t.WellFormed() && t.layer == toLayer && t.id == nextId
    ensures LayersOk(Append(layers, toLayer, t), nextId + 1)
  {
    var added := Append(layers, toLayer, t);
    forall i, p | 0 <= i < |added| && 0 <= p < |added[i]|
      ensures (i < |layers| && p < |layers[i]| && added[i][p] == layers[i][p])
              || (i == toLayer && p == |added[i]| - 1 && added[i][p] == t)
    {
    }
  }

  lemma PurgeOk(layers: Layers, nextId: nat, ids: set<nat>)
    requires LayersOk(layers, nextId)
    ensures LayersOk(Purge(layers, ids), nextId)
  {
    var purged := Purge(layers, ids);
    forall i, p | 0 <= i < |purged| && 0 <= p < |purged[i]| ensures purged[i][p] in layers[i] {
      InWithout(layers[i], ids, purged[i][p]);
    }
    forall i, p, j, q | 0 <= i < |purged| && 0 <= p < |purged[i]| && 0 <= j < |purged| && 0 <= q < |purged[j]|
      && purged[i][p].id == purged[j][q].id
      ensures i == j && p == q
    {
      assert purged[i][p].layer == i && purged[j][q].layer == j;
      if p < q {
        var p', q' := WithoutOrder(layers[i], ids, p, q);
      } else if q < p {
        var p', q' := WithoutOrder(layers[i], ids, q, p);
      }
    }
  }
}
