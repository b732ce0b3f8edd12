/**
 The table manager as an object: `FlushToSSTable`, `Get`, `MergeSSTables`, `DeleteSSTables`
 and `MoveSSTable` (internal/sstable/manager.go), with the cached fragment list.
 */
module SSTableManager {
  import opened Keys
  import opened Options
  import opened Records
  import opened RangeTombstones
  import opened KWayMerge
  import opened Tables
  import opened MergeLoop
  import opened MergeStructures
  import opened SSTables

  /** The record `SSTableReader.Get` returns: present, and not hidden by the table's own tombstones. */
  ghost predicate TableHolds(t: Table, key: Key, r: Record) {
    r in t.records && r.key == key && !Covered(t.rangeDels, key, r.seqId)
  }

  /** `SSTableReader.Get` (internal/sstable/reader.go:355-418), with seeking as a scan. */
  method TableGet(t: Table, key: Key) returns (found: Option<Record>)
    requires t.WellFormed()
    ensures found.Some? ==> TableHolds(t, key, found.value)
    ensures forall r :: TableHolds(t, key, r) ==> found.Some? && r == found.value
  {
    if t.MinKey() > key || t.MaxKey() < key {
      return None;
    }
    var i := 0;
    while t.records[i].key < key
      invariant 0 <= i < |t.records|
      invariant forall j :: 0 <= j < i ==> t.records[j].key < key
      decreases |t.records| - i
    {
      i := i + 1;
    }
    var rec := t.records[i];
    if rec.key != key {
      return None;
    }
    var frags := FragmentRangeTombstones(t.rangeDels);
    var covered := IsCoveredByRangeTombstone(frags, key, rec.seqId);
    if covered {
      return None;
    }
    return Some(rec);
  }

  /** Among the tables seen so far, `best` is the newest record some table returns for the key. */
  ghost predicate BestOf(seen: set<Table>, key: Key, best: Option<Record>) {
    && (best.Some? ==> exists t :: t in seen && TableHolds(t, key, best.value))
    && (forall t, r :: t in seen && TableHolds(t, key, r) ==> best.Some? && r.seqId <= best.value.seqId)
  }

  lemma SuffixSet(tables: seq<Table>, p: nat)
    requires p < |tables|
    ensures AsSet(tables[p..]) == AsSet(tables[p + 1..]) + {tables[p]}
  {
    assert tables[p..] == [tables[p]] + tables[p + 1..];
    forall t ensures t in AsSet(tables[p..]) <==> t in AsSet(tables[p + 1..]) || t == tables[p] {
      assert t in AsSet(tables[p..]) <==> t in tables[p..];
      assert t in AsSet(tables[p + 1..]) <==> t in tables[p + 1..];
    }
  }

  /** Looking into one more table. */
  lemma BestWith(seen: set<Table>, t: Table, key: Key, before: Option<Record>, found: Option<Record>, best: Option<Record>)
    requires BestOf(seen, key, before)
    requires found.Some? ==> TableHolds(t, key, found.value)
    requires forall r :: TableHolds(t, key, r) ==> found.Some? && r.seqId <= found.value.seqId
    requires best == if found.Some? && (before.None? || found.value.seqId > before.value.seqId) then found else before
    ensures BestOf(seen + {t}, key, best)
  {
  }

  /** The newest returned record decides the key, although a table may have hidden a newer one. */
  lemma BestDecides(all: set<Table>, key: Key, best: Option<Record>)
    requires UniqueVersions(all) && BestOf(all, key, best)
    ensures best.Some? && best.value.op != Del && !Hides(all, key, best.value.seqId) ==> Visible(all, best.value)
    ensures best.None? || best.value.op == Del || Hides(all, key, best.value.seqId) ==>
              forall r: Record :: r.key == key ==> !Visible(all, r)
  {
    if best.Some? && best.value.op != Del && !Hides(all, key, best.value.seqId) {
      var b := best.value;
      forall x | HasRecord(all, x) && x.key == key ensures x.seqId <= b.seqId {
        var t :| t in all && x in t.records;
        if x.seqId > b.seqId {
          HidesOlder(all, key, x.seqId, b.seqId);
          assert false;
        }
      }
    }
    if best.None? || best.value.op == Del || Hides(all, key, best.value.seqId) {
      forall r: Record | r.key == key ensures !Visible(all, r) {
        if Visible(all, r) {
          var t :| t in all && r in t.records;
          assert !Covered(t.rangeDels, key, r.seqId);
          assert TableHolds(t, key, r);
          assert false;
        }
      }
    }
  }

  /** Concatenated tombstones of a list of tables hide what the tables hide. */
  lemma FlattenHides(tables: seq<Table>, lists: seq<seq<Tombstone>>, key: Key, s: nat)
    requires |lists| == |tables| && forall i :: 0 <= i < |lists| ==> lists[i] == tables[i].rangeDels
    ensures Covered(Flatten(lists), key, s) <==> Hides(AsSet(tables), key, s)
  {
    if Covered(Flatten(lists), key, s) {
      var d :| d in Flatten(lists) && d.Spans(key) && d.seqId > s;
      InFlatten(lists, d);
      var i :| 0 <= i < |lists| && d in lists[i];
      assert Covered(tables[i].rangeDels, key, s);
    }
    if Hides(AsSet(tables), key, s) {
      var t :| t in AsSet(tables) && Covered(t.rangeDels, key, s);
      var i :| 0 <= i < |tables| && tables[i] == t;
      var d :| d in t.rangeDels && d.Spans(key) && d.seqId > s;
      InFlatten(lists, d);
      assert d in lists[i];
    }
  }

  /** All tables, layer by layer, as one list. */
  function Listed(layers: Layers): (list: seq<Table>)
  {
    if |layers| == 0 then [] else Listed(layers[..|layers| - 1]) + layers[|layers| - 1]
  }

  lemma {:induction false} ListedAll(layers: Layers)
    ensures AsSet(Listed(layers)) == AllTables(layers)
  {
    if |layers| > 0 {
      var n := |layers| - 1;
      ListedAll(layers[..n]);
      forall t ensures t in AsSet(Listed(layers)) <==> t in AllTables(layers) {
        InListed(layers, t);
      }
    }
  }

  lemma {:induction false} InListed(layers: Layers, t: Table)
    ensures t in Listed(layers) <==> exists i :: 0 <= i < |layers| && t in layers[i]
    ensures t in Listed(layers) <==> t in AsSet(Listed(layers))
    ensures t in AllTables(layers) <==> exists i :: 0 <= i < |layers| && t in layers[i]
  {
    if |layers| > 0 {
      var n := |layers| - 1;
      InListed(layers[..n], t);
      if i :| 0 <= i < |layers| && t in layers[i] {
        if i < n {
          assert t in layers[..n][i];
        }
      }
      if t in Listed(layers[..n]) {
        var i :| 0 <= i < n && t in layers[..n][i];
        assert t in layers[i];
      }
    }
  }

  /** Fragments of the tombstones of a list of tables. */
  method FragmentsOf(tables: seq<Table>) returns (frags: seq<Tombstone>)
    ensures Fragmented(frags)
    ensures forall key, s: nat :: Covered(frags, key, s) <==> Hides(AsSet(tables), key, s)
    ensures forall d :: d in frags ==> exists t :: t in AsSet(tables) && t.HasSeq(d.seqId)
    ensures Plain(AsSet(tables)) ==> frags == []
  {
    var lists := seq(|tables|, i requires 0 <= i < |tables| => tables[i].rangeDels);
    frags := MergeAndFragment(lists);
    forall key, s: nat ensures Covered(frags, key, s) <==> Hides(AsSet(tables), key, s) {
      FlattenHides(tables, lists, key, s);
    }
    forall d | d in frags ensures exists t :: t in AsSet(tables) && t.HasSeq(d.seqId) {
      var e :| e in Flatten(lists) && e.seqId == d.seqId && e.start <= d.start && d.end <= e.end;
      InFlatten(lists, e);
      var i :| 0 <= i < |lists| && e in lists[i];
      assert tables[i].HasSeq(d.seqId);
      assert tables[i] in AsSet(tables);
    }
    forall d | d in frags ensures exists e :: e in Flatten(lists) && e.seqId == d.seqId {
      var e :| e in Flatten(lists) && e.seqId == d.seqId && e.start <= d.start && d.end <= e.end;
    }
    NoFragments(tables, lists, frags);
  }

  lemma NoFragments(tables: seq<Table>, lists: seq<seq<Tombstone>>, frags: seq<Tombstone>)
    requires |lists| == |tables| && forall i :: 0 <= i < |lists| ==> lists[i] == tables[i].rangeDels
    requires forall d :: d in frags ==> exists e :: e in Flatten(lists) && e.seqId == d.seqId
    ensures Plain(AsSet(tables)) ==> frags == []
  {
    if frags != [] {
      assert frags[0] in frags;
      var e :| e in Flatten(lists) && e.seqId == frags[0].seqId;
      InFlatten(lists, e);
      var i :| 0 <= i < |lists| && e in lists[i];
      assert tables[i] in AsSet(tables) && tables[i].rangeDels != [];
    }
  }

  /** The merged stream of the input tables (`NewSSTableMergeIteratorRaw` over a heap). */
  method MergedStream(readers: seq<Table>) returns (stream: seq<Record>)
    requires forall i :: 0 <= i < |readers| ==> readers[i].WellFormed()
    ensures StreamOf(stream, AsSet(readers))
  {
    var streams := seq(|readers|, i requires 0 <= i < |readers| => readers[i].records);
    stream := MergeAll(Heap, streams);
    forall r ensures r in stream <==> HasRecord(AsSet(readers), r) {
      MergedRecords(streams, stream, r);
      if HasRecord(AsSet(readers), r) {
        var t :| t in AsSet(readers) && r in t.records;
        var i :| 0 <= i < |readers| && readers[i] == t;
        assert r in streams[i];
      }
      if r in stream {
        var i :| 0 <= i < |streams| && r in streams[i];
        assert readers[i] in AsSet(readers);
      }
    }
  }

  /** The contents of the merged table: records, and tombstones unless they are skipped. */
  method MergeTables(readers: seq<Table>, id: nat, toLayer: nat, skip: bool, now: int)
    returns (m: Table, frags: seq<Tombstone>)
    requires forall i :: 0 <= i < |readers| ==> readers[i].WellFormed()
    requires UniqueVersions(AsSet(readers))
    ensures MergedAt(m, AsSet(readers), skip, now) && m.id == id && m.layer == toLayer
    ensures m.rangeDels == if skip then [] else frags
    ensures |m.records| > 0 ==> m.WellFormed()
    ensures forall key, s: nat :: Covered(frags, key, s) <==> Hides(AsSet(readers), key, s)
    ensures Plain(AsSet(readers)) ==> frags == []
  {
    frags := FragmentsOf(readers);
    var stream := MergedStream(readers);
    var out := WriteMerged(stream, frags, skip, now);
    m := Table(id, toLayer, out, if skip then [] else frags);
    forall r ensures r in out <==> KeptAt(AsSet(readers), skip, now, r) {
      LoopIsMerge(stream, AsSet(readers), frags, skip, now, out, r);
    }
  }

  /** The fragment cache, when clean, covers what the current tables hide. */
  ghost predicate CacheOk(layers: Layers, cached: seq<Tombstone>, dirty: bool) {
    !dirty && cached != [] ==>
      Fragmented(cached) && forall key, s: nat :: Covered(cached, key, s) <==> Hides(AllTables(layers), key, s)
  }

  ghost predicate KeyOrdered(entries: seq<Record>) {
    forall i, j :: 0 <= i < j < |entries| ==> entries[i].key < entries[j].key
  }

  /** Insertion into entries sorted by key (`sort.Slice` in `FlushToSSTable`). */
  method InsertEntry(entries: seq<Record>, e: Record) returns (out: seq<Record>)
    requires KeyOrdered(entries) && forall x :: x in entries ==> x.key != e.key
    ensures KeyOrdered(out)
    ensures forall x :: x in out <==> x in entries || x == e
  {
    var i := 0;
    while i < |entries| && entries[i].key < e.key
      invariant 0 <= i <= |entries|
      invariant forall j :: 0 <= j < i ==> entries[j].key < e.key
    {
      i := i + 1;
    }
    assert i < |entries| ==> entries[i] in entries;
    InsertedAt(entries, e, i);
    out := entries[..i] + [e] + entries[i..];
  }

  lemma InsertedAt(entries: seq<Record>, e: Record, i: nat)
    requires KeyOrdered(entries) && i <= |entries|
    requires forall j :: 0 <= j < i ==> entries[j].key < e.key
    requires i < |entries| ==> e.key < entries[i].key
    ensures KeyOrdered(entries[..i] + [e] + entries[i..])
    ensures forall x :: x in entries[..i] + [e] + entries[i..] <==> x in entries || x == e
  {
    assert entries == entries[..i] + entries[i..];
  }

  ghost predicate DistinctKeys(entries: seq<Record>) {
    forall i, j :: 0 <= i < j < |entries| ==> entries[i].key != entries[j].key
  }

  method SortEntries(entries: seq<Record>) returns (out: seq<Record>)
    requires DistinctKeys(entries)
    ensures KeyOrdered(out)
    ensures forall x :: x in out <==> x in entries
  {
    out := [];
    for n := 0 to |entries|
      invariant KeyOrdered(out)
      invariant forall x :: x in out <==> x in entries[..n]
    {
      assert entries[..n + 1] == entries[..n] + [entries[n]];
      out := InsertEntry(out, entries[n]);
    }
    assert entries[..|entries|] == entries;
  }

  /** A flushed table holds the given entries and tombstones. */
  ghost predicate FlushOf(t: Table, entries: seq<Record>, rangeDels: seq<Tombstone>) {
    t.WellFormed() && t.rangeDels == rangeDels && forall r :: r in t.records <==> r in entries
  }

  class Manager {
    var layers: Layers
    var nextId: nat
    var cachedFragments: seq<Tombstone>
    var fragmentsDirty: bool

    ghost predicate Valid()
      reads this
    {
      && |layers| > 0 && LayersOk(layers, nextId) && UniqueVersions(AllTables(layers))
      && CacheOk(layers, cachedFragments, fragmentsDirty)
    }

    /** `NewSSTableManager` on an empty directory. */
    constructor ()
      ensures Valid() && layers == [[]] && AllTables(layers) == {} && nextId == 0 && !fragmentsDirty
    {
      layers := [[]];
      nextId := 0;
      cachedFragments := [];
      fragmentsDirty := false;
      new;
      assert AllTables(layers) == {};
    }

    /** `getFragments`: the cached list, recomputed when stale or absent. */
    method GetFragments() returns (frags: seq<Tombstone>)
      requires Valid()
      modifies this`cachedFragments, this`fragmentsDirty
      ensures Valid() && Fragmented(frags) && cachedFragments == frags && !fragmentsDirty
      ensures forall key, s: nat :: Covered(frags, key, s) <==> Hides(AllTables(layers), key, s)
      ensures !old(fragmentsDirty) && old(cachedFragments) != [] ==> frags == old(cachedFragments)
    {
      if !fragmentsDirty && cachedFragments != [] {
        return cachedFragments;
      }
      frags := FragmentsOf(Listed(layers));
      ListedAll(layers);
      cachedFragments := frags;
      fragmentsDirty := false;
    }

    /** The lookup loop of `Get`: all layers, each from its last table to its first. */
    method FindBest(key: Key) returns (best: Option<Record>)
      requires Valid()
      ensures BestOf(AllTables(layers), key, best)
    {
      best := None;
      for i := 0 to |layers|
        invariant BestOf(AllTables(layers[..i]), key, best)
      {
        best := FindInLayer(key, i, best);
      }
      assert layers[..|layers|] == layers;
    }

    method FindInLayer(key: Key, i: nat, best0: Option<Record>) returns (best: Option<Record>)
      requires Valid() && i < |layers| && BestOf(AllTables(layers[..i]), key, best0)
      ensures BestOf(AllTables(layers[..i + 1]), key, best)
    {
      best := best0;
      var tables := layers[i];
      ghost var seen := AllTables(layers[..i]);
      var p := |tables|;
      while p > 0
        invariant 0 <= p <= |tables|
        invariant BestOf(seen + AsSet(tables[p..]), key, best)
      {
        p := p - 1;
        SuffixSet(tables, p);
        var found := TableGet(tables[p], key);
        ghost var before := best;
        if found.Some? {
          if best.None? || found.value.seqId > best.value.seqId {
            best := found;
          }
        }
        BestWith(seen + AsSet(tables[p + 1..]), tables[p], key, before, found, best);
        assert seen + AsSet(tables[p..]) == seen + AsSet(tables[p + 1..]) + {tables[p]};
      }
      assert tables[0..] == tables;
      LayerAdded(layers, i);
    }

    /** `Get`: what the store holds for a key at time `now`. */
    method Get(key: Key, now: int) returns (found: Option<Record>)
      requires Valid()
      modifies this`cachedFragments, this`fragmentsDirty
      ensures Valid()
      ensures found.Some? ==> found.value.key == key && Visible(AllTables(layers), found.value) && !Expired(found.value, now)
      ensures found.Some? ==> found.value.expiresAt == 0 || now <= found.value.expiresAt
      ensures found.None? ==> forall r: Record :: r.key == key && Visible(AllTables(layers), r) ==> Expired(r, now)
      ensures found.None? ==> forall r: Record :: r.key == key && Visible(AllTables(layers), r) ==> r.expiresAt != 0 && r.expiresAt < now
    {
      var frags := GetFragments();
      var best := FindBest(key);
      BestDecides(AllTables(layers), key, best);
      if best.None? {
        return None;
      }
      if best.value.op == Del {
        return None;
      }
      var covered := IsCoveredByRangeTombstone(frags, key, best.value.seqId);
      if covered {
        return None;
      }
      if Expired(best.value, now) {
        forall r: Record | r.key == key && Visible(AllTables(layers), r) ensures r == best.value {
          VisibleUnique(AllTables(layers), r, best.value);
        }
        return None;
      }
      return best;
    }

    /** `FlushToSSTable`: a new table at layer zero, or nothing when there are no point entries. */
    method FlushToSSTable(entries: seq<Record>, rangeDels: seq<Tombstone>) returns (ghost t: Table)
      requires Valid() && DistinctKeys(entries)
      requires forall a, b :: a in entries && HasRecord(AllTables(layers), b) ==> a.key != b.key || a.seqId != b.seqId
      modifies this
      ensures Valid()
      ensures entries == [] ==> unchanged(this)
      ensures entries != [] ==> FlushOf(t, entries, rangeDels) && t.layer == 0 && layers == Append(old(layers), 0, t)
      ensures entries != [] ==> t.id == old(nextId) && nextId == old(nextId) + 1 && fragmentsDirty
    {
      if |entries| == 0 {
        t := Table(0, 0, [], []);
        return;
      }
      var sorted := SortEntries(entries);
      assert entries[0] in sorted;
      var table := Table(nextId, 0, sorted, rangeDels);
      t := table;
      AppendOk(layers, nextId, 0, table);
      AllTablesAppend(layers, 0, table);
      UniqueAfterFlush(AllTables(layers), table);
      layers := Append(layers, 0, table);
      nextId := nextId + 1;
      fragmentsDirty := true;
    }

    /** `DeleteSSTable`: drop the table with this identifier from this layer. */
    method DeleteSSTable(layer: nat, id: nat)
      requires LayersOk(layers, nextId) && layer < |layers|
      modifies this`layers
      ensures layers == old(layers)[layer := Without(old(layers)[layer], {id})]
    {
      var tables := layers[layer];
      var i := 0;
      while i < |tables| && tables[i].id != id
        invariant 0 <= i <= |tables|
        invariant forall p :: 0 <= p < i ==> tables[p].id != id
      {
        i := i + 1;
      }
      if i < |tables| {
        WithoutOne(tables, i);
        layers := layers[layer := tables[..i] + tables[i + 1..]];
      } else {
        WithoutNone(tables, {id});
      }
    }

    /** `DeleteSSTables`: drop every listed table from the layer it records. */
    method DeleteSSTables(readers: seq<Table>)
      requires LayersOk(layers, nextId)
      requires forall i :: 0 <= i < |readers| ==> readers[i] in AllTables(layers)
      modifies this`layers
      ensures layers == Purge(old(layers), Ids(readers)) && LayersOk(layers, nextId)
    {
      ghost var before := layers;
      PurgeNothing(layers);
      assert Ids(readers[..0]) == {};
      for n := 0 to |readers|
        invariant layers == Purge(before, Ids(readers[..n]))
      {
        PurgeOk(before, nextId, Ids(readers[..n]));
        DeleteStep(before, nextId, readers, n);
        DeleteSSTable(readers[n].layer, readers[n].id);
      }
      assert readers[..|readers|] == readers;
      PurgeOk(before, nextId, Ids(readers));
    }

    /**
     `MergeSSTables`: replace the inputs by their merge. It leaves the layers alone when
     nothing survives: without error when no tombstone is to be written either, and with the
     error of an empty table otherwise.
     */
    method MergeSSTables(readers: seq<Table>, toLayer: nat, skip: bool, now: int)
      returns (ok: bool, merged: bool, ghost m: Table)
      requires Valid()
      requires forall i :: 0 <= i < |readers| ==> readers[i] in AllTables(layers)
      modifies this
      ensures Valid()
      ensures nextId == old(nextId) + 1 && (merged ==> fragmentsDirty)
      ensures !merged ==> layers == old(layers) && cachedFragments == old(cachedFragments) && fragmentsDirty == old(fragmentsDirty)
      ensures merged ==> ok && MergedAt(m, AsSet(readers), skip, now) && m.layer == toLayer && m.id == old(nextId) && m.WellFormed()
      ensures merged ==> layers == Purge(Append(old(layers), toLayer, m), Ids(readers))
      ensures merged ==> AllTables(layers) == Replaced(AllTables(old(layers)), AsSet(readers), m)
      ensures merged && NoneExpired(AsSet(readers), now) ==> MergeOf(m, AsSet(readers), skip)
      ensures ok && !skip && |readers| > 0 && NoneExpired(AsSet(readers), now) ==> merged
      ensures !ok ==> !skip && !Plain(AsSet(readers)) && |readers| > 0
      ensures !merged && NoneExpired(AsSet(readers), now) ==> NothingKept(AsSet(readers), skip)
    {
      SubsetUnique(AllTables(layers), AsSet(readers));
      var id := nextId;
      var table, frags := MergeTables(readers, id, toLayer, skip, now);
      m := table;
      WhenUnexpired(AsSet(readers), table, skip, now);
      if |table.records| == 0 {
        nextId := nextId + 1;
        SomeInput(readers);
        if |readers| > 0 {
          NothingHidden(AsSet(readers), frags, table, skip, now);
        }
        ok := skip || |frags| == 0;
        merged := false;
        return;
      }
      InstallMerged(readers, table, toLayer);
      ok, merged := true, true;
    }

    /** The tail of `MergeSSTables`: the new table is in, the inputs are out. */
    method InstallMerged(readers: seq<Table>, table: Table, toLayer: nat)
      requires Valid() && forall i :: 0 <= i < |readers| ==> readers[i] in AllTables(layers)
      requires table.id == nextId && table.layer == toLayer && table.WellFormed() && DrawnFrom(table, AsSet(readers))
      modifies this
      ensures Valid() && layers == Purge(Append(old(layers), toLayer, table), Ids(readers))
      ensures AllTables(layers) == Replaced(AllTables(old(layers)), AsSet(readers), table)
      ensures nextId == old(nextId) + 1 && fragmentsDirty
    {
      MergeInstalled(layers, nextId, readers, table, toLayer);
      Install(readers, table, toLayer);
    }

    /** `addToLayers` of a new table followed by `DeleteSSTables` of its inputs. */
    method Install(readers: seq<Table>, table: Table, toLayer: nat)
      requires LayersOk(layers, nextId) && LayersOk(Append(layers, toLayer, table), nextId + 1)
      requires forall i :: 0 <= i < |readers| ==> readers[i] in AllTables(layers)
      modifies this
      ensures layers == Purge(Append(old(layers), toLayer, table), Ids(readers)) && LayersOk(layers, nextId)
      ensures nextId == old(nextId) + 1 && fragmentsDirty
    {
      AllTablesAppend(layers, toLayer, table);
      layers := Append(layers, toLayer, table);
      nextId := nextId + 1;
      DeleteSSTables(readers);
      fragmentsDirty := true;
    }

    /** The loops that append empty layers up to a target layer. */
    method EnsureLayer(n: nat)
      requires Valid()
      modifies this`layers
      ensures Valid() && layers == Grow(old(layers), n) && AllTables(layers) == AllTables(old(layers))
    {
      ghost var before := layers;
      while |layers| <= n
        invariant |layers| >= |before|
        invariant |layers| <= n + 1 || layers == before
        invariant forall i :: 0 <= i < |layers| ==> layers[i] == if i < |before| then before[i] else []
      {
        layers := layers + [[]];
      }
      assert layers == Grow(before, n);
      GrowSame(before, n, nextId);
    }

    /** `MoveSSTable`: the same table, recorded at another layer. */
    method MoveSSTable(current: Table, toLayer: nat) returns (ghost moved: Table)
      requires Valid() && current in AllTables(layers)
      modifies this
      ensures Valid()
      ensures moved == current.(layer := toLayer)
      ensures layers == Append(Purge(old(layers), {current.id}), toLayer, moved)
      ensures AllTables(layers) == AllTables(old(layers)) - {current} + {moved}
      ensures SameView(AllTables(old(layers)), AllTables(layers))
    {
      ghost var before := layers;
      var m := current.(layer := toLayer);
      moved := m;
      MoveSteps(before, nextId, current, m, toLayer);
      DeleteSSTable(current.layer, current.id);
      layers := Append(layers, toLayer, m);
      MoveSameView(AllTables(before), current, m);
    }
  }

  // ------------------------------------------------------------------ lemmas for the methods

  lemma GrowSame(layers: Layers, n: nat, nextId: nat)
    ensures AllTables(Grow(layers, n)) == AllTables(layers)
    ensures LayersOk(layers, nextId) ==> LayersOk(Grow(layers, n), nextId)
  {
    var grown := Grow(layers, n);
    forall t ensures t in AllTables(grown) <==> t in AllTables(layers) {
      if t in AllTables(layers) {
        var i, p :| 0 <= i < |layers| && 0 <= p < |layers[i]| && layers[i][p] == t;
        assert grown[i][p] == t;
      }
      if t in AllTables(grown) {
        var i, p :| 0 <= i < |grown| && 0 <= p < |grown[i]| && grown[i][p] == t;
        assert layers[i][p] == t;
      }
    }
  }

  lemma LayerAdded(layers: Layers, i: nat)
    requires i < |layers|
    ensures AllTables(layers[..i + 1]) == AllTables(layers[..i]) + AsSet(layers[i])
  {
    forall t ensures t in AllTables(layers[..i + 1]) <==> t in AllTables(layers[..i]) || t in AsSet(layers[i]) {
      if t in AllTables(layers[..i]) {
        var j, p :| 0 <= j < i && 0 <= p < |layers[..i][j]| && layers[..i][j][p] == t;
        assert layers[..i + 1][j][p] == t;
      }
      if t in AsSet(layers[i]) {
        var p :| 0 <= p < |layers[i]| && layers[i][p] == t;
        assert layers[..i + 1][i][p] == t;
      }
    }
  }

  lemma UniqueAfterFlush(all: set<Table>, t: Table)
    requires UniqueVersions(all) && t.WellFormed()
    requires forall a, b :: a in t.records && HasRecord(all, b) ==> a.key != b.key || a.seqId != b.seqId
    ensures UniqueVersions(all + {t})
  {
    forall a, b | HasRecord(all + {t}, a) && HasRecord(all + {t}, b) && a.key == b.key && a.seqId == b.seqId
      ensures a == b
    {
      assert HasRecord(all, a) || a in t.records;
      assert HasRecord(all, b) || b in t.records;
    }
  }

  lemma SubsetUnique(all: set<Table>, some: set<Table>)
    requires UniqueVersions(all) && some <= all
    ensures UniqueVersions(some)
  {
    forall r | HasRecord(some, r) ensures HasRecord(all, r) {
    }
  }

  lemma PurgeNothing(layers: Layers)
    ensures Purge(layers, {}) == layers
  {
    forall i | 0 <= i < |layers| ensures Without(layers[i], {}) == layers[i] {
      WithoutNone(layers[i], {});
    }
  }

  lemma IdsNext(readers: seq<Table>, n: nat)
    requires n < |readers|
    ensures Ids(readers[..n + 1]) == Ids(readers[..n]) + {readers[n].id}
  {
    forall x ensures x in Ids(readers[..n + 1]) <==> x in Ids(readers[..n]) || x == readers[n].id {
      if x in Ids(readers[..n]) {
        var q :| 0 <= q < n && readers[..n][q].id == x;
        assert readers[..n + 1][q].id == x;
      }
      if x == readers[n].id {
        assert readers[..n + 1][n].id == x;
      }
    }
  }

  /** What one layer looks like after one more removal. */
  lemma DeleteInLayer(before: Layers, nextId: nat, a: set<nat>, t: Table, i: nat)
    requires LayersOk(before, nextId) && t in AllTables(before) && i < |before|
    ensures (if i == t.layer then Without(Without(before[i], a), {t.id}) else Without(before[i], a))
            == Without(before[i], a + {t.id})
  {
    LayerOf(before, nextId, t);
    var p :| 0 <= p < |before[t.layer]| && before[t.layer][p] == t;
    var now := Without(before[i], a);
    WithoutTwice(before[i], a, {t.id});
    if i != t.layer {
      forall x: Table | x in now ensures x.id != t.id {
        InWithout(before[i], a, x);
      }
      WithoutNone(now, {t.id});
    }
  }

  /** Removing the next listed table from its layer removes its identifier everywhere. */
  lemma DeleteStep(before: Layers, nextId: nat, readers: seq<Table>, n: nat)
    requires LayersOk(before, nextId) && n < |readers|
    requires forall i :: 0 <= i < |readers| ==> readers[i] in AllTables(before)
    ensures readers[n].layer < |before|
    ensures var now := Purge(before, Ids(readers[..n]));
            now[readers[n].layer := Without(now[readers[n].layer], {readers[n].id})] == Purge(before, Ids(readers[..n + 1]))
  {
    var t := readers[n];
    var a := Ids(readers[..n]);
    IdsNext(readers, n);
    LayerOf(before, nextId, t);
    var now := Purge(before, a);
    var next := now[t.layer := Without(now[t.layer], {t.id})];
    var want := Purge(before, a + {t.id});
    forall i | 0 <= i < |before| ensures next[i] == want[i] {
      DeleteInLayer(before, nextId, a, t, i);
    }
    assert next == want;
  }

  lemma LayerOf(layers: Layers, nextId: nat, t: Table)
    requires LayersOk(layers, nextId) && t in AllTables(layers)
    ensures t.layer < |layers| && t in layers[t.layer]
  {
    var l, p :| 0 <= l < |layers| && 0 <= p < |layers[l]| && layers[l][p] == t;
  }

  lemma InstalledAt(before: Layers, id: nat, readers: seq<Table>, m: Table, t: Table)
    requires LayersOk(before, id) && m.id == id
    requires forall i :: 0 <= i < |readers| ==> readers[i] in AllTables(before)
    ensures (t in AllTables(before) || t == m) && t.id !in Ids(readers) <==> t in Replaced(AllTables(before), AsSet(readers), m)
  {
    assert forall i :: 0 <= i < |readers| ==> readers[i].id < id;
    if t in AllTables(before) && t.id in Ids(readers) {
      var p :| 0 <= p < |readers| && readers[p].id == t.id;
      SameId(before, id, t, readers[p]);
    }
    if t in AsSet(readers) {
      var p :| 0 <= p < |readers| && readers[p] == t;
      assert readers[p].id in Ids(readers);
    }
  }

  lemma Installed(before: Layers, id: nat, readers: seq<Table>, m: Table, toLayer: nat)
    requires LayersOk(before, id) && m.id == id
    requires forall i :: 0 <= i < |readers| ==> readers[i] in AllTables(before)
    ensures AllTables(Purge(Append(before, toLayer, m), Ids(readers))) == Replaced(AllTables(before), AsSet(readers), m)
  {
    var added := Append(before, toLayer, m);
    AllTablesAppend(before, toLayer, m);
    forall t: Table
      ensures t in AllTables(Purge(added, Ids(readers))) <==> t in Replaced(AllTables(before), AsSet(readers), m)
    {
      AllTablesPurge(added, Ids(readers), t);
      InstalledAt(before, id, readers, m, t);
    }
  }

  lemma MergeInstalled(before: Layers, id: nat, readers: seq<Table>, m: Table, toLayer: nat)
    requires LayersOk(before, id) && UniqueVersions(AllTables(before)) && |before| > 0
    requires m.id == id && m.layer == toLayer && m.WellFormed() && DrawnFrom(m, AsSet(readers))
    requires forall i :: 0 <= i < |readers| ==> readers[i] in AllTables(before)
    ensures LayersOk(Append(before, toLayer, m), id + 1)
    ensures var after := Purge(Append(before, toLayer, m), Ids(readers));
            |after| > 0 && UniqueVersions(AllTables(after))
            && AllTables(after) == Replaced(AllTables(before), AsSet(readers), m)
  {
    AppendOk(before, id, toLayer, m);
    Installed(before, id, readers, m, toLayer);
    UniqueAfterMerge(AllTables(before), AsSet(readers), m);
  }

  /** No range tombstones anywhere. */
  ghost predicate Plain(tables: set<Table>) {
    forall t :: t in tables ==> t.rangeDels == []
  }

  /** When no tombstone is to be written, every newest record is kept, so merging a table writes a record. */
  lemma NothingHidden(inputs: set<Table>, frags: seq<Tombstone>, m: Table, skip: bool, now: int)
    requires MergedAt(m, inputs, skip, now) && inputs != {} && forall t :: t in inputs ==> t.WellFormed()
    requires forall key, s: nat :: Covered(frags, key, s) <==> Hides(inputs, key, s)
    ensures frags == [] && !skip && NoneExpired(inputs, now) ==> |m.records| > 0
  {
    if frags == [] && !skip && NoneExpired(inputs, now) {
      var t :| t in inputs;
      assert t.records[0] in t.records;
      var n := NewestExists(inputs, t.records[0]);
      assert !Covered(frags, n.key, n.seqId);
      assert n in m.records;
    }
  }

  lemma SomeInput(readers: seq<Table>)
    ensures readers != [] ==> AsSet(readers) != {}
  {
    assert readers != [] ==> readers[0] in AsSet(readers);
  }

  lemma WhenUnexpired(inputs: set<Table>, m: Table, skip: bool, now: int)
    requires MergedAt(m, inputs, skip, now) && forall t :: t in inputs ==> t.WellFormed()
    ensures DrawnFrom(m, inputs)
    ensures NoneExpired(inputs, now) ==> MergeOf(m, inputs, skip)
    ensures NoneExpired(inputs, now) && m.records == [] ==> NothingKept(inputs, skip)
  {
    if NoneExpired(inputs, now) {
      MergedUnexpired(m, inputs, skip, now);
    }
  }

  lemma MovePurges(before: Layers, nextId: nat, t: Table)
    requires LayersOk(before, nextId) && t in AllTables(before)
    ensures t.layer < |before|
    ensures before[t.layer := Without(before[t.layer], {t.id})] == Purge(before, {t.id})
    ensures AllTables(Purge(before, {t.id})) == AllTables(before) - {t}
  {
    LayerOf(before, nextId, t);
    assert Without(before[t.layer], {}) == before[t.layer] by {
      WithoutNone(before[t.layer], {});
    }
    forall i | 0 <= i < |before| && i != t.layer ensures Without(before[i], {t.id}) == before[i] {
      WithoutNone(before[i], {});
      DeleteInLayer(before, nextId, {}, t, i);
      assert {} + {t.id} == {t.id};
    }
    forall x: Table ensures x in AllTables(Purge(before, {t.id})) <==> x in AllTables(before) && x != t {
      AllTablesPurge(before, {t.id}, x);
      if x in AllTables(before) && x.id == t.id {
        SameId(before, nextId, x, t);
      }
    }
  }

  lemma MoveSteps(before: Layers, nextId: nat, t: Table, m: Table, toLayer: nat)
    requires LayersOk(before, nextId) && t in AllTables(before) && m == t.(layer := toLayer)
    ensures t.layer < |before|
    ensures before[t.layer := Without(before[t.layer], {t.id})] == Purge(before, {t.id})
    ensures LayersOk(Append(Purge(before, {t.id}), toLayer, m), nextId)
    ensures AllTables(Append(Purge(before, {t.id}), toLayer, m)) == AllTables(before) - {t} + {m}
  {
    var purged := Purge(before, {t.id});
    MovePurges(before, nextId, t);
    PurgeOk(before, nextId, {t.id});
    AllTablesAppend(purged, toLayer, m);
    forall x | x in AllTables(purged) ensures x.id != m.id {
      if x.id == t.id {
        SameId(before, nextId, x, t);
      }
    }
    MovedOk(purged, nextId, toLayer, m);
  }

  lemma {:induction false} MovedOk(purged: Layers, nextId: nat, toLayer: nat, m: Table)
    requires LayersOk(purged, nextId) && m.WellFormed() && m.layer == toLayer && m.id < nextId
    requires forall x :: x in AllTables(purged) ==> x.id != m.id
    ensures LayersOk(Append(purged, toLayer, m), nextId)
  {
    var added := Append(purged, toLayer, m);
    forall i, p | 0 <= i < |added| && 0 <= p < |added[i]|
      ensures (i < |purged| && p < |purged[i]| && added[i][p] == purged[i][p] && added[i][p] in AllTables(purged))
              || (i == toLayer && p == |added[i]| - 1 && added[i][p] == m)
    {
      AppendedAt(purged, toLayer, m, added, i, p);
    }
  }

  lemma AppendedAt(layers: Layers, to: nat, m: Table, added: Layers, i: nat, p: nat)
    requires added == Append(layers, to, m) && i < |added| && p < |added[i]|
    ensures (i < |layers| && p < |layers[i]| && added[i][p] == layers[i][p] && added[i][p] in AllTables(layers))
            || (i == to && p == |added[i]| - 1 && added[i][p] == m)
  {
  }

  lemma MoveSameView(all: set<Table>, t: Table, m: Table)
    requires t in all && m.records == t.records && m.rangeDels == t.rangeDels && UniqueVersions(all)
    ensures SameView(all, all - {t} + {m}) && UniqueVersions(all - {t} + {m})
    ensures forall key, s: nat :: Hides(all, key, s) <==> Hides(all - {t} + {m}, key, s)
  {
    var after := all - {t} + {m};
    forall r ensures HasRecord(all, r) <==> HasRecord(after, r) {
      if x :| x in all && r in x.records {
        assert (if x == t then m else x) in after;
      }
      if x :| x in after && r in x.records {
        assert (if x == m then t else x) in all;
      }
    }
    forall key, s: nat ensures Hides(all, key, s) <==> Hides(after, key, s) {
      if x :| x in all && Covered(x.rangeDels, key, s) {
        assert (if x == t then m else x) in after;
      }
      if x :| x in after && Covered(x.rangeDels, key, s) {
        assert (if x == m then t else x) in all;
      }
    }
  }
}
