/** What scans over many tables show (internal/sstable/iterator.go:460-577, internal/sstable/manager.go:643-668). */
module TableScan {
  import opened Keys
  import opened Options
  import opened Records
  import opened RangeTombstones
  import opened RangeDelChecker
  import opened Tables
  import opened MergeLoop
  import opened SSTables
  import opened KWayMerge
  import opened MergeSeek
  import opened TableIterator

  /** Each table's fragments cover what its tombstones cover. */
  ghost predicate FragmentsOf(frags: seq<seq<Tombstone>>, tables: seq<Table>) {
    |frags| == |tables| && forall i :: 0 <= i < |tables| ==> SameCoverage(frags[i], tables[i].rangeDels)
  }

  /** The fragments of each table (`LoadRangeDels`). */
  method LoadRangeDels(tables: seq<Table>) returns (frags: seq<seq<Tombstone>>)
    ensures AllFragmented(frags) && FragmentsOf(frags, tables)
  {
    frags := [];
    for n := 0 to |tables|
      invariant |frags| == n && AllFragmented(frags)
      invariant forall i :: 0 <= i < n ==> SameCoverage(frags[i], tables[i].rangeDels)
    {
      var fs := FragmentRangeTombstones(tables[n].rangeDels);
      frags := frags + [fs];
    }
  }

  lemma CoverageOfAll(tables: seq<Table>, frags: seq<seq<Tombstone>>, key: Key, s: nat)
    requires FragmentsOf(frags, tables)
    ensures CoveredByAny(frags, key, s) <==> Hides(AsSet(tables), key, s)
  {
    if CoveredByAny(frags, key, s) {
      var i :| 0 <= i < |frags| && Covered(frags[i], key, s);
      assert tables[i] in AsSet(tables) && Covered(tables[i].rangeDels, key, s);
    }
    if Hides(AsSet(tables), key, s) {
      var t :| t in AsSet(tables) && Covered(t.rangeDels, key, s);
      var i :| 0 <= i < |tables| && tables[i] == t;
      assert Covered(frags[i], key, s);
    }
  }

  // ------------------------------------------------------------------ what scans show

  function StreamsOf(tables: seq<Table>): (streams: seq<seq<Record>>) {
    seq(|tables|, i requires 0 <= i < |tables| => tables[i].records)
  }

  /** The tables that have a record left. */
  ghost function Unread(tables: seq<Table>, pos: seq<nat>): (kept: set<Table>)
    requires |pos| == |tables|
    ensures kept <= AsSet(tables)
  {
    set i | 0 <= i < |tables| && pos[i] < |tables[i].records| :: tables[i]
  }

  /** The newest record of its key in the tables at hand, neither a delete nor hidden by a tombstone of any table. */
  ghost predicate ShownOf(kept: set<Table>, all: set<Table>, r: Record) {
    IsNewest(kept, r) && r.op != Del && !Hides(all, r.key, r.seqId)
  }

  /** Heads of a stream of these tables that are to be shown. */
  lemma HeadsShown(stream: seq<Record>, tables: seq<Table>, kept: set<Table>, frags: seq<seq<Tombstone>>, origin: Option<Key>, r: Record)
    requires Sorted(stream) && forall x :: x in stream <==> From(origin, x) && HasRecord(kept, x)
    requires UniqueVersions(AsSet(tables)) && kept <= AsSet(tables)
    requires FragmentsOf(frags, tables)
    ensures ShownBefore(stream, frags, |stream|, r) <==> From(origin, r) && ShownOf(kept, AsSet(tables), r)
  {
    CoverageOfAll(tables, frags, r.key, r.seqId);
    if ShownBefore(stream, frags, |stream|, r) {
      var p: nat :| p < |stream| && Head(stream, p) && stream[p] == r && Shows(frags, r);
      assert r in stream;
      forall x | HasRecord(kept, x) && x.key == r.key ensures x.seqId <= r.seqId {
        Records.HeadIsNewest(stream, p, x);
      }
    }
    if From(origin, r) && ShownOf(kept, AsSet(tables), r) {
      assert forall x :: HasRecord(kept, x) ==> HasRecord(AsSet(tables), x);
      var p := NewestHasHead(stream, r);
      assert Shows(frags, r);
    }
  }

  lemma RestartedTables(tables: seq<Table>, pos: seq<nat>, origin: Option<Key>, x: Record)
    requires Positions(StreamsOf(tables), pos) && AllSorted(StreamsOf(tables))
    ensures x in Restarted(StreamsOf(tables), pos, origin) <==> From(origin, x) && HasRecord(Unread(tables, pos), x)
  {
    var streams, kept := StreamsOf(tables), Unread(tables, pos);
    RestartedHas(streams, pos, origin, x);
    if i :| 0 <= i < |streams| && pos[i] < |streams[i]| && x in streams[i] {
      assert tables[i] in kept;
    }
    if HasRecord(kept, x) {
      var t :| t in kept && x in t.records;
      var i :| 0 <= i < |tables| && pos[i] < |tables[i].records| && tables[i] == t;
      assert x in streams[i];
    }
  }

  /** What has been scanned in full shows exactly these records, or only such if a gap is not covered. */
  lemma ScannedShows(tables: seq<Table>, pos: seq<nat>, frags: seq<seq<Tombstone>>, origin: Option<Key>, stream: seq<Record>,
                     out: seq<Record>, r: Record)
    requires Positions(StreamsOf(tables), pos) && AllSorted(StreamsOf(tables)) && UniqueVersions(AsSet(tables))
    requires FragmentsOf(frags, tables)
    requires stream == Restarted(StreamsOf(tables), pos, origin) && ScannedTo(stream, frags, |stream|, out)
    ensures r in out ==> From(origin, r) && ShownOf(Unread(tables, pos), AsSet(tables), r)
    ensures GapsCovered(frags) && From(origin, r) && ShownOf(Unread(tables, pos), AsSet(tables), r) ==> r in out
  {
    forall x ensures x in stream <==> From(origin, x) && HasRecord(Unread(tables, pos), x) {
      RestartedTables(tables, pos, origin, x);
    }
    RestartedFrom(StreamsOf(tables), pos, origin);
    HeadsShown(stream, tables, Unread(tables, pos), frags, origin, r);
  }

  /** A record that the seek loses decides its key: it is to be shown, or it is the delete that hides an older one still there. */
  ghost predicate LossShows(kept: set<Table>, all: set<Table>, origin: Option<Key>, r: Record) {
    && IsNewest(all, r) && !HasRecord(kept, r) && From(origin, r) && !Hides(all, r.key, r.seqId)
    && (r.op != Del || exists x :: ShownOf(kept, all, x) && x.key == r.key)
  }

  ghost predicate ShowsVisible(kept: set<Table>, all: set<Table>, origin: Option<Key>) {
    forall r :: From(origin, r) ==> (ShownOf(kept, all, r) <==> Visible(all, r))
  }

  lemma LossIsSeen(kept: set<Table>, all: set<Table>, origin: Option<Key>, r: Record)
    requires UniqueVersions(all) && kept <= all && LossShows(kept, all, origin, r)
    ensures !ShowsVisible(kept, all, origin)
  {
    if r.op != Del {
      assert Visible(all, r) && !ShownOf(kept, all, r);
    } else {
      var x :| ShownOf(kept, all, x) && x.key == r.key;
      assert HasRecord(all, x);
      assert !Visible(all, x);
    }
  }

  lemma WrongIsLoss(kept: set<Table>, all: set<Table>, origin: Option<Key>, r: Record) returns (lost: Record)
    requires UniqueVersions(all) && kept <= all && From(origin, r) && (ShownOf(kept, all, r) <==> !Visible(all, r))
    ensures LossShows(kept, all, origin, lost)
  {
    if Visible(all, r) {
      lost := r;
    } else {
      assert HasRecord(all, r);
      lost := NewestExists(all, r);
    }
  }

  /** After a seek the scan shows the visible records from there on if and only if no lost record decides its key. */
  lemma SeekExactIff(kept: set<Table>, all: set<Table>, origin: Option<Key>)
    requires UniqueVersions(all) && kept <= all
    ensures ShowsVisible(kept, all, origin) <==> forall r :: !LossShows(kept, all, origin, r)
  {
    if r :| LossShows(kept, all, origin, r) {
      LossIsSeen(kept, all, origin, r);
    }
    if !ShowsVisible(kept, all, origin) {
      var r :| From(origin, r) && (ShownOf(kept, all, r) <==> !Visible(all, r));
      var lost := WrongIsLoss(kept, all, origin, r);
    }
  }

  /** The tables' records can be merged. */
  lemma StreamsMerge(tables: seq<Table>)
    requires UniqueVersions(AsSet(tables)) && forall i :: 0 <= i < |tables| ==> tables[i].WellFormed()
    ensures AllSorted(StreamsOf(tables)) && OnePerVersion(Remaining(StreamsOf(tables), Start(StreamsOf(tables))))
    ensures Restarted(StreamsOf(tables), Start(StreamsOf(tables)), None) == Merged(StreamsOf(tables), Start(StreamsOf(tables)))
    ensures Unread(tables, Start(StreamsOf(tables))) == AsSet(tables)
  {
    var streams := StreamsOf(tables);
    forall r | r in Remaining(streams, Start(streams)) ensures HasRecord(AsSet(tables), r) {
      InUnconsumed(streams, Start(streams), r);
      var i :| 0 <= i < |streams| && r in streams[i];
      assert tables[i] in AsSet(tables);
    }
    assert Brought(streams, Start(streams), Start(streams)) == Start(streams);
  }

  /** The iterator runs over these tables. */
  ghost predicate Over(it: TableMergeIterator, tables: seq<Table>)
    reads it, it.raw, it.raw.heap, it.checker
  {
    && it.Valid() && it.raw.heap.streams == StreamsOf(tables) && UniqueVersions(AsSet(tables))
    && FragmentsOf(it.checker.frags, tables)
  }

  /** `SSTableManager.EntryIterator` over these tables. */
  method Open(tables: seq<Table>) returns (it: TableMergeIterator)
    requires UniqueVersions(AsSet(tables)) && forall i :: 0 <= i < |tables| ==> tables[i].WellFormed()
    ensures fresh(it) && fresh(it.raw) && fresh(it.raw.heap) && fresh(it.checker) && Over(it, tables) && it.Settled()
    ensures it.stream == Restarted(StreamsOf(tables), Start(StreamsOf(tables)), None) && ScannedTo(it.stream, it.checker.frags, it.at, [])
  {
    StreamsMerge(tables);
    var frags := LoadRangeDels(tables);
    it := new TableMergeIterator(StreamsOf(tables), frags);
  }

  /**
   A scan of any tables: keys strictly increasing, nothing that is deleted, range-deleted or superseded; and
   exactly the visible records when every gap between a table's fragments is covered.
   */
  method ScanTables(tables: seq<Table>) returns (out: seq<Record>, frags: seq<seq<Tombstone>>)
    requires UniqueVersions(AsSet(tables)) && forall i :: 0 <= i < |tables| ==> tables[i].WellFormed()
    ensures forall i, j :: 0 <= i < j < |out| ==> out[i].key < out[j].key
    ensures forall r :: r in out ==> Visible(AsSet(tables), r)
    ensures FragmentsOf(frags, tables)
    ensures GapsCovered(frags) ==> forall r :: r in out <==> Visible(AsSet(tables), r)
  {
    var it := Open(tables);
    frags := it.checker.frags;
    out := Drain(it);
    StreamsMerge(tables);
    forall r ensures (r in out ==> Visible(AsSet(tables), r)) && (GapsCovered(frags) && Visible(AsSet(tables), r) ==> r in out) {
      ScannedShows(tables, Start(StreamsOf(tables)), frags, None, it.stream, out, r);
    }
  }

  /**
   A seek, or a restart, of an iterator that has been read to anywhere, and then a scan: it shows records of the tables
   that were not exhausted; with all gaps covered exactly the visible ones from the target on, if and only if no record
   of an exhausted table decides its key.
   */
  method ScanFrom(it: TableMergeIterator, ghost tables: seq<Table>, origin: Option<Key>) returns (out: seq<Record>)
    requires Over(it, tables)
    modifies it, it.raw, it.raw.heap, it.checker
    ensures forall i, j :: 0 <= i < j < |out| ==> out[i].key < out[j].key
    ensures forall r :: r in out ==> From(origin, r) && ShownOf(old(Unread(tables, it.raw.heap.pos)), AsSet(tables), r)
    ensures GapsCovered(it.checker.frags) ==>
              forall r :: From(origin, r) && ShownOf(old(Unread(tables, it.raw.heap.pos)), AsSet(tables), r) ==> r in out
    ensures forall r: Record :: r in out ==> (origin.Some? ==> origin.value <= r.key)
    ensures GapsCovered(it.checker.frags) ==>
              forall r: Record :: (origin.Some? ==> origin.value <= r.key) && ShownOf(old(Unread(tables, it.raw.heap.pos)), AsSet(tables), r) ==> r in out
    ensures GapsCovered(it.checker.frags) ==>
              ((forall r :: r in out <==> From(origin, r) && Visible(AsSet(tables), r)) <==>
               (forall r :: !LossShows(old(Unread(tables, it.raw.heap.pos)), AsSet(tables), origin, r)))
  {
    ghost var pos := it.raw.heap.pos;
    ghost var kept := Unread(tables, pos);
    if origin.None? {
      it.SeekToFirst();
    } else {
      it.Seek(origin.value);
    }
    out := Drain(it);
    ScanIsExactIff(tables, pos, it.checker.frags, origin, it.stream, out);
  }

  lemma ScanIsExactIff(tables: seq<Table>, pos: seq<nat>, frags: seq<seq<Tombstone>>, origin: Option<Key>, stream: seq<Record>, out: seq<Record>)
    requires Positions(StreamsOf(tables), pos) && AllSorted(StreamsOf(tables)) && UniqueVersions(AsSet(tables))
    requires FragmentsOf(frags, tables)
    requires stream == Restarted(StreamsOf(tables), pos, origin) && ScannedTo(stream, frags, |stream|, out)
    ensures forall r :: r in out ==> From(origin, r) && ShownOf(Unread(tables, pos), AsSet(tables), r)
    ensures GapsCovered(frags) ==> forall r :: From(origin, r) && ShownOf(Unread(tables, pos), AsSet(tables), r) ==> r in out
    ensures GapsCovered(frags) ==>
              ((forall r :: r in out <==> From(origin, r) && Visible(AsSet(tables), r)) <==>
               (forall r :: !LossShows(Unread(tables, pos), AsSet(tables), origin, r)))
  {
    var kept, all := Unread(tables, pos), AsSet(tables);
    forall r ensures (r in out ==> From(origin, r) && ShownOf(kept, all, r)) && (GapsCovered(frags) && From(origin, r) && ShownOf(kept, all, r) ==> r in out) {
      ScannedShows(tables, pos, frags, origin, stream, out, r);
    }
    SeekExactIff(kept, all, origin);
    if GapsCovered(frags) {
      assert (forall r :: r in out <==> From(origin, r) && Visible(all, r)) <==> ShowsVisible(kept, all, origin);
    }
  }

  // ------------------------------------------------------------------ a deleted key that comes back

  lemma NoFragments(tables: seq<Table>, frags: seq<seq<Tombstone>>)
    requires FragmentsOf(frags, tables) && AllFragmented(frags) && forall i :: 0 <= i < |tables| ==> tables[i].rangeDels == []
    ensures GapsCovered(frags) && forall key, s: nat :: !CoveredByAny(frags, key, s)
  {
    forall i | 0 <= i < |frags| ensures frags[i] == [] {
      if frags[i] != [] {
        FirstCovers(frags[i]);
        assert false;
      }
    }
  }

  lemma FirstCovers(fs: seq<Tombstone>)
    requires Fragmented(fs) && |fs| > 0
    ensures Covered(fs, fs[0].start, 0)
  {
    assert fs[0] in fs && fs[0].Spans(fs[0].start);
  }

  /** A newer table holds the delete of a key, an older one its value and a record behind it. */
  ghost predicate DeletedBelow(tables: seq<Table>, del: Record, put: Record, next: Record) {
    && |tables| == 2 && tables[0].records == [del] && tables[1].records == [put, next]
    && (forall i :: 0 <= i < |tables| ==> tables[i].rangeDels == [])
    && del.key == put.key < next.key && del.seqId > put.seqId && del.op == Del && put.op != Del && next.op != Del
  }

  lemma DeletedAlone(tables: seq<Table>, del: Record, put: Record, next: Record, frags: seq<seq<Tombstone>>)
    requires DeletedBelow(tables, del, put, next) && AllFragmented(frags) && FragmentsOf(frags, tables)
    ensures GapsCovered(frags) && forall key, s: nat :: !CoveredByAny(frags, key, s)
  {
    NoFragments(tables, frags);
  }

  lemma DeletedUnique(tables: seq<Table>, del: Record, put: Record, next: Record)
    requires DeletedBelow(tables, del, put, next)
    ensures UniqueVersions(AsSet(tables)) && forall i :: 0 <= i < |tables| ==> tables[i].WellFormed()
    ensures forall r :: HasRecord(AsSet(tables), r) <==> r == del || r == put || r == next
  {
    assert tables[0] in AsSet(tables) && tables[1] in AsSet(tables);
    assert del in tables[0].records && put in tables[1].records && next in tables[1].records;
  }

  /** A new iterator stands on the record behind, the delete's table being exhausted. */
  lemma DeletePassed(tables: seq<Table>, del: Record, put: Record, next: Record, frags: seq<seq<Tombstone>>, stream: seq<Record>,
                     at: nat, pos: seq<nat>)
    requires DeletedBelow(tables, del, put, next) && AllFragmented(frags) && FragmentsOf(frags, tables)
    requires Positions(StreamsOf(tables), pos) && stream == Merged(StreamsOf(tables), Start(StreamsOf(tables)))
    requires at <= |stream| && Merged(StreamsOf(tables), pos) == stream[at..] && ScannedTo(stream, frags, at, [])
    requires at < |stream| ==> Head(stream, at) && Shows(frags, stream[at])
    ensures pos == [1, 1] && GapsCovered(frags)
  {
    var streams := StreamsOf(tables);
    DeletedUnique(tables, del, put, next);
    StreamsMerge(tables);
    DeletedAlone(tables, del, put, next, frags);
    StreamIs(tables, del, put, next);
    StandsBehind(stream, frags, at, del, put, next);
    NextLeft(streams, pos, stream, del, put, next);
  }

  lemma StandsBehind(stream: seq<Record>, frags: seq<seq<Tombstone>>, at: nat, del: Record, put: Record, next: Record)
    requires GapsCovered(frags) && forall key, s: nat :: !CoveredByAny(frags, key, s)
    requires stream == [del, put, next] && del.key == put.key < next.key && del.op == Del && next.op != Del
    requires at <= 3 && ScannedTo(stream, frags, at, []) && (at < 3 ==> Head(stream, at) && Shows(frags, stream[at]))
    ensures at == 2
  {
    if at == 3 {
      assert Head(stream, 2) && Shows(frags, stream[2]);
      assert ShownBefore(stream, frags, 3, next);
    }
  }

  lemma NextLeft(streams: seq<seq<Record>>, pos: seq<nat>, stream: seq<Record>, del: Record, put: Record, next: Record)
    requires Positions(streams, pos) && AllSorted(streams) && |streams| == 2 && streams[0] == [del] && streams[1] == [put, next]
    requires stream == [del, put, next] && Merged(streams, pos) == stream[2..] && del != next
    ensures pos == [1, 1]
  {
    MergedIs(streams, pos);
    assert stream[2..] == [next];
    TwoLeft(streams, pos);
    LeftOnly(streams, pos, del, put, next);
  }

  lemma StreamIs(tables: seq<Table>, del: Record, put: Record, next: Record)
    requires DeletedBelow(tables, del, put, next) && AllSorted(StreamsOf(tables))
    ensures Merged(StreamsOf(tables), Start(StreamsOf(tables))) == [del, put, next]
  {
    var streams := StreamsOf(tables);
    MergedIs(streams, Start(streams));
    TwoLeft(streams, Start(streams));
    assert streams[0][0..] == [del] && streams[1][0..] == [put, next];
    OnlyOrder(Merged(streams, Start(streams)), del, put, next);
  }

  lemma OnlyOrder(stream: seq<Record>, del: Record, put: Record, next: Record)
    requires Sorted(stream) && multiset(stream) == multiset([del]) + multiset([put, next])
    requires del.key == put.key < next.key && del.seqId > put.seqId
    ensures stream == [del, put, next]
  {
    var s := [del, put, next];
    assert s == [del] + [put, next];
    SortedUnique(s, stream);
  }

  lemma TwoLeft(streams: seq<seq<Record>>, pos: seq<nat>)
    requires Positions(streams, pos) && |streams| == 2
    ensures Remaining(streams, pos) == multiset(streams[0][pos[0]..]) + multiset(streams[1][pos[1]..])
  {
    var s, p := streams[..1], pos[..1];
    assert s[..0] == [] && p[..0] == [];
    assert Remaining(s, p) == multiset{} + multiset(streams[0][pos[0]..]);
  }

  lemma LeftOnly(streams: seq<seq<Record>>, pos: seq<nat>, del: Record, put: Record, next: Record)
    requires Positions(streams, pos) && |streams| == 2 && streams[0] == [del] && streams[1] == [put, next]
    requires multiset(streams[0][pos[0]..]) + multiset(streams[1][pos[1]..]) == multiset([next])
    requires del != next
    ensures pos == [1, 1]
  {
    assert |multiset(streams[0][pos[0]..]) + multiset(streams[1][pos[1]..])| == 1;
    assert del !in multiset([next]);
    assert del in multiset([del]);
    assert [del][0..] == [del];
  }

  /**
   The iterator of a scan is opened and then sent to the first record, as `NewDBIterator` does. Opening it passes by the
   deleted key and exhausts the delete's table; so the scan shows the deleted record.
   */
  method DeletedKeyReturns(tables: seq<Table>, ghost del: Record, put: Record, ghost next: Record) returns (out: seq<Record>)
    requires DeletedBelow(tables, del, put, next)
    ensures put in out && !Visible(AsSet(tables), put)
  {
    var it := OpenBehind(tables, del, put, next);
    ShownAgain(tables, del, put, next, it.raw.heap.pos);
    out := ScanFrom(it, tables, None);
  }

  method OpenBehind(tables: seq<Table>, ghost del: Record, ghost put: Record, ghost next: Record) returns (it: TableMergeIterator)
    requires DeletedBelow(tables, del, put, next)
    ensures fresh(it) && fresh(it.raw) && fresh(it.raw.heap) && fresh(it.checker)
    ensures Over(it, tables) && it.raw.heap.pos == [1, 1] && GapsCovered(it.checker.frags)
  {
    DeletedUnique(tables, del, put, next);
    StreamsMerge(tables);
    it := Open(tables);
    DeletePassed(tables, del, put, next, it.checker.frags, it.stream, it.at, it.raw.heap.pos);
  }

  lemma ShownAgain(tables: seq<Table>, del: Record, put: Record, next: Record, pos: seq<nat>)
    requires DeletedBelow(tables, del, put, next) && pos == [1, 1]
    ensures ShownOf(Unread(tables, pos), AsSet(tables), put) && !Visible(AsSet(tables), put)
  {
    DeletedUnique(tables, del, put, next);
    assert Unread(tables, pos) == {tables[1]} && put in tables[1].records;
    assert !Hides(AsSet(tables), put.key, put.seqId);
  }
}
