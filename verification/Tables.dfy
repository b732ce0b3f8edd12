/**
 Tables and what a set of tables says about a key.

 `Visible` is the abstract view of the store: the newest record of a key across all tables,
 unless it is a delete or some newer range tombstone spans the key. Reading and compaction
 are both judged against it.
 */
module Tables {
  import opened Keys
  import opened Records
  import opened RangeTombstones

  /** One table: its records in key order and the range tombstones stored with them. */
  datatype Table = Table(id: nat, layer: nat, records: seq<Record>, rangeDels: seq<Tombstone>) {
    /** Tables hold at least one record, and no key twice. */
    ghost predicate WellFormed() {
      |records| > 0 && forall i, j :: 0 <= i < j < |records| ==> records[i].key < records[j].key
    }

    /** Smallest and largest key, as the metadata records them; tombstones do not count. */
    function MinKey(): Key { if |records| == 0 then 0.0 else records[0].key }

    function MaxKey(): Key { if |records| == 0 then 0.0 else records[|records| - 1].key }

    /** Sequence number `s` occurs in the table, on a record or on a tombstone. */
    ghost predicate HasSeq(s: nat) {
      (exists r :: r in records && r.seqId == s) || (exists d :: d in rangeDels && d.seqId == s)
    }
  }

  /** The recorded range of a table is that of its keys. */
  lemma KeyRange(t: Table)
    requires t.WellFormed()
    ensures forall r :: r in t.records ==> t.MinKey() <= r.key <= t.MaxKey()
    ensures (exists r :: r in t.records && r.key == t.MinKey()) && (exists r :: r in t.records && r.key == t.MaxKey())
  {
    assert t.records[0] in t.records && t.records[|t.records| - 1] in t.records;
    forall r | r in t.records ensures t.MinKey() <= r.key <= t.MaxKey() {
      var i :| 0 <= i < |t.records| && t.records[i] == r;
    }
  }

  ghost predicate HasRecord(tables: set<Table>, r: Record) {
    exists t :: t in tables && r in t.records
  }

  /** Some tombstone of some table hides records of this key up to this sequence number. */
  ghost predicate Hides(tables: set<Table>, key: Key, seqId: nat) {
    exists t :: t in tables && Covered(t.rangeDels, key, seqId)
  }

  ghost predicate IsNewest(tables: set<Table>, r: Record) {
    HasRecord(tables, r) && forall x :: HasRecord(tables, x) && x.key == r.key ==> x.seqId <= r.seqId
  }

  /** The abstract view: `r` is what the store currently holds for its key. */
  ghost predicate Visible(tables: set<Table>, r: Record) {
    IsNewest(tables, r) && r.op != Del && !Hides(tables, r.key, r.seqId)
  }

  ghost predicate SameView(a: set<Table>, b: set<Table>) {
    forall r :: Visible(a, r) <==> Visible(b, r)
  }

  /** A key and a sequence number identify at most one record. */
  ghost predicate UniqueVersions(tables: set<Table>) {
    forall a, b :: HasRecord(tables, a) && HasRecord(tables, b) && a.key == b.key && a.seqId == b.seqId ==> a == b
  }

  /** All records of all tables. */
  ghost function RecordsOf(tables: set<Table>): (rs: set<Record>)
    ensures forall r :: r in rs <==> HasRecord(tables, r)
  {
    set t, r | t in tables && r in t.records :: r
  }

  lemma VisibleUnique(tables: set<Table>, a: Record, b: Record)
    requires UniqueVersions(tables) && Visible(tables, a) && Visible(tables, b) && a.key == b.key
    ensures a == b
  {
  }

  lemma {:induction false} MaxOf(rs: set<Record>, r: Record) returns (n: Record)
    requires r in rs
    ensures n in rs && n.key == r.key && n.seqId >= r.seqId
    ensures forall x :: x in rs && x.key == r.key ==> x.seqId <= n.seqId
    decreases rs
  {
    if x :| x in rs && x.key == r.key && x.seqId > r.seqId {
      n := MaxOf(rs - {r}, x);
    } else {
      n := r;
    }
  }

  /** Every key that has a record has a newest one. */
  lemma NewestExists(tables: set<Table>, r: Record) returns (n: Record)
    requires HasRecord(tables, r)
    ensures IsNewest(tables, n) && n.key == r.key && n.seqId >= r.seqId
  {
    n := MaxOf(RecordsOf(tables), r);
  }

  lemma HidesOlder(tables: set<Table>, key: Key, s: nat, s': nat)
    requires Hides(tables, key, s) && s' <= s
    ensures Hides(tables, key, s')
  {
    var t :| t in tables && Covered(t.rangeDels, key, s);
    var d :| d in t.rangeDels && d.Spans(key) && d.seqId > s;
    assert d.Spans(key) && d.seqId > s';
    assert Covered(t.rangeDels, key, s');
  }

  // ------------------------------------------------------------------ merging

  /** Which newest records a merge of `inputs` writes (internal/sstable/manager.go:394-406). */
  ghost predicate Keeps(inputs: set<Table>, skipTombstones: bool, r: Record) {
    if r.op == Del then !skipTombstones else !Hides(inputs, r.key, r.seqId)
  }

  /** No newest record of the inputs is kept. */
  ghost predicate NothingKept(inputs: set<Table>, skipTombstones: bool) {
    forall r :: IsNewest(inputs, r) ==> !Keeps(inputs, skipTombstones, r)
  }

  /** Table `m` is the result of merging `inputs`. */
  ghost predicate MergeOf(m: Table, inputs: set<Table>, skipTombstones: bool) {
    (forall r :: r in m.records <==> IsNewest(inputs, r) && Keeps(inputs, skipTombstones, r)) && TombstonesOf(m, inputs, skipTombstones)
  }

  /** The tombstones of the result: fragments that cover what the inputs' do, or none. */
  ghost predicate TombstonesOf(m: Table, inputs: set<Table>, skipTombstones: bool) {
    && (if skipTombstones then m.rangeDels == []
        else forall key, s: nat :: Covered(m.rangeDels, key, s) <==> Hides(inputs, key, s))
    && Fragmented(m.rangeDels)
    && (forall d :: d in m.rangeDels ==> exists t :: t in inputs && t.HasSeq(d.seqId))
  }

  /** The tables after `inputs` have been replaced by `m`. */
  ghost function Replaced(all: set<Table>, inputs: set<Table>, m: Table): set<Table> {
    all - inputs + {m}
  }

  lemma HasRecordSplit(all: set<Table>, inputs: set<Table>, m: Table, r: Record)
    requires inputs <= all
    ensures HasRecord(all, r) <==> HasRecord(all - inputs, r) || HasRecord(inputs, r)
    ensures HasRecord(Replaced(all, inputs, m), r) <==> HasRecord(all - inputs, r) || r in m.records
  {
    if t :| t in all && r in t.records {
      assert t in inputs || t in all - inputs;
    }
    assert m in Replaced(all, inputs, m);
    if HasRecord(all - inputs, r) {
      var t :| t in all - inputs && r in t.records;
      assert t in Replaced(all, inputs, m);
    }
  }

  lemma HidesSplit(all: set<Table>, inputs: set<Table>, m: Table, key: Key, s: nat)
    requires inputs <= all
    ensures Hides(all, key, s) <==> Hides(all - inputs, key, s) || Hides(inputs, key, s)
    ensures Hides(Replaced(all, inputs, m), key, s) <==> Hides(all - inputs, key, s) || Covered(m.rangeDels, key, s)
  {
    if t :| t in all && Covered(t.rangeDels, key, s) {
      assert t in inputs || t in all - inputs;
    }
    assert m in Replaced(all, inputs, m);
    if Hides(all - inputs, key, s) {
      var t :| t in all - inputs && Covered(t.rangeDels, key, s);
      assert t in Replaced(all, inputs, m);
    }
  }

  /** A merge only keeps records its inputs had. */
  ghost predicate DrawnFrom(m: Table, inputs: set<Table>) {
    forall r :: r in m.records ==> HasRecord(inputs, r)
  }

  lemma MergeOnlyKeeps(all: set<Table>, inputs: set<Table>, m: Table, r: Record)
    requires inputs <= all && DrawnFrom(m, inputs)
    requires HasRecord(Replaced(all, inputs, m), r)
    ensures HasRecord(all, r)
  {
    HasRecordSplit(all, inputs, m, r);
  }

  lemma UniqueAfterMerge(all: set<Table>, inputs: set<Table>, m: Table)
    requires inputs <= all && DrawnFrom(m, inputs) && UniqueVersions(all)
    ensures UniqueVersions(Replaced(all, inputs, m))
  {
    var after := Replaced(all, inputs, m);
    forall a, b | HasRecord(after, a) && HasRecord(after, b) && a.key == b.key && a.seqId == b.seqId
      ensures a == b
    {
      MergeOnlyKeeps(all, inputs, m, a);
      MergeOnlyKeeps(all, inputs, m, b);
    }
  }

  lemma VisibleSurvives(all: set<Table>, inputs: set<Table>, m: Table, r: Record)
    requires inputs <= all && MergeOf(m, inputs, false) && Visible(all, r)
    ensures Visible(Replaced(all, inputs, m), r)
  {
    var after := Replaced(all, inputs, m);
    HasRecordSplit(all, inputs, m, r);
    HidesSplit(all, inputs, m, r.key, r.seqId);
    if HasRecord(inputs, r) {
      forall x | HasRecord(inputs, x) && x.key == r.key ensures x.seqId <= r.seqId {
        HasRecordSplit(all, inputs, m, x);
      }
      assert IsNewest(inputs, r);
    }
    forall x | HasRecord(after, x) && x.key == r.key ensures x.seqId <= r.seqId {
      MergeOnlyKeeps(all, inputs, m, x);
    }
  }

  lemma NothingRevived(all: set<Table>, inputs: set<Table>, m: Table, r: Record)
    requires inputs <= all && MergeOf(m, inputs, false) && Visible(Replaced(all, inputs, m), r)
    ensures Visible(all, r)
  {
    var after := Replaced(all, inputs, m);
    MergeOnlyKeeps(all, inputs, m, r);
    HidesSplit(all, inputs, m, r.key, r.seqId);
    forall x | HasRecord(all, x) && x.key == r.key ensures x.seqId <= r.seqId {
      HasRecordSplit(all, inputs, m, x);
      if x.seqId > r.seqId {
        var n := NewestExists(inputs, x);
        HasRecordSplit(all, inputs, m, n);
        assert n !in m.records;
        assert Hides(inputs, r.key, n.seqId);
        HidesOlder(inputs, r.key, n.seqId, r.seqId);
        assert false;
      }
    }
  }

  /** Merging any subset of the tables and keeping tombstones changes no key's view. */
  lemma MergePreservesView(all: set<Table>, inputs: set<Table>, m: Table)
    requires inputs <= all && MergeOf(m, inputs, false)
    ensures SameView(all, Replaced(all, inputs, m))
  {
    forall r ensures Visible(all, r) <==> Visible(Replaced(all, inputs, m), r) {
      if Visible(all, r) {
        VisibleSurvives(all, inputs, m, r);
      }
      if Visible(Replaced(all, inputs, m), r) {
        NothingRevived(all, inputs, m, r);
      }
    }
  }

  /**
   What makes dropping tombstones safe: every record outside the inputs is newer than every
   input record of its key, and no input tombstone hides it.
   */
  ghost predicate InputsAreOldest(all: set<Table>, inputs: set<Table>) {
    forall x :: HasRecord(all - inputs, x) ==>
      && !Hides(inputs, x.key, x.seqId)
      && forall y :: HasRecord(inputs, y) && y.key == x.key ==> y.seqId < x.seqId
  }

  /** Dropping tombstones while merging the oldest tables changes no key's view. */
  lemma DroppingPreservesView(all: set<Table>, inputs: set<Table>, m: Table)
    requires inputs <= all && MergeOf(m, inputs, true) && InputsAreOldest(all, inputs)
    ensures SameView(all, Replaced(all, inputs, m))
  {
    DroppingExactly(all, inputs, m);
  }

  // ------------------------------------------------------------------ dropping tombstones too early

  /** Every record outside the inputs is newer than every input record of its key. */
  ghost predicate VersionsOldest(all: set<Table>, inputs: set<Table>) {
    forall x, y :: HasRecord(all - inputs, x) && HasRecord(inputs, y) && y.key == x.key ==> y.seqId < x.seqId
  }

  /** A newest record outside the inputs that only their tombstones hide. */
  ghost predicate Uncovered(all: set<Table>, inputs: set<Table>, r: Record) {
    && HasRecord(all - inputs, r) && IsNewest(all, r) && r.op != Del
    && Hides(inputs, r.key, r.seqId) && !Hides(all - inputs, r.key, r.seqId)
  }

  ghost predicate NothingUncovered(all: set<Table>, inputs: set<Table>) { forall r :: !Uncovered(all, inputs, r) }

  lemma UncoveredShows(all: set<Table>, inputs: set<Table>, m: Table, r: Record)
    requires inputs <= all && MergeOf(m, inputs, true) && Uncovered(all, inputs, r)
    ensures Visible(Replaced(all, inputs, m), r) && !Visible(all, r)
  {
    HasRecordSplit(all, inputs, m, r);
    HidesSplit(all, inputs, m, r.key, r.seqId);
    forall x | HasRecord(Replaced(all, inputs, m), x) && x.key == r.key ensures x.seqId <= r.seqId {
      MergeOnlyKeeps(all, inputs, m, x);
    }
  }

  lemma DroppedStaysVisible(all: set<Table>, inputs: set<Table>, m: Table, r: Record)
    requires inputs <= all && MergeOf(m, inputs, true) && Visible(all, r)
    ensures Visible(Replaced(all, inputs, m), r)
  {
    HasRecordSplit(all, inputs, m, r);
    HidesSplit(all, inputs, m, r.key, r.seqId);
    if HasRecord(inputs, r) {
      forall x | HasRecord(inputs, x) && x.key == r.key ensures x.seqId <= r.seqId {
        HasRecordSplit(all, inputs, m, x);
      }
      assert IsNewest(inputs, r);
    }
    forall x | HasRecord(Replaced(all, inputs, m), x) && x.key == r.key ensures x.seqId <= r.seqId {
      MergeOnlyKeeps(all, inputs, m, x);
    }
  }

  lemma DroppedRevives(all: set<Table>, inputs: set<Table>, m: Table, r: Record)
    requires inputs <= all && MergeOf(m, inputs, true) && VersionsOldest(all, inputs)
    requires Visible(Replaced(all, inputs, m), r)
    ensures Visible(all, r) || Uncovered(all, inputs, r)
  {
    HasRecordSplit(all, inputs, m, r);
    HidesSplit(all, inputs, m, r.key, r.seqId);
    forall x | HasRecord(all, x) && x.key == r.key ensures x.seqId <= r.seqId {
      HasRecordSplit(all, inputs, m, x);
    }
  }

  /** Dropping tombstones while merging the oldest versions changes the view if and only if it uncovers a record. */
  lemma DroppingExactly(all: set<Table>, inputs: set<Table>, m: Table)
    requires inputs <= all && MergeOf(m, inputs, true) && VersionsOldest(all, inputs)
    ensures SameView(all, Replaced(all, inputs, m)) <==> NothingUncovered(all, inputs)
  {
    if r :| Uncovered(all, inputs, r) {
      UncoveredShows(all, inputs, m, r);
    } else {
      forall r ensures Visible(all, r) <==> Visible(Replaced(all, inputs, m), r) {
        if Visible(all, r) {
          DroppedStaysVisible(all, inputs, m, r);
        }
        if Visible(Replaced(all, inputs, m), r) {
          DroppedRevives(all, inputs, m, r);
        }
      }
    }
  }
}
