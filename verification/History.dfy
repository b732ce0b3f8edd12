/**
 Runs of the store: flushes with ever larger sequence numbers, and compactions in between.
 The history of a run is the set of tables it flushed; what the store shows must stay the
 view of that history.
 */
module History {
  import opened Keys
  import opened Options
  import opened Records
  import opened RangeTombstones
  import opened Tables
  import opened MergeLoop
  import opened SSTables
  import opened SSTableManager

  datatype Op = Flush(entries: seq<Record>, rangeDels: seq<Tombstone>) | Compact

  /** The table a flush would write; a flush without point entries writes none. */
  ghost function FlushTable(ops: seq<Op>, i: nat): Table
    requires i < |ops| && ops[i].Flush?
  {
    Table(i, 0, ops[i].entries, ops[i].rangeDels)
  }

  ghost function Flushed(ops: seq<Op>): (history: set<Table>) {
    set i | 0 <= i < |ops| && ops[i].Flush? && ops[i].entries != [] :: FlushTable(ops, i)
  }

  ghost predicate Occurs(tables: set<Table>, s: nat) {
    exists t :: t in tables && t.HasSeq(s)
  }

  /** Every sequence number of `t` is larger than all those in `tables`. */
  ghost predicate NewerThan(t: Table, tables: set<Table>) {
    forall s, s' :: Occurs(tables, s) && t.HasSeq(s') ==> s < s'
  }

  /** What the source promises of flushes: one record per key, and sequence numbers that only grow. */
  ghost predicate GoodRun(ops: seq<Op>, now: int) {
    forall i :: 0 <= i < |ops| && ops[i].Flush? ==>
      && DistinctKeys(ops[i].entries)
      && (forall e :: e in ops[i].entries ==> !Expired(e, now))
      && NewerThan(FlushTable(ops, i), Flushed(ops[..i]))
  }

  lemma FlushedStep(ops: seq<Op>, n: nat)
    requires n < |ops|
    ensures ops[n].Compact? || ops[n].entries == [] ==> Flushed(ops[..n + 1]) == Flushed(ops[..n])
    ensures ops[n].Flush? && ops[n].entries != [] ==> Flushed(ops[..n + 1]) == Flushed(ops[..n]) + {FlushTable(ops, n)}
  {
    var a, b := ops[..n], ops[..n + 1];
    forall t ensures t in Flushed(b) <==> t in Flushed(a) || (ops[n].Flush? && ops[n].entries != [] && t == FlushTable(ops, n)) {
      if t in Flushed(a) {
        var i :| 0 <= i < |a| && a[i].Flush? && a[i].entries != [] && t == FlushTable(a, i);
        assert t == FlushTable(b, i);
      }
      if ops[n].Flush? && ops[n].entries != [] && t == FlushTable(ops, n) {
        assert t == FlushTable(b, n);
      }
      if t in Flushed(b) {
        var i :| 0 <= i < |b| && b[i].Flush? && b[i].entries != [] && t == FlushTable(b, i);
        if i < n {
          assert t == FlushTable(a, i);
        }
      }
    }
  }

  /** Two tables with the same records and the same tombstones. */
  ghost predicate SameContents(a: Table, b: Table) {
    a.rangeDels == b.rangeDels && forall r :: r in a.records <==> r in b.records
  }

  /** What a newer table makes of a view, said without mentioning the older tables again. */
  ghost predicate Overlaid(view: bool, t: Table, r: Record) {
    && r.op != Del && !Covered(t.rangeDels, r.key, r.seqId)
    && if r in t.records then forall x :: x in t.records && x.key == r.key ==> x.seqId <= r.seqId
       else view && forall x :: x in t.records ==> x.key != r.key
  }

  lemma HasRecordAdded(tables: set<Table>, t: Table, r: Record)
    ensures HasRecord(tables + {t}, r) <==> HasRecord(tables, r) || r in t.records
  {
    assert t in tables + {t};
    if HasRecord(tables, r) {
      var x :| x in tables && r in x.records;
      assert x in tables + {t};
    }
  }

  lemma HidesAdded(tables: set<Table>, t: Table, key: Key, s: nat)
    ensures Hides(tables + {t}, key, s) <==> Hides(tables, key, s) || Covered(t.rangeDels, key, s)
  {
    assert t in tables + {t};
    if Hides(tables, key, s) {
      var x :| x in tables && Covered(x.rangeDels, key, s);
      assert x in tables + {t};
    }
  }

  lemma NewerBeatsOlder(tables: set<Table>, t: Table, r: Record, x: Record)
    requires NewerThan(t, tables) && r in t.records && HasRecord(tables, x)
    ensures x.seqId < r.seqId
  {
    var u :| u in tables && x in u.records;
    assert u.HasSeq(x.seqId) && t.HasSeq(r.seqId);
    assert Occurs(tables, x.seqId);
  }

  lemma OlderHidesNothing(tables: set<Table>, t: Table, r: Record)
    requires NewerThan(t, tables) && r in t.records
    ensures !Hides(tables, r.key, r.seqId)
  {
    if Hides(tables, r.key, r.seqId) {
      var u :| u in tables && Covered(u.rangeDels, r.key, r.seqId);
      var d :| d in u.rangeDels && d.Spans(r.key) && d.seqId > r.seqId;
      assert u.HasSeq(d.seqId) && t.HasSeq(r.seqId);
      assert Occurs(tables, d.seqId);
      assert false;
    }
  }

  /** A table newer than all others overlays the view. */
  lemma VisibleAfterFlush(tables: set<Table>, t: Table, r: Record)
    requires NewerThan(t, tables)
    ensures Visible(tables + {t}, r) <==> Overlaid(Visible(tables, r), t, r)
  {
    var all := tables + {t};
    HasRecordAdded(tables, t, r);
    HidesAdded(tables, t, r.key, r.seqId);
    forall x ensures HasRecord(all, x) <==> HasRecord(tables, x) || x in t.records {
      HasRecordAdded(tables, t, x);
    }
    if r in t.records {
      OlderHidesNothing(tables, t, r);
      forall x | HasRecord(tables, x) ensures x.seqId < r.seqId {
        NewerBeatsOlder(tables, t, r, x);
      }
    } else if HasRecord(tables, r) {
      forall x | x in t.records ensures r.seqId < x.seqId {
        NewerBeatsOlder(tables, t, x, r);
      }
    }
  }

  /** Flushing the same newer table on top of two stores with the same view keeps the views equal. */
  lemma FlushKeepsSameView(a: set<Table>, b: set<Table>, t: Table, u: Table)
    requires SameView(a, b) && SameContents(t, u) && NewerThan(t, a) && NewerThan(u, b)
    ensures SameView(a + {t}, b + {u})
  {
    forall r ensures Visible(a + {t}, r) <==> Visible(b + {u}, r) {
      VisibleAfterFlush(a, t, r);
      VisibleAfterFlush(b, u, r);
    }
  }

  /** The store shows its history, and holds no sequence number the history does not have. */
  ghost predicate Faithful(tables: set<Table>, history: set<Table>, now: int) {
    SameView(history, tables) && Sourced(tables, history, now)
  }

  /** The store holds no sequence number that its history does not have, and nothing expired. */
  ghost predicate Sourced(tables: set<Table>, history: set<Table>, now: int) {
    (forall s :: Occurs(tables, s) ==> Occurs(history, s)) && NoneExpired(tables, now)
  }

  lemma SameSeqs(a: Table, b: Table, s: nat)
    requires SameContents(a, b) && a.HasSeq(s)
    ensures b.HasSeq(s)
  {
    if r :| r in a.records && r.seqId == s {
      assert r in b.records;
    }
  }

  lemma FlushSourced(tables: set<Table>, history: set<Table>, t: Table, u: Table, now: int)
    requires Sourced(tables, history, now) && SameContents(t, u) && NewerThan(u, history)
    requires forall r :: r in u.records ==> !Expired(r, now)
    ensures NewerThan(t, tables) && Sourced(tables + {t}, history + {u}, now)
  {
    forall s, s' | Occurs(tables, s) && t.HasSeq(s') ensures s < s' {
      SameSeqs(t, u, s');
    }
    forall s | Occurs(tables + {t}, s) ensures Occurs(history + {u}, s) {
      var x :| x in tables + {t} && x.HasSeq(s);
      if x == t {
        SameSeqs(t, u, s);
        assert u in history + {u};
      } else {
        assert Occurs(tables, s);
        var h :| h in history && h.HasSeq(s);
        assert h in history + {u};
      }
    }
    forall r | HasRecord(tables + {t}, r) ensures !Expired(r, now) {
      HasRecordAdded(tables, t, r);
    }
  }

  /** A flush that obeys the run's promises keeps the store faithful. */
  lemma FlushFaithful(tables: set<Table>, history: set<Table>, t: Table, u: Table, now: int)
    requires Faithful(tables, history, now) && SameContents(t, u) && NewerThan(u, history)
    requires forall r :: r in u.records ==> !Expired(r, now)
    ensures NewerThan(t, tables)
    ensures Faithful(tables + {t}, history + {u}, now)
  {
    FlushSourced(tables, history, t, u, now);
    FlushKeepsSameView(history, tables, u, t);
  }

  /** Entries newer than the history repeat no version the store holds. */
  lemma FreshVersions(tables: set<Table>, history: set<Table>, u: Table, now: int)
    requires Sourced(tables, history, now) && NewerThan(u, history)
    ensures forall a, b :: a in u.records && HasRecord(tables, b) ==> a.key != b.key || a.seqId != b.seqId
  {
    forall a, b | a in u.records && HasRecord(tables, b) ensures a.seqId != b.seqId {
      var t :| t in tables && b in t.records;
      assert t.HasSeq(b.seqId) && u.HasSeq(a.seqId);
      assert Occurs(tables, b.seqId);
    }
  }

  /** A merge introduces no sequence number. */
  lemma MergeSeqs(m: Table, inputs: set<Table>, skip: bool, s: nat)
    requires MergeOf(m, inputs, skip) && m.HasSeq(s)
    ensures Occurs(inputs, s)
  {
    if r :| r in m.records && r.seqId == s {
      var t :| t in inputs && r in t.records;
      assert t.HasSeq(s);
    } else {
      var d :| d in m.rangeDels && d.seqId == s;
    }
  }

  lemma MergeSourced(all: set<Table>, inputs: set<Table>, m: Table, skip: bool, history: set<Table>, now: int)
    requires Sourced(all, history, now) && inputs <= all && MergeOf(m, inputs, skip)
    ensures Sourced(Replaced(all, inputs, m), history, now)
  {
    var after := Replaced(all, inputs, m);
    forall s | Occurs(after, s) ensures Occurs(history, s) {
      var x :| x in after && x.HasSeq(s);
      if x == m {
        MergeSeqs(m, inputs, skip, s);
        var y :| y in inputs && y.HasSeq(s);
        assert Occurs(all, s);
      } else {
        assert Occurs(all, s);
      }
    }
    forall r | HasRecord(after, r) ensures !Expired(r, now) {
      MergeOnlyKeeps(all, inputs, m, r);
    }
  }

  /** A merge that keeps the view keeps the store faithful. */
  lemma MergeFaithful(all: set<Table>, inputs: set<Table>, m: Table, skip: bool, history: set<Table>, now: int)
    requires Faithful(all, history, now) && inputs <= all && MergeOf(m, inputs, skip)
    requires SameView(all, Replaced(all, inputs, m))
    ensures Faithful(Replaced(all, inputs, m), history, now)
  {
    MergeSourced(all, inputs, m, skip, history, now);
  }

  /** The answer to a lookup that the history calls for: the visible write of the key, unless it has expired. */
  ghost predicate Answers(history: set<Table>, key: Key, now: int, found: Option<Record>) {
    match found
    case Some(r) => r.key == key && Visible(history, r) && !Expired(r, now)
    case None => forall r: Record :: r.key == key && Visible(history, r) ==> Expired(r, now)
  }

  // ------------------------------------------------------------------ flushes without point entries

  /** All that was handed to a flush, whether or not a table came of it. */
  ghost function Written(ops: seq<Op>): (history: set<Table>) {
    set i | 0 <= i < |ops| && ops[i].Flush? :: FlushTable(ops, i)
  }

  /** A tombstone of a flush without point entries, which writes no table, covers the record. */
  ghost predicate LostCover(ops: seq<Op>, key: Key, seqId: nat) {
    exists i :: 0 <= i < |ops| && ops[i].Flush? && ops[i].entries == [] && Covered(ops[i].rangeDels, key, seqId)
  }

  lemma WrittenRecords(ops: seq<Op>, r: Record)
    ensures HasRecord(Written(ops), r) <==> HasRecord(Flushed(ops), r)
  {
    if t :| t in Written(ops) && r in t.records {
      var i :| 0 <= i < |ops| && ops[i].Flush? && t == FlushTable(ops, i);
      assert ops[i].entries != [];
      assert t in Flushed(ops);
    }
    if t :| t in Flushed(ops) && r in t.records {
      assert t in Written(ops);
    }
  }

  lemma WrittenHides(ops: seq<Op>, key: Key, s: nat)
    ensures Hides(Written(ops), key, s) <==> Hides(Flushed(ops), key, s) || LostCover(ops, key, s)
  {
    if t :| t in Written(ops) && Covered(t.rangeDels, key, s) {
      var i :| 0 <= i < |ops| && ops[i].Flush? && t == FlushTable(ops, i);
      assert ops[i].entries != [] ==> t in Flushed(ops);
    }
    if t :| t in Flushed(ops) && Covered(t.rangeDels, key, s) {
      assert t in Written(ops);
    }
    if i :| 0 <= i < |ops| && ops[i].Flush? && ops[i].entries == [] && Covered(ops[i].rangeDels, key, s) {
      assert FlushTable(ops, i) in Written(ops);
    }
  }

  /** What the writes make visible is what the flushed tables do, less what a lost tombstone covers. */
  lemma WrittenView(ops: seq<Op>, r: Record)
    ensures Visible(Written(ops), r) <==> Visible(Flushed(ops), r) && !LostCover(ops, r.key, r.seqId)
  {
    WrittenHides(ops, r.key, r.seqId);
    forall x ensures HasRecord(Written(ops), x) <==> HasRecord(Flushed(ops), x) {
      WrittenRecords(ops, x);
    }
  }

  /** A store that shows the flushed tables shows all writes if and only if no lost tombstone covers what those make visible. */
  lemma ShowsWritesExactly(ops: seq<Op>, tables: set<Table>)
    requires SameView(Flushed(ops), tables)
    ensures SameView(Written(ops), tables) <==> forall r :: Visible(Flushed(ops), r) ==> !LostCover(ops, r.key, r.seqId)
  {
    forall r ensures Visible(Written(ops), r) <==> Visible(tables, r) && !LostCover(ops, r.key, r.seqId) {
      WrittenView(ops, r);
    }
  }

  /** A lookup in such a store answers what the writes call for if and only if no lost tombstone covers the live record of the key. */
  lemma AnswersWritesExactly(ops: seq<Op>, key: Key, now: int, found: Option<Record>)
    requires Answers(Flushed(ops), key, now, found)
    ensures Answers(Written(ops), key, now, found) <==>
            forall r: Record :: r.key == key && Visible(Flushed(ops), r) && !Expired(r, now) ==> !LostCover(ops, key, r.seqId)
  {
    forall r: Record ensures Visible(Written(ops), r) <==> Visible(Flushed(ops), r) && !LostCover(ops, r.key, r.seqId) {
      WrittenView(ops, r);
    }
    if found.Some? {
      forall r: Record | r.key == key && Visible(Flushed(ops), r) ensures r.seqId == found.value.seqId {
        assert IsNewest(Flushed(ops), r) && IsNewest(Flushed(ops), found.value);
      }
    }
  }
}
