/**
 Merging when records may have expired (internal/sstable/manager.go:455-467). A merge drops a key's
 newest record if it has expired and puts nothing in its place, so an older version in a table that
 is not merged may come to light again.
 */
module Expiry {
  import opened Keys
  import opened Records
  import opened RangeTombstones
  import opened Tables
  import opened MergeLoop

  /** What a reader is shown at time `now`. */
  ghost predicate Shown(tables: set<Table>, r: Record, now: int) {
    Visible(tables, r) && !Expired(r, now)
  }

  ghost predicate SameShown(a: set<Table>, b: set<Table>, now: int) {
    forall r :: Shown(a, r, now) <==> Shown(b, r, now)
  }

  /** The merge drops this record because it has expired. */
  ghost predicate DroppedExpired(inputs: set<Table>, x: Record, now: int) {
    IsNewest(inputs, x) && Keeps(inputs, false, x) && x.op != Del && Expired(x, now)
  }

  /** An older version outside the inputs that only the record dropped at time `now` kept from being shown. */
  ghost predicate Exposed(all: set<Table>, inputs: set<Table>, x: Record, y: Record, now: int, later: int) {
    && DroppedExpired(inputs, x, now) && y.key == x.key && y.seqId < x.seqId
    && IsNewest(all - inputs, y) && y.op != Del && !Hides(all, y.key, y.seqId) && !Expired(y, later)
  }

  lemma InputsShown(all: set<Table>, inputs: set<Table>, m: Table, r: Record, now: int, later: int)
    requires now <= later && inputs <= all && MergedAt(m, inputs, false, now) && Shown(all, r, later)
    ensures Shown(Replaced(all, inputs, m), r, later)
  {
    var after := Replaced(all, inputs, m);
    HasRecordSplit(all, inputs, m, r);
    HidesSplit(all, inputs, m, r.key, r.seqId);
    if HasRecord(inputs, r) {
      forall x | HasRecord(inputs, x) && x.key == r.key ensures x.seqId <= r.seqId {
        HasRecordSplit(all, inputs, m, x);
      }
      assert KeptAt(inputs, false, now, r);
    }
    forall x | HasRecord(after, x) && x.key == r.key ensures x.seqId <= r.seqId {
      MergeOnlyKeeps(all, inputs, m, x);
    }
  }

  /** What a merge brings to light was hidden by an expired record alone. */
  lemma NewlyShown(all: set<Table>, inputs: set<Table>, m: Table, r: Record, now: int, later: int) returns (x: Record)
    requires now <= later && inputs <= all && MergedAt(m, inputs, false, now)
    requires Shown(Replaced(all, inputs, m), r, later) && !Shown(all, r, later)
    ensures Exposed(all, inputs, x, r, now, later)
  {
    var after := Replaced(all, inputs, m);
    MergeOnlyKeeps(all, inputs, m, r);
    HidesSplit(all, inputs, m, r.key, r.seqId);
    var n := NewestExists(all, r);
    assert n.seqId > r.seqId;
    HasRecordSplit(all, inputs, m, n);
    x := NewestExists(inputs, n);
    HasRecordSplit(all, inputs, m, x);
    assert x !in m.records;
    if Hides(inputs, x.key, x.seqId) {
      HidesOlder(inputs, x.key, x.seqId, r.seqId);
    }
    HasRecordSplit(all, inputs, m, r);
    assert r in m.records ==> IsNewest(inputs, r);
    forall y | HasRecord(all - inputs, y) && y.key == r.key ensures y.seqId <= r.seqId {
      HasRecordSplit(all, inputs, m, y);
    }
  }

  /** An older version that is exposed is shown afterwards, and was not before. */
  lemma ExposedIsShown(all: set<Table>, inputs: set<Table>, m: Table, x: Record, y: Record, now: int, later: int)
    requires now <= later && inputs <= all && MergedAt(m, inputs, false, now) && UniqueVersions(all) && Exposed(all, inputs, x, y, now, later)
    ensures Shown(Replaced(all, inputs, m), y, later) && !Shown(all, y, later)
  {
    var after := Replaced(all, inputs, m);
    HasRecordSplit(all, inputs, m, x);
    HasRecordSplit(all, inputs, m, y);
    HidesSplit(all, inputs, m, y.key, y.seqId);
    forall z | HasRecord(after, z) && z.key == y.key ensures z.seqId <= y.seqId {
      HasRecordSplit(all, inputs, m, z);
    }
  }

  /**
   A merge that keeps tombstones changes nothing a later reader is shown if and only if no table outside
   the inputs holds, as its newest, a live older version of a key whose newest input record had expired.
   */
  lemma MergeShowsSameExactly(all: set<Table>, inputs: set<Table>, m: Table, now: int, later: int)
    requires now <= later && inputs <= all && MergedAt(m, inputs, false, now) && UniqueVersions(all)
    ensures SameShown(all, Replaced(all, inputs, m), later) <==> forall x, y :: !Exposed(all, inputs, x, y, now, later)
  {
    var after := Replaced(all, inputs, m);
    if x, y :| Exposed(all, inputs, x, y, now, later) {
      ExposedIsShown(all, inputs, m, x, y, now, later);
    } else {
      forall r ensures Shown(all, r, later) <==> Shown(after, r, later) {
        if Shown(all, r, later) {
          InputsShown(all, inputs, m, r, now, later);
        }
        if Shown(after, r, later) && !Shown(all, r, later) {
          var x := NewlyShown(all, inputs, m, r, now, later);
        }
      }
    }
  }

  /** Merging the oldest tables is safe whatever has expired: nothing older is left to expose. */
  lemma OldestShowsSame(all: set<Table>, inputs: set<Table>, m: Table, now: int, later: int)
    requires now <= later && inputs <= all && MergedAt(m, inputs, true, now) && InputsAreOldest(all, inputs)
    ensures SameShown(all, Replaced(all, inputs, m), later)
  {
    var after := Replaced(all, inputs, m);
    forall r ensures Shown(all, r, later) <==> Shown(after, r, later) {
      HasRecordSplit(all, inputs, m, r);
      HidesSplit(all, inputs, m, r.key, r.seqId);
      if Shown(all, r, later) {
        OldestKeepsShown(all, inputs, m, r, now, later);
      }
      if Shown(after, r, later) {
        OldestRevivesNothing(all, inputs, m, r, now, later);
      }
    }
  }

  lemma OldestKeepsShown(all: set<Table>, inputs: set<Table>, m: Table, r: Record, now: int, later: int)
    requires now <= later && inputs <= all && MergedAt(m, inputs, true, now) && InputsAreOldest(all, inputs) && Shown(all, r, later)
    ensures Shown(Replaced(all, inputs, m), r, later)
  {
    HasRecordSplit(all, inputs, m, r);
    HidesSplit(all, inputs, m, r.key, r.seqId);
    if HasRecord(inputs, r) {
      forall x | HasRecord(inputs, x) && x.key == r.key ensures x.seqId <= r.seqId {
        HasRecordSplit(all, inputs, m, x);
      }
      assert KeptAt(inputs, true, now, r);
    }
    forall x | HasRecord(Replaced(all, inputs, m), x) && x.key == r.key ensures x.seqId <= r.seqId {
      MergeOnlyKeeps(all, inputs, m, x);
    }
  }

  lemma OldestRevivesNothing(all: set<Table>, inputs: set<Table>, m: Table, r: Record, now: int, later: int)
    requires now <= later && inputs <= all && MergedAt(m, inputs, true, now) && InputsAreOldest(all, inputs)
    requires Shown(Replaced(all, inputs, m), r, later)
    ensures Shown(all, r, later)
  {
    HasRecordSplit(all, inputs, m, r);
    HidesSplit(all, inputs, m, r.key, r.seqId);
    forall x | HasRecord(all, x) && x.key == r.key ensures x.seqId <= r.seqId {
      HasRecordSplit(all, inputs, m, x);
    }
  }

  lemma TwoTables(a: Table, b: Table)
    requires a != b
    ensures {a, b} - {b} == {a}
    ensures forall r :: HasRecord({a, b}, r) <==> r in a.records || r in b.records
    ensures forall r :: HasRecord({a}, r) <==> r in a.records
    ensures forall r :: HasRecord({b}, r) <==> r in b.records
    ensures a.rangeDels == [] && b.rangeDels == [] ==> forall key, s: nat :: !Hides({a, b}, key, s) && !Hides({b}, key, s)
  {
    forall r ensures HasRecord({a, b}, r) <==> r in a.records || r in b.records {
      assert a in {a, b} && b in {a, b};
    }
    forall r ensures HasRecord({a}, r) <==> r in a.records {
      assert a in {a};
    }
    forall r ensures HasRecord({b}, r) <==> r in b.records {
      assert b in {b};
    }
  }

  lemma ThreeVersions(a: Table, b: Table, x: Record, y: Record, z: Record)
    requires a != b && a.records == [x] && b.records == [y, z]
    requires x.seqId != y.seqId && y.seqId != z.seqId && x.seqId != z.seqId
    ensures UniqueVersions({a, b})
    ensures forall r :: r in b.records <==> r == y || r == z
    ensures forall r :: r in a.records <==> r == x
  {
    TwoTables(a, b);
    assert forall r :: r in b.records <==> r == y || r == z;
  }

  /** A key written twice, the second time with a time to live; merging only the newer table after that shows the first write again. */
  lemma ExpiryExposes(first: Record, newer: Record, other: Record, a: Table, b: Table, m: Table)
    requires first == Record(1.0, [], 1, Put, 0) && newer == Record(1.0, [], 2, Put, 5) && other == Record(2.0, [], 3, Put, 0)
    requires a == Table(0, 1, [first], []) && b == Table(1, 0, [newer, other], []) && m == Table(2, 1, [other], [])
    ensures a.WellFormed() && b.WellFormed() && UniqueVersions({a, b}) && MergedAt(m, {b}, false, 10)
    ensures Shown(Replaced({a, b}, {b}, m), first, 10) && !Shown({a, b}, first, 10)
  {
    TwoTables(a, b);
    ThreeVersions(a, b, first, newer, other);
    assert MergedAt(m, {b}, false, 10) by {
      assert forall r :: r in m.records <==> r == other;
      assert IsNewest({b}, newer) && IsNewest({b}, other);
    }
    assert Exposed({a, b}, {b}, newer, first, 10, 10);
    ExposedIsShown({a, b}, {b}, m, newer, first, 10, 10);
  }
}
