/**
 A run of sixteen flushes and four leveled compactions (internal/lsm/strategy.go:22-122) after which a range-deleted
 record is back. A table with the record is merged again with newer tables it overlaps, which puts it behind the table
 with the tombstone; that one sinks first, and the merge of the last layer drops the tombstone.
 */
module LeveledLoss {
  import opened Keys
  import opened Options
  import opened Records
  import opened RangeTombstones
  import opened Tables
  import opened MergeLoop
  import opened SSTables
  import opened SSTableManager
  import opened History
  import opened Leveled
  import opened LeveledRuns

  /** The record that flush `n` writes. */
  function Rec(n: nat): Record { Record(KeyOf(n), [], 2 * n + 1, Put, 0) }

  function KeyOf(n: nat): Key {
    if n < 4 then 8.0 else if n == 5 then 1.0 else if n < 9 then 3.0 else if n < 14 then 5.0 else 3.0
  }

  /** The range delete that goes with flush 10. */
  function Del(): Tombstone { Tombstone(0.0, 2.0, 22) }

  function DelsOf(n: nat): seq<Tombstone> { if n == 10 then [Del()] else [] }

  /** Compactions after every four flushes. */
  function OpAt(n: nat): Op { if n % 5 == 4 then Compact else Flush([Rec(n)], DelsOf(n)) }

  function Ops(): seq<Op> { seq(20, n requires 0 <= n < 20 => OpAt(n)) }

  /** The second layer counts as oversized in the first and in the last compaction, the third one in the last. */
  function Oversized(n: nat, i: nat): bool { (n == 4 && i == 1) || n == 19 }

  // ------------------------------------------------------------------ the tables

  function Flat(n: nat): Table { Table(n, 0, [Rec(n)], DelsOf(n)) }

  /** The tables of flushes `a` to `n - 1`. */
  function Flats(a: nat, n: nat): (ts: seq<Table>)
    requires a <= n
  {
    if a == n then [] else Flats(a, n - 1) + [Flat(n - 1)]
  }

  function C(layer: nat): Table { Table(4, layer, [Rec(3)], []) }

  function B(): Table { Table(9, 1, [Rec(5), Rec(8)], []) }

  function A(layer: nat): Table { Table(14, layer, [Rec(13)], [Del()]) }

  function D(): Table { Table(19, 1, [Rec(5), Rec(18)], []) }

  function Last(): Table { Table(20, 2, [Rec(13), Rec(3)], []) }

  function LayersAt(n: nat): Layers
    requires n <= 20
  {
    if n <= 4 then [Flats(0, n)]
    else if n < 10 then [Flats(5, n), [], [C(2)]]
    else if n < 15 then [Flats(10, n), [B()], [C(2)]]
    else if n < 20 then [Flats(15, n), [B(), A(1)], [C(2)]]
    else [[], [D()], [Last()]]
  }

  function AllLayers(): seq<Layers> { seq(21, n requires 0 <= n < 21 => LayersAt(n)) }

  // ------------------------------------------------------------------ it is a good run

  lemma GoodOps()
    ensures GoodRun(Ops(), 0)
  {
    var ops := Ops();
    forall i | 0 <= i < |ops| && ops[i].Flush? ensures NewerThan(FlushTable(ops, i), Flushed(ops[..i])) {
      forall s: nat | Occurs(Flushed(ops[..i]), s) ensures s <= 2 * i {
        var t :| t in Flushed(ops[..i]) && t.HasSeq(s);
        var j :| 0 <= j < i && ops[..i][j].Flush? && t == FlushTable(ops[..i], j);
        SeqsOf(j, s, t);
      }
      forall s: nat | FlushTable(ops, i).HasSeq(s) ensures s > 2 * i {
        SeqsOf(i, s, FlushTable(ops, i));
      }
    }
  }

  lemma SeqsOf(n: nat, s: nat, t: Table)
    requires t.records == [Rec(n)] && t.rangeDels == DelsOf(n) && t.HasSeq(s)
    ensures 2 * n < s <= 2 * n + 2
  {
  }

  // ------------------------------------------------------------------ flushes

  lemma FlushFollows(n: nat)
    requires n < 20 && n % 5 != 4
    ensures FlushedInto(LayersAt(n), LayersAt(n + 1), [Rec(n)], DelsOf(n))
  {
    var t, before := Flat(n), LayersAt(n);
    assert FlushOf(t, [Rec(n)], DelsOf(n));
    assert LayersAt(n + 1) == before[0 := before[0] + [t]];
    assert Append(before, 0, t) == before[0 := before[0] + [t]];
  }

  // ------------------------------------------------------------------ merges

  /** The records of the readers. */
  ghost predicate Holds(readers: seq<Table>, all: seq<Record>) { forall r :: HasRecord(AsSet(readers), r) <==> r in all }

  lemma HoldsMore(readers: seq<Table>, all: seq<Record>, t: Table)
    requires Holds(readers, all)
    ensures Holds(readers + [t], all + t.records) && Holds([t] + readers, t.records + all)
  {
    assert AsSet(readers + [t]) == AsSet(readers) + {t} && AsSet([t] + readers) == AsSet(readers) + {t} by {
      SetOfMore(readers, t);
    }
    forall r ensures HasRecord(AsSet(readers) + {t}, r) <==> r in all || r in t.records {
      HasRecordAdded(AsSet(readers), t, r);
    }
  }

  lemma SetOfMore(readers: seq<Table>, t: Table)
    ensures AsSet(readers + [t]) == AsSet(readers) + {t} && AsSet([t] + readers) == AsSet(readers) + {t}
  {
    forall x ensures x in AsSet(readers) <==> x in readers {
    }
    forall x ensures x in AsSet(readers + [t]) <==> x in readers + [t] {
    }
    forall x ensures x in AsSet([t] + readers) <==> x in [t] + readers {
    }
  }

  /** Of all these records, `out` are the newest of each key, `pick` finding them. */
  ghost predicate Newest(all: seq<Record>, out: seq<Record>, pick: map<Key, Record>) {
    && (forall x :: x in out ==> x in all && x.key in pick && x == pick[x.key])
    && (forall r :: r in all ==> r.key in pick && pick[r.key] in out && pick[r.key].key == r.key
                                 && (r.seqId < pick[r.key].seqId || r == pick[r.key]))
  }

  lemma NewestIs(readers: seq<Table>, all: seq<Record>, out: seq<Record>, pick: map<Key, Record>, r: Record)
    requires Holds(readers, all) && Newest(all, out, pick)
    ensures IsNewest(AsSet(readers), r) <==> r in out
  {
    if IsNewest(AsSet(readers), r) {
      assert r in all && HasRecord(AsSet(readers), pick[r.key]);
    }
  }

  /** A merge of records that no tombstone covers: the newest of each key, and the tombstones. */
  lemma MergesTo(readers: seq<Table>, all: seq<Record>, m: Table, pick: map<Key, Record>, skip: bool)
    requires Holds(readers, all) && Newest(all, m.records, pick) && TombstonesOf(m, AsSet(readers), skip)
    requires forall r :: r in all ==> r.op == Put && !Hides(AsSet(readers), r.key, r.seqId)
    ensures MergeOf(m, AsSet(readers), skip)
  {
    forall r ensures r in m.records <==> IsNewest(AsSet(readers), r) && Keeps(AsSet(readers), skip, r) {
      NewestIs(readers, all, m.records, pick, r);
    }
  }

  lemma PlainMerges(readers: seq<Table>, all: seq<Record>, m: Table, pick: map<Key, Record>)
    requires Holds(readers, all) && Newest(all, m.records, pick) && (forall r :: r in all ==> r.op == Put)
    requires (forall t :: t in readers ==> t.rangeDels == []) && m.rangeDels == []
    ensures MergeOf(m, AsSet(readers), false)
  {
    MergesTo(readers, all, m, pick, false);
  }

  /** All of layer zero goes down with `lower`; what is left of layer one stays in front. */
  lemma LayersMerged(zero: seq<Table>, one: seq<Table>, two: seq<Table>, ids: set<nat>, rest: seq<Table>, m: Table)
    requires (forall t :: t in zero ==> t.id in ids) && (forall t :: t in two ==> t.id !in ids)
    requires Without(one, ids) == rest && m.id !in ids
    ensures Purge(Append([zero, one, two], 1, m), ids) == [[], rest + [m], two]
  {
    WithoutAll(zero, ids);
    WithoutPush(one, m, ids);
    WithoutNone(two, ids);
    assert Append([zero, one, two], 1, m) == [zero, one + [m], two];
  }

  lemma LayerMerged(zero: seq<Table>, ids: set<nat>, m: Table)
    requires (forall t :: t in zero ==> t.id in ids) && m.id !in ids
    ensures Purge(Append([zero, []], 1, m), ids) == [[], [m]]
  {
    WithoutAll(zero, ids);
    WithoutPush([], m, ids);
    assert Append([zero, []], 1, m) == [zero, [] + [m]];
    assert [] + [m] == [m];
  }

  lemma FourFlats(a: nat)
    ensures Flats(a, a + 4) == [Flat(a), Flat(a + 1), Flat(a + 2), Flat(a + 3)]
  {
    assert Flats(a, a) == [] && Flats(a, a + 1) == [Flat(a)];
    assert Flats(a, a + 2) == [Flat(a), Flat(a + 1)] && Flats(a, a + 3) == [Flat(a), Flat(a + 1), Flat(a + 2)];
  }

  // ------------------------------------------------------------------ the four merges of layer zero

  function Recs(a: nat, n: nat): (rs: seq<Record>)
    requires a <= n
  {
    if a == n then [] else Recs(a, n - 1) + [Rec(n - 1)]
  }

  lemma {:induction false} FlatsHold(a: nat, n: nat)
    requires a <= n
    ensures Holds(Flats(a, n), Recs(a, n))
  {
    if a < n {
      FlatsHold(a, n - 1);
      HoldsMore(Flats(a, n - 1), Recs(a, n - 1), Flat(n - 1));
    }
  }

  lemma FourRecs(a: nat)
    ensures Recs(a, a + 4) == [Rec(a), Rec(a + 1), Rec(a + 2), Rec(a + 3)]
  {
    assert Recs(a, a) == [] && Recs(a, a + 1) == [Rec(a)];
    assert Recs(a, a + 2) == [Rec(a), Rec(a + 1)] && Recs(a, a + 3) == [Rec(a), Rec(a + 1), Rec(a + 2)];
  }

  /** Four flushes of one key: the last one is the newest. */
  lemma FourNewest(a: nat, all: seq<Record>)
    requires all == Recs(a, a + 4) && KeyOf(a) == KeyOf(a + 1) == KeyOf(a + 2) == KeyOf(a + 3)
    ensures Newest(all, [Rec(a + 3)], map[KeyOf(a) := Rec(a + 3)])
  {
    FourRecs(a);
  }

  lemma {:induction false} FlatsPlain(a: nat, n: nat)
    requires a <= n && (n <= 10 || 10 < a)
    ensures (forall t :: t in Flats(a, n) ==> t.rangeDels == []) && forall r :: r in Recs(a, n) ==> r.op == Put
  {
    if a < n {
      FlatsPlain(a, n - 1);
    }
  }

  lemma SameKeyMerges(a: nat, m: Table)
    requires KeyOf(a) == KeyOf(a + 1) == KeyOf(a + 2) == KeyOf(a + 3) && (a + 4 <= 10 || 10 < a)
    requires m.records == [Rec(a + 3)] && m.rangeDels == []
    ensures MergeOf(m, AsSet(Flats(a, a + 4)), false)
  {
    FlatsHold(a, a + 4);
    FlatsPlain(a, a + 4);
    FourNewest(a, Recs(a, a + 4));
    PlainMerges(Flats(a, a + 4), Recs(a, a + 4), m, map[KeyOf(a) := Rec(a + 3)]);
  }

  lemma SecondNewest()
    ensures Newest(Recs(5, 9), [Rec(5), Rec(8)], map[1.0 := Rec(5), 3.0 := Rec(8)])
  {
    FourRecs(5);
  }

  lemma SecondMerge()
    ensures MergeOf(B(), AsSet(Flats(5, 9)), false)
  {
    FlatsHold(5, 9);
    FlatsPlain(5, 9);
    SecondNewest();
    PlainMerges(Flats(5, 9), Recs(5, 9), B(), map[1.0 := Rec(5), 3.0 := Rec(8)]);
  }

  /** One of the readers holds the range delete. */
  lemma DelKept(readers: seq<Table>, m: Table, t: Table, skip: bool)
    requires t in readers && t.rangeDels == [Del()] && forall x :: x in readers && x != t ==> x.rangeDels == []
    requires m.rangeDels == if skip then [] else [Del()]
    ensures TombstonesOf(m, AsSet(readers), skip)
    ensures forall key: Key, s: nat :: Hides(AsSet(readers), key, s) <==> Del().Spans(key) && s < 22
  {
    assert t in AsSet(readers);
    forall key: Key, s: nat ensures Hides(AsSet(readers), key, s) <==> Del().Spans(key) && s < 22 {
      assert Covered([Del()], key, s) <==> Del() in [Del()] && Del().Spans(key) && Del().seqId > s;
    }
    assert t.HasSeq(22);
  }

  /** A merge with the range delete, of records that it does not span. */
  lemma DelMerges(readers: seq<Table>, all: seq<Record>, m: Table, pick: map<Key, Record>, t: Table, skip: bool)
    requires Holds(readers, all) && Newest(all, m.records, pick) && (forall r :: r in all ==> r.op == Put && r.key >= 2.0)
    requires t in readers && t.rangeDels == [Del()] && forall x :: x in readers && x != t ==> x.rangeDels == []
    requires m.rangeDels == if skip then [] else [Del()]
    ensures MergeOf(m, AsSet(readers), skip)
  {
    DelKept(readers, m, t, skip);
    MergesTo(readers, all, m, pick, skip);
  }

  lemma ThirdMerge()
    ensures MergeOf(A(1), AsSet(Flats(10, 14)), false)
  {
    FlatsHold(10, 14);
    FourNewest(10, Recs(10, 14));
    ThirdReaders();
    DelMerges(Flats(10, 14), Recs(10, 14), A(1), map[KeyOf(10) := Rec(13)], Flat(10), false);
  }

  lemma ThirdReaders()
    ensures Flat(10) in Flats(10, 14) && Flat(10).rangeDels == [Del()]
    ensures forall x :: x in Flats(10, 14) && x != Flat(10) ==> x.rangeDels == []
    ensures forall r :: r in Recs(10, 14) ==> r.op == Put && r.key >= 2.0
  {
    FourRecs(10);
    FourFlats(10);
    assert Flats(10, 14)[0] == Flat(10);
  }

  lemma FourthNewest(all: seq<Record>)
    requires all == Recs(15, 19)
    ensures Newest([Rec(5), Rec(8)] + all, [Rec(5), Rec(18)], map[1.0 := Rec(5), 3.0 := Rec(18)])
  {
    FourRecs(15);
    assert [Rec(5), Rec(8)] + all == [Rec(5), Rec(8), Rec(15), Rec(16), Rec(17), Rec(18)];
  }

  lemma FourthMerge(a: nat, flats: seq<Table>)
    requires a == 15 && flats == Flats(a, a + 4)
    ensures MergeOf(D(), AsSet([B()] + flats), false)
  {
    FlatsHold(a, a + 4);
    FlatsPlain(a, a + 4);
    FourthNewest(Recs(a, a + 4));
    FourthOf(flats, Recs(a, a + 4));
  }

  lemma FourthOf(flats: seq<Table>, all: seq<Record>)
    requires Holds(flats, all) && (forall r :: r in all ==> r.op == Put) && forall t :: t in flats ==> t.rangeDels == []
    requires Newest([Rec(5), Rec(8)] + all, [Rec(5), Rec(18)], map[1.0 := Rec(5), 3.0 := Rec(18)])
    ensures MergeOf(D(), AsSet([B()] + flats), false)
  {
    HoldsMore(flats, all, B());
    PlainMerges([B()] + flats, [Rec(5), Rec(8)] + all, D(), map[1.0 := Rec(5), 3.0 := Rec(18)]);
  }

  /** The merge of the last layer, which drops the range delete. */
  lemma LastMerge()
    ensures MergeOf(Last(), AsSet([C(2), A(2)]), true)
  {
    LastHolds();
    DelMerges([C(2), A(2)], [Rec(3), Rec(13)], Last(), map[8.0 := Rec(3), 5.0 := Rec(13)], A(2), true);
  }

  lemma LastHolds()
    ensures Holds([C(2), A(2)], [Rec(3), Rec(13)])
  {
    assert Holds([], []);
    HoldsMore([], [], A(2));
    assert [] + [A(2)] == [A(2)] && [] + A(2).records == [Rec(13)];
    HoldsMore([A(2)], [Rec(13)], C(2));
    assert [C(2), A(2)] == [C(2)] + [A(2)] && C(2).records + [Rec(13)] == [Rec(3), Rec(13)];
  }

  // ------------------------------------------------------------------ the compactions

  function Choices(n: nat): nat -> bool { Choice(Oversized, n) }

  lemma ChosenIs(n: nat, i: nat)
    ensures Choices(n)(i) == Oversized(n, i)
  {
  }

  /** Nothing below counts as oversized, so the other rounds do nothing. */
  lemma {:induction false} QuietRounds(layers: Layers, i: nat, n: nat)
    requires |layers| <= 3 && i > 0 && forall j: nat :: j >= i ==> !Oversized(n, j)
    ensures Rounds(layers, layers, i, 3, Choices(n))
    decreases 3 - i
  {
    if i < |layers| {
      QuietRounds(layers, i + 1, n);
      ChosenIs(n, i);
      assert Round(layers, layers, i, 3, Choices(n)(i), false);
      RoundFirst(layers, layers, i, 3, Choices(n), false);
    }
  }

  lemma {:induction false} FlatIds(a: nat, n: nat)
    requires a <= n
    ensures forall t :: t in Flats(a, n) ==> a <= t.id < n && t.WellFormed()
    ensures |Flats(a, n)| == n - a
  {
    if a < n {
      FlatIds(a, n - 1);
    }
  }

  lemma IdsWithin(ts: seq<Table>)
    ensures forall id :: id in Ids(ts) ==> exists t :: t in ts && t.id == id
    ensures forall t :: t in ts ==> t.id in Ids(ts)
  {
    forall id | id in Ids(ts) ensures exists t :: t in ts && t.id == id {
      var p :| 0 <= p < |ts| && ts[p].id == id;
      assert ts[p] in ts;
    }
    forall t | t in ts ensures t.id in Ids(ts) {
      var p :| 0 <= p < |ts| && ts[p] == t;
    }
  }

  /** All of layer zero goes down. */
  lemma ZeroSinks(g: Layers, zero: seq<Table>, lower: seq<Table>, m: Table, after: Layers)
    requires |g| >= 2 && |zero| > 0 && LowerFor(lower, g[1], zero)
    requires MergeOf(m, AsSet(lower + zero), false) && m.layer == 1 && m.WellFormed() && Newer(m, g)
    requires after == Purge(Append(g, 1, m), Ids(lower + zero))
    ensures SinksFrom(g, after, 0, zero, true)
  {
    assert MergeInto(g, after, lower + zero, 1, false, m);
    MergedSinks(g, after, 0, zero, lower, true);
  }

  lemma InputIds(zero: seq<Table>, lower: seq<Table>, m: Table)
    requires forall t :: t in zero || t in lower ==> t.id < m.id
    ensures m.id !in Ids(lower + zero) && forall t :: t in zero || t in lower ==> t.id in Ids(lower + zero)
  {
    IdsWithin(lower + zero);
  }

  lemma NewerThere(zero: seq<Table>, one: seq<Table>, two: seq<Table>, g: Layers, m: Table)
    requires g == [zero, one, two] || g == [zero, one]
    requires forall t :: t in zero || t in one || t in two ==> t.id < m.id
    ensures Newer(m, g)
  {
    forall t | t in AllTables(g) ensures t.id < m.id {
      var i, p :| 0 <= i < |g| && 0 <= p < |g[i]| && g[i][p] == t;
    }
  }

  /** The range of four flushes of one key. */
  lemma FlatsRange(a: nat)
    requires KeyOf(a) <= KeyOf(a + 1) <= KeyOf(a + 2) <= KeyOf(a + 3)
    ensures RangeOf(Flats(a, a + 4), KeyOf(a), KeyOf(a + 3))
  {
    FourFlats(a);
    FourRange(Flat(a), Flat(a + 1), Flat(a + 2), Flat(a + 3));
  }

  lemma FourRange(t0: Table, t1: Table, t2: Table, t3: Table)
    requires |t0.records| == |t1.records| == |t2.records| == |t3.records| == 1
    requires t0.MinKey() <= t1.MinKey() <= t2.MinKey() <= t3.MinKey()
    ensures RangeOf([t0, t1, t2, t3], t0.MinKey(), t3.MaxKey())
  {
    var ts := [t0, t1, t2, t3];
    assert t0 in ts && t3 in ts;
  }

  /** The first table of layer one meets nothing in layer two and moves there. */
  lemma OneMoves(layers: Layers, picked: Table, rest: seq<Table>, two: seq<Table>, after: Layers)
    requires 2 <= |layers| <= 3 && layers[0] == [] && layers[1] == [picked] + rest && two == (if |layers| == 3 then layers[2] else [])
    requires forall t :: t in two ==> t.id != picked.id && !Overlaps(t, picked.MinKey(), picked.MaxKey())
    requires forall t :: t in rest ==> t.id != picked.id
    requires after == [[], rest, two + [picked.(layer := 2)]]
    ensures Sinks(layers, after, 1, true)
  {
    var g := Grow(layers, 2);
    assert g == [[], [picked] + rest, two];
    OneInRange(picked);
    assert Meets([], two, picked.MinKey(), picked.MaxKey());
    assert LowerFor([], g[2], [picked]);
    PurgedFirst(picked, rest, two);
    assert Append([[], rest, two], 2, picked.(layer := 2)) == after;
    assert SinksWith(g, after, 1, [picked], [], true);
  }

  lemma PurgedFirst(picked: Table, rest: seq<Table>, two: seq<Table>)
    requires forall t :: t in two || t in rest ==> t.id != picked.id
    ensures Purge([[], [picked] + rest, two], {picked.id}) == [[], rest, two]
  {
    WithoutNone(two, {picked.id});
    WithoutFirst(picked, rest);
  }

  lemma {:induction false} WithoutFirst(picked: Table, rest: seq<Table>)
    requires forall t :: t in rest ==> t.id != picked.id
    ensures Without([picked] + rest, {picked.id}) == rest
    decreases |rest|
  {
    var ts := [picked] + rest;
    if rest == [] {
      assert ts[..0] == [];
    } else {
      var n := |rest| - 1;
      assert ts[..|ts| - 1] == [picked] + rest[..n];
      WithoutFirst(picked, rest[..n]);
      assert rest == rest[..n] + [rest[n]];
    }
  }

  lemma SinksAlone(zero: seq<Table>, m: Table, lo: Key, hi: Key)
    requires |zero| > 0 && RangeOf(zero, lo, hi) && MergeOf(m, AsSet(zero), false) && m.layer == 1 && m.WellFormed()
    requires forall t :: t in zero ==> t.id < m.id
    ensures Sinks([zero], [[], [m]], 0, true)
  {
    var g := [zero, []];
    NoLower([], zero, lo, hi);
    NewerThere(zero, [], [], g, m);
    AloneMerges(zero, m, g);
    assert Grow([zero], 1) == g;
  }

  lemma AloneMerges(zero: seq<Table>, m: Table, g: Layers)
    requires g == [zero, []] && |zero| > 0 && LowerFor([], [], zero) && Newer(m, g)
    requires MergeOf(m, AsSet(zero), false) && m.layer == 1 && m.WellFormed() && forall t :: t in zero ==> t.id < m.id
    ensures SinksFrom(g, [[], [m]], 0, zero, true)
  {
    assert [] + zero == zero;
    InputIds(zero, [], m);
    LayerMerged(zero, Ids([] + zero), m);
    ZeroSinks(g, zero, [], m, [[], [m]]);
  }

  lemma NoLower(one: seq<Table>, zero: seq<Table>, lo: Key, hi: Key)
    requires RangeOf(zero, lo, hi) && forall t :: t in one ==> !Overlaps(t, lo, hi)
    ensures LowerFor([], one, zero)
  {
    assert Meets([], one, lo, hi);
  }

  /** All of layer zero goes down without meeting layer one. */
  lemma SinksFree(zero: seq<Table>, one: seq<Table>, two: seq<Table>, m: Table, lo: Key, hi: Key)
    requires |zero| > 0 && RangeOf(zero, lo, hi) && forall t :: t in one ==> !Overlaps(t, lo, hi)
    requires MergeOf(m, AsSet(zero), false) && m.layer == 1 && m.WellFormed()
    requires forall t :: t in zero || t in one || t in two ==> t.id < m.id
    requires forall x, t :: x in zero && (t in one || t in two) ==> x.id != t.id
    ensures Sinks([zero, one, two], [[], one + [m], two], 0, true)
  {
    assert [] + zero == zero;
    NoLower(one, zero, lo, hi);
    IdsWithin(zero);
    WithoutNone(one, Ids(zero));
    SinksOver(zero, one, two, [], one, m);
  }

  lemma SinksOver(zero: seq<Table>, one: seq<Table>, two: seq<Table>, lower: seq<Table>, rest: seq<Table>, m: Table)
    requires |zero| > 0 && LowerFor(lower, one, zero) && MergeOf(m, AsSet(lower + zero), false) && m.layer == 1 && m.WellFormed()
    requires forall t :: t in zero || t in one || t in two || t in lower ==> t.id < m.id
    requires Without(one, Ids(lower + zero)) == rest && forall t :: t in two ==> t.id !in Ids(lower + zero)
    ensures Sinks([zero, one, two], [[], rest + [m], two], 0, true)
  {
    var g := [zero, one, two];
    InputIds(zero, lower, m);
    NewerThere(zero, one, two, g, m);
    LayersMerged(zero, one, two, Ids(lower + zero), rest, m);
    ZeroSinks(g, zero, lower, m, [[], rest + [m], two]);
    assert Grow(g, 1) == g;
  }

  /** Layer zero goes down and nothing is oversized. */
  lemma QuietCompaction(before: Layers, after: Layers, n: nat)
    requires |before| == 3 && |before[0]| == 4 && Sinks(before, after, 0, true) && |after| == 3 && n != 4 && n != 19
    ensures Rounds(before, after, 0, 3, Choices(n))
  {
    ChosenIs(n, 0);
    assert Round(before, after, 0, 3, Choices(n)(0), false);
    QuietRounds(after, 1, n);
    RoundFirst(before, after, 0, 3, Choices(n), false);
  }

  /** The tables of four flushes: as many, with these identifiers, and with this range. */
  lemma FourTables(a: nat)
    requires KeyOf(a) <= KeyOf(a + 1) <= KeyOf(a + 2) <= KeyOf(a + 3)
    ensures |Flats(a, a + 4)| == 4 && RangeOf(Flats(a, a + 4), KeyOf(a), KeyOf(a + 3))
    ensures forall t :: t in Flats(a, a + 4) ==> a <= t.id < a + 4
  {
    FlatIds(a, a + 4);
    FlatsRange(a);
  }

  /** Four flushes of eights go down to layer one and, that being oversized, on to layer two. */
  lemma FirstCompaction(before: Layers, after: Layers)
    requires before == [Flats(0, 4)] && after == [[], [], [C(2)]]
    ensures Rounds(before, after, 0, 3, Choices(4))
  {
    FirstZero(0, before[0]);
    FirstSinks(before[0]);
    FirstRounds(before[0], before, [[], [C(1)]], after);
  }

  lemma FirstZero(a: nat, zero: seq<Table>)
    requires a == 0 && zero == Flats(a, a + 4)
    ensures |zero| == 4 && RangeOf(zero, 8.0, 8.0) && (forall t :: t in zero ==> t.id < 4) && MergeOf(C(1), AsSet(zero), false)
  {
    FourTables(a);
    SameKeyMerges(a, C(1));
  }

  lemma FirstRounds(zero: seq<Table>, before: Layers, mid: Layers, after: Layers)
    requires |zero| == 4 && before == [zero] && mid == [[], [C(1)]] && after == [[], [], [C(2)]] && Sinks(before, mid, 0, true)
    ensures Rounds(before, after, 0, 3, Choices(4))
  {
    FirstMove(mid, after);
    ChosenIs(4, 0);
    assert Round(before, mid, 0, 3, Choices(4)(0), false);
    RoundFirst(before, mid, 0, 3, Choices(4), false);
  }

  lemma FirstSinks(zero: seq<Table>)
    requires |zero| == 4 && RangeOf(zero, 8.0, 8.0) && (forall t :: t in zero ==> t.id < 4) && MergeOf(C(1), AsSet(zero), false)
    ensures Sinks([zero], [[], [C(1)]], 0, true)
  {
    SinksAlone(zero, C(1), 8.0, 8.0);
  }

  lemma FirstMove(mid: Layers, after: Layers)
    requires mid == [[], [C(1)]] && after == [[], [], [C(2)]]
    ensures Rounds(mid, after, 1, 3, Choices(4))
  {
    assert [C(1)] == [C(1)] + [] && [C(2)] == [] + [C(2)];
    OneMoves(mid, C(1), [], [], after);
    ChosenIs(4, 1);
    assert Round(mid, after, 1, 3, Choices(4)(1), false);
    QuietRounds(after, 2, 4);
    RoundFirst(mid, after, 1, 3, Choices(4), false);
  }

  lemma SecondCompaction(before: Layers, after: Layers)
    requires before == [Flats(5, 9), [], [C(2)]] && after == [[], [B()], [C(2)]]
    ensures Rounds(before, after, 0, 3, Choices(9))
  {
    FourTables(5);
    SecondMerge();
    assert [B()] == [] + [B()];
    SinksFree(Flats(5, 9), [], [C(2)], B(), 1.0, 3.0);
    QuietCompaction(before, after, 9);
  }

  lemma ThirdCompaction(before: Layers, after: Layers)
    requires before == [Flats(10, 14), [B()], [C(2)]] && after == [[], [B(), A(1)], [C(2)]]
    ensures Rounds(before, after, 0, 3, Choices(14))
  {
    FourTables(10);
    ThirdMerge();
    assert [B(), A(1)] == [B()] + [A(1)];
    SinksFree(Flats(10, 14), [B()], [C(2)], A(1), 5.0, 5.0);
    QuietCompaction(before, after, 14);
  }

  /** The record's table is merged again and is now behind the tombstone's. */
  lemma FourthSinks(zero: seq<Table>)
    requires |zero| == 4 && RangeOf(zero, 3.0, 3.0) && (forall t :: t in zero ==> 15 <= t.id < 19)
    requires MergeOf(D(), AsSet([B()] + zero), false)
    ensures Sinks([zero, [B(), A(1)], [C(2)]], [[], [A(1), D()], [C(2)]], 0, true)
  {
    FourthLower(zero);
    FourthIds(zero);
    FourthTable();
    SinksWithOne(zero, [B(), A(1)], [C(2)], [B()], A(1), D());
  }

  lemma FourthTable()
    ensures D().layer == 1 && D().id == 19 && D().WellFormed()
  {
  }

  lemma SinksWithOne(zero: seq<Table>, one: seq<Table>, two: seq<Table>, lower: seq<Table>, kept: Table, m: Table)
    requires |zero| > 0 && LowerFor(lower, one, zero) && MergeOf(m, AsSet(lower + zero), false) && m.layer == 1 && m.WellFormed()
    requires forall t :: t in zero || t in one || t in two || t in lower ==> t.id < m.id
    requires Without(one, Ids(lower + zero)) == [kept] && forall t :: t in two ==> t.id !in Ids(lower + zero)
    ensures Sinks([zero, one, two], [[], [kept, m], two], 0, true)
  {
    SinksOver(zero, one, two, lower, [kept], m);
    assert [kept] + [m] == [kept, m];
  }

  lemma FourthLower(zero: seq<Table>)
    requires RangeOf(zero, 3.0, 3.0)
    ensures LowerFor([B()], [B(), A(1)], zero)
  {
    assert B().MinKey() == 1.0 && B().MaxKey() == 3.0 && A(1).MinKey() == 5.0;
    assert forall t :: t in [B(), A(1)] <==> t == B() || t == A(1);
    assert Meets([B()], [B(), A(1)], 3.0, 3.0);
  }

  lemma FourthIds(zero: seq<Table>)
    requires forall t :: t in zero ==> 15 <= t.id < 19
    ensures Without([B(), A(1)], Ids([B()] + zero)) == [A(1)]
    ensures (forall t :: t in [C(2)] ==> t.id !in Ids([B()] + zero))
    ensures forall t :: t in zero || t in [B()] || t in [B(), A(1)] || t in [C(2)] ==> t.id < 19
  {
    IdsWithin([B()] + zero);
    assert B() in [B()] + zero;
    PurgedOne(B(), A(1), Ids([B()] + zero));
  }

  lemma PurgedOne(out: Table, kept: Table, ids: set<nat>)
    requires out.id in ids && kept.id !in ids
    ensures Without([out, kept], ids) == [kept]
  {
    WithoutAll([out], ids);
    assert [out] + [kept] == [out, kept];
    WithoutPush([out], kept, ids);
  }

  /** Then the tombstone's table moves on, and the merge of the last layer drops the tombstone. */
  lemma FourthCompaction(before: Layers, after: Layers)
    requires before == [Flats(15, 19), [B(), A(1)], [C(2)]] && after == [[], [D()], [Last()]]
    ensures Rounds(before, after, 0, 3, Choices(19))
  {
    var mid := [[], [A(1), D()], [C(2)]];
    FourthRound(before, mid, Choices(19)(0));
    FourthMove(mid, after);
    RoundFirst(before, mid, 0, 3, Choices(19), false);
  }

  lemma FourthRound(before: Layers, mid: Layers, chosen: bool)
    requires before == [Flats(15, 19), [B(), A(1)], [C(2)]] && mid == [[], [A(1), D()], [C(2)]] && chosen == Choices(19)(0)
    ensures Round(before, mid, 0, 3, chosen, false)
  {
    FourTables(15);
    FourthMerge(15, Flats(15, 19));
    FourthSinks(Flats(15, 19));
    ChosenIs(19, 0);
  }

  lemma FourthMove(mid: Layers, after: Layers)
    requires mid == [[], [A(1), D()], [C(2)]] && after == [[], [D()], [Last()]]
    ensures Rounds(mid, after, 1, 3, Choices(19))
  {
    var low := [[], [D()], [C(2), A(2)]];
    LastRound(low, after);
    assert [A(1), D()] == [A(1)] + [D()] && [C(2), A(2)] == [C(2)] + [A(2)];
    OneMoves(mid, A(1), [D()], [C(2)], low);
    ChosenIs(19, 1);
    assert Round(mid, low, 1, 3, Choices(19)(1), false);
    RoundFirst(mid, low, 1, 3, Choices(19), false);
  }

  lemma LastRound(low: Layers, after: Layers)
    requires low == [[], [D()], [C(2), A(2)]] && after == [[], [D()], [Last()]]
    ensures Rounds(low, after, 2, 3, Choices(19))
  {
    LastMerge();
    LastLayers();
    NewerThere([], [D()], [C(2), A(2)], low, Last());
    assert MergeInto(low, after, [C(2), A(2)], 2, true, Last());
    assert Merges(low, after, [C(2), A(2)], 2, true, true);
    ChosenIs(19, 2);
    assert Round(low, after, 2, 3, Choices(19)(2), true);
    RoundFirst(low, after, 2, 3, Choices(19), true);
  }

  lemma LastLayers()
    ensures Purge(Append([[], [D()], [C(2), A(2)]], 2, Last()), Ids([C(2), A(2)])) == [[], [D()], [Last()]]
  {
    IdsWithin([C(2), A(2)]);
    LastPurged([D()], [C(2), A(2)], Last(), Ids([C(2), A(2)]));
  }

  lemma LastPurged(one: seq<Table>, two: seq<Table>, m: Table, ids: set<nat>)
    requires (forall t :: t in one ==> t.id !in ids) && (forall t :: t in two ==> t.id in ids) && m.id !in ids
    ensures Purge(Append([[], one, two], 2, m), ids) == [[], one, [m]]
  {
    assert Append([[], one, two], 2, m) == [[], one, two + [m]];
    WithoutAll(two, ids);
    WithoutPush(two, m, ids);
    WithoutNone(one, ids);
    assert [] + [m] == [m];
  }

  // ------------------------------------------------------------------ what comes of it

  lemma OpsFollow()
    ensures LayerTrace(Ops(), AllLayers(), 3, Oversized)
  {
    var ops, layers := Ops(), AllLayers();
    assert LayersAt(0) == [[]];
    forall n | 0 <= n < |ops| ensures LayersFollow(ops[n], n, layers[n], layers[n + 1], 3, Oversized) {
      if n % 5 == 4 {
        CompactionFollows(n);
      } else {
        FlushFollows(n);
      }
    }
  }

  ghost predicate Compacts(n: nat)
    requires n < 20
  {
    Rounds(LayersAt(n), LayersAt(n + 1), 0, 3, Choices(n))
  }

  lemma CompactionFollows(n: nat)
    requires n == 4 || n == 9 || n == 14 || n == 19
    ensures Compacts(n)
  {
    if n == 4 {
      NoFlats(5);
      FirstCompaction(LayersAt(4), LayersAt(5));
    } else if n == 9 {
      AfterSecond();
      SecondCompaction(LayersAt(9), LayersAt(10));
    } else if n == 14 {
      AfterThird();
      ThirdCompaction(LayersAt(14), LayersAt(15));
    } else {
      FourthCompaction(LayersAt(19), LayersAt(20));
    }
  }

  lemma NoFlats(a: nat)
    ensures Flats(a, a) == []
  {
  }

  lemma AfterSecond()
    ensures LayersAt(9) == [Flats(5, 9), [], [C(2)]] && LayersAt(10) == [[], [B()], [C(2)]]
  {
    NoFlats(10);
  }

  lemma AfterThird()
    ensures LayersAt(14) == [Flats(10, 14), [B()], [C(2)]] && LayersAt(15) == [[], [B(), A(1)], [C(2)]]
  {
    NoFlats(15);
  }

  /** The first record of key 1 was range-deleted, and the store shows it again. */
  lemma RangeDeleteLost()
    ensures GoodRun(Ops(), 0) && LayerTrace(Ops(), AllLayers(), 3, Oversized)
    ensures Visible(AllTables(AllLayers()[|Ops()|]), Rec(5)) && !Visible(Flushed(Ops()), Rec(5))
  {
    GoodOps();
    OpsFollow();
    ShownInTheEnd();
    HiddenInHistory();
  }

  lemma HiddenInHistory()
    ensures !Visible(Flushed(Ops()), Rec(5))
  {
    var t := FlushTable(Ops(), 10);
    assert Ops()[10] == Flush([Rec(10)], [Del()]);
    assert t in Flushed(Ops());
    assert Del() in t.rangeDels && Del().Spans(1.0);
    assert Covered(t.rangeDels, Rec(5).key, Rec(5).seqId);
  }

  lemma ShownInTheEnd()
    ensures Visible(AllTables(LayersAt(20)), Rec(5))
  {
    var layers, r := [[], [D()], [Last()]], Rec(5);
    assert LayersAt(20) == layers;
    assert layers[1][0] == D() && layers[2][0] == Last();
    forall t ensures t in AllTables(layers) <==> t == D() || t == Last() {
    }
    assert r in D().records;
    forall x | HasRecord(AllTables(layers), x) && x.key == r.key ensures x == r {
    }
  }
}
