/**
 Range tombstones: `FragmentRangeTombstones` (internal/utils/fragmenter.go) turns any list
 of tombstones into sorted, non-overlapping fragments, and `IsCoveredByRangeTombstone`
 (internal/utils/range_del.go) answers coverage by binary search over fragments. Both are
 proved against the one-line specification `Covered`.
 */
module RangeTombstones {
  import opened Keys

  /** A range delete hides every older record with start <= key < end. */
  datatype Tombstone = Tombstone(start: Key, end: Key, seqId: nat) {
    predicate Spans(key: Key) { start <= key < end }
  }

  /** The specification: some tombstone spans the key and is newer than the record. */
  ghost predicate Covered(ts: seq<Tombstone>, key: Key, seqId: nat) {
    exists t :: t in ts && t.Spans(key) && t.seqId > seqId
  }

  /** Two lists of tombstones hide the same records. */
  ghost predicate SameCoverage(a: seq<Tombstone>, b: seq<Tombstone>) {
    forall key, seqId: nat :: Covered(a, key, seqId) <==> Covered(b, key, seqId)
  }

  /** Sorted by start, non-empty, pairwise disjoint, and never with sequence number zero. */
  ghost predicate Fragmented(fs: seq<Tombstone>) {
    && (forall i :: 0 <= i < |fs| ==> fs[i].start < fs[i].end && fs[i].seqId > 0)
    && (forall i, j :: 0 <= i < j < |fs| ==> fs[i].end <= fs[j].start)
  }

  /** Every fragment is a piece of some tombstone and carries that tombstone's sequence number. */
  ghost predicate PiecesOf(fs: seq<Tombstone>, ts: seq<Tombstone>) {
    forall f :: f in fs ==> exists t :: t in ts && t.seqId == f.seqId && t.start <= f.start && f.end <= t.end
  }

  ghost predicate StrictlySorted(ks: seq<Key>) {
    forall i, j :: 0 <= i < j < |ks| ==> ks[i] < ks[j]
  }

  ghost predicate HasBounds(ks: seq<Key>, ts: seq<Tombstone>) {
    forall t :: t in ts ==> t.start in ks && t.end in ks
  }

  /** One insertion of `sort.Slice` over boundary keys that are already distinct. */
  method InsertSorted(ks: seq<Key>, k: Key) returns (out: seq<Key>)
    requires StrictlySorted(ks) && k !in ks
    ensures StrictlySorted(out)
    ensures forall x :: x in out <==> x in ks || x == k
  {
    var i := 0;
    while i < |ks| && ks[i] < k
      invariant 0 <= i <= |ks|
      invariant forall j :: 0 <= j < i ==> ks[j] < k
    {
      i := i + 1;
    }
    out := ks[..i] + [k] + ks[i..];
    InsertedHas(ks, k, i);
  }

  lemma InsertedHas(ks: seq<Key>, k: Key, i: nat)
    requires i <= |ks|
    ensures forall x :: x in ks[..i] + [k] + ks[i..] <==> x in ks || x == k
  {
    assert ks == ks[..i] + ks[i..];
  }

  /** The distinct start and end keys of all tombstones, sorted. */
  method Boundaries(ts: seq<Tombstone>) returns (ks: seq<Key>)
    ensures StrictlySorted(ks) && HasBounds(ks, ts)
    ensures forall k :: k in ks ==> exists t :: t in ts && (k == t.start || k == t.end)
  {
    ks := [];
    for n := 0 to |ts|
      invariant StrictlySorted(ks) && HasBounds(ks, ts[..n])
      invariant forall k :: k in ks ==> exists t :: t in ts && (k == t.start || k == t.end)
    {
      var t := ts[n];
      assert ts[..n + 1] == ts[..n] + [t];
      if t.start !in ks {
        ks := InsertSorted(ks, t.start);
      }
      if t.end !in ks {
        ks := InsertSorted(ks, t.end);
      }
    }
    assert ts[..|ts|] == ts;
  }

  /** Tombstone `t` contains the whole interval from `lo` to `hi`. */
  predicate Contains(t: Tombstone, lo: Key, hi: Key) {
    t.start <= lo && hi <= t.end
  }

  /** The newest sequence number among tombstones containing the interval, or zero. */
  method MaxContaining(ts: seq<Tombstone>, lo: Key, hi: Key) returns (maxSeq: nat)
    ensures forall t :: t in ts && Contains(t, lo, hi) ==> t.seqId <= maxSeq
    ensures maxSeq > 0 ==> exists t :: t in ts && Contains(t, lo, hi) && t.seqId == maxSeq
  {
    maxSeq := 0;
    for n := 0 to |ts|
      invariant forall t :: t in ts[..n] && Contains(t, lo, hi) ==> t.seqId <= maxSeq
      invariant maxSeq > 0 ==> exists t :: t in ts && Contains(t, lo, hi) && t.seqId == maxSeq
    {
      assert ts[..n + 1] == ts[..n] + [ts[n]];
      if Contains(ts[n], lo, hi) && ts[n].seqId > maxSeq {
        maxSeq := ts[n].seqId;
      }
    }
    assert ts[..|ts|] == ts;
  }

  /** Between two adjacent boundaries a tombstone spans either every key or none. */
  lemma SpansWholeInterval(ts: seq<Tombstone>, ks: seq<Key>, i: nat, t: Tombstone, key: Key)
    requires StrictlySorted(ks) && HasBounds(ks, ts) && i + 1 < |ks|
    requires t in ts && ks[i] <= key < ks[i + 1]
    ensures t.Spans(key) <==> Contains(t, ks[i], ks[i + 1])
  {
    var p :| 0 <= p < |ks| && ks[p] == t.start;
    var q :| 0 <= q < |ks| && ks[q] == t.end;
    assert p <= i || ks[i + 1] <= ks[p];
    assert q <= i || ks[i + 1] <= ks[q];
    assert p <= i ==> ks[p] <= ks[i];
    assert q <= i ==> ks[q] <= ks[i];
  }

  /** What the fragments built from the first `n` intervals cover. */
  ghost predicate CoversUpTo(fs: seq<Tombstone>, ts: seq<Tombstone>, ks: seq<Key>, n: nat)
    requires n < |ks|
  {
    forall key, seqId: nat :: Covered(fs, key, seqId) <==> key < ks[n] && Covered(ts, key, seqId)
  }

  lemma ExtendCoverage(fs: seq<Tombstone>, fs': seq<Tombstone>, ts: seq<Tombstone>, ks: seq<Key>, n: nat, m: nat)
    requires StrictlySorted(ks) && HasBounds(ks, ts) && n + 1 < |ks|
    requires CoversUpTo(fs, ts, ks, n)
    requires forall t :: t in ts && Contains(t, ks[n], ks[n + 1]) ==> t.seqId <= m
    requires m > 0 ==> exists t :: t in ts && Contains(t, ks[n], ks[n + 1]) && t.seqId == m
    requires fs' == if m > 0 then fs + [Tombstone(ks[n], ks[n + 1], m)] else fs
    ensures CoversUpTo(fs', ts, ks, n + 1)
  {
    forall key, seqId: nat
      ensures Covered(fs', key, seqId) <==> key < ks[n + 1] && Covered(ts, key, seqId)
    {
      assert Covered(fs, key, seqId) ==> Covered(fs', key, seqId) by {
        if Covered(fs, key, seqId) {
          var t :| t in fs && t.Spans(key) && t.seqId > seqId;
          assert t in fs';
        }
      }
      if ks[n] <= key < ks[n + 1] {
        if Covered(ts, key, seqId) {
          var t :| t in ts && t.Spans(key) && t.seqId > seqId;
          SpansWholeInterval(ts, ks, n, t, key);
          assert Tombstone(ks[n], ks[n + 1], m) in fs';
        }
        if Covered(fs', key, seqId) && m > 0 {
          var t :| t in ts && Contains(t, ks[n], ks[n + 1]) && t.seqId == m;
          assert t.Spans(key);
        }
      }
    }
  }

  /** Outside the range of the boundaries nothing is covered. */
  lemma NothingOutside(ts: seq<Tombstone>, ks: seq<Key>, key: Key, seqId: nat)
    requires StrictlySorted(ks) && HasBounds(ks, ts) && |ks| > 0
    requires key < ks[0] || ks[|ks| - 1] <= key
    ensures !Covered(ts, key, seqId)
  {
    forall t | t in ts ensures !t.Spans(key) {
      var p :| 0 <= p < |ks| && ks[p] == t.start;
      var q :| 0 <= q < |ks| && ks[q] == t.end;
      assert ks[0] <= ks[p] && ks[q] <= ks[|ks| - 1];
    }
  }

  lemma NoneCoveredYet(ts: seq<Tombstone>, ks: seq<Key>)
    requires StrictlySorted(ks) && HasBounds(ks, ts) && |ks| > 0
    ensures CoversUpTo([], ts, ks, 0)
  {
    forall key, seqId: nat ensures !(key < ks[0] && Covered(ts, key, seqId)) {
      if key < ks[0] {
        NothingOutside(ts, ks, key, seqId);
      }
    }
  }

  lemma AllCovered(fs: seq<Tombstone>, ts: seq<Tombstone>, ks: seq<Key>)
    requires StrictlySorted(ks) && HasBounds(ks, ts) && |ks| > 0
    requires CoversUpTo(fs, ts, ks, |ks| - 1)
    ensures SameCoverage(fs, ts)
  {
    forall key, seqId: nat ensures Covered(fs, key, seqId) <==> Covered(ts, key, seqId) {
      if ks[|ks| - 1] <= key {
        NothingOutside(ts, ks, key, seqId);
      }
    }
  }

  /** Fragments of the intervals below a boundary: well formed, below it, and pieces of the input. */
  ghost predicate FragmentsBelow(fs: seq<Tombstone>, ts: seq<Tombstone>, bound: Key) {
    Fragmented(fs) && PiecesOf(fs, ts) && forall f :: f in fs ==> f.end <= bound
  }

  lemma AppendFragment(fs: seq<Tombstone>, ts: seq<Tombstone>, lo: Key, hi: Key, m: nat)
    requires FragmentsBelow(fs, ts, lo) && lo < hi && m > 0
    requires exists t :: t in ts && Contains(t, lo, hi) && t.seqId == m
    ensures FragmentsBelow(fs + [Tombstone(lo, hi, m)], ts, hi)
  {
    var f := Tombstone(lo, hi, m);
    var t :| t in ts && Contains(t, lo, hi) && t.seqId == m;
    assert t.seqId == f.seqId && t.start <= f.start && f.end <= t.end;
    var fs' := fs + [f];
    assert forall g :: g in fs' ==> g in fs || g == f;
  }

  /** The loop of `FragmentRangeTombstones` up to boundary `i`. */
  ghost predicate Progress(fs: seq<Tombstone>, ts: seq<Tombstone>, ks: seq<Key>, i: nat)
  {
    && StrictlySorted(ks) && HasBounds(ks, ts) && i < |ks|
    && FragmentsBelow(fs, ts, ks[i]) && CoversUpTo(fs, ts, ks, i)
  }

  /** One round: the fragment for the interval between boundaries `i` and `i + 1`, if any. */
  method NextFragment(fs: seq<Tombstone>, ts: seq<Tombstone>, ks: seq<Key>, i: nat) returns (out: seq<Tombstone>)
    requires i + 1 < |ks| && Progress(fs, ts, ks, i)
    ensures Progress(out, ts, ks, i + 1)
  {
    var m := MaxContaining(ts, ks[i], ks[i + 1]);
    out := fs;
    if m > 0 {
      AppendFragment(fs, ts, ks[i], ks[i + 1], m);
      out := out + [Tombstone(ks[i], ks[i + 1], m)];
    }
    ExtendCoverage(fs, out, ts, ks, i, m);
  }

  /** `FragmentRangeTombstones`: for every list, overlapping, inverted or duplicated. */
  method FragmentRangeTombstones(ts: seq<Tombstone>) returns (fs: seq<Tombstone>)
    ensures Fragmented(fs)
    ensures SameCoverage(fs, ts)
    ensures PiecesOf(fs, ts)
  {
    fs := [];
    if |ts| == 0 {
      return;
    }
    var ks := Boundaries(ts);
    assert ts[0].start in ks;
    NoneCoveredYet(ts, ks);
    var i := 0;
    while i + 1 < |ks|
      invariant 0 <= i < |ks|
      invariant Progress(fs, ts, ks, i)
    {
      fs := NextFragment(fs, ts, ks, i);
      i := i + 1;
    }
    AllCovered(fs, ts, ks);
  }

  /** `IsCoveredByRangeTombstone`: binary search over fragments decides coverage exactly. */
  method IsCoveredByRangeTombstone(fs: seq<Tombstone>, key: Key, keySeqId: nat) returns (covered: bool)
    requires Fragmented(fs)
    ensures covered <==> Covered(fs, key, keySeqId)
  {
    if |fs| == 0 {
      return false;
    }
    var lo, hi, pos := 0, |fs| - 1, -1;
    while lo <= hi
      invariant 0 <= lo <= hi + 1 <= |fs|
      invariant pos == lo - 1
      invariant forall i :: 0 <= i < lo ==> fs[i].start <= key
      invariant forall i :: hi < i < |fs| ==> key < fs[i].start
    {
      var mid := lo + (hi - lo) / 2;
      if fs[mid].start <= key {
        assert forall i :: 0 <= i < mid ==> fs[i].start < fs[i].end <= fs[mid].start;
        pos := mid;
        lo := mid + 1;
      } else {
        assert forall i :: mid < i < |fs| ==> fs[mid].start < fs[mid].end <= fs[i].start;
        hi := mid - 1;
      }
    }
    if pos < 0 {
      return false;
    }
    var f := fs[pos];
    covered := key < f.end && f.seqId > keySeqId;
    assert forall i :: 0 <= i < pos ==> fs[i].end <= fs[pos].start;
  }

  /** Fragments of fragments: concatenating per-table fragment lists loses and adds no coverage. */
  lemma ConcatCoverage(a: seq<Tombstone>, a': seq<Tombstone>, b: seq<Tombstone>, b': seq<Tombstone>)
    requires SameCoverage(a, a') && SameCoverage(b, b')
    ensures SameCoverage(a + b, a' + b')
  {
    forall key, seqId: nat ensures Covered(a + b, key, seqId) <==> Covered(a' + b', key, seqId) {
      CoveredConcat(a, b, key, seqId);
      CoveredConcat(a', b', key, seqId);
    }
  }

  lemma CoveredConcat(a: seq<Tombstone>, b: seq<Tombstone>, key: Key, seqId: nat)
    ensures Covered(a + b, key, seqId) <==> Covered(a, key, seqId) || Covered(b, key, seqId)
  {
    if Covered(a, key, seqId) {
      var t :| t in a && t.Spans(key) && t.seqId > seqId;
      assert t in a + b;
    }
    if Covered(b, key, seqId) {
      var t :| t in b && t.Spans(key) && t.seqId > seqId;
      assert t in a + b;
    }
  }

  /** `MergeAndFragment`: fragment each list, join the results, fragment the union. */
  method MergeAndFragment(lists: seq<seq<Tombstone>>) returns (fs: seq<Tombstone>)
    ensures Fragmented(fs)
    ensures SameCoverage(fs, Flatten(lists))
    ensures PiecesOf(fs, Flatten(lists))
  {
    var all := [];
    for n := 0 to |lists|
      invariant SameCoverage(all, Flatten(lists[..n]))
      invariant PiecesOf(all, Flatten(lists[..n]))
    {
      var one := FragmentRangeTombstones(lists[n]);
      ConcatCoverage(all, Flatten(lists[..n]), one, lists[n]);
      assert lists[..n + 1][..n] == lists[..n];
      assert Flatten(lists[..n + 1]) == Flatten(lists[..n]) + lists[n];
      all := all + one;
    }
    assert lists[..|lists|] == lists;
    fs := FragmentRangeTombstones(all);
    forall f | f in fs
      ensures exists t :: t in Flatten(lists) && t.seqId == f.seqId && t.start <= f.start && f.end <= t.end
    {
      var g :| g in all && g.seqId == f.seqId && g.start <= f.start && f.end <= g.end;
      var t :| t in Flatten(lists) && t.seqId == g.seqId && t.start <= g.start && g.end <= t.end;
    }
  }

  ghost function Flatten(lists: seq<seq<Tombstone>>): (all: seq<Tombstone>) {
    if |lists| == 0 then [] else Flatten(lists[..|lists| - 1]) + lists[|lists| - 1]
  }

  lemma {:induction false} InFlatten(lists: seq<seq<Tombstone>>, t: Tombstone)
    ensures t in Flatten(lists) <==> exists i :: 0 <= i < |lists| && t in lists[i]
  {
    if |lists| > 0 {
      var n := |lists| - 1;
      InFlatten(lists[..n], t);
      if t in Flatten(lists[..n]) {
        var i :| 0 <= i < n && t in lists[..n][i];
        assert t in lists[i];
      }
      if i :| 0 <= i < |lists| && t in lists[i] {
        if i < n {
          assert t in lists[..n][i];
        }
      }
    }
  }
}
