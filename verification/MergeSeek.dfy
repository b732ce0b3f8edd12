/**
 Seeking in a merge (`SSTableMergeIteratorRaw`, internal/sstable/iterator.go:376-459). The heap forgets an input
 once it is exhausted, so a later seek cannot bring its records back; the winner tree keeps every input.
 */
module MergeSeek {
  import opened Keys
  import opened Options
  import opened Records
  import opened KWayMerge
  import MinHeap
  import WinnerTree

  // ------------------------------------------------------------------ what a merge still has to emit

  lemma {:induction false} SomeLeast(streams: seq<seq<Record>>, pos: seq<nat>, n: nat) returns (w: nat)
    requires Positions(streams, pos) && n < |streams| && Live(streams, pos, n)
    ensures Least(streams, pos, w)
  {
    w := n;
    var k := 0;
    while k < |streams|
      invariant k <= |streams| && Live(streams, pos, w)
      invariant forall i: nat :: i < k && Live(streams, pos, i) ==> Le(Cur(streams, pos, w), Cur(streams, pos, i))
    {
      if Live(streams, pos, k) && !Le(Cur(streams, pos, w), Cur(streams, pos, k)) {
        w := k;
      }
      k := k + 1;
    }
  }

  /** The stream of a merge from these positions on, one least record after the other. */
  ghost function Merged(streams: seq<seq<Record>>, pos: seq<nat>): (s: seq<Record>)
    requires Positions(streams, pos)
    decreases |Remaining(streams, pos)|
  {
    if w: nat :| Least(streams, pos, w) then
      AdvanceRemaining(streams, pos, w);
      [Cur(streams, pos, w)] + Merged(streams, pos[w := pos[w] + 1])
    else []
  }

  lemma LeastOfAll(streams: seq<seq<Record>>, pos: seq<nat>, w: nat, r: Record)
    requires Positions(streams, pos) && AllSorted(streams) && Least(streams, pos, w) && r in Remaining(streams, pos)
    ensures Le(Cur(streams, pos, w), r)
  {
    InRemaining(streams, pos, r);
    var i :| 0 <= i < |streams| && r in streams[i][pos[i]..];
    var k :| 0 <= k < |streams[i][pos[i]..]| && streams[i][pos[i]..][k] == r;
    assert Live(streams, pos, i) && Sorted(streams[i]);
    assert k == 0 || Le(streams[i][pos[i]], streams[i][pos[i] + k]);
  }

  lemma SortedAhead(r: Record, rest: seq<Record>)
    requires Sorted(rest) && forall x :: x in rest ==> Le(r, x)
    ensures Sorted([r] + rest)
  {
  }

  lemma {:induction false} MergedIs(streams: seq<seq<Record>>, pos: seq<nat>)
    requires Positions(streams, pos) && AllSorted(streams)
    ensures Sorted(Merged(streams, pos)) && multiset(Merged(streams, pos)) == Remaining(streams, pos)
    decreases |Remaining(streams, pos)|
  {
    if w: nat :| Least(streams, pos, w) {
      var u: nat :| Least(streams, pos, u) && Merged(streams, pos) == [Cur(streams, pos, u)] + Merged(streams, pos[u := pos[u] + 1]);
      AheadOfRest(streams, pos, u);
    } else {
      forall i: nat ensures !Live(streams, pos, i) {
        if Live(streams, pos, i) {
          var w := SomeLeast(streams, pos, i);
        }
      }
      NothingRemains(streams, pos);
    }
  }

  /** A least record ahead of what is merged without it. */
  lemma {:induction false} AheadOfRest(streams: seq<seq<Record>>, pos: seq<nat>, w: nat)
    requires Positions(streams, pos) && AllSorted(streams) && Least(streams, pos, w)
    ensures Positions(streams, pos[w := pos[w] + 1])
    ensures var s := [Cur(streams, pos, w)] + Merged(streams, pos[w := pos[w] + 1]);
            Sorted(s) && multiset(s) == Remaining(streams, pos)
    decreases |Remaining(streams, pos)|, 0
  {
    AdvanceRemaining(streams, pos, w);
    var pos' := pos[w := pos[w] + 1];
    var rest := Merged(streams, pos');
    MergedIs(streams, pos');
    forall x | x in rest ensures Le(Cur(streams, pos, w), x) {
      assert x in multiset(rest);
      LeastOfAll(streams, pos, w, x);
    }
    SortedAhead(Cur(streams, pos, w), rest);
  }

  lemma PartOf(m: multiset<Record>, part: multiset<Record>)
    requires OnePerVersion(m) && part <= m
    ensures OnePerVersion(part)
  {
  }

  /** When a version is one record, it does not matter which least record comes first. */
  lemma MergedStep(streams: seq<seq<Record>>, pos: seq<nat>, w: nat)
    requires Positions(streams, pos) && AllSorted(streams) && Least(streams, pos, w) && OnePerVersion(Remaining(streams, pos))
    ensures Positions(streams, pos[w := pos[w] + 1])
    ensures Merged(streams, pos) == [Cur(streams, pos, w)] + Merged(streams, pos[w := pos[w] + 1])
  {
    AheadOfRest(streams, pos, w);
    MergedIs(streams, pos);
    var s := [Cur(streams, pos, w)] + Merged(streams, pos[w := pos[w] + 1]);
    SortedUnique(s, Merged(streams, pos));
  }

  lemma MergedEnds(streams: seq<seq<Record>>, pos: seq<nat>)
    requires Positions(streams, pos) && forall i: nat :: !Live(streams, pos, i)
    ensures Merged(streams, pos) == []
  {
  }

  // ------------------------------------------------------------------ where a seek goes

  /** An input's own `Seek`: its first record whose key is not below the target. */
  function SeekPos(s: seq<Record>, target: Key): (p: nat)
    ensures p <= |s| && (forall j :: 0 <= j < p ==> s[j].key < target) && (p < |s| ==> s[p].key >= target)
  {
    if |s| == 0 || s[0].key >= target then 0
    else
      var p := SeekPos(s[1..], target);
      assert forall j :: 0 < j <= p ==> s[j - 1 + 1] == s[j];
      assert forall j :: 0 <= j < p ==> s[1..][j] == s[j + 1];
      p + 1
  }

  /** Every input at the target. */
  function SoughtAll(streams: seq<seq<Record>>, target: Key): (to: seq<nat>)
    ensures Positions(streams, to)
  {
    seq(|streams|, i requires 0 <= i < |streams| => SeekPos(streams[i], target))
  }

  /** The inputs that have a record left moved to `to`; an exhausted one stays where it is. */
  ghost function Brought(streams: seq<seq<Record>>, pos: seq<nat>, to: seq<nat>): (p: seq<nat>)
    requires Positions(streams, pos) && Positions(streams, to)
    ensures Positions(streams, p)
  {
    seq(|streams|, i requires 0 <= i < |streams| => if pos[i] < |streams[i]| then to[i] else pos[i])
  }

  /** The first `n` of the listed inputs are where they are to go, the others where they were. */
  ghost predicate MovedUpTo(pos: seq<nat>, to: seq<nat>, now: seq<nat>, its: seq<nat>, n: nat) {
    && |now| == |pos| == |to| && n <= |its|
    && forall i: nat :: i < |pos| ==> now[i] == if i in its[..n] then to[i] else pos[i]
  }

  lemma MovedNext(pos: seq<nat>, to: seq<nat>, now: seq<nat>, its: seq<nat>, n: nat)
    requires MovedUpTo(pos, to, now, its, n) && n < |its| && its[n] < |pos|
    ensures MovedUpTo(pos, to, now[its[n] := to[its[n]]], its, n + 1)
  {
    assert its[..n + 1] == its[..n] + [its[n]];
  }

  /** What exhausts an input by moving it must lie below the floor, and what it is moved to must not. */
  ghost predicate FloorFits(streams: seq<seq<Record>>, pos: seq<nat>, to: seq<nat>, floor: Option<Key>) {
    && Positions(streams, pos) && Positions(streams, to)
    && (forall i: nat :: Live(streams, pos, i) && to[i] == |streams[i]| ==> MinHeap.Under(floor, Cur(streams, pos, i)))
    && (forall i: nat :: Live(streams, to, i) ==> !MinHeap.Under(floor, Cur(streams, to, i)))
  }

  /** The next listed input is still in the heap, and moving it is in order. */
  lemma NextMoves(streams: seq<seq<Record>>, pos: seq<nat>, to: seq<nat>, floor: Option<Key>, its: seq<nat>, n: nat, data: seq<nat>, now: seq<nat>)
    requires FloorFits(streams, pos, to, floor) && MinHeap.HoldsLive(its, streams, pos) && n < |its|
    requires MinHeap.InOrder(data, streams, now, floor) && MovedUpTo(pos, to, now, its, n)
    ensures its[n] < |streams| && its[n] in data
    ensures MinHeap.MovedTo(streams, now, now[its[n] := to[its[n]]], floor, its[n])
  {
    var it := its[n];
    assert it in its && it !in its[..n];
    assert Live(streams, now, it);
  }

  lemma AllMoved(streams: seq<seq<Record>>, pos: seq<nat>, to: seq<nat>, floor: Option<Key>, its: seq<nat>, data: seq<nat>, now: seq<nat>)
    requires FloorFits(streams, pos, to, floor) && MinHeap.HoldsLive(its, streams, pos)
    requires MinHeap.InOrder(data, streams, now, floor) && MovedUpTo(pos, to, now, its, |its|)
    ensures now == Brought(streams, pos, to) && MinHeap.InOrder(data, streams, now, None)
  {
    assert its[..|its|] == its;
    forall i: nat | i < |streams| ensures now[i] == Brought(streams, pos, to)[i] {
      assert i in its <==> Live(streams, pos, i);
    }
    forall p: nat, c: nat | p < |data| && c < |data| && MinHeap.Edge(p, c) ensures MinHeap.Before(streams, now, None, data[p], data[c]) {
      assert MinHeap.Before(streams, now, floor, data[p], data[c]);
      assert data[p] in its <==> Live(streams, pos, data[p]);
      assert Cur(streams, now, data[p]) == Cur(streams, to, data[p]);
    }
  }

  /** The raw merge iterator of tables, on a heap. */
  class RawMergeIterator {
    const heap: MinHeap.HeapPriorityQueue
    var current: Option<Record>

    ghost predicate Valid()
      reads this, heap
    {
      && heap.Valid() && AllSorted(heap.streams) && OnePerVersion(Remaining(heap.streams, Start(heap.streams)))
      && current == if Rest() == [] then None else Some(Rest()[0])
    }

    /** What is still to come, from the current record on. */
    ghost function Rest(): seq<Record>
      requires heap.Valid()
      reads this, heap
    {
      Merged(heap.streams, heap.pos)
    }

    constructor (streams: seq<seq<Record>>)
      requires AllSorted(streams) && OnePerVersion(Remaining(streams, Start(streams)))
      ensures Valid() && fresh(heap) && heap.streams == streams && heap.pos == Start(streams)
    {
      heap := new MinHeap.HeapPriorityQueue(streams);
      current := None;
      new;
      SyncFromWinner();
    }

    method SyncFromWinner()
      requires heap.Valid() && AllSorted(heap.streams) && OnePerVersion(Remaining(heap.streams, Start(heap.streams)))
      modifies this`current
      ensures Valid()
    {
      var found, w := heap.Winner();
      if found {
        CurrentIsNext(heap.streams, heap.pos, w);
        current := Some(Cur(heap.streams, heap.pos, w));
      } else {
        MergedEnds(heap.streams, heap.pos);
        current := None;
      }
    }

    method Next()
      requires Valid()
      modifies this, heap
      ensures Valid() && Rest() == if old(Rest()) == [] then [] else old(Rest())[1..]
    {
      if current.None? {
        return;
      }
      var found, w := heap.Winner();
      if !found {
        MergedEnds(heap.streams, heap.pos);
        return;
      }
      CurrentIsNext(heap.streams, heap.pos, w);
      heap.Advance(w);
      SyncFromWinner();
    }

    /** The loops of `Seek` and `SeekToFirst`: one input after the other is moved and put in its place. */
    method MoveAll(to: seq<nat>, ghost floor: Option<Key>)
      requires Valid() && FloorFits(heap.streams, heap.pos, to, floor)
      modifies this, heap
      ensures Valid() && heap.pos == Brought(heap.streams, old(heap.pos), to)
    {
      ghost var pos := heap.pos;
      var its := heap.data;
      for n := 0 to |its|
        invariant MinHeap.InOrder(heap.data, heap.streams, heap.pos, floor) && MovedUpTo(pos, to, heap.pos, its, n)
      {
        NextMoves(heap.streams, pos, to, floor, its, n, heap.data, heap.pos);
        MovedNext(pos, to, heap.pos, its, n);
        ghost var before := heap.pos;
        heap.pos := heap.pos[its[n] := to[its[n]]];
        heap.Update(its[n], before, floor);
      }
      AllMoved(heap.streams, pos, to, floor, its, heap.data, heap.pos);
      SyncFromWinner();
    }

    method Seek(target: Key)
      requires Valid()
      modifies this, heap
      ensures Valid() && heap.pos == Brought(heap.streams, old(heap.pos), SoughtAll(heap.streams, target))
    {
      SeekFits(heap.streams, heap.pos, target);
      MoveAll(SoughtAll(heap.streams, target), Some(target));
    }

    method SeekToFirst()
      requires Valid()
      modifies this, heap
      ensures Valid() && heap.pos == Brought(heap.streams, old(heap.pos), Start(heap.streams))
    {
      MoveAll(Start(heap.streams), None);
    }
  }

  lemma SeekFits(streams: seq<seq<Record>>, pos: seq<nat>, target: Key)
    requires Positions(streams, pos)
    ensures FloorFits(streams, pos, SoughtAll(streams, target), Some(target))
  {
  }

  /** The winner's record is the next one, whatever has been consumed. */
  lemma CurrentIsNext(streams: seq<seq<Record>>, pos: seq<nat>, w: nat)
    requires Positions(streams, pos) && Least(streams, pos, w)
    requires AllSorted(streams) && OnePerVersion(Remaining(streams, Start(streams)))
    ensures Positions(streams, pos[w := pos[w] + 1])
    ensures Merged(streams, pos) == [Cur(streams, pos, w)] + Merged(streams, pos[w := pos[w] + 1])
  {
    RemainingShrinks(streams, Start(streams), pos);
    PartOf(Remaining(streams, Start(streams)), Remaining(streams, pos));
    MergedStep(streams, pos, w);
  }

  /** Positions further on leave a part of it. */
  lemma {:induction false} RemainingShrinks(streams: seq<seq<Record>>, pos: seq<nat>, pos': seq<nat>)
    requires Positions(streams, pos) && Positions(streams, pos') && forall i :: 0 <= i < |pos| ==> pos[i] <= pos'[i]
    ensures Remaining(streams, pos') <= Remaining(streams, pos)
  {
    if |streams| > 0 {
      var n := |streams| - 1;
      RemainingShrinks(streams[..n], pos[..n], pos'[..n]);
      assert streams[n][pos[n]..] == streams[n][pos[n]..pos'[n]] + streams[n][pos'[n]..];
    }
  }

  /** How many records are left. */
  ghost function Left(streams: seq<seq<Record>>, pos: seq<nat>): (n: nat)
    requires Positions(streams, pos)
  {
    if |streams| == 0 then 0
    else Left(streams[..|streams| - 1], pos[..|pos| - 1]) + (|streams[|streams| - 1]| - pos[|pos| - 1])
  }

  lemma {:induction false} LeftIsSize(streams: seq<seq<Record>>, pos: seq<nat>)
    requires Positions(streams, pos)
    ensures |Remaining(streams, pos)| == Left(streams, pos)
  {
    if |streams| > 0 {
      LeftIsSize(streams[..|streams| - 1], pos[..|pos| - 1]);
    }
  }

  lemma {:induction false} LeftShrinks(streams: seq<seq<Record>>, pos: seq<nat>, pos': seq<nat>)
    requires Positions(streams, pos) && Positions(streams, pos') && forall i :: 0 <= i < |pos| ==> pos[i] <= pos'[i]
    ensures Left(streams, pos') <= Left(streams, pos) && (pos != pos' ==> Left(streams, pos') < Left(streams, pos))
  {
    if |streams| > 0 {
      var n := |streams| - 1;
      LeftShrinks(streams[..n], pos[..n], pos'[..n]);
      assert pos == pos[..n] + [pos[n]] && pos' == pos'[..n] + [pos'[n]];
    }
  }

  // ------------------------------------------------------------------ what a seek shows

  /** No exhausted input has a record at or behind the place it was to go to. */
  ghost predicate NothingLost(streams: seq<seq<Record>>, pos: seq<nat>, to: seq<nat>)
    requires Positions(streams, pos) && Positions(streams, to)
  {
    forall i: nat :: i < |streams| && pos[i] == |streams[i]| ==> to[i] == |streams[i]|
  }

  /** On a heap a seek emits everything from the target on if and only if no exhausted input has any of it. */
  lemma HeapSeekExact(streams: seq<seq<Record>>, pos: seq<nat>, to: seq<nat>)
    requires Positions(streams, pos) && Positions(streams, to) && AllSorted(streams)
    ensures Merged(streams, Brought(streams, pos, to)) == Merged(streams, to) <==> NothingLost(streams, pos, to)
  {
    var brought := Brought(streams, pos, to);
    MergedIs(streams, brought);
    MergedIs(streams, to);
    LeftShrinks(streams, to, brought);
    LeftIsSize(streams, to);
    LeftIsSize(streams, brought);
    if NothingLost(streams, pos, to) {
      assert brought == to;
    } else {
      var i: nat :| i < |streams| && pos[i] == |streams[i]| && to[i] != |streams[i]|;
      assert brought[i] != to[i];
    }
  }

  /** The winner tree's `Seek`, over the inputs in whatever order its map lists them: every input is moved. */
  method SeekTree(tree: WinnerTree.Tree, target: Key, its: seq<nat>)
    requires tree.Valid() && forall i: nat :: i in its <==> i < |tree.streams|
    modifies tree
    ensures tree.Valid() && tree.pos == SoughtAll(tree.streams, target)
  {
    ghost var pos := tree.pos;
    var to := SoughtAll(tree.streams, target);
    for n := 0 to |its|
      invariant tree.Valid() && MovedUpTo(pos, to, tree.pos, its, n)
    {
      assert its[n] in its;
      MovedNext(pos, to, tree.pos, its, n);
      ghost var before := tree.pos;
      tree.pos := tree.pos[its[n] := to[its[n]]];
      tree.Update(its[n], before);
    }
    assert its[..|its|] == its;
  }
}
