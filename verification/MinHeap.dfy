/**
 `HeapPriorityQueue` (internal/structures/min_heap.go): a binary min-heap of input
 iterators ordered by their current records, and the merge that drains it.
 */
module MinHeap {
  import opened Keys
  import opened Options
  import opened Records
  import opened KWayMerge

  /** The record lies below the key that is being sought. */
  predicate Under(floor: Option<Key>, r: Record) { floor.Some? && r.key < floor.value }

  /** Both inputs are live and `a` may be emitted before `b`; during a seek the order of what lies below its key is open. */
  ghost predicate Before(streams: seq<seq<Record>>, pos: seq<nat>, floor: Option<Key>, a: nat, b: nat)
    requires Positions(streams, pos)
  {
    && Live(streams, pos, a) && Live(streams, pos, b)
    && (Le(Cur(streams, pos, a), Cur(streams, pos, b)) || Under(floor, Cur(streams, pos, a)))
  }

  predicate Edge(p: nat, c: nat) { c == 2 * p + 1 || c == 2 * p + 2 }

  /** Heap order on every edge whose parent is at or after `lo`, except below `hole`. */
  ghost predicate HeapBut(data: seq<nat>, streams: seq<seq<Record>>, pos: seq<nat>, floor: Option<Key>, lo: nat, hole: nat)
    requires Positions(streams, pos)
  {
    && (forall p: nat, c: nat :: p < |data| && c < |data| && lo <= p != hole && Edge(p, c) ==>
          Before(streams, pos, floor, data[p], data[c]))
    && (forall p: nat, c: nat :: p < |data| && c < |data| && lo <= p && Edge(p, hole) && Edge(hole, c) ==>
          Before(streams, pos, floor, data[p], data[c]))
  }

  ghost predicate HeapFrom(data: seq<nat>, streams: seq<seq<Record>>, pos: seq<nat>, floor: Option<Key>, lo: nat)
    requires Positions(streams, pos)
  {
    forall p: nat, c: nat :: p < |data| && c < |data| && lo <= p && Edge(p, c) ==>
      Before(streams, pos, floor, data[p], data[c])
  }

  lemma {:induction false} RootBefore(data: seq<nat>, streams: seq<seq<Record>>, pos: seq<nat>, c: nat)
    requires Positions(streams, pos) && HeapFrom(data, streams, pos, None, 0)
    requires c < |data| && Live(streams, pos, data[0])
    ensures Before(streams, pos, None, data[0], data[c])
    decreases c
  {
    if c > 0 {
      var p := (c - 1) / 2;
      RootBefore(data, streams, pos, p);
      assert Edge(p, c);
      assert Before(streams, pos, None, data[p], data[c]);
    }
  }

  /** The heap holds every live input exactly once. */
  ghost predicate HoldsLive(data: seq<nat>, streams: seq<seq<Record>>, pos: seq<nat>)
    requires Positions(streams, pos)
  {
    && (forall i, j :: 0 <= i < j < |data| ==> data[i] != data[j])
    && (forall i: nat :: i in data <==> Live(streams, pos, i))
  }

  /** The heap of all live inputs, ordered but for what lies below the key being sought. */
  ghost predicate InOrder(data: seq<nat>, streams: seq<seq<Record>>, pos: seq<nat>, floor: Option<Key>) {
    Positions(streams, pos) && HoldsLive(data, streams, pos) && HeapFrom(data, streams, pos, floor, 0)
  }

  /** No child of `j` is smaller. */
  ghost predicate Rests(data: seq<nat>, streams: seq<seq<Record>>, pos: seq<nat>, j: nat)
    requires Positions(streams, pos)
  {
    forall c: nat :: j < |data| && c < |data| && Edge(j, c) ==> Before(streams, pos, None, data[j], data[c])
  }

  /** Heap order on every edge but the one above `j`. */
  ghost predicate HeapUp(data: seq<nat>, streams: seq<seq<Record>>, pos: seq<nat>, floor: Option<Key>, j: nat)
    requires Positions(streams, pos)
  {
    && (forall p: nat, c: nat :: p < |data| && c < |data| && c != j && Edge(p, c) ==> Before(streams, pos, floor, data[p], data[c]))
    && (forall p: nat, c: nat :: p < |data| && c < |data| && Edge(p, j) && Edge(j, c) ==> Before(streams, pos, floor, data[p], data[c]))
  }

  /** Only input `it` was moved; if that exhausted it, it stood below the key being sought. */
  ghost predicate MovedTo(streams: seq<seq<Record>>, oldPos: seq<nat>, pos: seq<nat>, floor: Option<Key>, it: nat) {
    && Positions(streams, oldPos) && Positions(streams, pos) && Live(streams, oldPos, it) && pos == oldPos[it := pos[it]]
    && (pos[it] == |streams[it]| ==> Under(floor, Cur(streams, oldPos, it)))
  }

  lemma LiveEntries(data: seq<nat>, streams: seq<seq<Record>>, pos: seq<nat>)
    requires Positions(streams, pos) && HoldsLive(data, streams, pos)
    ensures forall i :: 0 <= i < |data| ==> Live(streams, pos, data[i])
  {
    assert forall i :: 0 <= i < |data| ==> data[i] in data;
  }

  lemma BeforeTransitive(streams: seq<seq<Record>>, pos: seq<nat>, floor: Option<Key>, a: nat, b: nat, c: nat)
    requires Positions(streams, pos) && Before(streams, pos, floor, a, b) && Before(streams, pos, floor, b, c)
    ensures Before(streams, pos, floor, a, c)
  {
  }

  /** An ordered heap is one but for the edge above `j`. */
  lemma HeapIsUp(data: seq<nat>, streams: seq<seq<Record>>, pos: seq<nat>, floor: Option<Key>, j: nat)
    requires Positions(streams, pos) && HeapFrom(data, streams, pos, floor, 0) && j < |data|
    ensures HeapUp(data, streams, pos, floor, j)
  {
    forall p: nat, c: nat | p < |data| && c < |data| && Edge(p, j) && Edge(j, c)
      ensures Before(streams, pos, floor, data[p], data[c])
    {
      BeforeTransitive(streams, pos, floor, data[p], data[j], data[c]);
    }
  }

  lemma RisenFar(data: seq<nat>, streams: seq<seq<Record>>, pos: seq<nat>, floor: Option<Key>, j: nat, q: nat)
    requires Positions(streams, pos) && j < |data| && HeapUp(data, streams, pos, floor, j) && Edge(q, j)
    requires Before(streams, pos, floor, data[q], data[j])
    ensures HeapFrom(data, streams, pos, floor, 0)
  {
  }

  lemma SwapUp(data: seq<nat>, streams: seq<seq<Record>>, pos: seq<nat>, floor: Option<Key>, j: nat, q: nat, d: seq<nat>)
    requires Positions(streams, pos) && j < |data| && HeapUp(data, streams, pos, floor, j) && Edge(q, j)
    requires forall i :: 0 <= i < |data| ==> Live(streams, pos, data[i])
    requires Before(streams, pos, None, data[j], data[q]) && d == data[j := data[q]][q := data[j]]
    ensures HeapUp(d, streams, pos, floor, q) && Permuted(data, d) && forall i :: 0 <= i < |d| ==> Live(streams, pos, d[i])
  {
    forall p: nat, c: nat | p < |d| && c < |d| && c != q && Edge(p, c) ensures Before(streams, pos, floor, d[p], d[c]) {
      if p == q && c != j {
        BeforeTransitive(streams, pos, floor, data[j], data[q], data[c]);
      }
    }
    forall p: nat, c: nat | p < |d| && c < |d| && Edge(p, q) && Edge(q, c) ensures Before(streams, pos, floor, d[p], d[c]) {
      assert Before(streams, pos, floor, data[p], data[q]);
      if c != j {
        BeforeTransitive(streams, pos, floor, data[p], data[q], data[c]);
      }
    }
  }

  /** Edges that do not touch the moved input keep their order. */
  lemma OtherEdge(data: seq<nat>, streams: seq<seq<Record>>, oldPos: seq<nat>, pos: seq<nat>, floor: Option<Key>, it: nat, p: nat, c: nat)
    requires MovedTo(streams, oldPos, pos, floor, it) && InOrder(data, streams, oldPos, floor)
    requires p < |data| && c < |data| && Edge(p, c) && data[p] != it && data[c] != it
    ensures Before(streams, pos, floor, data[p], data[c])
  {
    assert Before(streams, oldPos, floor, data[p], data[c]);
  }

  /** The entries above and below the moved input stay in order. */
  lemma AcrossMoved(data: seq<nat>, streams: seq<seq<Record>>, oldPos: seq<nat>, pos: seq<nat>, floor: Option<Key>, it: nat, idx: nat,
                    p: nat, c: nat)
    requires MovedTo(streams, oldPos, pos, floor, it) && InOrder(data, streams, oldPos, floor) && idx < |data| && data[idx] == it
    requires p < |data| && c < |data| && Edge(p, idx) && Edge(idx, c)
    ensures Before(streams, pos, floor, data[p], data[c])
  {
    BeforeTransitive(streams, oldPos, floor, data[p], data[idx], data[c]);
    assert data[p] != data[idx] && data[c] != data[idx];
  }

  /** A moved input either sinks, or no child of it is smaller and it rises. */
  lemma MovedWithin(data: seq<nat>, streams: seq<seq<Record>>, oldPos: seq<nat>, pos: seq<nat>, floor: Option<Key>, it: nat, idx: nat)
    requires MovedTo(streams, oldPos, pos, floor, it) && InOrder(data, streams, oldPos, floor)
    requires idx < |data| && data[idx] == it && pos[it] < |streams[it]|
    ensures HoldsLive(data, streams, pos) && forall i :: 0 <= i < |data| ==> Live(streams, pos, data[i])
    ensures HeapBut(data, streams, pos, floor, 0, idx) || (Rests(data, streams, pos, idx) && HeapUp(data, streams, pos, floor, idx))
  {
    forall i: nat ensures Live(streams, pos, i) <==> Live(streams, oldPos, i) {
    }
    LiveEntries(data, streams, pos);
    forall p: nat, c: nat | p < |data| && c < |data| && p != idx && c != idx && Edge(p, c)
      ensures Before(streams, pos, floor, data[p], data[c])
    {
      OtherEdge(data, streams, oldPos, pos, floor, it, p, c);
    }
    forall p: nat, c: nat | p < |data| && c < |data| && Edge(p, idx) && Edge(idx, c)
      ensures Before(streams, pos, floor, data[p], data[c])
    {
      AcrossMoved(data, streams, oldPos, pos, floor, it, idx, p, c);
    }
    if !HeapBut(data, streams, pos, floor, 0, idx) {
      Rises(data, streams, oldPos, pos, floor, it, idx);
    }
  }

  lemma Rises(data: seq<nat>, streams: seq<seq<Record>>, oldPos: seq<nat>, pos: seq<nat>, floor: Option<Key>, it: nat, idx: nat)
    requires MovedTo(streams, oldPos, pos, floor, it) && InOrder(data, streams, oldPos, floor)
    requires idx < |data| && data[idx] == it && pos[it] < |streams[it]|
    requires exists p: nat :: p < |data| && Edge(p, idx) && !Before(streams, pos, floor, data[p], data[idx])
    ensures Rests(data, streams, pos, idx)
    ensures forall c: nat :: c < |data| && Edge(idx, c) ==> Before(streams, pos, floor, data[idx], data[c])
  {
    var p: nat :| p < |data| && Edge(p, idx) && !Before(streams, pos, floor, data[p], data[idx]);
    forall c: nat | c < |data| && Edge(idx, c) ensures Before(streams, pos, None, data[idx], data[c]) {
      assert Before(streams, oldPos, floor, data[p], data[idx]) && Before(streams, oldPos, floor, data[idx], data[c]);
      assert data[p] != data[idx] && data[c] != data[idx];
    }
  }

  /** An exhausted input makes room for the last entry, which then only has to sink. */
  lemma DroppedAt(data: seq<nat>, d: seq<nat>, streams: seq<seq<Record>>, oldPos: seq<nat>, pos: seq<nat>, floor: Option<Key>,
                  it: nat, idx: nat)
    requires MovedTo(streams, oldPos, pos, floor, it) && InOrder(data, streams, oldPos, floor)
    requires idx < |data| && data[idx] == it && pos[it] == |streams[it]|
    requires d == data[idx := data[|data| - 1]][..|data| - 1]
    ensures HoldsLive(d, streams, pos) && forall i :: 0 <= i < |d| ==> Live(streams, pos, d[i])
    ensures HeapBut(d, streams, pos, floor, 0, idx)
  {
    DroppedHolds(data, d, streams, oldPos, pos, floor, it, idx);
    LiveEntries(d, streams, pos);
    forall p: nat | p < |d| && Edge(p, idx) ensures Under(floor, Cur(streams, pos, d[p])) {
      assert Before(streams, oldPos, floor, data[p], data[idx]);
      assert data[p] != data[idx];
    }
    forall p: nat, c: nat | p < |d| && c < |d| && p != idx && Edge(p, c) ensures Before(streams, pos, floor, d[p], d[c]) {
      if c != idx {
        OtherEdge(data, streams, oldPos, pos, floor, it, p, c);
      }
    }
  }

  lemma DroppedHolds(data: seq<nat>, d: seq<nat>, streams: seq<seq<Record>>, oldPos: seq<nat>, pos: seq<nat>, floor: Option<Key>,
                     it: nat, idx: nat)
    requires MovedTo(streams, oldPos, pos, floor, it) && HoldsLive(data, streams, oldPos)
    requires idx < |data| && data[idx] == it && pos[it] == |streams[it]|
    requires d == data[idx := data[|data| - 1]][..|data| - 1]
    ensures HoldsLive(d, streams, pos)
  {
    var last := |data| - 1;
    forall i: nat ensures i in d <==> Live(streams, pos, i) {
      assert Live(streams, pos, i) <==> Live(streams, oldPos, i) && i != it;
      if i in data && i != it {
        var k :| 0 <= k < |data| && data[k] == i;
        assert d[if k == last then idx else k] == i;
      }
      if i in d {
        var k :| 0 <= k < |d| && d[k] == i;
        assert data[if k == idx then last else k] in data;
      }
    }
  }

  lemma RootLeast(data: seq<nat>, streams: seq<seq<Record>>, pos: seq<nat>)
    requires Positions(streams, pos) && HeapFrom(data, streams, pos, None, 0) && HoldsLive(data, streams, pos)
    requires |data| > 0
    ensures Least(streams, pos, data[0])
  {
    assert data[0] in data;
    forall i: nat | Live(streams, pos, i) ensures Le(Cur(streams, pos, data[0]), Cur(streams, pos, i)) {
      var c :| 0 <= c < |data| && data[c] == i;
      RootBefore(data, streams, pos, c);
    }
  }

  /** Swapping two entries keeps the same inputs in the heap. */
  ghost predicate Permuted(a: seq<nat>, b: seq<nat>) {
    |a| == |b| && multiset(a) == multiset(b)
  }

  lemma PermutedHolds(a: seq<nat>, b: seq<nat>, streams: seq<seq<Record>>, pos: seq<nat>)
    requires Positions(streams, pos) && HoldsLive(a, streams, pos) && Permuted(a, b)
    ensures HoldsLive(b, streams, pos)
  {
    forall i: nat ensures i in b <==> Live(streams, pos, i) {
      assert i in b <==> i in multiset(b);
      assert i in a <==> i in multiset(a);
    }
    forall i, j | 0 <= i < j < |b| ensures b[i] != b[j] {
      if b[i] == b[j] {
        Twice(b, i, j);
        Once(a, b[i]);
        assert false;
      }
    }
  }

  lemma Twice(b: seq<nat>, i: nat, j: nat)
    requires i < j < |b| && b[i] == b[j]
    ensures multiset(b)[b[i]] >= 2
  {
    assert b == b[..i] + [b[i]] + b[i + 1..j] + [b[j]] + b[j + 1..];
  }

  lemma {:induction false} Once(a: seq<nat>, x: nat)
    requires forall i, j :: 0 <= i < j < |a| ==> a[i] != a[j]
    ensures multiset(a)[x] <= 1
  {
    if |a| > 0 {
      var n := |a| - 1;
      Once(a[..n], x);
      assert a == a[..n] + [a[n]];
      assert a[n] !in a[..n];
    }
  }

  class HeapPriorityQueue {
    const streams: seq<seq<Record>>
    var pos: seq<nat>
    var data: seq<nat>

    ghost predicate Valid()
      reads this
    {
      InOrder(data, streams, pos, None)
    }

    predicate Smaller(i: nat, j: nat)
      requires Positions(streams, pos) && i < |data| && j < |data|
      requires Live(streams, pos, data[i]) && Live(streams, pos, data[j])
      reads this
      ensures Smaller(i, j) <==> !Le(Cur(streams, pos, data[j]), Cur(streams, pos, data[i]))
    {
      Cmp(Cur(streams, pos, data[i]), Cur(streams, pos, data[j])) < 0
    }

    /** The smaller of the two children of `j`. */
    method SmallChild(j: nat) returns (s: nat)
      requires Positions(streams, pos) && 2 * j + 1 < |data|
      requires forall i :: 0 <= i < |data| ==> Live(streams, pos, data[i])
      ensures s < |data| && Edge(j, s)
      ensures forall c: nat :: c < |data| && Edge(j, c) ==> Before(streams, pos, None, data[s], data[c])
    {
      s := 2 * j + 1;
      if 2 * j + 2 < |data| {
        var right := 2 * j + 2;
        if Smaller(right, s) {
          s := right;
        }
      }
    }

    /** `downheap`: sift the entry at `j` down until its children are no smaller. */
    method Downheap(j: nat, ghost lo: nat, ghost floor: Option<Key>)
      requires Positions(streams, pos) && lo <= j
      requires forall i :: 0 <= i < |data| ==> Live(streams, pos, data[i])
      requires HeapBut(data, streams, pos, floor, lo, j) || Rests(data, streams, pos, j)
      modifies this`data
      ensures old(HeapBut(data, streams, pos, floor, lo, j)) ==> Permuted(old(data), data) && HeapFrom(data, streams, pos, floor, lo)
      ensures old(Rests(data, streams, pos, j)) ==> data == old(data)
      decreases |data| - j
    {
      if 2 * j + 1 < |data| {
        var smallChild := SmallChild(j);
        if Smaller(smallChild, j) {
          SwapKeepsHeap(data, streams, pos, floor, lo, j, smallChild);
          data := data[j := data[smallChild]][smallChild := data[j]];
          Downheap(smallChild, lo, floor);
        } else if HeapBut(data, streams, pos, floor, lo, j) {
          NoSwapNeeded(data, streams, pos, floor, lo, j, smallChild);
        }
      }
    }

    /** `upheap`: sift the entry at `j` up until its parent is no larger. */
    method Upheap(j: nat, ghost floor: Option<Key>)
      requires Positions(streams, pos) && j < |data|
      requires forall i :: 0 <= i < |data| ==> Live(streams, pos, data[i])
      requires HeapUp(data, streams, pos, floor, j)
      modifies this`data
      ensures Permuted(old(data), data) && HeapFrom(data, streams, pos, floor, 0)
      decreases j
    {
      if j == 0 {
        return;
      }
      var parent := (j - 1) / 2;
      ghost var d := data[j := data[parent]][parent := data[j]];
      if Smaller(j, parent) {
        SwapUp(data, streams, pos, floor, j, parent, d);
        data := data[j := data[parent]][parent := data[j]];
        Upheap(parent, floor);
      } else {
        RisenFar(data, streams, pos, floor, j, parent);
      }
    }

    /** `Update` of an input that was moved: away with it if it is exhausted, or else to where it belongs. */
    method Update(it: nat, ghost oldPos: seq<nat>, ghost floor: Option<Key>)
      requires InOrder(data, streams, oldPos, floor) && it in data && MovedTo(streams, oldPos, pos, floor, it)
      modifies this`data
      ensures InOrder(data, streams, pos, floor)
    {
      var idx := IndexOf(it);
      if pos[it] == |streams[it]| {
        Remove(it, idx, oldPos, floor);
        return;
      }
      MovedWithin(data, streams, oldPos, pos, floor, it, idx);
      ghost var before := data;
      ghost var sinks := HeapBut(data, streams, pos, floor, 0, idx);
      Downheap(idx, 0, floor);
      if sinks {
        PermutedHolds(before, data, streams, pos);
        HeapIsUp(data, streams, pos, floor, idx);
      }
      ghost var sunk := data;
      LiveEntries(data, streams, pos);
      Upheap(idx, floor);
      PermutedHolds(sunk, data, streams, pos);
    }

    /** `Update` of an input that is exhausted. */
    method Remove(it: nat, idx: nat, ghost oldPos: seq<nat>, ghost floor: Option<Key>)
      requires InOrder(data, streams, oldPos, floor) && idx < |data| && data[idx] == it && MovedTo(streams, oldPos, pos, floor, it)
      requires pos[it] == |streams[it]|
      modifies this`data
      ensures InOrder(data, streams, pos, floor)
    {
      var last := |data| - 1;
      DroppedAt(data, data[idx := data[last]][..last], streams, oldPos, pos, floor, it, idx);
      data := data[idx := data[last]][..last];
      if idx < |data| {
        ghost var before := data;
        Downheap(idx, 0, floor);
        PermutedHolds(before, data, streams, pos);
      }
    }

    method IndexOf(it: nat) returns (idx: nat)
      requires it in data
      ensures idx < |data| && data[idx] == it
    {
      idx := 0;
      while data[idx] != it
        invariant idx < |data| && it !in data[..idx]
        decreases |data| - idx
      {
        idx := idx + 1;
      }
    }

    /** `heapify`: bottom-up construction. */
    method Heapify()
      requires Positions(streams, pos)
      requires forall i :: 0 <= i < |data| ==> Live(streams, pos, data[i])
      modifies this`data
      ensures Permuted(old(data), data) && HeapFrom(data, streams, pos, None, 0)
    {
      var i := |data| / 2;
      while i > 0
        invariant 0 <= i <= |data| / 2
        invariant Permuted(old(data), data)
        invariant forall k :: 0 <= k < |data| ==> Live(streams, pos, data[k])
        invariant HeapFrom(data, streams, pos, None, i)
      {
        i := i - 1;
        ghost var before := data;
        Downheap(i, i, None);
        forall k | 0 <= k < |data| ensures Live(streams, pos, data[k]) {
          assert data[k] in multiset(before);
        }
      }
    }

    /** `NewHeapPriorityQueue`: keep the inputs that have a record, then heapify. */
    constructor (streams: seq<seq<Record>>)
      ensures Valid() && this.streams == streams && pos == Start(streams)
    {
      this.streams := streams;
      this.pos := Start(streams);
      this.data := [];
      new;
      for n := 0 to |streams|
        invariant this.streams == streams && pos == Start(streams)
        invariant forall i, j :: 0 <= i < j < |data| ==> data[i] < data[j]
        invariant forall i: nat :: i in data <==> i < n && Live(streams, pos, i)
      {
        assert forall i :: 0 <= i < |data| ==> data[i] in data;
        if |streams[n]| > 0 {
          data := data + [n];
        }
      }
      ghost var before := data;
      assert HoldsLive(before, streams, pos);
      assert forall i :: 0 <= i < |data| ==> data[i] in data;
      Heapify();
      PermutedHolds(before, data, streams, pos);
    }

    /** `Winner`: the input to emit next, if any. */
    method Winner() returns (found: bool, w: nat)
      requires Valid()
      ensures found ==> Least(streams, pos, w) && |data| > 0 && w == data[0]
      ensures !found ==> forall i: nat :: !Live(streams, pos, i)
    {
      if |data| == 0 {
        assert forall i: nat :: i !in data;
        return false, 0;
      }
      RootLeast(data, streams, pos);
      return true, data[0];
    }

    /** `Advance`: move the winner on and restore the heap, dropping it when exhausted. */
    method Advance(w: nat)
      requires Valid() && |data| > 0 && w == data[0]
      modifies this
      ensures Valid() && Live(streams, old(pos), w) && pos == old(pos)[w := old(pos)[w] + 1]
    {
      assert w in data;
      ghost var oldPos, oldData := pos, data;
      pos := pos[w := pos[w] + 1];
      if pos[w] < |streams[w]| {
        MovedRoot(data, streams, oldPos, pos, w);
        ghost var before := data;
        Downheap(0, 0, None);
        PermutedHolds(before, data, streams, pos);
      } else {
        var last := |data| - 1;
        data := data[0 := data[last]][..last];
        DroppedRoot(oldData, data, streams, oldPos, pos, w);
        if |data| > 0 {
          ghost var before := data;
          Downheap(0, 0, None);
          PermutedHolds(before, data, streams, pos);
        }
      }
    }
  }

  lemma EmitsRoot(data: seq<nat>, streams: seq<seq<Record>>, pos: seq<nat>, out: seq<Record>, w: nat)
    requires InOrder(data, streams, pos, None) && Merging(streams, pos, out) && |data| > 0 && w == data[0]
    ensures Live(streams, pos, w) && Positions(streams, pos[w := pos[w] + 1])
    ensures Merging(streams, pos[w := pos[w] + 1], out + [Cur(streams, pos, w)])
    ensures |Remaining(streams, pos[w := pos[w] + 1])| < |Remaining(streams, pos)|
  {
    RootLeast(data, streams, pos);
    EmitsLeast(streams, pos, out, w);
  }

  /** `Next` of the raw merge iterator: emit the winner's record and advance it. */
  method EmitWinner(heap: HeapPriorityQueue, out: seq<Record>, w: nat) returns (out': seq<Record>)
    requires heap.Valid() && Merging(heap.streams, heap.pos, out)
    requires |heap.data| > 0 && w == heap.data[0]
    modifies heap
    ensures heap.Valid() && Merging(heap.streams, heap.pos, out')
    ensures |Remaining(heap.streams, heap.pos)| < old(|Remaining(heap.streams, heap.pos)|)
  {
    EmitsRoot(heap.data, heap.streams, heap.pos, out, w);
    out' := out + [Cur(heap.streams, heap.pos, w)];
    heap.Advance(w);
  }

  lemma NoSwapNeeded(data: seq<nat>, streams: seq<seq<Record>>, pos: seq<nat>, floor: Option<Key>, lo: nat, j: nat, s: nat)
    requires Positions(streams, pos) && HeapBut(data, streams, pos, floor, lo, j)
    requires j < |data| && s < |data| && Before(streams, pos, floor, data[j], data[s])
    requires forall c: nat :: c < |data| && Edge(j, c) ==> Before(streams, pos, floor, data[s], data[c])
    ensures HeapFrom(data, streams, pos, floor, lo)
  {
    forall p: nat, c: nat | p < |data| && c < |data| && lo <= p && Edge(p, c) ensures Before(streams, pos, floor, data[p], data[c]) {
      if p == j {
        assert Before(streams, pos, floor, data[s], data[c]);
      }
    }
  }

  lemma SwapKeepsHeap(data: seq<nat>, streams: seq<seq<Record>>, pos: seq<nat>, floor: Option<Key>, lo: nat, j: nat, s: nat)
    requires Positions(streams, pos) && lo <= j && HeapBut(data, streams, pos, floor, lo, j)
    requires j < |data| && s < |data| && Edge(j, s) && Before(streams, pos, floor, data[s], data[j])
    requires forall i :: 0 <= i < |data| ==> Live(streams, pos, data[i])
    requires forall c: nat :: c < |data| && Edge(j, c) ==> Before(streams, pos, floor, data[s], data[c])
    ensures var d := data[j := data[s]][s := data[j]];
            HeapBut(d, streams, pos, floor, lo, s) && Permuted(data, d)
            && forall i :: 0 <= i < |d| ==> Live(streams, pos, d[i])
  {
    var d := data[j := data[s]][s := data[j]];
    forall p: nat, c: nat | p < |d| && c < |d| && lo <= p != s && Edge(p, c)
      ensures Before(streams, pos, floor, d[p], d[c])
    {
      SwapEdge(data, streams, pos, floor, lo, j, s, p, c);
    }
    forall p: nat, c: nat | p < |d| && c < |d| && lo <= p && Edge(p, s) && Edge(s, c)
      ensures Before(streams, pos, floor, d[p], d[c])
    {
      assert p == j;
      assert Before(streams, pos, floor, data[s], data[c]);
    }
  }

  lemma SwapEdge(data: seq<nat>, streams: seq<seq<Record>>, pos: seq<nat>, floor: Option<Key>, lo: nat, j: nat, s: nat, p: nat, c: nat)
    requires Positions(streams, pos) && lo <= j && HeapBut(data, streams, pos, floor, lo, j)
    requires j < |data| && s < |data| && Edge(j, s) && Before(streams, pos, floor, data[s], data[j])
    requires forall k: nat :: k < |data| && Edge(j, k) ==> Before(streams, pos, floor, data[s], data[k])
    requires p < |data| && c < |data| && lo <= p != s && Edge(p, c)
    ensures var d := data[j := data[s]][s := data[j]];
            Before(streams, pos, floor, d[p], d[c])
  {
    if p == j {
      assert Before(streams, pos, floor, data[s], data[c]);
    } else if c == j {
      assert Edge(p, j) && Edge(j, s);
      assert Before(streams, pos, floor, data[p], data[s]);
    } else {
      assert Before(streams, pos, floor, data[p], data[c]);
    }
  }

  /** Moving the root's input leaves every edge not touching the root in order. */
  lemma MovedRoot(data: seq<nat>, streams: seq<seq<Record>>, oldPos: seq<nat>, pos: seq<nat>, w: nat)
    requires Positions(streams, oldPos) && Live(streams, oldPos, w) && pos == oldPos[w := oldPos[w] + 1]
    requires Positions(streams, pos) && Live(streams, pos, w)
    requires HoldsLive(data, streams, oldPos) && HeapFrom(data, streams, oldPos, None, 0) && |data| > 0 && data[0] == w
    ensures HoldsLive(data, streams, pos) && HeapBut(data, streams, pos, None, 0, 0)
    ensures forall i :: 0 <= i < |data| ==> Live(streams, pos, data[i])
  {
    forall i: nat ensures Live(streams, pos, i) <==> Live(streams, oldPos, i) {
    }
    forall p: nat, c: nat | p < |data| && c < |data| && p != 0 && Edge(p, c)
      ensures Before(streams, pos, None, data[p], data[c])
    {
      assert Before(streams, oldPos, None, data[p], data[c]);
      assert data[p] != data[0] && data[c] != data[0];
    }
    assert forall i :: 0 <= i < |data| ==> data[i] in data;
  }

  /** Replacing the exhausted root by the last entry leaves a heap except below the root. */
  lemma DroppedRoot(data: seq<nat>, d: seq<nat>, streams: seq<seq<Record>>, oldPos: seq<nat>, pos: seq<nat>, w: nat)
    requires Positions(streams, oldPos) && Live(streams, oldPos, w) && pos == oldPos[w := oldPos[w] + 1]
    requires Positions(streams, pos) && !Live(streams, pos, w)
    requires HoldsLive(data, streams, oldPos) && HeapFrom(data, streams, oldPos, None, 0) && |data| > 0 && data[0] == w
    requires d == data[0 := data[|data| - 1]][..|data| - 1]
    ensures HoldsLive(d, streams, pos) && HeapBut(d, streams, pos, None, 0, 0)
    ensures forall i :: 0 <= i < |d| ==> Live(streams, pos, d[i])
  {
    var last := |data| - 1;
    forall i: nat ensures i in d <==> Live(streams, pos, i) {
      assert Live(streams, pos, i) <==> Live(streams, oldPos, i) && i != w;
      if i in data && i != w {
        var k :| 0 <= k < |data| && data[k] == i;
        assert d[if k == last then 0 else k] == i;
      }
    }
    forall p: nat, c: nat | p < |d| && c < |d| && p != 0 && Edge(p, c)
      ensures Before(streams, pos, None, d[p], d[c])
    {
      assert Before(streams, oldPos, None, data[p], data[c]);
      assert data[p] != data[0] && data[c] != data[0];
    }
    assert forall i :: 0 <= i < |d| ==> d[i] in d;
  }

  /** Draining the heap lists all records of all inputs in order. */
  method MergeWithHeap(streams: seq<seq<Record>>) returns (out: seq<Record>)
    requires AllSorted(streams)
    ensures Sorted(out)
    ensures multiset(out) == Remaining(streams, Start(streams))
  {
    var heap := new HeapPriorityQueue(streams);
    out := [];
    StartMerging(streams);
    var found, w := heap.Winner();
    while found
      invariant heap.streams == streams && heap.Valid() && fresh(heap)
      invariant Merging(streams, heap.pos, out)
      invariant found ==> |heap.data| > 0 && w == heap.data[0]
      invariant !found ==> forall i: nat :: !Live(streams, heap.pos, i)
      decreases |Remaining(streams, heap.pos)|
    {
      out := EmitWinner(heap, out, w);
      found, w := heap.Winner();
    }
    NothingRemains(streams, heap.pos);
  }
}
