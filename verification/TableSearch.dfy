/**
 Locating a key in a table file: summary, index, restart points, scan (internal/sstable/summary.go:178-290,
 internal/sstable/index.go:58-153, internal/sstable/data.go:525-563, internal/sstable/iterator.go:114-160).
 The result is that of a linear scan of the whole table.
 */
module TableSearch {
  import opened Keys
  import opened Options
  import opened Records

  // ------------------------------------------------------------------ inside a block

  ghost predicate Nondecreasing(recs: seq<Record>) {
    forall i, j :: 0 <= i < j < |recs| ==> recs[i].key <= recs[j].key
  }

  /** The first record whose key is at or above the target. */
  ghost predicate FirstAtOrAbove(recs: seq<Record>, target: Key, i: nat) {
    i < |recs| && recs[i].key >= target && forall j :: 0 <= j < i ==> recs[j].key < target
  }

  ghost predicate AllBelow(recs: seq<Record>, target: Key) {
    forall j :: 0 <= j < |recs| ==> recs[j].key < target
  }

  /** A restart point every `interval` records. */
  function RestartCount(n: nat, interval: nat): nat
    requires interval > 0
  {
    (n + interval - 1) / interval
  }

  /** That is the least number of points whose intervals hold all records. */
  lemma CountIsLeast(n: nat, interval: nat)
    requires interval > 0
    ensures RestartCount(n, interval) * interval >= n
    ensures RestartCount(n, interval) > 0 ==> (RestartCount(n, interval) - 1) * interval < n
  {
    if RestartCount(n, interval) > 0 {
      RestartInRange(n, interval, RestartCount(n, interval) - 1);
    }
  }

  lemma RestartInRange(n: nat, interval: nat, k: nat)
    requires interval > 0 && k < RestartCount(n, interval)
    ensures k * interval < n
  {
    var c := (n + interval - 1) / interval;
    assert c * interval <= n + interval - 1;
    assert (k + 1) * interval <= c * interval;
    assert (k + 1) * interval == k * interval + interval;
  }

  lemma RestartsOrdered(interval: nat, j: nat, k: nat)
    requires j <= k
    ensures j * interval <= k * interval
  {
  }

  /** Restart points from `k` on start with a key at or above the target. */
  ghost predicate RestartsAbove(recs: seq<Record>, interval: nat, target: Key, k: int)
    requires interval > 0
  {
    forall m: nat :: k <= m && m * interval < |recs| ==> recs[m * interval].key >= target
  }

  lemma AboveFrom(recs: seq<Record>, interval: nat, target: Key, k: nat)
    requires interval > 0 && Nondecreasing(recs) && k * interval < |recs| && recs[k * interval].key >= target
    ensures RestartsAbove(recs, interval, target, k)
  {
    forall m: nat | k <= m && m * interval < |recs| ensures recs[m * interval].key >= target {
      RestartsOrdered(interval, k, m);
    }
  }

  lemma NoneFrom(recs: seq<Record>, interval: nat, target: Key, k: nat)
    requires interval > 0 && k >= RestartCount(|recs|, interval)
    ensures RestartsAbove(recs, interval, target, k)
  {
    forall m: nat | k <= m ensures m * interval >= |recs| {
      RestartsOrdered(interval, RestartCount(|recs|, interval), m);
      assert RestartCount(|recs|, interval) * interval >= |recs|;
    }
  }

  /** The restart point to scan from: the last one whose key is below the target, or the first. */
  method FindRestart(recs: seq<Record>, interval: nat, target: Key) returns (best: nat)
    requires interval > 0 && Nondecreasing(recs)
    ensures best == 0 || (best * interval < |recs| && recs[best * interval].key < target)
    ensures RestartsAbove(recs, interval, target, best + 1)
  {
    var count: int := RestartCount(|recs|, interval);
    var left: int, right: int := 0, count - 1;
    best := 0;
    NoneFrom(recs, interval, target, count);
    while left <= right
      invariant 0 <= left <= right + 1 <= count
      invariant left > 0 ==> best == left - 1
      invariant best == 0 || (best * interval < |recs| && recs[best * interval].key < target)
      invariant RestartsAbove(recs, interval, target, right + 1)
      decreases right - left + 1
    {
      var mid := left + (right - left) / 2;
      RestartInRange(|recs|, interval, mid);
      if recs[mid * interval].key < target {
        best := mid;
        left := mid + 1;
      } else {
        AboveFrom(recs, interval, target, mid);
        right := mid - 1;
      }
    }
  }

  /** `DataBlockIteratorRaw.Seek`: binary search over the restart points, then a scan. */
  method SeekInBlock(recs: seq<Record>, interval: nat, target: Key) returns (found: Option<nat>)
    requires interval > 0 && Nondecreasing(recs)
    ensures found.Some? ==> FirstAtOrAbove(recs, target, found.value)
    ensures found.None? ==> AllBelow(recs, target)
  {
    var best := FindRestart(recs, interval, target);
    var i := best * interval;
    while i < |recs|
      invariant 0 <= i && (i <= |recs| || recs == []) && forall j :: 0 <= j < i && j < |recs| ==> recs[j].key < target
    {
      if recs[i].key >= target {
        return Some(i);
      }
      i := i + 1;
    }
    return None;
  }

  // ------------------------------------------------------------------ index and summary

  datatype IndexEntry = IndexEntry(key: Key, block: nat)

  ghost predicate Increasing(keys: seq<Key>) {
    forall i, j :: 0 <= i < j < |keys| ==> keys[i] < keys[j]
  }

  /** The last of the keys at or below the target, or the first of all. */
  ghost predicate LastAtOrBelow(keys: seq<Key>, target: Key, i: nat) {
    && i < |keys| && (i == 0 || keys[i] <= target)
    && (i + 1 < |keys| ==> target < keys[i + 1])
  }

  function EntryKeys(entries: seq<IndexEntry>): (keys: seq<Key>)
    ensures |keys| == |entries| && forall i :: 0 <= i < |keys| ==> keys[i] == entries[i].key
  {
    seq(|entries|, i requires 0 <= i < |entries| => entries[i].key)
  }

  /** The loop that `FindBlock` and `FindIndexBlockNumber` share. */
  method SearchKeys(keys: seq<Key>, target: Key) returns (result: int)
    requires Increasing(keys)
    ensures -1 <= result < |keys|
    ensures forall i :: 0 <= i <= result ==> keys[i] <= target
    ensures forall i :: result < i < |keys| ==> target < keys[i]
  {
    var left: int, right: int := 0, |keys| - 1;
    result := -1;
    while left <= right
      invariant 0 <= left <= right + 1 <= |keys| && result == left - 1
      invariant forall i :: 0 <= i < left ==> keys[i] <= target
      invariant forall i :: right < i < |keys| ==> target < keys[i]
      decreases right - left + 1
    {
      var mid := left + (right - left) / 2;
      if target < keys[mid] {
        right := mid - 1;
      } else if target == keys[mid] {
        return mid;
      } else {
        result := mid;
        left := mid + 1;
      }
    }
  }

  /** `FindBlock` of an index block; -1 without entries. */
  method FindBlock(entries: seq<IndexEntry>, target: Key) returns (i: int)
    requires Increasing(EntryKeys(entries))
    ensures entries == [] ==> i == -1
    ensures entries != [] ==> i >= 0 && LastAtOrBelow(EntryKeys(entries), target, i)
  {
    if |entries| == 0 {
      return -1;
    }
    if target < entries[0].key {
      return 0;
    }
    var last := |entries| - 1;
    if target > entries[last].key {
      return last;
    }
    i := SearchKeys(EntryKeys(entries), target);
  }

  /** `FindIndexBlockNumber`: the number of the index block the summary points to. */
  method FindIndexBlockNumber(summary: seq<Key>, target: Key, degree: nat) returns (n: nat)
    requires Increasing(summary)
    ensures summary == [] ==> n == 0
    ensures summary != [] ==> exists i: nat :: n == i * degree && LastAtOrBelow(summary, target, i)
  {
    var result := SearchKeys(summary, target);
    if result == -1 {
      assert summary != [] ==> LastAtOrBelow(summary, target, 0);
      return 0;
    }
    assert LastAtOrBelow(summary, target, result);
    return result * degree;
  }

  /** `BuildSummaryFromIndex`: the first key of every `degree`-th index block. */
  method BuildSummary(indexBlocks: seq<seq<IndexEntry>>, degree: nat) returns (summary: seq<Key>)
    requires degree > 0 && forall k :: 0 <= k < |indexBlocks| ==> indexBlocks[k] != []
    ensures |summary| == RestartCount(|indexBlocks|, degree)
    ensures forall k :: 0 <= k < |summary| ==> k * degree < |indexBlocks| && summary[k] == indexBlocks[k * degree][0].key
  {
    summary := [];
    var i := 0;
    while i < |indexBlocks|
      invariant i == |summary| * degree && |summary| <= RestartCount(|indexBlocks|, degree)
      invariant forall k :: 0 <= k < |summary| ==> k * degree < |indexBlocks| && summary[k] == indexBlocks[k * degree][0].key
    {
      CountGrows(|indexBlocks|, degree, |summary|);
      summary := summary + [indexBlocks[i][0].key];
      i := i + degree;
    }
    CountReached(|indexBlocks|, degree, |summary|);
  }

  lemma CountGrows(n: nat, degree: nat, k: nat)
    requires degree > 0 && k * degree < n
    ensures k < RestartCount(n, degree) && (k + 1) * degree == k * degree + degree
  {
    assert RestartCount(n, degree) * degree >= n;
    if k >= RestartCount(n, degree) {
      RestartsOrdered(degree, RestartCount(n, degree), k);
    }
  }

  lemma CountReached(n: nat, degree: nat, k: nat)
    requires degree > 0 && k * degree >= n && k <= RestartCount(n, degree)
    ensures k == RestartCount(n, degree)
  {
    if k < RestartCount(n, degree) {
      RestartInRange(n, degree, k);
    }
  }

  // ------------------------------------------------------------------ the whole table

  /** Data blocks with at least one record each, keys strictly increasing through the table. */
  ghost predicate SortedTable(blocks: seq<seq<Record>>) {
    && (forall b :: 0 <= b < |blocks| ==> blocks[b] != [])
    && (forall b, i, j :: 0 <= b < |blocks| && 0 <= i < j < |blocks[b]| ==> blocks[b][i].key < blocks[b][j].key)
    && (forall b, c, i, j :: 0 <= b < c < |blocks| && 0 <= i < |blocks[b]| && 0 <= j < |blocks[c]| ==>
          blocks[b][i].key < blocks[c][j].key)
  }

  /** Record `i` of block `b` is the one a scan from the first block on would stop at. */
  ghost predicate ScanStopsAt(blocks: seq<seq<Record>>, target: Key, b: nat, i: nat) {
    && b < |blocks| && FirstAtOrAbove(blocks[b], target, i)
    && forall c :: 0 <= c < b ==> AllBelow(blocks[c], target)
  }

  ghost predicate ScanFindsNone(blocks: seq<seq<Record>>, target: Key) {
    forall c :: 0 <= c < |blocks| ==> AllBelow(blocks[c], target)
  }

  /** The number of the data block behind those of index block `k`. */
  ghost function EndOf(indexBlocks: seq<seq<IndexEntry>>, k: nat): int
    requires k < |indexBlocks| && indexBlocks[k] != []
  {
    indexBlocks[k][0].block + |indexBlocks[k]|
  }

  /** The index lists the first key of every data block in order, cut into index blocks. */
  ghost predicate Indexes(indexBlocks: seq<seq<IndexEntry>>, blocks: seq<seq<Record>>) {
    && |indexBlocks| > 0 && (forall b :: 0 <= b < |blocks| ==> blocks[b] != [])
    && (forall k :: 0 <= k < |indexBlocks| ==> indexBlocks[k] != [])
    && indexBlocks[0][0].block == 0 && EndOf(indexBlocks, |indexBlocks| - 1) == |blocks|
    && (forall k :: 0 <= k < |indexBlocks| - 1 ==> indexBlocks[k + 1][0].block == EndOf(indexBlocks, k))
    && (forall k, j :: 0 <= k < |indexBlocks| && 0 <= j < |indexBlocks[k]| ==>
          && indexBlocks[k][j].block == indexBlocks[k][0].block + j < |blocks|
          && indexBlocks[k][j].key == blocks[indexBlocks[k][j].block][0].key)
  }

  /** An index block for the data blocks from `start` on. */
  ghost predicate EntriesFrom(entries: seq<IndexEntry>, blocks: seq<seq<Record>>, start: nat) {
    && start + |entries| <= |blocks|
    && forall j :: 0 <= j < |entries| ==> blocks[start + j] != [] && entries[j] == IndexEntry(blocks[start + j][0].key, start + j)
  }

  /** Complete index blocks for the data blocks before `end`. */
  ghost predicate IndexedTo(indexBlocks: seq<seq<IndexEntry>>, blocks: seq<seq<Record>>, end: nat) {
    && (forall k :: 0 <= k < |indexBlocks| ==> indexBlocks[k] != [] && EntriesFrom(indexBlocks[k], blocks, indexBlocks[k][0].block))
    && (forall k :: 0 <= k < |indexBlocks| - 1 ==> indexBlocks[k + 1][0].block == EndOf(indexBlocks, k))
    && (if indexBlocks == [] then end == 0 else indexBlocks[0][0].block == 0 && EndOf(indexBlocks, |indexBlocks| - 1) == end)
  }

  lemma CloseIndexBlock(indexBlocks: seq<seq<IndexEntry>>, current: seq<IndexEntry>, blocks: seq<seq<Record>>, end: nat)
    requires IndexedTo(indexBlocks, blocks, end) && current != [] && EntriesFrom(current, blocks, end)
    ensures IndexedTo(indexBlocks + [current], blocks, end + |current|)
  {
    var next := indexBlocks + [current];
    assert forall k :: 0 <= k < |indexBlocks| ==> next[k] == indexBlocks[k];
    assert next[|indexBlocks|] == current && current[0].block == end;
    forall k | 0 <= k < |next| - 1 ensures next[k + 1][0].block == EndOf(next, k) {
      if k < |indexBlocks| - 1 {
        assert indexBlocks[k + 1][0].block == EndOf(indexBlocks, k);
      }
    }
  }

  /** The encoded size of the first `n` entries with the block's own fields. */
  ghost function Weight(entries: seq<IndexEntry>, entrySize: Key -> nat, n: nat): (w: nat)
    requires n <= |entries|
  {
    if n == 0 then 4 else Weight(entries, entrySize, n - 1) + entrySize(entries[n - 1].key)
  }

  /** Before its last entry the index block was below the limit. */
  ghost predicate Below(entries: seq<IndexEntry>, entrySize: Key -> nat, limit: nat) {
    forall j :: 0 < j < |entries| ==> Weight(entries, entrySize, j) < limit
  }

  /** Its last entry brought the index block to the limit. */
  ghost predicate Reached(entries: seq<IndexEntry>, entrySize: Key -> nat, limit: nat) {
    Below(entries, entrySize, limit) && Weight(entries, entrySize, |entries|) >= limit
  }

  lemma {:induction false} WeightSnoc(entries: seq<IndexEntry>, e: IndexEntry, entrySize: Key -> nat, n: nat)
    requires n <= |entries|
    ensures Weight(entries + [e], entrySize, n) == Weight(entries, entrySize, n)
  {
    if n > 0 {
      WeightSnoc(entries, e, entrySize, n - 1);
    }
  }

  lemma BelowSnoc(entries: seq<IndexEntry>, e: IndexEntry, entrySize: Key -> nat, limit: nat, w: nat)
    requires Below(entries, entrySize, limit) && w == Weight(entries, entrySize, |entries|) && (entries != [] ==> w < limit)
    ensures Below(entries + [e], entrySize, limit) && Weight(entries + [e], entrySize, |entries| + 1) == w + entrySize(e.key)
  {
    forall j | 0 < j < |entries| + 1 ensures Weight(entries + [e], entrySize, j) < limit {
      WeightSnoc(entries, e, entrySize, j);
    }
    WeightSnoc(entries, e, entrySize, |entries|);
  }

  ghost predicate AllReached(indexBlocks: seq<seq<IndexEntry>>, n: int, entrySize: Key -> nat, limit: nat)
    requires n <= |indexBlocks|
  {
    forall k :: 0 <= k < n ==> Reached(indexBlocks[k], entrySize, limit)
  }

  /** Complete index blocks and one being filled, for the first `b` data blocks. */
  ghost predicate Filling(indexBlocks: seq<seq<IndexEntry>>, current: seq<IndexEntry>, w: nat, blocks: seq<seq<Record>>, b: nat,
                          entrySize: Key -> nat, limit: nat) {
    && |current| <= b <= |blocks| && EntriesFrom(current, blocks, b - |current|) && IndexedTo(indexBlocks, blocks, b - |current|)
    && AllReached(indexBlocks, |indexBlocks|, entrySize, limit)
    && Below(current, entrySize, limit) && w == Weight(current, entrySize, |current|)
  }

  lemma EntryAdded(indexBlocks: seq<seq<IndexEntry>>, current: seq<IndexEntry>, w: nat, blocks: seq<seq<Record>>, b: nat,
                   entrySize: Key -> nat, limit: nat, e: IndexEntry)
    requires Filling(indexBlocks, current, w, blocks, b, entrySize, limit) && (current != [] ==> w < limit)
    requires b < |blocks| && blocks[b] != [] && e == IndexEntry(blocks[b][0].key, b)
    ensures Filling(indexBlocks, current + [e], w + entrySize(e.key), blocks, b + 1, entrySize, limit)
  {
    BelowSnoc(current, e, entrySize, limit, w);
    OneMoreEntry(current, blocks, b - |current|, e);
  }

  lemma OneMoreEntry(entries: seq<IndexEntry>, blocks: seq<seq<Record>>, start: nat, e: IndexEntry)
    requires EntriesFrom(entries, blocks, start) && start + |entries| < |blocks| && blocks[start + |entries|] != []
    requires e == IndexEntry(blocks[start + |entries|][0].key, start + |entries|)
    ensures EntriesFrom(entries + [e], blocks, start)
  {
    var more := entries + [e];
    forall j | 0 <= j < |more| ensures blocks[start + j] != [] && more[j] == IndexEntry(blocks[start + j][0].key, start + j) {
      if j < |entries| {
        assert more[j] == entries[j];
      } else {
        assert j == |entries| && more[j] == e;
      }
    }
  }

  lemma BlockClosed(indexBlocks: seq<seq<IndexEntry>>, current: seq<IndexEntry>, w: nat, blocks: seq<seq<Record>>, b: nat,
                    entrySize: Key -> nat, limit: nat)
    requires Filling(indexBlocks, current, w, blocks, b, entrySize, limit) && current != []
    ensures w >= limit ==> Filling(indexBlocks + [current], [], 4, blocks, b, entrySize, limit)
    ensures IndexedTo(indexBlocks + [current], blocks, b) && AllReached(indexBlocks + [current], |indexBlocks|, entrySize, limit)
  {
    CloseIndexBlock(indexBlocks, current, blocks, b - |current|);
  }

  lemma IndexDone(indexBlocks: seq<seq<IndexEntry>>, blocks: seq<seq<Record>>)
    requires IndexedTo(indexBlocks, blocks, |blocks|) && indexBlocks != [] && forall b :: 0 <= b < |blocks| ==> blocks[b] != []
    ensures Indexes(indexBlocks, blocks)
  {
    assert forall k, j :: 0 <= k < |indexBlocks| && 0 <= j < |indexBlocks[k]| ==>
        indexBlocks[k][j] == IndexEntry(blocks[indexBlocks[k][0].block + j][0].key, indexBlocks[k][0].block + j);
  }

  /** The index part of `flushDataBlock` and `Finalize`: an index block is closed once it has reached the limit, and at the end. */
  method BuildIndex(blocks: seq<seq<Record>>, entrySize: Key -> nat, limit: nat) returns (indexBlocks: seq<seq<IndexEntry>>)
    requires |blocks| > 0 && forall b :: 0 <= b < |blocks| ==> blocks[b] != []
    ensures Indexes(indexBlocks, blocks)
    ensures forall k :: 0 <= k < |indexBlocks| - 1 ==> Reached(indexBlocks[k], entrySize, limit)
    ensures Below(indexBlocks[|indexBlocks| - 1], entrySize, limit)
  {
    indexBlocks := [];
    var current: seq<IndexEntry>, realSize: nat := [], 4;
    for b := 0 to |blocks|
      invariant Filling(indexBlocks, current, realSize, blocks, b, entrySize, limit) && (current != [] ==> realSize < limit)
    {
      var e := IndexEntry(blocks[b][0].key, b);
      EntryAdded(indexBlocks, current, realSize, blocks, b, entrySize, limit, e);
      current := current + [e];
      realSize := realSize + entrySize(e.key);
      if realSize >= limit {
        BlockClosed(indexBlocks, current, realSize, blocks, b + 1, entrySize, limit);
        indexBlocks := indexBlocks + [current];
        current, realSize := [], 4;
      }
    }
    if |current| > 0 {
      BlockClosed(indexBlocks, current, realSize, blocks, |blocks|, entrySize, limit);
      indexBlocks := indexBlocks + [current];
    }
    IndexDone(indexBlocks, blocks);
  }

  /** First keys of the index blocks. */
  ghost predicate Summarizes(summary: seq<Key>, indexBlocks: seq<seq<IndexEntry>>) {
    && |summary| == |indexBlocks|
    && forall k :: 0 <= k < |summary| ==> indexBlocks[k] != [] && summary[k] == indexBlocks[k][0].key
  }

  lemma {:induction false} StartsGrow(indexBlocks: seq<seq<IndexEntry>>, blocks: seq<seq<Record>>, j: nat, k: nat)
    requires Indexes(indexBlocks, blocks) && j < k < |indexBlocks|
    ensures indexBlocks[j][0].block < indexBlocks[k][0].block
    decreases k
  {
    assert indexBlocks[k - 1 + 1][0].block == EndOf(indexBlocks, k - 1);
    if j < k - 1 {
      StartsGrow(indexBlocks, blocks, j, k - 1);
    }
  }

  lemma EntriesIncrease(indexBlocks: seq<seq<IndexEntry>>, blocks: seq<seq<Record>>, k: nat)
    requires SortedTable(blocks) && Indexes(indexBlocks, blocks) && k < |indexBlocks|
    ensures Increasing(EntryKeys(indexBlocks[k]))
  {
    var keys := EntryKeys(indexBlocks[k]);
    forall i, j | 0 <= i < j < |keys| ensures keys[i] < keys[j] {
      assert indexBlocks[k][i].block < indexBlocks[k][j].block;
    }
  }

  lemma SummaryIncreases(summary: seq<Key>, indexBlocks: seq<seq<IndexEntry>>, blocks: seq<seq<Record>>)
    requires SortedTable(blocks) && Indexes(indexBlocks, blocks) && Summarizes(summary, indexBlocks)
    ensures Increasing(summary)
  {
    forall i, j | 0 <= i < j < |summary| ensures summary[i] < summary[j] {
      StartsGrow(indexBlocks, blocks, i, j);
    }
  }

  /** Data block `b` is the last that starts at or below the target, or the first of all. */
  ghost predicate CandidateBlock(blocks: seq<seq<Record>>, target: Key, b: nat) {
    && b < |blocks| && blocks[b] != [] && (b == 0 || blocks[b][0].key <= target)
    && (b + 1 < |blocks| ==> blocks[b + 1] != [] && target < blocks[b + 1][0].key)
  }

  /** The data block behind an index entry starts above the target. */
  lemma NextStartsAbove(summary: seq<Key>, indexBlocks: seq<seq<IndexEntry>>, blocks: seq<seq<Record>>, target: Key, k: nat, j: nat)
    requires Indexes(indexBlocks, blocks) && Summarizes(summary, indexBlocks) && LastAtOrBelow(summary, target, k)
    requires LastAtOrBelow(EntryKeys(indexBlocks[k]), target, j) && indexBlocks[k][j].block + 1 < |blocks|
    ensures target < blocks[indexBlocks[k][j].block + 1][0].key
  {
    if j + 1 < |indexBlocks[k]| {
      assert indexBlocks[k][j + 1].block == indexBlocks[k][j].block + 1;
      assert EntryKeys(indexBlocks[k])[j + 1] == indexBlocks[k][j + 1].key;
    } else {
      assert k < |indexBlocks| - 1;
      assert indexBlocks[k + 1][0].block == EndOf(indexBlocks, k) == indexBlocks[k][j].block + 1;
      assert summary[k + 1] == indexBlocks[k + 1][0].key;
    }
  }

  /** The two searches, summary and index, find that block. */
  lemma SearchesAgree(summary: seq<Key>, indexBlocks: seq<seq<IndexEntry>>, blocks: seq<seq<Record>>, target: Key, k: nat, j: nat)
    requires Indexes(indexBlocks, blocks) && Summarizes(summary, indexBlocks)
    requires LastAtOrBelow(summary, target, k) && LastAtOrBelow(EntryKeys(indexBlocks[k]), target, j)
    ensures CandidateBlock(blocks, target, indexBlocks[k][j].block)
  {
    var b := indexBlocks[k][j].block;
    assert EntryKeys(indexBlocks[k])[j] == indexBlocks[k][j].key == blocks[b][0].key;
    if b > 0 && j == 0 {
      assert summary[k] == indexBlocks[k][0].key;
    }
    if b + 1 < |blocks| {
      NextStartsAbove(summary, indexBlocks, blocks, target, k, j);
    }
  }

  /** Blocks before the candidate end below the target. */
  lemma EarlierBelow(blocks: seq<seq<Record>>, target: Key, b: nat)
    requires SortedTable(blocks) && CandidateBlock(blocks, target, b)
    ensures forall c :: 0 <= c < b ==> AllBelow(blocks[c], target)
  {
  }

  /** When the candidate has nothing, the next block's first record is the one, if there is a next block. */
  lemma NextBlockFirst(blocks: seq<seq<Record>>, target: Key, b: nat)
    requires SortedTable(blocks) && CandidateBlock(blocks, target, b) && AllBelow(blocks[b], target)
    ensures if b + 1 < |blocks| then ScanStopsAt(blocks, target, b + 1, 0) else ScanFindsNone(blocks, target)
  {
    EarlierBelow(blocks, target, b);
  }

  /** `SSTableIteratorRaw.Seek`: summary, index, block; where a scan of the whole table would stop. */
  method Seek(blocks: seq<seq<Record>>, indexBlocks: seq<seq<IndexEntry>>, summary: seq<Key>, interval: nat, target: Key)
    returns (found: Option<(nat, nat)>)
    requires SortedTable(blocks) && Indexes(indexBlocks, blocks) && Summarizes(summary, indexBlocks)
    requires |blocks| > 0 && interval > 0
    ensures found.Some? ==> ScanStopsAt(blocks, target, found.value.0, found.value.1)
    ensures found.None? ==> ScanFindsNone(blocks, target)
  {
    SummaryIncreases(summary, indexBlocks, blocks);
    var n := FindIndexBlockNumber(summary, target, 1);
    EntriesIncrease(indexBlocks, blocks, n);
    var j := FindBlock(indexBlocks[n], target);
    SearchesAgree(summary, indexBlocks, blocks, target, n, j);
    found := SeekFrom(blocks, interval, target, indexBlocks[n][j].block);
  }

  /** From the data block on: into it, or on to the next one. */
  method SeekFrom(blocks: seq<seq<Record>>, interval: nat, target: Key, b: nat) returns (found: Option<(nat, nat)>)
    requires SortedTable(blocks) && interval > 0 && CandidateBlock(blocks, target, b)
    ensures found.Some? ==> ScanStopsAt(blocks, target, found.value.0, found.value.1)
    ensures found.None? ==> ScanFindsNone(blocks, target)
  {
    EarlierBelow(blocks, target, b);
    assert Nondecreasing(blocks[b]);
    var inBlock := SeekInBlock(blocks[b], interval, target);
    if inBlock.Some? {
      return Some((b, inBlock.value));
    }
    NextBlockFirst(blocks, target, b);
    if b + 1 < |blocks| {
      return Some((b + 1, 0));
    }
    return None;
  }

  /** A table as the writer leaves it, searched as the reader does: every target, any block layout. */
  method WriteAndSeek(blocks: seq<seq<Record>>, entrySize: Key -> nat, limit: nat, interval: nat, target: Key)
    returns (found: Option<(nat, nat)>)
    requires SortedTable(blocks) && |blocks| > 0 && interval > 0
    ensures found.Some? ==> ScanStopsAt(blocks, target, found.value.0, found.value.1)
    ensures found.None? ==> ScanFindsNone(blocks, target)
  {
    var indexBlocks := BuildIndex(blocks, entrySize, limit);
    var summary := BuildSummary(indexBlocks, 1);
    found := Seek(blocks, indexBlocks, summary, interval, target);
  }
}
