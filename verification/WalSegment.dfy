/**
 One segment of the log (internal/wal/segment.go, internal/wal/block.go): appending records,
 split over fixed-size blocks where needed, reading them back, and reopening.
 */
module WalSegment {
  import opened ByteOrder
  import opened Keys
  import opened Options
  import opened WalRecord
  import opened WalBlocks
  import opened WalRecovery

  // ------------------------------------------------------------------ block contents

  lemma {:induction false} OffsetAppend(frags: seq<Rec>, f: Rec, i: nat)
    requires i <= |frags|
    ensures Offset(frags + [f], i) == Offset(frags, i)
  {
    if i > 0 {
      OffsetAppend(frags, f, i - 1);
    }
  }

  lemma {:induction false} PackedAppend(crc: Bytes -> U32, frags: seq<Rec>, f: Rec, n: nat)
    requires n <= |frags|
    ensures PackedTo(crc, frags + [f], n) == PackedTo(crc, frags, n)
  {
    if n > 0 {
      PackedAppend(crc, frags, f, n - 1);
    }
  }

  /** Writing one more fragment behind the others. */
  lemma BlockAppend(crc: Bytes -> U32, frags: seq<Rec>, f: Rec, size: nat)
    requires TotalSize(frags) + Size(f) <= size
    ensures TotalSize(frags + [f]) == TotalSize(frags) + Size(f)
    ensures BlockBytes(crc, frags + [f], size)
            == BlockBytes(crc, frags, size)[..TotalSize(frags)] + Encoded(crc, f)
               + BlockBytes(crc, frags, size)[TotalSize(frags) + Size(f)..]
  {
    OffsetAppend(frags, f, |frags|);
    PackedAppend(crc, frags, f, |frags|);
    assert Packed(crc, frags + [f]) == Packed(crc, frags) + Encoded(crc, f);
    var b := BlockBytes(crc, frags, size);
    assert b[..TotalSize(frags)] == Packed(crc, frags);
    assert b[TotalSize(frags) + Size(f)..] == Zeros(size - TotalSize(frags) - Size(f));
  }

  /** A fragment behind others is read back unless it fills a tail of exactly `KEY_START` bytes. */
  lemma ReadableAppend(frags: seq<Rec>, f: Rec, appended: seq<Rec>, size: nat)
    requires TotalSize(frags) + Size(f) <= size && appended == frags + [f]
    ensures Readable(frags, size) == frags
    ensures Readable(appended, size) == if TotalSize(frags) + KEY_START == size then frags else appended
  {
    OffsetAppend(frags, f, |frags|);
    if |frags| > 0 {
      OffsetsGrow(frags, |frags| - 1, |frags|);
    }
  }

  /** Everything a reader sees in the first `n` blocks. */
  ghost function ReadStream(blocks: seq<seq<Rec>>, size: nat, n: nat): (frags: seq<Rec>)
    requires n <= |blocks|
  {
    if n == 0 then [] else ReadStream(blocks, size, n - 1) + Readable(blocks[n - 1], size)
  }

  lemma {:induction false} ReadStreamSame(a: seq<seq<Rec>>, b: seq<seq<Rec>>, size: nat, n: nat)
    requires n <= |a| && n <= |b| && forall i :: 0 <= i < n ==> a[i] == b[i]
    ensures ReadStream(a, size, n) == ReadStream(b, size, n)
  {
    if n > 0 {
      ReadStreamSame(a, b, size, n - 1);
    }
  }

  /** The block `Write` method (internal/wal/block.go:34-45): copy what fits, advance. */
  class Block {
    const data: array<Byte>
    var writePos: nat

    constructor (size: nat)
      ensures fresh(data) && data.Length == size && data[..] == Zeros(size) && writePos == 0
    {
      data := new Byte[size](_ => 0);
      writePos := 0;
    }

    function Remaining(): int
      reads this
    {
      data.Length - writePos
    }

    method Write(b: Bytes) returns (n: nat)
      requires writePos <= data.Length
      modifies this, data
      ensures n == if |b| <= old(Remaining()) then |b| else old(Remaining())
      ensures writePos == old(writePos) + n
      ensures data[..] == old(data[..])[..old(writePos)] + b[..n] + old(data[..])[old(writePos) + n..]
    {
      n := 0;
      ghost var before := data[..];
      while n < |b| && writePos + n < data.Length
        invariant 0 <= n <= |b| && writePos + n <= data.Length && writePos == old(writePos)
        invariant forall k :: 0 <= k < data.Length ==>
                    data[k] == if writePos <= k < writePos + n then b[k - writePos] else before[k]
      {
        data[writePos + n] := b[n];
        n := n + 1;
      }
      writePos := writePos + n;
    }

    /** Encode a record and write it. */
    method WriteRecord(crc: Bytes -> U32, r: Rec)
      requires writePos + Size(r) <= data.Length && Fits(r)
      modifies this, data
      ensures writePos == old(writePos) + Size(r)
      ensures data[..] == Overwritten(old(data[..]), old(writePos), Encoded(crc, r))
    {
      var buf := Encode(crc, r);
      var n := Write(buf[..]);
      assert buf[..][..n] == Encoded(crc, r);
    }
  }

  ghost function Overwritten(cur: Bytes, pos: nat, b: Bytes): Bytes
    requires pos + |b| <= |cur|
  {
    cur[..pos] + b + cur[pos + |b|..]
  }

  // ------------------------------------------------------------------ fragments

  /** What is still to be written of a record, and how its key and value split. */
  ghost predicate RestOf(r: Rec, soFar: Rec, payload: Bytes, pv: nat) {
    && pv <= |payload| && SameMeta(soFar, r) && soFar.frag == Full
    && soFar.key + payload[..pv] == r.key && soFar.value + payload[pv..] == r.value
  }

  // ------------------------------------------------------------------ where records go

  /** The block of the segment being written and the room left in it. */
  datatype Place = Place(block: nat, room: int)

  /** Behind `left` bytes of payload that begin in the given block, which is fresh. */
  function Filled(block: nat, left: nat, size: nat): (p: Place)
    requires size > KEY_START
    ensures p.block >= block && 0 <= p.room < size
    decreases left
  {
    if KEY_START + left <= size then Place(block, size - KEY_START - left) else Filled(block + 1, left - (size - KEY_START), size)
  }

  /** Behind a record, whole or in fragments. */
  function After(p: Place, r: Rec, size: nat): (p': Place)
    requires size > KEY_START
  {
    var payload := |r.key| + |r.value|;
    if p.room >= Size(r) then Place(p.block, p.room - Size(r))
    else Filled(p.block + 1, if p.room <= KEY_START then payload else payload - (p.room - KEY_START), size)
  }

  /** The record lands in a tail where no reader will find it. */
  predicate Hidden(p: Place, r: Rec) {
    Size(r) == KEY_START == p.room
  }

  /** The record does not fit the segment any more, but its first fragments do. */
  predicate Torn(p: Place, r: Rec, size: nat, maxBlocks: nat)
    requires size > KEY_START
  {
    After(p, r, size).block >= maxBlocks && (p.room > KEY_START || p.block + 1 < maxBlocks)
  }

  /** `makeFragment`: the next `space` bytes of payload. */
  function MakeFragment(frag: FragType, r: Rec, payload: Bytes, pv: nat, space: nat): (f: Rec)
    requires space <= |payload| && pv <= |payload|
    ensures SameMeta(f, r) && f.frag == frag && |f.key| + |f.value| == space
  {
    if space <= pv then r.(frag := frag, key := payload[..space], value := [])
    else r.(frag := frag, key := payload[..pv], value := payload[pv..space])
  }

  lemma FragmentTakes(r: Rec, soFar: Rec, payload: Bytes, pv: nat, space: nat, frag: FragType)
    requires RestOf(r, soFar, payload, pv) && space <= |payload|
    ensures RestOf(r, Extended(soFar, MakeFragment(frag, r, payload, pv, space)), payload[space..], if space < pv then pv - space else 0)
  {
    if space < pv {
      assert payload[..space] + payload[space..][..pv - space] == payload[..pv];
      assert payload[space..][pv - space..] == payload[pv..];
      assert soFar.key + payload[..space] + payload[space..][..pv - space] == r.key;
    } else {
      assert payload[pv..space] + payload[space..] == payload[pv..];
      assert soFar.value + payload[pv..space] + payload[space..] == r.value;
    }
  }

  lemma {:induction false} JoinSnoc(s: JoinState, frags: seq<Rec>, f: Rec)
    ensures JoinFrom(s, frags + [f], |frags| + 1) == JoinStep(JoinFrom(s, frags, |frags|), f)
  {
    assert (frags + [f])[..|frags|] == frags[..|frags|];
    JoinSame(s, frags + [f], frags, |frags|);
  }

  // ------------------------------------------------------------------ the segment

  /** The fragments behind the first: `left` bytes of payload from the next block on. */
  ghost predicate Completes(s: Reading, s': Reading, r: Rec, left: nat, size: nat, maxBlocks: nat, ok: bool)
    requires size > KEY_START
  {
    var end := Filled(s.at.block + 1, left, size);
    && (ok <==> end.block < maxBlocks)
    && (if ok then s' == Reading(end, s.log + [r], None, true)
        else s'.at.block + 1 == maxBlocks && s'.at.room == 0 && s'.log == s.log && s'.open.Some? && s'.clean)
  }

  /** Between two blocks, with `left` bytes of payload still to be written. */
  ghost predicate Halfway(s: Reading, s': Reading, left0: nat, left: nat, soFar: Rec, size: nat)
    requires size > KEY_START
  {
    && s' == Reading(Place(s'.at.block, 0), s.log, Some(soFar), true)
    && Filled(s'.at.block + 1, left, size) == Filled(s.at.block + 1, left0, size)
  }

  lemma CompletesFull(s: Reading, s': Reading, r: Rec, left0: nat, left: nat, soFar: Rec, size: nat, maxBlocks: nat)
    requires size > KEY_START && Halfway(s, s', left0, left, soFar, size) && s'.at.block + 1 == maxBlocks
    ensures Completes(s, s', r, left0, size, maxBlocks, false)
  {
  }

  lemma CompletesLast(s: Reading, half: Reading, s': Reading, r: Rec, left0: nat, left: nat, soFar: Rec, size: nat, maxBlocks: nat)
    requires size > KEY_START && Halfway(s, half, left0, left, soFar, size) && half.at.block + 1 < maxBlocks && KEY_START + left <= size
    requires s' == Reading(Place(half.at.block + 1, size - KEY_START - left), s.log + [r], None, true)
    ensures Completes(s, s', r, left0, size, maxBlocks, true)
  {
  }

  lemma HalfwayNext(s: Reading, half: Reading, s': Reading, left0: nat, left: nat, left': nat, soFar: Rec, soFar': Rec, size: nat)
    requires size > KEY_START && Halfway(s, half, left0, left, soFar, size) && KEY_START + left > size && left' == left - (size - KEY_START)
    requires s' == Reading(Place(half.at.block + 1, 0), s.log, Some(soFar'), true)
    ensures Halfway(s, s', left0, left', soFar', size)
  {
  }

  /** A record cut at the end of the block. */
  lemma AppendsCut(s: Reading, first: Reading, s': Reading, r: Rec, left: nat, size: nat, maxBlocks: nat, ok: bool)
    requires size > KEY_START && KEY_START < s.at.room < Size(r) && left == Size(r) - s.at.room && s.open.None?
    requires first.at.block == s.at.block && first.log == s.log && Completes(first, s', r, left, size, maxBlocks, ok)
    ensures Appends(s, s', r, size, maxBlocks, ok)
  {
  }

  /** Where writing goes on, what a reader recovers and has half joined, and whether it sees all of the current block. */
  datatype Reading = Reading(at: Place, log: seq<Rec>, open: Option<Rec>, clean: bool)

  /**
   Appending a record fails exactly when the segment has not that many blocks left. Otherwise a reader recovers
   one record more, unless nobody will find the record where it is; after a failure as many as before, and
   the fragments already written lie behind them.
   */
  ghost predicate Appends(s: Reading, s': Reading, r: Rec, size: nat, maxBlocks: nat, ok: bool)
    requires size > KEY_START
  {
    && (ok <==> After(s.at, r, size).block < maxBlocks)
    && (ok ==> s'.at == After(s.at, r, size) && s'.open.None? && s'.log == if Hidden(s.at, r) then s.log else s.log + [r])
    && (!ok ==> s'.at.block + 1 == maxBlocks && s'.at.room <= KEY_START && s'.log == s.log)
    && (!ok && s'.open.Some? ==> s'.at.room == 0)
    && (!ok ==> (s'.open.Some? <==> s.open.Some? || Torn(s.at, r, size, maxBlocks)))
    && (s.clean && !Hidden(s.at, r) ==> s'.clean)
  }

  /** In the same way from the fresh block behind one that is all but full. */
  lemma AppendsMoved(s: Reading, moved: Reading, s': Reading, r: Rec, size: nat, maxBlocks: nat, ok: bool)
    requires size > KEY_START && s.at.room <= KEY_START && s.at.room < Size(r) && s.at.block + 1 < maxBlocks
    requires moved == Reading(Place(s.at.block + 1, size), s.log, s.open, true) && Appends(moved, s', r, size, maxBlocks, ok)
    ensures Appends(s, s', r, size, maxBlocks, ok)
  {
    var left := Size(r) - KEY_START;
    assert After(s.at, r, size) == Filled(s.at.block + 1, left, size);
  }

  /** The bytes on disk and in the current block are those of the fragments written so far. */
  ghost predicate Stored(crc: Bytes -> U32, size: nat, maxBlocks: nat, disk: seq<Bytes>, cur: Bytes, writePos: nat,
                         blocks: seq<seq<Rec>>) {
    && size > KEY_START && 0 < |blocks| <= maxBlocks == |disk|
    && (forall i :: 0 <= i < |blocks| ==> TotalSize(blocks[i]) <= size)
    && (forall i, k :: 0 <= i < |blocks| && 0 <= k < |blocks[i]| ==> Fits(blocks[i][k]))
    && (forall i :: 0 <= i < |blocks| - 1 ==> disk[i] == BlockBytes(crc, blocks[i], size))
    && (forall i :: |blocks| <= i < |disk| ==> disk[i] == Zeros(size))
    && cur == BlockBytes(crc, blocks[|blocks| - 1], size) && writePos == TotalSize(blocks[|blocks| - 1])
  }

  /** A reader of these blocks recovers `log`, with `open` half joined. */
  ghost predicate Recovers(size: nat, blocks: seq<seq<Rec>>, log: seq<Rec>, open: Option<Rec>) {
    var stream := ReadStream(blocks, size, |blocks|);
    JoinFrom(JOIN_START, stream, |stream|) == JoinState(log, open, false)
  }

  /** Every block that was begun holds a fragment. */
  ghost predicate NoEmptyBlock(blocks: seq<seq<Rec>>, n: nat)
    requires n <= |blocks|
  {
    forall i :: 0 <= i < n ==> blocks[i] != []
  }

  ghost function Pushed(blocks: seq<seq<Rec>>, f: Rec): (pushed: seq<seq<Rec>>)
    requires |blocks| > 0
  {
    blocks[|blocks| - 1 := blocks[|blocks| - 1] + [f]]
  }

  lemma PushStored(crc: Bytes -> U32, size: nat, maxBlocks: nat, disk: seq<Bytes>, cur: Bytes, writePos: nat,
                   blocks: seq<seq<Rec>>, f: Rec, cur': Bytes)
    requires Stored(crc, size, maxBlocks, disk, cur, writePos, blocks) && Fits(f) && writePos + Size(f) <= size
    requires cur' == Overwritten(cur, writePos, Encoded(crc, f))
    ensures Stored(crc, size, maxBlocks, disk, cur', writePos + Size(f), Pushed(blocks, f))
  {
    BlockAppend(crc, blocks[|blocks| - 1], f, size);
  }

  /** The join step that a written fragment amounts to. */
  ghost predicate Advances(remaining: int, f: Rec, log: seq<Rec>, open: Option<Rec>, log': seq<Rec>, open': Option<Rec>) {
    JoinState(log', open', false)
    == if remaining == KEY_START then JoinState(log, open, false) else JoinStep(JoinState(log, open, false), f)
  }

  lemma ConcatAssociates(a: seq<Rec>, b: seq<Rec>, c: seq<Rec>)
    ensures a + b + c == a + (b + c)
  {
  }

  /** Two block lists that differ in their last block show the same but for what that block shows. */
  lemma LastBlockShown(size: nat, blocks: seq<seq<Rec>>, blocks': seq<seq<Rec>>, n: nat, seen: seq<Rec>, more: seq<Rec>)
    requires |blocks| == |blocks'| == n + 1 && forall i :: 0 <= i < n ==> blocks[i] == blocks'[i]
    requires Readable(blocks[n], size) == seen && Readable(blocks'[n], size) == seen + more
    ensures ReadStream(blocks', size, n + 1) == ReadStream(blocks, size, n + 1) + more
  {
    ReadStreamSame(blocks, blocks', size, n);
    ConcatAssociates(ReadStream(blocks, size, n), seen, more);
  }

  lemma PushStream(size: nat, blocks: seq<seq<Rec>>, pushed: seq<seq<Rec>>, f: Rec, n: nat, more: seq<Rec>)
    requires |blocks| == n + 1 && TotalSize(blocks[n]) + Size(f) <= size && pushed == Pushed(blocks, f)
    requires more == if TotalSize(blocks[n]) + KEY_START == size then [] else [f]
    ensures ReadStream(pushed, size, n + 1) == ReadStream(blocks, size, n + 1) + more
  {
    ReadableAppend(blocks[n], f, pushed[n], size);
    LastBlockShown(size, blocks, pushed, n, blocks[n], more);
  }

  /** Writing a fragment lets the reader make one more join step, unless the fragment is unreadable. */
  lemma PushRecovers(size: nat, blocks: seq<seq<Rec>>, pushed: seq<seq<Rec>>, f: Rec, n: nat,
                     log: seq<Rec>, open: Option<Rec>, log': seq<Rec>, open': Option<Rec>)
    requires |blocks| == n + 1 && TotalSize(blocks[n]) + Size(f) <= size && pushed == Pushed(blocks, f)
    requires Recovers(size, blocks, log, open) && Advances(size - TotalSize(blocks[n]), f, log, open, log', open')
    ensures Recovers(size, pushed, log', open')
  {
    var stream := ReadStream(blocks, size, n + 1);
    if TotalSize(blocks[n]) + KEY_START == size {
      PushStream(size, blocks, pushed, f, n, []);
      assert stream + [] == stream;
    } else {
      PushStream(size, blocks, pushed, f, n, [f]);
      JoinSnoc(JOIN_START, stream, f);
    }
  }

  lemma EmptyBlock(crc: Bytes -> U32, size: nat)
    ensures BlockBytes(crc, [], size) == Zeros(size) && Readable([], size) == []
  {
    assert [] + Zeros(size) == Zeros(size);
  }

  lemma MoveStored(crc: Bytes -> U32, size: nat, maxBlocks: nat, disk: seq<Bytes>, cur: Bytes, writePos: nat,
                   blocks: seq<seq<Rec>>)
    requires Stored(crc, size, maxBlocks, disk, cur, writePos, blocks) && |blocks| < maxBlocks
    ensures Stored(crc, size, maxBlocks, disk[|blocks| - 1 := cur], Zeros(size), 0, blocks + [[]])
  {
    EmptyBlock(crc, size);
    MoveDisk(crc, size, disk, cur, blocks, disk[|blocks| - 1 := cur], blocks + [[]]);
  }

  lemma MoveDisk(crc: Bytes -> U32, size: nat, disk: seq<Bytes>, cur: Bytes, blocks: seq<seq<Rec>>, disk': seq<Bytes>, next: seq<seq<Rec>>)
    requires 0 < |blocks| < |disk| && next == blocks + [[]] && disk' == disk[|blocks| - 1 := cur]
    requires forall i :: 0 <= i < |blocks| ==> TotalSize(blocks[i]) <= size
    requires forall i :: 0 <= i < |blocks| - 1 ==> disk[i] == BlockBytes(crc, blocks[i], size)
    requires cur == BlockBytes(crc, blocks[|blocks| - 1], size)
    ensures next[|next| - 1] == [] && forall i :: 0 <= i < |blocks| ==> next[i] == blocks[i]
    ensures forall i :: 0 <= i < |blocks| ==> disk'[i] == BlockBytes(crc, next[i], size)
  {
  }

  lemma MoveRecovers(crc: Bytes -> U32, size: nat, blocks: seq<seq<Rec>>, log: seq<Rec>, open: Option<Rec>)
    requires Recovers(size, blocks, log, open)
    ensures Recovers(size, blocks + [[]], log, open)
  {
    EmptyBlock(crc, size);
    ReadStreamSame(blocks, blocks + [[]], size, |blocks|);
    var next := blocks + [[]];
    var a, b := ReadStream(next, size, |next|), ReadStream(blocks, size, |blocks|);
    assert next[|next| - 1] == [];
    assert a == b + Readable([], size);
    assert a == b;
  }

  lemma MoveNoEmpty(blocks: seq<seq<Rec>>, next: seq<seq<Rec>>)
    requires |blocks| > 0 && NoEmptyBlock(blocks, |blocks| - 1) && blocks[|blocks| - 1] != [] && next == blocks + [[]]
    ensures NoEmptyBlock(next, |blocks|)
  {
  }

  /** All that holds between calls, on values. */
  ghost predicate State(crc: Bytes -> U32, size: nat, maxBlocks: nat, disk: seq<Bytes>, index: nat, cur: Bytes, writePos: nat,
                        blocks: seq<seq<Rec>>, log: seq<Rec>, open: Option<Rec>) {
    && |cur| == size && |blocks| == index + 1 && Stored(crc, size, maxBlocks, disk, cur, writePos, blocks)
    && Recovers(size, blocks, log, open) && NoEmptyBlock(blocks, index)
  }

  lemma PushState(crc: Bytes -> U32, size: nat, maxBlocks: nat, disk: seq<Bytes>, index: nat, cur: Bytes, writePos: nat,
                  blocks: seq<seq<Rec>>, log: seq<Rec>, open: Option<Rec>,
                  f: Rec, cur': Bytes, blocks': seq<seq<Rec>>, log': seq<Rec>, open': Option<Rec>)
    requires State(crc, size, maxBlocks, disk, index, cur, writePos, blocks, log, open)
    requires Fits(f) && writePos + Size(f) <= size && Advances(size - writePos, f, log, open, log', open')
    requires cur' == Overwritten(cur, writePos, Encoded(crc, f)) && blocks' == Pushed(blocks, f)
    ensures State(crc, size, maxBlocks, disk, index, cur', writePos + Size(f), blocks', log', open') && blocks'[index] != []
    ensures ReadableCount(blocks'[index], size) == |blocks'[index]| <==> size - writePos != KEY_START
  {
    ReadableAppend(blocks[index], f, blocks'[index], size);
    PushStored(crc, size, maxBlocks, disk, cur, writePos, blocks, f, cur');
    PushRecovers(size, blocks, blocks', f, index, log, open, log', open');
  }

  lemma MoveState(crc: Bytes -> U32, size: nat, maxBlocks: nat, disk: seq<Bytes>, index: nat, cur: Bytes, writePos: nat,
                  blocks: seq<seq<Rec>>, log: seq<Rec>, open: Option<Rec>, disk': seq<Bytes>, blocks': seq<seq<Rec>>)
    requires State(crc, size, maxBlocks, disk, index, cur, writePos, blocks, log, open)
    requires blocks[index] != [] && index + 1 < maxBlocks && disk' == disk[index := cur] && blocks' == blocks + [[]]
    ensures State(crc, size, maxBlocks, disk', index + 1, Zeros(size), 0, blocks', log, open)
    ensures ReadableCount(blocks'[index + 1], size) == |blocks'[index + 1]|
  {
    MoveStored(crc, size, maxBlocks, disk, cur, writePos, blocks);
    MoveRecovers(crc, size, blocks, log, open);
    MoveNoEmpty(blocks, blocks');
  }

  /** The synced contents of a segment file. */
  ghost predicate OnDisk(crc: Bytes -> U32, size: nat, disk: seq<Bytes>, blocks: seq<seq<Rec>>) {
    && size > KEY_START && 0 < |blocks| <= |disk|
    && (forall i :: 0 <= i < |blocks| ==> TotalSize(blocks[i]) <= size)
    && (forall i, k :: 0 <= i < |blocks| && 0 <= k < |blocks[i]| ==> Fits(blocks[i][k]))
    && (forall i :: 0 <= i < |blocks| ==> disk[i] == BlockBytes(crc, blocks[i], size))
    && (forall i :: |blocks| <= i < |disk| ==> disk[i] == Zeros(size))
    && (|blocks| > 1 ==> NoEmptyBlock(blocks, |blocks|))
  }

  lemma SyncState(crc: Bytes -> U32, size: nat, maxBlocks: nat, disk: seq<Bytes>, index: nat, cur: Bytes, writePos: nat,
                  blocks: seq<seq<Rec>>, log: seq<Rec>, open: Option<Rec>, disk': seq<Bytes>)
    requires State(crc, size, maxBlocks, disk, index, cur, writePos, blocks, log, open)
    requires disk' == disk[index := cur] && (index > 0 ==> blocks[index] != [])
    ensures State(crc, size, maxBlocks, disk', index, cur, writePos, blocks, log, open)
    ensures OnDisk(crc, size, disk', blocks)
  {
  }

  class Segment {
    const crc: Bytes -> U32
    const blockSize: nat
    const maxBlocks: nat
    var disk: seq<Bytes>
    var index: nat
    var block: Block
    ghost var blocks: seq<seq<Rec>>
    ghost var log: seq<Rec>
    ghost var open: Option<Rec>

    /** Consistent bytes; the current block may just have been begun. */
    ghost predicate Core()
      reads this, block, block.data
    {
      State(crc, blockSize, maxBlocks, disk, index, block.data[..], block.writePos, blocks, log, open)
    }

    ghost predicate Valid()
      reads this, block, block.data
    {
      Core() && (index > 0 ==> blocks[index] != [])
    }

    /** A reader finds every fragment of the current block. */
    ghost predicate CleanTail()
      reads this
    {
      index < |blocks| && ReadableCount(blocks[index], blockSize) == |blocks[index]|
    }

    function At(): (p: Place)
      reads this, block
    {
      Place(index, block.Remaining())
    }

    ghost function Now(): Reading
      reads this, block
    {
      Reading(At(), log, open, CleanTail())
    }

    /** `OpenSegment` of a new file. */
    constructor (crc: Bytes -> U32, blockSize: nat, maxBlocks: nat)
      requires blockSize > KEY_START && maxBlocks > 0
      ensures Valid() && fresh(block) && fresh(block.data) && Now() == Reading(Place(0, blockSize), [], None, true)
      ensures this.crc == crc && this.blockSize == blockSize && this.maxBlocks == maxBlocks
    {
      this.crc, this.blockSize, this.maxBlocks := crc, blockSize, maxBlocks;
      disk := seq(maxBlocks, _ => Zeros(blockSize));
      index := 0;
      block := new Block(blockSize);
      blocks, log, open := [[]], [], None;
      new;
      assert BlockBytes(crc, [], blockSize) == Zeros(blockSize);
      assert ReadStream(blocks, blockSize, 1) == [];
    }

    /** Encode a fragment and write it to the current block. */
    method WriteFragment(f: Rec, ghost log': seq<Rec>, ghost open': Option<Rec>)
      requires Core() && Fits(f) && Size(f) <= block.Remaining()
      requires Advances(block.Remaining(), f, log, open, log', open')
      modifies this`blocks, this`log, this`open, block, block.data
      ensures Valid() && blocks[index] != [] && log == log' && open == open' && (CleanTail() <==> old(block.Remaining()) != KEY_START)
      ensures block == old(block) && block.Remaining() == old(block.Remaining()) - Size(f)
    {
      block.WriteRecord(crc, f);
      PushState(crc, blockSize, maxBlocks, disk, index, old(block.data[..]), old(block.writePos), blocks, log, open,
                f, block.data[..], Pushed(blocks, f), log', open');
      blocks, log, open := Pushed(blocks, f), log', open';
    }

    /** Flush the current block to disk and begin a fresh one. */
    method BeginBlock()
      requires Valid() && blocks[index] != [] && index + 1 < maxBlocks
      modifies this`disk, this`index, this`block, this`blocks
      ensures Core() && fresh(block) && fresh(block.data) && Now() == Reading(Place(old(index) + 1, blockSize), log, open, true)
    {
      var flushed := disk[index := block.data[..]];
      ghost var next := blocks + [[]];
      MoveState(crc, blockSize, maxBlocks, disk, index, block.data[..], block.writePos, blocks, log, open, flushed, next);
      disk, index, blocks := flushed, index + 1, next;
      block := new Block(blockSize);
    }

    /** `MoveToNextBlock`: an error, and nothing changed, when the segment is full. */
    method MoveToNextBlock() returns (ok: bool)
      requires Valid() && blocks[index] != []
      modifies this`disk, this`index, this`block, this`blocks
      ensures ok <==> old(index) + 1 < maxBlocks
      ensures ok ==> Core() && fresh(block) && fresh(block.data)
      ensures ok ==> Now() == Reading(Place(old(index) + 1, blockSize), log, open, true)
      ensures !ok ==> unchanged(this)
    {
      if index + 1 >= maxBlocks {
        return false;
      }
      BeginBlock();
      ok := true;
    }

    /** `IsFull`. */
    predicate IsFull()
      reads this, block
    {
      index == maxBlocks - 1 && block.Remaining() < KEY_START + 1
    }

    /** `AppendWALRecord`: whole if it fits, otherwise as a first, middle and last fragments over fresh blocks. */
    method AppendWALRecord(r: Rec) returns (ok: bool)
      requires Core() && (open.Some? ==> IsFull() && block.Remaining() == 0) && r.frag == Full && Fits(r)
      modifies this, block, block.data
      ensures Valid() && (block == old(block) || (fresh(block) && fresh(block.data)))
      ensures Appends(old(Now()), Now(), r, blockSize, maxBlocks, ok)
      decreases if block.Remaining() <= KEY_START then 1 else 0
    {
      var total := Size(r);
      if block.Remaining() >= total {
        ghost var more := if block.Remaining() == KEY_START then log else log + [r];
        WriteFragment(r, more, None);
        return true;
      }
      if block.Remaining() <= KEY_START {
        ghost var before := Now();
        ok := MoveToNextBlock();
        if ok {
          ghost var moved := Now();
          ok := AppendWALRecord(r);
          AppendsMoved(before, moved, Now(), r, blockSize, maxBlocks, ok);
        }
        return;
      }
      ok := AppendFragments(r);
    }

    /** The fragmenting part: a first fragment in the rest of the current block, then the others. */
    method AppendFragments(r: Rec) returns (ok: bool)
      requires Core() && open.None? && r.frag == Full && Fits(r) && KEY_START < block.Remaining() < Size(r)
      modifies this, block, block.data
      ensures Valid() && (block == old(block) || (fresh(block) && fresh(block.data)))
      ensures Appends(old(Now()), Now(), r, blockSize, maxBlocks, ok)
    {
      ghost var before := Now();
      var payload, pv, soFar := AppendFirst(r);
      ghost var first := Now();
      ok := AppendRest(r, payload, pv, soFar);
      AppendsCut(before, first, Now(), r, |payload|, blockSize, maxBlocks, ok);
    }

    /** A first fragment that fills the current block. */
    method AppendFirst(r: Rec) returns (payload: Bytes, pv: nat, ghost soFar: Rec)
      requires Core() && open.None? && r.frag == Full && Fits(r) && KEY_START < block.Remaining() < Size(r)
      modifies this`blocks, this`log, this`open, block, block.data
      ensures Valid() && blocks[index] != [] && block == old(block) && Now() == Reading(Place(index, 0), old(log), Some(soFar), true)
      ensures RestOf(r, soFar, payload, pv) && 0 < |payload| == Size(r) - old(block.Remaining())
    {
      payload, pv := r.key + r.value, |r.key|;
      soFar := r.(key := [], value := []);
      assert RestOf(r, soFar, payload, pv) by {
        assert payload[..pv] == r.key && payload[pv..] == r.value;
        assert [] + r.key == r.key && [] + r.value == r.value;
      }
      var space := block.Remaining() - KEY_START;
      var f := MakeFragment(First, r, payload, pv, space);
      FragmentTakes(r, soFar, payload, pv, space, First);
      soFar := Extended(soFar, f);
      assert soFar == f.(frag := Full) by {
        assert [] + f.key == f.key && [] + f.value == f.value;
      }
      WriteFragment(f, log, Some(soFar));
      pv := if space < pv then pv - space else 0;
      payload := payload[space..];
    }

    /** A middle fragment that fills the current block. */
    method AppendMiddle(r: Rec, payload: Bytes, pv: nat, ghost soFar: Rec)
      returns (rest: Bytes, pv': nat, ghost soFar': Rec)
      requires Core() && open == Some(soFar) && r.frag == Full && Fits(r) && RestOf(r, soFar, payload, pv)
      requires KEY_START < block.Remaining() < KEY_START + |payload| <= Size(r)
      modifies this`blocks, this`log, this`open, block, block.data
      ensures Valid() && blocks[index] != [] && block == old(block) && Now() == Reading(Place(index, 0), old(log), Some(soFar'), true)
      ensures RestOf(r, soFar', rest, pv') && 0 < |rest| == |payload| - (old(block.Remaining()) - KEY_START)
    {
      var space := block.Remaining() - KEY_START;
      var f := MakeFragment(Middle, r, payload, pv, space);
      FragmentTakes(r, soFar, payload, pv, space, Middle);
      soFar' := Extended(soFar, f);
      WriteFragment(f, log, Some(soFar'));
      pv' := if space < pv then pv - space else 0;
      rest := payload[space..];
    }

    /** The last fragment. */
    method AppendLast(r: Rec, payload: Bytes, pv: nat, ghost soFar: Rec)
      requires Core() && open == Some(soFar) && r.frag == Full && Fits(r) && RestOf(r, soFar, payload, pv)
      requires KEY_START < KEY_START + |payload| <= block.Remaining()
      modifies this`blocks, this`log, this`open, block, block.data
      ensures Valid() && block == old(block)
      ensures Now() == Reading(Place(index, old(block.Remaining()) - KEY_START - |payload|), old(log) + [r], None, true)
    {
      var last := r.(frag := Last, key := payload[..pv], value := payload[pv..]);
      assert Extended(soFar, last) == r;
      WriteFragment(last, log + [r], None);
    }

    /** A fresh block with the last fragment, if the rest fits, or with a middle one. */
    method AppendNext(r: Rec, payload: Bytes, pv: nat, ghost soFar: Rec)
      returns (ok: bool, last: bool, rest: Bytes, pv': nat, ghost soFar': Rec)
      requires Valid() && blocks[index] != [] && Now() == Reading(Place(index, 0), log, Some(soFar), true) && r.frag == Full && Fits(r)
      requires RestOf(r, soFar, payload, pv) && 0 < |payload| <= |r.key| + |r.value|
      modifies this, block, block.data
      ensures Valid() && (block == old(block) || (fresh(block) && fresh(block.data)))
      ensures ok <==> old(index) + 1 < maxBlocks
      ensures !ok ==> Now() == old(Now())
      ensures ok ==> (last <==> KEY_START + |payload| <= blockSize)
      ensures ok && last ==> Now() == Reading(Place(old(index) + 1, blockSize - KEY_START - |payload|), old(log) + [r], None, true)
      ensures ok && !last ==> Now() == Reading(Place(old(index) + 1, 0), old(log), Some(soFar'), true) && blocks[index] != []
      ensures ok && !last ==> RestOf(r, soFar', rest, pv') && 0 < |rest| == |payload| - (blockSize - KEY_START)
    {
      rest, pv', soFar', last := payload, pv, soFar, false;
      ok := MoveToNextBlock();
      if !ok {
        return;
      }
      if block.Remaining() >= KEY_START + |payload| {
        AppendLast(r, payload, pv, soFar);
        last := true;
      } else {
        rest, pv', soFar' := AppendMiddle(r, payload, pv, soFar);
      }
    }

    /** Middle fragments in fresh blocks until the rest fits, then the last fragment. */
    method AppendRest(r: Rec, payload0: Bytes, pv0: nat, ghost soFar0: Rec) returns (ok: bool)
      requires Valid() && blocks[index] != [] && Now() == Reading(Place(index, 0), log, Some(soFar0), true) && r.frag == Full && Fits(r)
      requires RestOf(r, soFar0, payload0, pv0) && 0 < |payload0| <= |r.key| + |r.value|
      modifies this, block, block.data
      ensures Valid() && (block == old(block) || (fresh(block) && fresh(block.data)))
      ensures Completes(old(Now()), Now(), r, |payload0|, blockSize, maxBlocks, ok)
    {
      var payload: Bytes, pv: nat := payload0, pv0;
      ghost var soFar, before := soFar0, Now();
      while true
        invariant Valid() && blocks[index] != [] && RestOf(r, soFar, payload, pv) && 0 < |payload| <= |r.key| + |r.value|
        invariant Halfway(before, Now(), |payload0|, |payload|, soFar, blockSize)
        invariant block == old(block) || (fresh(block) && fresh(block.data))
        decreases |payload|
      {
        ghost var half, left, met := Now(), |payload|, soFar;
        var last;
        ok, last, payload, pv, soFar := AppendNext(r, payload, pv, soFar);
        if !ok {
          CompletesFull(before, half, r, |payload0|, left, met, blockSize, maxBlocks);
          return;
        }
        if last {
          CompletesLast(before, half, Now(), r, |payload0|, left, met, blockSize, maxBlocks);
          return;
        }
        HalfwayNext(before, half, Now(), |payload0|, left, |payload|, met, soFar, blockSize);
      }
    }

    /** `Sync`: flush the current block. */
    method Sync()
      requires Valid()
      modifies this`disk
      ensures Valid() && Now() == old(Now()) && OnDisk(crc, blockSize, disk, blocks)
    {
      SyncState(crc, blockSize, maxBlocks, disk, index, block.data[..], block.writePos, blocks, log, open,
                disk[index := block.data[..]]);
      disk := disk[index := block.data[..]];
    }
  }

  /** The fragments of block `i`; none beyond the written ones. */
  ghost function Written(blocks: seq<seq<Rec>>, i: nat): seq<Rec> { if i < |blocks| then blocks[i] else [] }

  lemma BlockOnDisk(crc: Bytes -> U32, size: nat, disk: seq<Bytes>, blocks: seq<seq<Rec>>, i: nat)
    requires OnDisk(crc, size, disk, blocks) && i < |disk| && crc(Zeros(43)) != 0
    ensures TotalSize(Written(blocks, i)) <= size
    ensures BlockRecords(crc, disk[i]) == Readable(Written(blocks, i), size)
    ensures BlockEnd(crc, disk[i]) == Offset(Written(blocks, i), ReadableCount(Written(blocks, i), size))
  {
    EmptyBlock(crc, size);
    ReadBlock(crc, Written(blocks, i), size);
  }

  /** A block that holds a fragment shows at least one to the reader. */
  lemma FirstIsReadable(frags: seq<Rec>, size: nat)
    requires size > KEY_START && TotalSize(frags) <= size && frags != []
    ensures Readable(frags, size) != []
  {
    if |frags| == 1 {
      assert Offset(frags, 0) == 0;
    }
  }

  /** Nothing follows a block that shows nothing. */
  lemma StreamEnds(crc: Bytes -> U32, size: nat, disk: seq<Bytes>, blocks: seq<seq<Rec>>, i: nat)
    requires OnDisk(crc, size, disk, blocks) && i <= |blocks| && Readable(Written(blocks, i), size) == []
    ensures ReadStream(blocks, size, |blocks|) == ReadStream(blocks, size, i)
  {
    if i < |blocks| {
      if blocks[i] != [] {
        FirstIsReadable(blocks[i], size);
        assert false;
      }
      assert |blocks| == 1 && i == 0;
      assert ReadStream(blocks, size, 1) == ReadStream(blocks, size, 0) + [];
    }
  }

  /** One block, unless it shows nothing. */
  method ReadOne(crc: Bytes -> U32, size: nat, disk: seq<Bytes>, ghost blocks: seq<seq<Rec>>, i: nat) returns (recs: seq<Rec>)
    requires OnDisk(crc, size, disk, blocks) && i < |disk| && i <= |blocks| && crc(Zeros(43)) != 0
    ensures recs == [] ==> ReadStream(blocks, size, |blocks|) == ReadStream(blocks, size, i)
    ensures recs != [] ==> i < |blocks| && ReadStream(blocks, size, i + 1) == ReadStream(blocks, size, i) + recs
  {
    BlockOnDisk(crc, size, disk, blocks, i);
    var shown, _ := ReadBlockRecords(crc, disk[i]);
    recs := shown;
    if recs == [] {
      StreamEnds(crc, size, disk, blocks, i);
    } else if i == |blocks| {
      EmptyBlock(crc, size);
    }
  }

  /** `ReadAllRecords`: block after block until one shows nothing. */
  method ReadAllRecords(crc: Bytes -> U32, size: nat, disk: seq<Bytes>, ghost blocks: seq<seq<Rec>>) returns (all: seq<Rec>)
    requires OnDisk(crc, size, disk, blocks) && crc(Zeros(43)) != 0
    ensures all == ReadStream(blocks, size, |blocks|)
  {
    all := [];
    var i := 0;
    while i < |disk|
      invariant 0 <= i <= |disk| && i <= |blocks|
      invariant all == ReadStream(blocks, size, i)
    {
      var recs := ReadOne(crc, size, disk, blocks, i);
      if |recs| == 0 {
        return;
      }
      all := all + recs;
      i := i + 1;
    }
    NoMoreBlocks(crc, size, disk, blocks);
  }

  lemma NoMoreBlocks(crc: Bytes -> U32, size: nat, disk: seq<Bytes>, blocks: seq<seq<Rec>>)
    requires OnDisk(crc, size, disk, blocks)
    ensures |blocks| <= |disk|
  {
  }

  /** The scan of `OpenSegment`: the last block in use and the position behind its last readable record. */
  method OpenScan(crc: Bytes -> U32, size: nat, disk: seq<Bytes>, ghost blocks: seq<seq<Rec>>) returns (index: nat, writePos: nat)
    requires OnDisk(crc, size, disk, blocks) && crc(Zeros(43)) != 0
    ensures index == |blocks| - 1
    ensures writePos == Offset(blocks[index], ReadableCount(blocks[index], size))
    ensures writePos == TotalSize(blocks[index]) <==> Readable(blocks[index], size) == blocks[index]
  {
    index, writePos := 0, 0;
    var i := 0;
    while i < |disk|
      invariant 0 <= i <= |blocks|
      invariant i == 0 ==> index == 0 && writePos == 0
      invariant i > 0 ==> index == i - 1 && writePos == Offset(blocks[index], ReadableCount(blocks[index], size))
    {
      BlockOnDisk(crc, size, disk, blocks, i);
      var recs, end := ReadBlockRecords(crc, disk[i]);
      if |recs| == 0 {
        if i < |blocks| && blocks[i] != [] {
          FirstIsReadable(blocks[i], size);
        }
        break;
      }
      if i == |blocks| {
        EmptyBlock(crc, size);
      }
      index, writePos := i, end;
      i := i + 1;
    }
    var n := ReadableCount(blocks[index], size);
    if n < |blocks[index]| {
      OffsetsGrow(blocks[index], n, |blocks[index]|);
    }
  }

  /** Whole records within the sizes of their fields, as callers append them. */
  ghost predicate Appendable(recs: seq<Rec>) {
    forall i :: 0 <= i < |recs| ==> recs[i].frag == Full && Fits(recs[i])
  }

  /** Where the record `n` goes when the segment is long enough. */
  ghost function PlaceOf(recs: seq<Rec>, n: nat, size: nat): (p: Place)
    requires n <= |recs| && size > KEY_START
  {
    if n == 0 then Place(0, size) else After(PlaceOf(recs, n - 1, size), recs[n - 1], size)
  }

  ghost predicate HiddenAt(recs: seq<Rec>, n: nat, size: nat)
    requires n < |recs| && size > KEY_START
  {
    Hidden(PlaceOf(recs, n, size), recs[n])
  }

  /** The first `n` records without those that nobody will find. */
  ghost function Found(recs: seq<Rec>, n: nat, size: nat): (found: seq<Rec>)
    requires n <= |recs| && size > KEY_START
    ensures |found| <= n
  {
    if n == 0 then [] else Found(recs, n - 1, size) + if HiddenAt(recs, n - 1, size) then [] else [recs[n - 1]]
  }

  lemma TakeOneMore(recs: seq<Rec>, n: nat)
    requires n < |recs|
    ensures recs[..n + 1] == recs[..n] + [recs[n]]
  {
  }

  ghost predicate NoneHidden(recs: seq<Rec>, n: nat, size: nat)
    requires n <= |recs| && size > KEY_START
  {
    forall i :: 0 <= i < n ==> !HiddenAt(recs, i, size)
  }

  /** All records are found if and only if none is hidden. */
  lemma {:induction false} FoundAll(recs: seq<Rec>, n: nat, size: nat)
    requires n <= |recs| && size > KEY_START
    ensures Found(recs, n, size) == recs[..n] <==> NoneHidden(recs, n, size)
  {
    if n > 0 {
      FoundAll(recs, n - 1, size);
      TakeOneMore(recs, n - 1);
      var front, found := recs[..n - 1], Found(recs, n - 1, size);
      if !HiddenAt(recs, n - 1, size) && found + [recs[n - 1]] == front + [recs[n - 1]] {
        assert found == (found + [recs[n - 1]])[..n - 1] == (front + [recs[n - 1]])[..n - 1] == front;
      }
    }
  }

  /** The first `n` records are appended. */
  ghost predicate AppendedTo(s: Reading, recs: seq<Rec>, n: nat, size: nat, maxBlocks: nat)
    requires n <= |recs| && size > KEY_START
  {
    && s.at == PlaceOf(recs, n, size) && s.at.block < maxBlocks && s.log == Found(recs, n, size) && s.open.None?
    && (NoneHidden(recs, n, size) ==> s.clean)
  }

  /** The first `n` records fit the segment and are appended; the next does not fit. */
  ghost predicate AppendedAll(s: Reading, recs: seq<Rec>, n: nat, size: nat, maxBlocks: nat)
    requires size > KEY_START
  {
    && n <= |recs| && PlaceOf(recs, n, size).block < maxBlocks && (n < |recs| ==> PlaceOf(recs, n + 1, size).block >= maxBlocks)
    && s.log == Found(recs, n, size) && (n == |recs| ==> s.at == PlaceOf(recs, n, size)) && (NoneHidden(recs, n, size) ==> s.clean)
  }

  lemma AppendedNext(s: Reading, s': Reading, recs: seq<Rec>, n: nat, size: nat, maxBlocks: nat, ok: bool)
    requires n < |recs| && size > KEY_START && AppendedTo(s, recs, n, size, maxBlocks) && Appends(s, s', recs[n], size, maxBlocks, ok)
    ensures if ok then AppendedTo(s', recs, n + 1, size, maxBlocks) else AppendedAll(s', recs, n, size, maxBlocks)
  {
    assert NoneHidden(recs, n + 1, size) <==> NoneHidden(recs, n, size) && !HiddenAt(recs, n, size);
  }

  /** The loop of `AppendAll`: going on, or stopped at a record that did not fit. */
  ghost predicate Appending(s: Reading, recs: seq<Rec>, n: nat, size: nat, maxBlocks: nat, ok: bool)
    requires size > KEY_START
  {
    n <= |recs| && if ok then AppendedTo(s, recs, n, size, maxBlocks) else AppendedAll(s, recs, n, size, maxBlocks)
  }

  lemma AppendedLast(s: Reading, recs: seq<Rec>, n: nat, size: nat, maxBlocks: nat, ok: bool)
    requires size > KEY_START && Appending(s, recs, n, size, maxBlocks, ok) && (!ok || n == |recs|)
    ensures AppendedAll(s, recs, n, size, maxBlocks)
  {
  }

  method AppendRecord(seg: Segment, recs: seq<Rec>, n: nat) returns (ok: bool)
    requires seg.Valid() && n < |recs| && Appending(seg.Now(), recs, n, seg.blockSize, seg.maxBlocks, true) && Appendable(recs)
    modifies seg, seg.block, seg.block.data
    ensures seg.Valid() && (seg.block == old(seg.block) || (fresh(seg.block) && fresh(seg.block.data)))
    ensures Appending(seg.Now(), recs, if ok then n + 1 else n, seg.blockSize, seg.maxBlocks, ok)
  {
    ghost var before := seg.Now();
    ok := seg.AppendWALRecord(recs[n]);
    AppendedNext(before, seg.Now(), recs, n, seg.blockSize, seg.maxBlocks, ok);
  }

  /** Appending one record after the other, until the segment is full. */
  method AppendAll(seg: Segment, recs: seq<Rec>) returns (n: nat)
    requires seg.Valid() && seg.Now() == Reading(Place(0, seg.blockSize), [], None, true) && Appendable(recs)
    modifies seg, seg.block, seg.block.data
    ensures seg.Valid() && AppendedAll(seg.Now(), recs, n, seg.blockSize, seg.maxBlocks)
  {
    n := 0;
    var ok := true;
    while ok && n < |recs|
      invariant n <= |recs| && seg.Valid() && Appending(seg.Now(), recs, n, seg.blockSize, seg.maxBlocks, ok)
      invariant seg.block == old(seg.block) || (fresh(seg.block) && fresh(seg.block.data))
      decreases |recs| - n, ok
    {
      ok := AppendRecord(seg, recs, n);
      if ok {
        n := n + 1;
      }
    }
    AppendedLast(seg.Now(), recs, n, seg.blockSize, seg.maxBlocks, ok);
  }

  /**
   Round trip over one segment, whatever the block size and the records: after a sync the records appended
   without error come back in order but for the hidden ones, so exactly when there is none all of them do.
   Reopening the segment finds the block and then the write position it was left with.
   */
  method WriteSyncRead(crc: Bytes -> U32, blockSize: nat, maxBlocks: nat, recs: seq<Rec>)
    returns (seg: Segment, n: nat, recovered: seq<Rec>, index: nat, writePos: nat)
    requires blockSize > KEY_START && maxBlocks > 0 && crc(Zeros(43)) != 0 && Appendable(recs)
    ensures n <= |recs| && PlaceOf(recs, n, blockSize).block < maxBlocks
    ensures n < |recs| ==> PlaceOf(recs, n + 1, blockSize).block >= maxBlocks
    ensures n == |recs| ==> seg.At() == PlaceOf(recs, n, blockSize)
    ensures recovered == Found(recs, n, blockSize)
    ensures recovered == recs[..n] <==> forall i :: 0 <= i < n ==> !HiddenAt(recs, i, blockSize)
    ensures index == seg.index && (recovered == recs[..n] ==> writePos == seg.block.writePos)
  {
    seg := new Segment(crc, blockSize, maxBlocks);
    n := AppendAll(seg, recs);
    seg.Sync();
    var frags := ReadAllRecords(crc, blockSize, seg.disk, seg.blocks);
    recovered := JoinFragments(frags);
    index, writePos := OpenScan(crc, blockSize, seg.disk, seg.blocks);
    FoundAll(recs, n, blockSize);
  }
}
