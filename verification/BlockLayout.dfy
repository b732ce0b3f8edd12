/**
 The layout of a data block on disk (internal/sstable/data.go:215-255, 293-340): data section, restart
 offsets, padding, sizes, bitmap and checksum. The checksum is a parameter.
 */
module BlockLayout {
  import opened ByteOrder
  import opened Encoders
  import opened Keys
  import opened Options

  /** The offsets of the first `n` restart points, four bytes each. */
  function RestartBytes(restarts: seq<nat>, n: nat): (b: Bytes)
    requires n <= |restarts|
    ensures |b| == 4 * n
  {
    if n == 0 then [] else RestartBytes(restarts, n - 1) + LE(restarts[n - 1], 4)
  }

  /** Everything before the checksum. */
  function Body(data: Bytes, restarts: seq<nat>, gap: nat, bitmap: Bytes): (b: Bytes)
    ensures |b| == |data| + 4 * |restarts| + gap + 8 + |bitmap| + 2
  {
    data + RestartBytes(restarts, |restarts|) + Zeros(gap) + LE(|data|, 4) + LE(|restarts|, 4) + bitmap + LE(|bitmap|, 2)
  }

  function Block(crc: Bytes -> U32, data: Bytes, restarts: seq<nat>, gap: nat, bitmap: Bytes): (b: Bytes)
    ensures |b| == |Body(data, restarts, gap, bitmap)| + 4
  {
    var body := Body(data, restarts, gap, bitmap);
    body + LE(crc(body), 4)
  }

  // ------------------------------------------------------------------ writing

  /** A buffer filled up to somewhere, zeros behind. */
  ghost predicate Filled(buf: Bytes, front: Bytes) {
    |front| <= |buf| && buf == front + Zeros(|buf| - |front|)
  }

  lemma FilledMore(buf: Bytes, front: Bytes, gap: nat, b: Bytes, buf': Bytes)
    requires Filled(buf, front) && |front| + gap + |b| <= |buf|
    requires buf' == buf[..|front| + gap] + b + buf[|front| + gap + |b|..]
    ensures Filled(buf', front + Zeros(gap) + b)
  {
    assert buf[..|front| + gap] == front + Zeros(gap);
    assert buf[|front| + gap + |b|..] == Zeros(|buf| - |front| - gap - |b|);
  }

  /** `copy` and the `Put` functions: bytes into the buffer, `gap` bytes behind what is filled. */
  method PutBytes(a: array<Byte>, ghost front: Bytes, ghost gap: nat, pos: nat, b: Bytes)
    requires Filled(a[..], front) && pos == |front| + gap && pos + |b| <= a.Length
    modifies a
    ensures Filled(a[..], front + Zeros(gap) + b)
  {
    ghost var before := a[..];
    for i := 0 to |b|
      invariant forall k :: 0 <= k < a.Length ==> a[k] == if pos <= k < pos + i then b[k - pos] else before[k]
    {
      a[pos + i] := b[i];
    }
    assert a[..] == before[..pos] + b + before[pos + |b|..];
    FilledMore(before, front, gap, b, a[..]);
  }

  method PutNext(a: array<Byte>, ghost front: Bytes, pos: nat, b: Bytes)
    requires Filled(a[..], front) && pos == |front| && pos + |b| <= a.Length
    modifies a
    ensures Filled(a[..], front + b)
  {
    PutBytes(a, front, 0, pos, b);
    assert front + Zeros(0) == front;
  }

  /** The loop over the restart array. */
  method PutRestarts(a: array<Byte>, ghost front: Bytes, start: nat, restarts: seq<nat>)
    requires Filled(a[..], front) && start == |front| && start + 4 * |restarts| <= a.Length
    modifies a
    ensures Filled(a[..], front + RestartBytes(restarts, |restarts|))
  {
    assert front + [] == front;
    for i := 0 to |restarts|
      invariant Filled(a[..], front + RestartBytes(restarts, i))
    {
      ghost var filled := front + RestartBytes(restarts, i);
      PutNext(a, filled, start + 4 * i, LE(restarts[i], 4));
      assert filled + LE(restarts[i], 4) == front + RestartBytes(restarts, i + 1);
    }
  }

  /** `Finish`: refuses what does not fit; otherwise the layout, padded to the block size. */
  method Finish(crc: Bytes -> U32, data: Bytes, restarts: seq<nat>, bitmap: Bytes, recordCount: nat, blockSize: nat)
    returns (block: Option<Bytes>)
    requires |bitmap| < 0x1_0000
    ensures block.None? <==> recordCount == 0 || |data| + 4 * |restarts| + 16 + |bitmap| > blockSize
    ensures block.Some? ==> |data| + 4 * |restarts| + 14 + |bitmap| <= blockSize == |block.value|
                            && block.value == Block(crc, data, restarts, blockSize - |data| - 4 * |restarts| - 14 - |bitmap|, bitmap)
  {
    if recordCount == 0 {
      return None;
    }
    if |data| + 4 * |restarts| + 4 + 4 + 4 + |bitmap| + 4 > blockSize {
      return None;
    }
    var buf := new Byte[blockSize](_ => 0);
    assert Filled(buf[..], []);
    PutNext(buf, [], 0, data);
    assert [] + data == data;
    PutRestarts(buf, data, |data|, restarts);
    var crcPos := blockSize - 4;
    var dataSizePos := crcPos - 2 - |bitmap| - 8;
    ghost var front := data + RestartBytes(restarts, |restarts|);
    PutTrailer(crc, buf, front, dataSizePos, |data|, |restarts|, bitmap);
    return Some(buf[..]);
  }

  /** The part of `Finish` behind the padding. */
  method PutTrailer(crc: Bytes -> U32, buf: array<Byte>, ghost front: Bytes, dataSizePos: nat, dataSize: nat, restartCount: nat, bitmap: Bytes)
    requires Filled(buf[..], front) && |front| <= dataSizePos && dataSizePos + 8 + |bitmap| + 6 == buf.Length
    modifies buf
    ensures var body := front + Zeros(dataSizePos - |front|) + LE(dataSize, 4) + LE(restartCount, 4) + bitmap + LE(|bitmap|, 2);
            buf[..] == body + LE(crc(body), 4)
  {
    ghost var gap := dataSizePos - |front|;
    PutBytes(buf, front, gap, dataSizePos, LE(dataSize, 4));
    ghost var f1 := front + Zeros(gap) + LE(dataSize, 4);
    PutNext(buf, f1, dataSizePos + 4, LE(restartCount, 4));
    ghost var f2 := f1 + LE(restartCount, 4);
    PutNext(buf, f2, dataSizePos + 8, bitmap);
    ghost var f3 := f2 + bitmap;
    PutNext(buf, f3, dataSizePos + 8 + |bitmap|, LE(|bitmap|, 2));
    ghost var body := f3 + LE(|bitmap|, 2);
    assert buf[..][..buf.Length - 4] == body;
    PutNext(buf, body, buf.Length - 4, LE(crc(buf[..buf.Length - 4]), 4));
  }

  // ------------------------------------------------------------------ reading

  datatype Parsed = Parsed(data: Bytes, restarts: seq<nat>, bitmap: Bytes)

  /** The restart offsets behind the data section; nothing if they overrun the block. */
  function ReadRestarts(block: Bytes, dataSize: nat, n: nat): (restarts: Option<seq<nat>>)
    ensures restarts.Some? ==> |restarts.value| == n
  {
    if n == 0 then Some([])
    else
      var front := ReadRestarts(block, dataSize, n - 1);
      var off := dataSize + 4 * (n - 1);
      if front.None? || off + 4 > |block| then None else Some(front.value + [FromLE(block[off..off + 4])])
  }

  /** `NewDataBlockReader`: sizes that point outside the block make it fail. */
  function Parse(crc: Bytes -> U32, block: Bytes): (p: Option<Parsed>) {
    var n := |block|;
    if n < 12 || FromLE(block[n - 4..]) != crc(block[..n - 4]) then None
    else
      var bitmapPos := n - 6 - FromLE(block[n - 6..n - 4]);
      if bitmapPos < 8 then None
      else
        var dataSize, restartCount := FromLE(block[bitmapPos - 8..bitmapPos - 4]), FromLE(block[bitmapPos - 4..bitmapPos]);
        var restarts := ReadRestarts(block, dataSize, restartCount);
        if dataSize > n || restarts.None? then None
        else Some(Parsed(block[..dataSize], restarts.value, block[bitmapPos..n - 6]))
  }

  /** Only a block that ends with the checksum of all that comes before is taken apart. */
  lemma ParseChecks(crc: Bytes -> U32, block: Bytes)
    ensures Parse(crc, block).Some? ==> |block| >= 12 && block[|block| - 4..] == LE(crc(block[..|block| - 4]), 4)
  {
    if |block| >= 12 {
      FromFourBytes(block[|block| - 4..], crc(block[..|block| - 4]));
    }
  }

  /** The parts of a block, by where their bytes lie: sizes and bitmap in front of the checksum, offsets behind the data. */
  ghost predicate Consists(crc: Bytes -> U32, block: Bytes, p: Parsed) {
    var n, end := |block|, |block| - 6 - |p.bitmap|;
    && end >= 8 && block[n - 4..] == LE(crc(block[..n - 4]), 4) && block[end..n - 6] == p.bitmap && p.data <= block
    && SizesAt(block, |p.data|, |p.restarts|, |p.bitmap|, end)
    && forall k :: 0 <= k < |p.restarts| ==> OffsetAt(block, |p.data| + 4 * k, p.restarts[k])
  }

  /** The three sizes around the bitmap at `end`. */
  ghost predicate SizesAt(block: Bytes, dataSize: nat, restartCount: nat, bitmapSize: nat, end: nat)
    requires |block| == end + bitmapSize + 6 && end >= 8
  {
    && dataSize < Pow256(4) && restartCount < Pow256(4) && bitmapSize < Pow256(2)
    && block[end - 8..end - 4] == LE(dataSize, 4) && block[end - 4..end] == LE(restartCount, 4)
    && block[|block| - 6..|block| - 4] == LE(bitmapSize, 2)
  }

  ghost predicate OffsetAt(block: Bytes, pos: nat, offset: nat) {
    offset < Pow256(4) && Holds(block, pos, LE(offset, 4))
  }

  lemma SliceIs(block: Bytes, i: nat, j: nat, n: nat)
    requires i <= j <= |block|
    ensures FromLE(block[i..j]) == n <==> n < Pow256(j - i) && block[i..j] == LE(n, j - i)
  {
    FromLERoundTrip(block[i..j]);
    if n < Pow256(j - i) {
      LERoundTrip(n, j - i);
    }
  }

  lemma {:induction false} RestartsExactly(block: Bytes, dataSize: nat, restarts: seq<nat>, n: nat)
    requires n == |restarts|
    ensures ReadRestarts(block, dataSize, n) == Some(restarts) <==> forall k :: 0 <= k < n ==> OffsetAt(block, dataSize + 4 * k, restarts[k])
  {
    if n > 0 {
      var front, off := restarts[..n - 1], dataSize + 4 * (n - 1);
      RestartsExactly(block, dataSize, front, n - 1);
      assert restarts == front + [restarts[n - 1]];
      if off + 4 <= |block| {
        SliceIs(block, off, off + 4, restarts[n - 1]);
        assert OffsetAt(block, off, restarts[n - 1]) <==> FromLE(block[off..off + 4]) == restarts[n - 1];
      }
      LastOffset(block, dataSize, restarts, n);
    }
  }

  lemma LastOffset(block: Bytes, dataSize: nat, restarts: seq<nat>, n: nat)
    requires 0 < n == |restarts|
    ensures (forall k :: 0 <= k < n ==> OffsetAt(block, dataSize + 4 * k, restarts[k]))
            <==> (forall k :: 0 <= k < n - 1 ==> OffsetAt(block, dataSize + 4 * k, restarts[..n - 1][k]))
                 && OffsetAt(block, dataSize + 4 * (n - 1), restarts[n - 1])
  {
  }

  /** A block is taken apart into these parts exactly when it consists of them. */
  lemma ParseExactly(crc: Bytes -> U32, block: Bytes, p: Parsed)
    ensures Parse(crc, block) == Some(p) <==> Consists(crc, block, p)
  {
    if Parse(crc, block) == Some(p) {
      ParseSound(crc, block, p, |block|, |block| - 6 - |p.bitmap|);
    }
    if Consists(crc, block, p) {
      ParseComplete(crc, block, p.data, p.restarts, p.bitmap, |block| - 6 - |p.bitmap|);
    }
  }

  lemma SizesExactly(block: Bytes, dataSize: nat, restartCount: nat, bitmapSize: nat, end: nat)
    requires |block| == end + bitmapSize + 6 && end >= 8
    ensures (&& FromLE(block[|block| - 6..|block| - 4]) == bitmapSize && FromLE(block[end - 8..end - 4]) == dataSize
             && FromLE(block[end - 4..end]) == restartCount) <==> SizesAt(block, dataSize, restartCount, bitmapSize, end)
  {
    SliceIs(block, |block| - 6, |block| - 4, bitmapSize);
    SliceIs(block, end - 8, end - 4, dataSize);
    SliceIs(block, end - 4, end, restartCount);
  }

  lemma ParseSound(crc: Bytes -> U32, block: Bytes, p: Parsed, n: nat, end: int)
    requires Parse(crc, block) == Some(p) && n == |block| && end == n - 6 - |p.bitmap|
    ensures Consists(crc, block, p)
  {
    ParseChecks(crc, block);
    SizesExactly(block, |p.data|, |p.restarts|, |p.bitmap|, end);
    RestartsExactly(block, |p.data|, p.restarts, |p.restarts|);
  }

  lemma ParseComplete(crc: Bytes -> U32, block: Bytes, data: Bytes, restarts: seq<nat>, bitmap: Bytes, end: int)
    requires Consists(crc, block, Parsed(data, restarts, bitmap)) && end == |block| - 6 - |bitmap|
    ensures Parse(crc, block) == Some(Parsed(data, restarts, bitmap))
  {
    FromFourBytes(block[|block| - 4..], crc(block[..|block| - 4]));
    SizesExactly(block, |data|, |restarts|, |bitmap|, end);
    RestartsExactly(block, |data|, restarts, |restarts|);
    ParseAt(crc, block, data, restarts, bitmap, end);
  }

  lemma {:induction false} RestartHolds(restarts: seq<nat>, i: nat, n: nat)
    requires i < n <= |restarts|
    ensures Holds(RestartBytes(restarts, n), 4 * i, LE(restarts[i], 4))
    decreases n
  {
    if i == n - 1 {
      HoldsPrefix(RestartBytes(restarts, n - 1), LE(restarts[i], 4), RestartBytes(restarts, n));
    } else {
      RestartHolds(restarts, i, n - 1);
      HoldsLonger(RestartBytes(restarts, n - 1), 4 * i, LE(restarts[i], 4), RestartBytes(restarts, n));
    }
  }

  lemma HoldsLonger(data: Bytes, pos: nat, b: Bytes, data': Bytes)
    requires Holds(data, pos, b) && data <= data'
    ensures Holds(data', pos, b)
  {
    assert data'[..|data|] == data;
    assert data'[pos..pos + |b|] == data[pos..pos + |b|];
  }

  lemma HoldsInside(outer: Bytes, at: nat, inner: Bytes, pos: nat, b: Bytes)
    requires Holds(outer, at, inner) && Holds(inner, pos, b)
    ensures Holds(outer, at + pos, b)
  {
    assert forall k :: 0 <= k < |inner| ==> inner[k] == outer[at + k] by {
      forall k | 0 <= k < |inner| ensures inner[k] == outer[at + k] {
        HoldsAt(outer, at, inner, k);
      }
    }
    assert inner[pos..pos + |b|] == outer[at + pos..at + pos + |b|];
  }

  lemma {:induction false} RestartsRoundTrip(block: Bytes, dataSize: nat, restarts: seq<nat>, n: nat)
    requires n <= |restarts| && Holds(block, dataSize, RestartBytes(restarts, |restarts|))
    requires forall k :: 0 <= k < |restarts| ==> restarts[k] < Pow256(4)
    ensures ReadRestarts(block, dataSize, n) == Some(restarts[..n])
  {
    if n > 0 {
      RestartsRoundTrip(block, dataSize, restarts, n - 1);
      RestartHolds(restarts, n - 1, |restarts|);
      HoldsInside(block, dataSize, RestartBytes(restarts, |restarts|), 4 * (n - 1), LE(restarts[n - 1], 4));
      LERoundTrip(restarts[n - 1], 4);
      assert restarts[..n] == restarts[..n - 1] + [restarts[n - 1]];
    }
  }

  /** Where the pieces of a block lie. */
  lemma Pieces(crc: Bytes -> U32, data: Bytes, restarts: seq<nat>, gap: nat, bitmap: Bytes, block: Bytes)
    requires block == Block(crc, data, restarts, gap, bitmap)
    ensures Holds(block, 0, data) && Holds(block, |data|, RestartBytes(restarts, |restarts|))
    ensures var end := |block| - 6 - |bitmap|;
            && end >= 8 && Holds(block, end - 8, LE(|data|, 4)) && Holds(block, end - 4, LE(|restarts|, 4))
            && Holds(block, end, bitmap) && Holds(block, |block| - 6, LE(|bitmap|, 2))
  {
    var r, z := RestartBytes(restarts, |restarts|), Zeros(gap);
    var body := Body(data, restarts, gap, bitmap);
    var f1 := data + r + z;
    var f2, f3, f4 := f1 + LE(|data|, 4), f1 + LE(|data|, 4) + LE(|restarts|, 4), f1 + LE(|data|, 4) + LE(|restarts|, 4) + bitmap;
    PieceOf([], data, block);
    PieceOf(data, r, block);
    PieceOf(f1, LE(|data|, 4), block);
    PieceOf(f2, LE(|restarts|, 4), block);
    PieceOf(f3, bitmap, block);
    PieceOf(f4, LE(|bitmap|, 2), block);
  }

  lemma PieceOf(front: Bytes, b: Bytes, block: Bytes)
    requires front + b <= block
    ensures Holds(block, |front|, b)
  {
    HoldsPrefix(front, b, block);
  }

  lemma ReadLE(block: Bytes, pos: nat, end: nat, n: nat, w: nat)
    requires Holds(block, pos, LE(n, w)) && n < Pow256(w) && end == pos + w
    ensures FromLE(block[pos..end]) == n
  {
    LERoundTrip(n, w);
  }

  lemma ParseAt(crc: Bytes -> U32, block: Bytes, data: Bytes, restarts: seq<nat>, bitmap: Bytes, end: nat)
    requires |block| == end + |bitmap| + 6 && end >= 8 && |data| <= |block|
    requires FromLE(block[|block| - 4..]) == crc(block[..|block| - 4]) && FromLE(block[|block| - 6..|block| - 4]) == |bitmap|
    requires FromLE(block[end - 8..end - 4]) == |data| && FromLE(block[end - 4..end]) == |restarts|
    requires ReadRestarts(block, |data|, |restarts|) == Some(restarts)
    requires block[..|data|] == data && block[end..end + |bitmap|] == bitmap
    ensures Parse(crc, block) == Some(Parsed(data, restarts, bitmap))
  {
    assert |block| - 6 - FromLE(block[|block| - 6..|block| - 4]) == end;
    assert block[end..|block| - 6] == bitmap;
  }

  /** What `Finish` writes, the reader takes apart again. */
  lemma ParseRoundTrip(crc: Bytes -> U32, data: Bytes, restarts: seq<nat>, gap: nat, bitmap: Bytes, block: Bytes)
    requires block == Block(crc, data, restarts, gap, bitmap)
    requires |data| < Pow256(4) && |restarts| < Pow256(4) && |bitmap| < Pow256(2)
    requires forall k :: 0 <= k < |restarts| ==> restarts[k] < Pow256(4)
    ensures Parse(crc, block) == Some(Parsed(data, restarts, bitmap))
  {
    var end := |block| - 6 - |bitmap|;
    Pieces(crc, data, restarts, gap, bitmap, block);
    ChecksumHolds(crc, Body(data, restarts, gap, bitmap), block);
    SizesRead(block, |data|, |restarts|, |bitmap|, end);
    PartsRead(block, data, restarts, bitmap, end);
    ParseAt(crc, block, data, restarts, bitmap, end);
  }

  lemma SizesRead(block: Bytes, dataSize: nat, restartCount: nat, bitmapSize: nat, end: nat)
    requires dataSize < Pow256(4) && restartCount < Pow256(4) && bitmapSize < Pow256(2)
    requires |block| == end + bitmapSize + 6 && end >= 8
    requires Holds(block, end - 8, LE(dataSize, 4)) && Holds(block, end - 4, LE(restartCount, 4))
    requires Holds(block, |block| - 6, LE(bitmapSize, 2))
    ensures FromLE(block[|block| - 6..|block| - 4]) == bitmapSize
    ensures FromLE(block[end - 8..end - 4]) == dataSize && FromLE(block[end - 4..end]) == restartCount
  {
    ReadLE(block, end - 8, end - 4, dataSize, 4);
    ReadLE(block, end - 4, end, restartCount, 4);
    ReadLE(block, |block| - 6, |block| - 4, bitmapSize, 2);
  }

  lemma PartsRead(block: Bytes, data: Bytes, restarts: seq<nat>, bitmap: Bytes, end: nat)
    requires Holds(block, 0, data) && Holds(block, |data|, RestartBytes(restarts, |restarts|)) && Holds(block, end, bitmap)
    requires forall k :: 0 <= k < |restarts| ==> restarts[k] < Pow256(4)
    ensures ReadRestarts(block, |data|, |restarts|) == Some(restarts)
    ensures block[..|data|] == data && block[end..end + |bitmap|] == bitmap
  {
    RestartsRoundTrip(block, |data|, restarts, |restarts|);
    assert restarts[..|restarts|] == restarts;
  }

  lemma ChecksumHolds(crc: Bytes -> U32, body: Bytes, block: Bytes)
    requires block == body + LE(crc(body), 4)
    ensures FromLE(block[|block| - 4..]) == crc(block[..|block| - 4])
  {
    assert block[|block| - 4..] == LE(crc(body), 4) && block[..|block| - 4] == body;
    assert Pow256(4) == 256 * Pow256(3) && Pow256(3) == 256 * Pow256(2) && Pow256(2) == 256 * Pow256(1) && Pow256(1) == 256;
    LERoundTrip(crc(body), 4);
  }
}
