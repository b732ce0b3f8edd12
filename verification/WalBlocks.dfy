/**
 Reading a block of the log back (internal/wal/segment.go:279-304, 364-410): records packed
 from the front, zeros behind them.
 */
module WalBlocks {
  import opened ByteOrder
  import opened Keys
  import opened WalRecord

  /** Where fragment `i` starts when fragments are packed from the front. */
  function Offset(frags: seq<Rec>, i: nat): (n: nat)
    requires i <= |frags|
  {
    if i == 0 then 0 else Offset(frags, i - 1) + Size(frags[i - 1])
  }

  function TotalSize(frags: seq<Rec>): (n: nat) { Offset(frags, |frags|) }

  /** The first `n` fragments, packed. */
  ghost function PackedTo(crc: Bytes -> U32, frags: seq<Rec>, n: nat): (b: Bytes)
    requires n <= |frags|
    ensures |b| == Offset(frags, n)
  {
    if n == 0 then [] else PackedTo(crc, frags, n - 1) + Encoded(crc, frags[n - 1])
  }

  ghost function Packed(crc: Bytes -> U32, frags: seq<Rec>): (b: Bytes)
    ensures |b| == TotalSize(frags)
  {
    PackedTo(crc, frags, |frags|)
  }

  /** The contents of a block of the given size. */
  ghost function BlockBytes(crc: Bytes -> U32, frags: seq<Rec>, size: nat): (b: Bytes)
    requires TotalSize(frags) <= size
    ensures |b| == size
  {
    Packed(crc, frags) + Zeros(size - TotalSize(frags))
  }

  datatype SizeResult = TooShort | Fit(size: nat)

  /** `RecordSizeAt`: a tail of exactly `KEY_START` bytes counts as too short. */
  function RecordSizeAt(data: Bytes, off: nat): (n: SizeResult)
    requires off <= |data|
    ensures n.Fit? ==> n.size >= KEY_START && off + n.size <= |data|
                         && n.size == KEY_START + KeySizeAt(data, off) + ValueSizeAt(data, off)
  {
    if |data| - off <= KEY_START then TooShort
    else
      var total := KEY_START + KeySizeAt(data, off) + ValueSizeAt(data, off);
      if off + total > |data| then TooShort else Fit(total)
  }

  lemma SubSlice(data: Bytes, off: nat, n: nat, i: nat, j: nat)
    requires off + n <= |data| && i <= j <= n
    ensures data[off..off + n][i..j] == data[off + i..off + j]
  {
    var b := data[off..off + n];
    assert forall k :: i <= k < j ==> b[k] == data[off + k];
  }

  lemma SliceSizes(data: Bytes, off: nat, n: nat)
    requires KEY_START <= n && off + n <= |data|
    ensures KeySizeAt(data[off..off + n], 0) == KeySizeAt(data, off)
    ensures ValueSizeAt(data[off..off + n], 0) == ValueSizeAt(data, off)
  {
    SubSlice(data, off, n, 31, 39);
    SubSlice(data, off, n, 39, 47);
  }

  /** What the reader finds at an offset. */
  datatype Step = Stop | Item(rec: Rec, size: nat)

  /** The record at an offset, unless the block ends there or the bytes are no record. */
  function ReadStep(crc: Bytes -> U32, data: Bytes, off: nat): (s: Step)
    ensures s.Item? ==> s.size > 0 && off + s.size <= |data|
  {
    if off > |data| then Stop
    else
      match RecordSizeAt(data, off)
      case TooShort => Stop
      case Fit(n) =>
        SliceSizes(data, off, n);
        match Decode(crc, data[off..off + n])
        case Bad => Stop
        case Good(r) => Item(r, n)
  }

  function Reader(crc: Bytes -> U32, data: Bytes): nat -> Step {
    (off: nat) => ReadStep(crc, data, off)
  }

  /** The records a reader collects from an offset on. */
  function Walk(step: nat -> Step, len: nat, off: nat): (recs: seq<Rec>)
    decreases len - off
  {
    var s := step(off);
    if s.Item? && 0 < s.size && off + s.size <= len then [s.rec] + Walk(step, len, off + s.size) else []
  }

  /** The offset at which it stops. */
  function WalkEnd(step: nat -> Step, len: nat, off: nat): (end: nat)
    decreases len - off
  {
    var s := step(off);
    if s.Item? && 0 < s.size && off + s.size <= len then WalkEnd(step, len, off + s.size) else off
  }

  /** What `ReadBlockRecords` returns, and where `ScanBlock` puts the write position. */
  function BlockRecords(crc: Bytes -> U32, data: Bytes): seq<Rec> { Walk(Reader(crc, data), |data|, 0) }

  function BlockEnd(crc: Bytes -> U32, data: Bytes): nat { WalkEnd(Reader(crc, data), |data|, 0) }

  /** `step` is the reader of this block. */
  ghost predicate Reads(step: nat -> Step, crc: Bytes -> U32, data: Bytes) {
    forall off: nat {:trigger ReadStep(crc, data, off)} :: step(off) == ReadStep(crc, data, off)
  }

  /** One round of the loop of `ReadBlockRecords` and `ScanBlock`. */
  method NextRecord(crc: Bytes -> U32, data: Bytes, off: nat, ghost step: nat -> Step) returns (s: Step)
    requires off <= |data| && Reads(step, crc, data)
    ensures s == step(off) && (s.Item? ==> s.size > 0 && off + s.size <= |data|)
  {
    ghost var expected := ReadStep(crc, data, off);
    if off + KEY_START > |data| {
      return Stop;
    }
    var n := RecordSizeAt(data, off);
    if n.TooShort? {
      return Stop;
    }
    SliceSizes(data, off, n.size);
    var d := Decode(crc, data[off..off + n.size]);
    if d.Bad? {
      return Stop;
    }
    return Item(d.rec, n.size);
  }

  method ReadLoop(crc: Bytes -> U32, data: Bytes, ghost step: nat -> Step) returns (recs: seq<Rec>, writePos: nat)
    requires Reads(step, crc, data)
    ensures recs == Walk(step, |data|, 0) && writePos == WalkEnd(step, |data|, 0)
  {
    recs, writePos := [], 0;
    while true
      invariant 0 <= writePos <= |data|
      invariant recs + Walk(step, |data|, writePos) == Walk(step, |data|, 0)
      invariant WalkEnd(step, |data|, writePos) == WalkEnd(step, |data|, 0)
      decreases |data| - writePos
    {
      var s := NextRecord(crc, data, writePos, step);
      if s.Stop? {
        return;
      }
      assert Walk(step, |data|, writePos) == [s.rec] + Walk(step, |data|, writePos + s.size);
      recs := recs + [s.rec];
      writePos := writePos + s.size;
    }
  }

  /** `ReadBlockRecords` and `ScanBlock`: one loop, two results. */
  method ReadBlockRecords(crc: Bytes -> U32, data: Bytes) returns (recs: seq<Rec>, writePos: nat)
    ensures recs == BlockRecords(crc, data) && writePos == BlockEnd(crc, data)
  {
    recs, writePos := ReadLoop(crc, data, Reader(crc, data));
  }

  // ------------------------------------------------------------------ what is read back

  /** The fragments a reader sees: all but one without payload in a tail of exactly `KEY_START` bytes. */
  ghost function ReadableCount(frags: seq<Rec>, size: nat): (n: nat)
    ensures |frags| - 1 <= n <= |frags|
  {
    if |frags| > 0 && Offset(frags, |frags| - 1) + KEY_START == size then |frags| - 1 else |frags|
  }

  ghost function Readable(frags: seq<Rec>, size: nat): (seen: seq<Rec>) {
    frags[..ReadableCount(frags, size)]
  }

  lemma {:induction false} OffsetsGrow(frags: seq<Rec>, i: nat, j: nat)
    requires i < j <= |frags|
    ensures Offset(frags, i) + Size(frags[i]) <= Offset(frags, j)
    decreases j
  {
    if i < j - 1 {
      OffsetsGrow(frags, i, j - 1);
    }
  }

  lemma {:induction false} PackedPrefix(crc: Bytes -> U32, frags: seq<Rec>, i: nat, n: nat)
    requires i <= n <= |frags|
    ensures PackedTo(crc, frags, i) <= PackedTo(crc, frags, n)
    decreases n
  {
    if i < n {
      PackedPrefix(crc, frags, i, n - 1);
    }
  }

  /** The bytes of fragment `i` inside its block. */
  lemma FragmentBytes(crc: Bytes -> U32, frags: seq<Rec>, size: nat, i: nat)
    requires TotalSize(frags) <= size && i < |frags|
    ensures Offset(frags, i) + Size(frags[i]) <= size
    ensures BlockBytes(crc, frags, size)[Offset(frags, i)..Offset(frags, i) + Size(frags[i])] == Encoded(crc, frags[i])
  {
    OffsetsGrow(frags, i, |frags|);
    PackedPrefix(crc, frags, i + 1, |frags|);
    HoldsPrefix(PackedTo(crc, frags, i), Encoded(crc, frags[i]), BlockBytes(crc, frags, size));
  }

  /** Bytes that decode to a record, wherever they lie, are read as that record. */
  lemma ReadStepAt(crc: Bytes -> U32, data: Bytes, off: nat, e: Bytes, r: Rec)
    requires |e| == Size(r) && off + |e| <= |data| && data[off..off + |e|] == e && |data| - off > KEY_START
    requires KeySizeAt(e, 0) == |r.key| && ValueSizeAt(e, 0) == |r.value| && Decode(crc, e) == Good(r)
    ensures ReadStep(crc, data, off) == Item(r, Size(r))
  {
    SliceSizes(data, off, |e|);
  }

  lemma ReadEncoded(crc: Bytes -> U32, data: Bytes, off: nat, r: Rec)
    requires Fits(r) && off + Size(r) <= |data| && data[off..off + Size(r)] == Encoded(crc, r) && |data| - off > KEY_START
    ensures ReadStep(crc, data, off) == Item(r, Size(r))
  {
    EncodeDecode(crc, r);
    ReadStepAt(crc, data, off, Encoded(crc, r), r);
  }

  lemma ReadFragment(crc: Bytes -> U32, frags: seq<Rec>, size: nat, i: nat)
    requires TotalSize(frags) <= size && i < |frags| && Fits(frags[i])
    requires size - Offset(frags, i) > KEY_START
    ensures ReadStep(crc, BlockBytes(crc, frags, size), Offset(frags, i)) == Item(frags[i], Size(frags[i]))
  {
    FragmentBytes(crc, frags, size, i);
    ReadEncoded(crc, BlockBytes(crc, frags, size), Offset(frags, i), frags[i]);
  }

  /** No record is read from zeros. */
  lemma ReadZeros(crc: Bytes -> U32, data: Bytes, off: nat)
    requires off <= |data| && crc(Zeros(43)) != 0 && forall i :: off <= i < |data| ==> data[i] == 0
    ensures ReadStep(crc, data, off) == Stop
  {
    if |data| - off > KEY_START {
      assert data[off + 31..off + 39] == Zeros(8);
      assert data[off + 39..off + 47] == Zeros(8);
      FromLEZeros(8);
      assert RecordSizeAt(data, off) == Fit(KEY_START);
      var z := data[off..off + KEY_START];
      assert z[0..4] == Zeros(4);
      assert z[4..] == Zeros(43);
      FromLEZeros(4);
    }
  }

  /** The reader stops behind the readable fragments: at the padding, or at a tail that is too short. */
  lemma ReadStops(crc: Bytes -> U32, frags: seq<Rec>, size: nat)
    requires TotalSize(frags) <= size && crc(Zeros(43)) != 0
    ensures ReadStep(crc, BlockBytes(crc, frags, size), Offset(frags, ReadableCount(frags, size))) == Stop
  {
    if ReadableCount(frags, size) == |frags| {
      ReadZeros(crc, BlockBytes(crc, frags, size), TotalSize(frags));
    }
  }

  /** A readable fragment leaves more than a bare header's room. */
  lemma ReadableHasRoom(frags: seq<Rec>, size: nat, i: nat)
    requires TotalSize(frags) <= size && i < ReadableCount(frags, size)
    ensures size - Offset(frags, i) > KEY_START
  {
    var n := |frags| - 1;
    OffsetsGrow(frags, n, n + 1);
    if i < n {
      OffsetsGrow(frags, i, n);
    }
  }

  lemma WalkOne(step: nat -> Step, len: nat, off: nat, next: nat, rec: Rec, rest: seq<Rec>, end: nat)
    requires off < next <= len && step(off) == Item(rec, next - off)
    requires Walk(step, len, next) == rest && WalkEnd(step, len, next) == end
    ensures Walk(step, len, off) == [rec] + rest && WalkEnd(step, len, off) == end
  {
  }

  /** A reader that finds these fragments at these offsets, and then nothing, collects them. */
  lemma {:induction false} WalkCollects(step: nat -> Step, frags: seq<Rec>, n: nat, len: nat, i: nat)
    requires i <= n <= |frags| && Offset(frags, n) <= len
    requires forall k :: i <= k < n ==> step(Offset(frags, k)) == Item(frags[k], Size(frags[k]))
    requires step(Offset(frags, n)) == Stop
    ensures Walk(step, len, Offset(frags, i)) == frags[i..n] && WalkEnd(step, len, Offset(frags, i)) == Offset(frags, n)
    decreases n - i
  {
    if i < n {
      OffsetsGrow(frags, i, n);
      WalkCollects(step, frags, n, len, i + 1);
      assert Offset(frags, i + 1) == Offset(frags, i) + Size(frags[i]);
      WalkOne(step, len, Offset(frags, i), Offset(frags, i + 1), frags[i], frags[i + 1..n], Offset(frags, n));
      assert frags[i..n] == [frags[i]] + frags[i + 1..n];
    }
  }

  /** Reading a block gives back its readable fragments, and the scan stops right behind them. */
  lemma ReadBlock(crc: Bytes -> U32, frags: seq<Rec>, size: nat)
    requires TotalSize(frags) <= size && crc(Zeros(43)) != 0
    requires forall k :: 0 <= k < |frags| ==> Fits(frags[k])
    ensures BlockRecords(crc, BlockBytes(crc, frags, size)) == Readable(frags, size)
    ensures BlockEnd(crc, BlockBytes(crc, frags, size)) == Offset(frags, ReadableCount(frags, size))
  {
    var b := BlockBytes(crc, frags, size);
    ReadBlockWith(crc, frags, size, b, Reader(crc, b));
  }

  lemma ReadBlockWith(crc: Bytes -> U32, frags: seq<Rec>, size: nat, b: Bytes, step: nat -> Step)
    requires TotalSize(frags) <= size && crc(Zeros(43)) != 0 && b == BlockBytes(crc, frags, size) && Reads(step, crc, b)
    requires forall k :: 0 <= k < |frags| ==> Fits(frags[k])
    ensures Walk(step, size, 0) == Readable(frags, size) && WalkEnd(step, size, 0) == Offset(frags, ReadableCount(frags, size))
  {
    var n := ReadableCount(frags, size);
    forall k | 0 <= k < n ensures step(Offset(frags, k)) == Item(frags[k], Size(frags[k])) {
      ReadableHasRoom(frags, size, k);
      ReadFragment(crc, frags, size, k);
    }
    ReadStops(crc, frags, size);
    if n < |frags| {
      OffsetsGrow(frags, n, |frags|);
    }
    WalkCollects(step, frags, n, size, 0);
  }

  // ------------------------------------------------------------------ damaged blocks

  /** The bytes at an offset that the sizes announced there make up. */
  ghost predicate Announced(data: Bytes, off: nat, b: Bytes) {
    && off + KEY_START < |data| && |b| == KEY_START + KeySizeAt(data, off) + ValueSizeAt(data, off)
    && off + |b| <= |data| && b == data[off..off + |b|]
  }

  /** A record is read exactly where bytes of their announced size begin with the checksum of the rest. */
  lemma ReadsExactly(crc: Bytes -> U32, data: Bytes, off: nat)
    ensures ReadStep(crc, data, off).Item? <==> exists b :: Announced(data, off, b) && b[..4] == LE(crc(b[4..]), 4)
    ensures forall b :: Announced(data, off, b) && ReadStep(crc, data, off).Item? ==> ReadStep(crc, data, off).size == |b|
  {
    if off + KEY_START < |data| && off + KEY_START + KeySizeAt(data, off) + ValueSizeAt(data, off) <= |data| {
      var n := KEY_START + KeySizeAt(data, off) + ValueSizeAt(data, off);
      var b := data[off..off + n];
      SliceSizes(data, off, n);
      DecodeChecks(crc, b);
      assert Announced(data, off, b);
    }
  }

  lemma FrontHolds(crc: Bytes -> U32, data: Bytes, frags: seq<Rec>, i: nat, k: nat)
    requires k < i <= |frags| && PackedTo(crc, frags, i) <= data
    ensures Holds(data, Offset(frags, k), Encoded(crc, frags[k]))
  {
    PackedPrefix(crc, frags, k + 1, i);
    FrontOf(PackedTo(crc, frags, k), Encoded(crc, frags[k]), PackedTo(crc, frags, k + 1), PackedTo(crc, frags, i), data);
  }

  lemma FrontOf(front: Bytes, e: Bytes, both: Bytes, more: Bytes, data: Bytes)
    requires both == front + e && both <= more <= data
    ensures Holds(data, |front|, e)
  {
    HoldsPrefix(front, e, data);
  }

  /** Fragments at the front of a block are read whatever lies behind them. */
  lemma ReadFront(crc: Bytes -> U32, data: Bytes, frags: seq<Rec>, i: nat, k: nat, off: nat)
    requires k < i <= |frags| && PackedTo(crc, frags, i) <= data && Fits(frags[k]) && off == Offset(frags, k) && |data| - off > KEY_START
    ensures ReadStep(crc, data, off) == Item(frags[k], Size(frags[k]))
  {
    FrontHolds(crc, data, frags, i, k);
    ReadEncoded(crc, data, off, frags[k]);
  }

  /**
   In a block whose first `i` fragments are as they were written, while the bytes behind them fail the checksum, by a fragment
   changed on disk for one, a reader collects just these fragments and stops right behind them.
   */
  lemma DamagedBlock(crc: Bytes -> U32, data: Bytes, frags: seq<Rec>, i: nat)
    requires i <= |frags| && PackedTo(crc, frags, i) <= data && forall k :: 0 <= k < i ==> Fits(frags[k])
    requires |data| - Offset(frags, i) > KEY_START
    requires forall b :: Announced(data, Offset(frags, i), b) ==> b[..4] != LE(crc(b[4..]), 4)
    ensures BlockRecords(crc, data) == frags[..i] && BlockEnd(crc, data) == Offset(frags, i)
  {
    ReadsExactly(crc, data, Offset(frags, i));
    WalkFront(crc, data, frags, i, Reader(crc, data));
  }

  lemma WalkFront(crc: Bytes -> U32, data: Bytes, frags: seq<Rec>, i: nat, step: nat -> Step)
    requires i <= |frags| && PackedTo(crc, frags, i) <= data && forall k :: 0 <= k < i ==> Fits(frags[k])
    requires |data| - Offset(frags, i) > KEY_START && Reads(step, crc, data) && ReadStep(crc, data, Offset(frags, i)) == Stop
    ensures Walk(step, |data|, 0) == frags[..i] && WalkEnd(step, |data|, 0) == Offset(frags, i)
  {
    forall k | 0 <= k < i ensures step(Offset(frags, k)) == Item(frags[k], Size(frags[k])) {
      OffsetsGrow(frags, k, i);
      ReadFront(crc, data, frags, i, k, Offset(frags, k));
    }
    WalkCollects(step, frags, i, |data|, 0);
    assert frags[0..i] == frags[..i];
  }
}
