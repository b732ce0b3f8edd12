/**
 Building a data block and reading it back (internal/sstable/data.go:84-160, 215-255, 280-453):
 whatever full records the builder accepted come back, in order, from any restart point.
 */
module BlockReadBack {
  import opened BitSets
  import opened BlockLayout
  import opened BlockRecords
  import opened ByteOrder
  import opened DataBlock
  import opened Encoders
  import opened IndexWidth
  import opened Keys
  import opened Options

  /** The fields fit their widths. */
  ghost predicate Addable(r: Rec) {
    r.seqId < Room(0) && r.expiresAt < Pow256(8) && r.op <= 3 && |r.key| < Room(0) && |r.value| < Room(0)
  }

  lemma AppendAssociates(a: Bytes, b: Bytes, c: Bytes, d: Bytes, e: Bytes)
    ensures a + b + c + d + e == a + (b + (c + (d + e)))
  {
  }

  lemma QuotientBound(k: nat, n: nat, interval: nat)
    requires interval > 0 && k * interval < n
    ensures k <= (n - 1) / interval
  {
    var q := (n - 1) / interval;
    assert n - 1 < (q + 1) * interval;
    assert k >= q + 1 ==> k * interval >= (q + 1) * interval;
  }

  /** A record that had room leaves a block that can be finished. */
  lemma RoomKept(prev: Bytes, item: Item, restarts: seq<nat>, items: seq<Item>, interval: nat, n: nat, before: nat, b: Bytes, mapSize: nat, blockSize: nat)
    requires interval > 0 && |items| == n + 1 && Restarts(restarts, items, interval) && b == RecBytes(prev, item.rec, item.enc)
    requires Fits(item.rec, item.enc) && (|item.enc.bytes| <= |item.rec.value| || |item.enc.bytes| <= 8) && mapSize <= n / 8 + 1
    requires before + (1 + |item.rec.key| * 2 + |item.rec.value| + 32 + 8)
             + (12 + (n / interval + 1) * 4 + (n / 8 + 1)) <= blockSize
    ensures before + |b| + 4 * |restarts| + 16 + mapSize <= blockSize
  {
    RecSize(prev, item.rec, item.enc);
    if |restarts| > 0 {
      assert RestartAt(restarts[|restarts| - 1], items, interval, |restarts| - 1);
      QuotientBound(|restarts| - 1, |items|, interval);
    }
  }

  lemma ItemMade(r: Rec, e: EncodedValue, keys: seq<Bytes>)
    requires Fits(r, e) && Encodes(keys, e, r.value)
    ensures MadeWith(Item(r, e, |keys|), keys)
  {
    assert keys[..|keys|] == keys;
  }

  /** One record more, with its key behind the last one or, when a restart is due, whole. */
  lemma Appended(items: seq<Item>, interval: nat, data: Bytes, restarts: seq<nat>, entryIndex: nat, prevKey: Bytes,
                 keys: seq<Bytes>, bits: seq<bool>, item: Item, items': seq<Item>, data': Bytes, restarts': seq<nat>,
                 entryIndex': nat, keys': seq<Bytes>, bits': seq<bool>, due: bool, mapSize: nat, blockSize: nat)
    requires Built(items, interval, data, restarts, entryIndex, prevKey, keys, bits) && items' == items + [item]
    requires due == (entryIndex == 0 || entryIndex == interval)
    requires data' == data + RecBytes(if due then [] else prevKey, item.rec, item.enc)
    requires restarts' == (if due then restarts + [|data|] else restarts) && entryIndex' == if due then 1 else entryIndex + 1
    requires keys <= keys' && MadeWith(item, keys') && Marks(bits', items')
    requires (|item.enc.bytes| <= |item.rec.value| || |item.enc.bytes| <= 8) && mapSize <= |items| / 8 + 1
    requires |data| + (1 + |item.rec.key| * 2 + |item.rec.value| + 32 + 8)
             + (12 + (|items| / interval + 1) * 4 + (|items| / 8 + 1)) <= blockSize
    ensures Built(items', interval, data', restarts', entryIndex', item.rec.key, keys', bits')
    ensures |data'| + 4 * |restarts'| + 16 + mapSize <= blockSize
  {
    var b := RecBytes(if due then [] else prevKey, item.rec, item.enc);
    BuiltSnoc(items, interval, data, restarts, entryIndex, prevKey, keys, bits, item, items', data', restarts', entryIndex', keys', bits', b);
    RoomKept(if due then [] else prevKey, item, restarts', items', interval, |items|, |data|, b, mapSize, blockSize);
  }

  function Values(recs: seq<Rec>): (vs: seq<Bytes>)
    ensures |vs| == |recs| && forall i :: 0 <= i < |vs| ==> vs[i] == recs[i].value
  {
    seq(|recs|, i requires 0 <= i < |recs| => recs[i].value)
  }

  /** The record as it is written with this dictionary. */
  ghost function Written(r: Rec, keys: seq<Bytes>): Item { Item(r, Coded(keys, r.value), |keys|) }

  /** The records as they are written one after the other, the dictionary growing on the way. */
  ghost function ItemsFor(recs: seq<Rec>, d: DictState, threshold: nat, window: nat): (items: seq<Item>)
    ensures |items| == |recs|
  {
    if recs == [] then []
    else ItemsFor(recs[..|recs| - 1], d, threshold, window)
         + [Written(recs[|recs| - 1], GrownBy(d, Values(recs), threshold, window).keys)]
  }

  /** The size test of `AddRecord`, from what is in the block. */
  ghost predicate RoomFor(items: seq<Item>, interval: nat, blockSize: nat, r: Rec)
    requires interval > 0
  {
    |DataTo(items, interval, |items|)| + (1 + |r.key| * 2 + |r.value| + 32 + 8)
    + (12 + (|items| / interval + 1) * 4 + (|items| / 8 + 1)) <= blockSize
  }

  class DataBlockBuilder {
    const interval: nat
    const blockSize: nat
    const encoder: DeltaEncoder
    const valueEncoder: AdaptiveEncoder
    const isEncodedBits: BitSet
    var data: Bytes
    var recordCount: nat
    var firstKey: Bytes
    var lastKey: Bytes
    ghost var items: seq<Item>

    /** What is there fits the block with restart array, bitmap, sizes and checksum. */
    ghost predicate Finishable()
      reads this, encoder, isEncodedBits
    {
      |data| + 4 * |encoder.restartArray| + 16 + |isEncodedBits.bits| / 8 <= blockSize
    }

    ghost predicate Valid()
      reads this, encoder, valueEncoder, isEncodedBits
    {
      && encoder.restartInterval == interval && recordCount == |items| && valueEncoder.Valid() && isEncodedBits.Valid()
      && |isEncodedBits.bits| / 8 <= recordCount / 8 + 1 && (recordCount > 0 ==> Finishable())
      && Built(items, interval, data, encoder.restartArray, encoder.entryIndex, encoder.prevKey, valueEncoder.keys, isEncodedBits.bits)
    }

    constructor (interval: nat, blockSize: nat, valueEncoder: AdaptiveEncoder)
      requires interval > 0 && valueEncoder.Valid()
      ensures Valid() && items == [] && this.valueEncoder == valueEncoder && this.interval == interval && this.blockSize == blockSize
      ensures fresh(encoder) && fresh(isEncodedBits) && firstKey == [] && lastKey == []
    {
      this.interval, this.blockSize, this.valueEncoder := interval, blockSize, valueEncoder;
      encoder := new DeltaEncoder(interval);
      isEncodedBits := new BitSet();
      data, recordCount, items := [], 0, [];
      firstKey, lastKey := [], [];
    }

    /** The size test of `AddRecord`. */
    predicate HasRoom(r: Rec)
      requires interval > 0
      reads this
    {
      var estimated := 1 + |r.key| * 2 + |r.value| + 32 + 8;
      var reserved := 12 + (recordCount / interval + 1) * 4 + (recordCount / 8 + 1);
      |data| + estimated + reserved <= blockSize
    }

    /**
     `AddRecord`: refused without room; otherwise the record is behind the others. Its key becomes the last
     key either way, and the first one if there is none yet.
     */
    method AddRecord(r: Rec) returns (ok: bool)
      requires Valid() && Addable(r) && |valueEncoder.keys| < Room(0)
      modifies this, encoder, valueEncoder, isEncodedBits
      ensures Valid() && ok == old(HasRoom(r)) == RoomFor(old(items), interval, blockSize, r)
      ensures lastKey == r.key && firstKey == if old(firstKey) == [] then r.key else old(firstKey)
      ensures !ok ==> items == old(items) && valueEncoder.State() == old(valueEncoder.State())
      ensures old(valueEncoder.keys) <= valueEncoder.keys && |valueEncoder.keys| <= |old(valueEncoder.keys)| + 1
      ensures ok ==> items == old(items) + [Written(r, valueEncoder.keys)]
      ensures ok ==> valueEncoder.State() == Grown(old(valueEncoder.State()), r.value, valueEncoder.threshold, valueEncoder.windowSize)
    {
      if firstKey == [] {
        firstKey := r.key;
      }
      lastKey := r.key;
      var estimated := 1 + |r.key| * 2 + |r.value| + 32 + 8;
      var reserved := 12 + (recordCount / interval + 1) * 4 + (recordCount / 8 + 1);
      if |data| + estimated + reserved > blockSize {
        return false;
      }
      Append(r);
      ok := true;
    }

    method Append(r: Rec)
      requires Valid() && Addable(r) && |valueEncoder.keys| < Room(0) && HasRoom(r)
      modifies this`data, this`recordCount, this`items, encoder, valueEncoder, isEncodedBits
      ensures Valid() && items == old(items) + [Written(r, valueEncoder.keys)]
      ensures valueEncoder.State() == Grown(old(valueEncoder.State()), r.value, valueEncoder.threshold, valueEncoder.windowSize)
      ensures old(valueEncoder.keys) <= valueEncoder.keys && |valueEncoder.keys| <= |old(valueEncoder.keys)| + 1
    {
      ghost var keys0 := valueEncoder.keys;
      var e, item := EncodeValue(r);
      Put(r, e, item, keys0);
    }

    /** The encoded record behind the others. */
    method Put(r: Rec, e: EncodedValue, ghost item: Item, ghost keys0: seq<Bytes>)
      requires encoder.restartInterval == interval && recordCount == |items| && valueEncoder.Valid() && isEncodedBits.Valid()
      requires |isEncodedBits.bits| / 8 <= recordCount / 8 + 1 && keys0 <= valueEncoder.keys
      requires Built(items, interval, data, encoder.restartArray, encoder.entryIndex, encoder.prevKey, keys0, isEncodedBits.bits)
      requires item.rec == r && item.enc == e && MadeWith(item, valueEncoder.keys) && (|e.bytes| <= |r.value| || |e.bytes| <= 8) && HasRoom(r)
      modifies this`data, this`recordCount, this`items, encoder, isEncodedBits
      ensures Valid() && items == old(items) + [item]
    {
      ghost var due := encoder.AtRestart();
      ghost var data0, restarts0, index0, prev0, bits0 :=
        data, encoder.restartArray, encoder.entryIndex, encoder.prevKey, isEncodedBits.bits;
      WriteRecord(r, e);
      MarkItem(e.isEncoded, item);
      recordCount := recordCount + 1;
      Appended(items, interval, data0, restarts0, index0, prev0, keys0, bits0, item, items + [item], data,
               encoder.restartArray, encoder.entryIndex, valueEncoder.keys, isEncodedBits.bits,
               due, |isEncodedBits.bits| / 8, blockSize);
      items := items + [item];
    }

    /** The value's turn: into the dictionary if it is frequent, and encoded. */
    method EncodeValue(r: Rec) returns (e: EncodedValue, ghost item: Item)
      requires valueEncoder.Valid() && |valueEncoder.keys| < Room(0) && Addable(r)
      modifies valueEncoder
      ensures valueEncoder.Valid() && old(valueEncoder.keys) <= valueEncoder.keys && |valueEncoder.keys| <= |old(valueEncoder.keys)| + 1
      ensures valueEncoder.State() == Grown(old(valueEncoder.State()), r.value, valueEncoder.threshold, valueEncoder.windowSize)
      ensures item == Written(r, valueEncoder.keys) && item.enc == e && MadeWith(item, valueEncoder.keys)
      ensures |e.bytes| <= |r.value| || |e.bytes| <= 8
    {
      valueEncoder.AddToDict(r.value);
      e := valueEncoder.Encode(r.value);
      RoomIs64Bits();
      SixtyFour();
      EightBytes(|valueEncoder.keys|);
      item := Item(r, e, |valueEncoder.keys|);
      ItemMade(r, e, valueEncoder.keys);
    }

    /** The record's bytes behind the others. */
    method WriteRecord(r: Rec, e: EncodedValue)
      modifies this`data, encoder
      ensures data == old(data) + RecBytes(if old(encoder.AtRestart()) then [] else old(encoder.prevKey), r, e)
      ensures encoder.restartArray == if old(encoder.AtRestart()) then old(encoder.restartArray) + [|old(data)|] else old(encoder.restartArray)
      ensures encoder.prevKey == r.key && encoder.entryIndex == if old(encoder.AtRestart()) then 1 else old(encoder.entryIndex) + 1
    {
      ghost var prev := if encoder.AtRestart() then [] else encoder.prevKey;
      var withKey := encoder.Encode(r.key, |data|, data + Head(r));
      AppendAssociates(data, Head(r), KeyBytes(prev, r.key), Uvarint(|e.bytes|), e.bytes);
      data := withKey + Uvarint(|e.bytes|) + e.bytes;
    }

    /** The bit of the record at hand. */
    method MarkItem(isEncoded: bool, ghost item: Item)
      requires isEncodedBits.Valid() && recordCount == |items| && Marks(isEncodedBits.bits, items) && item.enc.isEncoded == isEncoded
      requires |isEncodedBits.bits| / 8 <= recordCount / 8 + 1
      modifies isEncodedBits
      ensures isEncodedBits.Valid() && Marks(isEncodedBits.bits, items + [item])
      ensures |isEncodedBits.bits| / 8 <= recordCount / 8 + 1
    {
      if isEncoded {
        isEncodedBits.Set(recordCount);
      }
    }
  }

  class DataBlockReader {
    const data: Bytes
    const restartArray: seq<nat>
    const isEncodedBits: seq<bool>
    const keys: seq<Bytes>
    const decoder: DeltaEncoder
    var pos: nat
    var recordIdx: nat

    constructor (p: Parsed, interval: nat, keys: seq<Bytes>)
      ensures data == p.data && restartArray == p.restarts && isEncodedBits == FromBytes(p.bitmap) && this.keys == keys
      ensures fresh(decoder) && decoder.restartInterval == interval && pos == 0 && recordIdx == 0
    {
      data, restartArray, isEncodedBits, this.keys := p.data, p.restarts, FromBytes(p.bitmap), keys;
      decoder := new DeltaEncoder(interval);
      pos, recordIdx := 0, 0;
    }

    /** The block holds these items. */
    ghost predicate Over(items: seq<Item>, interval: nat) {
      && interval > 0 && decoder.restartInterval == interval && data == DataTo(items, interval, |items|)
      && Restarts(restartArray, items, interval) && Made(items, keys) && Marks(isEncodedBits, items)
    }

    /** The reader is about to read item `i`. */
    ghost predicate At(items: seq<Item>, interval: nat, i: nat)
      requires interval > 0
      reads this, decoder
    {
      i <= |items| && pos == |DataTo(items, interval, i)| && recordIdx == i && Suits(items, interval, i, decoder.prevKey)
    }

    /** `ReadRecord` of a full record. */
    method ReadRecord() returns (r: Option<Rec>)
      modifies this, decoder`prevKey
      ensures var expected := ReadRec(data, old(pos), old(decoder.prevKey), Get(isEncodedBits, old(recordIdx)), keys);
              if expected.None? then r.None?
              else r == Some(expected.value.0) && pos == expected.value.1 && recordIdx == old(recordIdx) + 1
                   && decoder.prevKey == expected.value.0.key
    {
      var h := ReadHead(data, pos);
      if h.NoHead? {
        return None;
      }
      var key := decoder.Decode(data, h.pos);
      if key.None? {
        return None;
      }
      var raw := ReadValue(data, key.value.1);
      if raw.None? {
        return None;
      }
      var value := DecodeValue(keys, EncodedValue(Get(isEncodedBits, recordIdx), raw.value.0));
      if value.None? {
        return None;
      }
      pos, recordIdx := raw.value.1, recordIdx + 1;
      return Some(Rec(h.seqId, h.expiresAt, h.op, key.value.0, value.value));
    }

    /** `SeekToRestart`: an error for a number out of range. */
    method SeekToRestart(k: int) returns (ok: bool)
      modifies this, decoder
      ensures ok <==> (k == 0 && restartArray == []) || 0 <= k < |restartArray|
      ensures ok ==> decoder.prevKey == [] && recordIdx == k * decoder.restartInterval
      ensures ok ==> pos == if restartArray == [] then 0 else restartArray[k]
    {
      if k == 0 && |restartArray| == 0 {
        pos, recordIdx := 0, 0;
        decoder.Reset();
        return true;
      }
      if k < 0 || k >= |restartArray| {
        return false;
      }
      pos := restartArray[k];
      decoder.Reset();
      recordIdx := k * decoder.restartInterval;
      return true;
    }

    /** The next item. */
    method ReadNext(ghost items: seq<Item>, ghost interval: nat, ghost i: nat) returns (r: Option<Rec>)
      requires Over(items, interval) && i < |items| && At(items, interval, i)
      modifies this, decoder`prevKey
      ensures if Decodes(items[i], keys) then r == Some(items[i].rec) && At(items, interval, i + 1) else r.None?
    {
      ReadItem(items, interval, i, data, decoder.prevKey, keys, pos, |DataTo(items, interval, i + 1)|);
      r := ReadRecord();
    }

    /** `HasNext`. */
    method HasNext(ghost items: seq<Item>, ghost interval: nat, ghost i: nat) returns (more: bool)
      requires Over(items, interval) && At(items, interval, i)
      ensures more <==> i < |items|
    {
      MoreData(items, interval, i, pos, |data|);
      more := pos < |data|;
    }

    /** From restart point `k`: the records from there on, up to the first that does not decode. */
    method ReadFrom(k: nat, ghost items: seq<Item>, ghost interval: nat) returns (recs: seq<Rec>, ok: bool)
      requires Over(items, interval) && k < |restartArray|
      modifies this, decoder
      ensures 0 <= k * interval <= |items| && ReadUpTo(items, keys, k * interval, recs, ok)
    {
      var _ := SeekToRestart(k);
      ghost var start := k * interval;
      assert RestartAt(restartArray[k], items, interval, k);
      assert At(items, interval, start) by {
        ModUnique(start, interval, k, 0);
      }
      recs, ok := ReadRest(items, interval, start);
    }

    method ReadRest(ghost items: seq<Item>, ghost interval: nat, ghost start: nat) returns (recs: seq<Rec>, ok: bool)
      requires Over(items, interval) && At(items, interval, start)
      modifies this, decoder`prevKey
      ensures ReadUpTo(items, keys, start, recs, ok)
    {
      recs, ok := [], true;
      ghost var i := start;
      ghost var all := RecsOf(items);
      assert ReadTo(items, interval, start, i, all, recs);
      while true
        invariant ok && ReadTo(items, interval, start, i, all, recs)
        decreases |items| - i
      {
        var more := HasNext(items, interval, i);
        ReadAll(items, interval, start, i, recs);
        if !more {
          return;
        }
        ghost var next := i + 1;
        recs, ok := ReadOneMore(items, interval, start, i, next, all, recs);
        if !ok {
          return;
        }
        i := next;
      }
    }

    lemma ReadAll(items: seq<Item>, interval: nat, start: nat, i: nat, recs: seq<Rec>)
      requires interval > 0 && ReadTo(items, interval, start, i, RecsOf(items), recs)
      ensures i == |items| ==> ReadUpTo(items, keys, start, recs, true)
      ensures i < |items| && !Decodes(items[i], keys) ==> ReadUpTo(items, keys, start, recs, false)
    {
    }

    /** The items from `start` to `i` have been read. */
    ghost predicate ReadTo(items: seq<Item>, interval: nat, start: nat, i: nat, all: seq<Rec>, recs: seq<Rec>)
      requires interval > 0
      reads this, decoder
    {
      && start <= i <= |items| && i <= |all| && At(items, interval, i) && recs == all[start..i]
      && forall j :: start <= j < i ==> Decodes(items[j], keys)
    }

    method ReadOneMore(ghost items: seq<Item>, ghost interval: nat, ghost start: nat, ghost i: nat, ghost next: nat, ghost all: seq<Rec>,
                       recs: seq<Rec>)
      returns (recs': seq<Rec>, ok: bool)
      requires next == i + 1 && Over(items, interval) && i < |items| && all == RecsOf(items) && ReadTo(items, interval, start, i, all, recs)
      modifies this, decoder`prevKey
      ensures ok <==> Decodes(items[i], keys)
      ensures if ok then ReadTo(items, interval, start, next, all, recs') else recs' == recs
    {
      TakeOneMore(all, start, i);
      var r := ReadNext(items, interval, i);
      ok := r.Some?;
      recs' := if ok then recs + [r.value] else recs;
    }
  }

  /** The records from `start` on have been read, up to the first item that does not decode; `ok` if there is none. */
  ghost predicate ReadUpTo(items: seq<Item>, keys: seq<Bytes>, start: nat, recs: seq<Rec>, ok: bool) {
    var n := start + |recs|;
    && n <= |items| && recs == RecsOf(items)[start..n] && (forall i :: start <= i < n ==> Decodes(items[i], keys))
    && (if ok then n == |items| else n < |items| && !Decodes(items[n], keys))
  }

  ghost function RecsOf(items: seq<Item>): (recs: seq<Rec>)
    ensures |recs| == |items| && forall i :: 0 <= i < |recs| ==> recs[i] == items[i].rec
  {
    seq(|items|, i requires 0 <= i < |items| => items[i].rec)
  }

  lemma TakeOneMore(recs: seq<Rec>, start: nat, i: nat)
    requires start <= i < |recs|
    ensures recs[start..i + 1] == recs[start..i] + [recs[i]]
  {
  }

  lemma BlockParses(crc: Bytes -> U32, items: seq<Item>, interval: nat, data: Bytes, restarts: seq<nat>, bitmap: Bytes, blockSize: nat,
                    block: Bytes)
    requires interval > 0 && Restarts(restarts, items, interval) && data == DataTo(items, interval, |items|)
    requires |bitmap| < 0x1_0000 && |data| + 4 * |restarts| + 14 + |bitmap| <= blockSize < 0x1_0000_0000
    requires block == Block(crc, data, restarts, blockSize - |data| - 4 * |restarts| - 14 - |bitmap|, bitmap)
    ensures Parse(crc, block) == Some(Parsed(data, restarts, bitmap))
  {
    PowSizes();
    forall k | 0 <= k < |restarts| ensures restarts[k] < Pow256(4) {
      assert RestartAt(restarts[k], items, interval, k);
      RestartInData(restarts[k], items, interval, k, |data|);
    }
    ParseRoundTrip(crc, data, restarts, blockSize - |data| - 4 * |restarts| - 14 - |bitmap|, bitmap, block);
  }

  method FinishParts(crc: Bytes -> U32, ghost items: seq<Item>, ghost interval: nat, data: Bytes, restarts: seq<nat>, bitmap: Bytes,
                     recordCount: nat, blockSize: nat) returns (block: Option<Bytes>)
    requires interval > 0 && Restarts(restarts, items, interval) && data == DataTo(items, interval, |items|)
    requires |bitmap| < 0x1_0000 && blockSize < 0x1_0000_0000
    requires recordCount > 0 ==> |data| + 4 * |restarts| + 16 + |bitmap| <= blockSize
    ensures block.Some? <==> recordCount > 0
    ensures block.Some? ==> |block.value| == blockSize && Parse(crc, block.value) == Some(Parsed(data, restarts, bitmap))
  {
    block := Finish(crc, data, restarts, bitmap, recordCount, blockSize);
    if block.Some? {
      BlockParses(crc, items, interval, data, restarts, bitmap, blockSize, block.value);
    }
  }

  lemma BitmapSmall(items: seq<Item>, interval: nat, size: nat, bitmap: nat, blockSize: nat)
    requires interval > 0 && size == |DataTo(items, interval, |items|)| && bitmap <= |items| / 8 + 1 && blockSize < 0x7_FFF0
    requires |items| > 0 ==> size <= blockSize
    ensures bitmap < 0x1_0000
  {
    CountBelowSize(items, interval, |items|);
  }

  /** `Finish` never refuses what `AddRecord` accepted, and the block parses back to the builder's parts. */
  method FinishBlock(crc: Bytes -> U32, b: DataBlockBuilder) returns (block: Option<Bytes>, ghost bitmap: Bytes)
    requires b.Valid() && b.blockSize < 0x7_FFF0
    ensures block.Some? <==> b.items != []
    ensures block.Some? ==> |block.value| == b.blockSize
                            && Parse(crc, block.value) == Some(Parsed(b.data, b.encoder.restartArray, bitmap))
                            && Marks(FromBytes(bitmap), b.items)
  {
    var encoded := b.isEncodedBits.Encode();
    bitmap := encoded;
    BitmapSmall(b.items, b.interval, |b.data|, |encoded|, b.blockSize);
    block := FinishParts(crc, b.items, b.interval, b.data, b.encoder.restartArray, encoded, b.recordCount, b.blockSize);
  }

  /** Every record takes a byte at least. */
  lemma {:induction false} CountBelowSize(items: seq<Item>, interval: nat, n: nat)
    requires interval > 0 && n <= |items|
    ensures n <= |DataTo(items, interval, n)|
  {
    if n > 0 {
      CountBelowSize(items, interval, n - 1);
    }
  }

  lemma SixtyFour()
    ensures Pow2(64) == 0x1_0000_0000_0000_0000
  {
    Pow2Bytes(8);
    assert Pow256(4) == 0x1_0000_0000;
    assert Pow256(6) == 0x1_0000_0000_0000;
    assert Pow256(8) == 0x1_0000_0000_0000_0000;
  }

  lemma PowSizes()
    ensures Pow256(2) == 0x1_0000 && Pow256(4) == 0x1_0000_0000
  {
    assert Pow256(1) == 256 && Pow256(2) == 65536 && Pow256(3) == 16777216 && Pow256(4) == 4294967296;
  }

  lemma RestartInData(offset: nat, items: seq<Item>, interval: nat, k: nat, size: nat)
    requires interval > 0 && RestartAt(offset, items, interval, k) && size == |DataTo(items, interval, |items|)|
    ensures offset <= size
  {
    DataPrefix(items, interval, k * interval, |items|);
  }

  lemma {:induction false} RecsOfItems(recs: seq<Rec>, d: DictState, threshold: nat, window: nat)
    ensures RecsOf(ItemsFor(recs, d, threshold, window)) == recs
  {
    if recs != [] {
      var n := |recs| - 1;
      RecsOfItems(recs[..n], d, threshold, window);
      var items, front := ItemsFor(recs, d, threshold, window), ItemsFor(recs[..n], d, threshold, window);
      forall i | 0 <= i < |recs| ensures RecsOf(items)[i] == recs[i] {
        if i < n {
          assert items[i] == front[i] && RecsOf(front)[i] == recs[..n][i];
        }
      }
    }
  }

  lemma ItemsForNext(recs: seq<Rec>, n: nat, d: DictState, threshold: nat, window: nat)
    requires n < |recs|
    ensures var after := GrownBy(d, Values(recs[..n + 1]), threshold, window);
            && after == Grown(GrownBy(d, Values(recs[..n]), threshold, window), recs[n].value, threshold, window)
            && ItemsFor(recs[..n + 1], d, threshold, window) == ItemsFor(recs[..n], d, threshold, window) + [Written(recs[n], after.keys)]
  {
    assert Values(recs[..n + 1]) == Values(recs[..n]) + [recs[n].value];
    GrownByOne(d, Values(recs[..n]), recs[n].value, threshold, window);
    assert recs[..n + 1][..n] == recs[..n];
  }

  /** The first `n` records are in, each written as it had to be and with room for it. */
  ghost predicate Accepted(items: seq<Item>, recs: seq<Rec>, n: nat, interval: nat, blockSize: nat, d: DictState, threshold: nat, window: nat)
    requires interval > 0
  {
    && n <= |recs| && items == ItemsFor(recs[..n], d, threshold, window)
    && forall j :: 0 <= j < n ==> RoomFor(items[..j], interval, blockSize, recs[j])
  }

  lemma RoomForFront(items: seq<Item>, item: Item, recs: seq<Rec>, n: nat, interval: nat, blockSize: nat)
    requires interval > 0 && |items| == n < |recs| && RoomFor(items, interval, blockSize, recs[n])
    requires forall j :: 0 <= j < n ==> RoomFor(items[..j], interval, blockSize, recs[j])
    ensures forall j :: 0 <= j < n + 1 ==> RoomFor((items + [item])[..j], interval, blockSize, recs[j])
  {
    forall j | 0 <= j < n + 1 ensures RoomFor((items + [item])[..j], interval, blockSize, recs[j]) {
      assert (items + [item])[..j] == items[..j];
      assert j == n ==> items[..j] == items;
    }
  }

  lemma AcceptedNext(items: seq<Item>, recs: seq<Rec>, n: nat, interval: nat, blockSize: nat, d: DictState, threshold: nat, window: nat, item: Item)
    requires interval > 0 && n < |recs| && Accepted(items, recs, n, interval, blockSize, d, threshold, window)
    requires RoomFor(items, interval, blockSize, recs[n])
    requires item == Written(recs[n], GrownBy(d, Values(recs[..n + 1]), threshold, window).keys)
    ensures Accepted(items + [item], recs, n + 1, interval, blockSize, d, threshold, window)
  {
    ItemsForNext(recs, n, d, threshold, window);
    RoomForFront(items, item, recs, n, interval, blockSize);
  }

  /** Adding records one after the other until one is refused. */
  method AddAll(b: DataBlockBuilder, recs: seq<Rec>) returns (n: nat)
    requires b.Valid() && b.items == [] && forall i :: 0 <= i < |recs| ==> Addable(recs[i])
    requires |b.valueEncoder.keys| + |recs| < Room(0)
    modifies b, b.encoder, b.valueEncoder, b.isEncodedBits
    ensures b.Valid() && |b.items| == n <= |recs|
    ensures Accepted(b.items, recs, n, b.interval, b.blockSize, old(b.valueEncoder.State()), b.valueEncoder.threshold, b.valueEncoder.windowSize)
    ensures n < |recs| ==> !RoomFor(b.items, b.interval, b.blockSize, recs[n])
    ensures b.valueEncoder.State()
            == GrownBy(old(b.valueEncoder.State()), Values(recs[..n]), b.valueEncoder.threshold, b.valueEncoder.windowSize)
  {
    ghost var d, th, w := b.valueEncoder.State(), b.valueEncoder.threshold, b.valueEncoder.windowSize;
    n := 0;
    while n < |recs|
      invariant n <= |recs| && b.Valid() && |b.items| == n
      invariant Accepted(b.items, recs, n, b.interval, b.blockSize, d, th, w)
      invariant b.valueEncoder.State() == GrownBy(d, Values(recs[..n]), th, w)
      invariant |b.valueEncoder.keys| <= |old(b.valueEncoder.keys)| + n
    {
      ghost var items := b.items;
      var ok := b.AddRecord(recs[n]);
      if !ok {
        return;
      }
      ItemsForNext(recs, n, d, th, w);
      AcceptedNext(items, recs, n, b.interval, b.blockSize, d, th, w, b.items[n]);
      n := n + 1;
    }
  }

  lemma GrownByNext(d: DictState, values: seq<Bytes>, i: nat, threshold: nat, window: nat)
    requires i < |values|
    ensures GrownBy(d, values[..i + 1], threshold, window) == Grown(GrownBy(d, values[..i], threshold, window), values[i], threshold, window)
  {
    assert values[..i + 1] == values[..i] + [values[i]];
    GrownByOne(d, values[..i], values[i], threshold, window);
  }

  /** The dictionary goes on growing while the blocks behind this one are written. */
  method AddValues(valueEncoder: AdaptiveEncoder, values: seq<Bytes>)
    requires valueEncoder.Valid()
    modifies valueEncoder
    ensures valueEncoder.Valid() && old(valueEncoder.keys) <= valueEncoder.keys
    ensures valueEncoder.State() == GrownBy(old(valueEncoder.State()), values, valueEncoder.threshold, valueEncoder.windowSize)
  {
    ghost var d := valueEncoder.State();
    for i := 0 to |values|
      invariant valueEncoder.Valid() && old(valueEncoder.keys) <= valueEncoder.keys
      invariant valueEncoder.State() == GrownBy(d, values[..i], valueEncoder.threshold, valueEncoder.windowSize)
    {
      GrownByNext(d, values, i, valueEncoder.threshold, valueEncoder.windowSize);
      valueEncoder.AddToDict(values[i]);
    }
    assert values[..|values|] == values;
  }

  /** A parsed block read from restart point `k`, if there is one. */
  method ReadBack(p: Parsed, interval: nat, keys: seq<Bytes>, k: nat, ghost items: seq<Item>) returns (recs: Option<seq<Rec>>, ok: bool)
    requires interval > 0 && p.data == DataTo(items, interval, |items|) && Restarts(p.restarts, items, interval)
    requires Made(items, keys) && Marks(FromBytes(p.bitmap), items)
    ensures recs.Some? <==> k < |p.restarts|
    ensures recs.Some? ==> 0 <= k * interval <= |items| && ReadUpTo(items, keys, k * interval, recs.value, ok)
  {
    var reader := new DataBlockReader(p, interval, keys);
    if k >= |reader.restartArray| {
      return None, false;
    }
    var all;
    all, ok := reader.ReadFrom(k, items, interval);
    return Some(all), ok;
  }

  /**
   A block built, finished, parsed and, after any number of further values went through the dictionary,
   read from any restart point. The first `n` records are in it, up to one that has no room, each with its
   place in the dictionary of that moment if it is frequent enough. They come back from the restart point on,
   all of them if and only if each dictionary position among them still takes as many bytes; and so always
   while the dictionary keeps to 256 values.
   */
  method WriteAndReadBack(crc: Bytes -> U32, interval: nat, blockSize: nat, valueEncoder: AdaptiveEncoder, recs: seq<Rec>,
                          more: seq<Bytes>, k: nat)
    returns (n: nat, readBack: Option<seq<Rec>>, ok: bool, ghost items: seq<Item>)
    requires interval > 0 && blockSize < 0x7_FFF0 && valueEncoder.Valid() && |valueEncoder.keys| + |recs| < Room(0)
    requires forall i :: 0 <= i < |recs| ==> Addable(recs[i])
    modifies valueEncoder
    ensures Accepted(items, recs, n, interval, blockSize, old(valueEncoder.State()), valueEncoder.threshold, valueEncoder.windowSize)
    ensures n < |recs| ==> !RoomFor(items, interval, blockSize, recs[n])
    ensures valueEncoder.State() == GrownBy(GrownBy(old(valueEncoder.State()), Values(recs[..n]), valueEncoder.threshold, valueEncoder.windowSize),
                                            more, valueEncoder.threshold, valueEncoder.windowSize)
    ensures RecsOf(items) == recs[..n] && Made(items, valueEncoder.keys)
    ensures readBack.Some? <==> 0 <= k * interval < n
    ensures readBack.Some? ==> ReadUpTo(items, valueEncoder.keys, k * interval, readBack.value, ok)
    ensures readBack.Some? ==> (ok <==> readBack.value == recs[..n][k * interval..])
    ensures readBack.Some? ==> (ok <==> forall i :: k * interval <= i < n ==> Decodes(items[i], valueEncoder.keys))
    ensures readBack.Some? && |valueEncoder.keys| <= 256 ==> ok
  {
    ghost var d := valueEncoder.State();
    var b := new DataBlockBuilder(interval, blockSize, valueEncoder);
    n := AddAll(b, recs);
    items := b.items;
    RecsOfItems(recs[..n], d, valueEncoder.threshold, valueEncoder.windowSize);
    readBack, ok := FinishAndRead(crc, b, more, k);
    if readBack.Some? {
      AllOrLess(items, valueEncoder.keys, k * interval, readBack.value, ok, recs[..n]);
    }
  }

  lemma AllOrLess(items: seq<Item>, keys: seq<Bytes>, start: nat, recs: seq<Rec>, ok: bool, all: seq<Rec>)
    requires ReadUpTo(items, keys, start, recs, ok) && all == RecsOf(items) && start <= |all| && Made(items, keys)
    ensures ok <==> recs == all[start..]
    ensures ok <==> forall i :: start <= i < |all| ==> Decodes(items[i], keys)
    ensures |keys| <= 256 ==> ok
  {
    if |keys| <= 256 {
      SmallDictionary(items, keys);
    }
  }

  /** `Finish`, then a reader on the block's bytes with the dictionary as it has become. */
  method FinishAndRead(crc: Bytes -> U32, b: DataBlockBuilder, more: seq<Bytes>, k: nat) returns (readBack: Option<seq<Rec>>, ok: bool)
    requires b.Valid() && b.blockSize < 0x7_FFF0
    modifies b.valueEncoder
    ensures b.valueEncoder.Valid() && Made(b.items, b.valueEncoder.keys)
    ensures b.valueEncoder.State() == GrownBy(old(b.valueEncoder.State()), more, b.valueEncoder.threshold, b.valueEncoder.windowSize)
    ensures readBack.Some? <==> 0 <= k * b.interval < |b.items|
    ensures readBack.Some? ==> ReadUpTo(b.items, b.valueEncoder.keys, k * b.interval, readBack.value, ok)
  {
    var block, bitmap := FinishBlock(crc, b);
    RestartExists(b.encoder.restartArray, b.items, b.interval, k);
    ghost var keys := b.valueEncoder.keys;
    AddValues(b.valueEncoder, more);
    MadeLater(b.items, keys, b.valueEncoder.keys);
    if block.None? {
      return None, false;
    }
    var parsed := Parse(crc, block.value);
    readBack, ok := ReadBack(parsed.value, b.interval, b.valueEncoder.keys, k, b.items);
  }

  /** There is a restart point `k` exactly when there are records from there on. */
  lemma RestartExists(restarts: seq<nat>, items: seq<Item>, interval: nat, k: nat)
    requires interval > 0 && Restarts(restarts, items, interval)
    ensures k < |restarts| <==> 0 <= k * interval < |items|
  {
    if k < |restarts| {
      assert RestartAt(restarts[k], items, interval, k);
    } else {
      assert k * interval >= |restarts| * interval;
    }
  }
}
