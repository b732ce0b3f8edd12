/**
 Data blocks (internal/sstable/data.go:84-255, 280-453): building one from full records, its layout,
 and reading the records back from the start or from any restart point.
 */
module DataBlock {
  import opened BitSets
  import opened BlockRecords
  import opened ByteOrder
  import opened Encoders
  import opened IndexWidth
  import opened Keys
  import opened Options

  // ------------------------------------------------------------------ the data section

  /** A record, the encoding its value got, and the size of the dictionary then. */
  datatype Item = Item(rec: Rec, enc: EncodedValue, size: nat)

  /** The key a record is written behind: none at a restart point. */
  function Prev(items: seq<Item>, interval: nat, i: nat): Bytes
    requires interval > 0 && i <= |items|
  {
    if i % interval == 0 then [] else items[i - 1].rec.key
  }

  function DataTo(items: seq<Item>, interval: nat, n: nat): (data: Bytes)
    requires interval > 0 && n <= |items|
  {
    if n == 0 then []
    else DataTo(items, interval, n - 1) + RecBytes(Prev(items, interval, n - 1), items[n - 1].rec, items[n - 1].enc)
  }

  lemma {:induction false} DataPrefix(items: seq<Item>, interval: nat, i: nat, n: nat)
    requires interval > 0 && i <= n <= |items|
    ensures DataTo(items, interval, i) <= DataTo(items, interval, n)
    decreases n
  {
    if i < n {
      DataPrefix(items, interval, i, n - 1);
    }
  }

  lemma {:induction false} DataGrows(items: seq<Item>, interval: nat, i: nat, n: nat)
    requires interval > 0 && i < n <= |items|
    ensures |DataTo(items, interval, i)| < |DataTo(items, interval, n)|
    decreases n
  {
    if i < n - 1 {
      DataGrows(items, interval, i, n - 1);
    }
  }

  lemma MoreData(items: seq<Item>, interval: nat, i: nat, pos: nat, size: nat)
    requires interval > 0 && i <= |items| && pos == |DataTo(items, interval, i)| && size == |DataTo(items, interval, |items|)|
    ensures pos < size <==> i < |items|
  {
    if i < |items| {
      DataGrows(items, interval, i, |items|);
    }
  }

  lemma {:induction false} DataSame(items: seq<Item>, item: Item, interval: nat, n: nat)
    requires interval > 0 && n <= |items|
    ensures DataTo(items + [item], interval, n) == DataTo(items, interval, n)
  {
    if n > 0 {
      DataSame(items, item, interval, n - 1);
      assert Prev(items + [item], interval, n - 1) == Prev(items, interval, n - 1);
    }
  }

  /** One record more. */
  lemma DataSnoc(items: seq<Item>, item: Item, interval: nat, items': seq<Item>)
    requires interval > 0 && items' == items + [item]
    ensures DataTo(items', interval, |items'|)
            == DataTo(items, interval, |items|) + RecBytes(Prev(items, interval, |items|), item.rec, item.enc)
  {
    DataSame(items, item, interval, |items|);
    assert Prev(items', interval, |items|) == Prev(items, interval, |items|);
    assert items'[|items|] == item;
  }

  /** The item fits its fields, and its value was encoded with the front part of this dictionary. */
  ghost predicate MadeWith(item: Item, keys: seq<Bytes>) {
    Fits(item.rec, item.enc) && item.size <= |keys| && Encodes(keys[..item.size], item.enc, item.rec.value)
  }

  ghost predicate Made(items: seq<Item>, keys: seq<Bytes>) {
    forall i :: 0 <= i < |items| ==> MadeWith(items[i], keys)
  }

  lemma MadeLater(items: seq<Item>, keys: seq<Bytes>, keys': seq<Bytes>)
    requires Made(items, keys) && keys <= keys'
    ensures Made(items, keys')
  {
    forall i | 0 <= i < |items| ensures MadeWith(items[i], keys') {
      assert MadeWith(items[i], keys);
      assert keys'[..items[i].size] == keys[..items[i].size];
    }
  }

  /** Positions in this dictionary take as many bytes as when the item was made, or the item has none. */
  predicate Decodes(item: Item, keys: seq<Bytes>) {
    !item.enc.isEncoded || IndexSize(|keys|) == IndexSize(item.size)
  }

  lemma ItemOutcome(item: Item, keys: seq<Bytes>, end: nat)
    requires MadeWith(item, keys)
    ensures Outcome(item.rec, item.enc, keys, end) == if Decodes(item, keys) then Some((item.rec, end)) else None
  {
    DecodeLater(keys[..item.size], keys, item.enc, item.rec.value);
  }

  /** With at most 256 dictionary values every item decodes. */
  lemma SmallDictionary(items: seq<Item>, keys: seq<Bytes>)
    requires Made(items, keys) && |keys| <= 256
    ensures forall i :: 0 <= i < |items| ==> Decodes(items[i], keys)
  {
    forall i | 0 <= i < |items| ensures Decodes(items[i], keys) {
      assert MadeWith(items[i], keys);
      if items[i].enc.isEncoded {
        OneByte(items[i].size);
        OneByte(|keys|);
      }
    }
  }

  /** The decoder's previous key suits record `i`: the key before it, or anything at a restart point. */
  ghost predicate Suits(items: seq<Item>, interval: nat, i: nat, prev: Bytes)
    requires interval > 0 && i <= |items|
  {
    i % interval == 0 || prev == items[i - 1].rec.key
  }

  lemma ItemHolds(items: seq<Item>, interval: nat, i: nat, data: Bytes, pos: nat, b: Bytes)
    requires interval > 0 && i < |items| && data == DataTo(items, interval, |items|) && pos == |DataTo(items, interval, i)|
    requires b == RecBytes(Prev(items, interval, i), items[i].rec, items[i].enc)
    ensures Holds(data, pos, b) && |DataTo(items, interval, i + 1)| == pos + |b|
  {
    DataPrefix(items, interval, i + 1, |items|);
    assert DataTo(items, interval, i + 1) == DataTo(items, interval, i) + b;
    HoldsPrefix(DataTo(items, interval, i), b, data);
  }

  lemma ReadItemAt(data: Bytes, pos: nat, prev: Bytes, prev': Bytes, item: Item, keys: seq<Bytes>, b: Bytes, end: nat)
    requires b == RecBytes(prev, item.rec, item.enc) && Holds(data, pos, b) && end == pos + |b|
    requires MadeWith(item, keys) && (prev' == prev || prev == [])
    ensures ReadRec(data, pos, prev', item.enc.isEncoded, keys) == if Decodes(item, keys) then Some((item.rec, end)) else None
  {
    RecRoundTrip(data, pos, prev, prev', item.rec, item.enc, keys, end);
    ItemOutcome(item, keys, end);
  }

  /** Record `i` is read at its offset, and the reader ends up at the next one; or it is an error, when dictionary positions have become wider. */
  lemma ReadItem(items: seq<Item>, interval: nat, i: nat, data: Bytes, prev: Bytes, keys: seq<Bytes>, pos: nat, end: nat)
    requires interval > 0 && i < |items| && data == DataTo(items, interval, |items|)
    requires Made(items, keys) && Suits(items, interval, i, prev)
    requires pos == |DataTo(items, interval, i)| && end == |DataTo(items, interval, i + 1)|
    ensures ReadRec(data, pos, prev, items[i].enc.isEncoded, keys) == if Decodes(items[i], keys) then Some((items[i].rec, end)) else None
    ensures Suits(items, interval, i + 1, items[i].rec.key)
  {
    var b := RecBytes(Prev(items, interval, i), items[i].rec, items[i].enc);
    ItemHolds(items, interval, i, data, pos, b);
    ReadItemAt(data, pos, Prev(items, interval, i), prev, items[i], keys, b, end);
  }

  // ------------------------------------------------------------------ restart points

  lemma CountAtRestart(n: nat, r: nat, interval: nat)
    requires interval > 0 && r * interval >= n && (r > 0 ==> (r - 1) * interval < n)
    ensures n % interval == 0 ==> r * interval == n
    ensures n % interval != 0 ==> r * interval >= n + 1
  {
    var q := n / interval;
    if n % interval == 0 {
      assert n == q * interval;
      assert r - 1 >= q ==> (r - 1) * interval >= q * interval;
      assert r <= q - 1 ==> r * interval <= (q - 1) * interval;
      assert (q - 1) * interval == q * interval - interval;
    } else if r * interval == n {
      ModUnique(n, interval, r, 0);
    }
  }

  /** Restart point `k` is the offset of its record. */
  ghost predicate RestartAt(offset: nat, items: seq<Item>, interval: nat, k: nat)
    requires interval > 0
  {
    var i := k * interval;
    i < |items| && offset == |DataTo(items, interval, i)|
  }

  lemma RestartStays(offset: nat, items: seq<Item>, interval: nat, k: nat, item: Item)
    requires interval > 0 && RestartAt(offset, items, interval, k)
    ensures RestartAt(offset, items + [item], interval, k)
  {
    DataSame(items, item, interval, k * interval);
  }

  lemma NextMultiple(k: nat, interval: nat)
    requires interval > 0
    ensures (k + 1) * interval >= k * interval + 1
  {
    assert (k + 1) * interval == k * interval + interval;
  }

  lemma NewRestart(offset: nat, items: seq<Item>, interval: nat, k: nat, item: Item)
    requires interval > 0 && k * interval == |items| && offset == |DataTo(items, interval, |items|)|
    ensures RestartAt(offset, items + [item], interval, k) && (k + 1) * interval >= |items| + 1
  {
    DataSame(items, item, interval, |items|);
    NextMultiple(k, interval);
  }

  /** One restart point every `interval` records, at the offset of its record. */
  ghost predicate Restarts(restarts: seq<nat>, items: seq<Item>, interval: nat)
    requires interval > 0
  {
    && (forall k :: 0 <= k < |restarts| ==> RestartAt(restarts[k], items, interval, k))
    && |restarts| * interval >= |items|
  }

  lemma RestartsStay(restarts: seq<nat>, items: seq<Item>, interval: nat, item: Item)
    requires interval > 0 && Restarts(restarts, items, interval)
    ensures forall k :: 0 <= k < |restarts| ==> RestartAt(restarts[k], items + [item], interval, k)
  {
    forall k | 0 <= k < |restarts| ensures RestartAt(restarts[k], items + [item], interval, k) {
      RestartStays(restarts[k], items, interval, k, item);
    }
  }

  lemma RestartCount(restarts: seq<nat>, items: seq<Item>, interval: nat)
    requires interval > 0 && Restarts(restarts, items, interval)
    ensures |items| % interval == 0 ==> |restarts| * interval == |items|
    ensures |items| % interval != 0 ==> |restarts| * interval >= |items| + 1
  {
    var r := |restarts|;
    if r > 0 {
      assert RestartAt(restarts[r - 1], items, interval, r - 1);
    }
    CountAtRestart(|items|, r, interval);
  }

  /** A record more, with a restart point before it when it is due. */
  lemma RestartsSnoc(restarts: seq<nat>, items: seq<Item>, interval: nat, item: Item, offset: nat, restarts': seq<nat>)
    requires interval > 0 && Restarts(restarts, items, interval) && offset == |DataTo(items, interval, |items|)|
    requires restarts' == if |items| % interval == 0 then restarts + [offset] else restarts
    ensures Restarts(restarts', items + [item], interval)
  {
    RestartCount(restarts, items, interval);
    RestartsStay(restarts, items, interval, item);
    if |items| % interval == 0 {
      NewRestart(offset, items, interval, |restarts|, item);
    }
  }

  /** The delta encoder after `n` records. */
  ghost predicate EncoderAt(items: seq<Item>, interval: nat, entryIndex: nat, prevKey: Bytes)
    requires interval > 0
  {
    var n := |items|;
    if n == 0 then entryIndex == 0 else entryIndex == (n - 1) % interval + 1 && prevKey == items[n - 1].rec.key
  }

  lemma EncoderRestarts(items: seq<Item>, interval: nat, entryIndex: nat, prevKey: Bytes)
    requires interval > 0 && EncoderAt(items, interval, entryIndex, prevKey)
    ensures |items| % interval == 0 <==> entryIndex == 0 || entryIndex == interval
    ensures |items| % interval != 0 ==> (|items| % interval == entryIndex && Prev(items, interval, |items|) == prevKey)
  {
    var n := |items|;
    if n > 0 {
      ModSucc(n - 1, interval);
    }
  }

  lemma ModSucc(n: nat, m: nat)
    requires m > 0
    ensures (n + 1) % m == if n % m + 1 == m then 0 else n % m + 1
  {
    var q, r := n / m, n % m;
    assert n == q * m + r;
    if r + 1 == m {
      assert n + 1 == (q + 1) * m;
      ModUnique(n + 1, m, q + 1, 0);
    } else {
      ModUnique(n + 1, m, q, r + 1);
    }
  }

  lemma ModUnique(n: nat, m: nat, q: nat, r: nat)
    requires m > 0 && r < m && n == q * m + r
    ensures n % m == r
  {
    var d := n / m - q;
    assert n == n / m * m + n % m;
    assert d * m == r - n % m;
    assert d >= 1 ==> d * m >= m;
    assert d <= -1 ==> d * m <= -1 * m;
  }

  /** The bitmap marks just the items whose value is a dictionary position. */
  ghost predicate Marks(bits: seq<bool>, items: seq<Item>) {
    forall i: nat :: Get(bits, i) <==> i < |items| && items[i].enc.isEncoded
  }

  /** All that holds of a builder between calls, on values. */
  ghost predicate Built(items: seq<Item>, interval: nat, data: Bytes, restarts: seq<nat>, entryIndex: nat, prevKey: Bytes,
                        keys: seq<Bytes>, bits: seq<bool>) {
    && interval > 0 && data == DataTo(items, interval, |items|) && Restarts(restarts, items, interval)
    && EncoderAt(items, interval, entryIndex, prevKey) && Made(items, keys) && Marks(bits, items)
  }

  lemma MadeSnoc(items: seq<Item>, item: Item, keys: seq<Bytes>, keys': seq<Bytes>)
    requires Made(items, keys) && keys <= keys' && MadeWith(item, keys')
    ensures Made(items + [item], keys')
  {
    MadeLater(items, keys, keys');
  }

  lemma BuiltSnoc(items: seq<Item>, interval: nat, data: Bytes, restarts: seq<nat>, entryIndex: nat, prevKey: Bytes,
                  keys: seq<Bytes>, bits: seq<bool>, item: Item, items': seq<Item>, data': Bytes, restarts': seq<nat>,
                  entryIndex': nat, keys': seq<Bytes>, bits': seq<bool>, b: Bytes)
    requires Built(items, interval, data, restarts, entryIndex, prevKey, keys, bits) && items' == items + [item]
    requires var due := entryIndex == 0 || entryIndex == interval;
             && b == RecBytes(if due then [] else prevKey, item.rec, item.enc) && data' == data + b
             && restarts' == (if due then restarts + [|data|] else restarts)
             && entryIndex' == (if due then 1 else entryIndex + 1)
    requires keys <= keys' && MadeWith(item, keys')
    requires Marks(bits', items')
    ensures Built(items', interval, data', restarts', entryIndex', item.rec.key, keys', bits')
  {
    EncoderRestarts(items, interval, entryIndex, prevKey);
    RestartsSnoc(restarts, items, interval, item, |data|, restarts');
    DataSnoc(items, item, interval, items');
    MadeSnoc(items, item, keys, keys');
    EncoderSnoc(items, interval, entryIndex, prevKey, item, entryIndex');
  }

  lemma EncoderSnoc(items: seq<Item>, interval: nat, entryIndex: nat, prevKey: Bytes, item: Item, entryIndex': nat)
    requires interval > 0 && EncoderAt(items, interval, entryIndex, prevKey)
    requires entryIndex' == if entryIndex == 0 || entryIndex == interval then 1 else entryIndex + 1
    ensures EncoderAt(items + [item], interval, entryIndex', item.rec.key)
  {
    EncoderRestarts(items, interval, entryIndex, prevKey);
  }
}
