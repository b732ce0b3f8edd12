/**
 The bytes of full records in a data block and reading them back one by one
 (internal/sstable/data.go:108-160, 346-434), and the bitmap that tells which values are dictionary
 positions (internal/sstable/bitset.go).
 */
module BlockRecords {
  import opened ByteOrder
  import opened Encoders
  import opened Keys
  import opened Options

  // ------------------------------------------------------------------ one record

  /** A full record; `expiresAt` is the 64-bit pattern of the signed field. */
  datatype Rec = Rec(seqId: nat, expiresAt: nat, op: Byte, key: Bytes, value: Bytes)

  const CHUNK_FULL: Byte := 0

  ghost predicate Fits(r: Rec, e: EncodedValue) {
    r.seqId < Room(0) && r.expiresAt < Pow256(8) && r.op <= 3 && |r.key| < Room(0) && |e.bytes| < Room(0)
  }

  function Head(r: Rec): (b: Bytes) { [CHUNK_FULL] + (Uvarint(r.seqId) + (LE(r.expiresAt, 8) + [r.op])) }

  function ValueBytes(e: EncodedValue): (b: Bytes) { Uvarint(|e.bytes|) + e.bytes }

  /** The bytes of a record whose key is written behind `prev`. */
  function RecBytes(prev: Bytes, r: Rec, e: EncodedValue): (b: Bytes)
    ensures |b| > 0
  {
    Head(r) + (KeyBytes(prev, r.key) + ValueBytes(e))
  }

  datatype HeadResult = NoHead | HeadAt(seqId: nat, expiresAt: nat, op: Byte, pos: nat)

  /** The fields before the key, as `ReadRecord` takes them. */
  function ReadHead(data: Bytes, pos: nat): (h: HeadResult)
    ensures h.HeadAt? ==> pos < h.pos < |data|
  {
    if pos >= |data| || data[pos] != CHUNK_FULL then NoHead
    else
      var seqId := ReadUvarint(data, pos + 1, 0);
      if seqId.None? then NoHead
      else
        var p := pos + 1 + seqId.value.1;
        if p + 8 >= |data| || data[p + 8] > 3 || p + 9 >= |data| then NoHead
        else HeadAt(seqId.value.0, FromLE(data[p..p + 8]), data[p + 8], p + 9)
  }

  /** What is taken for the head of a record: a full chunk with a known operation and numbers within 64 bits. */
  lemma HeadSound(data: Bytes, pos: nat)
    ensures var h := ReadHead(data, pos);
            h.HeadAt? ==> && data[pos] == 0 && h.op <= 3 && h.seqId < Room(0) && h.expiresAt < Pow256(8)
                          && pos + 10 < h.pos < |data| && Ends(data[pos + 1..h.pos - 9]) && h.seqId == SevenBits(data[pos + 1..h.pos - 9])
                          && data[h.pos - 9..h.pos - 1] == LE(h.expiresAt, 8) && data[h.pos - 1] == h.op
  {
    var h := ReadHead(data, pos);
    if h.HeadAt? {
      UvarintExactly(data, pos + 1, 0, h.seqId, h.pos - 9 - (pos + 1));
      FromLERoundTrip(data[h.pos - 9..h.pos - 1]);
    }
  }

  /** The value bytes behind the key. */
  function ReadValue(data: Bytes, pos: nat): (r: Option<(Bytes, nat)>)
    requires pos <= |data|
    ensures r.Some? ==> pos < r.value.1 <= |data|
  {
    var len := ReadUvarint(data, pos, 0);
    if len.None? || pos + len.value.1 + len.value.0 > |data| then None
    else Some((data[pos + len.value.1..pos + len.value.1 + len.value.0], pos + len.value.1 + len.value.0))
  }

  /** `ReadRecord` of a full record: the record and the position behind it. */
  function ReadRec(data: Bytes, pos: nat, prev: Bytes, isEncoded: bool, keys: seq<Bytes>): (r: Option<(Rec, nat)>)
    ensures r.Some? ==> pos < r.value.1 <= |data|
  {
    var h := ReadHead(data, pos);
    if h.NoHead? then None
    else
      var key := ReadKey(data, h.pos, prev);
      if key.None? then None
      else
        var raw := ReadValue(data, key.value.1);
        if raw.None? then None
        else
          var value := DecodeValue(keys, EncodedValue(isEncoded, raw.value.0));
          if value.None? then None
          else Some((Rec(h.seqId, h.expiresAt, h.op, key.value.0, value.value), raw.value.1))
  }

  lemma HeadPieces(data: Bytes, pos: nat, r: Rec, seqId: Bytes, expires: Bytes, op: Bytes, one: Bytes)
    requires one == [CHUNK_FULL] && seqId == Uvarint(r.seqId) && expires == LE(r.expiresAt, 8) && op == [r.op]
    requires Holds(data, pos, one + (seqId + (expires + op)))
    ensures Holds(data, pos, one) && Holds(data, pos + 1, seqId)
    ensures Holds(data, pos + 1 + |seqId|, expires) && Holds(data, pos + 9 + |seqId|, op)
  {
    HoldsSplit(data, pos, one, seqId + (expires + op));
    HoldsSplit(data, pos + 1, seqId, expires + op);
    HoldsSplit(data, pos + 1 + |seqId|, expires, op);
  }

  /** The fields before the key are read, up to `p`. */
  ghost predicate HeadReads(data: Bytes, pos: nat, r: Rec, p: nat) {
    ReadHead(data, pos) == HeadAt(r.seqId, r.expiresAt, r.op, p)
  }

  ghost predicate KeyReads(data: Bytes, p: nat, prev: Bytes, key: Bytes, q: nat) {
    p <= |data| && ReadKey(data, p, prev) == Some((key, q))
  }

  ghost predicate ValueReads(data: Bytes, q: nat, value: Bytes, end: nat) {
    q <= |data| && ReadValue(data, q) == Some((value, end))
  }

  lemma HeadRoundTrip(data: Bytes, pos: nat, r: Rec, head: Bytes, p: nat)
    requires head == Head(r) && p == pos + |head| < |data| && Holds(data, pos, head)
    requires r.seqId < Room(0) && r.expiresAt < Pow256(8) && r.op <= 3
    ensures HeadReads(data, pos, r, p)
  {
    var seqId, expires := Uvarint(r.seqId), LE(r.expiresAt, 8);
    HeadPieces(data, pos, r, seqId, expires, [r.op], [CHUNK_FULL]);
    HoldsAt(data, pos, [CHUNK_FULL], 0);
    HoldsAt(data, pos + 9 + |seqId|, [r.op], 0);
    UvarintRoundTrip(data, pos + 1, r.seqId, 0);
    LERoundTrip(r.expiresAt, 8);
  }

  lemma KeyReadsBack(data: Bytes, p: nat, prev: Bytes, prev': Bytes, key: Bytes, b: Bytes, q: nat)
    requires b == KeyBytes(prev, key) && q == p + |b| && Holds(data, p, b) && |key| < Room(0) && (prev' == prev || prev == [])
    ensures KeyReads(data, p, prev', key, q)
  {
    KeyRoundTrip(data, p, prev, prev', key);
  }

  lemma ValueRoundTrip(data: Bytes, q: nat, e: EncodedValue, b: Bytes, end: nat)
    requires b == ValueBytes(e) && end == q + |b| && Holds(data, q, b) && |e.bytes| < Room(0)
    ensures ValueReads(data, q, e.bytes, end)
  {
    HoldsSplit(data, q, Uvarint(|e.bytes|), e.bytes);
    UvarintRoundTrip(data, q, |e.bytes|, 0);
  }

  /** What reading a record gives: its value decoded with this dictionary, or an error. */
  function Outcome(r: Rec, e: EncodedValue, keys: seq<Bytes>, end: nat): (o: Option<(Rec, nat)>) {
    var value := DecodeValue(keys, e);
    if value.None? then None else Some((r.(value := value.value), end))
  }

  lemma ReadRecAt(data: Bytes, pos: nat, prev: Bytes, r: Rec, e: EncodedValue, keys: seq<Bytes>, p: nat, q: nat, end: nat)
    requires HeadReads(data, pos, r, p) && KeyReads(data, p, prev, r.key, q) && ValueReads(data, q, e.bytes, end)
    ensures ReadRec(data, pos, prev, e.isEncoded, keys) == Outcome(r, e, keys, end)
  {
  }

  lemma ReadRecPieces(data: Bytes, pos: nat, prev: Bytes, prev': Bytes, r: Rec, e: EncodedValue, keys: seq<Bytes>,
                      head: Bytes, key: Bytes, value: Bytes, p: nat, q: nat, end: nat)
    requires head == Head(r) && key == KeyBytes(prev, r.key) && value == ValueBytes(e) && value != []
    requires p == pos + |head| && q == p + |key| && end == q + |value|
    requires Holds(data, pos, head) && Holds(data, p, key) && Holds(data, q, value)
    requires Fits(r, e) && (prev' == prev || prev == [])
    ensures ReadRec(data, pos, prev', e.isEncoded, keys) == Outcome(r, e, keys, end)
  {
    HeadRoundTrip(data, pos, r, head, p);
    KeyReadsBack(data, p, prev, prev', r.key, key, q);
    ValueRoundTrip(data, q, e, value, end);
    ReadRecAt(data, pos, prev', r, e, keys, p, q, end);
  }

  /** A record is read back wherever its bytes lie, with its previous key, or with any if it was written without one. */
  lemma RecRoundTrip(data: Bytes, pos: nat, prev: Bytes, prev': Bytes, r: Rec, e: EncodedValue, keys: seq<Bytes>, end: nat)
    requires Holds(data, pos, RecBytes(prev, r, e)) && end == pos + |RecBytes(prev, r, e)|
    requires Fits(r, e) && (prev' == prev || prev == [])
    ensures ReadRec(data, pos, prev', e.isEncoded, keys) == Outcome(r, e, keys, end)
  {
    var head, key, value := Head(r), KeyBytes(prev, r.key), ValueBytes(e);
    HoldsSplit(data, pos, head, key + value);
    HoldsSplit(data, pos + |head|, key, value);
    ReadRecPieces(data, pos, prev, prev', r, e, keys, head, key, value, pos + |head|, pos + |head| + |key|, end);
  }

  lemma KeySize(prev: Bytes, key: Bytes)
    ensures |KeyBytes(prev, key)| <= 2 + 2 * |key|
  {
    SharedIsPrefix(prev, key, 0);
    var shared := Shared(prev, key, 0);
    UvarintSmall(shared);
    UvarintSmall(|key| - shared);
  }

  /** A record takes no more room than `AddRecord` reckons with. */
  lemma RecSize(prev: Bytes, r: Rec, e: EncodedValue)
    requires Fits(r, e) && (|e.bytes| <= |r.value| || |e.bytes| <= 8)
    ensures |RecBytes(prev, r, e)| <= 32 + 2 * |r.key| + |r.value|
  {
    KeySize(prev, r.key);
    UvarintShort(r.seqId, 0);
    UvarintShort(|e.bytes|, 0);
    assert |Head(r)| <= 20;
    assert |e.bytes| <= 8 ==> |Uvarint(|e.bytes|)| == 1;
  }
}
