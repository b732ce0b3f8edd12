/**
 Records of the write-ahead log and their byte layout (internal/wal/record.go).

 CRC-32 is a parameter: the layout is proved for every checksum function.
 */
module WalRecord {
  import opened ByteOrder
  import opened Keys

  const KEY_START: nat := 47

  datatype FragType = Full | First | Middle | Last

  datatype RecType = Single | Start | Transaction | Commit

  /** A log record or a fragment of one; `expiresAt` is the 64-bit pattern of the signed field. */
  datatype Rec = Rec(frag: FragType, kind: RecType, txnId: nat, seqId: nat, expiresAt: nat, op: Byte, key: Bytes, value: Bytes)

  /** The fields fit their widths in the layout. */
  ghost predicate Fits(r: Rec) {
    && r.txnId < Pow256(8) && r.seqId < Pow256(8) && r.expiresAt < Pow256(8)
    && |r.key| < Pow256(8) && |r.value| < Pow256(8)
  }

  function FragByte(f: FragType): Byte {
    match f case Full => 0 case First => 1 case Middle => 2 case Last => 3
  }

  function KindByte(k: RecType): Byte {
    match k case Single => 0 case Start => 1 case Transaction => 2 case Commit => 3
  }

  /** The switch statements of `Decode`: any other byte leaves the zero value. */
  function ByteFrag(b: Byte): FragType {
    if b == 1 then First else if b == 2 then Middle else if b == 3 then Last else Full
  }

  function ByteKind(b: Byte): RecType {
    if b == 1 then Start else if b == 2 then Transaction else if b == 3 then Commit else Single
  }

  function Size(r: Rec): nat { KEY_START + |r.key| + |r.value| }

  /** The fixed fields after the checksum. */
  function Header(r: Rec): (b: Bytes)
    ensures |b| == KEY_START - 4
  {
    LE(r.expiresAt, 8) + [FragByte(r.frag), r.op, KindByte(r.kind)] + LE(r.txnId, 8) + LE(r.seqId, 8)
    + LE(|r.key|, 8) + LE(|r.value|, 8)
  }

  function Body(r: Rec): (b: Bytes) { Header(r) + r.key + r.value }

  /** The bytes `Encode` produces. */
  function Encoded(crc: Bytes -> U32, r: Rec): (b: Bytes)
    ensures |b| == Size(r)
  {
    LE(crc(Body(r)), 4) + Body(r)
  }

  datatype Decoded = Bad | Good(rec: Rec)

  function KeySizeAt(data: Bytes, off: nat): nat
    requires off + KEY_START <= |data|
  {
    FromLE(data[off + 31..off + 39])
  }

  function ValueSizeAt(data: Bytes, off: nat): nat
    requires off + KEY_START <= |data|
  {
    FromLE(data[off + 39..off + 47])
  }

  /** `Decode` of a buffer that holds its announced key and value. */
  function Decode(crc: Bytes -> U32, buf: Bytes): (d: Decoded)
    requires |buf| >= KEY_START && KEY_START + KeySizeAt(buf, 0) + ValueSizeAt(buf, 0) <= |buf|
  {
    if FromLE(buf[0..4]) != crc(buf[4..]) then Bad
    else
      var valueStart := KEY_START + KeySizeAt(buf, 0);
      Good(Rec(ByteFrag(buf[12]), ByteKind(buf[14]), FromLE(buf[15..23]), FromLE(buf[23..31]), FromLE(buf[4..12]), buf[13],
               buf[KEY_START..valueStart], buf[valueStart..valueStart + ValueSizeAt(buf, 0)]))
  }

  lemma SliceMid(pre: Bytes, mid: Bytes, post: Bytes)
    ensures (pre + mid + post)[|pre|..|pre| + |mid|] == mid
  {
  }

  lemma HeaderLayout(r: Rec)
    ensures var h := Header(r);
            && h[0..8] == LE(r.expiresAt, 8) && h[8] == FragByte(r.frag) && h[9] == r.op && h[10] == KindByte(r.kind)
            && h[11..19] == LE(r.txnId, 8) && h[19..27] == LE(r.seqId, 8)
            && h[27..35] == LE(|r.key|, 8) && h[35..43] == LE(|r.value|, 8)
  {
    var a := LE(r.expiresAt, 8) + [FragByte(r.frag), r.op, KindByte(r.kind)];
    var b := a + LE(r.txnId, 8);
    var c := b + LE(r.seqId, 8);
    var d := c + LE(|r.key|, 8);
    var h := d + LE(|r.value|, 8);
    assert h == Header(r);
    assert h[35..43] == LE(|r.value|, 8);
    assert h[..35] == d && d[27..35] == LE(|r.key|, 8);
    assert d[..27] == c && c[19..27] == LE(r.seqId, 8);
    assert c[..19] == b && b[11..19] == LE(r.txnId, 8);
    assert b[..11] == a && a[0..8] == LE(r.expiresAt, 8);
    assert h[27..35] == d[27..35] && h[19..27] == d[19..27] == c[19..27];
    assert h[11..19] == d[11..19] == c[11..19] == b[11..19];
    assert h[0..8] == d[0..8] == c[0..8] == b[0..8] == a[0..8];
  }

  /** Shifting a slice past a prefix. */
  lemma SliceShift(pre: Bytes, b: Bytes, i: nat, j: nat)
    requires i <= j <= |b|
    ensures (pre + b)[|pre| + i..|pre| + j] == b[i..j]
  {
  }

  lemma BodyLayout(r: Rec)
    ensures var b := Body(r);
            && b[..43] == Header(r) && b[43..43 + |r.key|] == r.key && b[43 + |r.key|..43 + |r.key| + |r.value|] == r.value
  {
    SliceMid(Header(r), r.key, r.value);
  }

  lemma SlicePrefix(h: Bytes, b: Bytes, i: nat, j: nat)
    requires i <= j <= |h| <= |b| && b[..|h|] == h
    ensures b[i..j] == h[i..j]
  {
    assert forall k :: i <= k < j ==> b[k] == b[..|h|][k];
  }

  /** Where each field of an encoded record lies. */
  lemma Layout(crc: Bytes -> U32, r: Rec)
    ensures var b := Encoded(crc, r);
            && b[0..4] == LE(crc(Body(r)), 4) && b[4..] == Body(r) && b[4..12] == LE(r.expiresAt, 8)
            && b[12] == FragByte(r.frag) && b[13] == r.op && b[14] == KindByte(r.kind)
            && b[15..23] == LE(r.txnId, 8) && b[23..31] == LE(r.seqId, 8)
            && b[31..39] == LE(|r.key|, 8) && b[39..47] == LE(|r.value|, 8)
            && b[47..47 + |r.key|] == r.key && b[47 + |r.key|..47 + |r.key| + |r.value|] == r.value
  {
    var c, body, h := LE(crc(Body(r)), 4), Body(r), Header(r);
    HeaderLayout(r);
    BodyLayout(r);
    SliceShift(c, body, 0, 8);
    SlicePrefix(h, body, 0, 8);
    SliceShift(c, body, 11, 19);
    SlicePrefix(h, body, 11, 19);
    SliceShift(c, body, 19, 27);
    SlicePrefix(h, body, 19, 27);
    SliceShift(c, body, 27, 35);
    SlicePrefix(h, body, 27, 35);
    SliceShift(c, body, 35, 43);
    SlicePrefix(h, body, 35, 43);
    SliceShift(c, body, 43, 43 + |r.key|);
    SliceShift(c, body, 43 + |r.key|, 43 + |r.key| + |r.value|);
    assert body[8] == h[8] && body[9] == h[9] && body[10] == h[10];
  }

  /** The sizes announced in an encoded record. */
  lemma EncodedSizes(crc: Bytes -> U32, r: Rec)
    requires Fits(r)
    ensures KeySizeAt(Encoded(crc, r), 0) == |r.key| && ValueSizeAt(Encoded(crc, r), 0) == |r.value|
  {
    Layout(crc, r);
    LERoundTrip(|r.key|, 8);
    LERoundTrip(|r.value|, 8);
  }

  /** `Encode` then `Decode` gives the record back, whatever the checksum function. */
  lemma EncodeDecode(crc: Bytes -> U32, r: Rec)
    requires Fits(r)
    ensures KeySizeAt(Encoded(crc, r), 0) == |r.key| && ValueSizeAt(Encoded(crc, r), 0) == |r.value|
    ensures Decode(crc, Encoded(crc, r)) == Good(r)
  {
    EncodedSizes(crc, r);
    Layout(crc, r);
    FourBytes(crc(Body(r)));
    LERoundTrip(r.expiresAt, 8);
    LERoundTrip(r.txnId, 8);
    LERoundTrip(r.seqId, 8);
  }

  /** Bytes of a record's length decode exactly when they begin with the checksum of the rest. */
  lemma DecodeChecks(crc: Bytes -> U32, b: Bytes)
    requires |b| >= KEY_START && KEY_START + KeySizeAt(b, 0) + ValueSizeAt(b, 0) <= |b|
    ensures Decode(crc, b).Good? <==> b[..4] == LE(crc(b[4..]), 4)
  {
    FromFourBytes(b[..4], crc(b[4..]));
  }

  /** Nothing but an encoding decodes, up to type bytes that no encoding has. */
  lemma DecodeEncode(crc: Bytes -> U32, b: Bytes)
    requires |b| >= KEY_START && KEY_START + KeySizeAt(b, 0) + ValueSizeAt(b, 0) == |b| && b[12] <= 3 && b[14] <= 3
    ensures (exists r :: Fits(r) && b == Encoded(crc, r)) <==> b[..4] == LE(crc(b[4..]), 4)
    ensures Decode(crc, b).Good? ==> Fits(Decode(crc, b).rec) && Encoded(crc, Decode(crc, b).rec) == b
  {
    DecodeChecks(crc, b);
    if Decode(crc, b).Good? {
      Reencoded(crc, b, Decode(crc, b).rec);
    }
    if r :| Fits(r) && b == Encoded(crc, r) {
      EncodeDecode(crc, r);
    }
  }

  lemma FieldBack(b: Bytes, i: nat, j: nat)
    requires i <= j <= |b|
    ensures LE(FromLE(b[i..j]), j - i) == b[i..j] && FromLE(b[i..j]) < Pow256(j - i)
  {
    FromLERoundTrip(b[i..j]);
  }

  lemma Slices(b: Bytes, i: nat, j: nat, k: nat)
    requires i <= j <= k <= |b|
    ensures b[i..j] + b[j..k] == b[i..k]
  {
  }

  lemma HeaderBack(b: Bytes, r: Rec)
    requires |b| >= KEY_START && b[12] <= 3 && b[14] <= 3
    requires r.expiresAt == FromLE(b[4..12]) && r.frag == ByteFrag(b[12]) && r.op == b[13] && r.kind == ByteKind(b[14])
    requires r.txnId == FromLE(b[15..23]) && r.seqId == FromLE(b[23..31])
    requires |r.key| == KeySizeAt(b, 0) && |r.value| == ValueSizeAt(b, 0)
    ensures Fits(r) && Header(r) == b[4..47]
  {
    FieldBack(b, 4, 12);
    FieldBack(b, 15, 23);
    FieldBack(b, 23, 31);
    FieldBack(b, 31, 39);
    FieldBack(b, 39, 47);
    TypeBytes(b, r);
    AllFields(b);
  }

  lemma TypeBytes(b: Bytes, r: Rec)
    requires |b| >= KEY_START && b[12] <= 3 && b[14] <= 3 && r.frag == ByteFrag(b[12]) && r.op == b[13] && r.kind == ByteKind(b[14])
    ensures [FragByte(r.frag), r.op, KindByte(r.kind)] == b[12..15]
  {
  }

  lemma AllFields(b: Bytes)
    requires |b| >= KEY_START
    ensures b[4..12] + b[12..15] + b[15..23] + b[23..31] + b[31..39] + b[39..47] == b[4..47]
  {
    Slices(b, 4, 12, 15);
    Slices(b, 4, 15, 23);
    Slices(b, 4, 23, 31);
    Slices(b, 4, 31, 39);
    Slices(b, 4, 39, 47);
  }

  lemma Reencoded(crc: Bytes -> U32, b: Bytes, r: Rec)
    requires |b| >= KEY_START && KEY_START + KeySizeAt(b, 0) + ValueSizeAt(b, 0) == |b| && b[12] <= 3 && b[14] <= 3
    requires Decode(crc, b) == Good(r)
    ensures Fits(r) && Encoded(crc, r) == b
  {
    DecodeChecks(crc, b);
    HeaderBack(b, r);
    var n := 47 + |r.key|;
    Slices(b, 4, 47, n);
    Slices(b, 4, n, |b|);
    Slices(b, 0, 4, |b|);
    assert Body(r) == b[4..] && b[0..4] == b[..4];
  }

  /** Copy bytes into a buffer right after a part that already holds `done`. */
  method PutNext(buf: array<Byte>, off: nat, b: Bytes, ghost done: Bytes)
    requires 4 <= off && off + |b| <= buf.Length && buf[4..off] == done
    modifies buf
    ensures buf[4..off + |b|] == done + b
  {
    var i := 0;
    while i < |b|
      invariant 0 <= i <= |b|
      invariant buf[4..off] == done
      invariant buf[off..off + i] == b[..i]
    {
      buf[off + i] := b[i];
      assert buf[off..off + i + 1] == buf[off..off + i] + [b[i]];
      i := i + 1;
    }
    assert buf[4..off + |b|] == buf[4..off] + buf[off..off + |b|];
  }

  /** The checksum goes in front once everything else is in place. */
  method PutCrc(buf: array<Byte>, b: Bytes)
    requires |b| == 4 <= buf.Length
    modifies buf
    ensures buf[..] == b + old(buf[4..])
  {
    for i := 0 to 4
      invariant buf[..i] == b[..i] && buf[4..] == old(buf[4..])
    {
      buf[i] := b[i];
      assert buf[..i + 1] == buf[..i] + [b[i]];
    }
    assert buf[..] == buf[..4] + buf[4..];
  }

  /** `Encode`: fill a zeroed buffer field by field, checksum last. */
  method Encode(crc: Bytes -> U32, r: Rec) returns (buf: array<Byte>)
    ensures fresh(buf) && buf[..] == Encoded(crc, r)
  {
    buf := new Byte[Size(r)](_ => 0);
    assert buf[4..4] == [];
    PutNext(buf, 4, LE(r.expiresAt, 8), []);
    ghost var a := LE(r.expiresAt, 8);
    PutNext(buf, 12, [FragByte(r.frag), r.op, KindByte(r.kind)], a);
    a := a + [FragByte(r.frag), r.op, KindByte(r.kind)];
    PutNext(buf, 15, LE(r.txnId, 8), a);
    a := a + LE(r.txnId, 8);
    PutNext(buf, 23, LE(r.seqId, 8), a);
    a := a + LE(r.seqId, 8);
    PutNext(buf, 31, LE(|r.key|, 8), a);
    a := a + LE(|r.key|, 8);
    PutNext(buf, 39, LE(|r.value|, 8), a);
    a := a + LE(|r.value|, 8);
    assert a == Header(r);
    PutNext(buf, 47, r.key, a);
    PutNext(buf, 47 + |r.key|, r.value, a + r.key);
    assert buf[4..] == buf[4..Size(r)] == Body(r);
    var sum := crc(buf[4..]);
    PutCrc(buf, LE(sum, 4));
  }
}
