/**
 The bitmap of a data block (internal/sstable/bitset.go). The model keeps the bits, eight to a byte,
 lowest first; `ToBytes` and `FromBytes` give the bytes.
 */
module BitSets {
  import opened Keys

  function Weight(k: nat): nat
    requires k < 8
  {
    if k == 0 then 1 else if k == 1 then 2 else if k == 2 then 4 else if k == 3 then 8
    else if k == 4 then 16 else if k == 5 then 32 else if k == 6 then 64 else 128
  }

  function One(b: bool): nat { if b then 1 else 0 }

  /** The byte with these bits. */
  function Pack(a: bool, b: bool, c: bool, d: bool, e: bool, f: bool, g: bool, h: bool): (v: Byte)
  {
    (One(a) + 2 * One(b) + 4 * One(c) + 8 * One(d) + 16 * One(e) + 32 * One(f) + 64 * One(g) + 128 * One(h)) as Byte
  }

  predicate BitOf(v: Byte, k: nat)
    requires k < 8
  {
    v as nat / Weight(k) % 2 == 1
  }

  ghost function PowerOfTwo(k: nat): (p: nat)
    ensures p > 0
  {
    if k == 0 then 1 else 2 * PowerOfTwo(k - 1)
  }

  /** Bit `k` counts from the lowest. */
  lemma BitIsShift(v: Byte, k: nat)
    requires k < 8
    ensures BitOf(v, k) <==> v as nat / PowerOfTwo(k) % 2 == 1
  {
    assert PowerOfTwo(1) == 2 && PowerOfTwo(2) == 4 && PowerOfTwo(3) == 8 && PowerOfTwo(4) == 16;
    assert PowerOfTwo(5) == 32 && PowerOfTwo(6) == 64 && PowerOfTwo(7) == 128;
  }

  /** The binary digit of weight `w`. */
  lemma Digit(v: nat, k: nat, lo: nat, bit: bool, hi: nat)
    requires k < 8 && lo < Weight(k) && v == lo + Weight(k) * (One(bit) + 2 * hi)
    ensures (v / Weight(k) % 2 == 1) == bit
  {
    var w, q := Weight(k), One(bit) + 2 * hi;
    assert v / w == q;
  }

  lemma PackLow(a: bool, b: bool, c: bool, d: bool, e: bool, f: bool, g: bool, h: bool, v: Byte, k: nat, bit: bool)
    requires v == Pack(a, b, c, d, e, f, g, h) && k < 4 && bit == if k == 0 then a else if k == 1 then b else if k == 2 then c else d
    ensures BitOf(v, k) == bit
  {
    var hi := One(e) + 2 * One(f) + 4 * One(g) + 8 * One(h);
    if k == 0 {
      Digit(v as nat, 0, 0, a, One(b) + 2 * One(c) + 4 * One(d) + 8 * hi);
    } else if k == 1 {
      Digit(v as nat, 1, One(a), b, One(c) + 2 * One(d) + 4 * hi);
    } else if k == 2 {
      Digit(v as nat, 2, One(a) + 2 * One(b), c, One(d) + 2 * hi);
    } else {
      Digit(v as nat, 3, One(a) + 2 * One(b) + 4 * One(c), d, hi);
    }
  }

  lemma PackHigh(a: bool, b: bool, c: bool, d: bool, e: bool, f: bool, g: bool, h: bool, v: Byte, k: nat, bit: bool)
    requires v == Pack(a, b, c, d, e, f, g, h) && 4 <= k < 8
    requires bit == if k == 4 then e else if k == 5 then f else if k == 6 then g else h
    ensures BitOf(v, k) == bit
  {
    var lo := One(a) + 2 * One(b) + 4 * One(c) + 8 * One(d);
    if k == 4 {
      Digit(v as nat, 4, lo, e, One(f) + 2 * One(g) + 4 * One(h));
    } else if k == 5 {
      Digit(v as nat, 5, lo + 16 * One(e), f, One(g) + 2 * One(h));
    } else if k == 6 {
      Digit(v as nat, 6, lo + 16 * One(e) + 32 * One(f), g, One(h));
    } else {
      Digit(v as nat, 7, lo + 16 * One(e) + 32 * One(f) + 64 * One(g), h, 0);
    }
  }

  ghost predicate Whole(bits: seq<bool>) { |bits| % 8 == 0 }

  function ByteAt(bits: seq<bool>, i: nat): Byte
    requires 8 * i + 7 < |bits|
  {
    var p := 8 * i;
    Pack(bits[p], bits[p + 1], bits[p + 2], bits[p + 3], bits[p + 4], bits[p + 5], bits[p + 6], bits[p + 7])
  }

  function ToBytes(bits: seq<bool>): (b: Bytes)
    requires |bits| % 8 == 0
    ensures |b| == |bits| / 8
  {
    seq(|bits| / 8, i requires 0 <= i < |bits| / 8 => ByteAt(bits, i))
  }

  function FromBytes(b: Bytes): (bits: seq<bool>)
    ensures |bits| == 8 * |b|
  {
    seq(8 * |b|, i requires 0 <= i < 8 * |b| => BitOf(b[i / 8], i % 8))
  }

  lemma ByteHasBits(bits: seq<bool>, i: nat, k: nat)
    requires 8 * i + 7 < |bits| && k < 8
    ensures BitOf(ByteAt(bits, i), k) == bits[8 * i + k]
  {
    var p := 8 * i;
    var a, b, c, d := bits[p], bits[p + 1], bits[p + 2], bits[p + 3];
    var e, f, g, h := bits[p + 4], bits[p + 5], bits[p + 6], bits[p + 7];
    if k < 4 {
      PackLow(a, b, c, d, e, f, g, h, ByteAt(bits, i), k, bits[p + k]);
    } else {
      PackHigh(a, b, c, d, e, f, g, h, ByteAt(bits, i), k, bits[p + k]);
    }
  }

  lemma BytesRoundTrip(bits: seq<bool>)
    requires Whole(bits)
    ensures FromBytes(ToBytes(bits)) == bits
  {
    forall i | 0 <= i < |bits| ensures FromBytes(ToBytes(bits))[i] == bits[i] {
      ByteHasBits(bits, i / 8, i % 8);
    }
  }

  predicate Get(bits: seq<bool>, idx: nat) { idx < |bits| && bits[idx] }

  class BitSet {
    var bits: seq<bool>
    var used: nat

    ghost predicate Valid()
      reads this
    {
      Whole(bits) && (used == 0 ==> forall i: nat :: !Get(bits, i))
    }

    /** `NewBitSet` of no bits: one byte of zeros. */
    constructor ()
      ensures Valid() && (forall i: nat :: !Get(bits, i)) && |bits| == 8 && used == 0
    {
      bits, used := [false, false, false, false, false, false, false, false], 0;
    }

    /** `Set`: whole bytes are added until the bit is there. */
    method Set(idx: nat)
      requires Valid()
      modifies this
      ensures Valid() && |bits| == if |old(bits)| <= idx then 8 * (idx / 8) + 8 else |old(bits)|
      ensures forall i: nat :: Get(bits, i) <==> i == idx || Get(old(bits), i)
      ensures used == if old(used) <= idx then idx + 1 else old(used)
    {
      while |bits| <= idx
        invariant used == old(used) && Whole(bits) && |old(bits)| <= |bits| && (|bits| <= 8 * (idx / 8) + 8 || bits == old(bits))
        invariant forall i: nat :: Get(bits, i) <==> Get(old(bits), i)
      {
        bits := bits + [false, false, false, false, false, false, false, false];
      }
      bits := bits[idx := true];
      if idx >= used {
        used := idx + 1;
      }
    }

    /** `Encode`: nothing while no bit was ever set. */
    method Encode() returns (b: Bytes)
      requires Valid()
      ensures |b| <= |bits| / 8 && (b == [] <==> used == 0 || bits == [])
      ensures b != [] ==> FromBytes(b) == bits
      ensures forall i: nat :: Get(FromBytes(b), i) <==> Get(bits, i)
    {
      if used == 0 {
        return [];
      }
      BytesRoundTrip(bits);
      return ToBytes(bits);
    }
  }
}
