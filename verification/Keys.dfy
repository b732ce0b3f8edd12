/**
 Keys of the engine.

 The engine compares keys with `bytes.Compare` only: lexicographic order on byte strings.
 The modules that never look inside a key use `Key`, a real number, and the built-in order
 on reals. `Rank` maps every byte string to such a key, and the lemmas below show that the
 map is injective and carries the lexicographic order exactly, so a statement proved for
 all real keys is a statement about all byte strings.
 */
module Keys {
  newtype Byte = b: int | 0 <= b < 256

  type Bytes = seq<Byte>

  type Key = real

  /** `bytes.Compare`: the sign of the lexicographic comparison. */
  function Compare(a: Bytes, b: Bytes): (c: int)
  {
    if a == [] && b == [] then 0
    else if a == [] then -1
    else if b == [] then 1
    else if a[0] < b[0] then -1
    else if a[0] > b[0] then 1
    else Compare(a[1..], b[1..])
  }

  /** The base-257 fraction whose digits are the bytes plus one; a shorter string has zero digits. */
  function Rank(a: Bytes): (r: Key)
    ensures 0.0 <= r < 1.0
  {
    if a == [] then 0.0 else ((a[0] as int + 1) as real + Rank(a[1..])) / 257.0
  }

  lemma {:induction false} RankLess(a: Bytes, b: Bytes)
    ensures Compare(a, b) < 0 ==> Rank(a) < Rank(b)
    ensures Compare(a, b) > 0 ==> Rank(a) > Rank(b)
    ensures Compare(a, b) == 0 ==> a == b
    decreases a
  {
    if a != [] && b != [] && a[0] == b[0] {
      RankLess(a[1..], b[1..]);
      if Compare(a, b) == 0 {
        assert a == [a[0]] + a[1..];
        assert b == [b[0]] + b[1..];
      }
    } else if a != [] && b != [] {
      var x, y := a[0] as int, b[0] as int;
      assert x < y ==> (x + 1) as real + 1.0 <= (y + 1) as real;
      assert y < x ==> (y + 1) as real + 1.0 <= (x + 1) as real;
    }
  }

  lemma {:induction false} CompareRefl(a: Bytes)
    ensures Compare(a, a) == 0
  {
    if a != [] {
      CompareRefl(a[1..]);
    }
  }

  /** Comparing ranks as reals decides everything `bytes.Compare` decides. */
  lemma RankEmbedding(a: Bytes, b: Bytes)
    ensures Compare(a, b) < 0 <==> Rank(a) < Rank(b)
    ensures Compare(a, b) > 0 <==> Rank(a) > Rank(b)
    ensures a == b <==> Rank(a) == Rank(b)
  {
    RankLess(a, b);
    CompareRefl(a);
  }
}
