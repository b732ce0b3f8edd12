/** Little-endian integers and where bytes lie in a buffer (package encoding/binary). */
module ByteOrder {
  import opened Keys

  type U32 = n: nat | n < 0x1_0000_0000

  function Pow256(w: nat): (p: nat)
    ensures p > 0
  {
    if w == 0 then 1 else 256 * Pow256(w - 1)
  }

  /** Little-endian bytes of `n`, `w` of them. */
  function LE(n: nat, w: nat): (b: Bytes)
    ensures |b| == w
  {
    if w == 0 then [] else [(n % 256) as Byte] + LE(n / 256, w - 1)
  }

  function FromLE(b: Bytes): (n: nat) {
    if |b| == 0 then 0 else b[0] as nat + 256 * FromLE(b[1..])
  }

  lemma {:induction false} LERoundTrip(n: nat, w: nat)
    requires n < Pow256(w)
    ensures FromLE(LE(n, w)) == n
  {
    if w > 0 {
      LERoundTrip(n / 256, w - 1);
      assert LE(n, w)[1..] == LE(n / 256, w - 1);
    }
  }

  lemma LowByte(low: nat, rest: nat)
    requires low < 256
    ensures (low + 256 * rest) % 256 == low && (low + 256 * rest) / 256 == rest
  {
  }

  lemma {:induction false} FromLERoundTrip(b: Bytes)
    ensures LE(FromLE(b), |b|) == b && FromLE(b) < Pow256(|b|)
  {
    if |b| > 0 {
      FromLERoundTrip(b[1..]);
      LowByte(b[0] as nat, FromLE(b[1..]));
      assert b == [b[0]] + b[1..];
    }
  }

  lemma FourBytes(n: U32)
    ensures FromLE(LE(n, 4)) == n
  {
    assert Pow256(1) == 256 && Pow256(2) == 256 * Pow256(1) && Pow256(3) == 256 * Pow256(2);
    assert Pow256(4) == 256 * Pow256(3);
    LERoundTrip(n, 4);
  }

  lemma FromFourBytes(b: Bytes, n: U32)
    requires |b| == 4
    ensures FromLE(b) == n <==> b == LE(n, 4)
  {
    FromLERoundTrip(b);
    FourBytes(n);
  }

  function Zeros(n: nat): (z: Bytes)
    ensures |z| == n && forall i :: 0 <= i < n ==> z[i] == 0
  {
    seq(n, _ => 0)
  }

  lemma {:induction false} FromLEZeros(n: nat)
    ensures FromLE(Zeros(n)) == 0
  {
    if n > 0 {
      FromLEZeros(n - 1);
      assert Zeros(n)[1..] == Zeros(n - 1);
    }
  }

  /** The bytes `b` lie at offset `pos`. */
  ghost predicate Holds(data: Bytes, pos: nat, b: Bytes) {
    pos + |b| <= |data| && data[pos..pos + |b|] == b
  }

  lemma HoldsSplit(data: Bytes, pos: nat, a: Bytes, b: Bytes)
    requires Holds(data, pos, a + b)
    ensures Holds(data, pos, a) && Holds(data, pos + |a|, b)
  {
    var ab := data[pos..pos + |a| + |b|];
    assert ab[..|a|] == a && ab[|a|..] == b;
  }

  lemma HoldsAt(data: Bytes, pos: nat, b: Bytes, i: nat)
    requires Holds(data, pos, b) && i < |b|
    ensures data[pos + i] == b[i]
  {
    assert data[pos..pos + |b|][i] == data[pos + i];
  }

  lemma HoldsPrefix(front: Bytes, b: Bytes, data: Bytes)
    requires front + b <= data
    ensures Holds(data, |front|, b)
  {
    var both := front + b;
    assert forall i :: 0 <= i < |both| ==> data[i] == both[i];
  }
}
