/**
 How wide a dictionary position is (internal/encoders/adaptive_encoder.go:110-160, 231-242): as many
 bits as the largest position of the dictionary needs, in whole bytes, the unused bits masked.
 */
module IndexWidth {
  import opened ByteOrder
  import opened Keys
  import opened Options

  function Pow2(k: nat): (p: nat)
    ensures p > 0
  {
    if k == 0 then 1 else 2 * Pow2(k - 1)
  }

  /** `bits.Len`. */
  function BitLen(n: nat): (k: nat) { if n == 0 then 0 else 1 + BitLen(n / 2) }

  /** `updateBitWidth`, for a dictionary of this size. */
  function BitWidth(size: nat): (w: nat) {
    if size == 0 then 0 else if BitLen(size - 1) == 0 then 1 else BitLen(size - 1)
  }

  /** The bytes a position takes. */
  function IndexSize(size: nat): (n: nat) { (BitWidth(size) + 7) / 8 }

  /** The bits of the last byte that are not used. */
  function ExtraBits(size: nat): (n: nat)
    ensures n < 8 && 8 * IndexSize(size) == BitWidth(size) + n && (size > 0 ==> IndexSize(size) > 0)
  {
    8 * IndexSize(size) - BitWidth(size)
  }

  lemma ModAtMost(x: nat, m: nat)
    requires m > 0
    ensures x % m <= x && (x < m ==> x % m == x)
  {
    if x >= m {
      assert x % m < m;
    }
  }

  /** The low `k` bits of a byte. */
  function Masked(b: Byte, k: nat): (r: Byte)
    ensures b as nat < Pow2(k) ==> r == b
  {
    ModAtMost(b as nat, Pow2(k));
    (b as nat % Pow2(k)) as Byte
  }

  /** The position as `Encode` writes it. */
  function IndexBytes(idx: nat, size: nat): (b: Bytes)
    ensures |b| == IndexSize(size)
  {
    var n, extra := IndexSize(size), ExtraBits(size);
    var out := LE(idx, n);
    if extra > 0 && n > 0 then out[n - 1 := Masked(out[n - 1], 8 - extra)] else out
  }

  /** The position as `Decode` reads it, with a dictionary of this size. */
  function ReadIndex(b: Bytes, size: nat): (idx: Option<nat>) {
    var n := IndexSize(size);
    if |b| < n then None
    else Some(if ExtraBits(size) > 0 then FromLE(b[..n]) % Pow2(BitWidth(size)) else FromLE(b[..n]))
  }

  lemma {:induction false} BitLenBounds(n: nat)
    ensures n < Pow2(BitLen(n)) && (n > 0 ==> Pow2(BitLen(n) - 1) <= n)
  {
    if n > 0 {
      BitLenBounds(n / 2);
    }
  }

  lemma {:induction false} BitLenMonotone(a: nat, b: nat)
    requires a <= b
    ensures BitLen(a) <= BitLen(b)
    decreases b
  {
    if a > 0 {
      BitLenMonotone(a / 2, b / 2);
    }
  }

  lemma {:induction false} Pow2Adds(a: nat, b: nat)
    ensures Pow2(a + b) == Pow2(a) * Pow2(b)
  {
    if a > 0 {
      Pow2Adds(a - 1, b);
      Doubled(Pow2(a - 1), Pow2(b));
    }
  }

  lemma Doubled(x: nat, y: nat)
    ensures 2 * (x * y) == (2 * x) * y
  {
  }

  lemma {:induction false} Pow2Bytes(k: nat)
    ensures Pow2(8 * k) == Pow256(k)
  {
    if k > 0 {
      Pow2Bytes(k - 1);
      Pow2Eight(8 * (k - 1));
    }
  }

  lemma Pow2Eight(k: nat)
    ensures Pow2(k + 8) == 256 * Pow2(k)
  {
    assert Pow2(k + 2) == 4 * Pow2(k);
    assert Pow2(k + 4) == 4 * Pow2(k + 2);
    assert Pow2(k + 6) == 4 * Pow2(k + 4);
    assert Pow2(k + 8) == 4 * Pow2(k + 6);
  }

  /** A position read is the low bits of its bytes, whatever they are. */
  lemma ReadsLowBits(b: Bytes, size: nat)
    ensures ReadIndex(b, size) == if |b| < IndexSize(size) then None else Some(FromLE(b[..IndexSize(size)]) % Pow2(BitWidth(size)))
  {
    if |b| >= IndexSize(size) && ExtraBits(size) == 0 {
      FromLERoundTrip(b[..IndexSize(size)]);
      Pow2Bytes(IndexSize(size));
      ModAtMost(FromLE(b[..IndexSize(size)]), Pow2(BitWidth(size)));
    }
  }

  lemma ModOfMultiple(x: nat, m: nat)
    requires m > 0
    ensures (x % (256 * m)) % 256 == x % 256 && (x % (256 * m)) / 256 == (x / 256) % m
  {
    var q, c := x / 256, x % 256;
    var k, r := q / m, q % m;
    MulAssociates(m, k);
    assert x == (256 * m) * k + (256 * r + c);
    assert 256 * r + c < 256 * m;
    RemainderIs(x, 256 * m, k, 256 * r + c);
  }

  lemma MulAssociates(m: nat, k: nat)
    ensures 256 * (m * k) == (256 * m) * k
  {
  }

  lemma RemainderIs(x: nat, d: nat, k: nat, r: nat)
    requires r < d && x == d * k + r
    ensures x % d == r
  {
    if x / d < k {
      MulLess(x / d + 1, k, d);
    } else if x / d > k {
      MulLess(k + 1, x / d, d);
    }
  }

  lemma MulLess(a: nat, b: nat, d: nat)
    requires a <= b
    ensures d * a <= d * b
  {
  }

  /** Masking the last byte takes the number modulo what is left of its bits. */
  lemma {:induction false} LEMasked(x: nat, n: nat, r: nat)
    requires n > 0 && r <= 8
    ensures LE(x, n)[n - 1 := Masked(LE(x, n)[n - 1], r)] == LE(x % (Pow256(n - 1) * Pow2(r)), n)
  {
    if n == 1 {
      OneMasked(x, r);
    } else {
      LEMasked(x / 256, n - 1, r);
      var m := Pow256(n - 2) * Pow2(r);
      MulAssociated(Pow256(n - 2), Pow2(r));
      ModOfMultiple(x, m);
      var low, top := [(x % 256) as Byte], LE(x / 256, n - 1);
      assert LE(x, n) == low + top;
      assert (low + top)[n - 1 := Masked(top[n - 2], r)] == low + top[n - 2 := Masked(top[n - 2], r)];
    }
  }

  lemma MulAssociated(a: nat, b: nat)
    ensures 256 * (a * b) == (256 * a) * b
  {
  }

  lemma OneMasked(x: nat, r: nat)
    requires r <= 8
    ensures LE(x, 1)[0 := Masked(LE(x, 1)[0], r)] == LE(x % (Pow256(0) * Pow2(r)), 1)
  {
    Pow2Adds(r, 8 - r);
    assert Pow2(8) == 256;
    ModMod(x, Pow2(r), Pow2(8 - r));
    MulAtLeast(Pow2(r), Pow2(8 - r));
    OneByteLE(x);
    OneByteLE(x % Pow2(r));
    ModAtMost(x % Pow2(r), 256);
  }

  lemma MulAtLeast(a: nat, b: nat)
    requires b > 0
    ensures a * b >= a
  {
  }

  lemma OneByteLE(x: nat)
    ensures LE(x, 1) == [(x % 256) as Byte]
  {
  }

  lemma ModMod(x: nat, p: nat, m: nat)
    requires p > 0 && p * m == 256
    ensures (x % 256) % p == x % p
  {
    var q, c := x / 256, x % 256;
    var k, r := c / p, c % p;
    Distributes(p, m, q, k);
    assert x == p * (m * q + k) + r;
    RemainderIs(x, p, m * q + k, r);
  }

  lemma Distributes(p: nat, m: nat, q: nat, k: nat)
    ensures p * (m * q + k) == (p * m) * q + p * k
  {
  }

  /** A position is written as the low bits of its number. */
  lemma WritesLowBits(idx: nat, size: nat)
    requires size > 0
    ensures IndexBytes(idx, size) == LE(idx % Pow2(BitWidth(size)), IndexSize(size))
  {
    var n, extra := IndexSize(size), ExtraBits(size);
    Pow2Bytes(n - 1);
    Pow2Bytes(n);
    Pow2Adds(8 * (n - 1), 8 - extra);
    LEMasked(idx, n, 8 - extra);
    assert BitWidth(size) == 8 * (n - 1) + (8 - extra);
    assert extra == 0 ==> Masked(LE(idx, n)[n - 1], 8) == LE(idx, n)[n - 1];
  }

  lemma SizeMonotone(size: nat, size': nat)
    requires size <= size'
    ensures BitWidth(size) <= BitWidth(size') && IndexSize(size) <= IndexSize(size')
  {
    if size > 0 {
      BitLenMonotone(size - 1, size' - 1);
    }
  }

  /** Every position of a dictionary fits its bits. */
  lemma PositionFits(idx: nat, size: nat)
    requires idx < size
    ensures idx < Pow2(BitWidth(size))
  {
    BitLenBounds(size - 1);
    assert Pow2(0) == 1 && Pow2(1) == 2;
  }

  /** The last of `n` bytes is small when the number is. */
  lemma {:induction false} TopSmall(x: nat, n: nat, r: nat)
    requires n > 0 && x < Pow256(n - 1) * Pow2(r)
    ensures LE(x, n)[n - 1] as nat < Pow2(r)
  {
    if n > 1 {
      Quartered(x, Pow256(n - 2), Pow2(r));
      TopSmall(x / 256, n - 1, r);
    }
  }

  lemma Quartered(x: nat, p: nat, q: nat)
    requires x < (256 * p) * q
    ensures x / 256 < p * q
  {
    assert (256 * p) * q == 256 * (p * q);
  }

  /** Masking takes nothing off a position of the dictionary. */
  lemma IndexIsLE(idx: nat, size: nat)
    requires idx < size
    ensures IndexBytes(idx, size) == LE(idx, IndexSize(size)) && idx < Pow256(IndexSize(size))
  {
    var n, extra := IndexSize(size), ExtraBits(size);
    PositionFits(idx, size);
    WidthInBytes(n, extra, BitWidth(size));
    TopSmall(idx, n, 8 - extra);
  }

  lemma WidthInBytes(n: nat, extra: nat, width: nat)
    requires n > 0 && extra < 8 && 8 * n == width + extra
    ensures Pow2(width) == Pow256(n - 1) * Pow2(8 - extra) && Pow2(width) <= Pow256(n)
  {
    Pow2Bytes(n - 1);
    Pow2Adds(8 * (n - 1), 8 - extra);
    Pow2Bytes(n);
    Pow2Adds(width, extra);
    AtLeast(Pow2(width), Pow2(extra));
  }

  lemma AtLeast(p: nat, q: nat)
    requires q > 0
    ensures p <= p * q
  {
  }

  /** Read with a larger dictionary, a position is itself if and only if both dictionaries need as many bytes; otherwise there is none. */
  lemma IndexLater(idx: nat, size: nat, size': nat, b: Bytes)
    requires idx < size <= size' && b == IndexBytes(idx, size)
    ensures ReadIndex(b, size') == if IndexSize(size') == IndexSize(size) then Some(idx) else None
  {
    SizeMonotone(size, size');
    if IndexSize(size') == IndexSize(size) {
      IndexIsLE(idx, size);
      LERoundTrip(idx, IndexSize(size));
      PositionFits(idx, size');
      assert b[..IndexSize(size)] == b;
      ModAtMost(idx, Pow2(BitWidth(size')));
    }
  }

  lemma {:induction false} BitLenIsSmall(n: nat, k: nat)
    ensures BitLen(n) <= k <==> n < Pow2(k)
    decreases k
  {
    if k == 0 {
      assert Pow2(0) == 1;
    } else if n > 0 {
      BitLenIsSmall(n / 2, k - 1);
    }
  }

  /** One byte is enough for just the dictionaries of at most 256 values. */
  lemma OneByte(size: nat)
    requires size > 0
    ensures IndexSize(size) == 1 <==> size <= 256
  {
    BitLenIsSmall(size - 1, 8);
    Pow2Eight(0);
    assert Pow2(0) == 1;
  }

  /** No more than eight bytes for a dictionary whose size is a 64-bit number. */
  lemma EightBytes(size: nat)
    requires size <= Pow2(64)
    ensures IndexSize(size) <= 8
  {
    if size > 0 {
      BitLenIsSmall(size - 1, 64);
    }
  }
}
