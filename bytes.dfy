/** Bytes and the little-endian integer layout of `u64::to_le_bytes`. */
module Bytes {

  type byte = x: nat | x < 256

  /** The width of a `u64`. */
  const U64_BYTES: nat := 8

  const TWO_TO_64: nat := 0x1_0000_0000_0000_0000

  function Pow256(k: nat): (p: nat)
    ensures p >= 1
  {
    if k == 0 then 1 else 256 * Pow256(k - 1)
  }

  lemma Pow256Of8()
    ensures Pow256(U64_BYTES) == TWO_TO_64
  {
  }

  /**
   * The `k` low-order bytes of `n`, least significant first: the bytes
   * denote `n` reduced modulo `256^k`, as a cast to a `k`-byte integer does.
   */
  function LittleEndian(n: nat, k: nat): (r: seq<byte>)
    ensures |r| == k
    ensures LittleEndianValue(r) == n % Pow256(k)
  {
    if k == 0 then []
    else
      var rest := LittleEndian(n / 256, k - 1);
      assert ([n % 256] + rest)[1..] == rest;
      LowBytesSplit(n, Pow256(k - 1));
      [n % 256] + rest
  }

  /** Reducing modulo `256 p` keeps the low byte and reduces the rest modulo `p`. */
  lemma LowBytesSplit(n: nat, p: nat)
    requires p >= 1
    ensures n % 256 + 256 * ((n / 256) % p) == n % (256 * p)
  {
    var q, a := n / 256, n % 256;
    var m, b := q / p, q % p;
    assert q == p * m + b;
    assert n == (256 * p) * m + (256 * b + a) by {
      assert n == 256 * q + a;
      assert 256 * q == 256 * p * m + 256 * b;
    }
    ModOfSplit(n, 256 * p, m, 256 * b + a);
  }

  /** `x` is the remainder of `d m + x` by `d` when `0 <= x < d`. */
  lemma ModOfSplit(n: nat, d: nat, m: nat, x: nat)
    requires 0 <= x < d && n == d * m + x
    ensures n % d == x
  {
    var m', x' := n / d, n % d;
    assert n == d * m' + x';
    MulGrows(d, m, m');
    MulGrows(d, m', m);
  }

  lemma MulGrows(d: nat, a: nat, b: nat)
    ensures a < b ==> d * a + d <= d * b
  {
    if a < b {
      var e: nat := b - a - 1;
      assert d * b == d * a + d + d * e;
    }
  }

  /** The number a little-endian byte string denotes (`u64::from_le_bytes` for eight bytes). */
  function LittleEndianValue(b: seq<byte>): (n: nat)
    ensures n < Pow256(|b|)
  {
    if b == [] then 0 else b[0] + 256 * LittleEndianValue(b[1..])
  }

  /** Reading back the `k` bytes written for `n` gives `n` whenever it fits. */
  lemma LittleEndianRoundTrip(n: nat, k: nat)
    requires n < Pow256(k)
    ensures LittleEndianValue(LittleEndian(n, k)) == n
  {
    ModOfSplit(n, Pow256(k), 0, n);
  }

  /** Writing the value of a byte string gives back that byte string. */
  lemma {:induction false} LittleEndianValueRoundTrip(b: seq<byte>)
    ensures LittleEndian(LittleEndianValue(b), |b|) == b
  {
    if b != [] {
      var rest := LittleEndianValue(b[1..]);
      assert (b[0] + 256 * rest) / 256 == rest;
      assert (b[0] + 256 * rest) % 256 == b[0];
      LittleEndianValueRoundTrip(b[1..]);
    }
  }
}
