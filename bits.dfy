/** Fixed-width unsigned integers as most-significant-bit-first bit sequences.
    This stands in for the byte plumbing of the Python code (casting to big-endian
    uint64, unpacking to bits, padding, packing back): a value is read as the
    binary number its bits spell, most significant first. */
module Bits {

  function Pow2(n: nat): (r: nat)
    ensures r >= 1
  {
    if n == 0 then 1 else 2 * Pow2(n - 1)
  }

  /** `n` zero bits. */
  function Zeros(n: nat): (r: seq<bool>)
    ensures |r| == n && forall i :: 0 <= i < n ==> !r[i]
  {
    seq(n, i => false)
  }

  /** The number an MSB-first bit sequence spells. */
  function ToNat(bs: seq<bool>): (r: nat)
    ensures bs == [] ==> r == 0
  {
    if bs == [] then 0 else 2 * ToNat(bs[..|bs| - 1]) + (if bs[|bs| - 1] then 1 else 0)
  }

  /** The low `w` bits of `x`, most significant first. */
  function FromNat(x: nat, w: nat): (r: seq<bool>)
    ensures |r| == w
  {
    if w == 0 then [] else FromNat(x / 2, w - 1) + [x % 2 == 1]
  }

  lemma {:induction false} ToNatBound(bs: seq<bool>)
    ensures ToNat(bs) < Pow2(|bs|)
  {
    if bs != [] {
      ToNatBound(bs[..|bs| - 1]);
    }
  }

  lemma {:induction false} ToNatFromNat(x: nat, w: nat)
    ensures ToNat(FromNat(x, w)) == x % Pow2(w)
  {
    if w > 0 {
      var r := FromNat(x, w);
      assert r[..w - 1] == FromNat(x / 2, w - 1);
      ToNatFromNat(x / 2, w - 1);
      ModDouble(x, Pow2(w - 1));
    }
  }

  /** x mod 2p, split into its two lowest parts. */
  lemma ModDouble(x: nat, p: nat)
    requires p >= 1
    ensures x % (2 * p) == 2 * ((x / 2) % p) + x % 2
  {
    var q := (x / 2) / p;
    var s := (x / 2) % p;
    assert x / 2 == q * p + s;
    assert x == 2 * (x / 2) + x % 2;
    assert x == q * (2 * p) + (2 * s + x % 2);
    ModUnique(x, 2 * p, q, 2 * s + x % 2);
  }

  /** Quotient and remainder are determined by `x == q * m + r`, `0 <= r < m`. */
  lemma ModUnique(x: int, m: int, q: int, r: int)
    requires m > 0 && x == q * m + r && 0 <= r < m
    ensures x % m == r
  {
    var q0, r0 := x / m, x % m;
    assert x == q0 * m + r0;
    assert (q0 - q) * m == r - r0;
    if q0 > q {
      MulAtLeast(q0 - q, m);
    } else if q0 < q {
      MulAtLeast(q - q0, m);
    }
  }

  lemma MulAtLeast(k: int, m: int)
    requires k >= 1 && m > 0
    ensures k * m >= m
  {
    assert k * m == (k - 1) * m + m;
  }

  lemma {:induction false} FromNatToNat(bs: seq<bool>)
    ensures FromNat(ToNat(bs), |bs|) == bs
  {
    if bs != [] {
      var n := |bs|;
      var init := bs[..n - 1];
      var v := ToNat(bs);
      assert v / 2 == ToNat(init);
      assert (v % 2 == 1) == bs[n - 1];
      FromNatToNat(init);
      assert bs == init + [bs[n - 1]];
    }
  }

  /** Leading zeros do not change the value. */
  lemma {:induction false} ToNatZeros(k: nat, bs: seq<bool>)
    ensures ToNat(Zeros(k) + bs) == ToNat(bs)
  {
    if bs == [] {
      ToNatAllZero(k);
      assert Zeros(k) + bs == Zeros(k);
    } else {
      var n := |bs|;
      assert (Zeros(k) + bs)[..k + n - 1] == Zeros(k) + bs[..n - 1];
      ToNatZeros(k, bs[..n - 1]);
    }
  }

  lemma {:induction false} ToNatAllZero(k: nat)
    ensures ToNat(Zeros(k)) == 0
  {
    if k > 0 {
      assert Zeros(k)[..k - 1] == Zeros(k - 1);
      ToNatAllZero(k - 1);
    }
  }

  /** Keeping the last `w` of `a + w` bits is the same as taking `w` bits. */
  lemma {:induction false} FromNatSuffix(x: nat, a: nat, w: nat)
    ensures FromNat(x, a + w)[a..] == FromNat(x, w)
  {
    if w > 0 {
      FromNatSuffix(x / 2, a, w - 1);
      assert FromNat(x, a + w)[a..] == FromNat(x / 2, a + w - 1)[a..] + [x % 2 == 1];
    }
  }

  /** Bits above position `w` do not reach `FromNat(x, w)`. */
  lemma FromNatMod(x: nat, w: nat)
    ensures FromNat(x % Pow2(w), w) == FromNat(x, w)
  {
    ToNatFromNat(x, w);
    FromNatToNat(FromNat(x, w));
  }

  /** The last `w` bits of the 64-bit big-endian form of `x`
      (numpy `unpackbits(x.astype('>u8'))[-w:]`). */
  function LowBits(x: nat, w: nat): (r: seq<bool>)
    requires w <= 64
    ensures r == FromNat(x, w)
    ensures ToNat(r) == x % Pow2(w)
  {
    FromNatSuffix(x, 64 - w, w);
    ToNatFromNat(x, w);
    FromNat(x, 64)[64 - w..]
  }

  /** A row of at most 64 bits, zero-padded on the left to 64 bits and read
      back as an unsigned integer. */
  function Pack(bs: seq<bool>): (r: nat)
    requires |bs| <= 64
    ensures r == ToNat(bs) && r < Pow2(|bs|)
  {
    ToNatZeros(64 - |bs|, bs);
    ToNatBound(bs);
    ToNat(Zeros(64 - |bs|) + bs)
  }
}
