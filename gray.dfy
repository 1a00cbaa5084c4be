/** Gray-code primitives on one bit sequence (the last axis of numpy-hilbert-curve's arrays). */
module Gray {
  import opened Bits

  /** Element-wise exclusive or (numpy `logical_xor`). */
  function Xor(a: seq<bool>, b: seq<bool>): (r: seq<bool>)
    requires |a| == |b|
    ensures |r| == |a| && forall i :: 0 <= i < |r| ==> r[i] == (a[i] != b[i])
  {
    seq(|a|, i requires 0 <= i < |a| => a[i] != b[i])
  }

  /** The stop index Python uses for `s[:j]` on a sequence of length `n`:
      a negative `j` counts from the end, and `-0` is plain `0`. */
  function PySliceStop(n: nat, j: int): (r: nat)
    ensures r <= n
    ensures j < 0 && -j <= n ==> r == n + j
    ensures 0 <= j <= n ==> r == j
  {
    if j < 0 then (if n + j < 0 then 0 else n + j) else if j > n then n else j
  }

  /** `right_shift` exactly as written: pad `k` zeros in front of `bits[:-k]`,
      or all zeros when the whole sequence is shifted out. */
  function RightShiftAsWritten(bits: seq<bool>, k: nat): (r: seq<bool>)
    ensures |r| == if k == 0 then 0 else |bits|
  {
    if |bits| <= k then Zeros(|bits|) else Zeros(k) + bits[..PySliceStop(|bits|, -(k as int))]
  }

  /** With `k = 0` the slice `bits[:-0]` is empty, so the shift loses the whole
      sequence instead of returning it unchanged. */
  lemma RightShiftByZeroEmpties()
    ensures RightShiftAsWritten([true, true, true, true], 0) == []
    ensures RightShift([true, true, true, true], 0) == [true, true, true, true]
  {
  }

  /** Zero-filling right shift by `k`: entry `i` is input entry `i - k`, and the
      first `k` entries are zero. */
  function RightShift(bits: seq<bool>, k: nat): (r: seq<bool>)
    ensures |r| == |bits|
    ensures forall i :: 0 <= i < |r| ==> r[i] == (k <= i && bits[i - k])
  {
    if |bits| <= k then Zeros(|bits|) else Zeros(k) + bits[..|bits| - k]
  }

  /** For every shift the Python code actually performs (k >= 1) the two agree. */
  lemma RightShiftAgrees(bits: seq<bool>, k: nat)
    requires k >= 1
    ensures RightShiftAsWritten(bits, k) == RightShift(bits, k)
  {
  }

  /** Shifting by the length or more leaves only zeros (the test is `<=`). */
  lemma RightShiftPastEnd(bits: seq<bool>, k: nat)
    requires |bits| <= k
    ensures RightShiftAsWritten(bits, k) == Zeros(|bits|)
    ensures RightShift(bits, k) == Zeros(|bits|)
  {
  }

  lemma RightShiftExamples()
    ensures RightShiftAsWritten([true, true, true, true], 1) == [false, true, true, true]
    ensures RightShiftAsWritten([true, true, true, true], 2) == [false, false, true, true]
    ensures RightShiftAsWritten([true, true, true, true], 5) == [false, false, false, false]
  {
    RightShiftAgrees([true, true, true, true], 1);
    RightShiftAgrees([true, true, true, true], 2);
    RightShiftPastEnd([true, true, true, true], 5);
  }

  /** `g` is the Gray code of `x`: the first bit is kept and every later bit
      is the exclusive or of two neighbours. */
  ghost predicate IsGrayCodeOf(g: seq<bool>, x: seq<bool>)
  {
    && |g| == |x|
    && (|x| > 0 ==> g[0] == x[0])
    && forall i :: 0 < i < |g| ==> g[i] == (x[i] != x[i - 1])
  }

  /** `x XOR (x >> 1)`. */
  function BinaryToGray(bits: seq<bool>): (r: seq<bool>)
    ensures IsGrayCodeOf(r, bits)
  {
    Xor(bits, RightShift(bits, 1))
  }

  /** Exclusive or of the first `n` entries of `g`. */
  function PrefixXor(g: seq<bool>, n: nat): (r: bool)
    requires n <= |g|
  {
    if n == 0 then false else PrefixXor(g, n - 1) != g[n - 1]
  }

  /** Reference Gray decoding: entry `i` is the exclusive or of entries `0 .. i`. */
  function GrayDecoded(g: seq<bool>): (r: seq<bool>)
    ensures |r| == |g|
  {
    seq(|g|, i requires 0 <= i < |g| => PrefixXor(g, i + 1))
  }

  lemma GrayDecodedOfGray(x: seq<bool>)
    ensures GrayDecoded(BinaryToGray(x)) == x
  {
    GrayDecodedOfGrayCode(BinaryToGray(x), x);
  }

  lemma GrayDecodedOfGrayCode(g: seq<bool>, x: seq<bool>)
    requires IsGrayCodeOf(g, x)
    ensures GrayDecoded(g) == x
  {
    forall i | 0 <= i < |x|
      ensures GrayDecoded(g)[i] == x[i]
    {
      PrefixXorOfGray(g, x, i);
    }
  }

  /** The first `i + 1` Gray bits XOR to binary bit `i`. */
  lemma {:induction false} PrefixXorOfGray(g: seq<bool>, x: seq<bool>, i: nat)
    requires IsGrayCodeOf(g, x) && i < |x|
    ensures PrefixXor(g, i + 1) == x[i]
  {
    assert PrefixXor(g, i + 1) == (PrefixXor(g, i) != g[i]);
    if i == 0 {
      assert g[0] == x[0];
    } else {
      PrefixXorOfGray(g, x, i - 1);
      assert g[i] == (x[i] != x[i - 1]);
    }
  }

  lemma GrayOfGrayDecoded(g: seq<bool>)
    ensures BinaryToGray(GrayDecoded(g)) == g
  {
    GrayCodeOfGrayDecoded(g);
    GrayCodeUnique(GrayDecoded(g), g);
  }

  lemma GrayCodeOfGrayDecoded(g: seq<bool>)
    ensures IsGrayCodeOf(g, GrayDecoded(g))
  {
    var b := GrayDecoded(g);
    if |g| > 0 {
      assert b[0] == PrefixXor(g, 1) == (PrefixXor(g, 0) != g[0]);
    }
    forall i | 0 < i < |g|
      ensures g[i] == (b[i] != b[i - 1])
    {
      assert b[i] == (PrefixXor(g, i) != g[i]);
      assert b[i - 1] == PrefixXor(g, i);
    }
  }

  /** A sequence has one Gray code. */
  lemma GrayCodeUnique(x: seq<bool>, g: seq<bool>)
    requires IsGrayCodeOf(g, x)
    ensures BinaryToGray(x) == g
  {
    var r := BinaryToGray(x);
    assert |r| == |g|;
    forall i | 0 <= i < |g|
      ensures r[i] == g[i]
    {
    }
  }

  /** `int(ceil(log2(n)))` for a length `n >= 1`. */
  function CeilLog2(n: nat): (r: nat)
    requires n >= 1
    ensures Pow2(r) >= n
    ensures r == 0 || Pow2(r - 1) < n
  {
    if n <= 1 then 0 else 1 + CeilLog2((n + 1) / 2)
  }

  /** Exclusive or of `g[i], g[i - t], g[i - 2t], ...` down to index 0. */
  ghost function StrideXor(g: seq<bool>, i: nat, t: nat): bool
    requires i < |g| && t >= 1
    decreases i
  {
    g[i] != (if i >= t then StrideXor(g, i - t, t) else false)
  }

  /** Stride `s` is stride `2s` from `i` together with stride `2s` from `i - s`. */
  lemma {:induction false} StrideSplit(g: seq<bool>, i: nat, s: nat)
    requires i < |g| && s >= 1
    ensures StrideXor(g, i, s) == (StrideXor(g, i, 2 * s) != (if i >= s then StrideXor(g, i - s, 2 * s) else false))
    decreases i
  {
    if i >= s {
      StrideSplit(g, i - s, s);
    }
  }

  lemma {:induction false} StrideOne(g: seq<bool>, i: nat)
    requires i < |g|
    ensures StrideXor(g, i, 1) == PrefixXor(g, i + 1)
  {
    if i > 0 {
      StrideOne(g, i - 1);
    }
  }

  /** One pass of `gray2binary`: XOR-ing with the copy shifted by `2^(e-1)` turns
      strides of `2^e` into strides of `2^(e-1)`. */
  lemma HalveStride(gray: seq<bool>, g: seq<bool>, next: seq<bool>, e: nat)
    requires e >= 1 && |g| == |gray|
    requires forall i :: 0 <= i < |g| ==> g[i] == StrideXor(gray, i, Pow2(e))
    requires next == Xor(g, RightShift(g, Pow2(e - 1)))
    ensures forall i :: 0 <= i < |next| ==> next[i] == StrideXor(gray, i, Pow2(e - 1))
  {
    forall i | 0 <= i < |next|
      ensures next[i] == StrideXor(gray, i, Pow2(e - 1))
    {
      StrideSplit(gray, i, Pow2(e - 1));
    }
  }

  /** `gray2binary`: XOR the sequence with copies of itself shifted by
      2^(m-1), ..., 2, 1 where m = ceil(log2 n). */
  method GrayToBinary(gray: seq<bool>) returns (bin: seq<bool>)
    requires |gray| >= 2
    ensures bin == GrayDecoded(gray)
  {
    var g := gray;
    ghost var e := CeilLog2(|gray|);
    var shift := Pow2(CeilLog2(|gray|) - 1);
    while shift > 0
      invariant |g| == |gray|
      invariant shift == if e == 0 then 0 else Pow2(e - 1)
      invariant forall i :: 0 <= i < |g| ==> g[i] == StrideXor(gray, i, Pow2(e))
      decreases shift
    {
      var next := Xor(g, RightShift(g, shift));
      HalveStride(gray, g, next, e);
      g := next;
      shift := shift / 2;
      e := e - 1;
    }
    bin := g;
    forall i | 0 <= i < |gray|
      ensures bin[i] == GrayDecoded(gray)[i]
    {
      StrideOne(gray, i);
    }
  }

  lemma GrayExamples()
    ensures BinaryToGray([true, true, true, true, true]) == [true, false, false, false, false]
    ensures BinaryToGray([true, false, true, false, false, true]) == [true, true, true, true, false, true]
    ensures BinaryToGray([true, false, true, false]) == [true, true, true, true]
    ensures GrayDecoded([true, true, true, true]) == [true, false, true, false]
    ensures GrayDecoded([true, false, false, false, false]) == [true, true, true, true, true]
  {
    GrayDecodedOfGray([true, false, true, false]);
    GrayDecodedOfGray([true, true, true, true, true]);
  }

  /** Consecutive numbers differ in parity. */
  lemma OddAlternates(i: nat)
    requires i > 0
    ensures (i % 2 == 1) != ((i - 1) % 2 == 1)
  {
    assert i == (i - 1) + 1;
  }

  /** `binary2gray` of an alternating 0101... sequence is 0111...: every entry
      differs from the one before it. */
  lemma AlternatingGray(n: nat)
    ensures BinaryToGray(seq(n, i => i % 2 == 1)) == seq(n, i => i > 0)
  {
    var x := seq(n, i => i % 2 == 1);
    var g := BinaryToGray(x);
    forall i | 0 <= i < n
      ensures g[i] == (i > 0)
    {
      if i > 0 {
        OddAlternates(i);
        assert x[i] != x[i - 1];
      }
    }
  }

  /** `binary2gray` of 0101...01 (sixteen bits) is 0111...11. */
  lemma AlternatingGrayExample()
    ensures BinaryToGray(seq(16, i => i % 2 == 1)) == seq(16, i => i > 0)
  {
    AlternatingGray(16);
  }

  /** `gray2binary` of 111101 is 101001. */
  lemma GrayDecodedExample()
    ensures GrayDecoded([true, true, true, true, false, true]) == [true, false, true, false, false, true]
  {
    assert BinaryToGray([true, false, true, false, false, true]) == [true, true, true, true, false, true];
    GrayDecodedOfGray([true, false, true, false, false, true]);
  }

  /** `gray2binary` of 0111...11 (sixteen bits) is 0101...01. */
  lemma AlternatingDecodedExample()
    ensures GrayDecoded(seq(16, i => i > 0)) == seq(16, i => i % 2 == 1)
  {
    AlternatingGray(16);
    GrayDecodedOfGray(seq(16, i => i % 2 == 1));
  }

  /** All-zero maps to all-zero in both directions. */
  lemma {:induction false} ZerosFixed(n: nat)
    ensures BinaryToGray(Zeros(n)) == Zeros(n)
    ensures GrayDecoded(Zeros(n)) == Zeros(n)
  {
    GrayDecodedOfGray(Zeros(n));
  }
}
