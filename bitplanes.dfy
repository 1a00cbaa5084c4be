/** The bit-plane matrix: one row per dimension, one column per bit position,
    most significant bit first, and its reshaping from and to the interleaved
    bit sequence of a Hilbert index. */
module BitPlanes {
  import opened Bits

  /** `M` has `D` rows of `B` bits each. */
  ghost predicate IsMatrix(M: seq<seq<bool>>, D: nat, B: nat)
  {
    |M| == D && forall d :: 0 <= d < D ==> |M[d]| == B
  }

  lemma MatrixExt(X: seq<seq<bool>>, Y: seq<seq<bool>>, D: nat, B: nat)
    requires IsMatrix(X, D, B) && IsMatrix(Y, D, B)
    requires forall d, c :: 0 <= d < D && 0 <= c < B ==> X[d][c] == Y[d][c]
    ensures X == Y
  {
    forall d | 0 <= d < D
      ensures X[d] == Y[d]
    {
      assert forall c :: 0 <= c < B ==> X[d][c] == Y[d][c];
    }
  }

  /** The matrix an `array2` currently holds. */
  function Rows(m: array2<bool>): (r: seq<seq<bool>>)
    reads m
    ensures IsMatrix(r, m.Length0, m.Length1)
  {
    seq(m.Length0, d requires 0 <= d < m.Length0 reads m =>
      seq(m.Length1, c requires 0 <= c < m.Length1 reads m => m[d, c]))
  }

  /** Entry (d, c) of `Rows(m)` is the array's entry (d, c). */
  lemma RowsAt(m: array2<bool>)
    ensures forall d, c :: 0 <= d < m.Length0 && 0 <= c < m.Length1 ==> Rows(m)[d][c] == m[d, c]
  {
  }

  /** A fresh `array2` holding `M`. */
  method FromRows(M: seq<seq<bool>>, D: nat, B: nat) returns (m: array2<bool>)
    requires IsMatrix(M, D, B)
    ensures fresh(m) && m.Length0 == D && m.Length1 == B
    ensures Rows(m) == M
  {
    m := new bool[D, B]((d, c) => if 0 <= d < |M| && 0 <= c < |M[d]| then M[d][c] else false);
    RowsAt(m);
    MatrixExt(Rows(m), M, D, B);
  }

  lemma {:induction false} MulMono(a: nat, b: nat, k: nat)
    requires a <= b
    ensures a * k <= b * k
    decreases b - a
  {
    if a < b {
      MulMono(a, b - 1, k);
      assert b * k == (b - 1) * k + k;
    }
  }

  /** Bit `b` of dimension `d` sits at `b * D + d` of the interleaved sequence. */
  lemma IndexBound(b: nat, d: nat, D: nat, B: nat)
    requires b < B && d < D
    ensures b * D + d < D * B
  {
    MulMono(b + 1, B, D);
    assert (b + 1) * D == b * D + D;
  }

  /** numpy `swapaxes(reshape(g, (num_bits, num_dims)), 0, 1)`: entry
      (dimension d, bit b) is the interleaved bit `b * D + d`. */
  function Unflatten(g: seq<bool>, D: nat, B: nat): (M: seq<seq<bool>>)
    requires |g| == D * B
    ensures IsMatrix(M, D, B)
  {
    seq(D, d requires 0 <= d < D =>
      seq(B, b requires 0 <= b < B => IndexBound(b, d, D, B); g[b * D + d]))
  }

  lemma UnflattenAt(g: seq<bool>, D: nat, B: nat, d: nat, b: nat)
    requires |g| == D * B && d < D && b < B
    ensures b * D + d < |g| && Unflatten(g, D, B)[d][b] == g[b * D + d]
  {
    IndexBound(b, d, D, B);
  }

  /** Bit position `b` of every dimension, in dimension order. */
  function Column(M: seq<seq<bool>>, D: nat, B: nat, b: nat): (r: seq<bool>)
    requires IsMatrix(M, D, B) && b < B
    ensures |r| == D
  {
    seq(D, d requires 0 <= d < D => M[d][b])
  }

  /** The first `n` columns, laid out bit-major. */
  function FlattenCols(M: seq<seq<bool>>, D: nat, B: nat, n: nat): (r: seq<bool>)
    requires IsMatrix(M, D, B) && n <= B
    ensures |r| == n * D
  {
    if n == 0 then [] else
      assert n * D == (n - 1) * D + D;
      FlattenCols(M, D, B, n - 1) + Column(M, D, B, n - 1)
  }

  /** numpy `reshape(swapaxes(M, 0, 1), num_bits * num_dims)`. */
  function Flatten(M: seq<seq<bool>>, D: nat, B: nat): (r: seq<bool>)
    requires IsMatrix(M, D, B)
    ensures |r| == D * B
  {
    FlattenCols(M, D, B, B)
  }

  lemma {:induction false} FlattenColsAt(M: seq<seq<bool>>, D: nat, B: nat, n: nat, b: nat, d: nat)
    requires IsMatrix(M, D, B) && n <= B && b < n && d < D
    ensures b * D + d < n * D && FlattenCols(M, D, B, n)[b * D + d] == M[d][b]
  {
    IndexBound(b, d, D, n);
    assert n * D == (n - 1) * D + D;
    if b < n - 1 {
      IndexBound(b, d, D, n - 1);
      FlattenColsAt(M, D, B, n - 1, b, d);
    }
  }

  /** Flattening sends row `d`, column `b` to position `b * D + d`. */
  lemma FlattenAt(M: seq<seq<bool>>, D: nat, B: nat, b: nat, d: nat)
    requires IsMatrix(M, D, B) && b < B && d < D
    ensures b * D + d < D * B && Flatten(M, D, B)[b * D + d] == M[d][b]
  {
    FlattenColsAt(M, D, B, B, b, d);
  }

  lemma UnflattenFlatten(M: seq<seq<bool>>, D: nat, B: nat)
    requires IsMatrix(M, D, B)
    ensures Unflatten(Flatten(M, D, B), D, B) == M
  {
    var U := Unflatten(Flatten(M, D, B), D, B);
    forall d, b | 0 <= d < D && 0 <= b < B
      ensures U[d][b] == M[d][b]
    {
      FlattenAt(M, D, B, b, d);
      UnflattenAt(Flatten(M, D, B), D, B, d, b);
    }
    MatrixExt(U, M, D, B);
  }

  lemma {:induction false} FlattenColsOfUnflatten(g: seq<bool>, D: nat, B: nat, n: nat)
    requires |g| == D * B && n <= B
    ensures n * D <= |g| && FlattenCols(Unflatten(g, D, B), D, B, n) == g[..n * D]
  {
    MulMono(n, B, D);
    if n > 0 {
      FlattenColsOfUnflatten(g, D, B, n - 1);
      var U := Unflatten(g, D, B);
      var lo := (n - 1) * D;
      assert n * D == lo + D;
      var col := Column(U, D, B, n - 1);
      forall d | 0 <= d < D
        ensures col[d] == g[lo + d]
      {
        UnflattenAt(g, D, B, d, n - 1);
      }
      assert g[..n * D] == g[..lo] + g[lo..n * D];
    }
  }

  lemma FlattenUnflatten(g: seq<bool>, D: nat, B: nat)
    requires |g| == D * B
    ensures Flatten(Unflatten(g, D, B), D, B) == g
  {
    FlattenColsOfUnflatten(g, D, B, B);
    assert g[..B * D] == g;
  }
}
