/** One step of Skilling's transform and the orders in which decode and encode
    run the steps. The same step rule appears in both directions. */
module Skilling {
  import opened BitPlanes

  /** A step position: bit (column) `bit`, dimension (row) `dim`. */
  datatype Pos = Pos(bit: nat, dim: nat)

  ghost predicate InBounds(steps: seq<Pos>, D: nat, B: nat)
  {
    forall k :: 0 <= k < |steps| ==> steps[k].bit < B && steps[k].dim < D
  }

  /** The step at `p`, read as what it does: with `mask` the bit at (p.dim, p.bit),
      the columns strictly right of `p.bit` either have row 0 complemented (mask
      set) or rows 0 and `p.dim` exchanged (mask clear). Nothing else moves. */
  function Step(M: seq<seq<bool>>, D: nat, B: nat, p: Pos): (r: seq<seq<bool>>)
    requires IsMatrix(M, D, B) && p.bit < B && p.dim < D
    ensures IsMatrix(r, D, B)
    ensures r[p.dim][p.bit] == M[p.dim][p.bit]
  {
    var mask := M[p.dim][p.bit];
    seq(D, d requires 0 <= d < D =>
      seq(B, c requires 0 <= c < B =>
        if c <= p.bit then M[d][c]
        else if d == 0 then (if mask then !M[0][c] else M[p.dim][c])
        else if d == p.dim then (if mask then M[d][c] else M[0][c])
        else M[d][c]))
  }

  /** Only columns right of `p.bit` of rows 0 and `p.dim` can change, so in
      particular the mask bit itself is left alone. */
  lemma StepFrame(M: seq<seq<bool>>, D: nat, B: nat, p: Pos, d: nat, c: nat)
    requires IsMatrix(M, D, B) && p.bit < B && p.dim < D && d < D && c < B
    requires c <= p.bit || (d != 0 && d != p.dim)
    ensures Step(M, D, B, p)[d][c] == M[d][c]
  {
  }

  /** With the mask clear and `p.dim == 0` the step changes nothing. */
  lemma StepIdle(M: seq<seq<bool>>, D: nat, B: nat, p: Pos)
    requires IsMatrix(M, D, B) && p.bit < B && p.dim == 0 < D && !M[0][p.bit]
    ensures Step(M, D, B, p) == M
  {
    MatrixExt(Step(M, D, B, p), M, D, B);
  }

  /** Every step undoes itself, because the mask column is not modified. */
  lemma StepInvolution(M: seq<seq<bool>>, D: nat, B: nat, p: Pos)
    requires IsMatrix(M, D, B) && p.bit < B && p.dim < D
    ensures Step(Step(M, D, B, p), D, B, p) == M
  {
    var S := Step(M, D, B, p);
    var T := Step(S, D, B, p);
    assert S[p.dim][p.bit] == M[p.dim][p.bit];
    forall d, c | 0 <= d < D && 0 <= c < B
      ensures T[d][c] == M[d][c]
    {
    }
    MatrixExt(T, M, D, B);
  }

  /** The step as the Python code performs it on the bit-plane array, one column
      at a time: XOR row 0 with the mask, then, where the mask is clear and
      rows 0 and `p.dim` differ, flip both. The mask is read from the array
      each time (a numpy view); the step never writes its column. */
  method ApplyStep(m: array2<bool>, p: Pos)
    requires p.bit < m.Length1 && p.dim < m.Length0
    modifies m
    ensures Rows(m) == Step(old(Rows(m)), m.Length0, m.Length1, p)
  {
    RowsAt(m);
    ghost var M0 := Rows(m);
    ghost var S := Step(M0, m.Length0, m.Length1, p);
    var c := p.bit + 1;
    while c < m.Length1
      invariant p.bit + 1 <= c <= m.Length1
      invariant forall d, j :: 0 <= d < m.Length0 && 0 <= j < m.Length1 ==>
        m[d, j] == if j < c then S[d][j] else M0[d][j]
    {
      m[0, c] := m[0, c] != m[p.dim, p.bit];
      var toFlip := !m[p.dim, p.bit] && (m[0, c] != m[p.dim, c]);
      m[p.dim, c] := m[p.dim, c] != toFlip;
      m[0, c] := m[0, c] != toFlip;
      c := c + 1;
    }
    RowsAt(m);
    MatrixExt(Rows(m), S, m.Length0, m.Length1);
  }

  /** Run `steps` on `M`, first to last. */
  function Apply(M: seq<seq<bool>>, D: nat, B: nat, steps: seq<Pos>): (r: seq<seq<bool>>)
    requires IsMatrix(M, D, B) && InBounds(steps, D, B)
    ensures IsMatrix(r, D, B)
    decreases |steps|
  {
    if steps == [] then M else Apply(Step(M, D, B, steps[0]), D, B, steps[1..])
  }

  lemma ApplyCons(M: seq<seq<bool>>, D: nat, B: nat, x: Pos, rest: seq<Pos>)
    requires IsMatrix(M, D, B) && x.bit < B && x.dim < D && InBounds(rest, D, B)
    ensures InBounds([x] + rest, D, B)
    ensures Apply(M, D, B, [x] + rest) == Apply(Step(M, D, B, x), D, B, rest)
  {
    InBoundsConcat([x], rest, D, B);
    assert ([x] + rest)[1..] == rest;
  }

  lemma ApplySnoc(M: seq<seq<bool>>, D: nat, B: nat, s: seq<Pos>, x: Pos)
    requires IsMatrix(M, D, B) && InBounds(s, D, B) && x.bit < B && x.dim < D
    ensures InBounds(s + [x], D, B)
    ensures Apply(M, D, B, s + [x]) == Step(Apply(M, D, B, s), D, B, x)
  {
    ApplyConcat(M, D, B, s, [x]);
    assert Apply(Apply(M, D, B, s), D, B, [x]) == Apply(Step(Apply(M, D, B, s), D, B, x), D, B, []);
  }

  lemma DimsInBounds(bit: nat, n: nat, D: nat, B: nat)
    requires bit < B && n <= D
    ensures InBounds(DescDims(bit, n), D, B) && InBounds(AscDims(bit, n), D, B)
  {
  }

  lemma InBoundsConcat(s: seq<Pos>, t: seq<Pos>, D: nat, B: nat)
    requires InBounds(s, D, B) && InBounds(t, D, B)
    ensures InBounds(s + t, D, B)
  {
    forall k | 0 <= k < |s + t|
      ensures (s + t)[k].bit < B && (s + t)[k].dim < D
    {
      if k >= |s| {
        assert (s + t)[k] == t[k - |s|];
      }
    }
  }

  lemma {:induction false} ApplyConcat(M: seq<seq<bool>>, D: nat, B: nat, s: seq<Pos>, t: seq<Pos>)
    requires IsMatrix(M, D, B) && InBounds(s, D, B) && InBounds(t, D, B)
    ensures InBounds(s + t, D, B)
    ensures Apply(M, D, B, s + t) == Apply(Apply(M, D, B, s), D, B, t)
    decreases |s|
  {
    InBoundsConcat(s, t, D, B);
    if s != [] {
      assert (s + t)[0] == s[0];
      assert (s + t)[1..] == s[1..] + t;
      ApplyConcat(Step(M, D, B, s[0]), D, B, s[1..], t);
    } else {
      assert s + t == t;
    }
  }

  function Reverse<T>(s: seq<T>): (r: seq<T>)
    ensures |r| == |s|
  {
    if s == [] then [] else Reverse(s[1..]) + [s[0]]
  }

  /** Entry `k` of the reversal is entry `|s| - 1 - k` of `s`. */
  lemma {:induction false} ReverseAt<T>(s: seq<T>)
    ensures forall k :: 0 <= k < |s| ==> Reverse(s)[k] == s[|s| - 1 - k]
  {
    if s != [] {
      ReverseAt(s[1..]);
    }
  }

  lemma ReverseConcat<T>(s: seq<T>, t: seq<T>)
    ensures Reverse(s + t) == Reverse(t) + Reverse(s)
  {
    ReverseAt(s + t);
    ReverseAt(s);
    ReverseAt(t);
    assert forall k :: 0 <= k < |s + t| ==> Reverse(s + t)[k] == (Reverse(t) + Reverse(s))[k];
  }

  lemma ReverseReverse<T>(s: seq<T>)
    ensures Reverse(Reverse(s)) == s
  {
    ReverseAt(s);
    ReverseAt(Reverse(s));
    assert forall k :: 0 <= k < |s| ==> Reverse(Reverse(s))[k] == s[k];
  }

  /** Running the steps of `s`, then the same steps in reverse order, restores `M`. */
  lemma {:induction false} ApplyUndo(M: seq<seq<bool>>, D: nat, B: nat, s: seq<Pos>)
    requires IsMatrix(M, D, B) && InBounds(s, D, B)
    ensures InBounds(Reverse(s), D, B)
    ensures Apply(Apply(M, D, B, s), D, B, Reverse(s)) == M
    decreases |s|
  {
    if s != [] {
      var x := s[0];
      var M1 := Step(M, D, B, x);
      ApplyUndo(M1, D, B, s[1..]);
      var N := Apply(M, D, B, s);
      assert N == Apply(M1, D, B, s[1..]);
      ApplyConcat(N, D, B, Reverse(s[1..]), [x]);
      assert Apply(M1, D, B, [x]) == Apply(Step(M1, D, B, x), D, B, []);
      StepInvolution(M, D, B, x);
    }
  }

  /** Dimensions `0 .. n-1` at bit `bit`, ascending (encode's inner loop). */
  function AscDims(bit: nat, n: nat): (r: seq<Pos>)
    ensures |r| == n && forall k :: 0 <= k < n ==> r[k] == Pos(bit, k)
  {
    if n == 0 then [] else AscDims(bit, n - 1) + [Pos(bit, n - 1)]
  }

  /** Dimensions `n-1` down to `0` at bit `bit` (decode's inner loop). */
  function DescDims(bit: nat, n: nat): (r: seq<Pos>)
    ensures |r| == n && forall k :: 0 <= k < n ==> r[k] == Pos(bit, n - 1 - k)
  {
    if n == 0 then [] else [Pos(bit, n - 1)] + DescDims(bit, n - 1)
  }

  /** Encode's order: bit `0 .. n-1` ascending, each with every dimension ascending. */
  function AscBits(D: nat, n: nat): (r: seq<Pos>)
    ensures InBounds(r, D, n)
  {
    if n == 0 then [] else
      var r := AscBits(D, n - 1) + AscDims(n - 1, D);
      InBoundsConcat(AscBits(D, n - 1), AscDims(n - 1, D), D, n);
      r
  }

  /** Decode's order: bit `n-1` down to `0`, each with every dimension descending. */
  function DescBits(D: nat, n: nat): (r: seq<Pos>)
    ensures InBounds(r, D, n)
  {
    if n == 0 then [] else
      var r := DescDims(n - 1, D) + DescBits(D, n - 1);
      InBoundsConcat(DescDims(n - 1, D), DescBits(D, n - 1), D, n);
      r
  }

  /** Decode's steps at one bit down from dimension `dim`: that step, then the
      dimensions below. */
  lemma ApplyDescDimsStep(M: seq<seq<bool>>, D: nat, B: nat, bit: nat, dim: nat)
    requires IsMatrix(M, D, B) && bit < B && dim < D
    ensures InBounds(DescDims(bit, dim), D, B) && InBounds(DescDims(bit, dim + 1), D, B)
    ensures Apply(M, D, B, DescDims(bit, dim + 1)) ==
      Apply(Step(M, D, B, Pos(bit, dim)), D, B, DescDims(bit, dim))
  {
    DimsInBounds(bit, dim, D, B);
    DimsInBounds(bit, dim + 1, D, B);
    assert DescDims(bit, dim + 1) == [Pos(bit, dim)] + DescDims(bit, dim);
    ApplyCons(M, D, B, Pos(bit, dim), DescDims(bit, dim));
  }

  /** Decode's steps down from bit `bit` are that bit's dimensions, then the bits below. */
  lemma ApplyDescBitsStep(M: seq<seq<bool>>, D: nat, B: nat, bit: nat)
    requires IsMatrix(M, D, B) && bit < B
    ensures InBounds(DescDims(bit, D), D, B) && InBounds(DescBits(D, bit), D, B)
    ensures InBounds(DescBits(D, bit + 1), D, B)
    ensures Apply(M, D, B, DescBits(D, bit + 1)) ==
      Apply(Apply(M, D, B, DescDims(bit, D)), D, B, DescBits(D, bit))
  {
    DimsInBounds(bit, D, D, B);
    InBoundsWiden(DescBits(D, bit), D, bit, B);
    InBoundsWiden(DescBits(D, bit + 1), D, bit + 1, B);
    assert DescBits(D, bit + 1) == DescDims(bit, D) + DescBits(D, bit);
    ApplyConcat(M, D, B, DescDims(bit, D), DescBits(D, bit));
  }

  /** Encode's steps up to bit `bit` are the bits below, then that bit's dimensions. */
  lemma ApplyAscBitsStep(M: seq<seq<bool>>, D: nat, B: nat, bit: nat)
    requires IsMatrix(M, D, B) && bit < B
    ensures InBounds(AscDims(bit, D), D, B) && InBounds(AscBits(D, bit), D, B)
    ensures InBounds(AscBits(D, bit + 1), D, B)
    ensures Apply(M, D, B, AscBits(D, bit + 1)) ==
      Apply(Apply(M, D, B, AscBits(D, bit)), D, B, AscDims(bit, D))
  {
    DimsInBounds(bit, D, D, B);
    InBoundsWiden(AscBits(D, bit), D, bit, B);
    InBoundsWiden(AscBits(D, bit + 1), D, bit + 1, B);
    assert AscBits(D, bit + 1) == AscBits(D, bit) + AscDims(bit, D);
    ApplyConcat(M, D, B, AscBits(D, bit), AscDims(bit, D));
  }

  lemma InBoundsWiden(s: seq<Pos>, D: nat, n: nat, B: nat)
    requires InBounds(s, D, n) && n <= B
    ensures InBounds(s, D, B)
  {
  }

  lemma ReverseAscDims(bit: nat, n: nat)
    ensures Reverse(AscDims(bit, n)) == DescDims(bit, n)
  {
    ReverseAt(AscDims(bit, n));
    assert forall k :: 0 <= k < n ==> Reverse(AscDims(bit, n))[k] == DescDims(bit, n)[k];
  }

  lemma {:induction false} ReverseAscBits(D: nat, n: nat)
    ensures Reverse(AscBits(D, n)) == DescBits(D, n)
  {
    if n > 0 {
      var prefix, last := AscBits(D, n - 1), AscDims(n - 1, D);
      assert AscBits(D, n) == prefix + last;
      assert DescBits(D, n) == DescDims(n - 1, D) + DescBits(D, n - 1);
      ReverseAscBits(D, n - 1);
      ReverseConcat(prefix, last);
      ReverseAscDims(n - 1, D);
    }
  }

  /** Decode visits exactly encode's steps, in the opposite order. */
  lemma DecodeOrderReversesEncode(D: nat, n: nat)
    ensures Reverse(AscBits(D, n)) == DescBits(D, n)
    ensures Reverse(DescBits(D, n)) == AscBits(D, n)
  {
    ReverseAscBits(D, n);
    ReverseReverse(AscBits(D, n));
  }
}
