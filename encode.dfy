/** Coordinates to Hilbert index, one coordinate vector at a time. */
module Encode {
  import opened Bits
  import opened Outcomes
  import opened Gray
  import opened BitPlanes
  import opened Skilling

  /** Encode's step order: `bit` from 0 up to num_bits-1, and for each,
      `dim` from 0 up to num_dims-1. */
  function EncodeOrder(D: nat, B: nat): (r: seq<Pos>)
    ensures InBounds(r, D, B)
  {
    AscBits(D, B)
  }

  /** The low `B` bits of every coordinate, one row per dimension. */
  function CoordRows(c: seq<nat>, D: nat, B: nat): (M: seq<seq<bool>>)
    requires |c| == D && B <= 64
    ensures IsMatrix(M, D, B)
    ensures forall d :: 0 <= d < D ==> M[d] == FromNat(c[d], B) && ToNat(M[d]) == c[d] % Pow2(B)
  {
    seq(D, d requires 0 <= d < D => LowBits(c[d], B))
  }

  /** The index `encode` assigns to the coordinate vector `c`. */
  function Encoded(c: seq<nat>, D: nat, B: nat): (r: Result<nat>)
    requires D >= 1 && B >= 1
    ensures r.Err? <==> |c| != D || D * B > 64 || D * B < 2
    ensures |c| != D ==> r == Err(ShapeMismatch)
    ensures |c| == D && D * B > 64 ==> r == Err(TooManyBits)
    ensures |c| == D && D * B < 2 ==> r == Err(GrayTooShort)
    ensures r.Ok? ==> r.value < Pow2(D * B)
  {
    if |c| != D then Err(ShapeMismatch)
    else if D * B > 64 then Err(TooManyBits)
    else if D * B < 2 then Err(GrayTooShort)
    else
      MulAtLeast(D, B);
      var gray := Flatten(Apply(CoordRows(c, D, B), D, B, EncodeOrder(D, B)), D, B);
      Ok(Pack(GrayDecoded(gray)))
  }

  /** The inner loop of `encode` at one bit: `dim` from 0 up to num_dims-1. */
  method ForwardBit(m: array2<bool>, bit: nat)
    requires bit < m.Length1
    modifies m
    ensures InBounds(AscDims(bit, m.Length0), m.Length0, m.Length1)
    ensures Rows(m) == Apply(old(Rows(m)), m.Length0, m.Length1, AscDims(bit, m.Length0))
  {
    var D, B := m.Length0, m.Length1;
    ghost var M0 := Rows(m);
    for dim := 0 to D
      invariant InBounds(AscDims(bit, dim), D, B)
      invariant Rows(m) == Apply(M0, D, B, AscDims(bit, dim))
    {
      ApplyStep(m, Pos(bit, dim));
      ApplySnoc(M0, D, B, AscDims(bit, dim), Pos(bit, dim));
    }
    DimsInBounds(bit, D, D, B);
  }

  /** The nested ascending loops of `encode`, in place on the bit planes. */
  method ForwardTransform(m: array2<bool>)
    modifies m
    ensures Rows(m) == Apply(old(Rows(m)), m.Length0, m.Length1, EncodeOrder(m.Length0, m.Length1))
  {
    var D, B := m.Length0, m.Length1;
    ghost var M0 := Rows(m);
    for bit := 0 to B
      invariant InBounds(AscBits(D, bit), D, B)
      invariant Rows(m) == Apply(M0, D, B, AscBits(D, bit))
    {
      ApplyAscBitsStep(M0, D, B, bit);
      ForwardBit(m, bit);
    }
  }

  /** `encode` for one coordinate vector. */
  method Encode(c: seq<nat>, D: nat, B: nat) returns (r: Result<nat>)
    requires D >= 1 && B >= 1
    ensures r == Encoded(c, D, B)
  {
    if |c| != D {
      return Err(ShapeMismatch);
    }
    if D * B > 64 {
      return Err(TooManyBits);
    }
    MulAtLeast(D, B);
    var m := FromRows(CoordRows(c, D, B), D, B);
    ForwardTransform(m);
    var gray := Flatten(Rows(m), D, B);
    if |gray| < 2 {
      return Err(GrayTooShort);
    }
    var bin := GrayToBinary(gray);
    r := Ok(Pack(bin));
  }
}
