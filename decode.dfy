/** Hilbert index to coordinates, one index at a time. */
module Decode {
  import opened Bits
  import opened Outcomes
  import opened Gray
  import opened BitPlanes
  import opened Skilling

  /** Decode's step order: `bit` from num_bits-1 down to 0, and for each,
      `dim` from num_dims-1 down to 0. */
  function DecodeOrder(D: nat, B: nat): (r: seq<Pos>)
    ensures InBounds(r, D, B)
  {
    DescBits(D, B)
  }

  /** Each row read as an MSB-first binary number, in dimension order. */
  function Coords(M: seq<seq<bool>>, D: nat, B: nat): (r: seq<nat>)
    requires IsMatrix(M, D, B) && B <= 64
    ensures |r| == D
    ensures forall d :: 0 <= d < D ==> r[d] == ToNat(M[d]) && r[d] < Pow2(B)
  {
    seq(D, d requires 0 <= d < D => Pack(M[d]))
  }

  /** The coordinates `decode` assigns to index `h`. */
  function Decoded(h: nat, D: nat, B: nat): (r: Result<seq<nat>>)
    requires D >= 1 && B >= 1
    ensures r.Err? <==> D * B > 64
    ensures r.Err? ==> r.error == TooManyBits
    ensures r.Ok? ==> |r.value| == D && forall d :: 0 <= d < D ==> r.value[d] < Pow2(B)
  {
    if D * B > 64 then Err(TooManyBits)
    else
      MulAtLeast(D, B);
      var gray := BinaryToGray(LowBits(h, D * B));
      Ok(Coords(Apply(Unflatten(gray, D, B), D, B, DecodeOrder(D, B)), D, B))
  }

  /** The inner loop of `decode` at one bit: `dim` from num_dims-1 down to 0. */
  method InverseBit(m: array2<bool>, bit: nat)
    requires bit < m.Length1
    modifies m
    ensures InBounds(DescDims(bit, m.Length0), m.Length0, m.Length1)
    ensures Rows(m) == Apply(old(Rows(m)), m.Length0, m.Length1, DescDims(bit, m.Length0))
  {
    var D, B := m.Length0, m.Length1;
    DimsInBounds(bit, D, D, B);
    ghost var final := Apply(Rows(m), D, B, DescDims(bit, D));
    var dim: nat := D;
    while dim > 0
      invariant dim <= D
      invariant InBounds(DescDims(bit, dim), D, B)
      invariant Apply(Rows(m), D, B, DescDims(bit, dim)) == final
    {
      dim := dim - 1;
      ApplyDescDimsStep(Rows(m), D, B, bit, dim);
      ApplyStep(m, Pos(bit, dim));
    }
  }

  /** The nested descending loops of `decode`, in place on the bit planes. */
  method InverseTransform(m: array2<bool>)
    modifies m
    ensures Rows(m) == Apply(old(Rows(m)), m.Length0, m.Length1, DecodeOrder(m.Length0, m.Length1))
  {
    var D, B := m.Length0, m.Length1;
    ghost var final := Apply(Rows(m), D, B, DescBits(D, B));
    var bit: nat := B;
    while bit > 0
      invariant bit <= B
      invariant InBounds(DescBits(D, bit), D, B)
      invariant Apply(Rows(m), D, B, DescBits(D, bit)) == final
    {
      bit := bit - 1;
      ApplyDescBitsStep(Rows(m), D, B, bit);
      InverseBit(m, bit);
    }
  }

  /** `decode` for one index. */
  method Decode(h: nat, D: nat, B: nat) returns (r: Result<seq<nat>>)
    requires D >= 1 && B >= 1
    ensures r == Decoded(h, D, B)
  {
    if D * B > 64 {
      return Err(TooManyBits);
    }
    MulAtLeast(D, B);
    var bits := LowBits(h, D * B);
    var gray := BinaryToGray(bits);
    var m := FromRows(Unflatten(gray, D, B), D, B);
    InverseTransform(m);
    r := Ok(Coords(Rows(m), D, B));
  }
}
