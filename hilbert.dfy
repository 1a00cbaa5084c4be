/** How decode and encode fit together, and the batch view of both. */
module Hilbert {
  import opened Bits
  import opened Outcomes
  import opened Gray
  import opened BitPlanes
  import opened Skilling
  import opened Decode
  import opened Encode

  /** Encoding the decoded coordinates gives back the index, reduced to its
      low num_dims * num_bits bits. */
  lemma EncodeDecode(h: nat, D: nat, B: nat)
    requires D >= 1 && B >= 1 && 2 <= D * B <= 64
    ensures Decoded(h, D, B).Ok?
    ensures Encoded(Decoded(h, D, B).value, D, B) == Ok(h % Pow2(D * B))
    ensures h < Pow2(D * B) ==> Encoded(Decoded(h, D, B).value, D, B) == Ok(h)
  {
    MulAtLeast(D, B);
    var bits := LowBits(h, D * B);
    var G := BinaryToGray(bits);
    var M0 := Unflatten(G, D, B);
    var M1 := Apply(M0, D, B, DecodeOrder(D, B));
    var c := Coords(M1, D, B);
    assert Decoded(h, D, B) == Ok(c);
    CoordRowsOfCoords(M1, D, B);
    TransformsUndo(M0, D, B);
    FlattenUnflatten(G, D, B);
    GrayDecodedOfGray(bits);
    assert Encoded(c, D, B) == Ok(Pack(GrayDecoded(Flatten(M0, D, B))));
    if h < Pow2(D * B) {
      var p := Pow2(D * B);
      assert h == 0 * p + h;
      ModUnique(h, p, 0, h);
    }
  }

  /** Decoding the encoded index gives back coordinates that fit in num_bits. */
  lemma DecodeEncode(c: seq<nat>, D: nat, B: nat)
    requires D >= 1 && B >= 1 && 2 <= D * B <= 64 && |c| == D
    requires forall d :: 0 <= d < D ==> c[d] < Pow2(B)
    ensures Encoded(c, D, B).Ok?
    ensures Decoded(Encoded(c, D, B).value, D, B) == Ok(c)
  {
    MulAtLeast(D, B);
    var E0 := CoordRows(c, D, B);
    var E1 := Apply(E0, D, B, EncodeOrder(D, B));
    var F := Flatten(E1, D, B);
    var bin := GrayDecoded(F);
    var h := Pack(bin);
    assert Encoded(c, D, B) == Ok(h);
    FromNatToNat(bin);
    GrayOfGrayDecoded(F);
    UnflattenFlatten(E1, D, B);
    assert Unflatten(BinaryToGray(LowBits(h, D * B)), D, B) == E1;
    DecodedUnfold(h, D, B);
    TransformsUndo(E0, D, B);
    CoordsOfCoordRows(c, D, B);
  }

  lemma DecodedUnfold(h: nat, D: nat, B: nat)
    requires D >= 1 && B >= 1 && D * B <= 64
    ensures B <= 64
    ensures Decoded(h, D, B) ==
      Ok(Coords(Apply(Unflatten(BinaryToGray(LowBits(h, D * B)), D, B), D, B, DecodeOrder(D, B)), D, B))
  {
    MulAtLeast(D, B);
  }

  /** Decode's transform and encode's transform undo each other. */
  lemma TransformsUndo(M: seq<seq<bool>>, D: nat, B: nat)
    requires IsMatrix(M, D, B)
    ensures Apply(Apply(M, D, B, DecodeOrder(D, B)), D, B, EncodeOrder(D, B)) == M
    ensures Apply(Apply(M, D, B, EncodeOrder(D, B)), D, B, DecodeOrder(D, B)) == M
  {
    DecodeOrderReversesEncode(D, B);
    ApplyUndo(M, D, B, DecodeOrder(D, B));
    ApplyUndo(M, D, B, EncodeOrder(D, B));
  }

  /** Reading rows as numbers and writing them back with num_bits bits is lossless. */
  lemma CoordRowsOfCoords(M: seq<seq<bool>>, D: nat, B: nat)
    requires IsMatrix(M, D, B) && B <= 64
    ensures CoordRows(Coords(M, D, B), D, B) == M
  {
    var R := CoordRows(Coords(M, D, B), D, B);
    forall d | 0 <= d < D
      ensures R[d] == M[d]
    {
      FromNatToNat(M[d]);
    }
  }

  /** Writing in-range coordinates as rows and reading them back is lossless. */
  lemma CoordsOfCoordRows(c: seq<nat>, D: nat, B: nat)
    requires |c| == D && B <= 64
    requires forall d :: 0 <= d < D ==> c[d] < Pow2(B)
    ensures Coords(CoordRows(c, D, B), D, B) == c
  {
    var r := Coords(CoordRows(c, D, B), D, B);
    forall d | 0 <= d < D
      ensures r[d] == c[d]
    {
      ModUnique(c[d], Pow2(B), 0, c[d]);
    }
  }

  /** Bits of the index above num_dims * num_bits do not affect the coordinates. */
  lemma DecodeIgnoresHighBits(h: nat, D: nat, B: nat)
    requires D >= 1 && B >= 1 && D * B <= 64
    ensures Decoded(h, D, B) == Decoded(h % Pow2(D * B), D, B)
  {
    MulAtLeast(D, B);
    FromNatMod(h, D * B);
    assert LowBits(h % Pow2(D * B), D * B) == LowBits(h, D * B);
  }

  /** Every coordinate reduced to its low `B` bits. */
  function LowCoords(c: seq<nat>, B: nat): (r: seq<nat>)
    ensures |r| == |c| && forall d :: 0 <= d < |c| ==> r[d] == c[d] % Pow2(B)
  {
    if c == [] then [] else LowCoords(c[..|c| - 1], B) + [c[|c| - 1] % Pow2(B)]
  }

  /** Bits of a coordinate above num_bits do not affect the index: there is no
      range check. */
  lemma EncodeIgnoresHighBits(c: seq<nat>, D: nat, B: nat)
    requires D >= 1 && B >= 1 && D * B <= 64 && |c| == D
    ensures Encoded(c, D, B) == Encoded(LowCoords(c, B), D, B)
  {
    MulAtLeast(D, B);
    var c' := LowCoords(c, B);
    forall d | 0 <= d < D
      ensures CoordRows(c', D, B)[d] == CoordRows(c, D, B)[d]
    {
      FromNatMod(c[d], B);
    }
    assert CoordRows(c', D, B) == CoordRows(c, D, B);
  }

  /** With one bit per dimension no column lies right of any step's bit, so
      the transform leaves the Gray-coded bits as they are. */
  lemma {:induction false} OneBitApply(M: seq<seq<bool>>, D: nat, s: seq<Pos>)
    requires IsMatrix(M, D, 1) && InBounds(s, D, 1)
    ensures Apply(M, D, 1, s) == M
    decreases |s|
  {
    if s != [] {
      MatrixExt(Step(M, D, 1, s[0]), M, D, 1);
      OneBitApply(M, D, s[1..]);
    }
  }

  /** With two dimensions of one bit, indices 0, 1, 2, 3 visit the corners of
      the unit square in the order (0,0), (0,1), (1,1), (1,0). */
  lemma UnitSquare()
    ensures Decoded(0, 2, 1) == Ok([0, 0])
    ensures Decoded(1, 2, 1) == Ok([0, 1])
    ensures Decoded(2, 2, 1) == Ok([1, 1])
    ensures Decoded(3, 2, 1) == Ok([1, 0])
  {
    UnitSquareCorner(0, false, false);
    UnitSquareCorner(1, false, true);
    UnitSquareCorner(2, true, false);
    UnitSquareCorner(3, true, true);
  }

  lemma UnitSquareCorner(h: nat, hi: bool, lo: bool)
    requires hi == ((h / 2) % 2 == 1) && lo == (h % 2 == 1)
    ensures Decoded(h, 2, 1) == Ok([if hi then 1 else 0, if hi != lo then 1 else 0])
  {
    var G := BinaryToGray(LowBits(h, 2));
    TwoBitGray(h, hi, lo);
    var M0 := Unflatten(G, 2, 1);
    UnflattenTwoByOne(G);
    OneBitApply(M0, 2, DecodeOrder(2, 1));
    DecodedUnfold(h, 2, 1);
    CoordsTwoByOne(hi, hi != lo);
  }

  lemma TwoBitGray(h: nat, hi: bool, lo: bool)
    requires hi == ((h / 2) % 2 == 1) && lo == (h % 2 == 1)
    ensures BinaryToGray(LowBits(h, 2)) == [hi, hi != lo]
  {
    assert FromNat(h, 2) == [hi, lo] by {
      assert FromNat(h, 2) == FromNat(h / 2, 1) + [lo];
      assert FromNat(h / 2, 1) == [] + [hi];
    }
  }

  lemma UnflattenTwoByOne(G: seq<bool>)
    requires |G| == 2
    ensures Unflatten(G, 2, 1) == [[G[0]], [G[1]]]
  {
    UnflattenAt(G, 2, 1, 0, 0);
    UnflattenAt(G, 2, 1, 1, 0);
    MatrixExt(Unflatten(G, 2, 1), [[G[0]], [G[1]]], 2, 1);
  }

  lemma CoordsTwoByOne(a: bool, b: bool)
    ensures Coords([[a], [b]], 2, 1) == [if a then 1 else 0, if b then 1 else 0]
  {
    assert [a][..0] == [] && [b][..0] == [];
  }

  /** `decode` over a batch of indices: one row of num_dims coordinates per
      index, in batch order. */
  function DecodeBatch(hs: seq<nat>, D: nat, B: nat): (r: Result<seq<seq<nat>>>)
    requires D >= 1 && B >= 1
    ensures r.Err? <==> D * B > 64
    ensures r.Ok? ==> |r.value| == |hs| && forall i :: 0 <= i < |hs| ==>
      |r.value[i]| == D && Decoded(hs[i], D, B) == Ok(r.value[i])
  {
    if D * B > 64 then Err(TooManyBits)
    else Ok(seq(|hs|, i requires 0 <= i < |hs| => Decoded(hs[i], D, B).value))
  }

  /** `encode` over a batch of coordinate vectors, each of length `width` (the
      last axis of the input array): one index per vector, in batch order. */
  function EncodeBatch(locs: seq<seq<nat>>, width: nat, D: nat, B: nat): (r: Result<seq<nat>>)
    requires D >= 1 && B >= 1
    requires forall i :: 0 <= i < |locs| ==> |locs[i]| == width
    ensures width != D ==> r == Err(ShapeMismatch)
    ensures width == D && D * B > 64 ==> r == Err(TooManyBits)
    ensures r.Err? <==> width != D || D * B > 64 || D * B < 2
    ensures r.Ok? ==> |r.value| == |locs| && forall i :: 0 <= i < |locs| ==>
      Encoded(locs[i], D, B) == Ok(r.value[i])
  {
    if width != D then Err(ShapeMismatch)
    else if D * B > 64 then Err(TooManyBits)
    else if D * B < 2 then Err(GrayTooShort)
    else Ok(seq(|locs|, i requires 0 <= i < |locs| => Encoded(locs[i], D, B).value))
  }

  /** Encoding a decoded batch of in-range indices gives the batch back. */
  lemma BatchRoundTrip(hs: seq<nat>, D: nat, B: nat)
    requires D >= 1 && B >= 1 && 2 <= D * B <= 64
    requires forall i :: 0 <= i < |hs| ==> hs[i] < Pow2(D * B)
    ensures DecodeBatch(hs, D, B).Ok?
    ensures EncodeBatch(DecodeBatch(hs, D, B).value, D, D, B) == Ok(hs)
  {
    var locs := DecodeBatch(hs, D, B).value;
    forall i | 0 <= i < |hs|
      ensures Encoded(locs[i], D, B) == Ok(hs[i])
    {
      EncodeDecode(hs[i], D, B);
    }
    var r := EncodeBatch(locs, D, D, B);
    assert r.value == hs;
  }
}
