# numpy-hilbert-curve in Dafny

A model of the numpy-hilbert-curve core. The core is John Skilling's transform between a
Hilbert index and a point of a `num_dims`-dimensional hypercube with `num_bits` bits per
coordinate. It is modelled in both directions, together with the Gray-code primitives the
transform needs. The model works on one batch element at a time. A batch is a `seq` map over
the per-element definitions.

Modules, in dependency order:

- `Bits`: fixed-width unsigned integers as bit sequences, most significant bit first.
  - `LowBits` stands for `astype('>u8')` + `unpackbits` + keeping the last `w` bits.
  - `Pack` stands for zero-padding to 64 bits + `packbits` + `view(uint64)`.
- `Outcomes`: `Result` and the three error outcomes of the Python code.
- `Gray` (`hilbert/gray.py`): `right_shift`, `binary2gray` and `gray2binary`.
  - `gray2binary` is a method with its halving-shift `while` loop.
  - It is proved equal to the reference prefix-XOR decoding `GrayDecoded`.
- `BitPlanes`: the `num_dims × num_bits` bit matrix.
  - `Unflatten` is the reshape/transpose of decode. `Flatten` is the swap/flatten of encode.
  - `Rows` reads the `array2<bool>` the transform works on in place.
- `Skilling`: the step at `(bit, dim)`.
  - `Step` is its meaning: complement row 0, or exchange rows 0 and `dim`, right of `bit`.
  - `ApplyStep` is the in-place XOR formulation on the `array2`, proved equal to `Step`.
  - Also here: step sequences (`Apply`), the two loop orders, and the facts that each step
    is an involution and that reversed steps undo a run.
- `Decode` (`hilbert/decode.py`) and `Encode` (`hilbert/encode.py`).
  - Each has a specification function (`Decoded`, `Encoded`).
  - Each has a method that runs the Python code's nested loops in place on an `array2<bool>`.
    The method's result is proved to equal the specification function.
- `Hilbert`: the two round trips, the ignored high bits, the 2×1 unit square, and the batch
  versions.

Where the code and its documented behaviour disagree, the model follows the code:

- Gray round trip. The docstrings of `binary2gray` and `gray2binary` set no limit on the
  length, though the random round-trip test only draws lengths of 2 or more. The code cannot run
  `gray2binary` below two bits:
  - one bit gives `shift = 0.5`, and the slice in `right_shift` rejects it;
  - zero bits give `log2(0) = -inf`, and `int(np.ceil(...))` of that fails.
  `Gray.GrayToBinary` therefore requires at least two bits.
- Encode with one bit. When `num_dims * num_bits == 1`, `encode` fails in `gray2binary`
  (`Outcomes.GrayTooShort`). So both `decode(encode(c)) == c` (`Hilbert.DecodeEncode`)
  and `encode(decode(h)) == h` (`Hilbert.EncodeDecode`) are stated for products of at least 2.
- Error message. Both parameter checks build their message with three `%d` placeholders
  but only two arguments, so the call fails with a formatting error rather than the
  intended `ValueError`. Either way the call ends without a result, modelled as
  `Err(TooManyBits)`.
- Batch shape. `encode` returns the indices flattened and squeezed, not in the batch
  shape. `Hilbert.EncodeBatch` returns a flat sequence, one index per coordinate vector.

## Model

| member | source | states |
|---|---|---|
| Gray.RightShift | hilbert/gray.py:20-35 | length is kept; entry `i` is input entry `i - k` for `i >= k` and zero before |
| Gray.RightShiftAgrees | hilbert/gray.py:24-33 | for every shift `k >= 1` the pad-and-slice as written equals the zero-filling shift |
| Gray.RightShiftPastEnd | hilbert/gray.py:20-22 | when `k >= length` (equality included) the result is all zeros of the same length |
| Gray.RightShiftAsWritten | hilbert/gray.py:20-35 | `right_shift` as written: Python's slice-stop rule applies to `-k`, so the result has the input's length for `k >= 1` and is empty for `k = 0` |
| Gray.RightShiftByZeroEmpties | hilbert/gray.py:30 | shift by 0 as written returns the empty sequence; the corrected shift returns the input |
| Gray.RightShiftExamples | hilbert/tests/test_gray.py:14-61 | `1111` shifted by 1, 2 and 5 gives `0111`, `0011` and `0000` |
| Gray.PySliceStop | hilbert/gray.py:30 | a negative stop counts from the end; `-0` is the same as `0` |
| Gray.Xor | hilbert/gray.py:56 | element-wise exclusive or, length kept |
| Gray.BinaryToGray | hilbert/gray.py:53-58 | length is kept, `out[0] = in[0]`, `out[i] = in[i] XOR in[i-1]` |
| Gray.GrayDecodedOfGray | hilbert/tests/test_gray.py:152-160 | prefix-XOR decoding inverts `binary2gray` for every length |
| Gray.GrayOfGrayDecoded | hilbert/gray.py:38-80 | `binary2gray` inverts prefix-XOR decoding, so the two are a bijection |
| Gray.CeilLog2 | hilbert/gray.py:75 | the smallest `r` with `2^r >= n` |
| Gray.GrayToBinary | hilbert/gray.py:60-80 | for length `>= 2` the halving-shift loop ends, and entry `i` is the XOR of input entries `0..i` |
| Gray.GrayExamples | hilbert/tests/test_gray.py:86-136 | the test vectors: 11111→10000, 101001→111101, 1010→1111, and back 1111→1010, 10000→11111 |
| Gray.AlternatingGrayExample | hilbert/tests/test_gray.py:107-112 | `binary2gray` of sixteen bits 0101…01 is 0111…11 |
| Gray.GrayDecodedExample | hilbert/tests/test_gray.py:138-143 | Gray decoding of 111101 is 101001 |
| Gray.AlternatingDecodedExample | hilbert/tests/test_gray.py:145-150 | Gray decoding of sixteen bits 0111…11 is 0101…01 |
| Gray.ZerosFixed | hilbert/tests/test_gray.py:79-121 | all-zero maps to all-zero in both directions |
| Bits.LowBits | hilbert/decode.py:46-50 | the last `w` bits of the 64-bit big-endian form of `x` spell `x mod 2^w` |
| Bits.Pack | hilbert/decode.py:82-94 | a left-zero-padded row reads back as the number its bits spell, below `2^len` |
| Bits.ToNatFromNat | hilbert/encode.py:55-58 | writing `x` in `w` bits and reading it back gives `x mod 2^w` |
| Bits.FromNatToNat | hilbert/decode.py:82-94 | reading `w` bits as a number and writing it back in `w` bits is lossless |
| Bits.FromNatMod | hilbert/encode.py:58 | bits of `x` above position `w` do not reach its `w`-bit form |
| BitPlanes.FromRows | hilbert/decode.py:57-60 | a fresh `num_dims × num_bits` array holding the given matrix |
| BitPlanes.UnflattenAt | hilbert/decode.py:57-60 | after reshape and transpose, entry (dimension `d`, bit `b`) is interleaved bit `b*num_dims + d` |
| BitPlanes.FlattenAt | hilbert/encode.py:82-85 | flattening sends row `d`, column `b` to position `b*num_dims + d` |
| BitPlanes.UnflattenFlatten | hilbert/encode.py:82-85 | decode's reshape undoes encode's flatten |
| BitPlanes.FlattenUnflatten | hilbert/decode.py:57-60 | encode's flatten undoes decode's reshape |
| Skilling.Step | hilbert/decode.py:68-80 | the step at (bit, dim) on a `num_dims × num_bits` matrix: with the mask set, row 0 is complemented right of `bit`; with it clear, rows 0 and `dim` are exchanged there; the mask entry itself is left as is |
| Skilling.StepFrame | hilbert/decode.py:68-80 | a step changes only columns right of `bit` in rows 0 and `dim`; the mask column stays |
| Skilling.StepIdle | hilbert/decode.py:74-80 | with `dim = 0` and the mask clear a step changes nothing |
| Skilling.StepInvolution | hilbert/decode.py:69-80 | applying a step twice restores the matrix |
| Skilling.ApplyStep | hilbert/decode.py:68-80 | the in-place XOR statements on the array compute exactly the complement-or-exchange step |
| Skilling.ApplyUndo | hilbert/decode.py:63-80 | running steps and then the same steps reversed restores the matrix |
| Skilling.DecodeOrderReversesEncode | hilbert/encode.py:62-65 | decode's descending order is exactly encode's ascending order reversed, and back |
| Decode.DecodeOrder | hilbert/decode.py:63-66 | decode's step positions all lie inside the matrix |
| Decode.Coords | hilbert/decode.py:82-97 | `num_dims` coordinates in dimension order; each is its row read MSB first, below `2^num_bits` |
| Decode.Decoded | hilbert/decode.py:29-36 | error exactly when `num_dims*num_bits > 64`; otherwise `num_dims` coordinates each below `2^num_bits` |
| Decode.InverseBit | hilbert/decode.py:66-80 | the descending `dim` loop at one bit performs that bit's steps in decode's order |
| Decode.InverseTransform | hilbert/decode.py:63-80 | the nested descending loops transform the array as decode's step sequence prescribes |
| Decode.Decode | hilbert/decode.py:5-97 | the in-place decoding of one index returns `Decoded` |
| Encode.EncodeOrder | hilbert/encode.py:62-65 | encode's step positions all lie inside the matrix |
| Encode.CoordRows | hilbert/encode.py:55-58 | row `d` is the low `num_bits` bits of coordinate `d`, MSB first |
| Encode.Encoded | hilbert/encode.py:32-49 | shape mismatch is checked first, then `num_dims*num_bits > 64`, then fewer than two bits (`GrayTooShort`); otherwise the index is below `2^(num_dims*num_bits)` |
| Encode.ForwardBit | hilbert/encode.py:65-79 | the ascending `dim` loop at one bit performs that bit's steps in encode's order |
| Encode.ForwardTransform | hilbert/encode.py:60-79 | the nested ascending loops transform the array as encode's step sequence prescribes |
| Encode.Encode | hilbert/encode.py:5-102 | the in-place encoding of one coordinate vector returns `Encoded` |
| Hilbert.EncodeDecode | hilbert/encode.py:60-102 | `encode(decode(h)) == h mod 2^(num_dims*num_bits)`, and `== h` when `h` is in range |
| Hilbert.DecodeEncode | hilbert/decode.py:53-97 | `decode(encode(c)) == c` for in-range coordinates when `2 <= num_dims*num_bits <= 64` |
| Hilbert.TransformsUndo | hilbert/encode.py:60-79 | encode's transform undoes decode's and decode's undoes encode's |
| Hilbert.CoordRowsOfCoords | hilbert/encode.py:55-58 | packing rows and then unpacking them to `num_bits` bits gives the rows back |
| Hilbert.CoordsOfCoordRows | hilbert/decode.py:82-97 | in-range coordinates survive unpacking to rows and packing again |
| Hilbert.DecodeIgnoresHighBits | hilbert/decode.py:46-50 | index bits above `num_dims*num_bits` do not change the coordinates |
| Hilbert.EncodeIgnoresHighBits | hilbert/encode.py:51-58 | coordinate bits above `num_bits` do not change the index (there is no range check) |
| Hilbert.OneBitApply | hilbert/decode.py:72-80 | with one bit per dimension no column lies right of any step's bit, so the transform changes nothing |
| Hilbert.UnitSquare | hilbert/decode.py:63-97 | two dimensions of one bit: indices 0..3 decode to (0,0), (0,1), (1,1), (1,0) |
| Hilbert.DecodeBatch | hilbert/decode.py:38-46 | one coordinate vector per index, in batch order, each the decoding of its index |
| Hilbert.EncodeBatch | hilbert/encode.py:96-102 | one index per coordinate vector, flat and in batch order, each the encoding of its vector |
| Hilbert.BatchRoundTrip | hilbert/encode.py:96-102 | encoding a decoded batch of in-range indices gives the batch back |

## Left out

- Byte plumbing is replaced by `nat` ↔ MSB-first bit sequences of fixed width. This
  covers `astype('>u8')`, `view(np.uint8)`, `unpackbits`/`packbits` with little bit order,
  the bit reversal `[..., ::-1]` and `view(np.uint64)`. After the reversal and the
  little-bit-order `packbits`, the bytes reach the native-endian `view` low byte first. So the
  real result depends on the host's byte order, and the model gives the value a
  little-endian host computes (a big-endian host would get it byte-swapped).
- Decode.Decoded, Encode.Encoded: an index or coordinate of `2^64` or more does not fit
  `uint64`, and the cast `astype('>u8')` fails in the Python code without a result. The
  model does not have that error: `Bits.LowBits` keeps the low bits of any `nat`, so such a
  value is treated as its remainder modulo `2^64`. `Hilbert.DecodeIgnoresHighBits` and
  `Hilbert.EncodeIgnoresHighBits` state the model's behaviour for every `nat`.
- Negative or non-integer inputs are left out. Indices and coordinates are `nat`, so the
  wrap-around of a negative value under `astype('>u8')` is not modelled.
- Broadcasting over arbitrary batch shapes and the `axis` argument are left out. The model
  shifts and Gray-codes one 1-D sequence. `gray2binary` never passes its `axis` on to
  `right_shift` anyway.
- `np.atleast_1d`, `squeeze` and the final `reshape` are left out. A naked integer is a batch
  of one, and batches are flat sequences.
- `num_dims = 0` or `num_bits = 0` is left out. Both are required to be at least 1, because
  the slice `[..., -0:]` would select all 64 bits.
- Exact exception types and message texts are left out. Every refusal is an `Err` outcome.
- Floating point in `gray2binary`: `np.log2` and `np.ceil` are taken to be exact, giving
  `ceil(log2 n)` for the lengths that occur (at most 64).
- The Hilbert locality property (consecutive indices decode to neighbouring points) is not
  proved. The code neither states nor tests it; only the 2×1 instance is shown
  (`Hilbert.UnitSquare`).
- `show_square`, `show_cube` and the example drawing scripts are left out: they do
  matplotlib plotting.
- `setup.py` and `hilbert/__init__.py` are left out: packaging and re-exports only.

## Findings

| source | as written | input that shows it | evidently intended | confidence | as-written member | corrected member |
|---|---|---|---|---|---|---|
| hilbert/gray.py:30 | the stop of the slice is `-k`, and `-0` is `0` | `right_shift([1,1,1,1], k=0)` yields `[]` | a shift by 0 returns its input unchanged | not executed | Gray.RightShiftAsWritten | Gray.RightShift |

The defect is latent: `binary2gray` shifts by 1, and `gray2binary` shifts by powers of two
of at least 1. `Gray.RightShiftAgrees` shows that the two definitions agree on every shift
the Python code performs. The rest of the model uses `Gray.RightShift`.

