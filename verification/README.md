# Crop disease detector: the inference pipeline in Dafny

This project models `predictDisease`, the inference path of the crop disease
detector app. It takes the pixels of a leaf photograph scaled to 224 x 224 and
returns one of sixteen disease labels with a confidence. The steps are:

1. **Preprocessing** (`preprocess.dfy`). Every packed ARGB pixel becomes
   three signed bytes, red then green then blue. Each byte is the 8-bit
   channel minus 128. Pixels go into the buffer in the order `getPixels`
   delivers them.
2. **Inference**. The TFLite interpreter is a parameter (`Pipeline.Interpreter`).
   It is a function from the input buffer to the sixteen bytes read back from
   the output buffer, or a failure, together with the output tensor's scale
   and zero point.
3. **Score decoding** (`scores.dfy`). Every output byte is dequantized as
   `(byte - zeroPoint) * scale` and clamped into [0, 1]. The clamped vector
   then goes through softmax.
4. **Classification** (`classifier.dfy`). `maxByOrNull` picks the first index
   holding the largest normalised score, with `?: 0` as the fallback. That
   index selects the label from the fixed table and the confidence from the
   normalised scores.
5. **Error policy** (`pipeline.dfy`). Any exception inside `predictDisease`
   becomes the single `PredictionFailed` outcome. That covers a model that
   never loaded and an interpreter call that throws.

The Kotlin integer operations are written out over unbounded integers in
`numerics.dfy`:
- `shr` is floor division by a power of two.
- `and 0xFF` is the remainder modulo 256.
- `toByte()` and 32-bit `Int` subtraction wrap explicitly.

Floating-point values are modelled as reals. `exp` is a parameter that must be
positive and strictly increasing (`Scores.ExpLike`). Every result about the
softmax holds for any such function.

The softmax exponentiates the clamped scores directly, without subtracting
the maximum. The output buffer is allocated with one byte per label, and
exactly that many bytes are read back, with no further length check. Every
failure produces the same outcome.

One consequence of clamping before the softmax is
`Pipeline.PredictedConfidenceCapped`. The reported confidence always lies
between 1/16 and `e / (e + 15)`, whatever the model outputs. With the real
exponential, `e / (e + 15)` is about 15.3%.

## Model

| member | source | states |
|---|---|---|
| Numerics.ToByte | app/MainActivity.kt:127-129 | `toByte()` yields the one signed byte congruent to its argument modulo 256, and leaves values already in [-128, 127] unchanged |
| Numerics.WrapInt32 | app/MainActivity.kt:155 | 32-bit `Int` subtraction yields the one 32-bit value congruent to the exact difference modulo 2^32, and the exact difference whenever it fits |
| Numerics.ShiftRightBounds | app/MainActivity.kt:127-128 | `ShiftRight`, arithmetic `shr` by n, yields the quotient q with 2^n * q <= x < 2^n * (q + 1), so it rounds toward negative infinity on negative pixels |
| Numerics.LowByte | app/MainActivity.kt:127-129 | `and 0xFF` yields a value in [0, 255] congruent to its argument modulo 256 |
| Preprocess.ChannelsOfPack | app/MainActivity.kt:127-129 | the shift-and-mask extractors `Red`, `Green`, `Blue` (and `Alpha` for bits 24-31) recover the alpha, red, green and blue of any packed ARGB colour, including colours whose packed `Int` is negative |
| Preprocess.PackOfChannels | app/MainActivity.kt:126-129 | every 32-bit pixel is the packing of its four extracted channels, so the extraction loses nothing |
| Preprocess.EncodeChannel | app/MainActivity.kt:127-129 | an 8-bit channel value c is encoded as the signed byte c - 128, with no wrap-around |
| Preprocess.EncodePixel | app/MainActivity.kt:126-132 | a pixel contributes exactly three bytes: red, green, blue, each 128 below the channel |
| Preprocess.EncodePackedPixel | app/MainActivity.kt:127-132 | the colour packed from (a, r, g, b) encodes to [r - 128, g - 128, b - 128], whatever the alpha |
| Preprocess.EncodeInput | app/MainActivity.kt:121-133 | the buffer has three bytes per pixel, and byte i is byte i mod 3 of the encoding of pixel i div 3 |
| Preprocess.PixelLayout | app/MainActivity.kt:121-133 | pixel k's red, green and blue bytes sit at positions 3k, 3k + 1 and 3k + 2 of the buffer |
| Preprocess.DecodeEncode | app/MainActivity.kt:126-133 | adding 128 back to every byte of the buffer recovers every pixel's red, green and blue channels in order |
| Preprocess.EncodeSameIffSameColours | app/MainActivity.kt:126-133 | two images encode to the same buffer if and only if they agree on every pixel's red, green and blue channels, so alpha is ignored |
| Preprocess.EncodeInputBuffer | app/MainActivity.kt:121-133 | the `put` loop fills a 3n-byte buffer with each pixel's re-centred channels at 3k, 3k + 1 and 3k + 2, and agrees with the functional encoder |
| Scores.Dequantize | app/MainActivity.kt:153-155 | a byte b dequantizes to (b - zeroPoint) * scale whenever the subtraction cannot overflow |
| Scores.DequantizeAll | app/MainActivity.kt:148-156 | one real score per output byte, each the dequantized value of the byte at the same position |
| Scores.DequantizeKeepsOrder | app/MainActivity.kt:153-155 | with a positive scale, dequantization preserves and reflects both the order and the equality of bytes |
| Scores.DequantizeRoundTrip | app/MainActivity.kt:153-155 | with a non-zero scale, dividing by the scale and adding the zero point recovers the byte |
| Scores.Clamp | app/MainActivity.kt:159 | `coerceIn(0f, 1f)` yields a value in [0, 1] that equals its argument whenever the argument is already in range |
| Scores.ClampNearest | app/MainActivity.kt:159 | the clamped value is a point of [0, 1] nearest to the argument |
| Scores.ClampMonotone | app/MainActivity.kt:159 | clamping preserves the order of scores |
| Scores.ClampAll | app/MainActivity.kt:159 | clamping keeps the length, leaves in-range scores unchanged, sends negative scores to 0 and scores above 1 to 1 |
| Scores.ClampAllIdempotent | app/MainActivity.kt:159 | clamping an already clamped vector changes nothing |
| Scores.Normalize | app/MainActivity.kt:163-164 | dividing positive weights by their total yields entries in (0, 1] that sum to 1 and are ordered, and equal, exactly as the weights are |
| Scores.Softmax | app/MainActivity.kt:162-164 | softmax (`ExpAll` of the scores, each divided by their `Sum`) yields a probability distribution in (0, 1] summing to 1, strictly ordered, and equal, exactly where the input scores are |
| Scores.SoftmaxOfConstant | app/MainActivity.kt:162-164 | n equal scores become the uniform distribution, each entry 1/n |
| Scores.SoftmaxOfUnitScoresBounded | app/MainActivity.kt:159-164 | when every score lies in [0, 1], no probability exceeds exp(1) / (exp(1) + (n - 1) * exp(0)) |
| Classifier.ScanMax | app/MainActivity.kt:167 | the left-to-right scan that replaces its candidate only on a strictly larger value ends at the first maximum |
| Classifier.MaxByOrNull | app/MainActivity.kt:167 | `maxByOrNull` is null exactly for the empty vector, and otherwise gives the lowest index holding the maximum |
| Classifier.MaxIndex | app/MainActivity.kt:167 | `maxByOrNull ?: 0` gives 0 for the empty vector and the first maximum otherwise |
| Classifier.FirstMaxUnique | app/MainActivity.kt:167 | a vector has at most one first-maximum index, so the selection is deterministic |
| Classifier.MaxIndexIsFirstMax | app/MainActivity.kt:167 | on a non-empty vector, an index is selected if and only if it is the first maximum |
| Classifier.TieGoesToLowestIndex | app/MainActivity.kt:167 | when the maximum occurs at i and at j > i, j is not selected, and the selected index is at most i and holds the maximum |
| Classifier.ConstantSelectsFirst | app/MainActivity.kt:167 | a vector of equal scores selects index 0 |
| Classifier.SameOrderSameIndex | app/MainActivity.kt:162-167 | two vectors whose entries are ordered alike select the same index |
| Classifier.SoftmaxKeepsSelection | app/MainActivity.kt:162-167 | the index chosen from the probabilities is the index that would be chosen from the clamped scores |
| Classifier.MaxAtLeastMean | app/MainActivity.kt:167-168 | the selected score is at least the mean: the total is at most n times it |
| Classifier.Classify | app/MainActivity.kt:167-171 | an empty vector fails and a sixteen-entry vector succeeds. On success the label is the table entry at the selected index and the confidence is the largest probability |
| Pipeline.NormalizedScores | app/MainActivity.kt:148-164 | decoding gives one probability per output byte, summing to 1, and selects the same index as the clamped scores |
| Pipeline.PredictDisease | app/MainActivity.kt:115-177 | a prediction is made if and only if the model is loaded and its run does not throw. The label is the one for the first maximal clamped score, and the confidence is that class's probability, between 1/16 and 1 |
| Pipeline.ConformingModelPredicts | app/MainActivity.kt:121-140 | a loaded interpreter that runs on every 150528-byte input always yields a prediction |
| Pipeline.NormalizedScoresCapped | app/MainActivity.kt:159-164 | every probability of a sixteen-class output is at most exp(1) / (exp(1) + 15 * exp(0)), whatever the bytes and quantization |
| Pipeline.PredictedConfidenceCapped | app/MainActivity.kt:159-171 | the reported confidence never exceeds exp(1) / (exp(1) + 15 * exp(0)) |
| Pipeline.AllZeroOutputScoresZero | app/MainActivity.kt:148-159 | all-zero output bytes with zero point 0 and scale 1/128 decode to all-zero clamped scores |
| Pipeline.AllZeroOutputIsUniform | app/MainActivity.kt:148-164 | all-zero output bytes give probability 1/16 to each of the sixteen classes |
| Pipeline.AllZeroOutputPicksFirstLabel | app/MainActivity.kt:148-171 | all-zero output bytes are classified as "Corn_Blight" with confidence 1/16, through the lowest-index tie-break |

## Left out

- Floating point: scores are reals. The model covers none of the following: the rounding of `Int` to `Float`, `Float * Float`, `toDouble`, `exp` or the final `toFloat`; NaN; infinities. Two probabilities that rounding makes equal could change the tie-break.
- `exp` is a parameter constrained to be positive and strictly increasing. The bounds involving `exp(1)` are stated in those terms, not numerically.
- `Bitmap.createScaledBitmap` and `getPixels` are platform calls. The model starts from the 224 x 224 pixel array they deliver, so a zero-sized image is outside the model.
- Interpreter internals, model loading in `onCreate`, the quantization-parameter lookup and `close` in `onDestroy` are outside the model. The interpreter is a parameter carrying its run function and output quantization.
- Pipeline.Interpreter: `run` yields the sixteen bytes of the output buffer or throws. What the library does with an output tensor of a different size is not part of this model.
- `ByteBuffer.allocateDirect`, byte order and `rewind` are not modelled. Buffers are sequences, and a single-byte tensor does not depend on byte order.
- The result string is not modelled: neither `DecimalFormat("0.0%")` nor the `"label (xx.x%)"` text. The outcome carries the label and the real-valued confidence instead.
- The `Snackbar` error display, logging, the image-picking and camera callbacks, and permissions are user-interface glue, and are not part of this model.
- Scores.DequantizeAll: inherits the gap of `Scores.Dequantize`. Each entry is the scalar dequantization of its byte, with the exact value stated only for zero points that keep the subtraction inside 32 bits.
- Scores.Dequantize: the contract states the value only when the zero point keeps the 32-bit subtraction from overflowing. With a more extreme zero point, the definition uses the wrapped difference but the contract is silent.
- Pipeline.PredictDisease: the 1/16 lower bound on the confidence depends on the sixteen-label table. The general fact is `Classifier.MaxAtLeastMean`.
