# FaceR face attendance: a verified model of its exact core

FaceR is an Android attendance app. A student enrols once: the camera crops
their face and a FaceNet-style model turns the crop into a 128-float
embedding. The embedding is packed as little-endian IEEE 754 binary32 words
and stored at `embeddings/<uid>/embedding.bin`. To mark attendance, a fresh
crop is embedded. The stored blob is then downloaded (at most 8192 bytes) and
unpacked, and the two vectors are compared by cosine similarity. A score of
0.5 or more calls `markPresentFirstSession`; the screen then reports
"Attendance recorded" unless that call throws, even when it returns without
writing. Errors are reported as "No enrolled face found" when the storage
message says the object does not exist, and as "Verify failed" otherwise.

This project models that logic in Dafny, in seven modules:

- `Wrappers`: `Option`, `Result`, and the possibly-null exception message.
- `Binary32`: the real number a 32-bit float pattern denotes, per section
  3.4 of IEEE 754-2008. Infinities and NaNs denote no real.
- `ImageUtils`: `cropFace`, pure. It builds the padded square and clamps it,
  then forms the crop window under `Bitmap.createBitmap`'s bounds rule.
- `FaceEmbedder`: imperative.
  - `preprocess` writes through a float buffer class with a moving position.
  - `l2Normalize` and `cosineSimilarity` are loops proved against recursive
    specification functions.
  - `embed`: `interpreter.run` throws when the model's output does not fit
    the 1 x 128 output array; the model turns that into `OutputShapeMismatch`.
- `EmbeddingBlob`: the little-endian codec.
  - A `ByteBuffer` class whose `putFloat` and `getFloat` move a cursor.
  - The enrolment packing loop and the verification unpacking loop.
  - The storage path, and the bucket as a map from path to bytes.
- `EnrollFace`: the save handler's gating, what it uploads, and the store
  after it.
- `VerifyFace`: the verify handler as a function from its inputs to the
  external steps it takes and the status line it leaves.
  - These inputs are the live embedding or its exception, the bucket, and
    what the call to `markPresentFirstSession` did: set the record, return
    early with nothing to write under, or throw.
  - The steps are embed, read the blob, compare, and mark present.
  - Also here: the message classification, and scenario lemmas.

Arithmetic is over mathematical integers and reals.
- The square root is a function parameter. The model only requires it to be
  non-negative on non-negative inputs (`NonNegativeRoot`). The lemmas that
  need a true root require `IsSquareRoot`.
- The live embedding is a vector of reals. Stored floats are bit patterns,
  read as reals through `Binary32.Value`.

Source paths below are relative to the repository root.

## Model

| member | source | states |
|---|---|---|
| ImageUtils.Rect.CenterX | app/src/main/java/com/fyp/facer/utils/ImageUtils.kt:36 | `centerX()` is the midpoint of left and right rounded down: `2c <= l + r <= 2c + 1` |
| ImageUtils.Rect.CenterY | app/src/main/java/com/fyp/facer/utils/ImageUtils.kt:37 | `centerY()` is the midpoint of top and bottom rounded down |
| ImageUtils.Truncate | app/src/main/java/com/fyp/facer/utils/ImageUtils.kt:40-43 | `Float.toInt()` rounds toward zero: within 1 below a non-negative value, within 1 above a negative one |
| ImageUtils.PaddedSquare | app/src/main/java/com/fyp/facer/utils/ImageUtils.kt:36-38 | the pre-clamp square is centred on the box centre and its side is `max(width, height) * (1 + padRatio)` |
| ImageUtils.PaddedSquareCoversBox | app/src/main/java/com/fyp/facer/utils/ImageUtils.kt:36-43 | with a non-negative padding the square covers a well-formed box, up to the half pixel lost by rounding the centre down |
| ImageUtils.TruncateBetween | app/src/main/java/com/fyp/facer/utils/ImageUtils.kt:40-43 | `toInt()` keeps a value on the same side of any integer: at most n when the value is, at least n when the value is |
| ImageUtils.PaddedSquareContainsBox | app/src/main/java/com/fyp/facer/utils/ImageUtils.kt:36-38 | when the padding adds at least one pixel to the larger side, the padded square contains the box outright |
| ImageUtils.CropWindowCoversBox | app/src/main/java/com/fyp/facer/utils/ImageUtils.kt:36-48 | with that padding (at the callers' 0.25, a box whose larger side is at least 4) the window handed to `createBitmap` covers the part of the box inside the source, and when nothing needs clamping the edges are exactly the truncated square |
| ImageUtils.ClampedEdges | app/src/main/java/com/fyp/facer/utils/ImageUtils.kt:40-43 | left and top are never negative; right is at most width - 1 and bottom at most height - 1 |
| ImageUtils.CropWindow | app/src/main/java/com/fyp/facer/utils/ImageUtils.kt:45-48 | the crop width and height are at least 1; when right > left the window ends exactly at right, and otherwise its width is 1 (same vertically) |
| ImageUtils.CropFace | app/src/main/java/com/fyp/facer/utils/ImageUtils.kt:35-50 | the crop succeeds exactly when the window lies inside the source and size > 0; a window past the edge is `WindowOutsideSource`; a success is always `size x size` |
| ImageUtils.CropInsideWhenEdgesOrdered | app/src/main/java/com/fyp/facer/utils/ImageUtils.kt:40-48 | when the clamped right > left and bottom > top, the window lies inside the source |
| ImageUtils.CropFailsIffPastEdge | app/src/main/java/com/fyp/facer/utils/ImageUtils.kt:40-48 | for size > 0 the crop fails exactly when the clamped left or top edge is at or past the source width or height |
| ImageUtils.CropFailsForBoxPastRightEdge | app/src/main/java/com/fyp/facer/utils/ImageUtils.kt:42-48 | a box wholly past the right edge of a 100 x 100 image gives the window (147, 7, 1, 25) and the crop fails |
| FaceEmbedder.ChannelsOfArgb | app/src/main/java/com/fyp/facer/ml/FaceEmbedder.kt:47-49 | `p shr 16 and 0xFF`, `p shr 8 and 0xFF` and `p and 0xFF` read back the red, green and blue bytes of a packed ARGB int |
| FaceEmbedder.ArgbOfChannels | app/src/main/java/com/fyp/facer/ml/FaceEmbedder.kt:47-49 | every 32-bit int is the packing of its four channel bytes, so the extraction loses nothing but alpha |
| FaceEmbedder.Red | app/src/main/java/com/fyp/facer/ml/FaceEmbedder.kt:47 | `p shr 16 and 0xFF` is a byte, and it is bits 16-23 of the int read as an unsigned 32-bit word |
| FaceEmbedder.Green | app/src/main/java/com/fyp/facer/ml/FaceEmbedder.kt:48 | `p shr 8 and 0xFF` is a byte, and it is bits 8-15 of the unsigned word |
| FaceEmbedder.Blue | app/src/main/java/com/fyp/facer/ml/FaceEmbedder.kt:49 | `p and 0xFF` is a byte, and it is bits 0-7 of the unsigned word |
| FaceEmbedder.ChannelValue | app/src/main/java/com/fyp/facer/ml/FaceEmbedder.kt:47-49 | `(c - 128) / 128` of a byte lies in `[-1, 127/128]` |
| FaceEmbedder.Tensor | app/src/main/java/com/fyp/facer/ml/FaceEmbedder.kt:45-53 | the tensor has three floats per pixel |
| FaceEmbedder.TensorAt | app/src/main/java/com/fyp/facer/ml/FaceEmbedder.kt:43-53 | pixel k's R, G and B land at positions 3k, 3k+1 and 3k+2 |
| FaceEmbedder.TensorRange | app/src/main/java/com/fyp/facer/ml/FaceEmbedder.kt:47-49 | every tensor value lies in `[-1, 127/128]` |
| FaceEmbedder.TensorIgnoresAlpha | app/src/main/java/com/fyp/facer/ml/FaceEmbedder.kt:47-49 | pixels that differ only in alpha give the same floats |
| FaceEmbedder.TensorBuffer.AllocateDirect | app/src/main/java/com/fyp/facer/ml/FaceEmbedder.kt:40-41 | a fresh buffer of capacity / 4 zero floats, position 0 |
| FaceEmbedder.TensorBuffer.PutFloat | app/src/main/java/com/fyp/facer/ml/FaceEmbedder.kt:50-52 | writes at the position and advances by one, or overflows and changes nothing when full |
| FaceEmbedder.TensorBuffer.Rewind | app/src/main/java/com/fyp/facer/ml/FaceEmbedder.kt:54 | the position returns to 0 |
| FaceEmbedder.PutPixel | app/src/main/java/com/fyp/facer/ml/FaceEmbedder.kt:46-52 | the three puts of one pixel append exactly its R, G, B floats and advance the position by 3; the floats after the new position are unchanged |
| FaceEmbedder.Preprocess | app/src/main/java/com/fyp/facer/ml/FaceEmbedder.kt:37-56 | the buffer has `1*160*160*3*4` bytes, is rewound to 0, and holds exactly the tensor of the pixels in order |
| FaceEmbedder.Dot | app/src/main/java/com/fyp/facer/ml/FaceEmbedder.kt:83-84 | the accumulated dot product of a vector with itself is never negative |
| FaceEmbedder.SumSquares | app/src/main/java/com/fyp/facer/ml/FaceEmbedder.kt:85-86 | an accumulated sum of squares is never negative |
| FaceEmbedder.DotSymmetric | app/src/main/java/com/fyp/facer/ml/FaceEmbedder.kt:84 | the dot product is symmetric |
| FaceEmbedder.SumSquaresScaled | app/src/main/java/com/fyp/facer/ml/FaceEmbedder.kt:73 | scaling every element by c scales the sum of squares by c squared |
| FaceEmbedder.NormDivisor | app/src/main/java/com/fyp/facer/ml/FaceEmbedder.kt:72-73 | the divisor `sqrt(sum) + 1e-10` is at least 1e-10, so the division is always defined |
| FaceEmbedder.Normalized | app/src/main/java/com/fyp/facer/ml/FaceEmbedder.kt:73 | the normalised vector has the input's length, and each element times the divisor gives back the input element |
| FaceEmbedder.NormalizedSumSquares | app/src/main/java/com/fyp/facer/ml/FaceEmbedder.kt:69-74 | the normalised vector's sum of squares is the original's divided by the divisor squared; with a true root it lies in [0, 1), and it is positive for a non-zero vector |
| FaceEmbedder.L2Normalize | app/src/main/java/com/fyp/facer/ml/FaceEmbedder.kt:69-74 | the result has the input's length and element i is `vec[i] / (sqrt(sum of squares) + 1e-10)` |
| FaceEmbedder.Cosine | app/src/main/java/com/fyp/facer/ml/FaceEmbedder.kt:88 | the similarity is 0 exactly when the dot product is 0, and positive exactly when it is positive |
| FaceEmbedder.CosineSymmetric | app/src/main/java/com/fyp/facer/ml/FaceEmbedder.kt:80-88 | cosine similarity is symmetric in its two arguments |
| FaceEmbedder.CosineWithItself | app/src/main/java/com/fyp/facer/ml/FaceEmbedder.kt:80-88 | with a true root, a vector's similarity with itself is `s / (s + 1e-10)` for its sum of squares s, and lies in [0, 1) |
| FaceEmbedder.CauchySchwarz | app/src/main/java/com/fyp/facer/ml/FaceEmbedder.kt:83-86 | the accumulated dot product squared is at most `(na + c) * (nb + c)` for every c > 0 |
| FaceEmbedder.CosineBounded | app/src/main/java/com/fyp/facer/ml/FaceEmbedder.kt:76-88 | with a true square root the similarity lies strictly between -1 and 1, as the doc comment promises |
| FaceEmbedder.CosineSimilarity | app/src/main/java/com/fyp/facer/ml/FaceEmbedder.kt:78-89 | fails with "Embedding sizes differ" exactly when the sizes differ; otherwise the loop's dot, na and nb give the cosine over every index |
| FaceEmbedder.Embed | app/src/main/java/com/fyp/facer/ml/FaceEmbedder.kt:61-66 | succeeds exactly when the model output has 128 floats, and then returns that output normalised once, length 128 |
| Binary32.Pow2Nat | app/src/main/java/com/fyp/facer/ui/VerifyFaceScreen.kt:89 | powers of two used to scale a float's significand are positive |
| Binary32.Pow2 | app/src/main/java/com/fyp/facer/ui/VerifyFaceScreen.kt:89 | integer powers of two are positive reals |
| Binary32.Pow2NatStep | app/src/main/java/com/fyp/facer/ui/VerifyFaceScreen.kt:89 | each power of two is twice the one before |
| Binary32.Value | app/src/main/java/com/fyp/facer/ui/VerifyFaceScreen.kt:89 | a pattern denotes a real exactly when its exponent field is not all ones; the sign bit gives the sign; the value is 0 exactly for the two zero patterns |
| Binary32.Magnitude | app/src/main/java/com/fyp/facer/ui/VerifyFaceScreen.kt:89 | a finite pattern's magnitude is never negative, and is 0 exactly when exponent and fraction are both 0 |
| Binary32.ValueNegate | app/src/main/java/com/fyp/facer/ui/VerifyFaceScreen.kt:89 | setting the sign bit keeps finiteness and negates the value |
| Binary32.ValueOfOne | app/src/main/java/com/fyp/facer/ui/VerifyFaceScreen.kt:89 | 0x3F800000 denotes 1.0 |
| Binary32.ValueOfHalf | app/src/main/java/com/fyp/facer/ui/VerifyFaceScreen.kt:97 | 0x3F000000 denotes 0.5, the threshold |
| Binary32.ValueOfZerosAndNaN | app/src/main/java/com/fyp/facer/ui/VerifyFaceScreen.kt:89 | both zeros denote 0 and the canonical NaN denotes no real |
| Binary32.Values | app/src/main/java/com/fyp/facer/ui/VerifyFaceScreen.kt:89-92 | a vector of patterns has real values exactly when every element is finite, and then element by element |
| EmbeddingBlob.WordBytes | app/src/main/java/com/fyp/facer/ui/EnrollFaceScreen.kt:96-97 | a word's little-endian encoding is four bytes |
| EmbeddingBlob.WordOfWordBytes | app/src/main/java/com/fyp/facer/ui/EnrollFaceScreen.kt:96-97 | reading back four little-endian bytes gives the word |
| EmbeddingBlob.WordBytesWordOf | app/src/main/java/com/fyp/facer/ui/VerifyFaceScreen.kt:88-89 | any four bytes are the encoding of the word they read as |
| EmbeddingBlob.Encode | app/src/main/java/com/fyp/facer/ui/EnrollFaceScreen.kt:96 | the blob has exactly 4 bytes per float |
| EmbeddingBlob.EncodeAt | app/src/main/java/com/fyp/facer/ui/EnrollFaceScreen.kt:96-98 | float i occupies bytes 4i..4i+3, least significant first |
| EmbeddingBlob.EncodeConcat | app/src/main/java/com/fyp/facer/ui/EnrollFaceScreen.kt:97-98 | the encoding of a concatenation is the concatenation of encodings: no header, prefix or padding |
| EmbeddingBlob.DecodeWords | app/src/main/java/com/fyp/facer/ui/VerifyFaceScreen.kt:89 | n getFloat calls yield n words |
| EmbeddingBlob.Decode | app/src/main/java/com/fyp/facer/ui/VerifyFaceScreen.kt:89 | `FloatArray(bytes.size / 4)`: the decoding has `size / 4` words |
| EmbeddingBlob.DecodeWordsAt | app/src/main/java/com/fyp/facer/ui/VerifyFaceScreen.kt:88-89 | word i is read little-endian from bytes 4i..4i+3 |
| EmbeddingBlob.DecodeEncode | app/src/main/java/com/fyp/facer/ui/EnrollFaceScreen.kt:96-98 | decoding the encoded blob gives back the original bit patterns |
| EmbeddingBlob.EncodeDecode | app/src/main/java/com/fyp/facer/ui/VerifyFaceScreen.kt:88-89 | re-encoding a decoded blob gives its bytes except the trailing `size % 4` |
| EmbeddingBlob.DecodeIgnoresTrailing | app/src/main/java/com/fyp/facer/ui/VerifyFaceScreen.kt:89 | decoding yields `size / 4` words, and 1 to 3 trailing bytes change nothing |
| EmbeddingBlob.ByteBuffer.Allocate | app/src/main/java/com/fyp/facer/ui/EnrollFaceScreen.kt:96 | a fresh zero-filled array of the capacity, position 0 |
| EmbeddingBlob.ByteBuffer.Wrap | app/src/main/java/com/fyp/facer/ui/VerifyFaceScreen.kt:88 | the buffer reads the given array itself from position 0 |
| EmbeddingBlob.ByteBuffer.PutFloat | app/src/main/java/com/fyp/facer/ui/EnrollFaceScreen.kt:97 | writes the word's four bytes little-endian at the position and advances by 4, or overflows and changes nothing |
| EmbeddingBlob.ByteBuffer.GetFloat | app/src/main/java/com/fyp/facer/ui/VerifyFaceScreen.kt:89 | reads the little-endian word at the position and advances by 4, or underflows |
| EmbeddingBlob.Pack | app/src/main/java/com/fyp/facer/ui/EnrollFaceScreen.kt:96-98 | the array after the putFloat loop is exactly the encoding of the embedding |
| EmbeddingBlob.Unpack | app/src/main/java/com/fyp/facer/ui/VerifyFaceScreen.kt:88-89 | the array has `size / 4` elements and is exactly the decoding of the bytes |
| EmbeddingBlob.StorageKey | app/src/main/java/com/fyp/facer/ui/EnrollFaceScreen.kt:101 | the path is `embeddings/`, the uid, then `/embedding.bin` |
| EmbeddingBlob.StorageKeyInjective | app/src/main/java/com/fyp/facer/ui/EnrollFaceScreen.kt:101 | two users share a path exactly when they are the same user |
| EnrollFace.SaveEmbedding | app/src/main/java/com/fyp/facer/ui/EnrollFaceScreen.kt:83-115 | an upload is issued exactly with a user, a crop and an embedding; it goes to the user's path with a `4 * size` blob that decodes to the embedding; the status is "Enrolled" after a put that did not fail and "Upload failed: message" after one that did; an embedding failure gives "Model missing or error: message"; no user gives "Not logged in"; no crop changes nothing |
| EnrollFace.StoreAfter | app/src/main/java/com/fyp/facer/ui/EnrollFaceScreen.kt:101-106 | a successful put sets the user's blob and leaves every other path alone; otherwise the store is unchanged |
| VerifyFace.GetBytes | app/src/main/java/com/fyp/facer/ui/VerifyFaceScreen.kt:86-87 | the download succeeds exactly when the object exists and fits in the limit, returning its bytes; a missing object gives the not-found message |
| VerifyFace.DownloadBoundsVector | app/src/main/java/com/fyp/facer/ui/VerifyFaceScreen.kt:87-89 | the 8192-byte cap bounds the stored vector to 2048 floats |
| VerifyFace.Fold | app/src/main/java/com/fyp/facer/ui/VerifyFaceScreen.kt:113 | ASCII capitals fold to their lowercase letter; a character that folds to something else folds to an ASCII lowercase letter |
| VerifyFace.MatchesAsciiChar | app/src/main/java/com/fyp/facer/ui/VerifyFaceScreen.kt:113 | against an ASCII character other than a capital letter, the case-insensitive comparison accepts exactly what Kotlin's `Char.equals(ignoreCase = true)` does: the character itself, its capital, and the long s, the two Turkish i and the Kelvin sign for s, i and k |
| VerifyFace.StartsWithIff | app/src/main/java/com/fyp/facer/ui/VerifyFaceScreen.kt:113 | the recursive case-insensitive prefix test agrees with a region match at offset 0 |
| VerifyFace.ContainsIff | app/src/main/java/com/fyp/facer/ui/VerifyFaceScreen.kt:113 | the case-insensitive `contains` holds exactly when the needle matches, character by character ignoring case, at some offset |
| VerifyFace.Classify | app/src/main/java/com/fyp/facer/ui/VerifyFaceScreen.kt:112-117 | the catch block yields either "No enrolled face found" or "Verify failed: message", and a null message gives "Verify failed: null" |
| VerifyFace.ClassifyIff | app/src/main/java/com/fyp/facer/ui/VerifyFaceScreen.kt:112-117 | a message maps to "No enrolled face" exactly when it is non-null and, at some offset, matches "object does not exist" ignoring case; every other message maps to "Verify failed: message" |
| VerifyFace.LeadingPhraseRecognised | app/src/main/java/com/fyp/facer/ui/VerifyFaceScreen.kt:113-114 | a message that opens with the phrase in any case maps to "No enrolled face" |
| VerifyFace.NotFoundMessageRecognised | app/src/main/java/com/fyp/facer/ui/VerifyFaceScreen.kt:113-114 | the storage not-found message maps to "No enrolled face" |
| VerifyFace.SizeMismatchNotRecognised | app/src/main/java/com/fyp/facer/ui/VerifyFaceScreen.kt:115-116 | the size-mismatch message maps to "Verify failed" |
| VerifyFace.NullMessageNotRecognised | app/src/main/java/com/fyp/facer/ui/VerifyFaceScreen.kt:113-116 | a null message maps to "Verify failed: null" |
| VerifyFace.Score | app/src/main/java/com/fyp/facer/ui/VerifyFaceScreen.kt:89-92 | fails with the size message exactly when the lengths differ; otherwise it is the cosine with the stored values, or NaN (None) when a stored float is not finite |
| VerifyFace.Passes | app/src/main/java/com/fyp/facer/ui/VerifyFaceScreen.kt:97 | a NaN score never passes; any other score passes exactly when it is at least 0.5 |
| VerifyFace.Conclude | app/src/main/java/com/fyp/facer/ui/VerifyFaceScreen.kt:97-111 | after a comparison the run calls `markPresentFirstSession` exactly on a pass; "Attendance recorded" exactly on a pass whose call did not throw; a miss gives "Face not recognized"; a throwing call is classified |
| VerifyFace.Compared | app/src/main/java/com/fyp/facer/ui/VerifyFaceScreen.kt:86-117 | the run reads the user's path after embedding and compares exactly when the download succeeded; any failed download ends it after the read with the classified message, so a missing object gives "No enrolled face found" and the size cap "Verify failed: <message>"; a scoring error ends it after the compare with the classified message; a scored run ends as `Conclude` decides for that score and call outcome; "Attendance recorded" only after the call was made and did not throw |
| VerifyFace.VerifyAttempt | app/src/main/java/com/fyp/facer/ui/VerifyFaceScreen.kt:68-117 | no user gives "Not logged in." and no steps; no preview leaves everything unchanged; no model gives "Model not ready" and no steps; a throwing embed ends the run after the embed with the classified message and no download; a failed download ends it after the read with the classified message; otherwise the steps taken are a prefix of embed, read the user's path, compare, mark present; "Attendance recorded" only after the call was made and did not throw |
| VerifyFace.MarkedOnlyOnMatch | app/src/main/java/com/fyp/facer/ui/VerifyFaceScreen.kt:92-111 | `markPresentFirstSession` is called exactly when the run scored and the score passed; the status is "Attendance recorded" exactly when, in addition, that call did not throw |
| VerifyFace.RecordedWithoutWrite | app/src/main/java/com/fyp/facer/ui/VerifyFaceScreen.kt:100-102 | a passing run whose call returned early without writing still reports "Attendance recorded" |
| VerifyFace.ThresholdDecides | app/src/main/java/com/fyp/facer/ui/VerifyFaceScreen.kt:97-100 | once scored, `markPresentFirstSession` is called exactly when cos >= 0.5, so 0.5 itself is a match |
| VerifyFace.NoMatchNoMark | app/src/main/java/com/fyp/facer/ui/VerifyFaceScreen.kt:97-111 | a failing or NaN score calls no `markPresentFirstSession` and reports "Face not recognized" |
| VerifyFace.SizeMismatchFails | app/src/main/java/com/fyp/facer/ui/VerifyFaceScreen.kt:89-117 | a stored vector of another length ends in "Verify failed: Embedding sizes differ" with no `markPresentFirstSession` call |
| VerifyFace.MissingEnrolment | app/src/main/java/com/fyp/facer/ui/VerifyFaceScreen.kt:86-114 | with nothing at the user's path the run stops after the read with "No enrolled face found" |
| VerifyFace.NoUserOrModelNoWork | app/src/main/java/com/fyp/facer/ui/VerifyFaceScreen.kt:69-80 | without a user or a loaded model nothing is embedded, read or compared |
| VerifyFace.VerifyReadsWhatEnrolWrote | app/src/main/java/com/fyp/facer/ui/EnrollFaceScreen.kt:96-101 | after a successful enrolment verification downloads the same path and unpacks the enrolled patterns, when they fit in the 8192-byte cap |
| VerifyFace.ComparedStored | app/src/main/java/com/fyp/facer/ui/VerifyFaceScreen.kt:86-97 | for a stored blob that fits, the run reaches the decision with the score of the stored patterns |
| VerifyFace.SameUnitScore | app/src/main/java/com/fyp/facer/ui/VerifyFaceScreen.kt:89-92 | the unit vector [1, 0, 0] scores `1 / (1 + 1e-10)` against its own stored encoding |
| VerifyFace.OrthogonalScore | app/src/main/java/com/fyp/facer/ui/VerifyFaceScreen.kt:89-92 | [1, 0, 0] scores 0 against a stored [0, 1, 0] |
| VerifyFace.SameUnitVectorMatches | app/src/main/java/com/fyp/facer/ui/VerifyFaceScreen.kt:83-103 | the same unit vector enrolled and live is a match and records attendance |
| VerifyFace.OrthogonalVectorsDoNotMatch | app/src/main/java/com/fyp/facer/ui/VerifyFaceScreen.kt:97-110 | orthogonal enrolled and live vectors call no `markPresentFirstSession` and report "Face not recognized" |

## Left out

- Floating point is not modelled. `preprocess`'s channel values are exact in binary32, but `l2Normalize` and `cosineSimilarity` are modelled over the reals. The model also leaves out rounding reals to binary32, float overflow, NaN arising inside the sums, and the saturation of `Float.toInt()`.
- The square root is a parameter; `kotlin.math.sqrt` itself is outside the model.
- FaceEmbedder.Preprocess: models the float values and their order, not their native-order byte encoding in the direct buffer. It also does not model `createScaledBitmap` and `getPixels`; the pixels are its input.
- FaceEmbedder.Embed: the TFLite interpreter is a function parameter (`infer`); model loading and thread options are not modelled. The exception `interpreter.run` throws for an output of the wrong shape becomes the `OutputShapeMismatch` error value.
- FaceEmbedder.CauchySchwarz: states the inequality with both sums shifted by an arbitrary c > 0, not the classical `dot^2 <= na * nb`; the shifted form is what `CosineBounded` needs.
- ImageUtils.CropFace: `Bitmap.createBitmap` and `createScaledBitmap` resampling is not modelled, only `createBitmap`'s bounds rule. A window past the source edge becomes an error value in place of the thrown exception. A size of 0 or less is treated as an error of the model's own; no caller passes one, since the enrol screen takes the default 160 and the verify screen passes 160.
- ImageUtils.Rect.CenterX: `left + right` is not wrapped at 32 bits; detector boxes are far from that range.
- `imageProxyToBitmap` (YUV to JPEG to bitmap conversion and rotation) is Android library work and is not part of this model.
- The Firebase transport is reduced to a map from path to bytes.
  - `getBytes` fails only for a missing object or an oversize one; network and permission failures are not modelled.
  - The not-found text is taken as "Object does not exist at location."; the oversize text is an illustrative constant.
- VerifyFace.ContainsIff: case folding covers the ASCII letters and the four non-ASCII characters whose case mapping reaches one (listed at `Fold`). Kotlin also equates two non-ASCII characters of the same letter, such as é and É. The phrase is all ASCII, so no message is classified differently.
- VerifyFace.Classify: the same folding limit as `ContainsIff`; it cannot change the result for the ASCII phrase.
- VerifyFace.ClassifyIff: the same folding limit as `ContainsIff`; it cannot change the result for the ASCII phrase.
- `markPresentFirstSession` is represented by the `MarkPresent` step and its `MarkOutcome`. Its Firestore reads and its merge-set of the record (app/src/main/java/com/fyp/facer/data/AttendanceRepository.kt) are not modelled.
- VerifyFace.MarkedOnlyOnMatch: `MarkPresent` is the call, not a write. The call returns without writing when there is no signed-in user, no course or no session (`NothingToMark`), and the status still reads "Attendance recorded" (`RecordedWithoutWrite`).
- The verify handler's transient "Similarity ..." status, the toasts, the one-second delay and `onBack` navigation are UI and are not modelled.
- EnrollFace.SaveEmbedding: the model takes the crop's presence as an input. On the screen, `cropped112` is never assigned, so the button stays disabled; the rest of the screen's state wiring is not modelled.
- Coroutine launching and the `loading` flag are not modelled: the handlers are treated as sequential.
- The location geofence, the session and user repositories, and the camera and navigation screens are outside the core and are not modelled.
