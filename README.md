# kotlin-polyline in Dafny

A Dafny model of the core of `kotlin-polyline`:

- `PolylineEncoding` implements the Encoded Polyline Algorithm Format, on quantised coordinates.
  - The encoder walks the points and keeps the previous point.
  - For each point it appends a latitude delta and a longitude delta.
  - Each delta is zig-zag mapped to a non-negative value and split into 5-bit chunks, low chunk first.
  - Every chunk except the last carries the continuation flag `0x20`.
  - Each chunk is written as the character `chunk + 63`.
  - The decoder reads chunks until one carries no flag. It undoes the zig-zag and adds the deltas to running sums.
- `DistanceThresholdSampler` makes one greedy pass. It keeps a coordinate only when it lies at least the threshold from the last coordinate kept.
- `RamerDouglasPeuckerSampler` simplifies recursively. It keeps both endpoints. It also keeps the interior coordinate farthest from the chord between them, when that coordinate lies more than `epsilon` from the chord, and simplifies the two halves on either side of it.

How each part is modelled:

- Kotlin `Int` as `bv32`:
  - Every `Int` of the codec is its two's-complement bit pattern, a `bv32`. This covers coordinates, deltas, running sums, the assembled value and the shift counter.
  - `+` and `-` therefore wrap around as Kotlin does.
  - `and`, `or`, `inv` and `shl` are the bit-vector operators. `shl` takes its count modulo 32.
  - Kotlin's arithmetic `shr` is written out where the sign bit can be set.
- The codec is imperative, as in the source:
  - `StringBuilder` is a class with an append-only `chars` field.
  - The character iterator is a class with a position.
  - `encode`, `appendEncodedValue`, `readEncodedValue` and `decodeCoordinates` are methods with their loops.
  - Each method is proved equal to a specification function (`Encoding`, `EncodedValue`, `ReadValue`, `Decode`).
  - The format's properties are proved as lemmas about those functions.
- The decoder sees a character only through `code - 63`. Its specification is therefore stated on the chunk codes of the input.
- The threshold sampler is a method with its `forEach` loop. It is proved equal to the function `Sampled`.
- The Ramer-Douglas-Peucker sampler is pure recursion, modelled as the functions `Simplify` and `Sample`.
- Both samplers work on any coordinate type `P`. The distance (`distanceTo`) and the cross-track distance (`crossTrack`) are function parameters returning `real`.
- Wrappers:
  - `Option` replaces Kotlin's nullable results (`maxByOrNull`, `takeIf`).
  - `Result` replaces the exception that `next()` throws on exhausted input.

Files:

- `wrappers.dfy`: `Option` and `Result`.
- `kotlin_int.dfy`: the value of an `Int` bit pattern.
- `polyline_encoding.dfy`: the codec.
- `subsequences.dfy`: order-preserving subsequences, witnessed by index embeddings.
- `distance_threshold_sampler.dfy` and `ramer_douglas_peucker_sampler.dfy`: the two samplers.

Where a test disagrees with the code, the model follows the code. `DistanceThresholdSamplerTest.kt:26-49` expects duplicates to be removed at threshold `0.0`. `DistanceThresholdSampler.kt:20`, however, returns the input unchanged for every threshold `<= 0.0`, and `DistanceThresholdSampler.NonPositiveThreshold` proves that behaviour.

## Model

| member | source | states |
|---|---|---|
| PolylineEncoding.InDeltaRangeMeaning | library/src/commonMain/kotlin/de/brudaswen/kotlin/polyline/PolylineEncoding.kt:160 | the deltas whose `shl 1` does not overflow (top two bits equal) are exactly the `Int`s in [-2^30, 2^30 - 1] |
| PolylineEncoding.InDeltaRange | library/src/commonMain/kotlin/de/brudaswen/kotlin/polyline/PolylineEncoding.kt:160 | no contract of its own: the deltas whose `shl 1` does not overflow; `InDeltaRangeMeaning` states which `Int`s they are |
| PolylineEncoding.ZigZag | library/src/commonMain/kotlin/de/brudaswen/kotlin/polyline/PolylineEncoding.kt:160 | zig-zag of an encodable delta has the sign bit clear |
| PolylineEncoding.ShrOne | library/src/commonMain/kotlin/de/brudaswen/kotlin/polyline/PolylineEncoding.kt:193 | Kotlin's arithmetic `shr 1` keeps the sign bit |
| PolylineEncoding.UnZigZag | library/src/commonMain/kotlin/de/brudaswen/kotlin/polyline/PolylineEncoding.kt:193 | no contract of its own: the decoder's `if (value and 0x1 > 0) value.inv() shr 1 else value shr 1`; `UnZigZagOfZigZag` and `ZigZagOfUnZigZag` state that it inverts `ZigZag` both ways |
| PolylineEncoding.UnZigZagOfZigZag | library/src/commonMain/kotlin/de/brudaswen/kotlin/polyline/PolylineEncoding.kt:160-193 | every delta in [-2^30, 2^30 - 1] zig-zags to a non-negative `Int`, and the decoder's last step returns exactly that delta |
| PolylineEncoding.ZigZagOfUnZigZag | library/src/commonMain/kotlin/de/brudaswen/kotlin/polyline/PolylineEncoding.kt:193 | conversely, every non-negative `Int` un-zig-zags to an encodable delta whose zig-zag gives it back |
| PolylineEncoding.ChunkAt | library/src/commonMain/kotlin/de/brudaswen/kotlin/polyline/PolylineEncoding.kt:167-173 | no contract of its own: the low five bits, flagged with 0x20 when bits remain above them; `ChunkCodesFlags` states the flags of a whole group |
| PolylineEncoding.ChunkCodes | library/src/commonMain/kotlin/de/brudaswen/kotlin/polyline/PolylineEncoding.kt:166-178 | no contract of its own: the chunks of the do/while; `ChunkCodesFlags` states that they form one chunk group, and `CodesOfChunks` that they are the codes of the characters `Chunks` writes |
| PolylineEncoding.ChunkChar | library/src/commonMain/kotlin/de/brudaswen/kotlin/polyline/PolylineEncoding.kt:177 | a chunk below 64 becomes a character from `?` to `~` |
| PolylineEncoding.CharChunk | library/src/commonMain/kotlin/de/brudaswen/kotlin/polyline/PolylineEncoding.kt:186 | no contract of its own: `next().code - 63`; `CharChunkOfChunkChar` states that it recovers every chunk the encoder writes |
| PolylineEncoding.Codes | library/src/commonMain/kotlin/de/brudaswen/kotlin/polyline/PolylineEncoding.kt:134-186 | the decoder's chunk codes of `toCharArray()`, exactly one per character; `DecodeSucceeds` states on them which strings decode |
| PolylineEncoding.CharChunkOfChunkChar | library/src/commonMain/kotlin/de/brudaswen/kotlin/polyline/PolylineEncoding.kt:177-186 | the decoder's `code - 63` of the character written for a chunk is that chunk |
| PolylineEncoding.Chunks | library/src/commonMain/kotlin/de/brudaswen/kotlin/polyline/PolylineEncoding.kt:166-178 | the do/while writes at least one character, each from `?` (63) to `~` (126) |
| PolylineEncoding.ChunkCodesFlags | library/src/commonMain/kotlin/de/brudaswen/kotlin/polyline/PolylineEncoding.kt:166-178 | in the chunk group of one value, every chunk is below 64, every chunk except the last has 0x20 set, and the last has it clear |
| PolylineEncoding.EncodedValue | library/src/commonMain/kotlin/de/brudaswen/kotlin/polyline/PolylineEncoding.kt:157-179 | no contract of its own: what `appendEncodedValue(value)` writes; `AppendEncodedValue` is proved to append it, and `EncodedValueShape`, `EncodedZero` and `ReadAfterAppend` state its shape and that reading it back gives the value |
| PolylineEncoding.EncodedValueShape | library/src/commonMain/kotlin/de/brudaswen/kotlin/polyline/PolylineEncoding.kt:157-179 | what `appendEncodedValue(v)` appends is non-empty, printable ASCII from 63 to 126, and its codes form one chunk group |
| PolylineEncoding.EncodedZero | library/src/commonMain/kotlin/de/brudaswen/kotlin/polyline/PolylineEncoding.kt:166-178 | the value 0 is written as the single character `?` |
| PolylineEncoding.ReadCodes | library/src/commonMain/kotlin/de/brudaswen/kotlin/polyline/PolylineEncoding.kt:185-191 | a group that is read completely consumes at least one chunk |
| PolylineEncoding.ReadValue | library/src/commonMain/kotlin/de/brudaswen/kotlin/polyline/PolylineEncoding.kt:181-194 | `readEncodedValue` consumes at least one character whenever it returns a value |
| PolylineEncoding.ReadAfterAppend | library/src/commonMain/kotlin/de/brudaswen/kotlin/polyline/PolylineEncoding.kt:157-194 | reading what `appendEncodedValue(v)` wrote, followed by any codes, returns `v` and leaves exactly those following codes |
| PolylineEncoding.ReadCodesUnterminated | library/src/commonMain/kotlin/de/brudaswen/kotlin/polyline/PolylineEncoding.kt:185-191 | input that ends while every chunk so far carries the flag yields no value |
| PolylineEncoding.StepOfDeltas | library/src/commonMain/kotlin/de/brudaswen/kotlin/polyline/PolylineEncoding.kt:144-145 | adding the encoder's wrapped deltas to the previous point gives back the point, for any `Int` coordinates |
| PolylineEncoding.Step | library/src/commonMain/kotlin/de/brudaswen/kotlin/polyline/PolylineEncoding.kt:144-145 | no contract of its own: the running sums after one point, wrapping like `Int`; `StepOfDeltas` states that it undoes the encoder's deltas |
| PolylineEncoding.Encodable | library/src/commonMain/kotlin/de/brudaswen/kotlin/polyline/PolylineEncoding.kt:64-68 | no contract of its own: every delta `encode` computes is in [-2^30, 2^30 - 1] (`InDeltaRangeMeaning`), the points on which the source's `encode` ends |
| PolylineEncoding.EncodeFrom | library/src/commonMain/kotlin/de/brudaswen/kotlin/polyline/PolylineEncoding.kt:60-72 | no contract of its own: the characters the `forEach` appends from a given previous point; `DecodeAfterEncoding` and `EncodingPrintable` state what they decode to and that they are printable |
| PolylineEncoding.Encoding | library/src/commonMain/kotlin/de/brudaswen/kotlin/polyline/PolylineEncoding.kt:55-74 | no contract of its own: `encode(points)`; `Encode` is proved to return it, and `DecodeEncode`, `EncodeDecode`, `EmptyPolyline` and `ReferenceEncoding` state its round trips, the empty case and the worked example |
| PolylineEncoding.DecodeCodes | library/src/commonMain/kotlin/de/brudaswen/kotlin/polyline/PolylineEncoding.kt:136-150 | no contract of its own: the decoding of chunk codes from given running sums; `DecodeCodesFraming`, `DecodeAfterEncoding` and `LatitudeOnly` state when it succeeds and what it yields |
| PolylineEncoding.Decode | library/src/commonMain/kotlin/de/brudaswen/kotlin/polyline/PolylineEncoding.kt:130-155 | no contract of its own: `decodeCoordinates(polyline)` consumed to the end; `DecodeCoordinates` is proved to return it, and `DecodeEncode`, `DecodeSucceeds`, `EndsInsideGroup`, `OddGroupCount` and `ReferenceDecoding` state its results and its errors |
| PolylineEncoding.DecodeAfterEncoding | library/src/commonMain/kotlin/de/brudaswen/kotlin/polyline/PolylineEncoding.kt:136-150 | decoding what was encoded for `points`, followed by anything, yields `points` in order and then what the rest decodes to from the last point |
| PolylineEncoding.DecodeFirstPoint | library/src/commonMain/kotlin/de/brudaswen/kotlin/polyline/PolylineEncoding.kt:141-145 | the latitude group is read first and then the longitude group, and their sum with the previous point is the first point encoded |
| PolylineEncoding.DecodeEncode | library/src/commonTest/kotlin/de/brudaswen/kotlin/polyline/PolylineEncodingTest.kt:9-28 | decoding `encode(points)` returns `points`, with the same length and order |
| PolylineEncoding.EncodeDecode | library/src/commonTest/kotlin/de/brudaswen/kotlin/polyline/PolylineEncodingTest.kt:31-52 | for every string that `encode` produced, decoding succeeds and re-encoding gives back the string |
| PolylineEncoding.EmptyPolyline | library/src/commonMain/kotlin/de/brudaswen/kotlin/polyline/PolylineEncoding.kt:59-73 | no points encode to `""`, and `""` decodes to no points |
| PolylineEncoding.EncodingPrintable | library/src/commonMain/kotlin/de/brudaswen/kotlin/polyline/PolylineEncoding.kt:59-73 | every character `encode` writes is from `?` to `~` |
| PolylineEncoding.TruncatedGroup | library/src/commonMain/kotlin/de/brudaswen/kotlin/polyline/PolylineEncoding.kt:186 | an encoded polyline followed by characters that all carry the continuation flag fails to decode with `UnexpectedEndOfInput` |
| PolylineEncoding.LatitudeOnly | library/src/commonMain/kotlin/de/brudaswen/kotlin/polyline/PolylineEncoding.kt:141-142 | a latitude group followed only by flagged codes, or by nothing, is an error, whatever the previous point |
| PolylineEncoding.TruncatedLongitude | library/src/commonMain/kotlin/de/brudaswen/kotlin/polyline/PolylineEncoding.kt:140-142 | after any encoded points, a latitude group whose longitude group is cut short makes the whole decoding fail |
| PolylineEncoding.MissingLongitude | library/src/commonMain/kotlin/de/brudaswen/kotlin/polyline/PolylineEncoding.kt:140-142 | an encoded polyline followed by one encoded latitude group and nothing else fails to decode |
| PolylineEncoding.LastGroupEnd | library/src/commonMain/kotlin/de/brudaswen/kotlin/polyline/PolylineEncoding.kt:186-191 | a last code without the flag closes a chunk group, so any such input has at least one group |
| PolylineEncoding.ReadCodesFraming | library/src/commonMain/kotlin/de/brudaswen/kotlin/polyline/PolylineEncoding.kt:185-191 | on any codes, the do/while finds a value iff some code lacks the flag; it stops right after the first such code and leaves the rest of the input, with one group end fewer |
| PolylineEncoding.ReadValueFraming | library/src/commonMain/kotlin/de/brudaswen/kotlin/polyline/PolylineEncoding.kt:181-194 | `readEncodedValue` frames any input the same way |
| PolylineEncoding.DecodeCodesFraming | library/src/commonMain/kotlin/de/brudaswen/kotlin/polyline/PolylineEncoding.kt:136-150 | from any running sums, decoding any codes succeeds iff they are empty or end with an unflagged code and hold an even number of chunk groups |
| PolylineEncoding.DecodeSucceeds | library/src/commonMain/kotlin/de/brudaswen/kotlin/polyline/PolylineEncoding.kt:130-155 | any string decodes without error exactly when its codes are framed in that way |
| PolylineEncoding.EndsInsideGroup | library/src/commonMain/kotlin/de/brudaswen/kotlin/polyline/PolylineEncoding.kt:186 | any string whose last character carries the continuation flag ends inside a group, and decoding it fails with `UnexpectedEndOfInput` |
| PolylineEncoding.OddGroupCount | library/src/commonMain/kotlin/de/brudaswen/kotlin/polyline/PolylineEncoding.kt:140-142 | any string with an odd number of chunk groups has a latitude group with no longitude group, and decoding it fails |
| PolylineEncoding.ReferenceEncoding | library/src/commonMain/kotlin/de/brudaswen/kotlin/polyline/PolylineEncoding.kt:55-74 | the worked example of the Encoded Polyline Algorithm Format: (38.5, -120.2), (40.7, -120.95), (43.252, -126.453) encode to the example string of that format (27 characters, beginning `_p~iF`) |
| PolylineEncoding.ReferenceDecoding | library/src/commonMain/kotlin/de/brudaswen/kotlin/polyline/PolylineEncoding.kt:130-155 | that string decodes to those three points |
| PolylineEncoding.StringBuilder.constructor | library/src/commonMain/kotlin/de/brudaswen/kotlin/polyline/PolylineEncoding.kt:59 | `buildString` starts from no characters |
| PolylineEncoding.StringBuilder.Append | library/src/commonMain/kotlin/de/brudaswen/kotlin/polyline/PolylineEncoding.kt:177 | `append` adds one character at the end and changes nothing else |
| PolylineEncoding.AppendEncodedValue | library/src/commonMain/kotlin/de/brudaswen/kotlin/polyline/PolylineEncoding.kt:157-179 | the do/while appends exactly `EncodedValue(value)` to the builder |
| PolylineEncoding.Encode | library/src/commonMain/kotlin/de/brudaswen/kotlin/polyline/PolylineEncoding.kt:55-74 | the `forEach` with the running previous point returns exactly `Encoding(polyline)` |
| PolylineEncoding.CharIterator.constructor | library/src/commonMain/kotlin/de/brudaswen/kotlin/polyline/PolylineEncoding.kt:134 | the iterator starts at the first character of the string |
| PolylineEncoding.CharIterator.HasNext | library/src/commonMain/kotlin/de/brudaswen/kotlin/polyline/PolylineEncoding.kt:140 | `hasNext()` holds exactly when characters remain |
| PolylineEncoding.CharIterator.Next | library/src/commonMain/kotlin/de/brudaswen/kotlin/polyline/PolylineEncoding.kt:186 | `next()` returns the next character and advances past it; on exhausted input it fails and does not move |
| PolylineEncoding.ReadEncodedValue | library/src/commonMain/kotlin/de/brudaswen/kotlin/polyline/PolylineEncoding.kt:181-194 | the do/while returns the value of `ReadValue` and leaves the iterator after the group, or fails exactly where `ReadValue` has no value |
| PolylineEncoding.DecodeCoordinates | library/src/commonMain/kotlin/de/brudaswen/kotlin/polyline/PolylineEncoding.kt:130-155 | the loop with its running sums returns exactly `Decode(polyline)`, the error included |
| DistanceThresholdSampler.Greedy | library/src/commonMain/kotlin/de/brudaswen/kotlin/polyline/sampler/DistanceThresholdSampler.kt:28-33 | the pass appends no more coordinates than it visits |
| DistanceThresholdSampler.Sampled | library/src/commonMain/kotlin/de/brudaswen/kotlin/polyline/sampler/DistanceThresholdSampler.kt:19-36 | no contract of its own: the list `sample` returns; `Sample` is proved to return it, and `NonPositiveThreshold`, `TooShort`, `FirstKept`, `SampledSubsequence`, `SampledSpaced`, `SampledIdempotent` and `StepByStep` state its properties |
| DistanceThresholdSampler.AnchorAt | library/src/commonMain/kotlin/de/brudaswen/kotlin/polyline/sampler/DistanceThresholdSampler.kt:26-31 | no contract of its own: the anchor `current` when the loop reaches coordinate `i`; `StepByStep` states the keep-or-drop decision against it |
| DistanceThresholdSampler.Sample | library/src/commonMain/kotlin/de/brudaswen/kotlin/polyline/sampler/DistanceThresholdSampler.kt:19-36 | the guards, the first coordinate and the `forEach` with its reassigned anchor return exactly `Sampled` |
| DistanceThresholdSampler.NonPositiveThreshold | library/src/commonMain/kotlin/de/brudaswen/kotlin/polyline/sampler/DistanceThresholdSampler.kt:20 | a threshold `<= 0` returns the input unchanged |
| DistanceThresholdSampler.TooShort | library/src/commonMain/kotlin/de/brudaswen/kotlin/polyline/sampler/DistanceThresholdSampler.kt:21 | fewer than two coordinates are returned unchanged |
| DistanceThresholdSampler.FirstKept | library/src/commonMain/kotlin/de/brudaswen/kotlin/polyline/sampler/DistanceThresholdSampler.kt:25-26 | for non-empty input, the output is non-empty and starts with the input's first coordinate |
| DistanceThresholdSampler.GreedySubsequence | library/src/commonMain/kotlin/de/brudaswen/kotlin/polyline/sampler/DistanceThresholdSampler.kt:28-33 | what the pass appends is an order-preserving subsequence of what it visits |
| DistanceThresholdSampler.SampledSubsequence | library/src/commonMain/kotlin/de/brudaswen/kotlin/polyline/sampler/DistanceThresholdSampler.kt:25-33 | when the first coordinate is closer than the threshold to itself, the output is an order-preserving subsequence of the input with 1 to n coordinates |
| DistanceThresholdSampler.FirstComparedWithItself | library/src/commonMain/kotlin/de/brudaswen/kotlin/polyline/sampler/DistanceThresholdSampler.kt:25-33 | when that distance reaches the threshold, the loop's first visit duplicates the first coordinate |
| DistanceThresholdSampler.GreedySpaced | library/src/commonMain/kotlin/de/brudaswen/kotlin/polyline/sampler/DistanceThresholdSampler.kt:29-31 | each coordinate the pass appends is at least the threshold from the anchor before it |
| DistanceThresholdSampler.SampledSpaced | library/src/commonMain/kotlin/de/brudaswen/kotlin/polyline/sampler/DistanceThresholdSampler.kt:29-31 | for a positive threshold, consecutive output coordinates are at least the threshold apart |
| DistanceThresholdSampler.GreedySnoc | library/src/commonMain/kotlin/de/brudaswen/kotlin/polyline/sampler/DistanceThresholdSampler.kt:29 | visiting one more coordinate appends it exactly when it is at least the threshold from the current anchor |
| DistanceThresholdSampler.GreedyOfSpaced | library/src/commonMain/kotlin/de/brudaswen/kotlin/polyline/sampler/DistanceThresholdSampler.kt:28-33 | the pass keeps every coordinate of a run whose gaps from the anchor on all reach the threshold |
| DistanceThresholdSampler.SampledIdempotent | library/src/commonMain/kotlin/de/brudaswen/kotlin/polyline/sampler/DistanceThresholdSampler.kt:19-36 | sampling the output again with the same threshold returns it unchanged, when the first coordinate is closer than the threshold to itself |
| DistanceThresholdSampler.StepByStep | library/src/commonMain/kotlin/de/brudaswen/kotlin/polyline/sampler/DistanceThresholdSampler.kt:29 | coordinate `i` is added iff its distance from the anchor of that step reaches the threshold; every coordinate not added is below the threshold from that anchor |
| RamerDouglasPeuckerSampler.Deviation | library/src/commonMain/kotlin/de/brudaswen/kotlin/polyline/sampler/RamerDouglasPeuckerSampler.kt:56-63 | no contract of its own: the cross-track distance of an interior coordinate from the chord `start`-`end`; `PivotChoice`, `MaxByFirstMaximum` and `EndpointsOnly` state how it picks the pivot |
| RamerDouglasPeuckerSampler.MaxBy | library/src/commonMain/kotlin/de/brudaswen/kotlin/polyline/sampler/RamerDouglasPeuckerSampler.kt:65 | `maxByOrNull` returns the first candidate or an index of the remaining range |
| RamerDouglasPeuckerSampler.MaxDistanceIndex | library/src/commonMain/kotlin/de/brudaswen/kotlin/polyline/sampler/RamerDouglasPeuckerSampler.kt:56-65 | a candidate exists iff there are at least 3 coordinates, and it is interior (in 1..lastIndex-1) |
| RamerDouglasPeuckerSampler.Pivot | library/src/commonMain/kotlin/de/brudaswen/kotlin/polyline/sampler/RamerDouglasPeuckerSampler.kt:56-67 | a pivot is always an interior index |
| RamerDouglasPeuckerSampler.MaxByFirstMaximum | library/src/commonMain/kotlin/de/brudaswen/kotlin/polyline/sampler/RamerDouglasPeuckerSampler.kt:65 | because `maxByOrNull` replaces only on a strictly greater value, it returns the first index attaining the maximum |
| RamerDouglasPeuckerSampler.PivotChoice | library/src/commonMain/kotlin/de/brudaswen/kotlin/polyline/sampler/RamerDouglasPeuckerSampler.kt:56-67 | the pivot is the first interior index of largest deviation and deviates by more than `epsilon`; there is no pivot iff every interior deviation is `<= epsilon` |
| RamerDouglasPeuckerSampler.Simplify | library/src/commonMain/kotlin/de/brudaswen/kotlin/polyline/sampler/RamerDouglasPeuckerSampler.kt:48-88 | the recursion ends (both halves have at least 2 and fewer than n coordinates); the result has 2 to n coordinates, starts with the first and ends with the last |
| RamerDouglasPeuckerSampler.KeepsEndpoints | library/src/commonMain/kotlin/de/brudaswen/kotlin/polyline/sampler/RamerDouglasPeuckerSampler.kt:69-72 | with no pivot, `[start, end]` keeps positions 0 and lastIndex, and every dropped coordinate is within `epsilon` of that chord |
| RamerDouglasPeuckerSampler.KeepsJoin | library/src/commonMain/kotlin/de/brudaswen/kotlin/polyline/sampler/RamerDouglasPeuckerSampler.kt:74-86 | `first + second.drop(1)` of the two halves keeps the pivot once, in order, and stays within tolerance |
| RamerDouglasPeuckerSampler.PivotKeptOnce | library/src/commonMain/kotlin/de/brudaswen/kotlin/polyline/sampler/RamerDouglasPeuckerSampler.kt:74-86 | at a pivot `k`, the output is as long as the two simplified halves together less one, and position `k` is kept exactly once, as the last kept position of the first half |
| RamerDouglasPeuckerSampler.SimplifyKeeps | library/src/commonMain/kotlin/de/brudaswen/kotlin/polyline/sampler/RamerDouglasPeuckerSampler.kt:15-20 | the result is an order-preserving subsequence from the first to the last coordinate; every dropped coordinate between two consecutive kept ones is within `epsilon` of their chord |
| RamerDouglasPeuckerSampler.Sample | library/src/commonMain/kotlin/de/brudaswen/kotlin/polyline/sampler/RamerDouglasPeuckerSampler.kt:30-38 | no contract of its own: the public `sample`; `SampleUnchanged`, `SampleSimplifies` and `SampleMonotone` state its guards, its endpoints, subsequence and tolerance, and its monotonicity in `epsilon` |
| RamerDouglasPeuckerSampler.SampleUnchanged | library/src/commonMain/kotlin/de/brudaswen/kotlin/polyline/sampler/RamerDouglasPeuckerSampler.kt:31-32 | an `epsilon <= 0`, or fewer than 3 coordinates, return the input unchanged |
| RamerDouglasPeuckerSampler.SampleSimplifies | library/src/commonMain/kotlin/de/brudaswen/kotlin/polyline/sampler/RamerDouglasPeuckerSampler.kt:30-38 | otherwise the output has 2 to n coordinates, keeps the first and the last, is an order-preserving subsequence, and keeps the tolerance bound |
| RamerDouglasPeuckerSampler.MonotoneInEpsilon | library/src/commonMain/kotlin/de/brudaswen/kotlin/polyline/sampler/RamerDouglasPeuckerSampler.kt:22-24 | a smaller `epsilon` keeps at least as many coordinates as a larger one, since every pivot taken at the larger is taken at the smaller |
| RamerDouglasPeuckerSampler.SampleMonotone | library/src/commonMain/kotlin/de/brudaswen/kotlin/polyline/sampler/RamerDouglasPeuckerSampler.kt:22-38 | for the public `sample`, `epsilon1 <= epsilon2` gives an output at least as long, for every input |
| RamerDouglasPeuckerSampler.EndpointsOnly | library/src/commonMain/kotlin/de/brudaswen/kotlin/polyline/sampler/RamerDouglasPeuckerSampler.kt:56-72 | the result is exactly `[first, last]` iff no interior coordinate deviates from the chord by more than `epsilon` |

## Left out

- Quantisation is not modelled. `toCoordinateInt` and `toCoordinateDouble` (`PolylineEncoding.kt:196-198`) are floating-point rounding, so the codec is modelled on coordinates already quantised to 1e-5 degrees.
- The distance formulas are not modelled.
  - `HaversineDistance.kt`, `CrossTrackDistance.kt` and `math/Math.kt` use trigonometry on `Double`.
  - The samplers take any distance function instead.
  - NaN, and the way `Double` comparisons order NaN, are therefore not modelled.
- The factories and wrapper types are not modelled: `PolylineFactory`, `CoordinateFactory`, `Polyline.kt`, `Coordinate.kt` and `TrackSampler.kt`. They are plumbing with no logic of their own.
- The lazy `generateSequence` of `decodeCoordinates` is not modelled. It is consumed to the end, as `decode` does with `toList()`. A caller that stops early, before a malformed tail, would see no exception.
- `next()` throwing on exhausted input is modelled as the error value `UnexpectedEndOfInput`.
- Characters: Kotlin `Char` is a UTF-16 unit and Dafny's `char` is a Unicode scalar value.
  - `CharChunk` keeps the low 8 bits of `code - 63`. The decoder only ever looks at the low 6 bits of that value.
  - The model therefore decodes like the source only for strings without supplementary characters (those above U+FFFF).
  - Kotlin splits such a character into two surrogate units and reads two chunks from it, where the model reads one. For example, `"\u{1F600}?"` decodes to a different point in the model than in the source.
  - Encoded polylines never hold such characters: every character `encode` writes is from `?` to `~`.
- `PolylineEncoding.AppendEncodedValue`: requires every delta to be in [-2^30, 2^30 - 1]. For any other delta the source's do/while never ends, because `value shl 1` overflows and the arithmetic `shr` keeps the bits negative.
- `PolylineEncoding.Encode`: requires the same of every delta, for the same reason. The deltas of real coordinates (latitude within ±90°, longitude within ±180°) stay far inside this range.
- `RamerDouglasPeuckerSampler.Simplify`: requires at least 2 coordinates. The source function is private and is only reached through `sample`'s guards and through halves of at least 2 coordinates.
- `DistanceThresholdSampler.SampledSubsequence`: assumes the first coordinate's distance to itself is below the threshold, as it is for any metric with a positive threshold. `DistanceThresholdSampler.FirstComparedWithItself` states what happens otherwise.
- `DistanceThresholdSampler.SampledIdempotent`: assumes the first coordinate is closer than the threshold to itself. Otherwise the source duplicates the first coordinate on every pass (`DistanceThresholdSampler.FirstComparedWithItself`), and a second pass is not idempotent.
- `PolylineTest.kt` calls a `sample(thresholdInMeters, epsilon)` extension that chains both samplers. That extension is not part of this model.
