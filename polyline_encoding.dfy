/**
 * The Encoded Polyline Algorithm Format on quantised coordinates: every point is
 * written as the latitude delta and then the longitude delta from the previous
 * point; each delta is zig-zag mapped to a non-negative value, split into 5-bit
 * little-endian chunks, every chunk but the last flagged with 0x20, and each
 * chunk shifted by 63 into printable ASCII.
 *
 * Every Kotlin `Int` of the codec (coordinates, deltas, running sums, the
 * assembled value, the shift counter) is modelled by its two's-complement bit
 * pattern, a `bv32`: `+` and `-` then wrap around exactly as `Int` does, and
 * `and`, `or`, `inv`, `shl` are `&`, `|`, `!`, `<<`. Kotlin's `shr` is the
 * arithmetic shift; where it acts on a value whose sign bit may be set the
 * model spells it out (`ShrOne`).
 *
 * The decoder looks at a character only through `code - 63`, and of that only
 * through `and 0x20` and `and 0b11111`; its specification is therefore stated
 * on the sequence of chunk codes of the input (`Codes`).
 */
module PolylineEncoding {
  import opened Wrappers
  import opened KotlinInt

  /** A point already quantised to 1e-5 degrees, as the bit patterns of two Kotlin `Int`s. */
  datatype Point = Point(lat: bv32, lon: bv32)

  /** `next()` was called on an exhausted character iterator. */
  datatype DecodeError = UnexpectedEndOfInput

  const ASCII_OFFSET: int := 63

  // ---------------------------------------------------------------------------
  // Zig-zag
  // ---------------------------------------------------------------------------

  /**
   * The deltas whose `value shl 1` does not overflow: the two top bits agree.
   * For any other delta the do/while of `appendEncodedValue` never ends, since
   * the arithmetic `shr` keeps a negative value negative.
   */
  predicate InDeltaRange(value: bv32) {
    value >> 30 == 0 || value >> 30 == 3
  }

  /** The deltas the encoder accepts are exactly the `Int`s in [-2^30, 2^30 - 1]. */
  lemma InDeltaRangeMeaning(value: bv32)
    ensures InDeltaRange(value) <==> -0x4000_0000 <= Signed(value) <= 0x3FFF_FFFF
  {
    NonNegativeDeltaRange(value);
    NegativeDeltaRange(value);
  }

  /** The zig-zag step of `appendEncodedValue`: `if (value < 0) (value shl 1).inv() else value shl 1`. */
  function ZigZag(value: bv32): (r: bv32)
    requires InDeltaRange(value)
    ensures r < 0x8000_0000
  {
    if value & 0x8000_0000 != 0 then !(value << 1) else value << 1
  }

  /** Kotlin's `x shr 1`: the arithmetic shift, which copies the sign bit. */
  function ShrOne(x: bv32): (r: bv32)
    ensures r & 0x8000_0000 == x & 0x8000_0000
  {
    (x >> 1) | (x & 0x8000_0000)
  }

  /** The last step of `readEncodedValue`: `if (value and 0x1 > 0) value.inv() shr 1 else value shr 1`. */
  function UnZigZag(value: bv32): bv32 {
    if value & 1 != 0 then ShrOne(!value) else ShrOne(value)
  }

  lemma ZigZagNegative(value: bv32)
    requires value >> 30 == 3
    ensures !(!(value << 1)) == value << 1 && (!(value << 1)) & 1 != 0 && ShrOne(value << 1) == value
  {
  }

  lemma ZigZagNonNegative(value: bv32)
    requires value >> 30 == 0
    ensures (value << 1) & 1 == 0 && ShrOne(value << 1) == value
  {
  }

  /** Zig-zag maps each encodable delta to a non-negative `Int`, and the decoder's step undoes it. */
  lemma UnZigZagOfZigZag(value: bv32)
    requires InDeltaRange(value)
    ensures Signed(ZigZag(value)) >= 0
    ensures UnZigZag(ZigZag(value)) == value
  {
    SignedBelowSignBit(ZigZag(value));
    if value & 0x8000_0000 != 0 {
      assert value >> 30 == 3;
      ZigZagNegative(value);
    } else {
      assert value >> 30 == 0;
      ZigZagNonNegative(value);
    }
  }

  /** Conversely, every non-negative `Int` is the zig-zag image of what the decoder makes of it. */
  lemma ZigZagOfUnZigZag(bits: bv32)
    requires bits < 0x8000_0000
    ensures InDeltaRange(UnZigZag(bits)) && ZigZag(UnZigZag(bits)) == bits
  {
  }

  // ---------------------------------------------------------------------------
  // Chunks and characters
  // ---------------------------------------------------------------------------

  /** The chunk `appendEncodedValue` makes of the low five bits of `bits`, flagged when bits remain above them. */
  function ChunkAt(bits: bv32): bv32 {
    if bits >> 5 != 0 then (bits & 0x1F) | 0x20 else bits & 0x1F
  }

  /** The chunk codes the do/while of `appendEncodedValue` produces from `remainingBits`. */
  function ChunkCodes(remainingBits: bv32): (s: seq<bv32>)
    requires remainingBits < 0x8000_0000
    decreases remainingBits
  {
    [ChunkAt(remainingBits)] + (if remainingBits >> 5 != 0 then ChunkCodes(remainingBits >> 5) else [])
  }

  /** `(chunk + 63).toChar()` for a chunk of at most six bits. */
  function ChunkChar(chunk: bv32): (c: char)
    requires chunk < 64
    ensures '?' <= c <= '~'
  {
    ((chunk as bv8) as int + ASCII_OFFSET) as char
  }

  /**
   * The low eight bits of `next().code - 63`. The decoder inspects only the
   * low six bits of a chunk (`and 0x20`, `and 0b11111`), so these determine
   * everything it does with it.
   */
  function CharChunk(c: char): bv32 {
    (((c as int - ASCII_OFFSET) % 0x100) as bv8) as bv32
  }

  /** The chunk codes the decoder reads from the characters of `s`. */
  function Codes(s: string): (codes: seq<bv32>)
    ensures |codes| == |s|
  {
    seq(|s|, i requires 0 <= i < |s| => CharChunk(s[i]))
  }

  /**
   * The characters the do/while of `appendEncodedValue` emits while the bits
   * `remainingBits` remain. The bits stay below 2^31, where the source's
   * arithmetic `shr` is the logical `>>`.
   */
  function Chunks(remainingBits: bv32): (s: string)
    requires remainingBits < 0x8000_0000
    ensures |s| >= 1
    ensures forall i :: 0 <= i < |s| ==> '?' <= s[i] <= '~'
    decreases remainingBits
  {
    ChunkPayload(remainingBits);
    [ChunkChar(ChunkAt(remainingBits))] + (if remainingBits >> 5 != 0 then Chunks(remainingBits >> 5) else [])
  }

  /** The characters `appendEncodedValue(value)` appends. */
  function EncodedValue(value: bv32): string
    requires InDeltaRange(value)
  {
    Chunks(ZigZag(value))
  }

  /** The flag and the payload of `ChunkAt(bits)`. */
  lemma ChunkPayload(bits: bv32)
    ensures ChunkAt(bits) < 64
    ensures (ChunkAt(bits) & 0x20 == 0) == (bits >> 5 == 0)
    ensures ChunkAt(bits) & 0x1F == bits & 0x1F
    ensures bits >> 5 == 0 ==> ChunkAt(bits) == bits
  {
  }

  /** The character of a chunk of at most six bits gives back that chunk's byte. */
  lemma ByteOfChunkChar(b: bv8)
    requires b < 64
    ensures (((b as int + ASCII_OFFSET) as char as int - ASCII_OFFSET) % 0x100) as bv8 == b
  {
    ByteRoundTrip(b);
  }

  lemma ChunkByte(chunk: bv32)
    requires chunk < 64
    ensures chunk as bv8 < 64 && (chunk as bv8) as bv32 == chunk
  {
    NarrowRoundTrip(chunk);
  }

  /** The decoder recovers each chunk from the character the encoder made of it. */
  lemma CharChunkOfChunkChar(chunk: bv32)
    requires chunk < 64
    ensures CharChunk(ChunkChar(chunk)) == chunk
  {
    ChunkByte(chunk);
    ByteOfChunkChar(chunk as bv8);
  }

  lemma CodesOfConcat(a: string, b: string)
    ensures Codes(a + b) == Codes(a) + Codes(b)
  {
    assert forall i :: 0 <= i < |a + b| ==> Codes(a + b)[i] == (Codes(a) + Codes(b))[i];
  }

  /** The codes of the characters of a chunk group are the chunks themselves. */
  lemma {:induction false} CodesOfChunks(bits: bv32)
    requires bits < 0x8000_0000
    ensures Codes(Chunks(bits)) == ChunkCodes(bits)
    decreases bits
  {
    ChunkPayload(bits);
    CharChunkOfChunkChar(ChunkAt(bits));
    var head := [ChunkChar(ChunkAt(bits))];
    assert Codes(head) == [ChunkAt(bits)];
    if bits >> 5 != 0 {
      Below(bits);
      CodesOfChunks(bits >> 5);
      CodesOfConcat(head, Chunks(bits >> 5));
    }
  }

  /** Chunks of at most six bits, all but the last flagged with 0x20 and the last not. */
  predicate ChunkGroup(s: seq<bv32>) {
    forall i :: 0 <= i < |s| ==> s[i] < 64 && (s[i] & 0x20 != 0 <==> i < |s| - 1)
  }

  /**
   * Within one value's chunk group every chunk is below 64, all chunks but the
   * last carry the continuation flag 0x20 and the last does not.
   */
  lemma {:induction false} ChunkCodesFlags(bits: bv32)
    requires bits < 0x8000_0000
    ensures ChunkGroup(ChunkCodes(bits))
    decreases bits
  {
    ChunkPayload(bits);
    var s := ChunkCodes(bits);
    if bits >> 5 != 0 {
      Below(bits);
      var t := ChunkCodes(bits >> 5);
      ChunkCodesFlags(bits >> 5);
      assert s == [ChunkAt(bits)] + t;
      forall i | 0 < i < |s|
        ensures s[i] < 64 && (s[i] & 0x20 != 0 <==> i < |s| - 1)
      {
        assert s[i] == t[i - 1];
        assert t[i - 1] < 64 && (t[i - 1] & 0x20 != 0 <==> i - 1 < |t| - 1);
      }
    }
  }

  /** The value 0 is written as the single character `?`. */
  lemma EncodedZero()
    ensures EncodedValue(0) == "?"
  {
    assert ZigZag(0) == 0;
    ChunkPayload(0);
  }

  // ---------------------------------------------------------------------------
  // Reading a chunk group
  // ---------------------------------------------------------------------------

  /**
   * The do/while of `readEncodedValue` on the remaining chunk codes, with the
   * bits `value` assembled so far and the `Int` shift counter `shiftPos`, of
   * which Kotlin's `shl` uses the low five bits. It yields the assembled bits
   * and the codes after the group, or `None` when the input ends first.
   */
  function ReadCodes(codes: seq<bv32>, value: bv32, shiftPos: bv32): (r: Option<(bv32, seq<bv32>)>)
    ensures r.Some? ==> |r.value.1| < |codes|
  {
    if |codes| == 0 then None
    else
      var value' := value | ((codes[0] & 0x1F) << (shiftPos & 31));
      if codes[0] & 0x20 == 0 then Some((value', codes[1..]))
      else ReadCodes(codes[1..], value', shiftPos + 5)
  }

  /** `readEncodedValue`: the decoded delta and the codes after its group. */
  function ReadValue(codes: seq<bv32>): (r: Option<(bv32, seq<bv32>)>)
    ensures r.Some? ==> |r.value.1| < |codes|
  {
    match ReadCodes(codes, 0, 0)
    case None => None
    case Some((bits, rest)) => Some((UnZigZag(bits), rest))
  }

  /** A shift counter at which a chunk can still be placed. */
  predicate ShiftInRange(shiftPos: bv32) {
    shiftPos < 32
  }

  /** The bits `bits` survive being shifted left by `shiftPos`. */
  predicate Fits(bits: bv32, shiftPos: bv32)
    requires ShiftInRange(shiftPos)
  {
    (bits << shiftPos) >> shiftPos == bits
  }

  /** Reading the chunk group of `bits` ORs `bits`, shifted into place, into the value assembled so far. */
  predicate ReadsBack(bits: bv32, rest: seq<bv32>, value: bv32, shiftPos: bv32)
    requires bits < 0x8000_0000 && ShiftInRange(shiftPos)
  {
    ReadCodes(ChunkCodes(bits) + rest, value, shiftPos) == Some((value | (bits << shiftPos), rest))
  }

  // Below to StartOfValue: single bit-vector facts, kept apart so that each
  // proof obligation on `bv32` stays small for the solver.

  lemma Below(bits: bv32)
    ensures bits >> 5 < 0x8000_0000
  {
  }

  lemma LowShift(shiftPos: bv32)
    requires ShiftInRange(shiftPos)
    ensures shiftPos & 31 == shiftPos
  {
  }

  lemma NextShift(bits: bv32, shiftPos: bv32)
    requires ShiftInRange(shiftPos) && Fits(bits, shiftPos) && bits >> 5 != 0
    ensures shiftPos & 31 == shiftPos && shiftPos <= 26
    ensures ShiftInRange(shiftPos + 5)
  {
  }

  lemma NextFits(bits: bv32, shiftPos: bv32)
    requires shiftPos <= 26 && ShiftInRange(shiftPos + 5) && (bits << shiftPos) >> shiftPos == bits
    ensures Fits(bits >> 5, shiftPos + 5)
  {
  }

  /** The chunks above the low five bits, placed five bits further up, complete the value. */
  lemma OrChunk(value: bv32, bits: bv32, shiftPos: bv32)
    requires shiftPos <= 26
    ensures (value | ((bits & 0x1F) << shiftPos)) | ((bits >> 5) << (shiftPos + 5)) == value | (bits << shiftPos)
  {
  }

  lemma Advance(bits: bv32, shiftPos: bv32)
    requires ShiftInRange(shiftPos) && Fits(bits, shiftPos) && bits >> 5 != 0
    ensures bits >> 5 < 0x8000_0000 && bits >> 5 < bits
    ensures ShiftInRange(shiftPos + 5) && Fits(bits >> 5, shiftPos + 5)
  {
    NextShift(bits, shiftPos);
    NextFits(bits, shiftPos);
  }

  lemma ReadsBackLast(bits: bv32, rest: seq<bv32>, value: bv32, shiftPos: bv32)
    requires bits < 0x8000_0000 && bits >> 5 == 0
    requires ShiftInRange(shiftPos)
    ensures ReadsBack(bits, rest, value, shiftPos)
  {
    var s := ChunkCodes(bits) + rest;
    ChunkPayload(bits);
    LowShift(shiftPos);
    assert s[1..] == rest;
  }

  lemma ReadStep(bits: bv32, rest: seq<bv32>, value: bv32, shiftPos: bv32)
    requires bits < 0x8000_0000 && bits >> 5 != 0 && ShiftInRange(shiftPos)
    ensures ReadCodes(ChunkCodes(bits) + rest, value, shiftPos)
         == ReadCodes(ChunkCodes(bits >> 5) + rest, value | ((bits & 0x1F) << shiftPos), shiftPos + 5)
  {
    var s := ChunkCodes(bits) + rest;
    ChunkPayload(bits);
    LowShift(shiftPos);
    assert s[1..] == ChunkCodes(bits >> 5) + rest;
  }

  lemma ReadsBackNext(bits: bv32, rest: seq<bv32>, value: bv32, shiftPos: bv32)
    requires bits < 0x8000_0000 && bits >> 5 != 0
    requires ShiftInRange(shiftPos) && Fits(bits, shiftPos)
    requires ShiftInRange(shiftPos + 5)
    requires ReadsBack(bits >> 5, rest, value | ((bits & 0x1F) << shiftPos), shiftPos + 5)
    ensures ReadsBack(bits, rest, value, shiftPos)
  {
    NextShift(bits, shiftPos);
    ReadStep(bits, rest, value, shiftPos);
    OrChunk(value, bits, shiftPos);
  }

  /** Reading the chunk group of `bits` from shift `shiftPos` on ORs `bits << shiftPos` into the value. */
  lemma {:induction false} ReadChunkCodes(bits: bv32, rest: seq<bv32>, value: bv32, shiftPos: bv32)
    requires bits < 0x8000_0000
    requires ShiftInRange(shiftPos) && Fits(bits, shiftPos)
    ensures ReadsBack(bits, rest, value, shiftPos)
    decreases bits
  {
    if bits >> 5 != 0 {
      Advance(bits, shiftPos);
      ReadChunkCodes(bits >> 5, rest, value | ((bits & 0x1F) << shiftPos), shiftPos + 5);
      ReadsBackNext(bits, rest, value, shiftPos);
    } else {
      ReadsBackLast(bits, rest, value, shiftPos);
    }
  }

  lemma StartOfValue(bits: bv32)
    ensures Fits(bits, 0) && (0 | (bits << 0)) == bits
  {
  }

  /**
   * `readEncodedValue` applied to what `appendEncodedValue(value)` wrote
   * returns `value` and leaves exactly the codes that follow, whatever they are.
   */
  lemma ReadAfterAppend(value: bv32, rest: seq<bv32>)
    requires InDeltaRange(value)
    ensures ReadValue(Codes(EncodedValue(value)) + rest) == Some((value, rest))
  {
    CodesOfChunks(ZigZag(value));
    StartOfValue(ZigZag(value));
    ReadChunkCodes(ZigZag(value), rest, 0, 0);
    UnZigZagOfZigZag(value);
  }

  /** A group that the input ends inside, every chunk flagged, is not a value. */
  lemma {:induction false} ReadCodesUnterminated(codes: seq<bv32>, value: bv32, shiftPos: bv32)
    requires forall i :: 0 <= i < |codes| ==> codes[i] & 0x20 != 0
    ensures ReadCodes(codes, value, shiftPos) == None
    decreases |codes|
  {
    if |codes| > 0 {
      ReadCodesUnterminated(codes[1..], value | ((codes[0] & 0x1F) << (shiftPos & 31)), shiftPos + 5);
    }
  }

  /**
   * What `appendEncodedValue(value)` appends: at least one character, all of
   * them printable ASCII from `?` to `~`, whose codes form one chunk group.
   */
  lemma EncodedValueShape(value: bv32)
    requires InDeltaRange(value)
    ensures |EncodedValue(value)| >= 1
    ensures forall i :: 0 <= i < |EncodedValue(value)| ==> '?' <= EncodedValue(value)[i] <= '~'
    ensures ChunkGroup(Codes(EncodedValue(value)))
  {
    CodesOfChunks(ZigZag(value));
    ChunkCodesFlags(ZigZag(value));
  }

  // ---------------------------------------------------------------------------
  // Polylines
  // ---------------------------------------------------------------------------

  /** Where `previousLat` and `previousLon` start, in `encode` and in `decodeCoordinates`. */
  const Origin := Point(0, 0)

  // `Sub` and `Add` name the wrapping `-` and `+` so that proofs about points
  // see them as opaque terms and do not mix bit-vector and sequence reasoning;
  // `SubIsDifference` and `AddDifference` unfold them where needed.

  /** Kotlin `Int` subtraction, which wraps around: the deltas of `encode`. */
  function Sub(a: bv32, b: bv32): bv32 {
    a - b
  }

  /** Kotlin `Int` addition, which wraps around. */
  function Add(a: bv32, b: bv32): bv32 {
    a + b
  }

  /** Adding a wrapped difference undoes it. */
  lemma AddDifference(a: bv32, b: bv32)
    ensures Add(a, b - a) == b
  {
  }

  /** The running sums of `decodeCoordinates` after adding a latitude and a longitude delta. */
  function Step(previous: Point, deltaLat: bv32, deltaLon: bv32): Point {
    Point(Add(previous.lat, deltaLat), Add(previous.lon, deltaLon))
  }

  /** Adding the deltas `encode` wrote for a point to the previous point gives back the point, wrap-around and all. */
  lemma StepOfDeltas(point: Point, previous: Point)
    ensures Step(previous, Sub(point.lat, previous.lat), Sub(point.lon, previous.lon)) == point
  {
    SubIsDifference(point.lat, previous.lat);
    SubIsDifference(point.lon, previous.lon);
    StepOfDifferences(point, previous);
  }

  lemma SubIsDifference(a: bv32, b: bv32)
    ensures Sub(a, b) == a - b
  {
  }

  lemma StepOfDifferences(point: Point, previous: Point)
    ensures Step(previous, point.lat - previous.lat, point.lon - previous.lon) == point
  {
    AddDifference(previous.lat, point.lat);
    AddDifference(previous.lon, point.lon);
  }

  /**
   * Every delta `encode` computes, walking `points` from the point `previous`,
   * can be written: the Kotlin `Int` differences `lat - previousLat` and
   * `lon - previousLon` (which wrap around) are all in [-2^30, 2^30 - 1].
   */
  predicate Encodable(points: seq<Point>, previous: Point)
    decreases |points|
  {
    |points| == 0 ||
    (InDeltaRange(Sub(points[0].lat, previous.lat)) && InDeltaRange(Sub(points[0].lon, previous.lon))
     && Encodable(points[1..], points[0]))
  }

  /** The characters the `forEach` of `encode` appends for `points`, starting from the point `previous`. */
  function EncodeFrom(points: seq<Point>, previous: Point): string
    requires Encodable(points, previous)
    decreases |points|
  {
    if |points| == 0 then ""
    else
      EncodedValue(Sub(points[0].lat, previous.lat)) + EncodedValue(Sub(points[0].lon, previous.lon))
        + EncodeFrom(points[1..], points[0])
  }

  /** `encode(points)`. */
  function Encoding(points: seq<Point>): string
    requires Encodable(points, Origin)
  {
    EncodeFrom(points, Origin)
  }

  /** `points` in front of the points of a successful decoding; a failure stays a failure. */
  function Prepend(points: seq<Point>, r: Result<seq<Point>, DecodeError>): Result<seq<Point>, DecodeError> {
    match r
    case Ok(rest) => Ok(points + rest)
    case Err(e) => Err(e)
  }

  /**
   * The points `decodeCoordinates` yields from the codes of the remaining
   * characters, with the running sums at `previous`: while characters remain,
   * a latitude delta and then a longitude delta are read and added to the
   * sums (wrapping around like `Int`). Reading past the end is an error.
   */
  function DecodeCodes(codes: seq<bv32>, previous: Point): (r: Result<seq<Point>, DecodeError>)
    decreases |codes|
  {
    if |codes| == 0 then Ok([])
    else
      match ReadValue(codes)
      case None => Err(UnexpectedEndOfInput)
      case Some((deltaLat, afterLat)) =>
        match ReadValue(afterLat)
        case None => Err(UnexpectedEndOfInput)
        case Some((deltaLon, afterLon)) =>
          var point := Step(previous, deltaLat, deltaLon);
          Prepend([point], DecodeCodes(afterLon, point))
  }

  /** `decodeCoordinates(polyline)`, all of it consumed. */
  function Decode(polyline: string): Result<seq<Point>, DecodeError> {
    DecodeCodes(Codes(polyline), Origin)
  }

  lemma PrependNothing(r: Result<seq<Point>, DecodeError>)
    ensures Prepend([], r) == r
  {
    match r
    case Ok(ps) =>
      assert [] + ps == ps;
    case Err(_) =>
  }

  /** The point `encode` and `decodeCoordinates` hold as previous after `points`. */
  function LastPoint(points: seq<Point>, previous: Point): Point {
    if |points| == 0 then previous else points[|points| - 1]
  }

  // `Associate` and `Regroup` give sequence associativity as explicit steps,
  // which keeps the obligations of the codec lemmas small.

  lemma Associate<T>(a: seq<T>, b: seq<T>, c: seq<T>)
    ensures a + b + c == a + (b + c)
  {
  }

  lemma Regroup<T>(a: seq<T>, b: seq<T>, c: seq<T>, rest: seq<T>)
    ensures (a + b) + c + rest == a + (b + (c + rest))
  {
  }

  /** The codes of what `encode` writes for a point lie in front of the codes for the points after it. */
  lemma CodesOfPoint(points: seq<Point>, previous: Point, rest: seq<bv32>)
    requires |points| > 0 && Encodable(points, previous)
    ensures Codes(EncodeFrom(points, previous)) + rest
         == Codes(EncodedValue(Sub(points[0].lat, previous.lat)))
            + (Codes(EncodedValue(Sub(points[0].lon, previous.lon))) + (Codes(EncodeFrom(points[1..], points[0])) + rest))
  {
    var a := EncodedValue(Sub(points[0].lat, previous.lat));
    var b := EncodedValue(Sub(points[0].lon, previous.lon));
    var c := EncodeFrom(points[1..], points[0]);
    assert EncodeFrom(points, previous) == a + b + c;
    CodesOfConcat(a + b, c);
    CodesOfConcat(a, b);
    Regroup(Codes(a), Codes(b), Codes(c), rest);
  }

  /** One turn of the `generateSequence` block of `decodeCoordinates`: a latitude delta, then a longitude delta. */
  lemma DecodeStep(codes: seq<bv32>, previous: Point, deltaLat: bv32, afterLat: seq<bv32>, deltaLon: bv32, afterLon: seq<bv32>)
    requires |codes| > 0
    requires ReadValue(codes) == Some((deltaLat, afterLat)) && ReadValue(afterLat) == Some((deltaLon, afterLon))
    ensures DecodeCodes(codes, previous)
         == Prepend([Step(previous, deltaLat, deltaLon)], DecodeCodes(afterLon, Step(previous, deltaLat, deltaLon)))
  {
  }

  lemma LastPointTail(points: seq<Point>, previous: Point)
    requires |points| > 0
    ensures LastPoint(points[1..], points[0]) == LastPoint(points, previous)
    ensures [points[0]] + points[1..] == points
  {
  }

  lemma PrependTwice(p: Point, points: seq<Point>, r: Result<seq<Point>, DecodeError>)
    ensures Prepend([p], Prepend(points, r)) == Prepend([p] + points, r)
  {
    match r
    case Ok(ps) =>
      assert [p] + (points + ps) == ([p] + points) + ps;
    case Err(_) =>
  }

  /**
   * Decoding the codes of what `encode` wrote for `points`, followed by any
   * codes `rest`, yields `points` and then whatever `rest` decodes to from the
   * last of them.
   */
  lemma {:induction false} DecodeAfterEncoding(points: seq<Point>, previous: Point, rest: seq<bv32>)
    requires Encodable(points, previous)
    ensures DecodeCodes(Codes(EncodeFrom(points, previous)) + rest, previous)
         == Prepend(points, DecodeCodes(rest, LastPoint(points, previous)))
    decreases |points|
  {
    if |points| == 0 {
      assert Codes(EncodeFrom(points, previous)) + rest == rest;
      assert points + [] == points;
      PrependNothing(DecodeCodes(rest, previous));
    } else {
      var p := points[0];
      DecodeFirstPoint(points, previous, rest);
      DecodeAfterEncoding(points[1..], p, rest);
      LastPointTail(points, previous);
      PrependTwice(p, points[1..], DecodeCodes(rest, LastPoint(points, previous)));
    }
  }

  /** The first two groups of what `encode` wrote decode to its first point, the running sums undoing the deltas. */
  lemma DecodeFirstPoint(points: seq<Point>, previous: Point, rest: seq<bv32>)
    requires |points| > 0 && Encodable(points, previous)
    ensures DecodeCodes(Codes(EncodeFrom(points, previous)) + rest, previous)
         == Prepend([points[0]], DecodeCodes(Codes(EncodeFrom(points[1..], points[0])) + rest, points[0]))
  {
    var p := points[0];
    var deltaLat := Sub(p.lat, previous.lat);
    var deltaLon := Sub(p.lon, previous.lon);
    var tail := Codes(EncodeFrom(points[1..], p)) + rest;
    var afterLat := Codes(EncodedValue(deltaLon)) + tail;
    CodesOfPoint(points, previous, rest);
    ReadAfterAppend(deltaLat, afterLat);
    ReadAfterAppend(deltaLon, tail);
    EncodedValueShape(deltaLat);
    StepOfDeltas(p, previous);
    DecodeStep(Codes(EncodedValue(deltaLat)) + afterLat, previous, deltaLat, afterLat, deltaLon, tail);
  }

  /** Decoding what `encode` wrote gives back the points, in order. */
  lemma DecodeEncode(points: seq<Point>)
    requires Encodable(points, Origin)
    ensures Decode(Encoding(points)) == Ok(points)
  {
    DecodeAfterEncoding(points, Origin, []);
    assert Codes(Encoding(points)) + [] == Codes(Encoding(points));
    assert points + [] == points;
  }

  /** Encoding what was decoded from a string `encode` wrote gives back that string. */
  lemma EncodeDecode(polyline: string, points: seq<Point>)
    requires Encodable(points, Origin) && polyline == Encoding(points)
    ensures Decode(polyline).Ok?
    ensures Encodable(Decode(polyline).value, Origin) && Encoding(Decode(polyline).value) == polyline
  {
    DecodeEncode(points);
  }

  /** No points encode to the empty string, and the empty string decodes to no points. */
  lemma EmptyPolyline()
    ensures Encodable([], Origin) && Encoding([]) == ""
    ensures Decode("") == Ok([])
  {
  }

  /** Every character `encode` writes is printable ASCII from `?` to `~`. */
  lemma {:induction false} EncodingPrintable(points: seq<Point>, previous: Point)
    requires Encodable(points, previous)
    ensures forall i :: 0 <= i < |EncodeFrom(points, previous)| ==> '?' <= EncodeFrom(points, previous)[i] <= '~'
    decreases |points|
  {
    if |points| > 0 {
      EncodedValueShape(Sub(points[0].lat, previous.lat));
      EncodedValueShape(Sub(points[0].lon, previous.lon));
      EncodingPrintable(points[1..], points[0]);
    }
  }

  /** The codes of characters every one of which carries the continuation flag. */
  predicate AllFlagged(codes: seq<bv32>) {
    forall i :: 0 <= i < |codes| ==> codes[i] & 0x20 != 0
  }

  /**
   * Decoding fails when the input ends inside a chunk group: after a complete
   * polyline, a latitude group, or a latitude group and a longitude delta
   * come characters that all carry the continuation flag.
   */
  lemma TruncatedGroup(points: seq<Point>, truncated: string)
    requires Encodable(points, Origin)
    requires |truncated| > 0 && AllFlagged(Codes(truncated))
    ensures Decode(Encoding(points) + truncated) == Err(UnexpectedEndOfInput)
  {
    CodesOfConcat(Encoding(points), truncated);
    DecodeAfterEncoding(points, Origin, Codes(truncated));
    ReadCodesUnterminated(Codes(truncated), 0, 0);
  }

  /** A latitude group followed only by flagged codes, or by none, is a point that cannot be completed. */
  lemma LatitudeOnly(deltaLat: bv32, tail: seq<bv32>, previous: Point)
    requires InDeltaRange(deltaLat) && AllFlagged(tail)
    ensures DecodeCodes(Codes(EncodedValue(deltaLat)) + tail, previous) == Err(UnexpectedEndOfInput)
  {
    ReadAfterAppend(deltaLat, tail);
    EncodedValueShape(deltaLat);
    ReadCodesUnterminated(tail, 0, 0);
  }

  /** Decoding fails when the input ends inside the longitude group of a point. */
  lemma TruncatedLongitude(points: seq<Point>, deltaLat: bv32, truncated: string)
    requires Encodable(points, Origin) && InDeltaRange(deltaLat)
    requires AllFlagged(Codes(truncated))
    ensures Decode(Encoding(points) + EncodedValue(deltaLat) + truncated) == Err(UnexpectedEndOfInput)
  {
    var lat := EncodedValue(deltaLat);
    CodesOfThree(Encoding(points), lat, truncated);
    DecodeAfterEncoding(points, Origin, Codes(lat) + Codes(truncated));
    LatitudeOnly(deltaLat, Codes(truncated), LastPoint(points, Origin));
    PrependError(points);
  }

  // `CodesOfThree` and `PrependError` are one-step helpers of the lemmas above.

  lemma CodesOfThree(a: string, b: string, c: string)
    ensures Codes(a + b + c) == Codes(a) + (Codes(b) + Codes(c))
  {
    CodesOfConcat(a + b, c);
    CodesOfConcat(a, b);
  }

  /** A failure stays a failure whatever points were decoded before it. */
  lemma PrependError(points: seq<Point>)
    ensures Prepend(points, Err(UnexpectedEndOfInput)) == Err(UnexpectedEndOfInput)
  {
  }

  /** Decoding fails when a latitude group is not followed by a longitude group. */
  lemma MissingLongitude(points: seq<Point>, deltaLat: bv32)
    requires Encodable(points, Origin) && InDeltaRange(deltaLat)
    ensures Decode(Encoding(points) + EncodedValue(deltaLat)) == Err(UnexpectedEndOfInput)
  {
    TruncatedLongitude(points, deltaLat, "");
    assert Encoding(points) + EncodedValue(deltaLat) + "" == Encoding(points) + EncodedValue(deltaLat);
  }

  // ---------------------------------------------------------------------------
  // Framing of arbitrary input
  // ---------------------------------------------------------------------------

  /** The number of codes without the continuation flag: each one closes a chunk group. */
  function GroupEnds(codes: seq<bv32>): nat
    decreases |codes|
  {
    if |codes| == 0 then 0
    else (if codes[0] & 0x20 == 0 then 1 else 0) + GroupEnds(codes[1..])
  }

  /**
   * Codes that split into whole chunk groups, an even number of them: the
   * input is empty or its last code closes a group, and every latitude group
   * has a longitude group after it.
   */
  predicate Framed(codes: seq<bv32>) {
    (|codes| == 0 || codes[|codes| - 1] & 0x20 == 0) && GroupEnds(codes) % 2 == 0
  }

  /** A last code that closes a group is counted. */
  lemma {:induction false} LastGroupEnd(codes: seq<bv32>)
    requires |codes| > 0 && codes[|codes| - 1] & 0x20 == 0
    ensures GroupEnds(codes) > 0
    decreases |codes|
  {
    if |codes| > 1 && codes[0] & 0x20 != 0 {
      assert codes[1..][|codes| - 2] == codes[|codes| - 1];
      LastGroupEnd(codes[1..]);
    }
  }

  /**
   * The do/while of `readEncodedValue` finds a value exactly when some code
   * closes a group; it then stops right after the first such code, and the
   * codes it leaves are the rest of the input, with one group end fewer.
   */
  lemma {:induction false} ReadCodesFraming(codes: seq<bv32>, value: bv32, shiftPos: bv32)
    ensures ReadCodes(codes, value, shiftPos).Some? <==> GroupEnds(codes) > 0
    ensures ReadCodes(codes, value, shiftPos).Some? ==>
              var rest := ReadCodes(codes, value, shiftPos).value.1;
              && rest == codes[|codes| - |rest|..]
              && codes[|codes| - |rest| - 1] & 0x20 == 0
              && GroupEnds(rest) == GroupEnds(codes) - 1
    decreases |codes|
  {
    if |codes| > 0 && codes[0] & 0x20 != 0 {
      var value' := value | ((codes[0] & 0x1F) << (shiftPos & 31));
      ReadCodesFraming(codes[1..], value', shiftPos + 5);
      assert ReadCodes(codes, value, shiftPos) == ReadCodes(codes[1..], value', shiftPos + 5);
    }
  }

  /** `ReadValue` frames its input as `ReadCodes` does. */
  lemma ReadValueFraming(codes: seq<bv32>)
    ensures ReadValue(codes).Some? <==> GroupEnds(codes) > 0
    ensures ReadValue(codes).Some? ==>
              var rest := ReadValue(codes).value.1;
              && rest == codes[|codes| - |rest|..]
              && codes[|codes| - |rest| - 1] & 0x20 == 0
              && GroupEnds(rest) == GroupEnds(codes) - 1
  {
    ReadCodesFraming(codes, 0, 0);
  }

  /**
   * Decoding succeeds on exactly the framed codes, from any running sums:
   * it fails when the input ends inside a chunk group and when a latitude
   * group has no longitude group after it.
   */
  lemma {:induction false} DecodeCodesFraming(codes: seq<bv32>, previous: Point)
    ensures DecodeCodes(codes, previous).Ok? <==> Framed(codes)
    decreases |codes|
  {
    if |codes| > 0 {
      ReadValueFraming(codes);
      if codes[|codes| - 1] & 0x20 == 0 {
        LastGroupEnd(codes);
      }
      match ReadValue(codes)
      case None =>
      case Some((deltaLat, afterLat)) =>
        ReadValueFraming(afterLat);
        match ReadValue(afterLat)
        case None =>
        case Some((deltaLon, afterLon)) =>
          var point := Step(previous, deltaLat, deltaLon);
          DecodeCodesFraming(afterLon, point);
          assert DecodeCodes(codes, previous) == Prepend([point], DecodeCodes(afterLon, point));
          if |afterLon| > 0 {
            assert afterLon[|afterLon| - 1] == codes[|codes| - 1];
          }
    }
  }

  /** Any input decodes exactly when its codes are framed. */
  lemma DecodeSucceeds(polyline: string)
    ensures Decode(polyline).Ok? <==> Framed(Codes(polyline))
  {
    DecodeCodesFraming(Codes(polyline), Origin);
  }

  /** Any input whose last character carries the continuation flag ends inside a chunk group and fails to decode. */
  lemma EndsInsideGroup(polyline: string)
    requires |polyline| > 0 && CharChunk(polyline[|polyline| - 1]) & 0x20 != 0
    ensures Decode(polyline) == Err(UnexpectedEndOfInput)
  {
    DecodeCodesFraming(Codes(polyline), Origin);
    assert Codes(polyline)[|polyline| - 1] == CharChunk(polyline[|polyline| - 1]);
    assert Decode(polyline).Err? && Decode(polyline).error.UnexpectedEndOfInput?;
  }

  /** Any input with an odd number of chunk groups has a latitude group with no longitude group and fails to decode. */
  lemma OddGroupCount(polyline: string)
    requires GroupEnds(Codes(polyline)) % 2 == 1
    ensures Decode(polyline) == Err(UnexpectedEndOfInput)
  {
    DecodeCodesFraming(Codes(polyline), Origin);
    assert Decode(polyline).Err? && Decode(polyline).error.UnexpectedEndOfInput?;
  }

  // ---------------------------------------------------------------------------
  // The encoder and the decoder as written
  // ---------------------------------------------------------------------------

  /** The `StringBuilder` of `buildString`: characters are only ever appended. */
  class StringBuilder {
    var chars: string

    constructor()
      ensures chars == []
    {
      chars := [];
    }

    method Append(c: char)
      modifies this
      ensures chars == old(chars) + [c]
    {
      chars := chars + [c];
    }
  }

  /**
   * `appendEncodedValue`: zig-zag the delta, then append one character per
   * 5-bit chunk, low chunk first, until no bits remain (a do/while: at least
   * one character).
   */
  method AppendEncodedValue(builder: StringBuilder, value: bv32)
    requires InDeltaRange(value)
    modifies builder
    ensures builder.chars == old(builder.chars) + EncodedValue(value)
  {
    var actualValue := ZigZag(value);
    var remainingBits := actualValue;
    ghost var target := old(builder.chars) + EncodedValue(value);
    var more := true;
    while more
      invariant Emitting(builder.chars, remainingBits, more, target)
      decreases more, remainingBits
    {
      EmitStep(builder.chars, remainingBits, target);
      ChunkOfStep(remainingBits);
      var lastFiveBits := LastFiveBits(remainingBits);
      remainingBits := ShrFive(remainingBits);
      var chunk := if remainingBits != 0 then Flagged(lastFiveBits) else lastFiveBits;
      builder.Append(ChunkChar(chunk));
      more := remainingBits != 0;
    }
  }

  /**
   * The state of the do/while of `appendEncodedValue` after writing `written`:
   * while more is to come, the characters of `remainingBits` complete the
   * output; afterwards the output is complete.
   */
  ghost predicate Emitting(written: string, remainingBits: bv32, more: bool, target: string) {
    remainingBits < 0x8000_0000 && (if more then written + Chunks(remainingBits) == target else written == target)
  }

  /** One turn of the do/while of `appendEncodedValue` keeps `Emitting`, with fewer bits left. */
  lemma EmitStep(written: string, bits: bv32, target: string)
    requires Emitting(written, bits, true, target)
    ensures Emitting(written + [ChunkChar(ChunkAt(bits))], bits >> 5, bits >> 5 != 0, target)
  {
    ChunkPayload(bits);
    var rest := if bits >> 5 != 0 then Chunks(bits >> 5) else [];
    assert Chunks(bits) == [ChunkChar(ChunkAt(bits))] + rest;
    assert written + Chunks(bits) == (written + [ChunkChar(ChunkAt(bits))]) + rest;
  }

  /** `remainingBits and 0b11111`. */
  function LastFiveBits(bits: bv32): bv32 {
    bits & 0x1F
  }

  /** `remainingBits shr 5` on the non-negative bits of a zig-zagged value, where `shr` is the logical shift. */
  function ShrFive(bits: bv32): bv32 {
    bits >> 5
  }

  /** `lastFiveBits or 0x20`: the continuation flag. */
  function Flagged(bits: bv32): bv32 {
    bits | 0x20
  }

  /** The chunk one turn of `appendEncodedValue` computes is `ChunkAt`, and the bits left shrink. */
  lemma ChunkOfStep(bits: bv32)
    ensures (if ShrFive(bits) != 0 then Flagged(LastFiveBits(bits)) else LastFiveBits(bits)) == ChunkAt(bits)
    ensures ShrFive(bits) == bits >> 5
    ensures ShrFive(bits) != 0 ==> ShrFive(bits) < bits
  {
  }

  /**
   * `encode`: walk the points with the running `previousLat`/`previousLon`,
   * appending the latitude delta and then the longitude delta of each.
   */
  method Encode(polyline: seq<Point>) returns (s: string)
    requires Encodable(polyline, Origin)
    ensures s == Encoding(polyline)
  {
    var previousLat: bv32 := 0;
    var previousLon: bv32 := 0;
    var builder := new StringBuilder();
    for i := 0 to |polyline|
      invariant Encodable(polyline[i..], Point(previousLat, previousLon))
      invariant builder.chars + EncodeFrom(polyline[i..], Point(previousLat, previousLon)) == Encoding(polyline)
    {
      var lat := polyline[i].lat;
      var lon := polyline[i].lon;
      var deltaLat := Sub(lat, previousLat);
      var deltaLon := Sub(lon, previousLon);
      EncodeNext(polyline, i, Point(previousLat, previousLon), builder.chars);
      AppendEncodedValue(builder, deltaLat);
      AppendEncodedValue(builder, deltaLon);
      previousLat := lat;
      previousLon := lon;
    }
    EncodeEnd(polyline, Point(previousLat, previousLon), builder.chars);
    s := builder.chars;
  }

  /** One turn of the loop of `encode`: the two deltas of point `i` move from the rest into the output. */
  lemma EncodeNext(polyline: seq<Point>, i: nat, previous: Point, written: string)
    requires Encodable(polyline, Origin) && i < |polyline|
    requires Encodable(polyline[i..], previous)
    requires written + EncodeFrom(polyline[i..], previous) == Encoding(polyline)
    ensures InDeltaRange(Sub(polyline[i].lat, previous.lat)) && InDeltaRange(Sub(polyline[i].lon, previous.lon))
    ensures Encodable(polyline[i + 1..], Point(polyline[i].lat, polyline[i].lon))
    ensures written + EncodedValue(Sub(polyline[i].lat, previous.lat)) + EncodedValue(Sub(polyline[i].lon, previous.lon))
            + EncodeFrom(polyline[i + 1..], Point(polyline[i].lat, polyline[i].lon))
         == Encoding(polyline)
  {
    var lat := EncodedValue(Sub(polyline[i].lat, previous.lat));
    var lon := EncodedValue(Sub(polyline[i].lon, previous.lon));
    var tail := EncodeFrom(polyline[i + 1..], Point(polyline[i].lat, polyline[i].lon));
    EncodeAt(polyline, i, previous);
    Associate(lat, lon, tail);
    Regroup(written, lat, lon, tail);
  }

  /** `EncodeFirst` for the points from index `i` on. */
  lemma EncodeAt(polyline: seq<Point>, i: nat, previous: Point)
    requires i < |polyline| && Encodable(polyline[i..], previous)
    ensures InDeltaRange(Sub(polyline[i].lat, previous.lat)) && InDeltaRange(Sub(polyline[i].lon, previous.lon))
    ensures Encodable(polyline[i + 1..], Point(polyline[i].lat, polyline[i].lon))
    ensures EncodeFrom(polyline[i..], previous)
         == EncodedValue(Sub(polyline[i].lat, previous.lat)) + EncodedValue(Sub(polyline[i].lon, previous.lon))
            + EncodeFrom(polyline[i + 1..], Point(polyline[i].lat, polyline[i].lon))
  {
    var rest := polyline[i..];
    assert rest[0] == polyline[i] && rest[1..] == polyline[i + 1..];
    EncodeFirst(rest, previous);
  }

  /** When the loop of `encode` ends, the output is the whole encoding. */
  lemma EncodeEnd(polyline: seq<Point>, previous: Point, written: string)
    requires Encodable(polyline, Origin)
    requires written + EncodeFrom(polyline[|polyline|..], previous) == Encoding(polyline)
    ensures written == Encoding(polyline)
  {
    assert polyline[|polyline|..] == [];
    assert written + "" == written;
  }

  /** The first point of an encodable walk is written as its two deltas, in front of the rest. */
  lemma EncodeFirst(points: seq<Point>, previous: Point)
    requires |points| > 0 && Encodable(points, previous)
    ensures InDeltaRange(Sub(points[0].lat, previous.lat)) && InDeltaRange(Sub(points[0].lon, previous.lon))
    ensures Encodable(points[1..], Point(points[0].lat, points[0].lon))
    ensures EncodeFrom(points, previous)
         == EncodedValue(Sub(points[0].lat, previous.lat)) + EncodedValue(Sub(points[0].lon, previous.lon))
            + EncodeFrom(points[1..], Point(points[0].lat, points[0].lon))
  {
    assert points[0] == Point(points[0].lat, points[0].lon);
  }

  /** `polyline.toCharArray().iterator()`: the characters and the position of the next one. */
  class CharIterator {
    const chars: string
    var index: nat

    ghost predicate Valid()
      reads this
    {
      index <= |chars|
    }

    /** The characters `next()` has not returned yet. */
    function Remaining(): string
      reads this
      requires Valid()
    {
      chars[index..]
    }

    constructor(s: string)
      ensures Valid() && chars == s && index == 0
    {
      chars := s;
      index := 0;
    }

    /** `hasNext()`. */
    function HasNext(): (b: bool)
      reads this
      requires Valid()
      ensures b <==> |Remaining()| > 0
    {
      index < |chars|
    }

    /** `next()`: the next character, or the error `next()` throws at the end. */
    method Next() returns (r: Result<char, DecodeError>)
      requires Valid()
      modifies this
      ensures Valid()
      ensures |old(Remaining())| == 0 ==> r == Err(UnexpectedEndOfInput) && index == old(index)
      ensures |old(Remaining())| > 0 ==> r == Ok(old(Remaining())[0]) && Remaining() == old(Remaining())[1..]
    {
      if index < |chars| {
        r := Ok(chars[index]);
        index := index + 1;
      } else {
        r := Err(UnexpectedEndOfInput);
      }
    }
  }

  /** The codes of a non-empty string: the code of its first character, then the codes of the rest. */
  lemma CodesTail(s: string)
    requires |s| > 0
    ensures Codes(s) == [CharChunk(s[0])] + Codes(s[1..])
  {
  }

  /**
   * `readEncodedValue`: read characters while their chunk carries the
   * continuation flag, or-ing each 5-bit payload in at `shiftPos` (Kotlin's
   * `shl` takes the shift count modulo 32), then undo the zig-zag. It reads
   * exactly what `ReadValue` consumes, and fails where `ReadValue` does.
   */
  method ReadEncodedValue(it: CharIterator) returns (r: Result<bv32, DecodeError>)
    requires it.Valid()
    modifies it
    ensures it.Valid()
    ensures ReadValue(Codes(old(it.Remaining())))
         == if r.Ok? then Some((r.value, Codes(it.Remaining()))) else None
  {
    ghost var start := Codes(it.Remaining());
    var value: bv32 := 0;
    var shiftPos: bv32 := 0;
    var isLast := false;
    while !isLast
      invariant it.Valid()
      invariant Reading(start, Codes(it.Remaining()), value, shiftPos, isLast)
      decreases !isLast, |it.Remaining()|
    {
      ghost var remaining := it.Remaining();
      var next := it.Next();
      if next.Err? {
        ReadCodesEmpty(value, shiftPos);
        return Err(next.error);
      }
      ReadNext(start, remaining, value, shiftPos);
      var chunk := CharChunk(next.value);
      isLast := IsLastChunk(chunk);
      value := Placed(value, chunk, shiftPos);
      shiftPos := Add(shiftPos, 5);
    }
    r := Ok(UnZigZag(value));
  }

  /** `(chunk and 0x20) == 0`: the chunk carries no continuation flag. */
  predicate IsLastChunk(chunk: bv32) {
    chunk & 0x20 == 0
  }

  /** `value or ((chunk and 0b11111) shl shiftPos)`, Kotlin's `shl` taking the shift count modulo 32. */
  function Placed(value: bv32, chunk: bv32, shiftPos: bv32): bv32 {
    value | ((chunk & 0x1F) << (shiftPos & 31))
  }

  /**
   * The state of the do/while of `readEncodedValue` on the codes `start`, with
   * `codes` left: before the last chunk, reading on from the bits assembled
   * so far does what reading from the start does; after it, the bits are
   * those of the whole group.
   */
  ghost predicate Reading(start: seq<bv32>, codes: seq<bv32>, value: bv32, shiftPos: bv32, isLast: bool) {
    if isLast then ReadCodes(start, 0, 0) == Some((value, codes))
    else ReadCodes(start, 0, 0) == ReadCodes(codes, value, shiftPos)
  }

  // `ReadCodesEmpty`, `ReadNext` and `ReadCodesStep` are the per-iteration
  // steps of the loop of `ReadEncodedValue`, split off for the solver.

  lemma ReadCodesEmpty(value: bv32, shiftPos: bv32)
    ensures ReadCodes([], value, shiftPos) == None
  {
  }

  /** One turn of the do/while of `readEncodedValue` keeps `Reading`. */
  lemma ReadNext(start: seq<bv32>, remaining: string, value: bv32, shiftPos: bv32)
    requires |remaining| > 0 && Reading(start, Codes(remaining), value, shiftPos, false)
    ensures Reading(start, Codes(remaining[1..]), Placed(value, CharChunk(remaining[0]), shiftPos), Add(shiftPos, 5),
                    IsLastChunk(CharChunk(remaining[0])))
  {
    CodesTail(remaining);
    ReadCodesStep(Codes(remaining), value, shiftPos);
  }

  /** `ReadCodes` on a non-empty sequence, in terms of `Placed` and `IsLastChunk`. */
  lemma ReadCodesStep(codes: seq<bv32>, value: bv32, shiftPos: bv32)
    requires |codes| > 0
    ensures ReadCodes(codes, value, shiftPos)
         == if IsLastChunk(codes[0]) then Some((Placed(value, codes[0], shiftPos), codes[1..]))
            else ReadCodes(codes[1..], Placed(value, codes[0], shiftPos), Add(shiftPos, 5))
  {
  }

  /** `Prepend` of a concatenation is `Prepend` twice. */
  lemma PrependConcat(points: seq<Point>, more: seq<Point>, r: Result<seq<Point>, DecodeError>)
    ensures Prepend(points, Prepend(more, r)) == Prepend(points + more, r)
  {
    match r
    case Ok(ps) =>
      assert points + (more + ps) == (points + more) + ps;
    case Err(_) =>
  }

  /**
   * `decodeCoordinates`, consumed to the end as `decode` does with `toList()`:
   * while characters remain, read a latitude delta and a longitude delta, add
   * them to the running sums and emit the point. It yields exactly `Decode`.
   */
  method DecodeCoordinates(polyline: string) returns (r: Result<seq<Point>, DecodeError>)
    ensures r == Decode(polyline)
  {
    var encoded := new CharIterator(polyline);
    var previousLat: bv32 := 0;
    var previousLon: bv32 := 0;
    var points: seq<Point> := [];
    PrependNothing(Decode(polyline));
    while encoded.HasNext()
      invariant encoded.Valid()
      invariant Decode(polyline) == Prepend(points, DecodeCodes(Codes(encoded.Remaining()), Point(previousLat, previousLon)))
      decreases |encoded.Remaining()|
    {
      ghost var codes := Codes(encoded.Remaining());
      var deltaLat := ReadEncodedValue(encoded);
      if deltaLat.Err? {
        DecodeFails(codes, Point(previousLat, previousLon), points);
        assert deltaLat.error == UnexpectedEndOfInput;
        return Err(deltaLat.error);
      }
      ghost var afterLat := Codes(encoded.Remaining());
      var deltaLon := ReadEncodedValue(encoded);
      if deltaLon.Err? {
        DecodeFails(codes, Point(previousLat, previousLon), points);
        assert deltaLon.error == UnexpectedEndOfInput;
        return Err(deltaLon.error);
      }
      DecodeNext(codes, previousLat, previousLon, deltaLat.value, afterLat, deltaLon.value, Codes(encoded.Remaining()), points);
      previousLat := Add(previousLat, deltaLat.value);
      previousLon := Add(previousLon, deltaLon.value);
      points := points + [Point(previousLat, previousLon)];
    }
    DecodeDone(Codes(encoded.Remaining()), Point(previousLat, previousLon), points);
    r := Ok(points);
  }

  /** Input that ends inside the latitude group or inside the longitude group makes the whole decoding fail. */
  lemma DecodeFails(codes: seq<bv32>, previous: Point, points: seq<Point>)
    requires |codes| > 0
    requires ReadValue(codes).None? || ReadValue(ReadValue(codes).value.1).None?
    ensures Prepend(points, DecodeCodes(codes, previous)) == Err(UnexpectedEndOfInput)
  {
  }

  /** One turn of the loop of `decodeCoordinates`: the point of the running sums moves into the output. */
  lemma DecodeNext(codes: seq<bv32>, previousLat: bv32, previousLon: bv32, deltaLat: bv32, afterLat: seq<bv32>,
                   deltaLon: bv32, afterLon: seq<bv32>, points: seq<Point>)
    requires |codes| > 0
    requires ReadValue(codes) == Some((deltaLat, afterLat)) && ReadValue(afterLat) == Some((deltaLon, afterLon))
    ensures Prepend(points, DecodeCodes(codes, Point(previousLat, previousLon)))
         == Prepend(points + [Point(Add(previousLat, deltaLat), Add(previousLon, deltaLon))],
                    DecodeCodes(afterLon, Point(Add(previousLat, deltaLat), Add(previousLon, deltaLon))))
  {
    var previous := Point(previousLat, previousLon);
    var next := Step(previous, deltaLat, deltaLon);
    DecodeStep(codes, previous, deltaLat, afterLat, deltaLon, afterLon);
    PrependConcat(points, [next], DecodeCodes(afterLon, next));
  }

  /** With no characters left, the points read so far are the decoding. */
  lemma DecodeDone(codes: seq<bv32>, previous: Point, points: seq<Point>)
    requires |codes| == 0
    ensures Prepend(points, DecodeCodes(codes, previous)) == Ok(points)
  {
    assert points + [] == points;
  }

  // ---------------------------------------------------------------------------
  // The worked example of the format
  // ---------------------------------------------------------------------------

  /** (38.5, -120.2), (40.7, -120.95), (43.252, -126.453), in 1e-5 degrees; negative `Int`s as two's complement. */
  const ReferencePoints: seq<Point> :=
    [Point(3850000, 0xFF48_96E0), Point(4070000, 0xFF47_71E8), Point(4325200, 0xFF3F_0C4C)]

  /** The characters of the first point: its deltas from the origin. */
  lemma ReferenceFirstPoint()
    ensures EncodedValue(3850000) == "_p~iF" && EncodedValue(0xFF48_96E0) == "~ps|U"
  {
    ReferenceFirstLatitude();
    ReferenceFirstLongitude();
  }

  lemma ReferenceFirstLatitude()
    ensures EncodedValue(3850000) == "_p~iF"
  {
    assert ZigZag(0x3abf10) == 7700000;
    assert Chunks(7) == "F";
    assert Chunks(234) == "iF";
    assert Chunks(7519) == "~iF";
    assert Chunks(240625) == "p~iF";
    assert Chunks(7700000) == "_p~iF";
  }

  lemma ReferenceFirstLongitude()
    ensures EncodedValue(0xFF48_96E0) == "~ps|U"
  {
    assert ZigZag(0xff4896e0) == 24039999;
    assert Chunks(22) == "U";
    assert Chunks(733) == "|U";
    assert Chunks(23476) == "s|U";
    assert Chunks(751249) == "ps|U";
    assert Chunks(24039999) == "~ps|U";
  }

  lemma ReferenceSecondPoint()
    ensures EncodedValue(220000) == "_ulL" && EncodedValue(0xFFFE_DB08) == "nnqC"
  {
    assert ZigZag(0x35b60) == 440000;
    assert Chunks(13) == "L";
    assert Chunks(429) == "lL";
    assert Chunks(13750) == "ulL";
    assert Chunks(440000) == "_ulL";
    assert ZigZag(0xfffedb08) == 149999;
    assert Chunks(4) == "C";
    assert Chunks(146) == "qC";
    assert Chunks(4687) == "nqC";
    assert Chunks(149999) == "nnqC";
  }

  lemma ReferenceThirdPoint()
    ensures EncodedValue(255200) == "_mqN" && EncodedValue(0xFFF7_9A64) == "vxq`@"
  {
    assert ZigZag(0x3e4e0) == 510400;
    assert Chunks(15) == "N";
    assert Chunks(498) == "qN";
    assert Chunks(15950) == "mqN";
    assert Chunks(510400) == "_mqN";
    assert ZigZag(0xfff79a64) == 1100599;
    assert Chunks(1) == "@";
    assert Chunks(33) == "`@";
    assert Chunks(1074) == "q`@";
    assert Chunks(34393) == "xq`@";
    assert Chunks(1100599) == "vxq`@";
  }

  /** What `encode` writes for the last two example points, after the first. */
  lemma ReferenceTail()
    ensures Encodable(ReferencePoints[1..], ReferencePoints[0])
    ensures EncodeFrom(ReferencePoints[1..], ReferencePoints[0]) == "_ulLnnqC_mqNvxq`@"
  {
    var p := ReferencePoints;
    ReferenceSecondPoint();
    ReferenceThirdPoint();
    assert Sub(p[1].lat, p[0].lat) == 220000 && Sub(p[1].lon, p[0].lon) == 0xFFFE_DB08;
    assert Sub(p[2].lat, p[1].lat) == 255200 && Sub(p[2].lon, p[1].lon) == 0xFFF7_9A64;
    assert p[1..][1..] == p[2..] && p[2..][1..] == [];
    assert EncodeFrom(p[2..], p[1]) == "_mqN" + "vxq`@" + "";
    assert EncodeFrom(p[1..], p[0]) == "_ulL" + "nnqC" + "_mqNvxq`@";
  }

  /** The example points encode to the example string. */
  lemma ReferenceEncoding()
    ensures Encodable(ReferencePoints, Origin)
    ensures Encoding(ReferencePoints) == "_p~iF~ps|U_ulLnnqC_mqNvxq`@"
  {
    var p := ReferencePoints;
    ReferenceFirstPoint();
    ReferenceTail();
    assert Sub(p[0].lat, Origin.lat) == 3850000 && Sub(p[0].lon, Origin.lon) == 0xFF48_96E0;
    assert EncodeFrom(p, Origin) == "_p~iF" + "~ps|U" + "_ulLnnqC_mqNvxq`@";
    ReferenceString();
  }

  // The reference string spelled out as the concatenation of its groups.
  lemma ReferenceString()
    ensures "_p~iF" + "~ps|U" + "_ulLnnqC_mqNvxq`@" == "_p~iF~ps|U_ulLnnqC_mqNvxq`@"
  {
  }

  /** The example string decodes to the example points. */
  lemma ReferenceDecoding()
    ensures Decode("_p~iF~ps|U_ulLnnqC_mqNvxq`@") == Ok(ReferencePoints)
  {
    ReferenceEncoding();
    DecodeEncode(ReferencePoints);
  }
}
