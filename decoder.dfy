/**
 * The mozLz4 container decoder: the sequence of gates in `void_main`
 * (main.c:67-123) between the mapped input bytes and the write-out loop.
 * Every gate either passes or ends the process with a diagnostic; here a
 * failure is a `DecodeError` value, one constructor per gate.
 */
module Decoder {
  import opened Wrappers
  import opened Container

  /** Why decoding stopped; the fields carry the numbers the diagnostics print. */
  datatype DecodeError =
    | TooSmall(length: nat)                       // main.c:67-70
    | BadMagic                                    // main.c:72-75
    | DeclaredSizeTooLarge(declared: int)         // main.c:86-89
    | AllocationFailed(bytes: int)                // main.c:94-99
    | InputTooLarge(length: nat)                  // main.c:101-104
    | DecompressionFailed(code: int)              // main.c:115-118, the negated result
    | SizeMismatch(declared: int, produced: int)  // main.c:120-123

  /**
   * What `LZ4_decompress_safe` reports: its return value and the bytes it
   * wrote at the start of the destination buffer.
   */
  datatype Lz4Result = Lz4Result(count: int, written: seq<bv8>)

  /**
   * The block decompressor `LZ4_decompress_safe(src, dst, compressedSize,
   * dstCapacity)`, as a function of the source bytes, `compressedSize` and
   * `dstCapacity`. The library is not part of this model.
   */
  type Lz4 = (seq<bv8>, int, int) -> Lz4Result

  /**
   * All the decoder relies on from the decompressor: its result is a C
   * `int`, a non-negative result `n` means `n` bytes were written, and `n`
   * never exceeds the capacity.
   */
  ghost predicate Lz4Contract(lz4: Lz4) {
    forall src, srcSize, capacity ::
      -IntMax - 1 <= lz4(src, srcSize, capacity).count <= IntMax &&
      (0 <= capacity && 0 <= lz4(src, srcSize, capacity).count ==>
        lz4(src, srcSize, capacity).count <= capacity &&
        |lz4(src, srcSize, capacity).written| == lz4(src, srcSize, capacity).count)
  }

  /** The payload: everything after the 12-byte header. */
  function Payload(file: seq<bv8>): (p: seq<bv8>)
    requires |file| >= PayloadOffset
    ensures |p| == |file| - PayloadOffset
    ensures file == file[..PayloadOffset] + p
  {
    file[PayloadOffset..]
  }

  /** The declared decompressed size, as an unsigned value (`header_size_u`). */
  function DeclaredSize(file: seq<bv8>): (v: int)
    requires |file| >= PayloadOffset
    ensures 0 <= v < TwoTo32
    ensures v == LittleEndianValue(file[|Magic|..PayloadOffset])
  {
    SizeFieldValue(file[|Magic|..PayloadOffset]);
    SizeField(file[|Magic|..PayloadOffset]) as int
  }

  /**
   * Gates 1 to 3 (main.c:67-92): length floor, magic, declared size. On
   * success the result is `header_size`, the declared size as a C `int`.
   */
  function ReadHeader(file: seq<bv8>): (r: Result<int, DecodeError>)
    ensures r.Success? <==>
      |file| >= PayloadOffset && file[..|Magic|] == Magic && DeclaredSize(file) <= IntMax
    ensures r.Success? ==> r.value == DeclaredSize(file)
  {
    if |file| < PayloadOffset then
      Failure(TooSmall(|file|))
    else if file[..|Magic|] != Magic then
      Failure(BadMagic)
    else
      var declared := DeclaredSize(file);
      if declared > IntMax then
        Failure(DeclaredSizeTooLarge(declared))
      else
        ToCIntExact(declared);
        Success(ToCInt(declared))
  }

  /**
   * Gates 6 and 7 (main.c:115-123): what the decompressor's result means. A
   * count different from the declared size is fatal although the source's
   * message calls it a warning.
   */
  function CheckDecompressed(headerSize: int, res: Lz4Result): (r: Result<seq<bv8>, DecodeError>)
    ensures r.Success? <==> res.count >= 0 && res.count == headerSize
    // a negative result is reported negated, as the positive code the diagnostic prints
    ensures res.count < 0 ==> r == Failure(DecompressionFailed(-res.count)) && r.error.code > 0
    // a non-negative count other than the declared size is a mismatch, carrying both numbers
    ensures 0 <= res.count != headerSize ==> r == Failure(SizeMismatch(headerSize, res.count))
    // on success the output is exactly the bytes the decompressor wrote
    ensures r.Success? ==> r.value == res.written
    ensures r.Success? && |res.written| == res.count ==> |r.value| == headerSize
  {
    if res.count < 0 then
      Failure(DecompressionFailed(-res.count))
    else if res.count != headerSize then
      Failure(SizeMismatch(headerSize, res.count))
    else
      Success(res.written)
  }

  /**
   * The whole gate sequence of main.c:67-123. `mallocOk` is whether
   * `malloc` returned a buffer; `lz4` stands for `LZ4_decompress_safe`.
   */
  function Decode(file: seq<bv8>, mallocOk: bool, lz4: Lz4): (r: Result<seq<bv8>, DecodeError>)
    requires Lz4Contract(lz4)
    ensures r.Success? ==>
      |file| >= PayloadOffset && file[..|Magic|] == Magic &&
      |r.value| == LittleEndianValue(file[|Magic|..PayloadOffset]) <= IntMax
  {
    match ReadHeader(file)
    case Failure(e) => Failure(e)
    case Success(headerSize) =>
      if !mallocOk then
        Failure(AllocationFailed(headerSize))
      else if |file| - PayloadOffset > IntMax then
        Failure(InputTooLarge(|file|))
      else
        var res := lz4(Payload(file), ToCInt(|file| - PayloadOffset), headerSize);
        CheckDecompressed(headerSize, res)
  }

  // ---------------------------------------------------------------------
  // Properties of the gate sequence

  /** An input shorter than the header is rejected as too small, and only then. */
  lemma TooSmallIffShort(file: seq<bv8>, mallocOk: bool, lz4: Lz4)
    requires Lz4Contract(lz4)
    ensures Decode(file, mallocOk, lz4) == Failure(TooSmall(|file|)) <==> |file| < PayloadOffset
    ensures Decode(file, mallocOk, lz4).Failure? && Decode(file, mallocOk, lz4).error.TooSmall?
      ==> |file| < PayloadOffset
  {
  }

  /**
   * No byte of a short input is read: two inputs of the same short length
   * decode alike, whatever the allocator and the decompressor would do.
   */
  lemma ShortInputIsNotRead(f: seq<bv8>, g: seq<bv8>, mallocOk: bool, mallocOk': bool, lz4: Lz4, lz4': Lz4)
    requires Lz4Contract(lz4) && Lz4Contract(lz4')
    requires |f| == |g| < PayloadOffset
    ensures Decode(f, mallocOk, lz4) == Decode(g, mallocOk', lz4')
  {
  }

  /** A long enough input is rejected for its magic exactly when some magic byte differs. */
  lemma BadMagicIffSomeByteDiffers(file: seq<bv8>, mallocOk: bool, lz4: Lz4)
    requires Lz4Contract(lz4)
    requires |file| >= PayloadOffset
    ensures Decode(file, mallocOk, lz4) == Failure(BadMagic) <==>
      exists i :: 0 <= i < |Magic| && file[i] != Magic[i]
  {
  }

  /** Changing any single byte of a correct magic, to any other value, rejects the input. */
  lemma AnyMagicByteChangeRejected(file: seq<bv8>, i: nat, x: bv8, mallocOk: bool, lz4: Lz4)
    requires Lz4Contract(lz4)
    requires |file| >= PayloadOffset && file[..|Magic|] == Magic
    requires i < |Magic| && x != Magic[i]
    ensures Decode(file[i := x], mallocOk, lz4) == Failure(BadMagic)
  {
  }

  /**
   * A declared size above INT_MAX is rejected with its value, before the
   * allocator or the decompressor is consulted.
   */
  lemma DeclaredSizeAboveIntMaxRejected(file: seq<bv8>, mallocOk: bool, lz4: Lz4)
    requires Lz4Contract(lz4)
    requires |file| >= PayloadOffset && file[..|Magic|] == Magic
    requires LittleEndianValue(file[|Magic|..PayloadOffset]) > IntMax
    ensures Decode(file, mallocOk, lz4)
      == Failure(DeclaredSizeTooLarge(LittleEndianValue(file[|Magic|..PayloadOffset])))
  {
  }

  /**
   * Once the header and the allocation pass, a payload longer than INT_MAX
   * is rejected; otherwise the decompressor receives exactly bytes 12.. of
   * the input, their exact count, and the declared size as capacity, and its
   * result decides the outcome.
   */
  lemma DecompressorSeesPayload(file: seq<bv8>, lz4: Lz4)
    requires Lz4Contract(lz4)
    requires ReadHeader(file).Success?
    ensures |file| - PayloadOffset > IntMax ==>
      Decode(file, true, lz4) == Failure(InputTooLarge(|file|))
    ensures |file| - PayloadOffset <= IntMax ==>
      Decode(file, true, lz4) == CheckDecompressed(DeclaredSize(file),
        lz4(file[PayloadOffset..], |file| - PayloadOffset, DeclaredSize(file)))
  {
  }

  /**
   * A decompression failure carries the negated result of the decompressor,
   * a code between 1 and 2^31; the code 2^31 stands for the result INT_MIN,
   * whose negation in C's `int` is undefined.
   */
  lemma DecompressionCodeInRange(file: seq<bv8>, mallocOk: bool, lz4: Lz4)
    requires Lz4Contract(lz4)
    requires Decode(file, mallocOk, lz4).Failure? && Decode(file, mallocOk, lz4).error.DecompressionFailed?
    ensures 1 <= Decode(file, mallocOk, lz4).error.code <= IntMax + 1
    ensures Decode(file, mallocOk, lz4).error.code == IntMax + 1 <==>
      Decompressed(file, lz4).count == -IntMax - 1
  {
    DecompressorSeesPayload(file, lz4);
  }

  /** A failed allocation stops decoding with the requested size, before the payload checks. */
  lemma AllocationFailureRejected(file: seq<bv8>, lz4: Lz4)
    requires Lz4Contract(lz4)
    requires ReadHeader(file).Success?
    ensures Decode(file, false, lz4) == Failure(AllocationFailed(DeclaredSize(file)))
  {
  }

  // ---------------------------------------------------------------------
  // The gates, stated one by one, and the order in which they are tried

  /** The checks of main.c:67-123, in the order the source performs them. */
  datatype Gate =
    | LengthGate | MagicGate | DeclaredSizeGate | AllocationGate
    | PayloadLengthGate | DecompressionGate | SizeMatchGate
  {
    function Index(): (i: nat) {
      match this
      case LengthGate => 0
      case MagicGate => 1
      case DeclaredSizeGate => 2
      case AllocationGate => 3
      case PayloadLengthGate => 4
      case DecompressionGate => 5
      case SizeMatchGate => 6
    }
  }

  /**
   * Whether an input passes one gate, stated on its own with the arithmetic
   * value of the size field and exact integers, without the C conversions.
   */
  ghost predicate Passes(g: Gate, file: seq<bv8>, mallocOk: bool, lz4: Lz4) {
    match g
    case LengthGate => |file| >= PayloadOffset
    case MagicGate => |file| >= PayloadOffset && forall i :: 0 <= i < |Magic| ==> file[i] == Magic[i]
    case DeclaredSizeGate => |file| >= PayloadOffset && LittleEndianValue(file[|Magic|..PayloadOffset]) <= IntMax
    case AllocationGate => mallocOk
    case PayloadLengthGate => |file| - PayloadOffset <= IntMax
    case DecompressionGate =>
      |file| >= PayloadOffset && Decompressed(file, lz4).count >= 0
    case SizeMatchGate =>
      |file| >= PayloadOffset && Decompressed(file, lz4).count == LittleEndianValue(file[|Magic|..PayloadOffset])
  }

  /** What the decompressor returns for the payload, its length and the declared size. */
  ghost function Decompressed(file: seq<bv8>, lz4: Lz4): (res: Lz4Result)
    requires |file| >= PayloadOffset
  {
    var declared := LittleEndianValue(file[|Magic|..PayloadOffset]);
    lz4(file[PayloadOffset..], |file| - PayloadOffset, declared)
  }

  /** The gate whose failure an error reports. */
  function GateOf(e: DecodeError): (g: Gate) {
    match e
    case TooSmall(_) => LengthGate
    case BadMagic => MagicGate
    case DeclaredSizeTooLarge(_) => DeclaredSizeGate
    case AllocationFailed(_) => AllocationGate
    case InputTooLarge(_) => PayloadLengthGate
    case DecompressionFailed(_) => DecompressionGate
    case SizeMismatch(_, _) => SizeMatchGate
  }

  /**
   * Decoding succeeds exactly when every gate passes, and then yields the
   * decompressor's output of exactly the declared size; a failing input is
   * reported at the first gate, in source order, that it fails.
   */
  lemma FirstFailingGateReported(file: seq<bv8>, mallocOk: bool, lz4: Lz4)
    requires Lz4Contract(lz4)
    ensures Decode(file, mallocOk, lz4).Success? <==> forall g: Gate :: Passes(g, file, mallocOk, lz4)
    ensures Decode(file, mallocOk, lz4).Success? ==>
      Decode(file, mallocOk, lz4).value == Decompressed(file, lz4).written &&
      |Decode(file, mallocOk, lz4).value| == LittleEndianValue(file[|Magic|..PayloadOffset])
    ensures Decode(file, mallocOk, lz4).Failure? ==>
      var g := GateOf(Decode(file, mallocOk, lz4).error);
      !Passes(g, file, mallocOk, lz4) &&
      forall h: Gate :: h.Index() < g.Index() ==> Passes(h, file, mallocOk, lz4)
  {
    if |file| < PayloadOffset {
      assert !Passes(LengthGate, file, mallocOk, lz4);
      return;
    }
    assert Passes(LengthGate, file, mallocOk, lz4);
    if file[..|Magic|] != Magic {
      assert !Passes(MagicGate, file, mallocOk, lz4) by {
        BadMagicIffSomeByteDiffers(file, mallocOk, lz4);
      }
      return;
    }
    assert Passes(MagicGate, file, mallocOk, lz4) by {
      BadMagicIffSomeByteDiffers(file, mallocOk, lz4);
    }
    var declared := DeclaredSize(file);
    if declared > IntMax {
      assert !Passes(DeclaredSizeGate, file, mallocOk, lz4);
      return;
    }
    assert Passes(DeclaredSizeGate, file, mallocOk, lz4);
    if !mallocOk {
      assert !Passes(AllocationGate, file, mallocOk, lz4);
      return;
    }
    assert Passes(AllocationGate, file, mallocOk, lz4);
    DecompressorSeesPayload(file, lz4);
    if |file| - PayloadOffset > IntMax {
      assert !Passes(PayloadLengthGate, file, mallocOk, lz4);
      return;
    }
    assert Passes(PayloadLengthGate, file, mallocOk, lz4);
    var res := Decompressed(file, lz4);
    if res.count < 0 {
      assert !Passes(DecompressionGate, file, mallocOk, lz4);
      return;
    }
    assert Passes(DecompressionGate, file, mallocOk, lz4);
    if res.count != declared {
      assert !Passes(SizeMatchGate, file, mallocOk, lz4);
      return;
    }
    assert Passes(SizeMatchGate, file, mallocOk, lz4);
  }

  // ---------------------------------------------------------------------
  // Building containers

  /** The container holding `payload` under a declared size of `declared`. */
  function Frame(declared: bv32, payload: seq<bv8>): (f: seq<bv8>)
    ensures |f| == PayloadOffset + |payload|
  {
    Magic + SizeFieldBytes(declared) + payload
  }

  /** Reading a frame's header gives back its declared size and its payload. */
  lemma ReadHeaderOfFrame(declared: bv32, payload: seq<bv8>)
    ensures Payload(Frame(declared, payload)) == payload
    ensures DeclaredSize(Frame(declared, payload)) == declared as int
    ensures ReadHeader(Frame(declared, payload)) ==
      if declared as int <= IntMax then Success(declared as int)
      else Failure(DeclaredSizeTooLarge(declared as int))
  {
    var f := Frame(declared, payload);
    assert f[..|Magic|] == Magic;
    assert f[|Magic|..PayloadOffset] == SizeFieldBytes(declared);
    SizeFieldOfBytes(declared);
  }

  /** Every input whose header is accepted is the frame of its declared size and payload. */
  lemma AcceptedHeaderIsFrame(file: seq<bv8>)
    requires ReadHeader(file).Success?
    ensures file == Frame(SizeField(file[|Magic|..PayloadOffset]), Payload(file))
  {
  }

  /**
   * Decoding a frame whose sizes fit hands its payload and declared size to
   * the decompressor; the result is exactly the decompressor's output when
   * that has the declared size.
   */
  lemma DecodeFrame(declared: bv32, payload: seq<bv8>, lz4: Lz4)
    requires Lz4Contract(lz4)
    requires declared as int <= IntMax && |payload| <= IntMax
    ensures Decode(Frame(declared, payload), true, lz4)
      == CheckDecompressed(declared as int, lz4(payload, |payload|, declared as int))
    ensures lz4(payload, |payload|, declared as int).count == declared as int ==>
      Decode(Frame(declared, payload), true, lz4) == Success(lz4(payload, |payload|, declared as int).written)
  {
    ReadHeaderOfFrame(declared, payload);
    DecompressorSeesPayload(Frame(declared, payload), lz4);
  }

  /**
   * A declared size of exactly 2^31, the smallest size the field can hold
   * that does not fit an `int`, is rejected whatever the payload, the
   * allocator and the decompressor.
   */
  lemma DeclaredSizeTwoTo31Rejected(payload: seq<bv8>, mallocOk: bool, lz4: Lz4)
    requires Lz4Contract(lz4)
    ensures Decode(Frame(0x8000_0000, payload), mallocOk, lz4) == Failure(DeclaredSizeTooLarge(IntMax + 1))
  {
  }
}
