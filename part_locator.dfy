/**
 * The part locator of a patch index: one entry saying where a run of bytes of a target
 * file comes from. Sizes and two flags share one packed 32-bit field.
 */
module PartLocator {
  import opened Wrappers
  import opened Ints

  const SourceIndexZeros: int := 255
  const SourceIndexEmptyBlock: int := 254
  const SourceIndexUnavailable: int := 253
  const SourceIndexMaxValid: int := 252

  const MaskIsDeflatedBlockData: int := 0x8000_0000
  const MaskIsValidCrc32Value: int := 0x4000_0000
  const MaskTargetSize: int := 0x3FFF_FFFF

  /** The packed fields, each at its C# width. */
  datatype Locator = Locator(
    targetOffsetUint: uint32,
    sourceOffsetUint: uint32,
    targetSizeAndFlags: uint32,
    crc32OrPlaceholderEntryDataUnits: uint32,
    splitDecodedSourceFromUshort: uint16,
    targetIndexByte: uint8,
    sourceIndexByte: uint8)

  /** `default(IndexedZiPatchPartLocator)`: every field zero. */
  const Blank: Locator := Locator(0, 0, 0, 0, 0, 0, 0)

  // ---- Checked casts ----

  /** Rejects a value above `maxValue`; otherwise keeps its low 32 bits. */
  function CheckedCastToUint(v: int, maxValue: int): (r: Result<uint32>)
    ensures r.Err? <==> v > maxValue
    ensures r.Err? ==> r.error == ValueTooBig
    ensures r.Ok? && 0 <= v <= UInt32Max ==> r.value == v
  {
    if v > maxValue then Err(ValueTooBig) else Ok(ToUInt32(v))
  }

  /** Rejects a value above `maxValue`; otherwise keeps its low 16 bits. */
  function CheckedCastToUshort(v: int, maxValue: int): (r: Result<uint16>)
    ensures r.Err? <==> v > maxValue
    ensures r.Err? ==> r.error == ValueTooBig
    ensures r.Ok? && 0 <= v <= UInt16Max ==> r.value == v
    ensures r.Ok? ==> (r.value - v) % 0x1_0000 == 0
  {
    if v > maxValue then Err(ValueTooBig) else Ok(v % 0x1_0000)
  }

  /** Rejects a value above `maxValue`; otherwise keeps its low 8 bits. */
  function CheckedCastToByte(v: int, maxValue: int): (r: Result<uint8>)
    ensures r.Err? <==> v > maxValue
    ensures r.Err? ==> r.error == ValueTooBig
    ensures r.Ok? && 0 <= v <= UInt8Max ==> r.value == v
    ensures r.Ok? ==> (r.value - v) % 0x100 == 0
  {
    if v > maxValue then Err(ValueTooBig) else Ok(v % 0x100)
  }

  // ---- Getters ----

  function TargetOffset(l: Locator): nat { l.targetOffsetUint }
  function SourceOffset(l: Locator): nat { l.sourceOffsetUint }
  function TargetSize(l: Locator): nat { l.targetSizeAndFlags % 0x4000_0000 }
  function SplitDecodedSourceFrom(l: Locator): nat { l.splitDecodedSourceFromUshort }
  function TargetIndex(l: Locator): nat { l.targetIndexByte }
  function SourceIndex(l: Locator): nat { l.sourceIndexByte }
  function IsDeflatedBlockData(l: Locator): bool { l.targetSizeAndFlags / 0x8000_0000 % 2 == 1 }
  function IsValidCrc32Value(l: Locator): bool { l.targetSizeAndFlags / 0x4000_0000 % 2 == 1 }

  function MaxSourceSize(l: Locator): nat { if IsDeflatedBlockData(l) then 16384 else TargetSize(l) }
  function MaxSourceEnd(l: Locator): nat { SourceOffset(l) + MaxSourceSize(l) }

  function TargetEnd(l: Locator): (r: nat)
    ensures TargetOffset(l) <= r < TargetOffset(l) + 0x4000_0000
    ensures r == TargetOffset(l) <==> TargetSize(l) == 0
  {
    TargetOffset(l) + TargetSize(l)
  }

  /** The three flag-and-size components are independent: the packed word is exactly their sum. */
  lemma PackedWord(l: Locator)
    ensures l.targetSizeAndFlags ==
      (if IsDeflatedBlockData(l) then MaskIsDeflatedBlockData else 0)
      + (if IsValidCrc32Value(l) then MaskIsValidCrc32Value else 0)
      + TargetSize(l)
    ensures TargetSize(l) <= MaskTargetSize
  {
  }

  function IsAllZeros(l: Locator): bool { SourceIndex(l) == SourceIndexZeros }
  function IsEmptyBlock(l: Locator): bool { SourceIndex(l) == SourceIndexEmptyBlock }
  function IsUnavailable(l: Locator): bool { SourceIndex(l) == SourceIndexUnavailable }

  /** A part comes from a patch file exactly when its source index is a real one, at most 252. */
  function IsFromSourceFile(l: Locator): (r: bool)
    ensures r <==> SourceIndex(l) <= SourceIndexMaxValid
    ensures r <==> SourceIndex(l) !in {SourceIndexZeros, SourceIndexEmptyBlock, SourceIndexUnavailable}
  {
    !IsAllZeros(l) && !IsEmptyBlock(l) && !IsUnavailable(l)
  }

  // ---- Setters; a C# property setter that throws becomes an Err ----

  function WithTargetOffset(l: Locator, v: int): (r: Result<Locator>)
    ensures r.Ok? <==> v <= UInt32Max
    ensures r.Ok? && 0 <= v ==> TargetOffset(r.value) == v && r.value.(targetOffsetUint := l.targetOffsetUint) == l
  {
    var u :- CheckedCastToUint(v, UInt32Max);
    Ok(l.(targetOffsetUint := u))
  }

  function WithSourceOffset(l: Locator, v: int): (r: Result<Locator>)
    ensures r.Ok? <==> v <= UInt32Max
    ensures r.Ok? && 0 <= v ==> SourceOffset(r.value) == v && r.value.(sourceOffsetUint := l.sourceOffsetUint) == l
  {
    var u :- CheckedCastToUint(v, UInt32Max);
    Ok(l.(sourceOffsetUint := u))
  }

  function WithSplitDecodedSourceFrom(l: Locator, v: int): (r: Result<Locator>)
    ensures r.Ok? <==> v <= UInt16Max
    ensures r.Ok? && 0 <= v ==>
      SplitDecodedSourceFrom(r.value) == v && r.value.(splitDecodedSourceFromUshort := l.splitDecodedSourceFromUshort) == l
  {
    var u :- CheckedCastToUshort(v, UInt16Max);
    Ok(l.(splitDecodedSourceFromUshort := u))
  }

  function WithTargetIndex(l: Locator, v: int): (r: Result<Locator>)
    ensures r.Ok? <==> v <= UInt8Max
    ensures r.Ok? && 0 <= v ==> TargetIndex(r.value) == v && r.value.(targetIndexByte := l.targetIndexByte) == l
  {
    var u :- CheckedCastToByte(v, UInt8Max);
    Ok(l.(targetIndexByte := u))
  }

  function WithSourceIndex(l: Locator, v: int): (r: Result<Locator>)
    ensures r.Ok? <==> v <= UInt8Max
    ensures r.Ok? && 0 <= v ==> SourceIndex(r.value) == v && r.value.(sourceIndexByte := l.sourceIndexByte) == l
  {
    var u :- CheckedCastToByte(v, UInt8Max);
    Ok(l.(sourceIndexByte := u))
  }

  /** Setting the deflated flag changes that bit only. */
  function WithIsDeflatedBlockData(l: Locator, b: bool): (r: Locator)
    ensures IsDeflatedBlockData(r) == b
    ensures IsValidCrc32Value(r) == IsValidCrc32Value(l) && TargetSize(r) == TargetSize(l)
    ensures r.(targetSizeAndFlags := l.targetSizeAndFlags) == l
    ensures MaxSourceSize(r) == if b then 16384 else TargetSize(l)
  {
    l.(targetSizeAndFlags := l.targetSizeAndFlags % 0x8000_0000 + (if b then MaskIsDeflatedBlockData else 0))
  }

  /** Setting the CRC-valid flag changes that bit only. */
  function WithIsValidCrc32Value(l: Locator, b: bool): (r: Locator)
    ensures IsValidCrc32Value(r) == b
    ensures IsDeflatedBlockData(r) == IsDeflatedBlockData(l) && TargetSize(r) == TargetSize(l)
    ensures r.(targetSizeAndFlags := l.targetSizeAndFlags) == l
  {
    var f := l.targetSizeAndFlags;
    l.(targetSizeAndFlags := f / 0x8000_0000 * 0x8000_0000 + f % 0x4000_0000 + (if b then MaskIsValidCrc32Value else 0))
  }

  /**
   * The TargetSize setter as written: the flag bits are cleared of the size, ORed with the
   * new value as a `long`, and the whole word goes through the checked cast against the
   * size mask. Once either flag is set the word is above the mask, so the cast throws.
   */
  function WithTargetSizeAsWritten(l: Locator, v: int64): (r: Result<Locator>)
  {
    var high := l.targetSizeAndFlags / 0x4000_0000 * 0x4000_0000;
    var bits := BitOr(high, Int64Bits(v));
    assert bits <= 0xFFFF_FFFF_FFFF_FFFF by { Pow2Value64(); BitOrBelow(high, Int64Bits(v), 64); }
    var combined := Int64FromBits(bits);
    var u :- CheckedCastToUint(combined, MaskTargetSize);
    Ok(l.(targetSizeAndFlags := u))
  }

  /** With no flag set the setter as written stores a size in range and rejects a larger one. */
  lemma TargetSizeAsWrittenWithoutFlags(l: Locator, v: int64)
    requires !IsDeflatedBlockData(l) && !IsValidCrc32Value(l)
    requires 0 <= v
    ensures WithTargetSizeAsWritten(l, v).Ok? <==> v <= MaskTargetSize
    ensures WithTargetSizeAsWritten(l, v).Ok? ==> WithTargetSizeAsWritten(l, v).value == WithTargetSize(l, v).value
  {
    assert l.targetSizeAndFlags / 0x4000_0000 == 0;
  }

  /** The defect: with a flag set, setting any non-negative size throws instead of keeping the flags. */
  lemma {:induction false} TargetSizeAsWrittenRejectsFlaggedParts(l: Locator, v: int64)
    requires IsDeflatedBlockData(l) || IsValidCrc32Value(l)
    requires 0 <= v
    ensures WithTargetSizeAsWritten(l, v) == Err(ValueTooBig)
    ensures WithTargetSize(l, v).Ok? <==> v <= MaskTargetSize
  {
    var high := l.targetSizeAndFlags / 0x4000_0000 * 0x4000_0000;
    assert high >= 0x4000_0000;
    assert Pow2(63) == 0x8000_0000_0000_0000 by { Pow2Value64(); }
    BitOrAtLeast(high, v);
    BitOrBelow(high, v, 63);
  }

  /**
   * The TargetSize setter as evidently intended: a value above the size mask is rejected,
   * and otherwise the low 30 bits are replaced while both flags are kept.
   */
  function WithTargetSize(l: Locator, v: int): (r: Result<Locator>)
    ensures r.Ok? <==> v <= MaskTargetSize
    ensures r.Ok? ==>
      && IsDeflatedBlockData(r.value) == IsDeflatedBlockData(l)
      && IsValidCrc32Value(r.value) == IsValidCrc32Value(l)
      && r.value.(targetSizeAndFlags := l.targetSizeAndFlags) == l
    ensures r.Ok? && 0 <= v ==> TargetSize(r.value) == v
  {
    if v > MaskTargetSize then Err(ValueTooBig)
    else Ok(l.(targetSizeAndFlags := l.targetSizeAndFlags / 0x4000_0000 * 0x4000_0000 + v % 0x4000_0000))
  }

  // ---- Ordering ----

  /** Parts are ordered by target offset alone. */
  function CompareTo(a: Locator, b: Locator): (r: int)
    ensures r in {-1, 0, 1}
    ensures r < 0 <==> TargetOffset(a) < TargetOffset(b)
    ensures r == 0 <==> TargetOffset(a) == TargetOffset(b)
  {
    var x := TargetOffset(a) - TargetOffset(b);
    if x < 0 then -1 else if x > 0 then 1 else 0
  }

  /** CompareTo is a total preorder: transitive, and blind to every field but the target offset. */
  lemma CompareToPreorder(a: Locator, b: Locator, c: Locator)
    ensures CompareTo(a, b) <= 0 && CompareTo(b, c) <= 0 ==> CompareTo(a, c) <= 0
    ensures TargetOffset(b) == TargetOffset(c) ==> CompareTo(a, b) == CompareTo(a, c)
    ensures CompareTo(b, a) == -CompareTo(a, b)
  {
  }

  // ---- Verification of reconstructed bytes ----

  datatype VerifyDataResult = Pass | FailUnverifiable | FailNotEnoughData | FailBadData

  /** Four bytes read little-endian. */
  function Le32(b0: uint8, b1: uint8, b2: uint8, b3: uint8): (r: uint32)
  {
    b0 + 0x100 * b1 + 0x1_0000 * b2 + 0x100_0000 * b3
  }

  /** `BitConverter.ToInt32(buf, i)`: four bytes little-endian as a signed value; it throws outside the array. */
  function ToInt32At(buf: seq<uint8>, i: int): (r: Result<int32>)
    ensures r.Ok? <==> 0 <= i && i + 4 <= |buf|
  {
    if i < 0 || i >= |buf| then Err(ArgumentOutOfRange)
    else if i > |buf| - 4 then Err(ArgumentError)
    else Ok(Int32FromBits(Le32(buf[i], buf[i + 1], buf[i + 2], buf[i + 3])))
  }

  /** `buf.Skip(offset).Take(length)`. */
  function SkipTake(buf: seq<uint8>, offset: int, length: int): (r: seq<uint8>)
    ensures 0 <= offset && length >= 0 && offset + length <= |buf| ==> r == buf[offset..offset + length]
  {
    var from := Min(Max(offset, 0), |buf|);
    buf[from..Min(|buf|, from + Max(length, 0))]
  }

  predicate AllZero(s: seq<uint8>) { forall i :: 0 <= i < |s| ==> s[i] == 0 }

  /** One header field of a placeholder block, compared as C# compares an `int` with a `uint`: as `long` values. */
  function FieldIs(buf: seq<uint8>, i: int, expected: int): Result<bool>
  {
    match ToInt32At(buf, i)
    case Err(e) => Err(e)
    case Ok(v) => Ok(v == expected)
  }

  /** The header fields from the `k`-th on, read in order with `&&`: the first mismatch or failed read decides. */
  function FieldsMatch(buf: seq<uint8>, offset: int, expected: seq<int>, k: nat): Result<bool>
    decreases |expected| - k
  {
    if k >= |expected| then Ok(true)
    else
      match FieldIs(buf, offset + 4 * k, expected[k])
      case Err(e) => Err(e)
      case Ok(b) => if b then FieldsMatch(buf, offset, expected, k + 1) else Ok(false)
  }

  /** The placeholder-entry branch of Verify: the six header fields, then zeros. */
  function VerifyPlaceholder(buf: seq<uint8>, offset: int, length: int, units: uint32): Result<VerifyDataResult>
  {
    match FieldsMatch(buf, offset, [128, 0, 0, units, 0, 0], 0)
    case Err(e) => Err(e)
    case Ok(b) =>
      Ok(if b && AllZero(SkipTake(buf, offset + 24, length - 24)) then Pass else FailBadData)
  }

  /**
   * Verify(byte[], offset, length). The CRC-32 of the range is supplied by `crc32`, since the
   * checksum routine is not part of this model. The placeholder header is checked field by
   * field with `&&`, so a field read that would throw is reached only when the earlier fields matched.
   */
  function Verify(l: Locator, buf: seq<uint8>, offset: int, length: int, crc32: (seq<uint8>, int, int) -> uint32)
    : (r: Result<VerifyDataResult>)
    ensures length != TargetSize(l) ==> r == Ok(FailNotEnoughData)
    ensures r.Ok? && r.value == Pass ==> length == TargetSize(l) && (IsValidCrc32Value(l) || IsAllZeros(l) || IsEmptyBlock(l))
  {
    if length != TargetSize(l) then Ok(FailNotEnoughData)
    else if IsValidCrc32Value(l) then
      Ok(if crc32(buf, offset, length) == l.crc32OrPlaceholderEntryDataUnits then Pass else FailBadData)
    else if IsAllZeros(l) then
      Ok(if AllZero(SkipTake(buf, offset, length)) then Pass else FailBadData)
    else if IsEmptyBlock(l) then VerifyPlaceholder(buf, offset, length, l.crc32OrPlaceholderEntryDataUnits)
    else Ok(FailUnverifiable)
  }

  /** An all-zeros part without a CRC passes exactly when its byte range holds only zeros. */
  lemma VerifyAllZeros(l: Locator, buf: seq<uint8>, offset: nat, crc32: (seq<uint8>, int, int) -> uint32)
    requires IsAllZeros(l) && !IsValidCrc32Value(l)
    requires offset + TargetSize(l) <= |buf|
    ensures Verify(l, buf, offset, TargetSize(l), crc32) ==
      Ok(if forall i :: offset <= i < offset + TargetSize(l) ==> buf[i] == 0 then Pass else FailBadData)
  {
    var s := buf[offset..offset + TargetSize(l)];
    assert forall i :: offset <= i < offset + TargetSize(l) ==> buf[i] == s[i - offset];
  }

  /** The 24-byte header of a placeholder entry: six little-endian 32-bit fields holding 128, 0, 0, the data-unit count, 0 and 0. */
  function PlaceholderHeader(units: uint32): (r: seq<uint8>)
    ensures |r| == 24
  {
    HeaderWithUnitBytes(units % 0x100, units / 0x100 % 0x100, units / 0x1_0000 % 0x100, units / 0x100_0000)
  }

  /** The header with the four bytes of the data-unit count given one by one. */
  function HeaderWithUnitBytes(b0: uint8, b1: uint8, b2: uint8, b3: uint8): (r: seq<uint8>)
    ensures |r| == 24
  {
    [128, 0, 0, 0, 0, 0, 0, 0, 0, 0, 0, 0, b0, b1, b2, b3, 0, 0, 0, 0, 0, 0, 0, 0]
  }

  /** The four bytes of the data-unit count read back as the count. */
  lemma UnitBytes(units: uint32)
    ensures Le32(units % 0x100, units / 0x100 % 0x100, units / 0x1_0000 % 0x100, units / 0x100_0000) == units
  {
    var a := units / 0x100;
    var b := a / 0x100;
    var c := b / 0x100;
    assert units == units % 0x100 + 0x100 * a && a == a % 0x100 + 0x100 * b && b == b % 0x100 + 0x100 * c;
    assert units / 0x1_0000 == b && units / 0x100_0000 == c;
  }


  /** A field of the header, inside a longer buffer, reads back as its four bytes say. */
  lemma FieldFromBytes(h: seq<uint8>, rest: seq<uint8>, i: nat, v: int)
    requires i + 4 <= |h| && 0 <= v <= Int32Max
    requires Le32(h[i], h[i + 1], h[i + 2], h[i + 3]) == v
    ensures FieldIs(h + rest, i, v) == Ok(true)
  {
    var buf := h + rest;
    assert buf[i] == h[i] && buf[i + 1] == h[i + 1] && buf[i + 2] == h[i + 2] && buf[i + 3] == h[i + 3];
  }

  /** A constant field of the header (any but the data-unit count at offset 12) reads back as written. */
  lemma HeaderConstantField(b0: uint8, b1: uint8, b2: uint8, b3: uint8, rest: seq<uint8>, i: nat)
    requires i in {0, 4, 8, 16, 20}
    ensures FieldIs(HeaderWithUnitBytes(b0, b1, b2, b3) + rest, i, if i == 0 then 128 else 0) == Ok(true)
  {
    var h := HeaderWithUnitBytes(b0, b1, b2, b3);
    if i == 0 {
      assert h[0] == 128 && h[1] == 0 && h[2] == 0 && h[3] == 0;
    } else {
      assert h[i] == 0 && h[i + 1] == 0 && h[i + 2] == 0 && h[i + 3] == 0;
    }
    FieldFromBytes(h, rest, i, if i == 0 then 128 else 0);
  }

  /** The unit count of the header reads back as written. */
  lemma HeaderUnitsField(units: uint32, rest: seq<uint8>)
    requires units <= Int32Max
    ensures FieldIs(PlaceholderHeader(units) + rest, 12, units) == Ok(true)
  {
    var b0, b1, b2, b3 := units % 0x100, units / 0x100 % 0x100, units / 0x1_0000 % 0x100, units / 0x100_0000;
    var h := HeaderWithUnitBytes(b0, b1, b2, b3);
    UnitBytes(units);
    assert h[12] == b0 && h[13] == b1 && h[14] == b2 && h[15] == b3;
    FieldFromBytes(h, rest, 12, units);
  }

  /** The header of a placeholder entry, followed by anything, matches all six expected fields. */
  lemma HeaderFieldsMatch(units: uint32, rest: seq<uint8>)
    requires units <= Int32Max
    ensures FieldsMatch(PlaceholderHeader(units) + rest, 0, [128, 0, 0, units, 0, 0], 0) == Ok(true)
  {
    var buf, e := PlaceholderHeader(units) + rest, [128, 0, 0, units, 0, 0];
    var b0, b1, b2, b3 := units % 0x100, units / 0x100 % 0x100, units / 0x1_0000 % 0x100, units / 0x100_0000;
    HeaderConstantField(b0, b1, b2, b3, rest, 0);
    HeaderConstantField(b0, b1, b2, b3, rest, 4);
    HeaderConstantField(b0, b1, b2, b3, rest, 8);
    HeaderConstantField(b0, b1, b2, b3, rest, 16);
    HeaderConstantField(b0, b1, b2, b3, rest, 20);
    HeaderUnitsField(units, rest);
    assert FieldsMatch(buf, 0, e, 6) == Ok(true);
    assert FieldsMatch(buf, 0, e, 5) == Ok(true);
    assert FieldsMatch(buf, 0, e, 4) == Ok(true);
    assert FieldsMatch(buf, 0, e, 3) == Ok(true);
    assert FieldsMatch(buf, 0, e, 2) == Ok(true);
    assert FieldsMatch(buf, 0, e, 1) == Ok(true);
  }

  lemma PlaceholderPasses(units: uint32, n: nat)
    requires units <= Int32Max
    ensures VerifyPlaceholder(PlaceholderHeader(units) + Zeros(n), 0, 24 + n, units) == Ok(Pass)
  {
    var rest := Zeros(n);
    var buf := PlaceholderHeader(units) + rest;
    HeaderFieldsMatch(units, rest);
    assert SkipTake(buf, 24, n) == rest;
  }

  /**
   * A placeholder part without a CRC accepts the placeholder entry it stands for: the header
   * with its data-unit count, then zeros. The unit count is compared as a signed `int`,
   * so this holds for counts below 2^31.
   */
  lemma VerifyAcceptsPlaceholder(l: Locator, crc32: (seq<uint8>, int, int) -> uint32)
    requires IsEmptyBlock(l) && !IsValidCrc32Value(l)
    requires TargetSize(l) >= 24
    requires l.crc32OrPlaceholderEntryDataUnits <= Int32Max
    ensures Verify(l, PlaceholderHeader(l.crc32OrPlaceholderEntryDataUnits) + Zeros(TargetSize(l) - 24), 0, TargetSize(l), crc32) == Ok(Pass)
  {
    PlaceholderPasses(l.crc32OrPlaceholderEntryDataUnits, TargetSize(l) - 24);
  }

  // ---- Clamping a read request to the part ----

  /**
   * FilterBufferSize: -1 asks for as much as fits both the part and the buffer; a larger request
   * is clamped to what is left of the part; a negative explicit request throws. Arithmetic on
   * `buffer.Length - bufferOffset` is 32-bit and the result is cast back to `int`.
   */
  function FilterBufferSize(l: Locator, bufferLength: int32, bufferOffset: int32, bufferSize: int32, relativeOffset: int32)
    : (r: Result<int32>)
    requires bufferLength >= 0
    ensures r.Err? <==> bufferSize != -1 && bufferSize <= TargetSize(l) - relativeOffset && bufferSize < 0
  {
    if bufferSize == -1 then Ok(ToInt32(Max(0, Min(TargetSize(l) - relativeOffset, ToInt32(bufferLength - bufferOffset)))))
    else if bufferSize > TargetSize(l) - relativeOffset then Ok(ToInt32(Max(0, TargetSize(l) - relativeOffset)))
    else if bufferSize < 0 then Err(ArgumentError)
    else Ok(bufferSize)
  }

  /** For offsets inside the part the filtered size is never negative, never runs past the part, and honours an explicit request that fits. */
  lemma FilterBufferSizeBounds(l: Locator, bufferLength: int32, bufferOffset: int32, bufferSize: int32, relativeOffset: int32)
    requires bufferLength >= 0 && relativeOffset >= 0
    ensures var r := FilterBufferSize(l, bufferLength, bufferOffset, bufferSize, relativeOffset);
      && (r.Ok? ==> 0 <= r.value <= Max(0, TargetSize(l) - relativeOffset))
      && (0 <= bufferSize <= TargetSize(l) - relativeOffset ==> r == Ok(bufferSize))
      && (bufferSize == -1 && 0 <= bufferOffset <= bufferLength ==> r.Ok? && r.value <= bufferLength - bufferOffset)
  {
  }
}
