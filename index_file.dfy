/**
 * The patch index file's header as BinaryWriter writes it and BinaryReader reads it back: the
 * signature, the format version, the expansion number, the patch file names, their last read
 * positions and the number of target files. Integers are little-endian; a string is its
 * length as a 7-bit encoded number followed by its bytes. The stream is a byte sequence.
 */
module IndexFile {
  import opened Wrappers
  import opened Ints

  const FileSignature: uint32 := 0x89AA_3CD1
  const FileVersion: uint32 := 2

  /** A value read from the stream and the bytes after it. */
  datatype Read<T> = Read(value: T, rest: seq<uint8>)

  /** The header fields; the names are kept as their UTF-8 bytes. */
  datatype Header = Header(expacVersion: int32, sourceFiles: seq<seq<uint8>>, sourceFileLastPtr: seq<int64>, targetCount: int32)

  // ---- Fixed-width integers ----

  /** ReadBytes where a short stream is an EndOfStreamException (ReadExactly and the integer reads). */
  function ReadBytes(s: seq<uint8>, n: nat): (r: Result<Read<seq<uint8>>>)
    ensures r.Ok? <==> n <= |s|
    ensures r.Err? ==> r.error == EndOfStream
    ensures r.Ok? ==> |r.value.value| == n && r.value.value + r.value.rest == s
  {
    if n <= |s| then Ok(Read(s[..n], s[n..])) else Err(EndOfStream)
  }

  function ReadUInt32(s: seq<uint8>): (r: Result<Read<uint32>>)
    ensures r.Ok? <==> |s| >= 4
    ensures r.Ok? ==> r.value.rest == s[4..] && LittleEndianBytes(r.value.value, 4) == s[..4]
  {
    var b :- ReadBytes(s, 4);
    Pow2Value64();
    LittleEndianBytesOf(b.value);
    Ok(Read(LittleEndian(b.value), b.rest))
  }

  function ReadInt32(s: seq<uint8>): (r: Result<Read<int32>>)
    ensures r.Ok? <==> |s| >= 4
  {
    var u :- ReadUInt32(s);
    Ok(Read(Int32FromBits(u.value), u.rest))
  }

  function ReadInt64(s: seq<uint8>): (r: Result<Read<int64>>)
    ensures r.Ok? <==> |s| >= 8
  {
    var b :- ReadBytes(s, 8);
    Pow2Value64();
    Ok(Read(Int64FromBits(LittleEndian(b.value)), b.rest))
  }

  function WriteUInt32(v: uint32): seq<uint8> { LittleEndianBytes(v, 4) }

  function WriteInt32(v: int32): seq<uint8> { LittleEndianBytes(Int32Bits(v), 4) }

  function WriteInt64(v: int64): seq<uint8> { LittleEndianBytes(Int64Bits(v), 8) }

  lemma ReadWriteUInt32(v: uint32, rest: seq<uint8>)
    ensures ReadUInt32(WriteUInt32(v) + rest) == Ok(Read(v, rest))
  {
    Pow2Value64();
    LittleEndianRoundTrip(v, 4);
    assert (WriteUInt32(v) + rest)[..4] == WriteUInt32(v);
    assert (WriteUInt32(v) + rest)[4..] == rest;
  }

  lemma ReadWriteInt32(v: int32, rest: seq<uint8>)
    ensures ReadInt32(WriteInt32(v) + rest) == Ok(Read(v, rest))
  {
    ReadWriteUInt32(Int32Bits(v), rest);
  }

  lemma ReadWriteInt64(v: int64, rest: seq<uint8>)
    ensures ReadInt64(WriteInt64(v) + rest) == Ok(Read(v, rest))
  {
    Pow2Value64();
    LittleEndianRoundTrip(Int64Bits(v), 8);
    assert (WriteInt64(v) + rest)[..8] == WriteInt64(v);
    assert (WriteInt64(v) + rest)[8..] == rest;
    assert Int64FromBits(Int64Bits(v)) == v;
  }

  // ---- 7-bit encoded numbers ----

  /** How large the value still to come may be after `k` bytes have been read: 32 bits in all. */
  function Cap(k: nat): (c: nat)
    requires k <= 4
    ensures c >= 16
    decreases 4 - k
  {
    if k == 4 then 16 else 128 * Cap(k + 1)
  }

  lemma CapValues()
    ensures Cap(0) == 0x1_0000_0000 && Cap(3) == 2048 && Cap(4) == 16
  {
  }

  /**
   * Read7BitEncodedInt from the k-th byte on: the low seven bits of each byte, least
   * significant first, while the high bit is set; the fifth byte may hold only four bits.
   */
  function Read7Bit(s: seq<uint8>, k: nat): (r: Result<Read<nat>>)
    requires k <= 4
    ensures r.Ok? ==> r.value.value < Cap(k) && |r.value.rest| < |s| && r.value.rest == s[|s| - |r.value.rest|..]
    ensures r.Err? ==> r.error == EndOfStream || r.error == FormatError
    decreases 4 - k
  {
    if |s| == 0 then Err(EndOfStream)
    else if k == 4 then
      if s[0] > 15 then Err(FormatError) else Ok(Read(s[0], s[1..]))
    else if s[0] < 128 then Ok(Read(s[0], s[1..]))
    else
      var tail :- Read7Bit(s[1..], k + 1);
      assert 128 * tail.value <= 128 * (Cap(k + 1) - 1);
      assert s[1..][|s| - 1 - |tail.rest|..] == s[|s| - |tail.rest|..];
      Ok(Read(s[0] - 128 + 128 * tail.value, tail.rest))
  }

  /** Read7BitEncodedInt: the 32 bits read as an `int`. */
  function Read7BitEncodedInt(s: seq<uint8>): (r: Result<Read<int32>>)
  {
    var u :- Read7Bit(s, 0);
    CapValues();
    Ok(Read(Int32FromBits(u.value), u.rest))
  }

  /** Write7BitEncodedInt: seven bits per byte, the high bit set on every byte but the last. */
  function Write7Bit(v: nat): (r: seq<uint8>)
    ensures |r| >= 1
  {
    if v < 128 then [v] else [v % 128 + 128] + Write7Bit(v / 128)
  }

  lemma {:induction false} Read7BitOfWrite(v: nat, k: nat, rest: seq<uint8>)
    requires k <= 4 && v < Cap(k)
    ensures Read7Bit(Write7Bit(v) + rest, k) == Ok(Read(v, rest))
    decreases 4 - k
  {
    var s := Write7Bit(v) + rest;
    if v >= 128 {
      assert k < 4;
      assert v / 128 < Cap(k + 1);
      assert s[0] == v % 128 + 128 && s[1..] == Write7Bit(v / 128) + rest;
      Read7BitOfWrite(v / 128, k + 1, rest);
      assert s[0] - 128 + 128 * (v / 128) == v;
    } else {
      assert s[1..] == rest;
    }
  }

  /** A non-negative `int` written as a 7-bit encoded number reads back as itself. */
  lemma Read7BitEncodedIntOfWrite(v: nat, rest: seq<uint8>)
    requires v <= Int32Max
    ensures Read7BitEncodedInt(Write7Bit(v) + rest) == Ok(Read(v, rest))
  {
    CapValues();
    Read7BitOfWrite(v, 0, rest);
  }

  /** From byte k on, the reader refuses the input exactly when the fifth byte comes after continuation bytes and is above 15. */
  lemma {:induction false} FormatErrorAt(s: seq<uint8>, k: nat)
    requires k <= 4
    ensures Read7Bit(s, k) == Err(FormatError) <==>
      |s| > 4 - k && (forall i :: 0 <= i < 4 - k ==> s[i] >= 128) && s[4 - k] > 15
    decreases 4 - k
  {
    if |s| > 0 && k < 4 && s[0] >= 128 {
      FormatErrorAt(s[1..], k + 1);
      assert forall i :: 1 <= i < |s| ==> s[i] == s[1..][i - 1];
    }
  }

  /**
   * A 7-bit encoded int is a FormatException exactly when four continuation bytes are followed
   * by a fifth byte above 15, whose bits would not fit 32 bits.
   */
  lemma SixthBitsRejected(s: seq<uint8>)
    ensures Read7BitEncodedInt(s) == Err(FormatError) <==>
      |s| >= 5 && s[0] >= 128 && s[1] >= 128 && s[2] >= 128 && s[3] >= 128 && s[4] > 15
  {
    FormatErrorAt(s, 0);
  }

  /** Example: four 0xFF bytes and 0x0F are the 32 set bits, read as the `int` -1. */
  lemma AllBitsReadMinusOne()
    ensures Read7BitEncodedInt([0xFF, 0xFF, 0xFF, 0xFF, 0x0F]) == Ok(Read(-1, []))
  {
    var b: seq<uint8> := [0xFF, 0xFF, 0xFF, 0xFF, 0x0F];
    assert b[1..][1..][1..][1..] == [0x0F];
    assert b[1..][1..][1..][1..][1..] == [];
  }

  // ---- Strings ----

  /** ReadString: a negative length is an IOException, and a stream shorter than the length an EndOfStreamException. */
  function ReadString(s: seq<uint8>): (r: Result<Read<seq<uint8>>>)
    ensures r.Ok? ==> |r.value.rest| < |s| && r.value.rest == s[|s| - |r.value.rest|..]
  {
    var n :- Read7BitEncodedInt(s);
    if n.value < 0 then Err(IOFailure)
    else ReadBytes(n.rest, n.value)
  }

  /** Write(string): the byte count as a 7-bit encoded number, then the bytes. */
  function WriteString(b: seq<uint8>): seq<uint8>
  {
    Write7Bit(|b|) + b
  }

  lemma ReadWriteString(b: seq<uint8>, rest: seq<uint8>)
    requires |b| <= Int32Max
    ensures ReadString(WriteString(b) + rest) == Ok(Read(b, rest))
  {
    Read7BitEncodedIntOfWrite(|b|, b + rest);
    assert WriteString(b) + rest == Write7Bit(|b|) + (b + rest);
    assert (b + rest)[..|b|] == b && (b + rest)[|b|..] == rest;
  }

  /** A length prefix with the sign bit set is refused: -1 is an IOException. */
  lemma NegativeLengthRejected(rest: seq<uint8>)
    ensures ReadString([0xFF, 0xFF, 0xFF, 0xFF, 0x0F] + rest) == Err(IOFailure)
  {
    var b: seq<uint8> := [0xFF, 0xFF, 0xFF, 0xFF, 0x0F] + rest;
    assert b[1..][1..][1..][1..] == [0x0F] + rest;
    assert b[1..][1..][1..][1..][1..] == rest;
  }

  /** `n` strings, none for a count that is not positive. */
  function ReadStrings(s: seq<uint8>, n: int): (r: Result<Read<seq<seq<uint8>>>>)
    ensures r.Ok? ==> |r.value.value| == Max(n, 0)
    decreases Max(n, 0)
  {
    if n <= 0 then Ok(Read([], s))
    else
      var first :- ReadString(s);
      var more :- ReadStrings(first.rest, n - 1);
      Ok(Read([first.value] + more.value, more.rest))
  }

  function WriteStrings(names: seq<seq<uint8>>): seq<uint8>
  {
    if names == [] then [] else WriteString(names[0]) + WriteStrings(names[1..])
  }

  predicate NamesFit(names: seq<seq<uint8>>)
  {
    forall i :: 0 <= i < |names| ==> |names[i]| <= Int32Max
  }

  lemma {:induction false} ReadWriteStrings(names: seq<seq<uint8>>, rest: seq<uint8>)
    requires NamesFit(names)
    ensures ReadStrings(WriteStrings(names) + rest, |names|) == Ok(Read(names, rest))
  {
    if names != [] {
      var tail := WriteStrings(names[1..]) + rest;
      assert WriteStrings(names) + rest == WriteString(names[0]) + tail;
      ReadWriteString(names[0], tail);
      assert NamesFit(names[1..]) by {
        assert forall i :: 0 <= i < |names| - 1 ==> names[1..][i] == names[i + 1];
      }
      ReadWriteStrings(names[1..], rest);
      assert [names[0]] + names[1..] == names;
    } else {
      assert WriteStrings(names) + rest == rest;
    }
  }

  function ReadInt64s(s: seq<uint8>, n: nat): (r: Result<Read<seq<int64>>>)
    ensures r.Ok? ==> |r.value.value| == n
  {
    if n == 0 then Ok(Read([], s))
    else
      var first :- ReadInt64(s);
      var more :- ReadInt64s(first.rest, n - 1);
      Ok(Read([first.value] + more.value, more.rest))
  }

  function WriteInt64s(vs: seq<int64>): seq<uint8>
  {
    if vs == [] then [] else WriteInt64(vs[0]) + WriteInt64s(vs[1..])
  }

  lemma {:induction false} ReadWriteInt64s(vs: seq<int64>, rest: seq<uint8>)
    ensures ReadInt64s(WriteInt64s(vs) + rest, |vs|) == Ok(Read(vs, rest))
  {
    if vs != [] {
      var tail := WriteInt64s(vs[1..]) + rest;
      assert WriteInt64s(vs) + rest == WriteInt64(vs[0]) + tail;
      ReadWriteInt64(vs[0], tail);
      ReadWriteInt64s(vs[1..], rest);
      assert [vs[0]] + vs[1..] == vs;
    } else {
      assert WriteInt64s(vs) + rest == rest;
    }
  }

  // ---- The header ----

  /** What the index's lists always satisfy: one pointer per patch file, and counts that fit an `int`. */
  predicate WellFormed(h: Header)
  {
    |h.sourceFiles| <= Int32Max && |h.sourceFileLastPtr| == |h.sourceFiles| && NamesFit(h.sourceFiles)
  }

  /** WriteTo, up to the target files, whose records follow. */
  function WriteHeader(h: Header): seq<uint8>
    requires |h.sourceFiles| <= Int32Max
  {
    WriteUInt32(FileSignature) + (WriteUInt32(FileVersion) + (WriteInt32(h.expacVersion) + (WriteInt32(|h.sourceFiles|)
      + (WriteStrings(h.sourceFiles) + (WriteInt64s(h.sourceFileLastPtr) + WriteInt32(h.targetCount))))))
  }

  /** The reading constructor, up to the target files: a wrong signature or version is an InvalidDataException. */
  function ReadHeader(s: seq<uint8>): (r: Result<Read<Header>>)
    ensures r.Ok? ==> |s| >= 8 && s[..4] == WriteUInt32(FileSignature) && s[4..8] == WriteUInt32(FileVersion)
    ensures r.Ok? ==> |r.value.value.sourceFileLastPtr| == |r.value.value.sourceFiles|
  {
    var sig :- ReadUInt32(s);
    if sig.value != FileSignature then Err(InvalidData)
    else
      var ver :- ReadUInt32(sig.rest);
      if ver.value != FileVersion then Err(InvalidData)
      else
        var expac :- ReadInt32(ver.rest);
        var count :- ReadInt32(expac.rest);
        var names :- ReadStrings(count.rest, count.value);
        var ptrs :- ReadInt64s(names.rest, |names.value|);
        var targets :- ReadInt32(ptrs.rest);
        assert s[4..][..4] == s[4..8];
        Ok(Read(Header(expac.value, names.value, ptrs.value, targets.value), targets.rest))
  }

  /** A stream that does not start with the signature is not an index file. */
  lemma WrongSignatureRejected(s: seq<uint8>)
    requires |s| >= 4 && s[..4] != WriteUInt32(FileSignature)
    ensures ReadHeader(s) == Err(InvalidData)
  {
    var sig := ReadUInt32(s).value;
    assert sig.value != FileSignature;
  }

  /** A stream with the signature and another format version is refused as well. */
  lemma WrongVersionRejected(s: seq<uint8>)
    requires |s| >= 8 && s[..4] == WriteUInt32(FileSignature) && s[4..8] != WriteUInt32(FileVersion)
    ensures ReadHeader(s) == Err(InvalidData)
  {
    ReadWriteUInt32(FileSignature, s[4..]);
    assert s == WriteUInt32(FileSignature) + s[4..];
    var ver := ReadUInt32(s[4..]).value;
    assert s[4..][..4] == s[4..8];
    assert ver.value != FileVersion;
  }

  /** Writing a header and reading it back gives the same header, with the stream positioned at the first target file. */
  lemma HeaderRoundTrip(h: Header, rest: seq<uint8>)
    requires WellFormed(h)
    ensures ReadHeader(WriteHeader(h) + rest) == Ok(Read(h, rest))
  {
    var t6 := WriteInt32(h.targetCount) + rest;
    var t5 := WriteInt64s(h.sourceFileLastPtr) + t6;
    var t4 := WriteStrings(h.sourceFiles) + t5;
    var t3 := WriteInt32(|h.sourceFiles|) + t4;
    var t2 := WriteInt32(h.expacVersion) + t3;
    var t1 := WriteUInt32(FileVersion) + t2;
    assert WriteHeader(h) + rest == WriteUInt32(FileSignature) + t1;
    ReadWriteUInt32(FileSignature, t1);
    ReadWriteUInt32(FileVersion, t2);
    ReadWriteInt32(h.expacVersion, t3);
    ReadWriteInt32(|h.sourceFiles|, t4);
    ReadWriteStrings(h.sourceFiles, t5);
    ReadWriteInt64s(h.sourceFileLastPtr, t6);
    ReadWriteInt32(h.targetCount, rest);
  }
}
