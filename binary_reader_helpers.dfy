/**
 * The big-endian helpers over BinaryReader that the patcher reads its headers with: an exact
 * read that throws at the end of the stream, the in-place byte reversal, the six big-endian
 * integer reads, and the fixed-length ASCII string read. The stream is a byte sequence and the
 * reader a class holding its position; BitConverter is taken on a little-endian machine.
 */
module BinaryReaderHelpers {
  import opened Wrappers
  import opened Ints

  // ---- Byte order ----

  /** The bytes of `s` in reverse order. */
  function Reversed(s: seq<uint8>): seq<uint8>
  {
    seq(|s|, i requires 0 <= i < |s| => s[|s| - 1 - i])
  }

  /** Reversing twice gives the bytes back. */
  lemma ReversedTwice(s: seq<uint8>)
    ensures Reversed(Reversed(s)) == s
  {
  }

  /** Reading the reversed bytes little-endian is reading the bytes big-endian. */
  lemma {:induction false} LittleEndianOfReversed(s: seq<uint8>)
    ensures LittleEndian(Reversed(s)) == BigEndian(s)
    decreases |s|
  {
    if s != [] {
      var front := s[..|s| - 1];
      LittleEndianOfReversed(front);
      assert Reversed(s)[1..] == Reversed(front);
    }
  }

  /** The `n` bytes of `v` in big-endian order, as a big-endian writer puts them. */
  function BigEndianBytes(v: nat, n: nat): (r: seq<uint8>)
    ensures |r| == n
  {
    Reversed(LittleEndianBytes(v, n))
  }

  /** A big-endian read of a value's big-endian bytes gives the value, when it fits. */
  lemma {:induction false} BigEndianRoundTrip(v: nat, n: nat)
    requires v < Pow2(8 * n)
    ensures BigEndian(BigEndianBytes(v, n)) == v
  {
    var le := LittleEndianBytes(v, n);
    LittleEndianOfReversed(Reversed(le));
    ReversedTwice(le);
    LittleEndianRoundTrip(v, n);
  }

  /** A 16-bit pattern read as a `short`. */
  function Int16FromBits(u: uint16): (r: int16)
    ensures u <= 0x7FFF ==> r == u
  {
    if u <= 0x7FFF then u else u - 0x1_0000
  }

  /** The 16-bit two's complement pattern of a `short`. */
  function Int16Bits(v: int16): (r: uint16)
    ensures Int16FromBits(r) == v
  {
    if v >= 0 then v else v + 0x1_0000
  }

  // ---- Array.Reverse ----

  /** Array.Reverse on the whole array; the helper returns the array it was given. */
  method Reverse(b: array<uint8>) returns (r: array<uint8>)
    modifies b
    ensures r == b && b[..] == Reversed(old(b[..]))
  {
    var n := b.Length;
    var i := 0;
    while i < n / 2
      invariant 0 <= i <= n / 2
      invariant forall k :: 0 <= k < i ==> b[k] == old(b[n - 1 - k]) && b[n - 1 - k] == old(b[k])
      invariant forall k :: i <= k < n - i ==> b[k] == old(b[k])
    {
      b[i], b[n - 1 - i] := b[n - 1 - i], b[i];
      i := i + 1;
    }
    r := b;
  }

  // ---- Reading from the stream ----

  /**
   * ReadBytesRequired on a stream holding `data` read from `position`: a negative count is
   * BinaryReader.ReadBytes' ArgumentOutOfRangeException, fewer bytes left than asked for is the
   * helper's EndOfStreamException, and otherwise the next `count` bytes.
   */
  function Required(data: seq<uint8>, position: nat, count: int): (r: Result<seq<uint8>>)
    requires position <= |data|
    ensures r.Ok? <==> 0 <= count <= |data| - position
    ensures r.Err? ==> r.error == (if count < 0 then ArgumentOutOfRange else EndOfStream)
    ensures r.Ok? ==> |r.value| == count && data[position..] == r.value + data[position + count..]
  {
    if count < 0 then Err(ArgumentOutOfRange)
    else if |data| - position < count then Err(EndOfStream)
    else Ok(data[position..position + count])
  }

  /** Reading m bytes and then n more reads the same bytes as reading m + n at once. */
  lemma {:induction false} RequiredInSequence(data: seq<uint8>, position: nat, m: nat, n: nat)
    requires position + m <= |data|
    ensures Required(data, position, m + n).Ok? <==> Required(data, position + m, n).Ok?
    ensures Required(data, position, m + n).Ok? ==>
      Required(data, position, m + n).value == Required(data, position, m).value + Required(data, position + m, n).value
  {
    if position + m + n <= |data| {
      assert data[position..position + m + n] == data[position..position + m] + data[position + m..position + m + n];
    }
  }

  /** Where the reader stands after a ReadBytesRequired of `count` from `position`. */
  function PositionAfter(data: seq<uint8>, position: nat, count: int): (p: nat)
    requires position <= |data|
    ensures position <= p <= |data|
    ensures Required(data, position, count).Ok? ==> p == position + count
  {
    if count < 0 then position
    else if |data| - position < count then |data|
    else position + count
  }

  /** A BinaryReader over a stream holding `data`; `position` is the stream's position. */
  class BinaryReader {
    const data: seq<uint8>
    var position: nat

    ghost predicate Valid()
      reads this
    {
      position <= |data|
    }

    constructor (data: seq<uint8>)
      ensures Valid() && this.data == data && position == 0
    {
      this.data := data;
      position := 0;
    }

    /**
     * ReadBytesRequired: BinaryReader.ReadBytes takes what is left up to `byteCount` and moves
     * the stream on by that much, so a short read leaves the reader at the end of the stream.
     */
    method ReadBytesRequired(byteCount: int) returns (r: Result<seq<uint8>>)
      requires Valid()
      modifies this
      ensures Valid()
      ensures r == Required(data, old(position), byteCount)
      ensures position == PositionAfter(data, old(position), byteCount)
    {
      if byteCount < 0 {
        return Err(ArgumentOutOfRange);
      }
      var available := |data| - position;
      var taken := if byteCount <= available then byteCount else available;
      var result := data[position..position + taken];
      position := position + taken;
      if |result| != byteCount {
        return Err(EndOfStream);
      }
      return Ok(result);
    }

    /**
     * The shared body of the six Read*BE helpers: read exactly `n` bytes, reverse them in a
     * fresh array and decode them as BitConverter does on a little-endian machine.
     */
    method ReadBigEndian(n: nat) returns (r: Result<nat>)
      requires Valid()
      modifies this
      ensures Valid()
      ensures position == PositionAfter(data, old(position), n)
      ensures r.Ok? <==> Required(data, old(position), n).Ok?
      ensures r.Err? ==> r.error == EndOfStream
      ensures r.Ok? ==> r.value == BigEndian(Required(data, old(position), n).value) && r.value < Pow2(8 * n)
    {
      var bytes :- ReadBytesRequired(n);
      var a := new uint8[n](i requires 0 <= i < n => bytes[i]);
      assert a[..] == bytes;
      var reversed := Reverse(a);
      LittleEndianOfReversed(bytes);
      return Ok(LittleEndian(reversed[..]));
    }

    method ReadUInt16BE() returns (r: Result<uint16>)
      requires Valid()
      modifies this
      ensures Valid()
      ensures position == PositionAfter(data, old(position), 2)
      ensures r.Ok? <==> Required(data, old(position), 2).Ok?
      ensures r.Err? ==> r.error == EndOfStream
      ensures r.Ok? ==> r.value == BigEndian(Required(data, old(position), 2).value)
    {
      Pow2Value16();
      var v :- ReadBigEndian(2);
      return Ok(v);
    }

    method ReadInt16BE() returns (r: Result<int16>)
      requires Valid()
      modifies this
      ensures Valid()
      ensures position == PositionAfter(data, old(position), 2)
      ensures r.Ok? <==> Required(data, old(position), 2).Ok?
      ensures r.Err? ==> r.error == EndOfStream
      ensures r.Ok? ==> Int16Bits(r.value) == BigEndian(Required(data, old(position), 2).value)
    {
      Pow2Value16();
      var v :- ReadBigEndian(2);
      return Ok(Int16FromBits(v));
    }

    method ReadUInt32BE() returns (r: Result<uint32>)
      requires Valid()
      modifies this
      ensures Valid()
      ensures position == PositionAfter(data, old(position), 4)
      ensures r.Ok? <==> Required(data, old(position), 4).Ok?
      ensures r.Err? ==> r.error == EndOfStream
      ensures r.Ok? ==> r.value == BigEndian(Required(data, old(position), 4).value)
    {
      Pow2Value64();
      var v :- ReadBigEndian(4);
      return Ok(v);
    }

    method ReadInt32BE() returns (r: Result<int32>)
      requires Valid()
      modifies this
      ensures Valid()
      ensures position == PositionAfter(data, old(position), 4)
      ensures r.Ok? <==> Required(data, old(position), 4).Ok?
      ensures r.Err? ==> r.error == EndOfStream
      ensures r.Ok? ==> Int32Bits(r.value) == BigEndian(Required(data, old(position), 4).value)
    {
      Pow2Value64();
      var v :- ReadBigEndian(4);
      return Ok(Int32FromBits(v));
    }

    method ReadUInt64BE() returns (r: Result<uint64>)
      requires Valid()
      modifies this
      ensures Valid()
      ensures position == PositionAfter(data, old(position), 8)
      ensures r.Ok? <==> Required(data, old(position), 8).Ok?
      ensures r.Err? ==> r.error == EndOfStream
      ensures r.Ok? ==> r.value == BigEndian(Required(data, old(position), 8).value)
    {
      Pow2Value64();
      var v :- ReadBigEndian(8);
      return Ok(v);
    }

    method ReadInt64BE() returns (r: Result<int64>)
      requires Valid()
      modifies this
      ensures Valid()
      ensures position == PositionAfter(data, old(position), 8)
      ensures r.Ok? <==> Required(data, old(position), 8).Ok?
      ensures r.Err? ==> r.error == EndOfStream
      ensures r.Ok? ==> Int64Bits(r.value) == BigEndian(Required(data, old(position), 8).value)
    {
      Pow2Value64();
      var v :- ReadBigEndian(8);
      return Ok(Int64FromBits(v));
    }

    /**
     * ReadFixedLengthString: `length` bytes, with the `(int)` cast of the length, decoded as
     * ASCII and cut of their trailing NUL characters.
     */
    method ReadFixedLengthString(length: uint32) returns (r: Result<string>)
      requires Valid()
      modifies this
      ensures Valid()
      ensures position == PositionAfter(data, old(position), ToInt32(length))
      ensures r == FixedLengthString(data, old(position), length)
    {
      var bytes :- ReadBytesRequired(ToInt32(length));
      return Ok(TrimEndChar(Ascii(bytes), 0 as char));
    }
  }

  // ---- The fixed-length string ----

  /** Encoding.ASCII.GetString: bytes above 0x7F become '?'. */
  function Ascii(bytes: seq<uint8>): (s: string)
    ensures |s| == |bytes|
    ensures forall i :: 0 <= i < |bytes| ==> (s[i] == if bytes[i] < 0x80 then bytes[i] as char else '?')
  {
    seq(|bytes|, i requires 0 <= i < |bytes| => if bytes[i] < 0x80 then bytes[i] as char else '?')
  }

  /** String.TrimEnd(c): the string without the run of `c` it ends with. */
  function TrimEndChar(s: string, c: char): (r: string)
    ensures |r| <= |s| && r == s[..|r|]
    ensures forall i :: |r| <= i < |s| ==> s[i] == c
    ensures r == [] || r[|r| - 1] != c
  {
    if s == [] || s[|s| - 1] != c then s
    else
      var front := s[..|s| - 1];
      var r := TrimEndChar(front, c);
      assert forall i :: 0 <= i < |front| ==> front[i] == s[i];
      assert front[..|r|] == s[..|r|];
      r
  }

  /** What ReadFixedLengthString returns on a stream holding `data` read from `position`. */
  function FixedLengthString(data: seq<uint8>, position: nat, length: uint32): Result<string>
    requires position <= |data|
  {
    var bytes :- Required(data, position, ToInt32(length));
    Ok(TrimEndChar(Ascii(bytes), 0 as char))
  }

  /** A length of 2^31 or more casts to a negative count, which BinaryReader.ReadBytes refuses. */
  lemma {:induction false} HugeLengthRefused(data: seq<uint8>, position: nat, length: uint32)
    requires position <= |data| && length > Int32Max
    ensures FixedLengthString(data, position, length) == Err(ArgumentOutOfRange)
  {
  }

  /** An ASCII name padded with NUL bytes to a fixed length reads back as the name. */
  lemma {:induction false} PaddedNameRoundTrip(name: seq<uint8>, pad: nat, rest: seq<uint8>)
    requires forall i :: 0 <= i < |name| ==> 0 < name[i] < 0x80
    requires |name| + pad <= Int32Max
    ensures FixedLengthString(name + Zeros(pad) + rest, 0, (|name| + pad) as uint32)
      == Ok(seq(|name|, i requires 0 <= i < |name| => name[i] as char))
  {
    var data := name + Zeros(pad) + rest;
    var n := |name| + pad;
    assert data[..n] == name + Zeros(pad);
    var s := Ascii(name + Zeros(pad));
    var r := TrimEndChar(s, 0 as char);
    var expected := seq(|name|, i requires 0 <= i < |name| => name[i] as char);
    assert |r| >= |name| by {
      if |name| > 0 {
        assert s[|name| - 1] != 0 as char;
      }
    }
    assert |r| <= |name| by {
      assert forall i :: |name| <= i < |s| ==> s[i] == 0 as char;
      assert forall i :: 0 <= i < |r| ==> r[i] == s[i];
    }
    assert r == expected;
  }
}
