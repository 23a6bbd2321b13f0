/**
 * The encrypted Steam session ticket the launcher sends at login. The ticket bytes become
 * lowercase hex text with a closing NUL; a byte sum, the text and 0 to 7 garbage bytes fill
 * whole 8-byte blocks; a running sum over the garbage overwrites the first four bytes; the
 * first two bytes are swapped; and the sealed result is cut into pieces of at most 300
 * characters joined by commas. Steam, the C runtime's random generator and the sealing
 * (Blowfish in ECB mode, then the game's base64 variant) are parameters.
 */
module SteamTicket {
  import opened Wrappers
  import opened Ints
  import opened Strings
  import Arguments

  /** The ticket's text and the length sent beside it. */
  datatype Ticket = Ticket(text: string, length: int)

  /** The 64 characters a garbage byte is drawn from. */
  const GarbageAlphabet: string :=
    "0123456789" + "ABCDEFGHIJKLMNOPQRSTUVWXYZ" + "abcdefghijklmnopqrstuvwxyz" + "-_"

  /** What follows the eight hex digits of the time in the Blowfish key. */
  const KeySuffix: string := "#un@e=x>"

  /** The largest piece the encrypted text is cut into. */
  const SplitSize: nat := 300

  // ---- The time in the key ----

  /** `60 * ((t - 5) / 60)` in uint arithmetic: five seconds back, rounded down to a minute. */
  function KeyTime(realTime: uint32): (time: uint32)
    ensures var back := (realTime as int - 5) % 0x1_0000_0000;
      time % 60 == 0 && time <= back < time + 60
    ensures realTime >= 5 ==> time <= realTime - 5
  {
    var back := (realTime as int - 5) % 0x1_0000_0000;
    60 * (back / 60)
  }

  // ---- The ticket text ----

  const UpperDigits: string := "0123456789ABCDEF"

  /** The two uppercase hex digits BitConverter writes for a byte. */
  function UpperHexPair(b: uint8): string
  {
    [UpperDigits[b / 16], UpperDigits[b % 16]]
  }

  /** A hex digit's character, from its code: the decimal digits, then `letter` onwards. */
  function DigitFrom(d: nat, letter: char): char
    requires d < 16 && letter as int <= 0x7A
  {
    if d < 10 then ('0' as int + d) as char else (letter as int + d - 10) as char
  }

  /** The two digit tables, character by character. */
  lemma DigitTables()
    ensures forall d :: 0 <= d < 16 ==> UpperDigits[d] == DigitFrom(d, 'A')
    ensures forall d :: 0 <= d < 16 ==> "0123456789abcdef"[d] == DigitFrom(d, 'a')
  {
    assert UpperDigits == seq(16, d requires 0 <= d < 16 => DigitFrom(d, 'A'));
    assert "0123456789abcdef" == seq(16, d requires 0 <= d < 16 => DigitFrom(d, 'a'));
  }

  /** BitConverter.ToString: each byte's two digits, separated by dashes. */
  function BitConverterText(bytes: seq<uint8>): string
  {
    if |bytes| == 0 then ""
    else if |bytes| == 1 then UpperHexPair(bytes[0])
    else UpperHexPair(bytes[0]) + "-" + BitConverterText(bytes[1..])
  }

  /** Replace("-", ""). */
  function WithoutDashes(s: string): string
  {
    if |s| == 0 then "" else (if s[0] == '-' then "" else [s[0]]) + WithoutDashes(s[1..])
  }

  function LowerAscii(c: char): char
  {
    if 'A' <= c <= 'Z' then (c as int + 32) as char else c
  }

  /** ToLower, on the ASCII letters the hex text holds. */
  function ToLower(s: string): (t: string)
    ensures |t| == |s|
  {
    seq(|s|, i requires 0 <= i < |s| => LowerAscii(s[i]))
  }

  /** The ticket bytes as the source turns them into text. */
  function TicketString(bytes: seq<uint8>): string
  {
    ToLower(WithoutDashes(BitConverterText(bytes)))
  }

  /** Each byte as two lowercase hex digits, with nothing between them. */
  function LowerHex(bytes: seq<uint8>): (s: string)
    ensures |s| == 2 * |bytes|
  {
    if |bytes| == 0 then "" else Arguments.Hex(bytes[0], 2) + LowerHex(bytes[1..])
  }

  lemma {:induction false} WithoutDashesAppend(a: string, b: string)
    ensures WithoutDashes(a + b) == WithoutDashes(a) + WithoutDashes(b)
    decreases |a|
  {
    if |a| > 0 {
      var piece := if a[0] == '-' then "" else [a[0]];
      assert (a + b)[0] == a[0] && (a + b)[1..] == a[1..] + b;
      assert WithoutDashes(a + b) == piece + WithoutDashes(a[1..] + b);
      assert WithoutDashes(a) == piece + WithoutDashes(a[1..]);
      WithoutDashesAppend(a[1..], b);
    } else {
      assert a + b == b;
    }
  }

  lemma {:induction false} ToLowerAppend(a: string, b: string)
    ensures ToLower(a + b) == ToLower(a) + ToLower(b)
  {
  }

  /** Lowercasing a byte's uppercase digits gives its `{b:x2}` text. */
  lemma PairIsHex(b: uint8)
    ensures WithoutDashes(UpperHexPair(b)) == UpperHexPair(b)
    ensures ToLower(UpperHexPair(b)) == Arguments.Hex(b, 2)
  {
    var p := UpperHexPair(b);
    DigitTables();
    assert p[1..][1..] == "";
    assert WithoutDashes(p[1..]) == [p[1]] + WithoutDashes(p[1..][1..]);
    assert b / 16 % 16 == b / 16 && b / 16 / 16 == 0;
    assert Arguments.Hex(b, 2) == Arguments.Hex(b / 16, 1) + [Arguments.HexDigit(b % 16)];
    assert Arguments.Hex(b / 16, 1) == [Arguments.HexDigit(b / 16)];
  }

  /** The dashed uppercase text, without its dashes and lowercased, is the plain lowercase hex of the bytes. */
  lemma {:induction false} TicketStringIsLowerHex(bytes: seq<uint8>)
    ensures TicketString(bytes) == LowerHex(bytes)
    decreases |bytes|
  {
    if |bytes| == 1 {
      PairIsHex(bytes[0]);
      assert LowerHex(bytes) == Arguments.Hex(bytes[0], 2) + LowerHex([]);
    } else if |bytes| > 1 {
      var p := UpperHexPair(bytes[0]);
      var rest := BitConverterText(bytes[1..]);
      WithoutDashesAppend(p + "-", rest);
      WithoutDashesAppend(p, "-");
      PairIsHex(bytes[0]);
      assert WithoutDashes("-") == "" by { assert "-"[1..] == ""; }
      ToLowerAppend(p, WithoutDashes(rest));
      TicketStringIsLowerHex(bytes[1..]);
    }
  }

  /** Every byte is its two digits at twice its index. */
  lemma {:induction false} LowerHexAt(bytes: seq<uint8>, i: nat)
    requires i < |bytes|
    ensures LowerHex(bytes)[2 * i..2 * i + 2] == Arguments.Hex(bytes[i], 2)
    decreases i
  {
    var s := LowerHex(bytes);
    var rest := LowerHex(bytes[1..]);
    assert s == Arguments.Hex(bytes[0], 2) + rest;
    if i > 0 {
      LowerHexAt(bytes[1..], i - 1);
      assert s[2 * i..2 * i + 2] == rest[2 * (i - 1)..2 * (i - 1) + 2];
    }
  }

  /** The two digits at twice a byte's index read back as the byte. */
  lemma {:induction false} LowerHexReadsBack(bytes: seq<uint8>, i: nat)
    requires i < |bytes|
    ensures Arguments.HexValue(LowerHex(bytes)[2 * i..2 * i + 2]) == bytes[i]
  {
    LowerHexAt(bytes, i);
    Pow2Value16();
    Pow2Square(4, 16);
    Arguments.HexRoundTrip(bytes[i], 2);
  }

  /** Encoding.ASCII.GetBytes: a character's code, or '?' for a character past 0x7F. */
  function AsciiEncode(s: string): (b: seq<uint8>)
    ensures |b| == |s|
  {
    seq(|s|, i requires 0 <= i < |s| => if s[i] as int < 128 then s[i] as int else '?' as int)
  }

  /** The hex text's ASCII codes with a closing NUL. */
  function RawTicket(bytes: seq<uint8>): (raw: seq<uint8>)
    ensures |raw| == 2 * |bytes| + 1
  {
    TicketStringIsLowerHex(bytes);
    AsciiEncode(TicketString(bytes)) + [0]
  }

  // ---- The byte sum ----

  function ByteSum(s: seq<uint8>): nat
  {
    if s == [] then 0 else ByteSum(s[..|s| - 1]) + s[|s| - 1]
  }

  lemma {:induction false} ByteSumCons(b: uint8, s: seq<uint8>)
    ensures ByteSum([b] + s) == b + ByteSum(s)
    decreases |s|
  {
    if s != [] {
      assert ([b] + s)[..|s|] == [b] + s[..|s| - 1];
      ByteSumCons(b, s[..|s| - 1]);
    }
  }

  /** The ushort sum of the raw ticket's bytes, wrapping at 2^16. */
  method TicketSumOf(raw: seq<uint8>) returns (sum: uint16)
    ensures sum == ByteSum(raw) % 0x1_0000
  {
    sum := 0;
    for i := 0 to |raw|
      invariant sum == ByteSum(raw[..i]) % 0x1_0000
    {
      assert raw[..i + 1][..i] == raw[..i];
      sum := (sum + raw[i]) % 0x1_0000;
    }
    assert raw[..|raw|] == raw;
  }

  // ---- The garbage ----

  /** The number of garbage bytes: `((n + 9) & ~7) - 2 - n` as a ulong; the sum and `n` bytes then fill whole blocks of 8. */
  function PaddingLength(n: nat): (r: nat)
    ensures r < 8 && (2 + n + r) % 8 == 0
  {
    (n + 9) - (n + 9) % 8 - 2 - n
  }

  /** The seed `(uint)(time ^ (short)ticketSum)`: the time XOR the sum sign-extended, in 32 bits. */
  function Seed(time: uint32, ticketSum: uint16): uint32
  {
    var extended: uint32 := if ticketSum < 0x8000 then ticketSum else ticketSum + 0xFFFF_0000;
    Pow2Value64();
    BitXorBelow(time, extended, 32);
    BitXor(time, extended)
  }

  /** The values `count` calls of Next return on a generator seeded with `seed`. */
  function Randoms(crtRand: (uint32, nat) -> int, seed: uint32, count: nat): (rs: seq<int>)
    ensures |rs| == count
  {
    seq(count, k requires 0 <= k < count => crtRand(seed, k))
  }

  /** The alphabet's character at `k`: the digits, the uppercase letters, the lowercase letters, '-' and '_'. */
  function AlphabetChar(k: nat): (c: char)
    requires k < 64
    ensures c as int < 128
  {
    if k < 10 then ('0' as int + k) as char
    else if k < 36 then ('A' as int + k - 10) as char
    else if k < 62 then ('a' as int + k - 36) as char
    else if k == 62 then '-' else '_'
  }

  /** Every alphabet character is ASCII, so the `(byte)` cast keeps it. */
  lemma AlphabetAscii()
    ensures |GarbageAlphabet| == 64
    ensures forall k :: 0 <= k < 64 ==> GarbageAlphabet[k] == AlphabetChar(k)
  {
    assert "0123456789" == seq(10, k requires 0 <= k < 10 => AlphabetChar(k));
    assert "ABCDEFGHIJKLMNOPQRSTUVWXYZ" == seq(26, k requires 0 <= k < 26 => AlphabetChar(k + 10));
    assert "abcdefghijklmnopqrstuvwxyz" == seq(26, k requires 0 <= k < 26 => AlphabetChar(k + 36));
  }

  /**
   * The character picked by a running sum and a random value: the low six bits of their sum
   * index the alphabet (AlphabetAscii ties AlphabetChar to the alphabet's text).
   */
  function GarbageChar(sum: uint32, random: int): (c: char)
    ensures c as int < 128
  {
    AlphabetChar((sum + random) % 64)
  }

  /**
   * The garbage bytes and the final running sum: each character is picked from the sum and
   * the next random value, stored as a byte, and added to the sum, which wraps at 2^32.
   */
  function GarbageFrom(sum: uint32, randoms: seq<int>): (res: (seq<uint8>, uint32))
    ensures |res.0| == |randoms|
    decreases |randoms|
  {
    if |randoms| == 0 then ([], sum)
    else
      var c := GarbageChar(sum, randoms[0]);
      var rest := GarbageFrom((sum + c as int) % 0x1_0000_0000, randoms[1..]);
      ([c as int] + rest.0, rest.1)
  }

  /** A garbage byte is the code of an alphabet character (AlphabetAscii: the character at some index `k`). */
  predicate InAlphabet(b: uint8)
  {
    exists k :: 0 <= k < 64 && b == AlphabetChar(k) as int
  }

  predicate AllInAlphabet(g: seq<uint8>)
  {
    forall i :: 0 <= i < |g| ==> InAlphabet(g[i])
  }

  /** Every garbage byte is an alphabet character. */
  lemma {:induction false} GarbageInAlphabet(sum: uint32, randoms: seq<int>)
    ensures AllInAlphabet(GarbageFrom(sum, randoms).0)
    decreases |randoms|
  {
    if |randoms| > 0 {
      var c := GarbageChar(sum, randoms[0]);
      assert InAlphabet(c as int) by {
        assert c == AlphabetChar((sum + randoms[0]) % 64);
      }
      var next := (sum + c as int) % 0x1_0000_0000;
      GarbageInAlphabet(next, randoms[1..]);
      var rest := GarbageFrom(next, randoms[1..]).0;
      var g := GarbageFrom(sum, randoms).0;
      assert g == [c as int] + rest;
      forall i | 0 <= i < |g|
        ensures InAlphabet(g[i])
      {
        if i == 0 {
          assert g[0] == c as int;
        } else {
          assert g[i] == rest[i - 1];
        }
      }
    }
  }

  /** Reducing the left operand first does not change a sum's remainder. */
  lemma {:induction false} ModAddLeft(x: nat, y: nat, m: nat)
    requires m > 0
    ensures (x % m + y) % m == (x + y) % m
  {
    var q := (x % m + y) / m;
    var r := (x % m + y) % m;
    assert x + y == m * (x / m + q) + r;
    DivModUnique(x + y, m, x / m + q, r);
  }

  /** The final sum is the start plus the garbage's bytes, wrapped at 2^32. */
  lemma {:induction false} GarbageSum(sum: uint32, randoms: seq<int>)
    ensures var res := GarbageFrom(sum, randoms); res.1 == (sum + ByteSum(res.0)) % 0x1_0000_0000
    decreases |randoms|
  {
    if |randoms| > 0 {
      var c := GarbageChar(sum, randoms[0]);
      var next := (sum + c as int) % 0x1_0000_0000;
      GarbageSum(next, randoms[1..]);
      var rest := GarbageFrom(next, randoms[1..]);
      ByteSumCons(c as int, rest.0);
      assert GarbageFrom(sum, randoms).0 == [c as int] + rest.0;
      ModAddLeft(sum + c as int, ByteSum(rest.0), 0x1_0000_0000);
    }
  }

  /** One step of the garbage loop: the byte picked at `i` is appended, and the rest comes from the updated sum. */
  lemma {:induction false} GarbageStep(done: seq<uint8>, sum: uint32, randoms: seq<int>, i: nat, target: seq<uint8>)
    requires i < |randoms| && done + GarbageFrom(sum, randoms[i..]).0 == target
    ensures var c := GarbageChar(sum, randoms[i]);
      var next := (sum + c as int) % 0x1_0000_0000;
      && (done + [c as int]) + GarbageFrom(next, randoms[i + 1..]).0 == target
      && GarbageFrom(sum, randoms[i..]).1 == GarbageFrom(next, randoms[i + 1..]).1
  {
    assert randoms[i..][1..] == randoms[i + 1..];
  }

  /** The garbage loop, into a fresh byte array. */
  method FillGarbage(start: uint32, randoms: seq<int>) returns (garbage: seq<uint8>, sum: uint32)
    ensures garbage == GarbageFrom(start, randoms).0 && sum == GarbageFrom(start, randoms).1
  {
    var buffer := new uint8[|randoms|];
    sum := start;
    ghost var target := GarbageFrom(start, randoms);
    var i := 0;
    while i < |randoms|
      invariant 0 <= i <= |randoms|
      invariant buffer[..i] + GarbageFrom(sum, randoms[i..]).0 == target.0
      invariant GarbageFrom(sum, randoms[i..]).1 == target.1
    {
      ghost var done := buffer[..i];
      GarbageStep(done, sum, randoms, i, target.0);
      var c := GarbageChar(sum, randoms[i]);
      buffer[i] := c as int;
      assert buffer[..i + 1] == done + [c as int];
      sum := (sum + c as int) % 0x1_0000_0000;
      ghost var rest := GarbageFrom(sum, randoms[i + 1..]);
      assert buffer[..i + 1] + rest.0 == target.0 && rest.1 == target.1;
      i := i + 1;
    }
    assert randoms[i..] == [];
    garbage := buffer[..];
    assert buffer[..i] == garbage;
  }

  // ---- The sealed bytes ----

  /** The first two bytes exchanged. */
  function SwapFirstTwo(s: seq<uint8>): (t: seq<uint8>)
    requires |s| >= 2
    ensures |t| == |s| && t[0] == s[1] && t[1] == s[0] && t[2..] == s[2..]
  {
    [s[1], s[0]] + s[2..]
  }

  /** The key's bytes: the time as eight lowercase hex digits, then the fixed suffix. */
  function KeyBytes(time: uint32): (b: seq<uint8>)
    ensures |b| == 16
  {
    AsciiEncode(Arguments.Hex(time, 8) + KeySuffix)
  }

  /** The sum and the raw ticket, as written to the stream before the garbage. */
  function Head(raw: seq<uint8>): (head: seq<uint8>)
    ensures |head| == 2 + |raw|
  {
    LittleEndianBytes(ByteSum(raw) % 0x1_0000, 2) + raw
  }

  /** The bytes that are sealed: the final garbage sum over the first four, then the swap. */
  function SealedBytes(head: seq<uint8>, garbage: seq<uint8>, garbageSum: uint32): (s: seq<uint8>)
    requires |head| >= 4
    ensures |s| == |head| + |garbage|
  {
    SwapFirstTwo(LittleEndianBytes(garbageSum, 4) + (head + garbage)[4..])
  }

  // ---- The split ----

  /** ChunksUpto: consecutive pieces of at most `maxChunkSize` characters. */
  function ChunksUpto(str: string, maxChunkSize: nat): (parts: seq<string>)
    requires maxChunkSize > 0
    ensures forall i :: 0 <= i < |parts| ==> 0 < |parts[i]| <= maxChunkSize
    ensures |str| > 0 <==> |parts| > 0
    decreases |str|
  {
    if |str| == 0 then []
    else
      var n := Min(maxChunkSize, |str|);
      [str[..n]] + ChunksUpto(str[n..], maxChunkSize)
  }

  function Concat(parts: seq<string>): string
  {
    if parts == [] then "" else parts[0] + Concat(parts[1..])
  }

  /** The pieces concatenate back to the text. */
  lemma {:induction false} ChunksConcat(str: string, maxChunkSize: nat)
    requires maxChunkSize > 0
    ensures Concat(ChunksUpto(str, maxChunkSize)) == str
    decreases |str|
  {
    if |str| > 0 {
      var n := Min(maxChunkSize, |str|);
      ChunksConcat(str[n..], maxChunkSize);
      var parts := ChunksUpto(str, maxChunkSize);
      assert parts[0] == str[..n] && parts[1..] == ChunksUpto(str[n..], maxChunkSize);
      assert str == str[..n] + str[n..];
    }
  }

  /** Every piece but the last has `size` characters. */
  predicate FullButLast(parts: seq<string>, size: nat)
  {
    forall i :: 0 <= i < |parts| - 1 ==> |parts[i]| == size
  }

  /** All pieces but the last are full. */
  lemma {:induction false} ChunksFull(str: string, maxChunkSize: nat)
    requires maxChunkSize > 0
    ensures FullButLast(ChunksUpto(str, maxChunkSize), maxChunkSize)
    decreases |str|
  {
    if |str| > 0 {
      var n := Min(maxChunkSize, |str|);
      ChunksFull(str[n..], maxChunkSize);
      var parts := ChunksUpto(str, maxChunkSize);
      var rest := ChunksUpto(str[n..], maxChunkSize);
      assert parts == [str[..n]] + rest;
      if n < |str| {
        assert |parts[0]| == n == maxChunkSize;
        assert forall i :: 1 <= i < |parts| - 1 ==> parts[i] == rest[i - 1];
      }
    }
  }

  /** There are ceil(|str| / maxChunkSize) pieces. */
  lemma {:induction false} ChunksCount(str: string, maxChunkSize: nat)
    requires maxChunkSize > 0
    ensures |ChunksUpto(str, maxChunkSize)| == (|str| + maxChunkSize - 1) / maxChunkSize
    decreases |str|
  {
    if |str| > 0 {
      var n := Min(maxChunkSize, |str|);
      ChunksCount(str[n..], maxChunkSize);
      var rest := ChunksUpto(str[n..], maxChunkSize);
      assert |ChunksUpto(str, maxChunkSize)| == 1 + |rest|;
      if n == |str| {
        DivModUnique(|str| + maxChunkSize - 1, maxChunkSize, 1, |str| - 1);
      } else {
        var x := |str| - 1;
        DivModUnique(x + maxChunkSize, maxChunkSize, x / maxChunkSize + 1, x % maxChunkSize);
      }
    }
  }

  /** No piece holds a character the text does not. */
  lemma {:induction false} ChunksWithout(str: string, maxChunkSize: nat, c: char)
    requires maxChunkSize > 0 && c !in str
    ensures forall i :: 0 <= i < |ChunksUpto(str, maxChunkSize)| ==> c !in ChunksUpto(str, maxChunkSize)[i]
    decreases |str|
  {
    if |str| > 0 {
      var n := Min(maxChunkSize, |str|);
      ChunksWithout(str[n..], maxChunkSize, c);
      var parts := ChunksUpto(str, maxChunkSize);
      assert parts[1..] == ChunksUpto(str[n..], maxChunkSize);
    }
  }

  /** The pieces joined by commas, and their length without the commas. */
  function Assemble(parts: seq<string>): Ticket
  {
    var text := Join(parts, ',');
    Ticket(text, |text| - (|parts| - 1))
  }

  /** Joining puts one separator between each two pieces, and no other character than theirs. */
  lemma {:induction false} JoinCounts(parts: seq<string>, sep: char)
    requires |parts| >= 1
    ensures |Join(parts, sep)| == |Concat(parts)| + |parts| - 1
    ensures (forall i :: 0 <= i < |parts| ==> sep !in parts[i]) ==> Arguments.CountOf(Join(parts, sep), sep) == |parts| - 1
    decreases |parts|
  {
    if |parts| == 1 {
      assert Concat(parts) == parts[0] + Concat([]);
      if sep !in parts[0] {
        NoneCounted(parts[0], sep);
      }
    } else {
      JoinCounts(parts[1..], sep);
      if forall i :: 0 <= i < |parts| ==> sep !in parts[i] {
        assert forall i :: 0 <= i < |parts[1..]| ==> sep !in parts[1..][i] by {
          forall i | 0 <= i < |parts[1..]|
            ensures sep !in parts[1..][i]
          {
            assert parts[1..][i] == parts[i + 1];
          }
        }
        NoneCounted(parts[0], sep);
        CountAppend(parts[0], [sep], sep);
        CountAppend(parts[0] + [sep], Join(parts[1..], sep), sep);
        assert Arguments.CountOf([sep], sep) == 1 by { assert [sep][1..] == []; }
      }
    }
  }

  lemma {:induction false} NoneCounted(s: string, c: char)
    requires c !in s
    ensures Arguments.CountOf(s, c) == 0
    decreases |s|
  {
    if s != [] {
      NoneCounted(s[1..], c);
    }
  }

  lemma {:induction false} CountAppend(a: string, b: string, c: char)
    ensures Arguments.CountOf(a + b, c) == Arguments.CountOf(a, c) + Arguments.CountOf(b, c)
    decreases |a|
  {
    if a != [] {
      assert (a + b)[0] == a[0] && (a + b)[1..] == a[1..] + b;
      assert Arguments.CountOf(a + b, c) == (if a[0] == c then 1 else 0) + Arguments.CountOf(a[1..] + b, c);
      CountAppend(a[1..], b, c);
    } else {
      assert a + b == b;
    }
  }

  /**
   * A non-empty sealed text gives a ticket whose length is that of the sealed text, the text's
   * length less its commas when the sealed text has none, and whose comma-separated pieces are
   * the chunks.
   */
  lemma {:induction false} TicketLength(enc: string)
    requires |enc| > 0
    ensures var parts := ChunksUpto(enc, SplitSize); var t := Assemble(parts);
      && t.length == |enc|
      && (',' !in enc ==> t.length == |t.text| - Arguments.CountOf(t.text, ',') && Split(t.text, ',') == parts)
  {
    var parts := ChunksUpto(enc, SplitSize);
    ChunksConcat(enc, SplitSize);
    JoinCounts(parts, ',');
    if ',' !in enc {
      ChunksWithout(enc, SplitSize, ',');
      JoinSplit(parts, ',');
    }
  }

  // ---- Get ----

  /**
   * Get as a function of Steam's answers, the random generator and the sealing: no ticket
   * gives none, an empty ticket makes BitConverter.ToUInt32 throw on a 3-byte stream, and any
   * other ticket gives the assembled pieces of the sealed bytes.
   */
  function TicketOf(ticketBytes: Option<seq<uint8>>, realTime: uint32, crtRand: (uint32, nat) -> int,
                    seal: (seq<uint8>, seq<uint8>) -> string): Result<Option<Ticket>>
  {
    if ticketBytes.None? then Ok(None)
    else
      var raw := RawTicket(ticketBytes.value);
      var head := Head(raw);
      if |head| < 4 then Err(ArgumentError)
      else
        var time := KeyTime(realTime);
        var randoms := Randoms(crtRand, Seed(time, ByteSum(raw) % 0x1_0000), PaddingLength(|raw|));
        Pow2Value64();
        var garbage := GarbageFrom(LittleEndian(head[..4]), randoms);
        var enc := seal(KeyBytes(time), SealedBytes(head, garbage.0, garbage.1));
        Ok(Some(Assemble(ChunksUpto(enc, SplitSize))))
  }

  /** The stream's bytes with the garbage sum written over the first four, then the first two swapped, in place. */
  method SealedArray(head: seq<uint8>, garbage: seq<uint8>, garbageSum: uint32) returns (sealed: seq<uint8>)
    requires |head| >= 4
    ensures sealed == SealedBytes(head, garbage, garbageSum)
  {
    var stream := head + garbage;
    var sumBytes := LittleEndianBytes(garbageSum, 4);
    var finalBytes := new uint8[|stream|](i requires 0 <= i < |stream| => if i < 4 then sumBytes[i] else stream[i]);
    assert finalBytes[..] == sumBytes + stream[4..];
    var t := finalBytes[0];
    finalBytes[0] := finalBytes[1];
    finalBytes[1] := t;
    sealed := finalBytes[..];
  }

  /** Get: the sum and garbage loops, then the sealed bytes, sealed and split. */
  method Get(ticketBytes: Option<seq<uint8>>, realTime: uint32, crtRand: (uint32, nat) -> int,
             seal: (seq<uint8>, seq<uint8>) -> string) returns (r: Result<Option<Ticket>>)
    ensures r == TicketOf(ticketBytes, realTime, crtRand, seal)
  {
    if ticketBytes.None? {
      return Ok(None);
    }
    var time := KeyTime(realTime);
    var rawTicket := RawTicket(ticketBytes.value);
    var ticketSum := TicketSumOf(rawTicket);
    var head := LittleEndianBytes(ticketSum, 2) + rawTicket;
    assert head == Head(rawTicket);
    if |head| < 4 {
      return Err(ArgumentError);
    }
    var seed := Seed(time, ticketSum);
    var numRandomBytes := PaddingLength(|rawTicket|);
    Pow2Value64();
    var headWord := LittleEndian(head[..4]);
    var randoms := Randoms(crtRand, seed, numRandomBytes);
    var garbage, garbageSum := FillGarbage(headWord, randoms);
    var sealed := SealedArray(head, garbage, garbageSum);
    var encString := seal(KeyBytes(time), sealed);
    var parts := ChunksUpto(encString, SplitSize);
    r := Ok(Some(Assemble(parts)));
  }

  // ---- What Get promises ----

  /** Get fails exactly on an empty ticket, and gives a ticket exactly when Steam gave one. */
  lemma {:induction false} GetFailsOnEmpty(ticketBytes: Option<seq<uint8>>, realTime: uint32, crtRand: (uint32, nat) -> int,
                        seal: (seq<uint8>, seq<uint8>) -> string)
    ensures var r := TicketOf(ticketBytes, realTime, crtRand, seal);
      && (r.Err? <==> ticketBytes == Some([]))
      && (r == Ok(None) <==> ticketBytes.None?)
  {
  }

  /**
   * The sealed bytes of a non-empty ticket fill whole 8-byte blocks; undoing the swap gives the
   * final garbage sum in four little-endian bytes, then the hex text after its first two
   * characters, the NUL, and the garbage.
   */
  lemma {:induction false} SealedLayout(bytes: seq<uint8>, garbage: seq<uint8>, garbageSum: uint32)
    requires |bytes| > 0 && |garbage| == PaddingLength(2 * |bytes| + 1)
    ensures var raw := RawTicket(bytes); var s := SealedBytes(Head(raw), garbage, garbageSum);
      && |s| % 8 == 0 && |s| >= 8
      && SwapFirstTwo(s) == LittleEndianBytes(garbageSum, 4) + raw[2..] + garbage
      && raw[|raw| - 1] == 0
  {
    var raw := RawTicket(bytes);
    var head := Head(raw);
    assert (head + garbage)[4..] == raw[2..] + garbage;
    var s := SealedBytes(head, garbage, garbageSum);
    assert SwapFirstTwo(s) == [s[1], s[0]] + s[2..];
  }

  /** Hex text is ASCII from '0' to 'f'. */
  lemma {:induction false} HexRange(v: nat, width: nat)
    ensures forall i :: 0 <= i < width ==> '0' <= Arguments.Hex(v, width)[i] <= 'f'
    decreases width
  {
    if width > 0 {
      HexRange(v / 16, width - 1);
      DigitTables();
      var s := Arguments.Hex(v, width);
      assert s == Arguments.Hex(v / 16, width - 1) + [Arguments.HexDigit(v % 16)];
    }
  }

  lemma {:induction false} LowerHexRange(bytes: seq<uint8>)
    ensures forall i :: 0 <= i < |LowerHex(bytes)| ==> '0' <= LowerHex(bytes)[i] <= 'f'
    decreases |bytes|
  {
    if |bytes| > 0 {
      LowerHexRange(bytes[1..]);
      HexRange(bytes[0], 2);
      var s := LowerHex(bytes);
      assert s == Arguments.Hex(bytes[0], 2) + LowerHex(bytes[1..]);
    }
  }

  /** The raw ticket is the ASCII codes of the lowercase hex, each nonzero, then one NUL. */
  lemma {:induction false} RawTicketIsHexCodes(bytes: seq<uint8>)
    ensures var raw := RawTicket(bytes); var hex := LowerHex(bytes);
      && raw[..|raw| - 1] == seq(|hex|, i requires 0 <= i < |hex| => hex[i] as int)
      && (forall i :: 0 <= i < |raw| - 1 ==> raw[i] != 0)
      && raw[|raw| - 1] == 0
  {
    TicketStringIsLowerHex(bytes);
    LowerHexRange(bytes);
    var raw := RawTicket(bytes);
    assert raw[..|raw| - 1] == AsciiEncode(LowerHex(bytes));
  }

  /** Every character of the lowercase hex is a hex digit. */
  lemma {:induction false} HexText(bytes: seq<uint8>)
    ensures forall i :: 0 <= i < |LowerHex(bytes)| ==> LowerHex(bytes)[i] in "0123456789abcdef"
    decreases |bytes|
  {
    if |bytes| > 0 {
      HexText(bytes[1..]);
      Arguments.HexDigits(bytes[0], 2);
      var s := LowerHex(bytes);
      assert s == Arguments.Hex(bytes[0], 2) + LowerHex(bytes[1..]);
    }
  }

  /** The key is the time's eight hex digits, which read back as the time, then "#un@e=x>". */
  lemma KeyReadsBack(time: uint32)
    ensures var k := KeyBytes(time);
      && Arguments.HexValue(seq(8, i requires 0 <= i < 8 => k[i] as char)) == time
      && seq(8, i requires 0 <= i < 8 => k[8 + i] as char) == KeySuffix
  {
    var h := Arguments.Hex(time, 8);
    HexRange(time, 8);
    SuffixAscii();
    var k := KeyBytes(time);
    assert seq(8, i requires 0 <= i < 8 => k[i] as char) == h;
    Pow2Value16();
    Pow2Square(16, 0x1_0000);
    Arguments.HexRoundTrip(time, 8);
  }

  lemma SuffixAscii()
    ensures |KeySuffix| == 8 && forall i :: 0 <= i < 8 ==> KeySuffix[i] as int < 128
  {
  }
}
