/**
 * The game's command-line argument builder: a list of key/value pairs rendered as
 * " key=value" text, or escaped, encrypted and framed as "//**sqex0003...**//".
 */
module Arguments {
  import opened Wrappers
  import opened Ints
  import opened Strings

  datatype Argument = Argument(key: string, value: string)

  /** The format version written into the encrypted frame. */
  const FormatVersion: nat := 3

  const ChecksumTable: seq<char> :=
    ['f', 'X', '1', 'p', 'G', 't', 'd', 'S', '5', 'C', 'A', 'P', '4', '_', 'V', 'L']

  // ---- The checksum character ----

  /** The table entry picked by bits 16 to 19 of the key; '!' if the index were out of range. */
  function DeriveChecksum(key: uint32): (c: char)
    ensures c in ChecksumTable
  {
    var index := Shr(BitAnd(key, 0x000F_0000), 16);
    assert index == key / 0x1_0000 % 16 by {
      ShrIsDiv(BitAnd(key, 0x000F_0000), 16);
      Pow2Value16();
      BitAndNibble16(key);
    }
    if index < |ChecksumTable| then ChecksumTable[index] else '!'
  }

  /** The checksum is the table entry at the key's nibble 16 to 19; the fallback '!' is never returned. */
  lemma ChecksumIsNibble(key: uint32)
    ensures DeriveChecksum(key) == ChecksumTable[key / 0x1_0000 % 16]
    ensures DeriveChecksum(key) != '!'
  {
    ShrIsDiv(BitAnd(key, 0x000F_0000), 16);
    Pow2Value16();
    BitAndNibble16(key);
  }

  /** Two keys have the same checksum exactly when they agree in bits 16 to 19. */
  lemma ChecksumDeterminesNibble(k1: uint32, k2: uint32)
    ensures DeriveChecksum(k1) == DeriveChecksum(k2) <==> k1 / 0x1_0000 % 16 == k2 / 0x1_0000 % 16
  {
    ChecksumIsNibble(k1);
    ChecksumIsNibble(k2);
    var i, j := k1 / 0x1_0000 % 16, k2 / 0x1_0000 % 16;
    assert ChecksumTable[i] == ChecksumTable[j] ==> i == j;
  }

  // ---- Rendering the list ----

  /** Concatenation of each argument's rendering, in list order. */
  function Render(args: seq<Argument>, item: Argument -> string): string
  {
    if args == [] then "" else Render(args[..|args| - 1], item) + item(args[|args| - 1])
  }

  /** Rendering a list made of two lists renders the first, then the second. */
  lemma {:induction false} RenderConcat(a: seq<Argument>, b: seq<Argument>, item: Argument -> string)
    ensures Render(a + b, item) == Render(a, item) + Render(b, item)
    decreases |b|
  {
    if b != [] {
      var n := |b| - 1;
      var ab := a + b;
      assert ab[..|ab| - 1] == a + b[..n];
      assert ab[|ab| - 1] == b[n];
      RenderConcat(a, b[..n], item);
      calc {
        Render(ab, item);
        Render(ab[..|ab| - 1], item) + item(ab[|ab| - 1]);
        Render(a + b[..n], item) + item(b[n]);
        Render(a, item) + Render(b[..n], item) + item(b[n]);
        Render(a, item) + Render(b, item);
      }
    } else {
      assert a + b == a;
    }
  }

  /** Build's piece for one argument: a space, the key, '=' and the value. */
  function Plain(a: Argument): string
  {
    " " + a.key + "=" + a.value
  }

  /** Build: " key=value" for each argument, in insertion order. */
  function Build(args: seq<Argument>): string
  {
    Render(args, Plain)
  }

  /** Build of one argument, and of a list extended by one argument. */
  lemma BuildAppends(args: seq<Argument>, a: Argument)
    ensures Build([a]) == " " + a.key + "=" + a.value
    ensures Build(args + [a]) == Build(args) + " " + a.key + "=" + a.value
  {
    assert [a][..0] == [];
    RenderConcat(args, [a], Plain);
  }

  // ---- Escaping ----

  /** input.Replace(" ", "  "): every space doubled. */
  function EscapeValue(s: string): string
  {
    if s == [] then "" else (if s[0] == ' ' then "  " else [s[0]]) + EscapeValue(s[1..])
  }

  /** The inverse: every pair of spaces read back as one. */
  function Unescape(t: string): string
  {
    if t == [] then ""
    else if |t| >= 2 && t[0] == ' ' && t[1] == ' ' then " " + Unescape(t[2..])
    else [t[0]] + Unescape(t[1..])
  }

  function CountOf(s: string, c: char): nat
  {
    if s == [] then 0 else (if s[0] == c then 1 else 0) + CountOf(s[1..], c)
  }

  /** Escaping loses nothing: collapsing the doubled spaces gives the input back. */
  lemma {:induction false} EscapeRoundTrip(s: string)
    ensures Unescape(EscapeValue(s)) == s
  {
    if s != [] {
      EscapeRoundTrip(s[1..]);
      var e := EscapeValue(s);
      if s[0] == ' ' {
        assert e[2..] == EscapeValue(s[1..]);
      } else {
        assert e[1..] == EscapeValue(s[1..]);
      }
    }
  }

  /** Escaping adds one character per space, and keeps a string without spaces as it is. */
  lemma {:induction false} EscapeLength(s: string)
    ensures |EscapeValue(s)| == |s| + CountOf(s, ' ')
    ensures ' ' !in s ==> EscapeValue(s) == s
  {
    if s != [] {
      EscapeLength(s[1..]);
      assert ' ' !in s ==> ' ' !in s[1..];
    }
  }

  /** BuildEncrypted's piece for one argument: " /" + escaped key + " =" + escaped value. */
  function Escaped(a: Argument): string
  {
    " /" + EscapeValue(a.key) + " =" + EscapeValue(a.value)
  }

  /** The text that is encrypted: each argument's escaped piece, in order. */
  function Plaintext(args: seq<Argument>): string
  {
    Render(args, Escaped)
  }

  // ---- The key text ----

  function HexDigit(d: nat): (c: char)
    requires d < 16
  {
    "0123456789abcdef"[d]
  }

  /** The value of a lowercase hex digit. */
  function HexDigitValue(c: char): nat
  {
    if '0' <= c <= '9' then c as int - '0' as int
    else if 'a' <= c <= 'f' then c as int - 'a' as int + 10
    else 0
  }

  /** `{v:x0w}`: the `w` lowest hex digits of `v`, lowercase, most significant first. */
  function Hex(v: nat, width: nat): (s: string)
    ensures |s| == width
  {
    if width == 0 then "" else Hex(v / 16, width - 1) + [HexDigit(v % 16)]
  }

  /** The value of a string of hex digits. */
  function HexValue(s: string): nat
  {
    if s == [] then 0 else HexValue(s[..|s| - 1]) * 16 + HexDigitValue(s[|s| - 1])
  }

  /** Hex text of a value that fits reads back as the value. */
  lemma {:induction false} HexRoundTrip(v: nat, width: nat)
    requires v < Pow2(4 * width)
    ensures HexValue(Hex(v, width)) == v
    decreases width
  {
    if width > 0 {
      Pow2Add(4, 4 * (width - 1));
      Pow2Value16();
      assert v / 16 < Pow2(4 * (width - 1));
      HexRoundTrip(v / 16, width - 1);
      var s := Hex(v, width);
      assert s[..|s| - 1] == Hex(v / 16, width - 1);
      assert HexDigitValue(HexDigit(v % 16)) == v % 16;
    }
  }

  /** Every character of a hex text is a lowercase hex digit. */
  lemma {:induction false} HexDigits(v: nat, width: nat)
    ensures forall i :: 0 <= i < width ==> Hex(v, width)[i] in "0123456789abcdef"
    decreases width
  {
    if width > 0 {
      HexDigits(v / 16, width - 1);
      var s := Hex(v, width);
      assert forall i :: 0 <= i < width - 1 ==> s[i] == Hex(v / 16, width - 1)[i];
    }
  }

  /** UTF-8 bytes of an ASCII string: one byte per character, its code. */
  function AsciiBytes(s: string): (b: seq<uint8>)
    requires forall i :: 0 <= i < |s| ==> s[i] as int < 128
    ensures |b| == |s| && forall i :: 0 <= i < |s| ==> b[i] == s[i] as int
  {
    if s == [] then [] else [s[0] as int] + AsciiBytes(s[1..])
  }

  /** GetKeyBytes: the UTF-8 bytes of the key's 8-digit lowercase hex text. */
  function GetKeyBytes(key: uint32): (b: seq<uint8>)
    ensures |b| == 8
  {
    HexDigits(key, 8);
    AsciiBytes(Hex(key, 8))
  }

  /** The key bytes are eight hex-digit codes that read back as the key. */
  lemma KeyBytesRoundTrip(key: uint32)
    ensures var b := GetKeyBytes(key);
      && (forall i :: 0 <= i < 8 ==> b[i] as char in "0123456789abcdef")
      && HexValue(seq(8, i requires 0 <= i < 8 => b[i] as char)) == key
  {
    var s := Hex(key, 8);
    HexDigits(key, 8);
    var b := GetKeyBytes(key);
    assert seq(8, i requires 0 <= i < 8 => b[i] as char) == s;
    Pow2Value16();
    Pow2Square(16, 0x1_0000);
    HexRoundTrip(key, 8);
  }

  // ---- The encrypted frame ----

  const FramePrefix: string := "//**sqex"
  const FrameSuffix: string := "**//"

  /** "//**sqex" + the version as four digits + the payload + the checksum + "**//". */
  function Frame(payload: string, checksum: char): string
  {
    FramePrefix + ZeroPad(Decimal(FormatVersion), 4) + payload + [checksum] + FrameSuffix
  }

  /** The version field of the frame is "0003". */
  lemma FrameVersionText()
    ensures ZeroPad(Decimal(FormatVersion), 4) == "0003"
  {
  }

  /** Reads a frame back into its payload and checksum, if it is one. */
  function Unframe(s: string): Option<(string, char)>
  {
    var head := FramePrefix + "0003";
    if |s| >= |head| + 1 + |FrameSuffix| && s[..|head|] == head && s[|s| - |FrameSuffix|..] == FrameSuffix
    then Some((s[|head|..|s| - |FrameSuffix| - 1], s[|s| - |FrameSuffix| - 1]))
    else None
  }

  /** A frame is read back into the same payload and checksum. */
  lemma FrameRoundTrip(payload: string, checksum: char)
    ensures Unframe(Frame(payload, checksum)) == Some((payload, checksum))
  {
    FrameVersionText();
    var head := FramePrefix + "0003";
    var s := Frame(payload, checksum);
    assert s == head + payload + [checksum] + FrameSuffix;
    assert s[..|head|] == head;
    assert s[|s| - |FrameSuffix|..] == FrameSuffix;
    assert s[|head|..|s| - |FrameSuffix| - 1] == payload;
  }

  /**
   * BuildEncrypted(key) given the encryption step: `seal` stands for Blowfish under the key
   * bytes applied to the UTF-8 plaintext, then the game's base64 variant.
   */
  function BuildEncrypted(args: seq<Argument>, key: uint32, seal: (seq<uint8>, string) -> string): (s: string)
  {
    Frame(seal(GetKeyBytes(key), Plaintext(args)), DeriveChecksum(key))
  }

  /** The encrypted form is a frame around the sealed plaintext whose checksum names the key's nibble. */
  lemma BuildEncryptedFrames(args: seq<Argument>, key: uint32, seal: (seq<uint8>, string) -> string)
    ensures var s := BuildEncrypted(args, key, seal);
      && s[..12] == "//**sqex0003" && s[|s| - 4..] == "**//"
      && Unframe(s) == Some((seal(GetKeyBytes(key), Plaintext(args)), ChecksumTable[key / 0x1_0000 % 16]))
  {
    var p := seal(GetKeyBytes(key), Plaintext(args));
    FrameRoundTrip(p, DeriveChecksum(key));
    ChecksumIsNibble(key);
    FrameVersionText();
  }

  // ---- DeriveKey ----

  /** The "T" argument holding the tick count in decimal. */
  function TicksArgument(ticks: uint32): Argument
  {
    Argument("T", Decimal(ticks))
  }

  /** DeriveKey's list update: a leading "T" argument is replaced, otherwise one is inserted at the front. */
  function WithTicks(args: seq<Argument>, ticks: uint32): seq<Argument>
  {
    if |args| > 0 && args[0].key == "T" then [TicksArgument(ticks)] + args[1..]
    else [TicksArgument(ticks)] + args
  }

  /** The list then starts with exactly one ticks argument, followed by the rest unchanged. */
  lemma WithTicksLeads(args: seq<Argument>, ticks: uint32)
    ensures var r := WithTicks(args, ticks);
      && |r| >= 1 && r[0] == TicksArgument(ticks)
      && r[1..] == (if |args| > 0 && args[0].key == "T" then args[1..] else args)
  {
  }

  /** Deriving again keeps one ticks argument, the latest. */
  lemma WithTicksTwice(args: seq<Argument>, t1: uint32, t2: uint32)
    ensures WithTicks(WithTicks(args, t1), t2) == WithTicks(args, t2)
  {
    var r := WithTicks(args, t1);
    assert r[1..] == (if |args| > 0 && args[0].key == "T" then args[1..] else args);
  }

  /** The key for a tick count: `ticks & 0xFFFF0000`. */
  function KeyOf(ticks: uint32): (key: uint32)
  {
    BitAndHigh16(ticks);
    BitAnd(ticks, 0xFFFF_0000)
  }

  /** The key is the tick count with its low 16 bits cleared; its checksum depends on the ticks' bits 16 to 19. */
  lemma KeyClearsLowBits(ticks: uint32)
    ensures var key := KeyOf(ticks);
      && key % 0x1_0000 == 0 && key <= ticks < key + 0x1_0000
      && DeriveChecksum(key) == ChecksumTable[ticks / 0x1_0000 % 16]
  {
    var key := KeyOf(ticks);
    BitAndHigh16(ticks);
    ChecksumIsNibble(key);
    assert key / 0x1_0000 == ticks / 0x1_0000;
  }

  /** `rawTickCount & 0xFFFFFFFF` leaves a 32-bit count as it is. */
  lemma TicksUnmasked(raw: uint32)
    ensures BitAnd(raw, 0xFFFF_FFFF) == raw
  {
    Pow2Value16();
    Pow2Square(16, 0x1_0000);
    BitAndLowMask(raw, 32);
  }

  class ArgumentBuilder {
    var arguments: seq<Argument>

    constructor ()
      ensures arguments == []
    {
      arguments := [];
    }

    constructor FromItems(items: seq<Argument>)
      ensures arguments == items
    {
      arguments := items;
    }

    method Append(item: Argument)
      modifies this
      ensures arguments == old(arguments) + [item]
      ensures Build(arguments) == Build(old(arguments)) + " " + item.key + "=" + item.value
    {
      BuildAppends(arguments, item);
      arguments := arguments + [item];
    }

    method AppendKeyValue(key: string, value: string)
      modifies this
      ensures arguments == old(arguments) + [Argument(key, value)]
    {
      Append(Argument(key, value));
    }

    method AppendAll(items: seq<Argument>)
      modifies this
      ensures arguments == old(arguments) + items
      ensures Build(arguments) == Build(old(arguments)) + Build(items)
    {
      RenderConcat(arguments, items, Plain);
      arguments := arguments + items;
    }

    /**
     * DeriveKey: the tick count cast to uint (the low 32 bits of the platform's count,
     * passed in), masked to the key, and the "T" argument set to the ticks.
     */
    method DeriveKey(tickCount: int) returns (key: uint32)
      modifies this
      ensures key == KeyOf(ToUInt32(tickCount))
      ensures arguments == WithTicks(old(arguments), ToUInt32(tickCount))
    {
      var rawTickCount := ToUInt32(tickCount);
      TicksUnmasked(rawTickCount);
      var ticks: uint32 := BitAnd(rawTickCount, 0xFFFF_FFFF);
      key := KeyOf(ticks);
      var keyPair := TicksArgument(ticks);
      if |arguments| > 0 && arguments[0].key == "T" {
        arguments := arguments[0 := keyPair];
      } else {
        arguments := [keyPair] + arguments;
      }
    }

    /** BuildEncrypted(): derive a key from the tick count, then build under it. */
    method BuildEncryptedNow(tickCount: int, seal: (seq<uint8>, string) -> string) returns (s: string)
      modifies this
      ensures arguments == WithTicks(old(arguments), ToUInt32(tickCount))
      ensures s == BuildEncrypted(arguments, KeyOf(ToUInt32(tickCount)), seal)
    {
      var key := DeriveKey(tickCount);
      s := BuildEncrypted(arguments, key, seal);
    }
  }
}
