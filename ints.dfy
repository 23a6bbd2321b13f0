/** Fixed-width integer types of C# and C++, their wrap-around conversions, and the little bit arithmetic the model needs. */
module Ints {

  const UInt8Max: int := 0xFF
  const UInt16Max: int := 0xFFFF
  const UInt32Max: int := 0xFFFF_FFFF
  const Int32Min: int := -0x8000_0000
  const Int32Max: int := 0x7FFF_FFFF
  const Int64Min: int := -0x8000_0000_0000_0000
  const Int64Max: int := 0x7FFF_FFFF_FFFF_FFFF

  type uint8 = x: int | 0 <= x <= 0xFF
  type uint16 = x: int | 0 <= x <= 0xFFFF
  type uint32 = x: int | 0 <= x <= 0xFFFF_FFFF
  type uint64 = x: int | 0 <= x <= 0xFFFF_FFFF_FFFF_FFFF
  type int16 = x: int | -0x8000 <= x <= 0x7FFF
  type int32 = x: int | -0x8000_0000 <= x <= 0x7FFF_FFFF
  type int64 = x: int | -0x8000_0000_0000_0000 <= x <= 0x7FFF_FFFF_FFFF_FFFF

  /** An unchecked C# cast to `uint`: the low 32 bits of the two's complement value. */
  function ToUInt32(v: int): (r: uint32)
    ensures 0 <= v <= UInt32Max ==> r == v
  {
    v % 0x1_0000_0000
  }

  /** An unchecked C# cast to `int`: the low 32 bits read as a signed value. */
  function ToInt32(v: int): (r: int32)
    ensures Int32Min <= v <= Int32Max ==> r == v
    ensures (r - v) % 0x1_0000_0000 == 0
  {
    var u := v % 0x1_0000_0000;
    if u <= Int32Max then u else u - 0x1_0000_0000
  }

  /** Unchecked `long` addition or subtraction: the exact sum of two 64-bit operands folded back into 64 bits. */
  function WrapInt64(v: int): (r: int64)
    requires Int64Min - 0x1_0000_0000_0000_0000 < v < Int64Max + 0x1_0000_0000_0000_0000
    ensures Int64Min <= v <= Int64Max ==> r == v
    ensures r == v || r == v - 0x1_0000_0000_0000_0000 || r == v + 0x1_0000_0000_0000_0000
  {
    if v > Int64Max then v - 0x1_0000_0000_0000_0000
    else if v < Int64Min then v + 0x1_0000_0000_0000_0000
    else v
  }

  /** A 32-bit pattern read as an `int`. */
  function Int32FromBits(u: uint32): (r: int32)
    ensures u <= Int32Max ==> r == u
  {
    if u <= Int32Max then u else u - 0x1_0000_0000
  }

  /** The 64-bit two's complement pattern of a `long`, read as unsigned. */
  function Int64Bits(v: int64): (r: uint64)
    ensures v >= 0 ==> r == v
  {
    if v >= 0 then v else v + 0x1_0000_0000_0000_0000
  }

  /** The 32-bit two's complement pattern of an `int`, read as unsigned. */
  function Int32Bits(v: int32): (r: uint32)
    ensures v >= 0 ==> r == v
    ensures Int32FromBits(r) == v
  {
    if v >= 0 then v else v + 0x1_0000_0000
  }

  /** A 64-bit pattern read back as a `long`. */
  function Int64FromBits(u: uint64): (r: int64)
    ensures Int64Bits(r) == u
  {
    if u <= Int64Max then u else u - 0x1_0000_0000_0000_0000
  }

  function Pow2(n: nat): (r: nat)
    ensures r >= 1
  {
    if n == 0 then 1 else 2 * Pow2(n - 1)
  }

  /** Bitwise OR of two naturals, bit by bit from the least significant end. */
  function BitOr(a: nat, b: nat): nat
    decreases a + b
  {
    if a == 0 then b
    else if b == 0 then a
    else 2 * BitOr(a / 2, b / 2) + (if a % 2 == 1 || b % 2 == 1 then 1 else 0)
  }

  /** OR never clears a bit, so the result is at least either operand. */
  lemma {:induction false} BitOrAtLeast(a: nat, b: nat)
    ensures BitOr(a, b) >= a && BitOr(a, b) >= b
    decreases a + b
  {
    if a != 0 && b != 0 {
      BitOrAtLeast(a / 2, b / 2);
    }
  }

  /** OR never sets a bit above the highest bit of its operands. */
  lemma {:induction false} BitOrBelow(a: nat, b: nat, n: nat)
    requires a < Pow2(n) && b < Pow2(n)
    ensures BitOr(a, b) < Pow2(n)
    decreases n
  {
    if a != 0 && b != 0 {
      assert n > 0;
      BitOrBelow(a / 2, b / 2, n - 1);
    }
  }

  /** Bitwise AND of two naturals, bit by bit from the least significant end. */
  function BitAnd(a: nat, b: nat): nat
    decreases a + b
  {
    if a == 0 || b == 0 then 0
    else 2 * BitAnd(a / 2, b / 2) + (if a % 2 == 1 && b % 2 == 1 then 1 else 0)
  }

  /** Bitwise XOR of two naturals, bit by bit from the least significant end. */
  function BitXor(a: nat, b: nat): nat
    decreases a + b
  {
    if a == 0 then b
    else if b == 0 then a
    else 2 * BitXor(a / 2, b / 2) + (if a % 2 != b % 2 then 1 else 0)
  }

  /** XOR never sets a bit above the highest bit of its operands. */
  lemma {:induction false} BitXorBelow(a: nat, b: nat, n: nat)
    requires a < Pow2(n) && b < Pow2(n)
    ensures BitXor(a, b) < Pow2(n)
    decreases n
  {
    if a != 0 && b != 0 {
      assert n > 0;
      BitXorBelow(a / 2, b / 2, n - 1);
    }
  }

  lemma {:induction false} MulAtLeast(d: int, k: int)
    requires d > 0 && k >= 1
    ensures d * k >= d
    decreases k
  {
    if k > 1 {
      MulAtLeast(d, k - 1);
      assert d * k == d * (k - 1) + d;
    }
  }

  /** Quotient and remainder are the only pair that rebuilds the dividend with a remainder below the divisor. */
  lemma DivModUnique(x: int, d: int, q: int, r: int)
    requires d > 0 && 0 <= r < d && x == d * q + r
    ensures x / d == q && x % d == r
  {
    var q0, r0 := x / d, x % d;
    assert d * (q - q0) == r0 - r;
    if q > q0 {
      MulAtLeast(d, q - q0);
    } else if q < q0 {
      MulAtLeast(d, q0 - q);
    }
  }

  /** Halving, then dividing by p, is dividing by 2p. */
  lemma DivDiv(x: nat, p: nat)
    requires p > 0
    ensures x / 2 / p == x / (2 * p)
  {
    var q := x / (2 * p);
    var r := x % (2 * p);
    assert x == 2 * (p * q) + r by {
      assert x == (2 * p) * q + r;
      assert (2 * p) * q == 2 * (p * q);
    }
    DivModUnique(x, 2, p * q + r / 2, r % 2);
    DivModUnique(x / 2, p, q, r / 2);
  }

  /** The remainder by 2p, from the remainder of the half by p and the lowest bit. */
  lemma ModDouble(x: nat, p: nat)
    requires p > 0
    ensures x % (2 * p) == 2 * (x / 2 % p) + x % 2
  {
    var h := x / 2;
    var m := 2 * (h % p) + x % 2;
    assert x == (2 * p) * (h / p) + m by {
      assert h == p * (h / p) + h % p;
      assert (2 * p) * (h / p) == 2 * (p * (h / p));
    }
    DivModUnique(x, 2 * p, h / p, m);
  }

  /** AND with n one-bits keeps the n lowest bits. */
  lemma {:induction false} BitAndLowMask(x: nat, n: nat)
    ensures BitAnd(x, Pow2(n) - 1) == x % Pow2(n)
    decreases n
  {
    if n > 0 && x != 0 {
      var p := Pow2(n - 1);
      var m := Pow2(n) - 1;
      assert m / 2 == p - 1 && m % 2 == 1;
      var b := BitAnd(x / 2, p - 1);
      assert BitAnd(x, m) == 2 * b + x % 2;
      BitAndLowMask(x / 2, n - 1);
      var r := x / 2 % p;
      assert b == r;
      ModDouble(x, p);
      assert x % Pow2(n) == 2 * r + x % 2;
    } else if n == 0 {
      assert Pow2(n) == 1;
      assert BitAnd(x, 0) == 0;
    } else {
      DivModUnique(0, Pow2(n), 0, 0);
    }
  }

  /** `v << n` on naturals. */
  function Shl(v: nat, n: nat): nat
  {
    if n == 0 then v else 2 * Shl(v, n - 1)
  }

  lemma {:induction false} ShlIsMul(v: nat, n: nat)
    ensures Shl(v, n) == v * Pow2(n)
    decreases n
  {
    if n > 0 {
      ShlIsMul(v, n - 1);
      assert v * Pow2(n) == 2 * (v * Pow2(n - 1));
    }
  }

  /** `v >> n` on naturals. */
  function Shr(v: nat, n: nat): nat
  {
    if n == 0 then v else Shr(v / 2, n - 1)
  }

  lemma {:induction false} ShrIsDiv(v: nat, n: nat)
    ensures Shr(v, n) == v / Pow2(n)
    decreases n
  {
    if n > 0 {
      ShrIsDiv(v / 2, n - 1);
      DivDiv(v, Pow2(n - 1));
    }
  }

  /** AND with a mask shifted left by n bits is the AND of the shifted-down value, shifted back. */
  lemma {:induction false} BitAndShifted(x: nat, y: nat, n: nat)
    ensures BitAnd(x, Shl(y, n)) == Shl(BitAnd(Shr(x, n), y), n)
    decreases n
  {
    if n > 0 {
      var m := Shl(y, n - 1);
      assert (2 * m) / 2 == m && (2 * m) % 2 == 0;
      BitAndShifted(x / 2, y, n - 1);
    }
  }

  lemma Pow2Value16()
    ensures Pow2(4) == 0x10 && Pow2(16) == 0x1_0000
  {
    Pow2Square(1, 2);
    Pow2Square(2, 4);
    Pow2Square(4, 0x10);
    Pow2Square(8, 0x100);
  }

  /** Masking with 0xFFFF0000 clears the low 16 bits. */
  lemma BitAndHigh16(x: uint32)
    ensures BitAnd(x, 0xFFFF_0000) == x / 0x1_0000 * 0x1_0000
  {
    var h := x / 0x1_0000;
    assert Shr(x, 16) == h && Shl(0xFFFF, 16) == 0xFFFF_0000 && 0xFFFF == Pow2(16) - 1 by {
      Pow2Value16();
      ShrIsDiv(x, 16);
      ShlIsMul(0xFFFF, 16);
    }
    assert Shl(h % 0x1_0000, 16) == h % 0x1_0000 * 0x1_0000 by {
      Pow2Value16();
      ShlIsMul(h % 0x1_0000, 16);
    }
    assert h % 0x1_0000 == h;
    BitAndShifted(x, 0xFFFF, 16);
    BitAndLowMask(h, 16);
  }

  /** Masking with 0x000F0000 and shifting down by 16 gives the nibble at bit 16. */
  lemma BitAndNibble16(x: nat)
    ensures BitAnd(x, 0x000F_0000) / 0x1_0000 == x / 0x1_0000 % 16
  {
    var h := x / 0x1_0000;
    assert Shr(x, 16) == h && Shl(0xF, 16) == 0x000F_0000 && 0xF == Pow2(4) - 1 by {
      Pow2Value16();
      ShrIsDiv(x, 16);
      ShlIsMul(0xF, 16);
    }
    assert Shl(h % 16, 16) == h % 16 * 0x1_0000 by {
      Pow2Value16();
      ShlIsMul(h % 16, 16);
    }
    BitAndShifted(x, 0xF, 16);
    BitAndLowMask(h, 4);
  }
  /** Little-endian value of a byte sequence. */
  function LittleEndian(s: seq<uint8>): (r: nat)
    ensures r < Pow2(8 * |s|)
  {
    if s == [] then 0
    else
      var rest := LittleEndian(s[1..]);
      assert Pow2(8 * |s|) == 256 * Pow2(8 * (|s| - 1)) by { Pow2Add(8, 8 * (|s| - 1)); }
      s[0] + 256 * rest
  }

  /** Big-endian value of a byte sequence. */
  function BigEndian(s: seq<uint8>): (r: nat)
    ensures r < Pow2(8 * |s|)
  {
    if s == [] then 0
    else
      var rest := BigEndian(s[..|s| - 1]);
      assert Pow2(8 * |s|) == 256 * Pow2(8 * (|s| - 1)) by { Pow2Add(8, 8 * (|s| - 1)); }
      256 * rest + s[|s| - 1]
  }

  lemma {:induction false} Pow2Add(m: nat, n: nat)
    ensures Pow2(m + n) == Pow2(m) * Pow2(n)
    decreases m
  {
    if m > 0 {
      Pow2Add(m - 1, n);
    }
  }

  lemma Pow2Square(n: nat, v: nat)
    requires Pow2(n) == v
    ensures Pow2(2 * n) == v * v
  {
    Pow2Add(n, n);
  }

  lemma Pow2Value64()
    ensures Pow2(32) == 0x1_0000_0000
    ensures Pow2(64) == 0x1_0000_0000_0000_0000
    ensures Pow2(63) == 0x8000_0000_0000_0000
  {
    Pow2Square(1, 2);
    Pow2Square(2, 4);
    Pow2Square(4, 0x10);
    Pow2Square(8, 0x100);
    Pow2Square(16, 0x1_0000);
    Pow2Square(32, 0x1_0000_0000);
    assert Pow2(64) == 2 * Pow2(63);
  }

  /** The `n` bytes of `v` in little-endian order. */
  function LittleEndianBytes(v: nat, n: nat): (r: seq<uint8>)
    ensures |r| == n
  {
    if n == 0 then [] else [v % 256] + LittleEndianBytes(v / 256, n - 1)
  }

  /** Writing `n` bytes and reading them back gives the value, when it fits. */
  lemma {:induction false} LittleEndianRoundTrip(v: nat, n: nat)
    requires v < Pow2(8 * n)
    ensures LittleEndian(LittleEndianBytes(v, n)) == v
    decreases n
  {
    if n > 0 {
      Pow2Add(8, 8 * (n - 1));
      assert v / 256 < Pow2(8 * (n - 1));
      LittleEndianRoundTrip(v / 256, n - 1);
      assert LittleEndianBytes(v, n)[1..] == LittleEndianBytes(v / 256, n - 1);
    }
  }

  /** Reading bytes as a number and writing the number back gives the same bytes. */
  lemma {:induction false} LittleEndianBytesOf(s: seq<uint8>)
    ensures LittleEndianBytes(LittleEndian(s), |s|) == s
  {
    if s != [] {
      var rest := LittleEndian(s[1..]);
      DivModUnique(LittleEndian(s), 256, rest, s[0]);
      LittleEndianBytesOf(s[1..]);
    }
  }

  /** `n` zero bytes, as a freshly allocated C# array holds. */
  function Zeros(n: nat): (r: seq<uint8>)
    ensures |r| == n && forall i :: 0 <= i < n ==> r[i] == 0
  {
    seq(n, _ => 0)
  }

  function Max(a: int, b: int): int { if a >= b then a else b }
  function Min(a: int, b: int): int { if a <= b then a else b }
}
