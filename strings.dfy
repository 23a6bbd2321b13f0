/**
 * The few .NET string operations the modelled code relies on: String.Split on one character,
 * String.Join, Char.IsWhiteSpace, String.Trim, decimal formatting with zero padding and
 * UInt32.Parse with the default number style.
 */
module Strings {
  import opened Wrappers
  import opened Ints

  // ---- Split and Join ----

  /** The index of the first `c` in `s`. */
  function FirstIndex(s: string, c: char): (i: int)
    requires c in s
    ensures 0 <= i < |s| && s[i] == c && c !in s[..i]
  {
    if s[0] == c then 0
    else
      assert s == [s[0]] + s[1..];
      1 + FirstIndex(s[1..], c)
  }

  /** String.Split(sep): the pieces between the separators, empty pieces included; never no piece. */
  function Split(s: string, sep: char): (parts: seq<string>)
    ensures |parts| >= 1
    decreases |s|
  {
    if sep !in s then [s]
    else
      var i := FirstIndex(s, sep);
      [s[..i]] + Split(s[i + 1..], sep)
  }

  /** String.Join(sep, parts). */
  function Join(parts: seq<string>, sep: char): string
  {
    if |parts| == 0 then ""
    else if |parts| == 1 then parts[0]
    else parts[0] + [sep] + Join(parts[1..], sep)
  }

  /** No piece of a split holds the separator. */
  lemma {:induction false} SplitPiecesFree(s: string, sep: char)
    ensures forall i :: 0 <= i < |Split(s, sep)| ==> sep !in Split(s, sep)[i]
    decreases |s|
  {
    if sep in s {
      var i := FirstIndex(s, sep);
      SplitPiecesFree(s[i + 1..], sep);
      var rest := Split(s[i + 1..], sep);
      var parts := Split(s, sep);
      assert parts == [s[..i]] + rest;
      forall j | 0 <= j < |parts|
        ensures sep !in parts[j]
      {
        if j > 0 {
          assert parts[j] == rest[j - 1];
        }
      }
    }
  }

  /** Joining the pieces of a split with the separator gives the string back. */
  lemma {:induction false} SplitJoin(s: string, sep: char)
    ensures Join(Split(s, sep), sep) == s
    decreases |s|
  {
    if sep in s {
      var i := FirstIndex(s, sep);
      SplitJoin(s[i + 1..], sep);
      var rest := Split(s[i + 1..], sep);
      var parts := Split(s, sep);
      assert parts == [s[..i]] + rest;
      assert parts[0] == s[..i] && parts[1..] == rest;
      assert s == s[..i] + [sep] + s[i + 1..];
    }
  }

  /** Splitting a join of pieces free of the separator gives the pieces back. */
  lemma {:induction false} JoinSplit(parts: seq<string>, sep: char)
    requires |parts| >= 1
    requires forall i :: 0 <= i < |parts| ==> sep !in parts[i]
    ensures Split(Join(parts, sep), sep) == parts
    decreases |parts|
  {
    if |parts| > 1 {
      var s := Join(parts, sep);
      var p := parts[0];
      assert s == p + ([sep] + Join(parts[1..], sep));
      assert s[|p|] == sep;
      assert FirstIndex(s, sep) == |p| by {
        assert s[..|p|] == p;
      }
      assert s[..|p|] == p;
      assert s[|p| + 1..] == Join(parts[1..], sep);
      JoinSplit(parts[1..], sep);
    }
  }

  // ---- White space and Trim ----

  /** Char.IsWhiteSpace: the Unicode space separators, line and paragraph separators and the control characters U+0009 to U+000D, U+0085. */
  predicate IsWhiteSpace(c: char)
  {
    || ('\U{0009}' <= c <= '\U{000D}') || c == ' ' || c == '\U{0085}' || c == '\U{00A0}'
    || c == '\U{1680}' || ('\U{2000}' <= c <= '\U{200A}') || c == '\U{2028}' || c == '\U{2029}'
    || c == '\U{202F}' || c == '\U{205F}' || c == '\U{3000}'
  }

  /** String.IsNullOrWhiteSpace for a string that is not null. */
  predicate IsBlank(s: string)
  {
    forall i :: 0 <= i < |s| ==> IsWhiteSpace(s[i])
  }

  function TrimStart(s: string): (t: string)
    ensures |t| <= |s| && t == s[|s| - |t|..]
    ensures |t| > 0 ==> !IsWhiteSpace(t[0])
    ensures IsBlank(s[..|s| - |t|])
  {
    if |s| > 0 && IsWhiteSpace(s[0]) then TrimStart(s[1..]) else s
  }

  function TrimEnd(s: string): (t: string)
    ensures |t| <= |s| && t == s[..|t|]
    ensures |t| > 0 ==> !IsWhiteSpace(t[|t| - 1])
    ensures IsBlank(s[|t|..])
  {
    if |s| > 0 && IsWhiteSpace(s[|s| - 1]) then TrimEnd(s[..|s| - 1]) else s
  }

  /** String.Trim: white space removed from both ends. */
  function Trim(s: string): string
  {
    TrimEnd(TrimStart(s))
  }

  /** Where Trim cuts: the piece between `a` and `b`, blank outside it. */
  lemma TrimBounds(s: string) returns (a: nat, b: nat)
    ensures a <= b <= |s| && Trim(s) == s[a..b] && IsBlank(s[..a]) && IsBlank(s[b..])
  {
    var u := TrimStart(s);
    var t := TrimEnd(u);
    a := |s| - |u|;
    b := a + |t|;
    assert t == s[a..b] && IsBlank(s[..a]);
    assert IsBlank(s[b..]) by {
      assert s[b..] == u[|t|..];
    }
  }

  /** Trim gives a piece of the string with only white space around it and none at its ends. */
  lemma TrimPiece(s: string)
    ensures var t := Trim(s);
      && (exists a, b :: 0 <= a <= b <= |s| && t == s[a..b] && IsBlank(s[..a]) && IsBlank(s[b..]))
      && (|t| > 0 ==> !IsWhiteSpace(t[0]) && !IsWhiteSpace(t[|t| - 1]))
  {
    var a, b := TrimBounds(s);
    var u := TrimStart(s);
    var t := TrimEnd(u);
    assert |t| > 0 ==> t[0] == u[0];
  }

  /** Trim gives the empty string exactly for a blank string. */
  lemma TrimEmpty(s: string)
    ensures |Trim(s)| == 0 <==> IsBlank(s)
  {
    var u := TrimStart(s);
    var t := TrimEnd(u);
    var a := |s| - |u|;
    if |t| == 0 {
      assert u == u[|t|..];
      assert s == s[..a] + u;
    } else {
      assert s[a] == t[0];
    }
  }

  // ---- Decimal text ----

  predicate IsDigit(c: char) { '0' <= c <= '9' }

  predicate AllDigits(s: string)
  {
    forall i :: 0 <= i < |s| ==> IsDigit(s[i])
  }

  function DigitChar(d: nat): (c: char)
    requires d < 10
    ensures IsDigit(c)
  {
    ('0' as int + d) as char
  }

  /** The value of a string of decimal digits, most significant first; the empty string is 0. */
  function DecValue(s: string): nat
    requires AllDigits(s)
  {
    if s == [] then 0 else DecValue(s[..|s| - 1]) * 10 + (s[|s| - 1] as int - '0' as int)
  }

  /** UInt32.ToString(): the shortest decimal text, "0" for zero. */
  function Decimal(n: nat): (s: string)
    ensures |s| >= 1 && AllDigits(s)
  {
    if n < 10 then [DigitChar(n)] else Decimal(n / 10) + [DigitChar(n % 10)]
  }

  /** Formatting with "0000" and the like: left-padded with zeros to at least `width` digits. */
  function ZeroPad(s: string, width: nat): (t: string)
    ensures |t| == Max(|s|, width)
  {
    if |s| >= width then s else seq(width - |s|, _ => '0') + s
  }

  /** The decimal text reads back as the number. */
  lemma {:induction false} DecimalValue(n: nat)
    ensures DecValue(Decimal(n)) == n
  {
    if n >= 10 {
      var s := Decimal(n);
      assert s[..|s| - 1] == Decimal(n / 10);
      DecimalValue(n / 10);
    }
  }

  /** Leading zeros do not change the value of a decimal text. */
  lemma {:induction false} LeadingZerosValue(z: nat, s: string)
    requires AllDigits(s)
    ensures AllDigits(seq(z, _ => '0') + s)
    ensures DecValue(seq(z, _ => '0') + s) == DecValue(s)
    decreases z + |s|
  {
    var zs := seq(z, _ => '0');
    var t := zs + s;
    assert AllDigits(t) by {
      forall i | 0 <= i < |t|
        ensures IsDigit(t[i])
      {
        if i >= z {
          assert t[i] == s[i - z];
        }
      }
    }
    if |s| > 0 {
      assert t[..|t| - 1] == zs + s[..|s| - 1];
      LeadingZerosValue(z, s[..|s| - 1]);
    } else if z > 0 {
      assert t[..|t| - 1] == seq(z - 1, _ => '0') + s;
      LeadingZerosValue(z - 1, s);
    }
  }

  // ---- UInt32.Parse ----

  /** The white space the number parser skips: U+0009 to U+000D and the space. */
  predicate IsNumberWhite(c: char)
  {
    ('\U{0009}' <= c <= '\U{000D}') || c == ' '
  }

  function SkipLeadingWhite(s: string): (t: string)
    ensures |t| <= |s| && t == s[|s| - |t|..]
    ensures |t| > 0 ==> !IsNumberWhite(t[0])
  {
    if |s| > 0 && IsNumberWhite(s[0]) then SkipLeadingWhite(s[1..]) else s
  }

  function SkipTrailingWhite(s: string): (t: string)
    ensures |t| <= |s| && t == s[..|t|]
    ensures |t| > 0 ==> !IsNumberWhite(t[|t| - 1])
  {
    if |s| > 0 && IsNumberWhite(s[|s| - 1]) then SkipTrailingWhite(s[..|s| - 1]) else s
  }

  /**
   * UInt32.Parse in the default (Integer) style: optional white space, an optional '+' or '-',
   * one or more decimal digits and optional white space; anything else is a FormatException.
   * A value above 4294967295, or a negative value other than zero, is an OverflowException.
   */
  function ParseUInt32(s: string): (res: Result<uint32>)
    ensures res.Err? ==> res.error == FormatError || res.error == OverflowError
  {
    var t := SkipTrailingWhite(SkipLeadingWhite(s));
    var negative := |t| > 0 && t[0] == '-';
    var digits := if |t| > 0 && (t[0] == '+' || t[0] == '-') then t[1..] else t;
    if |digits| == 0 || !AllDigits(digits) then Err(FormatError)
    else
      var v := DecValue(digits);
      if v == 0 then Ok(0)
      else if negative || v > UInt32Max then Err(OverflowError)
      else Ok(v)
  }

  /** A string of digits parses to its value when that fits 32 bits, and overflows otherwise. */
  lemma ParseDigits(s: string)
    requires |s| >= 1 && AllDigits(s)
    ensures DecValue(s) <= UInt32Max ==> ParseUInt32(s) == Ok(DecValue(s))
    ensures DecValue(s) > UInt32Max ==> ParseUInt32(s) == Err(OverflowError)
  {
    assert !IsNumberWhite(s[0]) && !IsNumberWhite(s[|s| - 1]);
    assert SkipLeadingWhite(s) == s;
    assert SkipTrailingWhite(s) == s;
  }

  /** The zero-padded decimal text is a string of digits whose value is the number. */
  lemma PaddedValue(n: nat, width: nat)
    ensures var p := ZeroPad(Decimal(n), width); |p| >= 1 && AllDigits(p) && DecValue(p) == n
  {
    var d := Decimal(n);
    DecimalValue(n);
    if |d| < width {
      LeadingZerosValue(width - |d|, d);
    }
  }

  /** The zero-padded decimal text of a 32-bit number parses back to it. */
  function Pow10(k: nat): (r: nat)
    ensures r >= 1
  {
    if k == 0 then 1 else 10 * Pow10(k - 1)
  }

  /** The decimal text of n has at most k digits exactly when n is below 10^k. */
  lemma {:induction false} DecimalWidth(n: nat, k: nat)
    requires k >= 1
    ensures |Decimal(n)| <= k <==> n < Pow10(k)
    decreases n
  {
    if n >= 10 {
      assert |Decimal(n)| == |Decimal(n / 10)| + 1;
      if k == 1 {
        assert Pow10(1) == 10;
      } else {
        DecimalWidth(n / 10, k - 1);
        var p := Pow10(k - 1);
        assert Pow10(k) == 10 * p;
        assert n / 10 < p <==> n < 10 * p;
      }
    } else {
      Pow10Ten(k);
    }
  }

  lemma {:induction false} Pow10Ten(k: nat)
    requires k >= 1
    ensures Pow10(k) >= 10
  {
    if k > 1 {
      Pow10Ten(k - 1);
    }
  }

  /**
   * A number zero-padded to `width` digits is exactly `width` digits long when it is below
   * 10^width, and is longer otherwise; either way it reads back as the number.
   */
  lemma PaddedWidth(n: nat, width: nat)
    requires width >= 1
    ensures var p := ZeroPad(Decimal(n), width);
      && (|p| == width <==> n < Pow10(width))
      && AllDigits(p) && DecValue(p) == n
  {
    DecimalWidth(n, width);
    PaddedValue(n, width);
  }

  lemma PaddedRoundTrip(n: uint32, width: nat)
    ensures ParseUInt32(ZeroPad(Decimal(n), width)) == Ok(n)
  {
    PaddedValue(n, width);
    ParseDigits(ZeroPad(Decimal(n), width));
  }
}
