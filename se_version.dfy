/**
 * SeVersion: a game version "YYYY.MM.DD.RRRR.PPPP" of five unsigned 32-bit fields, its parser,
 * its text form and its ordering.
 */
module SeVersion {
  import opened Wrappers
  import opened Ints
  import opened Strings

  datatype Version = Version(year: uint32, month: uint32, day: uint32, revision: uint32, part: uint32)

  /** The five fields in order: year, month, day, revision, part. */
  function Fields(v: Version): (f: seq<int>)
    ensures |f| == 5
  {
    [v.year, v.month, v.day, v.revision, v.part]
  }

  // ---- Parse ----

  /** uint.Parse(parts[i]): an index past the pieces throws before any parsing of it. */
  function ParsePiece(parts: seq<string>, i: nat): (res: Result<uint32>)
  {
    if i >= |parts| then Err(IndexOutOfRange) else ParseUInt32(parts[i])
  }

  /** Parse: split on '.', then parse pieces 0 to 4 in turn; later pieces are ignored. */
  function Parse(input: string): Result<Version>
  {
    ParsePieces(Split(input, '.'))
  }

  /** The parse of the pieces, in the order the object initializer evaluates them. */
  function ParsePieces(parts: seq<string>): Result<Version>
  {
    Assemble(ParsePiece(parts, 0), ParsePiece(parts, 1), ParsePiece(parts, 2), ParsePiece(parts, 3), ParsePiece(parts, 4))
  }

  /** Fewer than five pieces can never give a version. */
  lemma PiecesNeedFive(parts: seq<string>)
    ensures ParsePieces(parts).Ok? ==> |parts| >= 5
  {
  }

  /** With five pieces or more, the version is the first five pieces read as numbers, if all of them are. */
  lemma PiecesRead(parts: seq<string>)
    requires |parts| >= 5
    ensures var res := ParsePieces(parts);
      && (res.Ok? <==> ParseUInt32(parts[0]).Ok? && ParseUInt32(parts[1]).Ok? && ParseUInt32(parts[2]).Ok?
                       && ParseUInt32(parts[3]).Ok? && ParseUInt32(parts[4]).Ok?)
      && (res.Ok? ==> res.value == Version(ParseUInt32(parts[0]).value, ParseUInt32(parts[1]).value,
                                           ParseUInt32(parts[2]).value, ParseUInt32(parts[3]).value,
                                           ParseUInt32(parts[4]).value))
  {
  }

  /** Too few pieces, all of them numbers: the first missing index throws IndexOutOfRange. */
  lemma PiecesTooFew(parts: seq<string>)
    requires |parts| < 5
    requires forall i :: 0 <= i < |parts| ==> ParseUInt32(parts[i]).Ok?
    ensures ParsePieces(parts) == Err(IndexOutOfRange)
  {
  }

  /** A failed parse throws IndexOutOfRange, or the number parser's FormatException or OverflowException. */
  lemma ParseErrors(input: string)
    ensures Parse(input).Err? ==> Parse(input).error in {IndexOutOfRange, FormatError, OverflowError}
  {
  }

  /** The initializer's result from the five parses: the first failure, else the version of the values. */
  function Assemble(y: Result<uint32>, m: Result<uint32>, d: Result<uint32>, rv: Result<uint32>, p: Result<uint32>): Result<Version>
  {
    var year :- y;
    var month :- m;
    var day :- d;
    var revision :- rv;
    var part :- p;
    Ok(Version(year, month, day, revision, part))
  }

  lemma AssembleReads(r: seq<Result<uint32>>)
    requires |r| == 5
    ensures var res := Assemble(r[0], r[1], r[2], r[3], r[4]);
      && (res.Ok? <==> forall i :: 0 <= i < 5 ==> r[i].Ok?)
      && (res.Ok? ==> forall i :: 0 <= i < 5 ==> Fields(res.value)[i] == r[i].value)
      && (res.Err? ==> exists i :: (0 <= i < 5 && r[i].Err? && res.error == r[i].error
                                    && forall j :: 0 <= j < i ==> r[j].Ok?))
  {
    if !(forall i :: 0 <= i < 5 ==> r[i].Ok?) {
      var i :| 0 <= i < 5 && r[i].Err? && forall j :: 0 <= j < i ==> r[j].Ok?;
    }
  }

  // ---- ToString ----

  /** The five pieces of the text form: the fields zero-padded to 4, 2, 2, 4 and 4 digits. */
  function Pieces(v: Version): seq<string>
  {
    [ZeroPad(Decimal(v.year), 4), ZeroPad(Decimal(v.month), 2), ZeroPad(Decimal(v.day), 2),
     ZeroPad(Decimal(v.revision), 4), ZeroPad(Decimal(v.part), 4)]
  }

  /** ToString: "{Year:0000}.{Month:00}.{Day:00}.{Revision:0000}.{Part:0000}". */
  function ToString(v: Version): string
  {
    var p := Pieces(v);
    p[0] + "." + p[1] + "." + p[2] + "." + p[3] + "." + p[4]
  }

  /** The text form is the five pieces joined by '.'. */
  lemma ToStringIsJoin(v: Version)
    ensures ToString(v) == Join(Pieces(v), '.')
  {
    var p := Pieces(v);
    assert Join(p[4..], '.') == p[4];
    assert Join(p[3..], '.') == p[3] + "." + p[4] by {
      assert p[3..][1..] == p[4..];
    }
    assert Join(p[2..], '.') == p[2] + "." + p[3] + "." + p[4] by {
      assert p[2..][1..] == p[3..];
    }
    assert Join(p[1..], '.') == p[1] + "." + p[2] + "." + p[3] + "." + p[4] by {
      assert p[1..][1..] == p[2..];
    }
  }

  /** A zero-padded decimal text holds no '.'. */
  lemma PaddedHasNoDot(n: nat, width: nat)
    ensures '.' !in ZeroPad(Decimal(n), width)
  {
    var d := Decimal(n);
    if |d| < width {
      LeadingZerosValue(width - |d|, d);
    }
    var p := ZeroPad(d, width);
    assert AllDigits(p);
    assert forall i :: 0 <= i < |p| ==> p[i] != '.';
  }

  /** The text form parses back to the same version. */
  lemma ParseToString(v: Version)
    ensures Parse(ToString(v)) == Ok(v)
  {
    var p := Pieces(v);
    assert Split(ToString(v), '.') == p by {
      PaddedHasNoDot(v.year, 4);
      PaddedHasNoDot(v.month, 2);
      PaddedHasNoDot(v.day, 2);
      PaddedHasNoDot(v.revision, 4);
      PaddedHasNoDot(v.part, 4);
      ToStringIsJoin(v);
      JoinSplit(p, '.');
    }
    assert ParsePieces(p) == Ok(v) by {
      PaddedRoundTrip(v.year, 4);
      PaddedRoundTrip(v.month, 2);
      PaddedRoundTrip(v.day, 2);
      PaddedRoundTrip(v.revision, 4);
      PaddedRoundTrip(v.part, 4);
    }
  }

  /**
   * Every field is at least as wide as its padding, so the text is at least 20 characters long,
   * and it is exactly 20 characters long when every field fits its padding.
   */
  lemma ToStringLength(v: Version)
    ensures |ToString(v)| >= 20
    ensures |ToString(v)| == 20 <==> v.year < 10000 && v.month < 100 && v.day < 100 && v.revision < 10000 && v.part < 10000
  {
    assert Pow10(2) == 100 && Pow10(4) == 10000;
    PaddedWidth(v.year, 4);
    PaddedWidth(v.month, 2);
    PaddedWidth(v.day, 2);
    PaddedWidth(v.revision, 4);
    PaddedWidth(v.part, 4);
  }

  // ---- CompareTo and the operators ----

  /** CompareTo(obj): 1 for null (or anything that is not a version), else field by field. */
  function CompareTo(x: Version, obj: Option<Version>): (c: int)
    ensures c in {-1, 0, 1}
  {
    match obj
    case None => 1
    case Some(other) =>
      if x.year > other.year then 1
      else if x.year < other.year then -1
      else if x.month > other.month then 1
      else if x.month < other.month then -1
      else if x.day > other.day then 1
      else if x.day < other.day then -1
      else if x.revision > other.revision then 1
      else if x.revision < other.revision then -1
      else if x.part > other.part then 1
      else if x.part < other.part then -1
      else 0
  }

  /** Lexicographic comparison of two sequences of numbers of the same length: the sign at the first difference. */
  function LexCompare(a: seq<int>, b: seq<int>): int
    requires |a| == |b|
  {
    if |a| == 0 then 0
    else if a[0] > b[0] then 1
    else if a[0] < b[0] then -1
    else LexCompare(a[1..], b[1..])
  }

  lemma {:induction false} LexZeroIffEqual(a: seq<int>, b: seq<int>)
    requires |a| == |b|
    ensures LexCompare(a, b) == 0 <==> a == b
    ensures LexCompare(a, b) in {-1, 0, 1}
  {
    if |a| > 0 {
      LexZeroIffEqual(a[1..], b[1..]);
      if a[0] == b[0] && a[1..] == b[1..] {
        assert a == [a[0]] + a[1..] && b == [b[0]] + b[1..];
      }
    }
  }

  lemma {:induction false} LexAntisymmetric(a: seq<int>, b: seq<int>)
    requires |a| == |b|
    ensures LexCompare(a, b) == -LexCompare(b, a)
  {
    if |a| > 0 && a[0] == b[0] {
      LexAntisymmetric(a[1..], b[1..]);
    }
  }

  lemma {:induction false} LexTransitive(a: seq<int>, b: seq<int>, c: seq<int>)
    requires |a| == |b| == |c|
    requires LexCompare(a, b) < 0 && LexCompare(b, c) < 0
    ensures LexCompare(a, c) < 0
  {
    if a[0] == b[0] && b[0] == c[0] {
      LexTransitive(a[1..], b[1..], c[1..]);
    }
  }

  lemma LexCons(h: int, a: seq<int>, k: int, b: seq<int>)
    requires |a| == |b|
    ensures LexCompare([h] + a, [k] + b) == if h > k then 1 else if h < k then -1 else LexCompare(a, b)
  {
    assert ([h] + a)[1..] == a && ([k] + b)[1..] == b;
  }

  /** CompareTo against a version is the lexicographic comparison of the five fields. */
  lemma CompareIsLex(x: Version, y: Version)
    ensures CompareTo(x, Some(y)) == LexCompare(Fields(x), Fields(y))
  {
    LexCons(x.part, [], y.part, []);
    LexCons(x.revision, [x.part], y.revision, [y.part]);
    LexCons(x.day, [x.revision, x.part], y.day, [y.revision, y.part]);
    LexCons(x.month, [x.day, x.revision, x.part], y.month, [y.day, y.revision, y.part]);
    LexCons(x.year, [x.month, x.day, x.revision, x.part], y.year, [y.month, y.day, y.revision, y.part]);
    assert Fields(x) == [x.year] + [x.month, x.day, x.revision, x.part];
    assert Fields(y) == [y.year] + [y.month, y.day, y.revision, y.part];
    assert [x.month] + [x.day, x.revision, x.part] == [x.month, x.day, x.revision, x.part];
    assert [y.month] + [y.day, y.revision, y.part] == [y.month, y.day, y.revision, y.part];
    assert [x.day] + [x.revision, x.part] == [x.day, x.revision, x.part];
    assert [y.day] + [y.revision, y.part] == [y.day, y.revision, y.part];
    assert [x.revision] + [x.part] == [x.revision, x.part];
    assert [y.revision] + [y.part] == [y.revision, y.part];
    assert [x.part] + [] == [x.part] && [y.part] + [] == [y.part];
  }

  /**
   * The order CompareTo gives: 0 only for equal versions, the opposite sign with the arguments
   * swapped, and transitive; null compares below every version.
   */
  lemma CompareOrder(x: Version, y: Version, z: Version)
    ensures CompareTo(x, None) == 1
    ensures CompareTo(x, Some(y)) == 0 <==> x == y
    ensures CompareTo(x, Some(y)) == -CompareTo(y, Some(x))
    ensures CompareTo(x, Some(y)) < 0 && CompareTo(y, Some(z)) < 0 ==> CompareTo(x, Some(z)) < 0
  {
    CompareIsLex(x, y);
    CompareIsLex(y, x);
    CompareIsLex(y, z);
    CompareIsLex(x, z);
    LexZeroIffEqual(Fields(x), Fields(y));
    LexAntisymmetric(Fields(x), Fields(y));
    if CompareTo(x, Some(y)) < 0 && CompareTo(y, Some(z)) < 0 {
      LexTransitive(Fields(x), Fields(y), Fields(z));
    }
    if Fields(x) == Fields(y) {
      assert x.year == y.year && x.month == y.month && x.day == y.day;
      assert x.revision == y.revision && x.part == y.part;
    }
  }

  /** operator <: CompareTo is negative. */
  predicate Less(x: Version, y: Option<Version>) { CompareTo(x, y) < 0 }

  /** operator >: CompareTo is positive. */
  predicate Greater(x: Version, y: Option<Version>) { CompareTo(x, y) > 0 }

  /** operator <=: CompareTo is not positive. */
  predicate LessOrEqual(x: Version, y: Option<Version>) { CompareTo(x, y) <= 0 }

  /** operator >=: CompareTo is not negative. */
  predicate GreaterOrEqual(x: Version, y: Option<Version>) { CompareTo(x, y) >= 0 }

  /**
   * The operators agree with the lexicographic order of the fields: < and > are the strict
   * orders, <= and >= their reflexive closures, and x < y exactly when y > x.
   */
  lemma OperatorsAgree(x: Version, y: Version)
    ensures Less(x, Some(y)) <==> LexCompare(Fields(x), Fields(y)) < 0
    ensures Greater(x, Some(y)) <==> LexCompare(Fields(x), Fields(y)) > 0
    ensures LessOrEqual(x, Some(y)) <==> Less(x, Some(y)) || x == y
    ensures GreaterOrEqual(x, Some(y)) <==> Greater(x, Some(y)) || x == y
    ensures Less(x, Some(y)) <==> Greater(y, Some(x))
    ensures LessOrEqual(x, Some(y)) <==> !Greater(x, Some(y))
    ensures !Less(x, None) && Greater(x, None) && !LessOrEqual(x, None) && GreaterOrEqual(x, None)
  {
    CompareIsLex(x, y);
    CompareOrder(x, y, y);
  }
}
