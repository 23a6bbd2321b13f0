/**
 * The older partial-file part list: the same sorted list of parts tiling a target file, over a
 * plain struct whose fields are C# `long`, `int` and `short`. Its casts are unchecked, so nothing
 * throws except an index out of range, and a split always shifts the decoded-source offset of
 * the second half, whatever kind of part it is.
 */
module PartialFile {
  import opened Wrappers
  import opened Ints

  // ---- The part struct ----

  const SourceIndexZeros: int := -1
  const SourceIndexEmptyBlock: int := -2
  const SourceIndexUnavailable: int := -3

  datatype Part = Part(
    targetOffset: int64,
    sourceOffset: int64,
    targetSize: int32,
    sourceSize: int32,
    targetIndex: int16,
    sourceIndex: int16,
    splitDecodedSourceFrom: int32,
    crc32: uint32,
    flags: int32)

  /** A struct with every field at its default 0. */
  const Default := Part(0, 0, 0, 0, 0, 0, 0, 0, 0)

  /** Where the part ends, exactly. */
  function End(p: Part): int { p.targetOffset + p.targetSize }

  /** TargetEnd is a `long` sum, so it wraps for a part ending beyond 2^63 - 1. */
  function TargetEnd(p: Part): (r: int64)
    ensures Int64Min <= End(p) <= Int64Max ==> r == End(p)
  {
    WrapInt64(p.targetOffset + p.targetSize)
  }

  /** Bit 0 of Flags. */
  predicate SourceIsDeflated(p: Part) { p.flags % 2 != 0 }

  /** Bit 1 of Flags. */
  predicate Crc32Available(p: Part) { p.flags / 2 % 2 != 0 }

  predicate IsAllZeros(p: Part) { p.sourceIndex == SourceIndexZeros }

  /** The Flags a new struct gets from its SourceIsDeflated setter alone: every other bit is 0. */
  function DeflatedFlags(deflated: bool): (r: int32)
    ensures (r % 2 != 0) == deflated && r / 2 % 2 == 0
  {
    if deflated then 1 else 0
  }

  /** CompareTo subtracts the offsets as `long`s and returns the sign of the difference. */
  function CompareTo(a: Part, b: Part): (r: int)
    ensures r == -1 || r == 0 || r == 1
    ensures Int64Min <= a.targetOffset - b.targetOffset <= Int64Max ==>
      (r < 0 <==> a.targetOffset < b.targetOffset) && (r == 0 <==> a.targetOffset == b.targetOffset)
  {
    var x := WrapInt64(a.targetOffset - b.targetOffset);
    if x < 0 then -1 else if x > 0 then 1 else 0
  }

  /**
   * When the difference of the offsets does not fit a `long`, it wraps and CompareTo reverses
   * the order; offsets Int64Max and -1 are such a pair.
   */
  lemma CompareToWraps(a: Part, b: Part)
    ensures var d := a.targetOffset - b.targetOffset;
      && (d > Int64Max ==> a.targetOffset > b.targetOffset && CompareTo(a, b) == -1)
      && (d < Int64Min ==> a.targetOffset < b.targetOffset && CompareTo(a, b) == 1)
    ensures var d := a.targetOffset - b.targetOffset;
      CompareTo(a, b) == (if d < 0 then -1 else if d > 0 then 1 else 0) <==> Int64Min <= d <= Int64Max
  {
  }

  // ---- The list invariant ----

  /** The decoded-source offset of every byte of the part fits an `int`. */
  predicate Fits(p: Part)
  {
    p.splitDecodedSourceFrom + p.targetSize <= Int32Max
  }

  /**
   * The parts tile [from, end) in order, each at least one byte long, none ending beyond the
   * `long` range and each with decoded-source offsets that fit an `int`.
   */
  predicate Chain(s: seq<Part>, from: int)
  {
    s == [] ||
    (&& s[0].targetOffset == from && s[0].targetSize > 0
     && End(s[0]) <= Int64Max && Fits(s[0])
     && Chain(s[1..], End(s[0])))
  }

  predicate Tiled(s: seq<Part>) { Chain(s, 0) }

  function EndOf(s: seq<Part>, from: int): int
  {
    if |s| > 0 then End(s[|s| - 1]) else from
  }

  /** The end of the last part, or 0 for an empty list. */
  function FileSize(s: seq<Part>): int
  {
    if |s| > 0 then End(s[|s| - 1]) else 0
  }

  predicate Sorted(s: seq<Part>)
  {
    forall i, j :: 0 <= i < j < |s| ==> s[i].targetOffset < s[j].targetOffset
  }

  function Starts(s: seq<Part>): set<int>
  {
    if s == [] then {} else {s[0].targetOffset as int} + Starts(s[1..])
  }

  predicate IsBoundary(s: seq<Part>, x: int)
  {
    x in Starts(s) || x == FileSize(s)
  }

  // ---- What each byte of the file is made of ----

  /** A zero byte, or byte `at` of the decoded data of a source range. */
  datatype Origin =
    | Zero
    | FromSource(source: int, sourceOffset: int, sourceSize: int, deflated: bool, at: int)

  function OriginAt(p: Part, x: int): Origin
  {
    if IsAllZeros(p) then Zero
    else FromSource(p.sourceIndex, p.sourceOffset, p.sourceSize, SourceIsDeflated(p),
                    p.splitDecodedSourceFrom + (x - p.targetOffset))
  }

  function ByteAt(s: seq<Part>, x: int): Option<Origin>
  {
    if s == [] then None
    else if s[0].targetOffset <= x < End(s[0]) then Some(OriginAt(s[0], x))
    else ByteAt(s[1..], x)
  }

  // ---- Lemmas about chains ----

  lemma {:induction false} ChainConcat(a: seq<Part>, b: seq<Part>, from: int)
    ensures Chain(a + b, from) <==> Chain(a, from) && Chain(b, EndOf(a, from))
    decreases |a|
  {
    if a != [] {
      assert (a + b)[0] == a[0] && (a + b)[1..] == a[1..] + b;
      assert EndOf(a, from) == EndOf(a[1..], End(a[0]));
      ChainConcat(a[1..], b, End(a[0]));
    } else {
      assert a + b == b;
    }
  }

  lemma {:induction false} ByteAtConcat(a: seq<Part>, b: seq<Part>, x: int)
    ensures ByteAt(a + b, x) == if ByteAt(a, x).Some? then ByteAt(a, x) else ByteAt(b, x)
    decreases |a|
  {
    if a != [] {
      assert (a + b)[0] == a[0] && (a + b)[1..] == a[1..] + b;
      ByteAtConcat(a[1..], b, x);
    } else {
      assert a + b == b;
    }
  }

  lemma {:induction false} StartsConcat(a: seq<Part>, b: seq<Part>)
    ensures Starts(a + b) == Starts(a) + Starts(b)
    decreases |a|
  {
    if a != [] {
      assert (a + b)[0] == a[0] && (a + b)[1..] == a[1..] + b;
      StartsConcat(a[1..], b);
    } else {
      assert a + b == b;
    }
  }

  /** The bytes of a chain are defined exactly on the range it tiles. */
  lemma {:induction false} ByteAtDefined(s: seq<Part>, from: int, x: int)
    requires Chain(s, from)
    ensures from <= EndOf(s, from)
    ensures ByteAt(s, x).Some? <==> from <= x < EndOf(s, from)
    decreases |s|
  {
    if s != [] {
      ByteAtDefined(s[1..], End(s[0]), x);
      assert EndOf(s, from) == EndOf(s[1..], End(s[0]));
    }
  }

  /** A chain is sorted, lies within [from, end), and covers exactly that range. */
  lemma {:induction false} ChainFacts(s: seq<Part>, from: int)
    requires Chain(s, from)
    ensures Sorted(s)
    ensures forall i :: 0 <= i < |s| ==> from <= s[i].targetOffset && End(s[i]) <= EndOf(s, from)
    ensures forall i :: 0 <= i < |s| ==> s[i].targetSize > 0 && End(s[i]) <= Int64Max && Fits(s[i])
    ensures from <= EndOf(s, from)
    ensures forall x :: ByteAt(s, x).Some? <==> from <= x < EndOf(s, from)
    ensures forall y :: y in Starts(s) ==> from <= y < EndOf(s, from)
    decreases |s|
  {
    if s != [] {
      var t := s[1..];
      ChainFacts(t, End(s[0]));
      assert EndOf(s, from) == EndOf(t, End(s[0]));
      forall i, j | 0 <= i < j < |s| ensures s[i].targetOffset < s[j].targetOffset {
        if i > 0 { assert s[i] == t[i - 1] && s[j] == t[j - 1]; } else { assert s[j] == t[j - 1]; }
      }
      forall i | 0 <= i < |s| ensures from <= s[i].targetOffset && End(s[i]) <= EndOf(s, from) {
        if i > 0 { assert s[i] == t[i - 1]; }
      }
      forall i | 0 <= i < |s| ensures s[i].targetSize > 0 && End(s[i]) <= Int64Max && Fits(s[i]) {
        if i > 0 { assert s[i] == t[i - 1]; }
      }
    }
  }

  /** One part of a tiled list, with the facts the invariant gives about it. */
  lemma PartFacts(s: seq<Part>, j: nat)
    requires Tiled(s) && j < |s|
    ensures 0 <= s[j].targetOffset && 0 < s[j].targetSize && End(s[j]) <= Int64Max && Fits(s[j])
    ensures End(s[j]) <= FileSize(s)
  {
    ChainFacts(s, 0);
  }

  /** Exactly the offsets below FileSize have an origin. */
  lemma Covers(s: seq<Part>)
    requires Tiled(s)
    ensures forall x :: ByteAt(s, x).Some? <==> 0 <= x < FileSize(s)
  {
    ChainFacts(s, 0);
  }

  lemma {:induction false} StartsIndex(s: seq<Part>, y: int) returns (k: nat)
    requires y in Starts(s)
    ensures k < |s| && s[k].targetOffset == y
    decreases |s|
  {
    if s[0].targetOffset == y {
      k := 0;
    } else {
      var k' := StartsIndex(s[1..], y);
      k := k' + 1;
    }
  }

  lemma {:induction false} StartsMember(s: seq<Part>, k: nat)
    requires k < |s|
    ensures s[k].targetOffset as int in Starts(s)
    decreases k
  {
    if k > 0 {
      StartsMember(s[1..], k - 1);
    }
  }

  lemma ChainAround(s: seq<Part>, j: nat, from: int)
    requires Chain(s, from) && j < |s|
    ensures Chain(s[..j], from) && EndOf(s[..j], from) == s[j].targetOffset
    ensures Chain(s[j + 1..], End(s[j]))
  {
    assert s == s[..j] + ([s[j]] + s[j + 1..]);
    ChainConcat(s[..j], [s[j]] + s[j + 1..], from);
    assert ([s[j]] + s[j + 1..])[1..] == s[j + 1..];
  }

  // ---- Binary search ----

  function LowerBound(s: seq<Part>, x: int): (k: nat)
    ensures k <= |s|
    ensures forall j :: 0 <= j < k ==> s[j].targetOffset < x
    ensures k < |s| ==> s[k].targetOffset >= x
  {
    if s == [] then 0
    else if s[0].targetOffset >= x then 0
    else 1 + LowerBound(s[1..], x)
  }

  lemma LowerBoundUnique(s: seq<Part>, x: int, k: nat)
    requires k <= |s|
    requires forall j :: 0 <= j < k ==> s[j].targetOffset < x
    requires k < |s| ==> s[k].targetOffset >= x
    ensures LowerBound(s, x) == k
  {
  }

  /** The exact search: the index of a part starting at `x`, else the complement of its insertion point. */
  function ExactSearch(s: seq<Part>, x: int): (r: int)
    ensures r >= 0 ==> r < |s| && s[r].targetOffset == x
    ensures r < 0 ==> -r - 1 <= |s|
  {
    var k := LowerBound(s, x);
    if k < |s| && s[k].targetOffset == x then k else -(k as int) - 1
  }

  /**
   * List.BinarySearch over [lo, hi] with a probe at `x`: the midpoint is compared with CompareTo,
   * whose `long` difference wraps, and a miss is the complement of `lo`.
   */
  function BinarySearchFrom(s: seq<Part>, x: int64, lo: int, hi: int): (r: int)
    requires 0 <= lo <= hi + 1 <= |s|
    ensures r >= 0 ==> r < |s| && s[r].targetOffset == x
    ensures r < 0 ==> -r - 1 <= |s|
    decreases hi - lo + 1
  {
    if lo > hi then -lo - 1
    else
      var i := lo + (hi - lo) / 2;
      var order := CompareTo(s[i], Default.(targetOffset := x));
      if order == 0 then i
      else if order < 0 then BinarySearchFrom(s, x, i + 1, hi)
      else BinarySearchFrom(s, x, lo, i - 1)
  }

  /** BinarySearchByTargetOffset: List.BinarySearch of the whole list with a probe at `x`. */
  function SearchResult(s: seq<Part>, x: int64): (r: int)
    ensures r >= 0 ==> r < |s| && s[r].targetOffset == x
    ensures r < 0 ==> -r - 1 <= |s|
  {
    BinarySearchFrom(s, x, 0, |s| - 1)
  }

  /** No part's offset differs from `x` by more than a `long` holds. */
  predicate NoWrap(s: seq<Part>, x: int)
  {
    forall j :: 0 <= j < |s| ==> Int64Min <= s[j].targetOffset - x <= Int64Max
  }

  lemma {:induction false} BinarySearchExact(s: seq<Part>, x: int64, lo: int, hi: int)
    requires 0 <= lo <= hi + 1 <= |s| && Sorted(s) && NoWrap(s, x)
    requires forall j :: 0 <= j < lo ==> s[j].targetOffset < x
    requires forall j :: hi < j < |s| ==> s[j].targetOffset > x
    ensures BinarySearchFrom(s, x, lo, hi) == ExactSearch(s, x)
    decreases hi - lo + 1
  {
    if lo > hi {
      LowerBoundUnique(s, x, lo);
    } else {
      var i := lo + (hi - lo) / 2;
      var order := CompareTo(s[i], Default.(targetOffset := x));
      if order == 0 {
        LowerBoundUnique(s, x, i);
      } else if order < 0 {
        BinarySearchExact(s, x, i + 1, hi);
      } else {
        BinarySearchExact(s, x, lo, i - 1);
      }
    }
  }

  /** Where no difference wraps, the binary search over CompareTo is the exact search. */
  lemma SearchExact(s: seq<Part>, x: int64)
    requires Sorted(s) && NoWrap(s, x)
    ensures SearchResult(s, x) == ExactSearch(s, x)
  {
    BinarySearchExact(s, x, 0, |s| - 1);
  }

  /** On a tiled list no difference wraps for an offset at least FileSize - 2^63, so in particular for every non-negative one. */
  lemma TiledNoWrap(s: seq<Part>, x: int64)
    requires Tiled(s) && x >= FileSize(s) - 0x8000_0000_0000_0000
    ensures Sorted(s) && NoWrap(s, x)
    ensures SearchResult(s, x) == ExactSearch(s, x)
  {
    ChainFacts(s, 0);
    forall j | 0 <= j < |s|
      ensures Int64Min <= s[j].targetOffset - x <= Int64Max
    {
      assert 0 <= s[j].targetOffset < End(s[j]) <= FileSize(s);
    }
    SearchExact(s, x);
  }

  /** On a sorted list where no difference wraps, the search hits exactly when a part starts at `x`. */
  lemma SearchFinds(s: seq<Part>, x: int64)
    requires Sorted(s) && NoWrap(s, x)
    ensures SearchResult(s, x) >= 0 <==> x as int in Starts(s)
  {
    SearchExact(s, x);
    ExactFinds(s, x);
  }

  /** The starts {Int64Min, Int64Max} differ by more than a `long` holds: the search for Int64Max misses. */
  lemma SearchMissesAcrossWrap()
    ensures var s := [Default.(targetOffset := Int64Min), Default.(targetOffset := Int64Max)];
      Sorted(s) && Int64Max in Starts(s) && SearchResult(s, Int64Max) == -1
  {
    var s := [Default.(targetOffset := Int64Min), Default.(targetOffset := Int64Max)];
    StartsMember(s, 1);
  }

  lemma ExactFinds(s: seq<Part>, x: int)
    requires Sorted(s)
    ensures ExactSearch(s, x) >= 0 <==> x in Starts(s)
  {
    if x in Starts(s) {
      var k := StartsIndex(s, x);
      LowerBoundUnique(s, x, k);
    } else {
      var k := LowerBound(s, x);
      if k < |s| && s[k].targetOffset == x {
        StartsMember(s, k);
      }
    }
  }

  function Complement(i: int): (r: nat)
    ensures i < 0 ==> r == -i - 1
    ensures i >= 0 ==> r == i
  {
    if i < 0 then -i - 1 else i
  }

  // ---- SplitAt ----

  datatype Outcome = Outcome(parts: seq<Part>, failure: Option<Error>)

  /** A zeros part; the `(int)` cast of its size is unchecked. */
  function ZerosPart(from: int64, size: int): Part
  {
    Default.(targetOffset := from, targetSize := ToInt32(size), sourceIndex := SourceIndexZeros)
  }

  /**
   * The halves of a split. A `long` difference cast to `int` keeps the low 32 bits of the exact
   * difference, because 2^32 divides 2^64. TargetIndex, Crc32 and the Crc32Available flag are reset.
   */
  function FirstHalf(p: Part, offset: int64): Part
  {
    Part(p.targetOffset, p.sourceOffset, ToInt32(offset - p.targetOffset), p.sourceSize, 0,
         p.sourceIndex, p.splitDecodedSourceFrom, 0, DeflatedFlags(SourceIsDeflated(p)))
  }

  function SecondHalf(p: Part, offset: int64): Part
  {
    Part(offset, p.sourceOffset, ToInt32(TargetEnd(p) - offset), p.sourceSize, 0,
         p.sourceIndex, ToInt32(p.splitDecodedSourceFrom + offset - p.targetOffset), 0,
         DeflatedFlags(SourceIsDeflated(p)))
  }

  /** SplitAt as a function of the list. The only exception is the index -1 read when the offset lies before the first part. */
  function SplitSpec(s: seq<Part>, offset: int64): Outcome
  {
    var found := SearchResult(s, offset);
    if found >= 0 then Outcome(s, None)
    else
      var i := -found - 1;
      if i == 0 && offset == 0 then Outcome(s, None)
      else if i == 0 && |s| == 0 then Outcome(s + [ZerosPart(0, offset)], None)
      else if i == |s| && TargetEnd(s[i - 1]) == offset then Outcome(s, None)
      else if i == |s| && TargetEnd(s[i - 1]) < offset then
        Outcome(s + [ZerosPart(TargetEnd(s[i - 1]), offset - TargetEnd(s[i - 1]))], None)
      else if i == 0 then Outcome(s, Some(ArgumentOutOfRange))
      else
        var j := i - 1;
        var s1 := s[j := FirstHalf(s[j], offset)];
        Outcome(s1[..j + 1] + [SecondHalf(s[j], offset)] + s1[j + 1..], None)
  }

  /** What SplitAt guarantees about the list `r` it leaves. */
  ghost predicate SplitPost(s: seq<Part>, offset: int, r: seq<Part>)
  {
    && Tiled(r)
    && FileSize(r) == Max(FileSize(s), offset)
    && IsBoundary(r, offset)
    && (forall y :: IsBoundary(s, y) ==> IsBoundary(r, y))
    && (forall x :: ByteAt(r, x) == if x < FileSize(s) then ByteAt(s, x) else if x < offset then Some(Zero) else None)
  }

  lemma SplitPostNoOp(s: seq<Part>, offset: int)
    requires Tiled(s) && IsBoundary(s, offset)
    ensures SplitPost(s, offset, s)
  {
    ChainFacts(s, 0);
  }

  lemma SplitPostAppend(s: seq<Part>, offset: int, z: Part)
    requires Tiled(s)
    requires IsAllZeros(z) && z.targetOffset == FileSize(s) && z.targetSize > 0 && Fits(z)
    requires z.targetOffset + z.targetSize == offset <= Int64Max
    ensures SplitPost(s, offset, s + [z])
  {
    ChainFacts(s, 0);
    ChainConcat(s, [z], 0);
    assert Chain([z], z.targetOffset) by { assert [z][1..] == []; }
    forall x ensures ByteAt(s + [z], x) == if x < FileSize(s) then ByteAt(s, x) else if x < offset then Some(Zero) else None {
      ByteAtConcat(s, [z], x);
      assert [z][1..] == [];
    }
    StartsConcat(s, [z]);
    assert [z][1..] == [];
  }

  /** The two halves of an interior split tile the part and give every byte the origin it had. */
  lemma HalvesReplacePart(p: Part, offset: int64)
    requires p.targetOffset < offset < End(p) && p.targetOffset + p.targetSize <= Int64Max && Fits(p)
    ensures var a, b := FirstHalf(p, offset), SecondHalf(p, offset);
      && Chain([a, b], p.targetOffset) && EndOf([a, b], p.targetOffset) == End(p)
      && (forall x :: ByteAt([a, b], x) == ByteAt([p], x))
      && Starts([a, b]) == {p.targetOffset as int, offset as int}
  {
    var a, b := FirstHalf(p, offset), SecondHalf(p, offset);
    assert a.targetSize == offset - p.targetOffset;
    assert b.targetSize == End(p) - offset;
    assert b.splitDecodedSourceFrom == p.splitDecodedSourceFrom + offset - p.targetOffset;
    assert [a, b][1..] == [b] && [b][1..] == [];
    assert [p][1..] == [];
    assert Starts([b]) == {offset as int};
    forall x ensures ByteAt([a, b], x) == ByteAt([p], x) {
      if p.targetOffset <= x < offset {
        assert OriginAt(a, x) == OriginAt(p, x);
      } else if offset <= x < End(p) {
        assert OriginAt(b, x) == OriginAt(p, x);
      }
    }
  }

  lemma {:induction false} ReplacePart(s: seq<Part>, j: nat, m: seq<Part>)
    requires Tiled(s) && j < |s| && m != []
    requires Chain(m, s[j].targetOffset) && EndOf(m, s[j].targetOffset) == End(s[j])
    requires forall x :: ByteAt(m, x) == ByteAt([s[j]], x)
    ensures var r := s[..j] + m + s[j + 1..];
      && Tiled(r) && FileSize(r) == FileSize(s)
      && (forall x :: ByteAt(r, x) == ByteAt(s, x))
  {
    var pre, post := s[..j], s[j + 1..];
    var r := pre + m + post;
    assert s == pre + [s[j]] + post;
    ChainAround(s, j, 0);
    ChainConcat(pre, m, 0);
    ChainConcat(pre + m, post, 0);
    assert EndOf(pre + m, 0) == End(s[j]) by {
      ChainFacts(m, s[j].targetOffset);
    }
    assert FileSize(r) == FileSize(s) by {
      if post == [] { assert r[|r| - 1] == m[|m| - 1]; } else { assert r[|r| - 1] == s[|s| - 1]; }
    }
    forall x ensures ByteAt(r, x) == ByteAt(s, x) {
      ByteAtConcat(pre, m, x);
      ByteAtConcat(pre + m, post, x);
      ByteAtConcat(pre, [s[j]], x);
      ByteAtConcat(pre + [s[j]], post, x);
    }
  }

  lemma SplitPostInterior(s: seq<Part>, j: nat, offset: int64)
    requires Tiled(s) && j < |s|
    requires s[j].targetOffset < offset < End(s[j])
    ensures SplitPost(s, offset, s[..j] + [FirstHalf(s[j], offset), SecondHalf(s[j], offset)] + s[j + 1..])
  {
    var p := s[j];
    var a, b := FirstHalf(p, offset), SecondHalf(p, offset);
    PartFacts(s, j);
    Covers(s);
    HalvesReplacePart(p, offset);
    ReplacePart(s, j, [a, b]);
    StartsConcat(s[..j], [a, b]);
    StartsConcat(s[..j] + [a, b], s[j + 1..]);
    StartsConcat(s[..j], [p]);
    StartsConcat(s[..j] + [p], s[j + 1..]);
    assert s == s[..j] + [p] + s[j + 1..];
    assert [p][1..] == [];
  }

  lemma InteriorOffset(s: seq<Part>, offset: int)
    requires Tiled(s) && offset !in Starts(s)
    requires var i := LowerBound(s, offset); 0 < i && (i < |s| || End(s[i - 1]) > offset)
    ensures var j := LowerBound(s, offset) - 1; s[j].targetOffset < offset < End(s[j])
  {
    var i := LowerBound(s, offset);
    if i < |s| {
      ChainAround(s, i - 1, 0);
      assert s[i].targetOffset == End(s[i - 1]) by { assert s[i..][0] == s[i]; }
      StartsMember(s, i);
    }
  }

  lemma SplitInteriorKeepsBytes(s: seq<Part>, offset: int64)
    requires Tiled(s) && ExactSearch(s, offset) < 0
    requires var i := LowerBound(s, offset); 0 < i && (i < |s| || End(s[i - 1]) > offset)
    ensures var r := SplitSpec(s, offset); r.failure.None? && SplitPost(s, offset, r.parts)
  {
    var j := LowerBound(s, offset) - 1;
    var r := s[..j] + [FirstHalf(s[j], offset), SecondHalf(s[j], offset)] + s[j + 1..];
    assert SplitPost(s, offset, r) by {
      assert Sorted(s) by { ChainFacts(s, 0); }
      ExactFinds(s, offset);
      InteriorOffset(s, offset);
      SplitPostInterior(s, j, offset);
    }
    SplitSpecInterior(s, offset);
  }

  lemma SplitAppendKeepsBytes(s: seq<Part>, offset: int64)
    requires Tiled(s) && FileSize(s) < offset <= FileSize(s) + Int32Max
    requires LowerBound(s, offset) == |s| && ExactSearch(s, offset) < 0
    ensures var r := SplitSpec(s, offset); r.failure.None? && SplitPost(s, offset, r.parts)
  {
    TiledNoWrap(s, offset);
    var z := ZerosPart(FileSize(s), offset - FileSize(s));
    assert z.targetSize == offset - FileSize(s);
    SplitPostAppend(s, offset, z);
  }

  /**
   * On a tiled list SplitAt at a non-negative offset never throws: it keeps the list tiled, makes
   * the offset a boundary, keeps every old boundary and byte, and fills growth with zeros, as
   * long as the growth fits the `int` size of one part.
   */
  lemma SplitKeepsBytes(s: seq<Part>, offset: int64)
    requires Tiled(s) && 0 <= offset <= FileSize(s) + Int32Max
    ensures var r := SplitSpec(s, offset); r.failure.None? && SplitPost(s, offset, r.parts)
  {
    ChainFacts(s, 0);
    TiledNoWrap(s, offset);
    ExactFinds(s, offset);
    var i := LowerBound(s, offset);
    if ExactSearch(s, offset) >= 0 || offset == FileSize(s) {
      if ExactSearch(s, offset) < 0 { LowerBoundAtEnd(s, offset); }
      SplitPostNoOp(s, offset);
    } else if offset > FileSize(s) {
      assert i == |s|;
      SplitAppendKeepsBytes(s, offset);
    } else {
      SplitInteriorKeepsBytes(s, offset);
    }
  }

  /**
   * On a tiled list SplitAt throws exactly when the offset is negative and the list is not empty,
   * for every offset whose difference from the parts' offsets fits a `long`: every non-negative
   * one, and the negative ones down to FileSize - 2^63.
   */
  lemma SplitFailures(s: seq<Part>, offset: int64)
    requires Tiled(s) && offset >= FileSize(s) - 0x8000_0000_0000_0000
    ensures SplitSpec(s, offset).failure.Some? <==> offset < 0 && |s| > 0
  {
    ChainFacts(s, 0);
    TiledNoWrap(s, offset);
    if offset < 0 && |s| > 0 {
      assert LowerBound(s, offset) == 0;
    }
  }

  // ---- The branches of SplitAt, one by one ----

  /**
   * Below FileSize - 2^63 the difference wraps: on the one-byte file, Int64Min compares above
   * the part at 0, lands past it, and the part is cut in two instead of the split throwing.
   */
  lemma SplitBelowWrapSplits()
    ensures var s := [ZerosPart(0, 1)];
      Tiled(s) && SearchResult(s, Int64Min) == -2
      && SplitSpec(s, Int64Min).failure.None? && |SplitSpec(s, Int64Min).parts| == 2
  {
    var s := [ZerosPart(0, 1)];
    assert s[1..] == [];
  }

  /** An offset at which a part already starts is left alone, when no difference from it wraps. */
  lemma SplitAtStartIsNoOp(s: seq<Part>, offset: int64)
    requires Sorted(s) && NoWrap(s, offset) && offset as int in Starts(s)
    ensures SplitSpec(s, offset) == Outcome(s, None)
  {
    SearchFinds(s, offset);
  }

  /** On the sorted starts {Int64Min, Int64Max} the search for Int64Max misses, and SplitAt reads index -1. */
  lemma SplitAtStartAcrossWrapThrows()
    ensures var s := [Default.(targetOffset := Int64Min), Default.(targetOffset := Int64Max)];
      Sorted(s) && Int64Max in Starts(s) && SplitSpec(s, Int64Max) == Outcome(s, Some(ArgumentOutOfRange))
  {
    SearchMissesAcrossWrap();
  }

  /** Growing the file, from an empty list or past the last part: one zeros part fills the gap from the old end. */
  lemma SplitGrows(s: seq<Part>, offset: int64)
    requires Tiled(s) && FileSize(s) < offset <= FileSize(s) + Int32Max
    ensures var r := SplitSpec(s, offset);
      && r.failure.None? && |r.parts| == |s| + 1 && r.parts[..|s|] == s
      && var z := r.parts[|s|];
        && z.targetOffset == FileSize(s) && z.targetSize == offset - FileSize(s) && IsAllZeros(z)
        && z.sourceOffset == 0 && z.splitDecodedSourceFrom == 0 && z.flags == 0
  {
    ChainFacts(s, 0);
    TiledNoWrap(s, offset);
    LowerBoundAtEnd(s, offset);
    var r := SplitSpec(s, offset);
    assert r.parts[..|s|] == s;
  }

  /**
   * The halves of a part cut strictly inside: the first keeps the start, the second starts at the
   * offset, their sizes add up to the old size, and the second half's decoded-source offset moves
   * forward by the length of the first. Both keep the source, its offset and size and the
   * deflated flag; the target index, CRC-32 and its flag are reset.
   */
  lemma HalvesShape(p: Part, offset: int64)
    requires p.targetOffset < offset < End(p) && End(p) <= Int64Max && Fits(p)
    ensures var a, b := FirstHalf(p, offset), SecondHalf(p, offset);
      && a.targetOffset == p.targetOffset && b.targetOffset == offset
      && a.targetSize + b.targetSize == p.targetSize
      && a.splitDecodedSourceFrom == p.splitDecodedSourceFrom
      && b.splitDecodedSourceFrom == p.splitDecodedSourceFrom + offset - p.targetOffset
      && a.sourceIndex == p.sourceIndex && b.sourceIndex == p.sourceIndex
      && a.sourceOffset == p.sourceOffset && b.sourceOffset == p.sourceOffset
      && a.sourceSize == p.sourceSize && b.sourceSize == p.sourceSize
      && SourceIsDeflated(a) == SourceIsDeflated(p) && SourceIsDeflated(b) == SourceIsDeflated(p)
      && a.targetIndex == 0 && b.targetIndex == 0 && !Crc32Available(a) && !Crc32Available(b)
  {
    assert TargetEnd(p) == End(p);
  }

  /** A search that lands after part `j`, not past the end of the whole file, takes the interior branch. */
  lemma SplitSpecBranch(s: seq<Part>, offset: int64, j: nat)
    requires j < |s| && SearchResult(s, offset) == -(j as int) - 2
    requires j + 1 < |s| || TargetEnd(s[j]) > offset
    ensures SplitSpec(s, offset) == Outcome(s[..j] + [FirstHalf(s[j], offset), SecondHalf(s[j], offset)] + s[j + 1..], None)
  {
    var a, b := FirstHalf(s[j], offset), SecondHalf(s[j], offset);
    var s1 := s[j := a];
    assert SplitSpec(s, offset) == Outcome(s1[..j + 1] + [b] + s1[j + 1..], None);
    assert s1[..j + 1] == s[..j] + [a] && s1[j + 1..] == s[j + 1..];
  }

  /** An offset strictly inside part `LowerBound - 1` dispatches to the interior branch. */
  lemma SplitSpecInterior(s: seq<Part>, offset: int64)
    requires Tiled(s) && ExactSearch(s, offset) < 0
    requires var i := LowerBound(s, offset); 0 < i && (i < |s| || End(s[i - 1]) > offset)
    ensures var j := LowerBound(s, offset) - 1;
      SplitSpec(s, offset) == Outcome(s[..j] + [FirstHalf(s[j], offset), SecondHalf(s[j], offset)] + s[j + 1..], None)
  {
    var j := LowerBound(s, offset) - 1;
    PartFacts(s, j);
    PartFacts(s, |s| - 1);
    TiledNoWrap(s, offset);
    assert TargetEnd(s[j]) == End(s[j]);
    SplitSpecBranch(s, offset, j);
  }

  /** An offset inside the file where no part starts replaces the part containing it by its two halves. */
  lemma SplitInteriorShape(s: seq<Part>, offset: int64)
    requires Tiled(s) && offset as int !in Starts(s) && 0 < offset < FileSize(s)
    ensures var j := LowerBound(s, offset) - 1;
      && 0 <= j < |s| && s[j].targetOffset < offset < End(s[j])
      && SplitSpec(s, offset) == Outcome(s[..j] + [FirstHalf(s[j], offset), SecondHalf(s[j], offset)] + s[j + 1..], None)
  {
    assert Sorted(s) by { ChainFacts(s, 0); }
    ExactFinds(s, offset);
    var i := LowerBound(s, offset);
    assert 0 < i && (i < |s| || End(s[i - 1]) > offset) by { ChainFacts(s, 0); }
    InteriorOffset(s, offset);
    SplitSpecInterior(s, offset);
  }

  // ---- Update ----

  /** Update as a function of the list: split at both ends of the part, then replace what lies between. */
  function UpdateSpec(s: seq<Part>, part: Part): Outcome
  {
    if part.targetSize == 0 then Outcome(s, None)
    else
      var r1 := SplitSpec(s, part.targetOffset);
      if r1.failure.Some? then r1
      else
        var r2 := SplitSpec(r1.parts, TargetEnd(part));
        if r2.failure.Some? then r2
        else
          var t := r2.parts;
          var left := Complement(SearchResult(t, part.targetOffset));
          if left == |t| then Outcome(t + [part], None)
          else
            var right := Complement(SearchResult(t, TargetEnd(part)));
            var t1 := t[left := part];
            if right - left - 1 < 0 then Outcome(t1, Some(ArgumentOutOfRange))
            else Outcome(t1[..left + 1] + t1[right..], None)
  }

  /** The parts an Update can be trusted with: non-negative, not ending beyond the `long` range. */
  predicate Insertable(s: seq<Part>, part: Part)
  {
    && 0 <= part.targetOffset <= FileSize(s) + Int32Max
    && 0 < part.targetSize && part.targetOffset + part.targetSize <= Int64Max && Fits(part)
  }

  ghost predicate UpdatePost(s: seq<Part>, part: Part, r: seq<Part>)
  {
    && Tiled(r)
    && FileSize(r) == Max(FileSize(s), End(part))
    && (forall x :: ByteAt(r, x) ==
          if part.targetOffset <= x < End(part) then Some(OriginAt(part, x))
          else if x < FileSize(s) then ByteAt(s, x)
          else if x < End(part) then Some(Zero)
          else None)
  }

  lemma LowerBoundAtEnd(s: seq<Part>, x: int)
    requires Tiled(s) && x >= FileSize(s)
    ensures LowerBound(s, x) == |s|
  {
    ChainFacts(s, 0);
    forall j | 0 <= j < |s| ensures s[j].targetOffset < x {
      StartsMember(s, j);
    }
    LowerBoundUnique(s, x, |s|);
  }

  lemma ChainThree(t: seq<Part>, left: nat, right: nat)
    requires Tiled(t) && left < right <= |t|
    ensures Chain(t[..left], 0) && EndOf(t[..left], 0) == t[left].targetOffset
    ensures Chain(t[left..right], t[left].targetOffset)
    ensures EndOf(t[left..right], t[left].targetOffset) == End(t[right - 1])
    ensures Chain(t[right..], End(t[right - 1]))
  {
    ChainAround(t, left, 0);
    ChainSuffix(t, left);
    var mid, post := t[left..right], t[right..];
    assert t[left..] == mid + post;
    ChainConcat(mid, post, t[left].targetOffset);
    assert mid[|mid| - 1] == t[right - 1];
  }

  lemma ChainSuffix(t: seq<Part>, left: nat)
    requires Tiled(t) && left < |t|
    ensures Chain(t[left..], t[left].targetOffset)
  {
    ChainAround(t, left, 0);
    assert t == t[..left] + t[left..];
    ChainConcat(t[..left], t[left..], 0);
  }

  lemma ChainInsert(pre: seq<Part>, part: Part, post: seq<Part>)
    requires Chain(pre, 0) && EndOf(pre, 0) == part.targetOffset && part.targetSize > 0
    requires part.targetOffset + part.targetSize <= Int64Max && Fits(part)
    requires Chain(post, End(part))
    ensures Chain(pre + [part] + post, 0)
  {
    assert Chain([part], part.targetOffset) by { assert [part][1..] == []; }
    ChainConcat(pre, [part], 0);
    assert EndOf(pre + [part], 0) == End(part) by { assert (pre + [part])[|pre|] == part; }
    ChainConcat(pre + [part], post, 0);
  }

  lemma ReplaceRangeBytes(pre: seq<Part>, mid: seq<Part>, post: seq<Part>, part: Part, x: int)
    requires Chain(pre, 0) && EndOf(pre, 0) == part.targetOffset
    requires Chain(mid, part.targetOffset) && EndOf(mid, part.targetOffset) == End(part)
    ensures ByteAt(pre + [part] + post, x) ==
      if part.targetOffset <= x < End(part) then Some(OriginAt(part, x)) else ByteAt(pre + mid + post, x)
  {
    ByteAtDefined(mid, part.targetOffset, x);
    ByteAtDefined(pre, 0, x);
    ByteAtConcat(pre, [part], x);
    ByteAtConcat(pre + [part], post, x);
    ByteAtConcat(pre, mid, x);
    ByteAtConcat(pre + mid, post, x);
    assert [part][1..] == [];
  }

  /** Where the replaced parts ended, the part ends too: the three chains around it still join. */
  lemma ReplaceRangeChain(t: seq<Part>, left: nat, right: nat, part: Part)
    requires Tiled(t) && left < right <= |t| && part.targetSize > 0
    requires part.targetOffset + part.targetSize <= Int64Max && Fits(part)
    requires t[left].targetOffset == part.targetOffset
    requires right < |t| ==> t[right].targetOffset == End(part)
    requires right == |t| ==> FileSize(t) == End(part)
    ensures var r := t[..left] + [part] + t[right..]; Tiled(r) && FileSize(r) == FileSize(t)
    ensures EndOf(t[left..right], part.targetOffset) == End(part)
  {
    var pre, post := t[..left], t[right..];
    var r := pre + [part] + post;
    ChainThree(t, left, right);
    assert End(t[right - 1]) == End(part) by {
      if right < |t| { assert post[0] == t[right]; }
    }
    ChainInsert(pre, part, post);
    if post == [] { assert r[|r| - 1] == part; } else { assert r[|r| - 1] == t[|t| - 1]; }
  }

  /** Replacing the parts between `left` and `right` by `part` changes exactly the bytes of the part's range. */
  lemma ReplaceRange(t: seq<Part>, left: nat, right: nat, part: Part)
    requires Tiled(t) && left < right <= |t| && part.targetSize > 0
    requires part.targetOffset + part.targetSize <= Int64Max && Fits(part)
    requires t[left].targetOffset == part.targetOffset
    requires right < |t| ==> t[right].targetOffset == End(part)
    requires right == |t| ==> FileSize(t) == End(part)
    ensures forall x ::
              ByteAt(t[..left] + [part] + t[right..], x) ==
              if part.targetOffset <= x < End(part) then Some(OriginAt(part, x)) else ByteAt(t, x)
  {
    var pre, mid, post := t[..left], t[left..right], t[right..];
    assert Chain(pre, 0) && EndOf(pre, 0) == part.targetOffset
        && Chain(mid, part.targetOffset) && EndOf(mid, part.targetOffset) == End(part) by {
      ChainThree(t, left, right);
      if right < |t| { assert post[0] == t[right]; }
    }
    assert t == pre + mid + post by {
      assert pre + mid == t[..right];
      assert t == t[..right] + post;
    }
    ReplaceRangeAllBytes(pre, mid, post, part);
  }

  lemma ReplaceRangeAllBytes(pre: seq<Part>, mid: seq<Part>, post: seq<Part>, part: Part)
    requires Chain(pre, 0) && EndOf(pre, 0) == part.targetOffset
    requires Chain(mid, part.targetOffset) && EndOf(mid, part.targetOffset) == End(part)
    ensures forall x ::
              ByteAt(pre + [part] + post, x) ==
              if part.targetOffset <= x < End(part) then Some(OriginAt(part, x)) else ByteAt(pre + mid + post, x)
  {
    forall x
      ensures ByteAt(pre + [part] + post, x) ==
              if part.targetOffset <= x < End(part) then Some(OriginAt(part, x)) else ByteAt(pre + mid + post, x)
    {
      ReplaceRangeBytes(pre, mid, post, part, x);
    }
  }

  /** The two splits of Update together: outside the part's range every byte is as before, or zero in the gap. */
  lemma ComposeSplits(s: seq<Part>, part: Part, t1: seq<Part>, t: seq<Part>)
    requires Insertable(s, part)
    requires SplitPost(s, part.targetOffset, t1) && SplitPost(t1, End(part), t)
    ensures FileSize(t) == Max(FileSize(s), End(part))
    ensures forall x :: !(part.targetOffset <= x < End(part)) ==>
      ByteAt(t, x) == if x < FileSize(s) then ByteAt(s, x) else if x < End(part) then Some(Zero) else None
  {
    forall x | !(part.targetOffset <= x < End(part))
      ensures ByteAt(t, x) == if x < FileSize(s) then ByteAt(s, x) else if x < End(part) then Some(Zero) else None
    {
      assert ByteAt(t, x) == if x < FileSize(t1) then ByteAt(t1, x) else if x < End(part) then Some(Zero) else None;
      assert ByteAt(t1, x) == if x < FileSize(s) then ByteAt(s, x) else if x < part.targetOffset then Some(Zero) else None;
    }
  }

  /** Bytes after the replacement: those of the part inside its range, those after both splits outside it. */
  lemma UpdatePostFrom(s: seq<Part>, part: Part, t: seq<Part>, r: seq<Part>)
    requires FileSize(t) == Max(FileSize(s), End(part))
    requires forall x :: !(part.targetOffset <= x < End(part)) ==>
      ByteAt(t, x) == if x < FileSize(s) then ByteAt(s, x) else if x < End(part) then Some(Zero) else None
    requires Tiled(r) && FileSize(r) == FileSize(t)
    requires forall x :: ByteAt(r, x) == if part.targetOffset <= x < End(part) then Some(OriginAt(part, x)) else ByteAt(t, x)
    ensures UpdatePost(s, part, r)
  {
  }

  /** Where the exact searches for both ends of the part land when both ends are boundaries. */
  lemma ReplaceIndicesExact(t: seq<Part>, lo: int, hi: int)
    requires Tiled(t) && lo < hi && lo in Starts(t) && IsBoundary(t, hi)
    ensures var left, right := LowerBound(t, lo), LowerBound(t, hi);
      && left < right <= |t|
      && t[left].targetOffset == lo
      && (right < |t| ==> t[right].targetOffset == hi)
      && (right == |t| ==> FileSize(t) == hi)
      && Complement(ExactSearch(t, lo)) == left && Complement(ExactSearch(t, hi)) == right
  {
    assert Sorted(t) by { ChainFacts(t, 0); }
    ExactFinds(t, lo);
    if hi in Starts(t) {
      ExactFinds(t, hi);
    } else {
      LowerBoundAtEnd(t, hi);
    }
  }

  /** The same for the wrapping searches the replacement performs: both ends are non-negative. */
  lemma ReplaceIndices(t: seq<Part>, lo: int64, hi: int64)
    requires Tiled(t) && lo < hi && lo as int in Starts(t) && IsBoundary(t, hi as int)
    ensures var left, right := LowerBound(t, lo), LowerBound(t, hi);
      && left < right <= |t|
      && t[left].targetOffset == lo
      && (right < |t| ==> t[right].targetOffset == hi)
      && (right == |t| ==> FileSize(t) == hi)
      && Complement(SearchResult(t, lo)) == left && Complement(SearchResult(t, hi)) == right
  {
    ReplaceIndicesExact(t, lo, hi);
    assert 0 <= lo && FileSize(t) <= Int64Max by {
      PartFacts(t, LowerBound(t, lo));
      PartFacts(t, |t| - 1);
    }
    TiledNoWrap(t, lo);
    TiledNoWrap(t, hi);
  }

  lemma ReplaceAfterSplits(s: seq<Part>, part: Part, t1: seq<Part>, t: seq<Part>)
    requires Tiled(s) && Insertable(s, part)
    requires SplitPost(s, part.targetOffset, t1) && SplitPost(t1, End(part), t)
    ensures var left := Complement(SearchResult(t, part.targetOffset));
      var right := Complement(SearchResult(t, End(part)));
      && left < right <= |t|
      && UpdatePost(s, part, t[left := part][..left + 1] + t[left := part][right..])
  {
    var lo, hi := part.targetOffset, End(part);
    assert lo in Starts(t) by { assert IsBoundary(t1, lo); }
    ReplaceIndices(t, lo, hi);
    var left, right := LowerBound(t, lo), LowerBound(t, hi);
    ReplaceRangeChain(t, left, right, part);
    ReplaceRange(t, left, right, part);
    ComposeSplits(s, part, t1, t);
    var u := t[left := part];
    assert u[..left + 1] + u[right..] == t[..left] + [part] + t[right..];
    UpdatePostFrom(s, part, t, t[..left] + [part] + t[right..]);
  }

  /**
   * Update never throws for an insertable part: it overwrites exactly [TargetOffset, TargetEnd)
   * with the bytes of the part, keeps every other byte, fills a gap before it with zeros and
   * keeps the list tiled.
   */
  lemma UpdateOverwrites(s: seq<Part>, part: Part)
    requires Tiled(s) && Insertable(s, part)
    ensures var r := UpdateSpec(s, part); r.failure.None? && UpdatePost(s, part, r.parts)
  {
    var r1 := SplitSpec(s, part.targetOffset);
    SplitKeepsBytes(s, part.targetOffset);
    var r2 := SplitSpec(r1.parts, End(part));
    SplitKeepsBytes(r1.parts, End(part));
    ReplaceAfterSplits(s, part, r1.parts, r2.parts);
  }

  /** A part of size 0 leaves the list as it is. */
  lemma UpdateEmptyIsNoOp(s: seq<Part>, part: Part)
    requires part.targetSize == 0
    ensures UpdateSpec(s, part) == Outcome(s, None)
  {
  }

  // ---- The list object ----

  class PartialFilePartList {
    var parts: seq<Part>

    constructor ()
      ensures parts == []
    {
      parts := [];
    }

    /** List.BinarySearch with a probe part, comparing with the wrapping CompareTo. */
    method BinarySearchByTargetOffset(targetOffset: int64) returns (r: int)
      ensures r == SearchResult(parts, targetOffset)
    {
      var probe := Default.(targetOffset := targetOffset);
      var lo, hi := 0, |parts| - 1;
      while lo <= hi
        invariant 0 <= lo <= hi + 1 <= |parts|
        invariant BinarySearchFrom(parts, targetOffset, lo, hi) == SearchResult(parts, targetOffset)
        decreases hi - lo
      {
        var i := lo + (hi - lo) / 2;
        var order := CompareTo(parts[i], probe);
        if order == 0 {
          return i;
        }
        if order < 0 {
          lo := i + 1;
        } else {
          hi := i - 1;
        }
      }
      return -lo - 1;
    }

    method SplitAt(offset: int64) returns (failure: Option<Error>)
      modifies this
      ensures var r := SplitSpec(old(parts), offset); parts == r.parts && failure == r.failure
    {
      var i := BinarySearchByTargetOffset(offset);
      if i >= 0 {
        return None;
      }
      i := -i - 1;
      if i == 0 && offset == 0 {
      } else if i == 0 && |parts| == 0 {
        parts := parts + [ZerosPart(0, offset)];
      } else if i == |parts| && TargetEnd(parts[i - 1]) == offset {
      } else if i == |parts| && TargetEnd(parts[i - 1]) < offset {
        var end := TargetEnd(parts[i - 1]);
        parts := parts + [ZerosPart(end, offset - end)];
      } else if i == 0 {
        return Some(ArgumentOutOfRange);
      } else {
        i := i - 1;
        var part := parts[i];
        parts := parts[i := FirstHalf(part, offset)];
        parts := parts[..i + 1] + [SecondHalf(part, offset)] + parts[i + 1..];
      }
      return None;
    }

    method Update(part: Part) returns (failure: Option<Error>)
      requires Tiled(parts) && Insertable(parts, part)
      modifies this
      ensures var r := UpdateSpec(old(parts), part); parts == r.parts && failure == r.failure
    {
      if part.targetSize == 0 {
        return None;
      }
      // Neither split can throw: both offsets are non-negative.
      SplitKeepsBytes(parts, part.targetOffset);
      var _ := SplitAt(part.targetOffset);
      SplitKeepsBytes(parts, TargetEnd(part));
      var _ := SplitAt(TargetEnd(part));
      var left := BinarySearchByTargetOffset(part.targetOffset);
      left := Complement(left);
      if left == |parts| {
        parts := parts + [part];
        return None;
      }
      var right := BinarySearchByTargetOffset(TargetEnd(part));
      right := Complement(right);
      parts := parts[left := part];
      if right - left - 1 < 0 {
        return Some(ArgumentOutOfRange);
      }
      parts := parts[..left + 1] + parts[right..];
      return None;
    }
  }
}
