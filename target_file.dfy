/**
 * A target file of a patch index: the list of part locators that tile the file from offset 0,
 * kept sorted by target offset. SplitAt cuts the part containing an offset in two; Update
 * overwrites a byte range with a new part.
 */
module TargetFile {
  import opened Wrappers
  import opened Ints
  import opened PartLocator

  // ---- The list invariant ----

  /** The parts tile [from, end) in order, without gaps or overlaps, each at least one byte long. */
  predicate Chain(s: seq<Locator>, from: int)
  {
    s == [] || (TargetOffset(s[0]) == from && TargetSize(s[0]) > 0 && Chain(s[1..], TargetEnd(s[0])))
  }

  /** The list invariant: the parts tile the file from offset 0. */
  predicate Tiled(s: seq<Locator>) { Chain(s, 0) }

  /** Where a chain started at `from` ends. */
  function EndOf(s: seq<Locator>, from: int): int
  {
    if |s| > 0 then TargetEnd(s[|s| - 1]) else from
  }

  /** FileSize: the end of the last part, or 0 for an empty list. */
  function FileSize(s: seq<Locator>): nat
  {
    if |s| > 0 then TargetEnd(s[|s| - 1]) else 0
  }

  predicate Sorted(s: seq<Locator>)
  {
    forall i, j :: 0 <= i < j < |s| ==> TargetOffset(s[i]) < TargetOffset(s[j])
  }

  /** The offsets at which parts start. */
  function Starts(s: seq<Locator>): set<int>
  {
    if s == [] then {} else {TargetOffset(s[0]) as int} + Starts(s[1..])
  }

  /** An offset the list is already split at: a part start, or the end of the file. */
  predicate IsBoundary(s: seq<Locator>, x: int)
  {
    x in Starts(s) || x == FileSize(s)
  }

  // ---- What each byte of the file is made of ----

  /** The origin of one byte of the target file: enough to say which source byte reconstructs it. */
  datatype Origin =
    | Zero
    | Placeholder(units: nat, at: int)
    | Missing
    | FromPlain(source: nat, at: int)
    | FromBlock(source: nat, block: nat, at: int)

  /** The origin of the byte at target offset `x` of part `l`. */
  function OriginAt(l: Locator, x: int): Origin
  {
    var rel := SplitDecodedSourceFrom(l) + (x - TargetOffset(l));
    if IsAllZeros(l) then Zero
    else if IsEmptyBlock(l) then Placeholder(l.crc32OrPlaceholderEntryDataUnits, rel)
    else if IsUnavailable(l) then Missing
    else if IsDeflatedBlockData(l) then FromBlock(SourceIndex(l), SourceOffset(l), rel)
    else FromPlain(SourceIndex(l), SourceOffset(l) + rel)
  }

  /** The origin of byte `x` according to the first part that contains it. */
  function ByteAt(s: seq<Locator>, x: int): Option<Origin>
  {
    if s == [] then None
    else if TargetOffset(s[0]) <= x < TargetEnd(s[0]) then Some(OriginAt(s[0], x))
    else ByteAt(s[1..], x)
  }

  // ---- Lemmas about chains ----

  lemma {:induction false} ChainConcat(a: seq<Locator>, b: seq<Locator>, from: int)
    ensures Chain(a + b, from) <==> Chain(a, from) && Chain(b, EndOf(a, from))
    decreases |a|
  {
    if a != [] {
      assert (a + b)[0] == a[0] && (a + b)[1..] == a[1..] + b;
      assert EndOf(a, from) == EndOf(a[1..], TargetEnd(a[0]));
      ChainConcat(a[1..], b, TargetEnd(a[0]));
    } else {
      assert a + b == b;
    }
  }

  lemma {:induction false} ByteAtConcat(a: seq<Locator>, b: seq<Locator>, x: int)
    ensures ByteAt(a + b, x) == if ByteAt(a, x).Some? then ByteAt(a, x) else ByteAt(b, x)
    decreases |a|
  {
    if a != [] {
      assert (a + b)[0] == a[0] && (a + b)[1..] == a[1..] + b;
      ByteAtConcat(a[1..], b, x);
    } else {
      assert a + b == b;
    }
  }

  lemma {:induction false} StartsConcat(a: seq<Locator>, b: seq<Locator>)
    ensures Starts(a + b) == Starts(a) + Starts(b)
    decreases |a|
  {
    if a != [] {
      assert (a + b)[0] == a[0] && (a + b)[1..] == a[1..] + b;
      StartsConcat(a[1..], b);
    } else {
      assert a + b == b;
    }
  }

  /** The bytes of a chain are defined exactly on the range it tiles. */
  lemma {:induction false} ByteAtDefined(s: seq<Locator>, from: int, x: int)
    requires Chain(s, from)
    ensures from <= EndOf(s, from)
    ensures ByteAt(s, x).Some? <==> from <= x < EndOf(s, from)
    decreases |s|
  {
    if s != [] {
      ByteAtDefined(s[1..], TargetEnd(s[0]), x);
      assert EndOf(s, from) == EndOf(s[1..], TargetEnd(s[0]));
    }
  }

  /** A chain is sorted, lies within [from, end), and covers exactly that range. */
  lemma {:induction false} ChainFacts(s: seq<Locator>, from: int)
    requires Chain(s, from)
    ensures Sorted(s)
    ensures forall i :: 0 <= i < |s| ==> from <= TargetOffset(s[i]) && TargetEnd(s[i]) <= EndOf(s, from)
    ensures from <= EndOf(s, from)
    ensures forall x :: ByteAt(s, x).Some? <==> from <= x < EndOf(s, from)
    ensures forall y :: y in Starts(s) ==> from <= y < EndOf(s, from)
    decreases |s|
  {
    if s != [] {
      var t := s[1..];
      ChainFacts(t, TargetEnd(s[0]));
      assert EndOf(s, from) == EndOf(t, TargetEnd(s[0]));
      forall i, j | 0 <= i < j < |s| ensures TargetOffset(s[i]) < TargetOffset(s[j]) {
        if i > 0 { assert s[i] == t[i - 1] && s[j] == t[j - 1]; } else { assert s[j] == t[j - 1]; }
      }
      forall i | 0 <= i < |s| ensures from <= TargetOffset(s[i]) && TargetEnd(s[i]) <= EndOf(s, from) {
        if i > 0 { assert s[i] == t[i - 1]; }
      }
    }
  }

  /** Every start is the offset of some part. */
  lemma {:induction false} StartsIndex(s: seq<Locator>, y: int) returns (k: nat)
    requires y in Starts(s)
    ensures k < |s| && TargetOffset(s[k]) == y
    decreases |s|
  {
    if TargetOffset(s[0]) == y {
      k := 0;
    } else {
      var k' := StartsIndex(s[1..], y);
      k := k' + 1;
    }
  }

  // ---- Binary search ----

  /** The first index whose part starts at or after `x`. */
  function LowerBound(s: seq<Locator>, x: int): (k: nat)
    ensures k <= |s|
    ensures forall j :: 0 <= j < k ==> TargetOffset(s[j]) < x
    ensures k < |s| ==> TargetOffset(s[k]) >= x
  {
    if s == [] then 0
    else if TargetOffset(s[0]) >= x then 0
    else 1 + LowerBound(s[1..], x)
  }

  /** The first index at or after `x` is the only index with that property. */
  lemma LowerBoundUnique(s: seq<Locator>, x: int, k: nat)
    requires k <= |s|
    requires forall j :: 0 <= j < k ==> TargetOffset(s[j]) < x
    requires k < |s| ==> TargetOffset(s[k]) >= x
    ensures LowerBound(s, x) == k
  {
  }

  /** `List.BinarySearch` on the list sorted by target offset: the index of a part starting at `x`, else the complement of the insertion point. */
  function SearchResult(s: seq<Locator>, x: int): int
  {
    var k := LowerBound(s, x);
    if k < |s| && TargetOffset(s[k]) == x then k else -(k as int) - 1
  }

  /** BinarySearchByTargetOffset: the probe is a locator, so an offset wider than 32 bits throws. */
  function BinarySearchSpec(s: seq<Locator>, targetOffset: int): (r: Result<int>)
    ensures r.Err? <==> targetOffset > UInt32Max
    ensures 0 <= targetOffset <= UInt32Max ==> r == Ok(SearchResult(s, targetOffset))
  {
    var probe :- WithTargetOffset(Blank, targetOffset);
    Ok(SearchResult(s, TargetOffset(probe)))
  }

  /** A sorted list is searched successfully exactly at part starts. */
  lemma SearchFinds(s: seq<Locator>, x: int)
    requires Sorted(s)
    ensures SearchResult(s, x) >= 0 <==> x in Starts(s)
    ensures x in Starts(s) ==> TargetOffset(s[SearchResult(s, x)]) == x
  {
    if x in Starts(s) {
      var k := StartsIndex(s, x);
      LowerBoundUnique(s, x, k);
    } else {
      var k := LowerBound(s, x);
      if k < |s| && TargetOffset(s[k]) == x {
        StartsMember(s, k);
      }
    }
  }

  lemma {:induction false} StartsMember(s: seq<Locator>, k: nat)
    requires k < |s|
    ensures TargetOffset(s[k]) as int in Starts(s)
    decreases k
  {
    if k > 0 {
      StartsMember(s[1..], k - 1);
    }
  }

  // ---- New parts, built as the object initializers build them ----

  /**
   * A locator built field by field from `default`, each property setter doing its checked cast.
   * The initializers in SplitAt list their properties in different orders and leave some
   * fields at their default 0; every setter fails the same way, so the outcome is the same.
   */
  function Make(targetOffset: int, targetSize: int, targetIndex: int, sourceIndex: int,
                sourceOffset: int, splitDecodedSourceFrom: int, crc32: uint32, deflated: bool): (r: Result<Locator>)
    ensures r.Ok? <==>
      targetOffset <= UInt32Max && targetSize <= MaskTargetSize && targetIndex <= UInt8Max
      && sourceIndex <= UInt8Max && sourceOffset <= UInt32Max && splitDecodedSourceFrom <= UInt16Max
    ensures r.Err? ==> r.error == ValueTooBig
    ensures r.Ok? ==>
      && (0 <= targetOffset ==> TargetOffset(r.value) == targetOffset)
      && (0 <= targetSize ==> TargetSize(r.value) == targetSize)
      && (0 <= targetIndex ==> TargetIndex(r.value) == targetIndex)
      && (0 <= sourceIndex ==> SourceIndex(r.value) == sourceIndex)
      && (0 <= sourceOffset ==> SourceOffset(r.value) == sourceOffset)
      && (0 <= splitDecodedSourceFrom ==> SplitDecodedSourceFrom(r.value) == splitDecodedSourceFrom)
      && r.value.crc32OrPlaceholderEntryDataUnits == crc32
      && IsDeflatedBlockData(r.value) == deflated
      && !IsValidCrc32Value(r.value)
  {
    var l1 :- WithTargetOffset(Blank, targetOffset);
    var l2 :- WithTargetSize(l1, targetSize);
    var l3 :- WithTargetIndex(l2, targetIndex);
    var l4 :- WithSourceIndex(l3, sourceIndex);
    var l5 :- WithSourceOffset(l4, sourceOffset);
    var l6 :- WithSplitDecodedSourceFrom(l5, splitDecodedSourceFrom);
    Ok(WithIsDeflatedBlockData(l6.(crc32OrPlaceholderEntryDataUnits := crc32), deflated))
  }

  /** The part that fills [from, from + size) with zeros. */
  function ZerosPart(from: int, size: int, targetFileIndex: int): Result<Locator>
  {
    Make(from, size, targetFileIndex, SourceIndexZeros, 0, 0, 0, false)
  }

  /** Deflated blocks and placeholders are cut by the offset into their decoded data; plain parts by their source offset. */
  predicate CutsDecoded(p: Locator) { IsDeflatedBlockData(p) || IsEmptyBlock(p) }

  function FirstHalf(p: Locator, offset: int, targetFileIndex: int): Result<Locator>
  {
    if CutsDecoded(p) then
      Make(TargetOffset(p), offset - TargetOffset(p), targetFileIndex, SourceIndex(p), SourceOffset(p),
           SplitDecodedSourceFrom(p), p.crc32OrPlaceholderEntryDataUnits, IsDeflatedBlockData(p))
    else
      Make(TargetOffset(p), offset - TargetOffset(p), targetFileIndex, SourceIndex(p), SourceOffset(p),
           0, p.crc32OrPlaceholderEntryDataUnits, false)
  }

  function SecondHalf(p: Locator, offset: int, targetFileIndex: int): Result<Locator>
  {
    if CutsDecoded(p) then
      Make(offset, TargetEnd(p) - offset, targetFileIndex, SourceIndex(p), SourceOffset(p),
           SplitDecodedSourceFrom(p) + offset - TargetOffset(p), p.crc32OrPlaceholderEntryDataUnits, IsDeflatedBlockData(p))
    else
      Make(offset, TargetEnd(p) - offset, targetFileIndex, SourceIndex(p), SourceOffset(p) + offset - TargetOffset(p),
           0, p.crc32OrPlaceholderEntryDataUnits, false)
  }

  // ---- SplitAt and Update as functions of the list ----

  /**
   * The list after an operation, and the exception it threw, if any. An exception thrown while
   * building the second half of a split leaves the first half already stored.
   */
  datatype Outcome = Outcome(parts: seq<Locator>, failure: Option<Error>)

  /** Splitting part `i` at `offset`. */
  function SplitPart(s: seq<Locator>, i: nat, offset: int, targetFileIndex: int): Outcome
    requires i < |s|
  {
    var p := s[i];
    if !CutsDecoded(p) && SplitDecodedSourceFrom(p) != 0 then Outcome(s, Some(ArgumentError))
    else
      match FirstHalf(p, offset, targetFileIndex)
      case Err(e) => Outcome(s, Some(e))
      case Ok(a) =>
        var s1 := s[i := a];
        match SecondHalf(p, offset, targetFileIndex)
        case Err(e) => Outcome(s1, Some(e))
        case Ok(b) => Outcome(s1[..i + 1] + [b] + s1[i + 1..], None)
  }

  /** SplitAt(offset, targetFileIndex). */
  function SplitSpec(s: seq<Locator>, offset: nat, targetFileIndex: int): Outcome
  {
    match BinarySearchSpec(s, offset)
    case Err(e) => Outcome(s, Some(e))
    case Ok(found) =>
      if found >= 0 then Outcome(s, None)
      else
        var i := -found - 1;
        if i == 0 && offset == 0 then Outcome(s, None)
        else if i == 0 && |s| == 0 then
          match ZerosPart(0, offset, targetFileIndex)
          case Err(e) => Outcome(s, Some(e))
          case Ok(z) => Outcome(s + [z], None)
        else if i == |s| && TargetEnd(s[i - 1]) == offset then Outcome(s, None)
        else if i == |s| && TargetEnd(s[i - 1]) < offset then
          match ZerosPart(TargetEnd(s[i - 1]), offset - TargetEnd(s[i - 1]), targetFileIndex)
          case Err(e) => Outcome(s, Some(e))
          case Ok(z) => Outcome(s + [z], None)
        else if i == 0 then Outcome(s, Some(ArgumentOutOfRange))
        else SplitPart(s, i - 1, offset, targetFileIndex)
  }

  // ---- What SplitAt does ----

  /** Cutting a chain around part `j`: the parts before end where part `j` starts, and the parts after start where it ends. */
  lemma ChainAround(s: seq<Locator>, j: nat, from: int)
    requires Chain(s, from) && j < |s|
    ensures Chain(s[..j], from) && EndOf(s[..j], from) == TargetOffset(s[j])
    ensures Chain(s[j + 1..], TargetEnd(s[j]))
  {
    assert s == s[..j] + ([s[j]] + s[j + 1..]);
    ChainConcat(s[..j], [s[j]] + s[j + 1..], from);
    assert ([s[j]] + s[j + 1..])[1..] == s[j + 1..];
  }

  /**
   * Replacing part `j` of a chain by parts that tile the same range with the same bytes keeps
   * the chain, its size and every byte's origin, and adds starts without losing any.
   */
  lemma {:induction false} ReplacePart(s: seq<Locator>, j: nat, m: seq<Locator>)
    requires Tiled(s) && j < |s|
    requires Chain(m, TargetOffset(s[j])) && EndOf(m, TargetOffset(s[j])) == TargetEnd(s[j])
    requires forall x :: ByteAt(m, x) == ByteAt([s[j]], x)
    requires TargetOffset(s[j]) as int in Starts(m)
    ensures var r := s[..j] + m + s[j + 1..];
      && Tiled(r) && FileSize(r) == FileSize(s)
      && (forall x :: ByteAt(r, x) == ByteAt(s, x))
      && Starts(s) <= Starts(r)
  {
    var pre, post := s[..j], s[j + 1..];
    var r := pre + m + post;
    assert s == pre + [s[j]] + post;
    ChainAround(s, j, 0);
    ChainConcat(pre, m, 0);
    ChainConcat(pre + m, post, 0);
    assert EndOf(pre + m, 0) == TargetEnd(s[j]) by {
      ChainFacts(m, TargetOffset(s[j]));
    }
    assert FileSize(r) == FileSize(s) by {
      if post == [] { assert r[|r| - 1] == m[|m| - 1]; } else { assert r[|r| - 1] == s[|s| - 1]; }
    }
    forall x ensures ByteAt(r, x) == ByteAt(s, x) {
      ByteAtConcat(pre, m, x);
      ByteAtConcat(pre + m, post, x);
      ByteAtConcat(pre, [s[j]], x);
      ByteAtConcat(pre + [s[j]], post, x);
    }
    StartsConcat(pre, m);
    StartsConcat(pre + m, post);
    StartsConcat(pre, [s[j]]);
    StartsConcat(pre + [s[j]], post);
  }

  /** Appending a zeros part after the last part extends the chain, and the new bytes read as zeros. */
  lemma AppendZeros(s: seq<Locator>, z: Locator)
    requires Tiled(s)
    requires IsAllZeros(z) && TargetOffset(z) == FileSize(s) && TargetSize(z) > 0
    ensures var r := s + [z];
      && Tiled(r) && FileSize(r) == TargetEnd(z)
      && (forall x :: ByteAt(r, x) == if x < FileSize(s) then ByteAt(s, x) else if x < TargetEnd(z) then Some(Zero) else None)
      && Starts(r) == Starts(s) + {FileSize(s) as int}
  {
    ChainConcat(s, [z], 0);
    ChainFacts(s, 0);
    assert Chain([z], TargetOffset(z)) by { assert [z][1..] == []; }
    forall x ensures ByteAt(s + [z], x) == if x < FileSize(s) then ByteAt(s, x) else if x < TargetEnd(z) then Some(Zero) else None {
      ByteAtConcat(s, [z], x);
      assert [z][1..] == [];
    }
    StartsConcat(s, [z]);
    assert [z][1..] == [];
  }

  /** The two halves of an interior split tile the part and give every byte the origin it had. */
  lemma HalvesReplacePart(p: Locator, offset: int, a: Locator, b: Locator, targetFileIndex: int)
    requires TargetOffset(p) < offset < TargetEnd(p)
    requires CutsDecoded(p) || SplitDecodedSourceFrom(p) == 0
    requires FirstHalf(p, offset, targetFileIndex) == Ok(a) && SecondHalf(p, offset, targetFileIndex) == Ok(b)
    ensures Chain([a, b], TargetOffset(p)) && EndOf([a, b], TargetOffset(p)) == TargetEnd(p)
    ensures forall x :: ByteAt([a, b], x) == ByteAt([p], x)
    ensures Starts([a, b]) == {TargetOffset(p) as int, offset}
  {
    assert [a, b][1..] == [b] && [b][1..] == [];
    assert [p][1..] == [];
    assert Starts([b]) == {offset};
    forall x ensures ByteAt([a, b], x) == ByteAt([p], x) {
      if TargetOffset(p) <= x < offset {
        assert OriginAt(a, x) == OriginAt(p, x);
      } else if offset <= x < TargetEnd(p) {
        assert OriginAt(b, x) == OriginAt(p, x);
      }
    }
  }

  /** What a successful SplitAt guarantees about the list `r` it leaves. */
  ghost predicate SplitPost(s: seq<Locator>, offset: int, r: seq<Locator>)
  {
    && Tiled(r)
    && FileSize(r) == Max(FileSize(s), offset)
    && IsBoundary(r, offset)
    && (forall y :: IsBoundary(s, y) ==> IsBoundary(r, y))
    && (forall x :: ByteAt(r, x) == if x < FileSize(s) then ByteAt(s, x) else if x < offset then Some(Zero) else None)
  }

  lemma SplitPostNoOp(s: seq<Locator>, offset: int)
    requires Tiled(s) && IsBoundary(s, offset)
    ensures SplitPost(s, offset, s)
  {
    ChainFacts(s, 0);
  }

  lemma SplitPostAppend(s: seq<Locator>, offset: int, z: Locator)
    requires Tiled(s)
    requires IsAllZeros(z) && TargetOffset(z) == FileSize(s) && TargetEnd(z) == offset && TargetSize(z) > 0
    ensures SplitPost(s, offset, s + [z])
  {
    AppendZeros(s, z);
    ChainFacts(s, 0);
  }

  lemma SplitPostInterior(s: seq<Locator>, j: nat, offset: int, targetFileIndex: int, a: Locator, b: Locator)
    requires Tiled(s) && j < |s|
    requires TargetOffset(s[j]) < offset < TargetEnd(s[j])
    requires CutsDecoded(s[j]) || SplitDecodedSourceFrom(s[j]) == 0
    requires FirstHalf(s[j], offset, targetFileIndex) == Ok(a) && SecondHalf(s[j], offset, targetFileIndex) == Ok(b)
    ensures SplitPost(s, offset, s[..j] + [a, b] + s[j + 1..])
  {
    var p := s[j];
    ChainFacts(s, 0);
    HalvesReplacePart(p, offset, a, b, targetFileIndex);
    ReplacePart(s, j, [a, b]);
    StartsConcat(s[..j], [a, b]);
    StartsConcat(s[..j] + [a, b], s[j + 1..]);
    assert offset <= FileSize(s) by { assert TargetEnd(s[j]) <= EndOf(s, 0); }
  }

  /** The offset of an interior split lies strictly inside the part before the insertion point. */
  lemma InteriorOffset(s: seq<Locator>, offset: int)
    requires Tiled(s) && offset !in Starts(s)
    requires var i := LowerBound(s, offset); 0 < i && (i < |s| || TargetEnd(s[i - 1]) > offset)
    ensures var j := LowerBound(s, offset) - 1; TargetOffset(s[j]) < offset < TargetEnd(s[j])
  {
    var i := LowerBound(s, offset);
    if i < |s| {
      ChainAround(s, i - 1, 0);
      assert TargetOffset(s[i]) == TargetEnd(s[i - 1]) by { assert s[i..][0] == s[i]; }
      StartsMember(s, i);
    }
  }

  /** Splitting the part that strictly contains `offset` keeps every byte. */
  lemma SplitPartKeepsBytes(s: seq<Locator>, j: nat, offset: int, targetFileIndex: int)
    requires Tiled(s) && j < |s|
    requires TargetOffset(s[j]) < offset < TargetEnd(s[j])
    ensures var r := SplitPart(s, j, offset, targetFileIndex);
      r.failure.None? ==> SplitPost(s, offset, r.parts)
  {
    var r := SplitPart(s, j, offset, targetFileIndex);
    if r.failure.None? {
      var a := FirstHalf(s[j], offset, targetFileIndex).value;
      var b := SecondHalf(s[j], offset, targetFileIndex).value;
      SplitPostInterior(s, j, offset, targetFileIndex, a, b);
      var s1 := s[j := a];
      assert s1[..j + 1] == s[..j] + [a] && s1[j + 1..] == s[j + 1..];
      assert r.parts == s[..j] + [a, b] + s[j + 1..];
    }
  }

  /** An offset strictly inside a part dispatches to SplitPart on that part. */
  lemma SplitSpecInterior(s: seq<Locator>, offset: nat, targetFileIndex: int)
    requires offset <= UInt32Max && SearchResult(s, offset) < 0
    requires var i := LowerBound(s, offset);
      0 < i && (i < |s| || TargetEnd(s[i - 1]) > offset)
    ensures SplitSpec(s, offset, targetFileIndex) == SplitPart(s, LowerBound(s, offset) - 1, offset, targetFileIndex)
  {
    assert BinarySearchSpec(s, offset) == Ok(SearchResult(s, offset));
  }

  /** Growing the file: the offset lies past the end of the last part. */
  lemma SplitAppendKeepsBytes(s: seq<Locator>, offset: nat, targetFileIndex: int)
    requires Tiled(s) && offset <= UInt32Max && offset > FileSize(s)
    requires LowerBound(s, offset) == |s| && SearchResult(s, offset) < 0
    ensures var r := SplitSpec(s, offset, targetFileIndex);
      r.failure.None? ==> SplitPost(s, offset, r.parts)
  {
    assert BinarySearchSpec(s, offset) == Ok(SearchResult(s, offset));
    var r := SplitSpec(s, offset, targetFileIndex);
    if r.failure.None? {
      var z := ZerosPart(FileSize(s), offset - FileSize(s), targetFileIndex).value;
      SplitPostAppend(s, offset, z);
    }
  }

  /** SplitAt keeps the file tiled, makes `offset` a boundary, keeps every old boundary and
      every byte, and fills any growth with zeros. */
  lemma SplitKeepsBytes(s: seq<Locator>, offset: nat, targetFileIndex: int)
    requires Tiled(s)
    ensures var r := SplitSpec(s, offset, targetFileIndex);
      r.failure.None? ==> offset <= UInt32Max && SplitPost(s, offset, r.parts)
  {
    if offset <= UInt32Max {
      assert Sorted(s) by { ChainFacts(s, 0); }
      SearchFinds(s, offset);
      var i := LowerBound(s, offset);
      if SearchResult(s, offset) >= 0 || offset == FileSize(s) {
        assert BinarySearchSpec(s, offset) == Ok(SearchResult(s, offset));
        SplitPostNoOp(s, offset);
      } else if offset > FileSize(s) {
        assert i == |s| by { ChainFacts(s, 0); }
        SplitAppendKeepsBytes(s, offset, targetFileIndex);
      } else {
        assert 0 < i && (i < |s| || TargetEnd(s[i - 1]) > offset) by { ChainFacts(s, 0); }
        InteriorOffset(s, offset);
        SplitSpecInterior(s, offset, targetFileIndex);
        SplitPartKeepsBytes(s, i - 1, offset, targetFileIndex);
      }
    }
  }

  // ---- Update ----

  /** The bitwise complement `~i` that turns a failed BinarySearch result back into an insertion index. */
  function Complement(i: int): (r: nat)
    ensures i < 0 ==> r == -i - 1
    ensures i >= 0 ==> r == i
  {
    if i < 0 then -i - 1 else i
  }

  /** After both splits: store `part` at the first index at or after its start and drop the parts up to its end. */
  function ReplaceSpec(t: seq<Locator>, part: Locator): Outcome
  {
    match BinarySearchSpec(t, TargetOffset(part))
    case Err(e) => Outcome(t, Some(e))
    case Ok(found) =>
      var left := Complement(found);
      if left >= |t| then Outcome(t + [part], None)
      else
        match BinarySearchSpec(t, TargetEnd(part))
        case Err(e) => Outcome(t, Some(e))
        case Ok(found2) =>
          var right := Complement(found2);
          var t1 := t[left := part];
          if right - left - 1 < 0 then Outcome(t1, Some(ArgumentOutOfRange))
          else if right > |t| then Outcome(t1, Some(ArgumentError))
          else Outcome(t1[..left + 1] + t1[right..], None)
  }

  /** Update: a part of size 0 changes nothing; otherwise split at both ends of the part and replace what lies between. */
  function UpdateSpec(s: seq<Locator>, part: Locator): Outcome
  {
    if TargetSize(part) == 0 then Outcome(s, None)
    else
      var r1 := SplitSpec(s, TargetOffset(part), TargetIndex(part));
      if r1.failure.Some? then r1
      else
        var r2 := SplitSpec(r1.parts, TargetEnd(part), TargetIndex(part));
        if r2.failure.Some? then r2
        else ReplaceSpec(r2.parts, part)
  }

  /** A complemented search result is the first index whose part starts at or after `x`. */
  lemma ComplementSearch(s: seq<Locator>, x: int)
    ensures Complement(SearchResult(s, x)) == LowerBound(s, x)
  {
  }

  /** The first index at or after the file size of a tiled list is its length. */
  lemma LowerBoundAtEnd(s: seq<Locator>, x: int)
    requires Tiled(s) && x >= FileSize(s)
    ensures LowerBound(s, x) == |s|
  {
    ChainFacts(s, 0);
    forall j | 0 <= j < |s| ensures TargetOffset(s[j]) < x {
      StartsMember(s, j);
    }
    LowerBoundUnique(s, x, |s|);
  }

  /** Bytes of `pre + [part] + post` when `part` takes the place of a chain `mid` over the same range. */
  lemma ReplaceRangeBytes(pre: seq<Locator>, mid: seq<Locator>, post: seq<Locator>, part: Locator, x: int)
    requires Chain(pre, 0) && EndOf(pre, 0) == TargetOffset(part)
    requires Chain(mid, TargetOffset(part)) && EndOf(mid, TargetOffset(part)) == TargetEnd(part)
    ensures ByteAt(pre + [part] + post, x) ==
      if TargetOffset(part) <= x < TargetEnd(part) then Some(OriginAt(part, x)) else ByteAt(pre + mid + post, x)
  {
    ByteAtDefined(mid, TargetOffset(part), x);
    ByteAtDefined(pre, 0, x);
    ByteAtConcat(pre, [part], x);
    ByteAtConcat(pre + [part], post, x);
    ByteAtConcat(pre, mid, x);
    ByteAtConcat(pre + mid, post, x);
    assert [part][1..] == [];
  }

  /** A tiled list cut at `left` and `right` is three chains, each starting where the previous one ends. */
  lemma ChainThree(t: seq<Locator>, left: nat, right: nat)
    requires Tiled(t) && left < right <= |t|
    ensures Chain(t[..left], 0) && EndOf(t[..left], 0) == TargetOffset(t[left])
    ensures Chain(t[left..right], TargetOffset(t[left]))
    ensures EndOf(t[left..right], TargetOffset(t[left])) == TargetEnd(t[right - 1])
    ensures Chain(t[right..], TargetEnd(t[right - 1]))
  {
    ChainAround(t, left, 0);
    ChainSuffix(t, left);
    var mid, post := t[left..right], t[right..];
    assert t[left..] == mid + post;
    ChainConcat(mid, post, TargetOffset(t[left]));
    assert mid[|mid| - 1] == t[right - 1];
  }

  lemma ChainSuffix(t: seq<Locator>, left: nat)
    requires Tiled(t) && left < |t|
    ensures Chain(t[left..], TargetOffset(t[left]))
  {
    ChainAround(t, left, 0);
    assert t == t[..left] + t[left..];
    ChainConcat(t[..left], t[left..], 0);
  }

  /** A part that starts where a chain ends, followed by a chain that starts where it ends, extends the chain. */
  lemma ChainInsert(pre: seq<Locator>, part: Locator, post: seq<Locator>)
    requires Chain(pre, 0) && EndOf(pre, 0) == TargetOffset(part) && TargetSize(part) > 0
    requires Chain(post, TargetEnd(part))
    ensures Chain(pre + [part] + post, 0)
  {
    assert Chain([part], TargetOffset(part)) by { assert [part][1..] == []; }
    ChainConcat(pre, [part], 0);
    assert EndOf(pre + [part], 0) == TargetEnd(part) by { assert (pre + [part])[|pre|] == part; }
    ChainConcat(pre + [part], post, 0);
  }

  /** Where the replaced parts ended, the part ends too: the three chains around it still join. */
  lemma ReplaceRangeChain(t: seq<Locator>, left: nat, right: nat, part: Locator)
    requires Tiled(t) && left < right <= |t| && TargetSize(part) > 0
    requires TargetOffset(t[left]) == TargetOffset(part)
    requires right < |t| ==> TargetOffset(t[right]) == TargetEnd(part)
    requires right == |t| ==> FileSize(t) == TargetEnd(part)
    ensures var r := t[..left] + [part] + t[right..]; Tiled(r) && FileSize(r) == FileSize(t)
    ensures EndOf(t[left..right], TargetOffset(part)) == TargetEnd(part)
  {
    var pre, post := t[..left], t[right..];
    var r := pre + [part] + post;
    ChainThree(t, left, right);
    assert TargetEnd(t[right - 1]) == TargetEnd(part) by {
      if right < |t| { assert post[0] == t[right]; }
    }
    ChainInsert(pre, part, post);
    if post == [] { assert r[|r| - 1] == part; } else { assert r[|r| - 1] == t[|t| - 1]; }
  }

  /**
   * Replacing the parts from index `left` up to (not including) `right`, which tile exactly the
   * range of `part`, by `part` keeps the list tiled; bytes inside the range now come from `part`.
   */
  lemma ReplaceRange(t: seq<Locator>, left: nat, right: nat, part: Locator)
    requires Tiled(t) && left < right <= |t| && TargetSize(part) > 0
    requires TargetOffset(t[left]) == TargetOffset(part)
    requires right < |t| ==> TargetOffset(t[right]) == TargetEnd(part)
    requires right == |t| ==> FileSize(t) == TargetEnd(part)
    ensures forall x ::
              ByteAt(t[..left] + [part] + t[right..], x) ==
              if TargetOffset(part) <= x < TargetEnd(part) then Some(OriginAt(part, x)) else ByteAt(t, x)
  {
    var pre, mid, post := t[..left], t[left..right], t[right..];
    assert Chain(pre, 0) && EndOf(pre, 0) == TargetOffset(part)
        && Chain(mid, TargetOffset(part)) && EndOf(mid, TargetOffset(part)) == TargetEnd(part) by {
      ReplaceRangeChain(t, left, right, part);
      ChainThree(t, left, right);
    }
    assert t == pre + mid + post by {
      assert pre + mid == t[..right];
      assert t == t[..right] + post;
    }
    ReplaceRangeAllBytes(pre, mid, post, part);
  }

  lemma ReplaceRangeAllBytes(pre: seq<Locator>, mid: seq<Locator>, post: seq<Locator>, part: Locator)
    requires Chain(pre, 0) && EndOf(pre, 0) == TargetOffset(part)
    requires Chain(mid, TargetOffset(part)) && EndOf(mid, TargetOffset(part)) == TargetEnd(part)
    ensures forall x ::
              ByteAt(pre + [part] + post, x) ==
              if TargetOffset(part) <= x < TargetEnd(part) then Some(OriginAt(part, x)) else ByteAt(pre + mid + post, x)
  {
    forall x
      ensures ByteAt(pre + [part] + post, x) ==
              if TargetOffset(part) <= x < TargetEnd(part) then Some(OriginAt(part, x)) else ByteAt(pre + mid + post, x)
    {
      ReplaceRangeBytes(pre, mid, post, part, x);
    }
  }

  /** What a successful Update guarantees about the list `r` it leaves. */
  ghost predicate UpdatePost(s: seq<Locator>, part: Locator, r: seq<Locator>)
  {
    if TargetSize(part) == 0 then r == s
    else
      && Tiled(r)
      && FileSize(r) == Max(FileSize(s), TargetEnd(part))
      && (forall x :: ByteAt(r, x) ==
            if TargetOffset(part) <= x < TargetEnd(part) then Some(OriginAt(part, x))
            else if x < FileSize(s) then ByteAt(s, x)
            else if x < TargetEnd(part) then Some(Zero)
            else None)
  }

  /** The two splits of Update together: outside the part's range every byte is as before, or zero in the gap. */
  lemma ComposeSplits(s: seq<Locator>, part: Locator, t1: seq<Locator>, t: seq<Locator>)
    requires TargetOffset(part) < TargetEnd(part)
    requires SplitPost(s, TargetOffset(part), t1) && SplitPost(t1, TargetEnd(part), t)
    ensures FileSize(t) == Max(FileSize(s), TargetEnd(part))
    ensures forall x :: !(TargetOffset(part) <= x < TargetEnd(part)) ==>
      ByteAt(t, x) == if x < FileSize(s) then ByteAt(s, x) else if x < TargetEnd(part) then Some(Zero) else None
  {
    forall x | !(TargetOffset(part) <= x < TargetEnd(part))
      ensures ByteAt(t, x) == if x < FileSize(s) then ByteAt(s, x) else if x < TargetEnd(part) then Some(Zero) else None
    {
      assert ByteAt(t, x) == if x < FileSize(t1) then ByteAt(t1, x) else if x < TargetEnd(part) then Some(Zero) else None;
      assert ByteAt(t1, x) == if x < FileSize(s) then ByteAt(s, x) else if x < TargetOffset(part) then Some(Zero) else None;
    }
  }

  /** Bytes after the replacement: those of the part inside its range, those after both splits outside it. */
  lemma UpdatePostFrom(s: seq<Locator>, part: Locator, t: seq<Locator>, r: seq<Locator>)
    requires TargetSize(part) > 0
    requires FileSize(t) == Max(FileSize(s), TargetEnd(part))
    requires forall x :: !(TargetOffset(part) <= x < TargetEnd(part)) ==>
      ByteAt(t, x) == if x < FileSize(s) then ByteAt(s, x) else if x < TargetEnd(part) then Some(Zero) else None
    requires Tiled(r) && FileSize(r) == FileSize(t)
    requires forall x :: ByteAt(r, x) == if TargetOffset(part) <= x < TargetEnd(part) then Some(OriginAt(part, x)) else ByteAt(t, x)
    ensures UpdatePost(s, part, r)
  {
  }

  /** Where the two searches of the replacement land when both ends of the part are boundaries. */
  lemma ReplaceIndices(t: seq<Locator>, lo: int, hi: int)
    requires Tiled(t) && lo < hi && lo in Starts(t) && IsBoundary(t, hi)
    ensures var left, right := LowerBound(t, lo), LowerBound(t, hi);
      && left < right <= |t|
      && TargetOffset(t[left]) == lo
      && (right < |t| ==> TargetOffset(t[right]) == hi)
      && (right == |t| ==> FileSize(t) == hi)
      && Complement(SearchResult(t, lo)) == left && Complement(SearchResult(t, hi)) == right
  {
    assert Sorted(t) by { ChainFacts(t, 0); }
    ComplementSearch(t, lo);
    ComplementSearch(t, hi);
    SearchFinds(t, lo);
    if hi in Starts(t) {
      SearchFinds(t, hi);
    } else {
      LowerBoundAtEnd(t, hi);
    }
  }

  /** After both splits the replacement drops exactly the parts between the part's two ends. */
  lemma ReplaceSpecShape(t: seq<Locator>, part: Locator)
    requires Tiled(t) && TargetSize(part) > 0 && TargetEnd(part) <= UInt32Max
    requires TargetOffset(part) in Starts(t) && IsBoundary(t, TargetEnd(part))
    ensures var left, right := LowerBound(t, TargetOffset(part)), LowerBound(t, TargetEnd(part));
      && left < right <= |t|
      && TargetOffset(t[left]) == TargetOffset(part)
      && (right < |t| ==> TargetOffset(t[right]) == TargetEnd(part))
      && (right == |t| ==> FileSize(t) == TargetEnd(part))
      && ReplaceSpec(t, part) == Outcome(t[..left] + [part] + t[right..], None)
  {
    var lo, hi := TargetOffset(part), TargetEnd(part);
    ReplaceIndices(t, lo, hi);
    ReplaceSpecAt(t, part, LowerBound(t, lo), LowerBound(t, hi));
  }

  /** The replacement, once the two searches are known to land at `left` and `right`. */
  lemma ReplaceSpecAt(t: seq<Locator>, part: Locator, left: nat, right: nat)
    requires left < right <= |t| && TargetEnd(part) <= UInt32Max
    requires Complement(SearchResult(t, TargetOffset(part))) == left
    requires Complement(SearchResult(t, TargetEnd(part))) == right
    ensures ReplaceSpec(t, part) == Outcome(t[..left] + [part] + t[right..], None)
  {
    var u := t[left := part];
    assert u[..left + 1] + u[right..] == t[..left] + [part] + t[right..];
  }

  /** The replacement step after both splits succeeded. */
  lemma ReplaceAfterSplits(s: seq<Locator>, part: Locator, t1: seq<Locator>, t: seq<Locator>)
    requires Tiled(s) && TargetSize(part) > 0 && TargetEnd(part) <= UInt32Max
    requires SplitPost(s, TargetOffset(part), t1) && SplitPost(t1, TargetEnd(part), t)
    ensures ReplaceSpec(t, part).failure.None?
    ensures UpdatePost(s, part, ReplaceSpec(t, part).parts)
  {
    var lo, hi := TargetOffset(part), TargetEnd(part);
    assert lo in Starts(t) by { assert IsBoundary(t1, lo); }
    ReplaceSpecShape(t, part);
    var left, right := LowerBound(t, lo), LowerBound(t, hi);
    ReplaceRangeChain(t, left, right, part);
    ReplaceRange(t, left, right, part);
    ComposeSplits(s, part, t1, t);
    UpdatePostFrom(s, part, t, t[..left] + [part] + t[right..]);
  }

  /**
   * Update overwrites exactly [TargetOffset, TargetEnd) of the file with the bytes of `part`,
   * keeps every other byte, fills any gap before the part with zeros and keeps the list tiled.
   */
  lemma UpdateOverwrites(s: seq<Locator>, part: Locator)
    requires Tiled(s)
    ensures var r := UpdateSpec(s, part);
      r.failure.None? ==> UpdatePost(s, part, r.parts)
  {
    if TargetSize(part) > 0 {
      var r1 := SplitSpec(s, TargetOffset(part), TargetIndex(part));
      SplitKeepsBytes(s, TargetOffset(part), TargetIndex(part));
      if r1.failure.None? {
        var r2 := SplitSpec(r1.parts, TargetEnd(part), TargetIndex(part));
        SplitKeepsBytes(r1.parts, TargetEnd(part), TargetIndex(part));
        if r2.failure.None? {
          ReplaceAfterSplits(s, part, r1.parts, r2.parts);
        }
      }
    }
  }

  /**
   * On a tiled list SplitAt fails only when a value does not fit its field (an offset wider than
   * 32 bits among them) or when a plain part carries a decoded-source offset; the
   * ArgumentOutOfRange branch is never taken.
   */
  lemma SplitFailures(s: seq<Locator>, offset: nat, targetFileIndex: int)
    requires Tiled(s)
    ensures var r := SplitSpec(s, offset, targetFileIndex);
      && (r.failure.None? || r.failure == Some(ValueTooBig) || r.failure == Some(ArgumentError))
      && (offset > UInt32Max ==> r.failure == Some(ValueTooBig))
  {
    if offset <= UInt32Max {
      assert BinarySearchSpec(s, offset) == Ok(SearchResult(s, offset));
    }
  }

  // ---- The branches of SplitAt, one by one ----

  /** A part of size 0 leaves the list as it is. */
  lemma UpdateEmptyIsNoOp(s: seq<Locator>, part: Locator)
    requires TargetSize(part) == 0
    ensures UpdateSpec(s, part) == Outcome(s, None)
  {
  }

  /** An offset at which a part already starts is left alone. */
  lemma SplitAtStartIsNoOp(s: seq<Locator>, offset: nat, targetFileIndex: int)
    requires Sorted(s) && offset in Starts(s)
    ensures SplitSpec(s, offset, targetFileIndex) == Outcome(s, None)
  {
    var k := StartsIndex(s, offset);
    SearchFinds(s, offset);
    assert BinarySearchSpec(s, offset) == Ok(SearchResult(s, offset));
  }

  /**
   * Growing the file, from an empty list or past the last part: one zeros part is appended from
   * the old end to the offset, or the size setter throws when the gap does not fit 30 bits.
   */
  lemma SplitGrows(s: seq<Locator>, offset: nat, targetFileIndex: int)
    requires Tiled(s) && FileSize(s) < offset <= UInt32Max
    requires 0 <= targetFileIndex <= UInt8Max
    ensures var r := SplitSpec(s, offset, targetFileIndex);
      if offset - FileSize(s) <= MaskTargetSize then
        && r.failure.None? && |r.parts| == |s| + 1 && r.parts[..|s|] == s
        && var z := r.parts[|s|];
          && TargetOffset(z) == FileSize(s) && TargetSize(z) == offset - FileSize(s)
          && IsAllZeros(z) && TargetIndex(z) == targetFileIndex
      else r == Outcome(s, Some(ValueTooBig))
  {
    LowerBoundAtEnd(s, offset);
    assert BinarySearchSpec(s, offset) == Ok(SearchResult(s, offset));
    var r := SplitSpec(s, offset, targetFileIndex);
    if r.failure.None? {
      assert r.parts[..|s|] == s;
    }
  }

  /**
   * Splitting part `j` strictly inside. A plain part with a decoded-source offset throws and
   * changes nothing. Otherwise, when every new field fits, the part is replaced by two: the first
   * keeps its start, the second starts at the offset, and their sizes add up to the old size. A
   * plain part's second half moves its source offset forward; a deflated block or placeholder
   * keeps the source offset and moves the offset into its decoded data instead.
   */
  lemma SplitPartShape(s: seq<Locator>, j: nat, offset: nat, targetFileIndex: int)
    requires j < |s| && TargetOffset(s[j]) < offset < TargetEnd(s[j]) && offset <= UInt32Max
    requires 0 <= targetFileIndex <= UInt8Max
    ensures var p, r := s[j], SplitPart(s, j, offset, targetFileIndex);
      && (!CutsDecoded(p) && SplitDecodedSourceFrom(p) != 0 ==> r == Outcome(s, Some(ArgumentError)))
      && (CutsDecoded(p) && SplitDecodedSourceFrom(p) + offset - TargetOffset(p) <= UInt16Max ==> r.failure.None?)
      && (!CutsDecoded(p) && SplitDecodedSourceFrom(p) == 0 && SourceOffset(p) + offset - TargetOffset(p) <= UInt32Max ==> r.failure.None?)
      && (r.failure.None? ==>
        && |r.parts| == |s| + 1 && r.parts[..j] == s[..j] && r.parts[j + 2..] == s[j + 1..]
        && var a, b := r.parts[j], r.parts[j + 1];
          && TargetOffset(a) == TargetOffset(p) && TargetOffset(b) == offset
          && TargetSize(a) + TargetSize(b) == TargetSize(p)
          && SourceIndex(a) == SourceIndex(p) && SourceIndex(b) == SourceIndex(p)
          && TargetIndex(a) == targetFileIndex && TargetIndex(b) == targetFileIndex
          && SourceOffset(a) == SourceOffset(p)
          && (CutsDecoded(p) ==>
                SourceOffset(b) == SourceOffset(p) && SplitDecodedSourceFrom(b) == SplitDecodedSourceFrom(p) + offset - TargetOffset(p))
          && (!CutsDecoded(p) ==>
                SourceOffset(b) == SourceOffset(p) + offset - TargetOffset(p) && SplitDecodedSourceFrom(b) == 0))
  {
    var r := SplitPart(s, j, offset, targetFileIndex);
    if r.failure.None? {
      var a := FirstHalf(s[j], offset, targetFileIndex).value;
      var b := SecondHalf(s[j], offset, targetFileIndex).value;
      var s1 := s[j := a];
      assert s1[..j + 1] == s[..j] + [a] && s1[j + 1..] == s[j + 1..];
      assert r.parts == s[..j] + [a, b] + s[j + 1..];
      assert r.parts[..j] == s[..j] && r.parts[j + 2..] == s[j + 1..];
    }
  }

  /** An offset inside the file where no part starts is split in the part that contains it. */
  lemma SplitInteriorShape(s: seq<Locator>, offset: nat, targetFileIndex: int)
    requires Tiled(s) && offset !in Starts(s) && 0 < offset < FileSize(s) && offset <= UInt32Max
    ensures var j := LowerBound(s, offset) - 1;
      && 0 <= j < |s| && TargetOffset(s[j]) < offset < TargetEnd(s[j])
      && SplitSpec(s, offset, targetFileIndex) == SplitPart(s, j, offset, targetFileIndex)
  {
    assert Sorted(s) by { ChainFacts(s, 0); }
    SearchFinds(s, offset);
    var i := LowerBound(s, offset);
    assert 0 < i && (i < |s| || TargetEnd(s[i - 1]) > offset) by { ChainFacts(s, 0); }
    InteriorOffset(s, offset);
    SplitSpecInterior(s, offset, targetFileIndex);
  }

  /**
   * On a tiled list Update fails only as its two splits can fail; the range it then replaces is
   * never empty, so the negative-count RemoveRange guarded by the debugger break is never reached.
   */
  lemma UpdateFailures(s: seq<Locator>, part: Locator)
    requires Tiled(s)
    ensures var r := UpdateSpec(s, part);
      r.failure.None? || r.failure == Some(ValueTooBig) || r.failure == Some(ArgumentError)
  {
    if TargetSize(part) > 0 {
      var r1 := SplitSpec(s, TargetOffset(part), TargetIndex(part));
      SplitFailures(s, TargetOffset(part), TargetIndex(part));
      SplitKeepsBytes(s, TargetOffset(part), TargetIndex(part));
      if r1.failure.None? {
        var r2 := SplitSpec(r1.parts, TargetEnd(part), TargetIndex(part));
        SplitFailures(r1.parts, TargetEnd(part), TargetIndex(part));
        SplitKeepsBytes(r1.parts, TargetEnd(part), TargetIndex(part));
        if r2.failure.None? {
          ReplaceAfterSplits(s, part, r1.parts, r2.parts);
        }
      }
    }
  }

  /** FileSize is where the bytes of a tiled list end: exactly the offsets below it have an origin. */
  lemma FileSizeCovers(s: seq<Locator>)
    requires Tiled(s)
    ensures forall x :: ByteAt(s, x).Some? <==> 0 <= x < FileSize(s)
    ensures forall i :: 0 <= i < |s| ==> TargetEnd(s[i]) <= FileSize(s)
  {
    ChainFacts(s, 0);
  }

  // ---- The target file object ----

  /** A target file: its path and the list of parts, changed in place by SplitAt and Update. */
  class IndexedZiPatchTargetFile {
    var relativePath: string
    var parts: seq<Locator>

    constructor (fileName: string)
      ensures relativePath == fileName && parts == []
    {
      relativePath := fileName;
      parts := [];
    }

    /**
     * List.BinarySearch with a probe locator: lo and hi close in on `targetOffset`; a hit returns
     * its index, a miss the complement of the insertion index. Building the probe can throw.
     */
    method BinarySearchByTargetOffset(targetOffset: int) returns (r: Result<int>)
      requires Sorted(parts)
      ensures r == BinarySearchSpec(parts, targetOffset)
    {
      var probe := WithTargetOffset(Blank, targetOffset);
      if probe.Err? {
        return Err(probe.error);
      }
      var x := TargetOffset(probe.value);
      var lo, hi := 0, |parts| - 1;
      while lo <= hi
        invariant 0 <= lo <= hi + 1 <= |parts|
        invariant forall j :: 0 <= j < lo ==> TargetOffset(parts[j]) < x
        invariant forall j :: hi < j < |parts| ==> TargetOffset(parts[j]) > x
        decreases hi - lo
      {
        var i := lo + (hi - lo) / 2;
        var order := CompareTo(parts[i], probe.value);
        if order == 0 {
          LowerBoundUnique(parts, x, i);
          return Ok(i);
        }
        if order < 0 {
          lo := i + 1;
        } else {
          hi := i - 1;
        }
      }
      LowerBoundUnique(parts, x, lo);
      return Ok(-lo - 1);
    }

    /** SplitAt: make `offset` a part boundary, growing the file with zeros if it lies beyond the end. */
    method SplitAt(offset: nat, targetFileIndex: int) returns (failure: Option<Error>)
      requires Sorted(parts)
      modifies this
      ensures var r := SplitSpec(old(parts), offset, targetFileIndex);
        parts == r.parts && failure == r.failure
      ensures relativePath == old(relativePath)
    {
      var found := BinarySearchByTargetOffset(offset);
      if found.Err? {
        return Some(found.error);
      }
      if found.value >= 0 {
        return None;
      }
      var i := -found.value - 1;
      if i == 0 && offset == 0 {
        return None;
      } else if i == 0 && |parts| == 0 {
        var z := ZerosPart(0, offset, targetFileIndex);
        if z.Err? {
          return Some(z.error);
        }
        parts := parts + [z.value];
      } else if i == |parts| && TargetEnd(parts[i - 1]) == offset {
        return None;
      } else if i == |parts| && TargetEnd(parts[i - 1]) < offset {
        var end := TargetEnd(parts[i - 1]);
        var z := ZerosPart(end, offset - end, targetFileIndex);
        if z.Err? {
          return Some(z.error);
        }
        parts := parts + [z.value];
      } else if i == 0 {
        return Some(ArgumentOutOfRange);
      } else {
        i := i - 1;
        var part := parts[i];
        if !CutsDecoded(part) && SplitDecodedSourceFrom(part) != 0 {
          return Some(ArgumentError);
        }
        var a := FirstHalf(part, offset, targetFileIndex);
        if a.Err? {
          return Some(a.error);
        }
        parts := parts[i := a.value];
        var b := SecondHalf(part, offset, targetFileIndex);
        if b.Err? {
          return Some(b.error);
        }
        parts := parts[..i + 1] + [b.value] + parts[i + 1..];
      }
      return None;
    }

    /** Update: overwrite the range of `part` with `part`, splitting the parts at both of its ends first. */
    method Update(part: Locator) returns (failure: Option<Error>)
      requires Tiled(parts)
      modifies this
      ensures var r := UpdateSpec(old(parts), part);
        parts == r.parts && failure == r.failure
      ensures relativePath == old(relativePath)
    {
      if TargetSize(part) == 0 {
        return None;
      }
      ChainFacts(parts, 0);
      SplitKeepsBytes(parts, TargetOffset(part), TargetIndex(part));
      failure := SplitAt(TargetOffset(part), TargetIndex(part));
      if failure.Some? {
        return;
      }
      ChainFacts(parts, 0);
      ghost var t1 := parts;
      SplitKeepsBytes(parts, TargetEnd(part), TargetIndex(part));
      failure := SplitAt(TargetEnd(part), TargetIndex(part));
      if failure.Some? {
        return;
      }
      ChainFacts(parts, 0);
      assert ReplaceSpec(parts, part) == UpdateSpec(old(parts), part);
      // Both offsets fit 32 bits once the splits succeeded, so neither probe throws.
      var found := BinarySearchByTargetOffset(TargetOffset(part));
      var left := Complement(found.value);
      if left >= |parts| {
        parts := parts + [part];
        return None;
      }
      var found2 := BinarySearchByTargetOffset(TargetEnd(part));
      var right := Complement(found2.value);
      parts := parts[left := part];
      if right - left - 1 < 0 {
        return Some(ArgumentOutOfRange);
      }
      if right > |parts| {
        return Some(ArgumentError);
      }
      parts := parts[..left + 1] + parts[right..];
      return None;
    }
  }
}
