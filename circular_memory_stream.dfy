/**
 * CircularMemoryStream: a ring buffer over a byte array. The valid bytes run from `validFrom`
 * up to `validTo`, wrapping at the end of the array; `empty` tells a full ring (both ends equal)
 * from an empty one. The value-level functions below state each operation on a snapshot of the
 * fields; the class at the end performs them in place on the array and is proved against them.
 */
module CircularStream {
  import opened Wrappers
  import opened Ints

  /** Capacity grows in whole multiples of this many bytes. */
  const CapacityGrowthUnit: int := 16384
  /** The constructor asks the buffer pool for at least 14 bytes and gets its smallest size class. */
  const InitialCapacity: int := 16384

  datatype OverflowMode = ExtendCapacity | DiscardOldest
  datatype SeekOrigin = Begin | Current | End

  /** A snapshot of the stream's fields. */
  datatype Ring = Ring(buffer: seq<uint8>, validFrom: int, validTo: int, empty: bool, position: int)

  /** The invariant every operation keeps: both ends inside the array, an empty ring reset to 0. */
  predicate RingValid(r: Ring)
  {
    && |r.buffer| > 0
    && 0 <= r.validFrom < |r.buffer|
    && 0 <= r.validTo < |r.buffer|
    && (r.empty ==> r.validFrom == 0 && r.validTo == 0)
    && 0 <= r.position <= Int32Max
  }

  function Capacity(r: Ring): int { |r.buffer| }

  /** Length: the whole capacity when both ends meet and the ring is not empty, else the distance between them. */
  function RingLength(r: Ring): int
    requires |r.buffer| > 0
  {
    if r.validTo == r.validFrom && !r.empty then |r.buffer|
    else (r.validTo - r.validFrom + |r.buffer|) % |r.buffer|
  }

  lemma ModSmall(a: int, c: int)
    requires 0 < c && 0 <= a < 2 * c
    ensures a % c == if a < c then a else a - c
  {
    if a < c {
      assert a == 0 * c + a;
    } else {
      assert a == 1 * c + (a - c);
    }
  }

  /** Length by cases: 0 when empty, the plain distance when not wrapped, the wrapped distance otherwise. */
  lemma LengthCases(r: Ring)
    requires RingValid(r)
    ensures RingLength(r) == if r.empty then 0
      else if r.validFrom < r.validTo then r.validTo - r.validFrom
      else |r.buffer| - r.validFrom + r.validTo
  {
    ModSmall(r.validTo - r.validFrom + |r.buffer|, |r.buffer|);
  }

  /** Length never exceeds the capacity, and equals it exactly when both ends meet in a non-empty ring. */
  lemma LengthFull(r: Ring)
    requires RingValid(r)
    ensures 0 <= RingLength(r) <= Capacity(r)
    ensures RingLength(r) == Capacity(r) <==> r.validFrom == r.validTo && !r.empty
    ensures RingLength(r) == 0 <==> r.empty
  {
    LengthCases(r);
  }

  /** The valid bytes in order: the array rotated to start at `validFrom`, cut to the length. */
  function RingContents(r: Ring): (s: seq<uint8>)
    requires RingValid(r)
    ensures |s| == RingLength(r)
  {
    LengthFull(r);
    (r.buffer[r.validFrom..] + r.buffer[..r.validFrom])[..RingLength(r)]
  }

  /** The contents by cases: nothing, one slice, or the tail of the array followed by its head. */
  lemma ContentsCases(r: Ring)
    requires RingValid(r)
    ensures RingContents(r) == if r.empty then []
      else if r.validFrom < r.validTo then r.buffer[r.validFrom..r.validTo]
      else r.buffer[r.validFrom..] + r.buffer[..r.validTo]
  {
    LengthCases(r);
    var b, f, t := r.buffer, r.validFrom, r.validTo;
    if !r.empty && f >= t {
      assert (b[f..] + b[..f])[..|b| - f + t] == b[f..] + b[..t];
    } else if !r.empty {
      assert (b[f..] + b[..f])[..t - f] == b[f..t];
    }
  }

  /** Byte `i` of the contents sits at (validFrom + i) mod capacity in the array. */
  lemma ContentsAt(r: Ring, i: int)
    requires RingValid(r) && 0 <= i < RingLength(r)
    ensures (r.validFrom + i) % Capacity(r) == if r.validFrom + i < Capacity(r) then r.validFrom + i else r.validFrom + i - Capacity(r)
    ensures RingContents(r)[i] == r.buffer[(r.validFrom + i) % Capacity(r)]
  {
    LengthFull(r);
    ModSmall(r.validFrom + i, Capacity(r));
  }

  /** Array.Copy of `data` into `buf` at `at`. */
  function Write(buf: seq<uint8>, at: int, data: seq<uint8>): (r: seq<uint8>)
    requires 0 <= at && at + |data| <= |buf|
    ensures |r| == |buf|
  {
    buf[..at] + data + buf[at + |data|..]
  }

  function Last(s: seq<uint8>, n: nat): seq<uint8>
  {
    if |s| <= n then s else s[|s| - n..]
  }

  // ---- Reserve ----

  /** The capacity Reserve allocates: the request rounded up to a whole growth unit. */
  function RoundUp(capacity: int): int
  {
    (capacity + CapacityGrowthUnit - 1) / CapacityGrowthUnit * CapacityGrowthUnit
  }

  lemma RoundUpBounds(capacity: int)
    requires capacity > 0
    ensures RoundUp(capacity) % CapacityGrowthUnit == 0
    ensures capacity <= RoundUp(capacity) < capacity + CapacityGrowthUnit
  {
    var q := (capacity + CapacityGrowthUnit - 1) / CapacityGrowthUnit;
    assert q * CapacityGrowthUnit <= capacity + CapacityGrowthUnit - 1 < q * CapacityGrowthUnit + CapacityGrowthUnit;
  }

  /**
   * Reserve: a smaller request throws when truncation is asked for and otherwise does nothing, as
   * does the current capacity; a larger one moves the contents to the front of a new zeroed array.
   */
  function ReserveSpec(r: Ring, capacity: int, truncate: bool): (res: Result<Ring>)
    requires RingValid(r)
    ensures res.Err? <==> capacity < Capacity(r) && truncate
    ensures res.Err? ==> res.error == NotImplemented
    ensures res.Ok? ==> RingValid(res.value)
  {
    if capacity < Capacity(r) then
      if truncate then Err(NotImplemented) else Ok(r)
    else if capacity == Capacity(r) then Ok(r)
    else
      var c := RoundUp(capacity);
      var length := RingLength(r);
      RoundUpBounds(capacity);
      LengthFull(r);
      Ok(Ring(RingContents(r) + Zeros(c - length), 0, length, r.empty, r.position))
  }

  /**
   * A successful Reserve keeps the contents and the position; growing gives the least multiple of
   * the growth unit that holds the request, and any other request leaves the ring as it was.
   */
  lemma ReserveKeepsContents(r: Ring, capacity: int, truncate: bool)
    requires RingValid(r)
    ensures var res := ReserveSpec(r, capacity, truncate);
      res.Ok? ==>
        && RingContents(res.value) == RingContents(r)
        && res.value.position == r.position
        && (capacity > Capacity(r) ==>
              && Capacity(res.value) % CapacityGrowthUnit == 0
              && capacity <= Capacity(res.value) < capacity + CapacityGrowthUnit)
        && (capacity <= Capacity(r) ==> res.value == r)
  {
    if capacity > Capacity(r) {
      var r2 := ReserveSpec(r, capacity, truncate).value;
      RoundUpBounds(capacity);
      LengthFull(r);
      ContentsCases(r2);
      var length := RingLength(r);
      if !r.empty {
        assert r2.buffer[0..length] == RingContents(r);
      }
    }
  }

  // ---- Feed ----

  /** The copy at the end of Feed: `data` goes in after `validTo`, wrapping to the front of the array. */
  function FeedWrite(r: Ring, data: seq<uint8>): (r2: Ring)
    requires RingValid(r) && 0 < |data| && RingLength(r) + |data| <= Capacity(r)
    ensures RingValid(r2)
  {
    var t, cap := r.validTo, Capacity(r);
    LengthFull(r);
    if t + |data| < cap then
      r.(buffer := Write(r.buffer, t, data), validTo := (t + |data|) % cap, empty := false)
    else
      var n1 := cap - t;
      var n2 := |data| - n1;
      LengthCases(r);
      r.(buffer := Write(Write(r.buffer, t, data[..n1]), 0, data[n1..]), validTo := n2 % cap, empty := false)
  }

  /** DiscardOldest before a copy that would overflow: move `validFrom` so that only the newest `keepCount` bytes remain. */
  function DropOldest(r: Ring, keepCount: int): (r2: Ring)
    requires RingValid(r) && 0 < keepCount < RingLength(r)
    ensures RingValid(r2) && RingLength(r2) == keepCount && Capacity(r2) == Capacity(r)
  {
    var cap := Capacity(r);
    var r2 := r.(position := Max(0, r.position - (RingLength(r) - keepCount)),
                 validFrom := (r.validTo - keepCount + cap) % cap);
    LengthCases(r);
    ModSmall(r.validTo - keepCount + cap, cap);
    LengthCases(r2);
    r2
  }

  /** Feed: nothing for no bytes; when the bytes do not fit, grow or drop the oldest first; then copy them in. */
  function FeedSpec(mode: OverflowMode, r: Ring, data: seq<uint8>): (r2: Ring)
    requires RingValid(r)
    ensures RingValid(r2)
  {
    LengthFull(r);
    var cap := Capacity(r);
    if |data| == 0 then r
    else if RingLength(r) + |data| > cap then
      match mode
      case ExtendCapacity =>
        ReserveKeepsContents(r, RingLength(r) + |data|, false);
        FeedWrite(ReserveSpec(r, RingLength(r) + |data|, false).value, data)
      case DiscardOldest =>
        if |data| >= cap then Ring(data[|data| - cap..], 0, 0, false, 0)
        else FeedWrite(DropOldest(r, cap - |data|), data)
    else FeedWrite(r, data)
  }

  /** The copy of Feed appends exactly `data` to the contents. */
  lemma FeedWriteAppends(r: Ring, data: seq<uint8>)
    requires RingValid(r) && 0 < |data| && RingLength(r) + |data| <= Capacity(r)
    ensures RingContents(FeedWrite(r, data)) == RingContents(r) + data
    ensures FeedWrite(r, data).position == r.position && Capacity(FeedWrite(r, data)) == Capacity(r)
  {
    if r.validTo + |data| < Capacity(r) {
      FeedWriteStraight(r, data);
    } else {
      FeedWriteWrapped(r, data);
    }
  }

  lemma FeedWriteStraight(r: Ring, data: seq<uint8>)
    requires RingValid(r) && 0 < |data| && RingLength(r) + |data| <= Capacity(r)
    requires r.validTo + |data| < Capacity(r)
    ensures RingContents(FeedWrite(r, data)) == RingContents(r) + data
  {
    var r2 := FeedWrite(r, data);
    var b, f, t, cap, n := r.buffer, r.validFrom, r.validTo, Capacity(r), |data|;
    var b2 := Write(b, t, data);
    assert r2.validTo == t + n && r2.validFrom == f && !r2.empty && r2.buffer == b2 by {
      LengthCases(r);
      ModSmall(t + n, cap);
    }
    if r.empty {
      assert RingContents(r) == [] by {
        ContentsCases(r);
      }
      assert RingContents(r2) == b2[0..n] by {
        ContentsCases(r2);
      }
      assert b2[0..n] == data;
    } else if f < t {
      assert RingContents(r) == b[f..t] by {
        ContentsCases(r);
      }
      assert RingContents(r2) == b2[f..t + n] by {
        ContentsCases(r2);
      }
      assert b2[f..t + n] == b[f..t] + data;
    } else {
      assert t + n <= f by {
        LengthCases(r);
      }
      assert RingContents(r) == b[f..] + b[..t] by {
        ContentsCases(r);
      }
      assert RingContents(r2) == b2[f..] + b2[..t + n] by {
        ContentsCases(r2);
      }
      assert b2[f..] == b[f..];
      assert b2[..t + n] == b[..t] + data;
    }
  }

  lemma FeedWriteWrapped(r: Ring, data: seq<uint8>)
    requires RingValid(r) && 0 < |data| && RingLength(r) + |data| <= Capacity(r)
    requires r.validTo + |data| >= Capacity(r)
    ensures RingContents(FeedWrite(r, data)) == RingContents(r) + data
  {
    var b, f, t, cap, n := r.buffer, r.validFrom, r.validTo, Capacity(r), |data|;
    var n2 := n - (cap - t);
    var r2 := FeedWrite(r, data);
    assert n <= cap && n2 <= f <= t && r2.validTo == n2 by {
      LengthCases(r);
      ModSmall(n2, cap);
    }
    var b2 := Write(Write(b, t, data[..cap - t]), 0, data[cap - t..]);
    assert r2.buffer == b2;
    assert RingContents(r2) == b2[f..] + b2[..n2] by {
      ContentsCases(r2);
    }
    assert RingContents(r) == b[f..t] by {
      ContentsCases(r);
    }
    WrappedAppend(b, f, t, data);
  }

  /** After a wrapped copy, reading from `f` round to the new end gives the old bytes from `f` to `t`, then `data`. */
  lemma WrappedAppend(b: seq<uint8>, f: int, t: int, data: seq<uint8>)
    requires 0 <= t < |b| && |b| - t <= |data| <= |b|
    requires |data| - (|b| - t) <= f <= t
    ensures var n1 := |b| - t;
      var b2 := Write(Write(b, t, data[..n1]), 0, data[n1..]);
      b2[f..] + b2[..|data| - n1] == b[f..t] + data
  {
    var n1 := |b| - t;
    var m := |data| - n1;
    var w := Write(b, t, data[..n1]);
    assert w[f..] == b[f..t] + data[..n1] by {
      assert w == b[..t] + data[..n1];
    }
    var b2 := Write(w, 0, data[n1..]);
    assert b2[f..] == w[f..] && b2[..m] == data[n1..] by {
      assert b2 == data[n1..] + w[m..];
    }
    calc {
      b2[f..] + b2[..m];
      (b[f..t] + data[..n1]) + data[n1..];
      b[f..t] + (data[..n1] + data[n1..]);
      { assert data[..n1] + data[n1..] == data; }
      b[f..t] + data;
    }
  }

  /** In ExtendCapacity mode Feed appends exactly the given bytes and keeps the position. */
  lemma FeedExtends(r: Ring, data: seq<uint8>)
    requires RingValid(r)
    ensures var r2 := FeedSpec(ExtendCapacity, r, data);
      && RingContents(r2) == RingContents(r) + data
      && r2.position == r.position
      && Capacity(r2) >= Capacity(r)
  {
    LengthFull(r);
    if |data| > 0 {
      if RingLength(r) + |data| > Capacity(r) {
        ReserveKeepsContents(r, RingLength(r) + |data|, false);
        FeedWriteAppends(ReserveSpec(r, RingLength(r) + |data|, false).value, data);
      } else {
        FeedWriteAppends(r, data);
      }
    }
  }

  /**
   * In DiscardOldest mode Feed keeps the capacity and leaves the newest bytes: the last
   * Capacity bytes of the old contents followed by the new ones.
   */
  lemma FeedDiscards(r: Ring, data: seq<uint8>)
    requires RingValid(r)
    ensures var r2 := FeedSpec(DiscardOldest, r, data);
      && Capacity(r2) == Capacity(r)
      && RingContents(r2) == Last(RingContents(r) + data, Capacity(r))
  {
    LengthFull(r);
    var cap, all := Capacity(r), RingContents(r) + data;
    var r2 := FeedSpec(DiscardOldest, r, data);
    if |data| == 0 {
      assert all == RingContents(r);
    } else if RingLength(r) + |data| <= cap {
      FeedWriteAppends(r, data);
    } else if |data| >= cap {
      assert RingContents(r2) == data[|data| - cap..] by {
        ContentsCases(r2);
      }
      assert all[|all| - cap..] == data[|data| - cap..];
    } else {
      DiscardThenWrite(r, data);
    }
  }

  /** The middle case of DiscardOldest: some old bytes survive, the oldest are dropped. */
  lemma DiscardThenWrite(r: Ring, data: seq<uint8>)
    requires RingValid(r) && 0 < |data| < Capacity(r) < RingLength(r) + |data|
    ensures var r2 := FeedWrite(DropOldest(r, Capacity(r) - |data|), data);
      RingContents(r2) == Last(RingContents(r) + data, Capacity(r))
  {
    LengthFull(r);
    var cap, c := Capacity(r), RingContents(r);
    var keepCount := cap - |data|;
    var kept := DropOldest(r, keepCount);
    assert RingContents(FeedWrite(kept, data)) == c[RingLength(r) - keepCount..] + data by {
      KeptIsNewest(r, keepCount);
      FeedWriteAppends(kept, data);
    }
    var all := c + data;
    assert all[|all| - cap..] == c[RingLength(r) - keepCount..] + data;
  }

  /** Moving `validFrom` to `keepCount` bytes before `validTo` keeps the newest `keepCount` bytes. */
  lemma KeptIsNewest(r: Ring, keepCount: int)
    requires RingValid(r) && 0 < keepCount < RingLength(r)
    ensures RingContents(DropOldest(r, keepCount)) == RingContents(r)[RingLength(r) - keepCount..]
  {
    var kept := DropOldest(r, keepCount);
    var cap := Capacity(r);
    ModSmall(r.validTo - keepCount + cap, cap);
    LengthCases(r);
    var c, c2 := RingContents(r), RingContents(kept);
    forall i | 0 <= i < keepCount
      ensures c2[i] == c[RingLength(r) - keepCount + i]
    {
      ContentsAt(kept, i);
      ContentsAt(r, RingLength(r) - keepCount + i);
    }
  }

  // ---- Consume ----

  /** Consume's count: the request cut to the length. */
  function ConsumeCount(r: Ring, count: int): int
    requires RingValid(r)
  {
    Min(count, RingLength(r))
  }

  /**
   * Consume: a peek changes nothing; otherwise `validFrom` moves past the consumed bytes, a ring
   * emptied by it is reset to 0, and the position moves back by the count, not below 0.
   */
  function ConsumeSpec(r: Ring, count: int, peek: bool): (r2: Ring)
    requires RingValid(r) && count >= 0
  {
    var n, cap := ConsumeCount(r, count), Capacity(r);
    if peek then r
    else
      var from := (r.validFrom + n) % cap;
      var position := Max(0, r.position - n);
      if n > 0 && from == r.validTo then r.(validFrom := 0, validTo := 0, empty := true, position := position)
      else r.(validFrom := from, position := position)
  }

  /**
   * Consume removes exactly its count from the front of the contents and returns those bytes;
   * a peek returns the same bytes and leaves the ring as it was.
   */
  lemma ConsumeTakesFront(r: Ring, count: int, peek: bool)
    requires RingValid(r) && count >= 0
    ensures var n, r2 := ConsumeCount(r, count), ConsumeSpec(r, count, peek);
      && 0 <= n <= RingLength(r)
      && (n == count || n == RingLength(r))
      && RingValid(r2)
      && Capacity(r2) == Capacity(r)
      && (peek ==> r2 == r)
      && (!peek ==> RingContents(r2) == RingContents(r)[n..] && r2.position == Max(0, r.position - n))
  {
    var n, cap, len := ConsumeCount(r, count), Capacity(r), RingLength(r);
    assert 0 <= n <= len <= cap && (len == 0 <==> r.empty) by {
      LengthFull(r);
    }
    if !peek {
      var from := (r.validFrom + n) % cap;
      var position := Max(0, r.position - n);
      var r2 := ConsumeSpec(r, count, peek);
      assert r2.position == position && Capacity(r2) == cap;
      assert RingValid(r2) && RingContents(r2) == RingContents(r)[n..] by {
        if n > 0 && from == r.validTo {
          ConsumeEmpties(r, count);
        } else if n < len {
          ConsumeAdvances(r, count);
        } else {
          ConsumeNothing(r, count);
        }
      }
    }
  }

  /** A consume that reaches `validTo` takes every byte and leaves the ring reset and empty. */
  lemma ConsumeEmpties(r: Ring, count: int)
    requires RingValid(r) && count >= 0
    requires var n := ConsumeCount(r, count); n > 0 && (r.validFrom + n) % Capacity(r) == r.validTo
    ensures RingValid(ConsumeSpec(r, count, false))
    ensures RingContents(ConsumeSpec(r, count, false)) == RingContents(r)[ConsumeCount(r, count)..]
  {
    var n, cap, r2 := ConsumeCount(r, count), Capacity(r), ConsumeSpec(r, count, false);
    assert r2.empty && r2.validFrom == 0 && r2.validTo == 0 && r2.buffer == r.buffer;
    assert n == RingLength(r) by {
      LengthFull(r);
      ModSmall(r.validFrom + n, cap);
      LengthCases(r);
    }
    assert RingContents(r2) == [] by {
      ContentsCases(r2);
    }
  }

  /** A consume of fewer bytes than the length only moves `validFrom`. */
  lemma ConsumeAdvances(r: Ring, count: int)
    requires RingValid(r) && count >= 0
    requires var n := ConsumeCount(r, count); !(n > 0 && (r.validFrom + n) % Capacity(r) == r.validTo) && n < RingLength(r)
    ensures RingValid(ConsumeSpec(r, count, false))
    ensures RingContents(ConsumeSpec(r, count, false)) == RingContents(r)[ConsumeCount(r, count)..]
  {
    var n, cap, r2 := ConsumeCount(r, count), Capacity(r), ConsumeSpec(r, count, false);
    var r1 := r.(validFrom := (r.validFrom + n) % cap);
    assert r2 == r1.(position := r2.position);
    assert 0 <= n by {
      LengthFull(r);
    }
    AdvanceKeepsRest(r, n);
    assert RingContents(r2) == RingContents(r1);
  }

  /** The remaining case takes nothing from an empty ring. */
  lemma ConsumeNothing(r: Ring, count: int)
    requires RingValid(r) && count >= 0
    requires var n := ConsumeCount(r, count); !(n > 0 && (r.validFrom + n) % Capacity(r) == r.validTo) && n >= RingLength(r)
    ensures RingValid(ConsumeSpec(r, count, false))
    ensures RingContents(ConsumeSpec(r, count, false)) == RingContents(r)[ConsumeCount(r, count)..]
  {
    var n, cap, r2 := ConsumeCount(r, count), Capacity(r), ConsumeSpec(r, count, false);
    assert n == 0 && r.empty by {
      LengthFull(r);
      ModSmall(r.validFrom + n, cap);
      LengthCases(r);
    }
    assert r2 == r.(position := r2.position);
    assert RingContents(r2) == [] && RingContents(r) == [] by {
      ContentsCases(r);
      ContentsCases(r2);
    }
  }

  /** Moving `validFrom` forward by fewer than the length drops exactly that many bytes from the front. */
  lemma AdvanceKeepsRest(r: Ring, n: int)
    requires RingValid(r) && 0 <= n < RingLength(r)
    ensures var r2 := r.(validFrom := (r.validFrom + n) % Capacity(r));
      && RingValid(r2)
      && RingContents(r2) == RingContents(r)[n..]
  {
    var cap := Capacity(r);
    var r2 := r.(validFrom := (r.validFrom + n) % cap);
    LengthCases(r);
    ModSmall(r.validFrom + n, cap);
    LengthCases(r2);
    var c, c2 := RingContents(r), RingContents(r2);
    forall i | 0 <= i < |c2|
      ensures c2[i] == c[n + i]
    {
      ContentsAt(r2, i);
      ContentsAt(r, n + i);
    }
  }

  // ---- The indexer ----

  /** The indexer's getter: out of range below 0 or from the length on, else the byte (validFrom + i) mod capacity. */
  function GetSpec(r: Ring, i: int): (res: Result<uint8>)
    requires RingValid(r)
    ensures res.Err? ==> res.error == ArgumentOutOfRange
  {
    if i < 0 || i >= RingLength(r) then Err(ArgumentOutOfRange)
    else
      LengthFull(r);
      Ok(r.buffer[(r.validFrom + i) % Capacity(r)])
  }

  /** The indexer's setter: the same range check, then one byte of the array replaced. */
  function SetSpec(r: Ring, i: int, v: uint8): (res: Result<Ring>)
    requires RingValid(r)
    ensures res.Err? ==> res.error == ArgumentOutOfRange
  {
    if i < 0 || i >= RingLength(r) then Err(ArgumentOutOfRange)
    else
      LengthFull(r);
      Ok(r.(buffer := r.buffer[(r.validFrom + i) % Capacity(r) := v]))
  }

  /** The getter succeeds exactly inside [0, Length) and returns byte `i` of the contents. */
  lemma GetIsContents(r: Ring, i: int)
    requires RingValid(r)
    ensures GetSpec(r, i).Ok? <==> 0 <= i < RingLength(r)
    ensures GetSpec(r, i).Ok? ==> GetSpec(r, i).value == RingContents(r)[i]
  {
    if 0 <= i < RingLength(r) {
      ContentsAt(r, i);
    }
  }

  /** The setter succeeds exactly inside [0, Length) and changes byte `i` of the contents and nothing else. */
  lemma SetUpdatesContents(r: Ring, i: int, v: uint8)
    requires RingValid(r)
    ensures SetSpec(r, i, v).Ok? <==> 0 <= i < RingLength(r)
    ensures SetSpec(r, i, v).Ok? ==>
      var r2 := SetSpec(r, i, v).value;
      && RingValid(r2)
      && RingLength(r2) == RingLength(r)
      && RingContents(r2) == RingContents(r)[i := v]
      && r2.position == r.position
  {
    if 0 <= i < RingLength(r) {
      var r2 := SetSpec(r, i, v).value;
      var c, c2 := RingContents(r), RingContents(r2);
      ContentsAt(r, i);
      forall j | 0 <= j < |c2|
        ensures c2[j] == c[i := v][j]
      {
        ContentsAt(r, j);
        ContentsAt(r2, j);
      }
    }
  }

  // ---- Seek ----

  /** The position Seek asks for, in exact arithmetic; the end is the length minus the offset. */
  function SeekExact(r: Ring, offset: int64, origin: SeekOrigin): int
    requires RingValid(r)
  {
    match origin
    case Begin => offset
    case Current => r.position + offset
    case End => RingLength(r) - offset
  }

  /** The position Seek computes before its checks: a long, so the sum or difference wraps. */
  function SeekTarget(r: Ring, offset: int64, origin: SeekOrigin): int64
    requires RingValid(r) && Capacity(r) <= Int32Max
  {
    LengthFull(r);
    WrapInt64(SeekExact(r, offset, origin))
  }

  /** Seek: a position before the start throws, one past the end is clamped to the length. */
  function SeekSpec(r: Ring, offset: int64, origin: SeekOrigin): (res: Result<int>)
    requires RingValid(r) && Capacity(r) <= Int32Max
    ensures res.Err? ==> res.error == ArgumentError
  {
    var target := SeekTarget(r, offset, origin);
    if target < 0 then Err(ArgumentError)
    else Ok(Min(target, RingLength(r)))
  }

  /**
   * Seek fails exactly for a target before the start or one past the long range, which wraps to a
   * negative long; otherwise it lands inside [0, Length]: at the offset from the start, at the
   * position moved by the offset, or at the offset before the end.
   */
  lemma SeekLands(r: Ring, offset: int64, origin: SeekOrigin)
    requires RingValid(r) && Capacity(r) <= Int32Max
    ensures var res, len, exact := SeekSpec(r, offset, origin), RingLength(r), SeekExact(r, offset, origin);
      && (res.Err? <==> exact < 0 || exact > Int64Max)
      && (res.Ok? ==> 0 <= res.value <= len && res.value == Min(exact, len))
      && (origin == Begin && 0 <= offset <= len ==> res == Ok(offset))
      && (origin == Current && 0 <= r.position + offset <= len ==> res == Ok(r.position + offset))
      && (origin == End && 0 <= offset <= len ==> res == Ok(len - offset))
  {
    LengthFull(r);
  }

  // ---- SetLength ----

  /**
   * SetLength as written. A length of 0 resets the ring. Any other length first marks the ring
   * non-empty, then reserves when it exceeds the capacity, zero-fills after `validTo` when it
   * exceeds the length, or moves `validTo` back when it is below the length.
   */
  function SetLengthAsWritten(r: Ring, value: int64): (res: Result<Ring>)
    requires RingValid(r) && value >= 0
    ensures res.Err? <==> value > Int32Max
    ensures res.Ok? ==> RingValid(res.value)
  {
    if value > Int32Max then Err(ArgumentOutOfRange)
    else if value == 0 then Ok(r.(validFrom := 0, validTo := 0, empty := true))
    else
      var r0 := r.(empty := false);
      LengthFull(r0);
      if value > Capacity(r0) then ReserveSpec(r0, value, false)
      else if value > RingLength(r0) then Ok(FeedWrite(r0, Zeros(value - RingLength(r0))))
      else if value < RingLength(r0) then Ok(r0.(validTo := (r0.validFrom + value) % Capacity(r0)))
      else Ok(r0)
  }

  /**
   * SetLength as intended: 0 resets the ring, a smaller length keeps the first bytes, a larger
   * one grows the array when needed and appends zeros.
   */
  function SetLengthSpec(r: Ring, value: int64): (res: Result<Ring>)
    requires RingValid(r) && value >= 0
    ensures res.Err? <==> value > Int32Max
    ensures res.Ok? ==> RingValid(res.value)
  {
    LengthFull(r);
    if value > Int32Max then Err(ArgumentOutOfRange)
    else if value == 0 then Ok(r.(validFrom := 0, validTo := 0, empty := true))
    else if value < RingLength(r) then Ok(r.(validTo := (r.validFrom + value) % Capacity(r)))
    else if value == RingLength(r) then Ok(r)
    else Ok(LengthenSpec(r, value))
  }

  /** The growing branch of the intended SetLength: reserve when the array is too small, then append zeros. */
  function LengthenSpec(r: Ring, value: int): (r2: Ring)
    requires RingValid(r) && RingLength(r) < value
    ensures RingValid(r2)
  {
    ReserveKeepsContents(r, value, false);
    var r1 := if value > Capacity(r) then ReserveSpec(r, value, false).value else r;
    FeedWrite(r1, Zeros(value - RingLength(r)))
  }

  /** Moving `validTo` back to `value` bytes after `validFrom` keeps the first `value` bytes. */
  lemma TruncateKeepsFront(r: Ring, value: int)
    requires RingValid(r) && 0 < value < RingLength(r)
    ensures var r2 := r.(validTo := (r.validFrom + value) % Capacity(r));
      && RingValid(r2)
      && RingContents(r2) == RingContents(r)[..value]
  {
    var cap := Capacity(r);
    var r2 := r.(validTo := (r.validFrom + value) % cap);
    LengthFull(r);
    ModSmall(r.validFrom + value, cap);
    LengthCases(r2);
    var c, c2 := RingContents(r), RingContents(r2);
    forall i | 0 <= i < |c2|
      ensures c2[i] == c[i]
    {
      ContentsAt(r2, i);
      ContentsAt(r, i);
    }
  }

  /** The intended SetLength resizes the contents: cut to the new length, or padded with zeros to it. */
  lemma SetLengthResizes(r: Ring, value: int64)
    requires RingValid(r) && 0 <= value <= Int32Max
    ensures var r2 := SetLengthSpec(r, value).value;
      && RingContents(r2) == (if value <= RingLength(r) then RingContents(r)[..value]
                              else RingContents(r) + Zeros(value - RingLength(r)))
      && r2.position == r.position
  {
    LengthFull(r);
    if value == 0 {
      ContentsCases(SetLengthSpec(r, value).value);
    } else if value < RingLength(r) {
      TruncateKeepsFront(r, value);
    } else if value > RingLength(r) {
      ReserveKeepsContents(r, value, false);
      var r1 := if value > Capacity(r) then ReserveSpec(r, value, false).value else r;
      FeedWriteAppends(r1, Zeros(value - RingLength(r)));
    }
  }

  /** For a non-empty ring and a length within the capacity the source does what is intended. */
  lemma SetLengthAsWrittenAgrees(r: Ring, value: int64)
    requires RingValid(r) && !r.empty && 0 < value <= Capacity(r)
    ensures SetLengthAsWritten(r, value) == SetLengthSpec(r, value)
  {
    assert r.(empty := false) == r;
  }

  /**
   * On an empty ring, marking it non-empty first makes its length the whole capacity, so SetLength
   * exposes the bytes already in the array instead of zeros.
   */
  lemma SetLengthOnEmptyExposesBuffer(r: Ring, value: int64)
    requires RingValid(r) && r.empty && 0 < value <= Capacity(r) && value <= Int32Max
    ensures RingContents(SetLengthAsWritten(r, value).value) == r.buffer[..value]
  {
    var r0 := r.(empty := false);
    LengthCases(r0);
    ContentsCases(r0);
    if value < Capacity(r) {
      TruncateKeepsFront(r0, value);
    }
  }

  /** Beyond the capacity SetLength only reserves: the length stays what it was, not the value asked for. */
  lemma SetLengthBeyondCapacityKeepsLength(r: Ring, value: int64)
    requires RingValid(r) && !r.empty && Capacity(r) < value <= Int32Max
    ensures RingLength(SetLengthAsWritten(r, value).value) == RingLength(r) < value
  {
    assert r.(empty := false) == r;
    LengthFull(r);
    ReserveKeepsContents(r, value, false);
  }

  /** A new stream's ring: a zeroed array of the initial capacity, empty, at position 0. */
  function InitialRing(): (r: Ring)
    ensures RingValid(r) && RingContents(r) == []
  {
    var r := Ring(Zeros(InitialCapacity), 0, 0, true, 0);
    ContentsCases(r);
    r
  }

  /**
   * Feeding [1, 2, 3] to a new stream, consuming them and then setting the length to 2 gives the
   * stale bytes [1, 2]; the intended SetLength gives [0, 0].
   */
  lemma StaleBytesAfterConsume()
    ensures var r := ConsumeSpec(FeedSpec(ExtendCapacity, InitialRing(), [1, 2, 3]), 3, false);
      && RingContents(r) == []
      && RingContents(SetLengthAsWritten(r, 2).value) == [1, 2]
      && RingContents(SetLengthSpec(r, 2).value) == [0, 0]
  {
    var r0 := InitialRing();
    var fed := FeedSpec(ExtendCapacity, r0, [1, 2, 3]);
    FeedExtends(r0, [1, 2, 3]);
    ConsumeTakesFront(fed, 3, false);
    var r := ConsumeSpec(fed, 3, false);
    assert r.empty && r.buffer[..3] == [1, 2, 3] by {
      LengthFull(fed);
      assert fed.buffer == Write(r0.buffer, 0, [1, 2, 3]);
    }
    SetLengthOnEmptyExposesBuffer(r, 2);
    SetLengthResizes(r, 2);
  }

  // ---- Array copies ----

  /** Two copies side by side are one copy of the joined bytes. */
  lemma WriteJoin(d: seq<uint8>, at: int, x: seq<uint8>, y: seq<uint8>)
    requires 0 <= at && at + |x| + |y| <= |d|
    ensures Write(Write(d, at, x), at + |x|, y) == Write(d, at, x + y)
  {
  }

  /** Copying after a prefix into a zeroed tail keeps the prefix and leaves zeros after the copy. */
  lemma WriteAfter(x: seq<uint8>, k: nat, y: seq<uint8>)
    requires |y| <= k
    ensures Write(x + Zeros(k), |x|, y) == x + y + Zeros(k - |y|)
  {
    assert (x + Zeros(k))[|x| + |y|..] == Zeros(k - |y|);
  }

  /** Array.Copy of a whole run of bytes into an array. */
  method CopyFrom(src: seq<uint8>, dst: array<uint8>, dstOffset: int)
    requires 0 <= dstOffset && dstOffset + |src| <= dst.Length
    modifies dst
    ensures dst[..] == Write(old(dst[..]), dstOffset, src)
  {
    var i := 0;
    while i < |src|
      invariant 0 <= i <= |src|
      invariant forall k :: 0 <= k < dst.Length ==>
          dst[k] == if dstOffset <= k < dstOffset + i then src[k - dstOffset] else old(dst[k])
    {
      dst[dstOffset + i] := src[i];
      i := i + 1;
    }
    assert dst[..] == Write(old(dst[..]), dstOffset, src);
  }

  /** Array.Clear of `count` bytes from `at`. */
  method Clear(dst: array<uint8>, at: int, count: int)
    requires 0 <= at && 0 <= count && at + count <= dst.Length
    modifies dst
    ensures dst[..] == Write(old(dst[..]), at, Zeros(count))
  {
    var i := 0;
    while i < count
      invariant 0 <= i <= count
      invariant forall k :: 0 <= k < dst.Length ==>
          dst[k] == if at <= k < at + i then 0 else old(dst[k])
    {
      dst[at + i] := 0;
      i := i + 1;
    }
    assert dst[..] == Write(old(dst[..]), at, Zeros(count));
  }

  /** The array after SetLength's Array.Clear calls, straight or wrapped at the end of the array. */
  function Cleared(b: seq<uint8>, t: int, to: int): seq<uint8>
    requires 0 <= t < |b| && 0 <= to < |b|
  {
    if t < to then Write(b, t, Zeros(to - t)) else Write(Write(b, t, Zeros(|b| - t)), 0, Zeros(to))
  }

  /** SetLength's zero fill is the copy of Feed with zeros. */
  lemma ClearIsFeedWrite(r: Ring, n: int)
    requires RingValid(r) && 0 < n && RingLength(r) + n <= Capacity(r)
    ensures var to := (r.validTo + n) % Capacity(r);
      && 0 <= to < Capacity(r)
      && (r.validTo >= to ==> to <= r.validTo)
      && FeedWrite(r, Zeros(n)) == r.(buffer := Cleared(r.buffer, r.validTo, to), validTo := to, empty := false)
  {
    var t, cap := r.validTo, Capacity(r);
    assert n <= cap && (t + n) % cap == if t + n < cap then t + n else t + n - cap by {
      LengthFull(r);
      ModSmall(t + n, cap);
    }
    if t + n >= cap {
      assert (t + n - cap) % cap == t + n - cap by {
        ModSmall(t + n - cap, cap);
      }
      assert Zeros(n)[..cap - t] == Zeros(cap - t);
      assert Zeros(n)[cap - t..] == Zeros(t + n - cap);
    }
  }

  /** The one or two runs Reserve copies out of a non-empty ring are its contents. */
  lemma MovedRuns(r: Ring)
    requires RingValid(r) && !r.empty
    ensures r.validFrom < r.validTo ==>
      r.validFrom + RingLength(r) == r.validTo && RingContents(r) == r.buffer[r.validFrom..r.validFrom + RingLength(r)] + []
    ensures r.validFrom >= r.validTo ==> RingContents(r) == r.buffer[r.validFrom..Capacity(r)] + r.buffer[..r.validTo]
  {
    LengthCases(r);
    ContentsCases(r);
  }

  /** The copy of Feed when the bytes fit before the end of the array, in the terms FeedCopy uses. */
  lemma FeedWriteStraightIs(r: Ring, d: seq<uint8>, b1: seq<uint8>)
    requires RingValid(r) && 0 < |d| && RingLength(r) + |d| <= Capacity(r)
    requires r.validTo + |d| < Capacity(r)
    requires b1 == Write(r.buffer, r.validTo, d)
    ensures FeedWrite(r, d) == Ring(b1, r.validFrom, (r.validTo + |d|) % Capacity(r), false, r.position)
  {
  }

  /** The copy of Feed when the bytes wrap to the front of the array, in the terms FeedCopy uses. */
  lemma FeedWriteWrappedIs(r: Ring, d: seq<uint8>, n1: int, b2: seq<uint8>)
    requires RingValid(r) && 0 < |d| && RingLength(r) + |d| <= Capacity(r)
    requires r.validTo + |d| >= Capacity(r) && n1 == Capacity(r) - r.validTo
    requires b2 == Write(Write(r.buffer, r.validTo, d[..n1]), 0, d[n1..])
    ensures FeedWrite(r, d) == Ring(b2, r.validFrom, (|d| - n1) % Capacity(r), false, r.position)
  {
  }

  /** The bytes Consume copies out: one slice, or the tail of the array and then its head. */
  lemma ConsumedBytes(r: Ring, n: int)
    requires RingValid(r) && 0 < n <= RingLength(r)
    ensures var b, f, t := r.buffer, r.validFrom, r.validTo;
      var c1 := Min(n, |b| - f);
      && (f < t ==> RingContents(r)[..n] == b[f..f + n])
      && (f >= t ==> RingContents(r)[..n] == b[f..f + c1] + b[0..n - c1])
  {
    var b, f, t := r.buffer, r.validFrom, r.validTo;
    LengthCases(r);
    ContentsCases(r);
    var c1 := Min(n, |b| - f);
    if f >= t {
      assert (b[f..] + b[..t])[..n] == b[f..f + c1] + b[0..n - c1];
    }
  }

  /** Two runs copied one after the other to the front of zeroed bytes. */
  lemma TwoRuns(c: int, s1: seq<uint8>, s2: seq<uint8>)
    requires 0 <= |s1| + |s2| <= c
    ensures Write(Write(Zeros(c), 0, s1), |s1|, s2) == s1 + s2 + Zeros(c - |s1| - |s2|)
  {
    assert Write(Zeros(c), 0, s1) == s1 + Zeros(c - |s1|) by {
      WriteAfter([], c, s1);
      assert [] + Zeros(c) == Zeros(c);
      assert [] + s1 == s1;
    }
    WriteAfter(s1, c - |s1|, s2);
  }

  /** A new zeroed array of `c` bytes with two runs copied to its front, one after the other. */
  method NewArrayWith(c: int, s1: seq<uint8>, s2: seq<uint8>) returns (a: array<uint8>)
    requires 0 <= |s1| + |s2| <= c
    ensures fresh(a) && a[..] == s1 + s2 + Zeros(c - |s1| - |s2|)
  {
    a := new uint8[c](_ => 0);
    ghost var z := a[..];
    assert z == Zeros(c);
    CopyFrom(s1, a, 0);
    CopyFrom(s2, a, |s1|);
    assert a[..] == Write(Write(z, 0, s1), |s1|, s2);
    TwoRuns(c, s1, s2);
  }

  // ---- The stream object ----

  /** The stream: a byte array and the four fields that say which of its bytes are valid, changed in place. */
  class CircularMemoryStream {
    const overflowMode: OverflowMode
    var buffer: array<uint8>
    var validFrom: int
    var validTo: int
    var empty: bool
    var externalPosition: int

    /** The fields as a value. */
    ghost function State(): Ring
      reads this, buffer
    {
      Ring(buffer[..], validFrom, validTo, empty, externalPosition)
    }

    ghost predicate Valid()
      reads this, buffer
    {
      RingValid(State())
    }

    /** A new stream: an empty ring over an array of the smallest pool size. */
    constructor (mode: OverflowMode)
      ensures Valid() && overflowMode == mode && State() == InitialRing()
    {
      overflowMode := mode;
      var a := new uint8[InitialCapacity](_ => 0);
      assert a[..] == Zeros(InitialCapacity);
      buffer := a;
      validFrom, validTo, empty, externalPosition := 0, 0, true, 0;
    }

    /** The number of valid bytes. */
    function Length(): (n: int)
      reads this, buffer
      requires Valid()
      ensures n == RingLength(State())
    {
      if validTo == validFrom && !empty then buffer.Length
      else (validTo - validFrom + buffer.Length) % buffer.Length
    }

    /** Reserve: throw, do nothing, or move the contents to the front of a larger zeroed array. */
    method Reserve(capacity: int, truncate: bool) returns (failure: Option<Error>)
      requires Valid()
      modifies this`buffer, this`validFrom, this`validTo
      ensures Valid() && (buffer == old(buffer) || fresh(buffer))
      ensures var res := ReserveSpec(old(State()), capacity, truncate);
        if res.Err? then failure == Some(res.error) && State() == old(State())
        else failure == None && State() == res.value
    {
      if capacity < buffer.Length {
        if truncate {
          return Some(NotImplemented);
        }
        return None;
      }
      if capacity == buffer.Length {
        return None;
      }
      Grow(capacity);
      return None;
    }

    /** The runs Reserve copies into the new array: none when empty, one when not wrapped, else the tail then the head. */
    method MovedOut() returns (s1: seq<uint8>, s2: seq<uint8>)
      requires Valid()
      ensures s1 + s2 == RingContents(State())
    {
      ghost var r := State();
      s1, s2 := [], [];
      if !empty {
        MovedRuns(r);
        if validFrom < validTo {
          s1 := buffer[validFrom..validTo];
        } else {
          s1, s2 := buffer[validFrom..buffer.Length], buffer[..validTo];
        }
      } else {
        ContentsCases(r);
      }
    }

    /** The growing branch of Reserve: copy the contents to the front of a zeroed array of whole growth units. */
    method Grow(capacity: int)
      requires Valid() && capacity > buffer.Length
      modifies this`buffer, this`validFrom, this`validTo
      ensures Valid() && fresh(buffer)
      ensures State() == ReserveSpec(old(State()), capacity, false).value
    {
      ghost var r := State();
      var cap := buffer.Length;
      var c := (capacity + CapacityGrowthUnit - 1) / CapacityGrowthUnit * CapacityGrowthUnit;
      var length := Length();
      assert c >= cap && 0 <= length <= cap && (!empty && validFrom < validTo ==> length == validTo - validFrom) by {
        RoundUpBounds(capacity);
        LengthCases(r);
      }
      var s1, s2 := MovedOut();
      var newBuffer := NewArrayWith(c, s1, s2);
      ghost var moved := newBuffer[..];
      buffer := newBuffer;
      validFrom := 0;
      validTo := length;
      assert State() == Ring(moved, 0, length, r.empty, r.position);
      assert moved == RingContents(r) + Zeros(c - length);
      assert State() == ReserveSpec(r, capacity, false).value;
    }

    /** The copy at the end of Feed, once the bytes fit. */
    method FeedCopy(data: seq<uint8>)
      requires Valid() && 0 < |data| && RingLength(State()) + |data| <= buffer.Length
      modifies this`validTo, this`empty, buffer
      ensures buffer == old(buffer) && Valid()
      ensures State() == FeedWrite(old(State()), data)
    {
      ghost var r := State();
      var cap, count := buffer.Length, |data|;
      if validTo + count < cap {
        CopyFrom(data, buffer, validTo);
        ghost var b1 := buffer[..];
        validTo := (validTo + count) % cap;
        empty := false;
        assert buffer[..] == b1;
        FeedWriteStraightIs(r, data, b1);
      } else {
        var feedLength1 := cap - validTo;
        CopyFrom(data[..feedLength1], buffer, validTo);
        CopyFrom(data[feedLength1..], buffer, 0);
        ghost var b2 := buffer[..];
        validTo := (count - feedLength1) % cap;
        empty := false;
        assert buffer[..] == b2;
        FeedWriteWrappedIs(r, data, feedLength1, b2);
      }
    }

    /** DiscardOldest with at least a whole array of new bytes: keep only the last Capacity of them. */
    method FeedReplacing(data: seq<uint8>)
      requires Valid() && |data| >= buffer.Length
      modifies this`validFrom, this`validTo, this`empty, this`externalPosition, buffer
      ensures buffer == old(buffer) && Valid()
      ensures State() == Ring(data[|data| - old(buffer.Length)..], 0, 0, false, 0)
    {
      var cap := buffer.Length;
      validFrom, validTo := 0, 0;
      CopyFrom(data[|data| - cap..], buffer, 0);
      externalPosition := 0;
      empty := false;
    }

    /** DiscardOldest with fewer new bytes than the array holds: move `validFrom` to drop the oldest. */
    method DropOldestFor(count: int)
      requires Valid() && 0 < count < buffer.Length < RingLength(State()) + count
      modifies this`validFrom, this`externalPosition
      ensures Valid()
      ensures State() == DropOldest(old(State()), old(buffer.Length) - count)
    {
      ghost var r := State();
      var keepCount := buffer.Length - count;
      var length := Length();
      externalPosition := Max(0, externalPosition - (length - keepCount));
      validFrom := (validTo - keepCount + buffer.Length) % buffer.Length;
      assert buffer[..] == r.buffer;
    }

    /**
     * Feed: append the bytes, growing the array or dropping the oldest bytes first when they do
     * not fit. The caller's array slice is passed as the sequence of its bytes.
     */
    method Feed(data: seq<uint8>)
      requires Valid()
      modifies this, buffer
      ensures Valid() && (buffer == old(buffer) || fresh(buffer))
      ensures State() == FeedSpec(overflowMode, old(State()), data)
    {
      var count := |data|;
      if count == 0 {
        return;
      }
      var length := Length();
      if length + count <= buffer.Length {
        FeedCopy(data);
      } else if overflowMode == ExtendCapacity {
        FeedGrowing(data);
      } else {
        FeedDiscarding(data);
      }
    }

    /** Feed in ExtendCapacity mode when the bytes do not fit: grow the array first. */
    method FeedGrowing(data: seq<uint8>)
      requires Valid() && 0 < |data| && RingLength(State()) + |data| > buffer.Length
      modifies this, buffer
      ensures Valid() && fresh(buffer)
      ensures State() == FeedSpec(ExtendCapacity, old(State()), data)
    {
      ghost var r := State();
      var length := Length();
      var _ := Reserve(length + |data|, false);
      ghost var r1 := State();
      assert r1 == ReserveSpec(r, length + |data|, false).value;
      assert RingLength(r1) + |data| <= buffer.Length by {
        ReserveKeepsContents(r, length + |data|, false);
      }
      FeedCopy(data);
      assert State() == FeedWrite(r1, data);
    }

    /** Feed in DiscardOldest mode when the bytes do not fit: drop the oldest bytes first. */
    method FeedDiscarding(data: seq<uint8>)
      requires Valid() && 0 < |data| && RingLength(State()) + |data| > buffer.Length
      modifies this, buffer
      ensures Valid() && buffer == old(buffer)
      ensures State() == FeedSpec(DiscardOldest, old(State()), data)
    {
      if |data| >= buffer.Length {
        FeedReplacing(data);
      } else {
        DropOldestFor(|data|);
        ghost var r1 := State();
        FeedCopy(data);
        assert State() == FeedWrite(r1, data);
      }
    }

    /**
     * Consume: copy up to `count` bytes from the front into `dest` when it is given, and unless
     * peeking, drop them. Returns how many bytes that was.
     */
    method Consume(dest: array?<uint8>, offset: int, count: int, peek: bool) returns (n: int)
      requires Valid() && count >= 0 && dest != buffer
      requires dest != null ==> 0 <= offset && offset + ConsumeCount(State(), count) <= dest.Length
      modifies this`validFrom, this`validTo, this`empty, this`externalPosition, dest
      ensures Valid() && buffer == old(buffer)
      ensures n == ConsumeCount(old(State()), count)
      ensures State() == ConsumeSpec(old(State()), count, peek)
      ensures dest != null ==> dest[..] == Write(old(dest[..]), offset, old(RingContents(State()))[..n])
    {
      n := Min(count, Length());
      if dest != null && n > 0 {
        CopyFront(dest, offset, n);
      }
      if !peek {
        Drop(count);
      }
    }

    /** The end of Consume when not peeking: move `validFrom` past the bytes, reset an emptied ring, move the position back. */
    method Drop(count: int)
      requires Valid() && count >= 0
      modifies this`validFrom, this`validTo, this`empty, this`externalPosition
      ensures Valid()
      ensures State() == ConsumeSpec(old(State()), count, false)
    {
      ghost var r := State();
      var n := Min(count, Length());
      validFrom := (validFrom + n) % buffer.Length;
      if n > 0 && validFrom == validTo {
        validFrom, validTo := 0, 0;
        empty := true;
      }
      externalPosition := Max(0, externalPosition - n);
      assert State() == ConsumeSpec(r, count, false);
      ConsumeTakesFront(r, count, false);
    }

    /** Consume's copy of the first `n` bytes into `dest`: one run, or the tail of the array and then its head. */
    method CopyFront(dest: array<uint8>, offset: int, n: int)
      requires Valid() && dest != buffer && 0 < n <= RingLength(State())
      requires 0 <= offset && offset + n <= dest.Length
      modifies dest
      ensures dest[..] == Write(old(dest[..]), offset, RingContents(State())[..n])
    {
      ghost var front := RingContents(State())[..n];
      ghost var d0 := dest[..];
      var s1, s2 := FrontRuns(n);
      CopyFrom(s1, dest, offset);
      CopyFrom(s2, dest, offset + |s1|);
      WriteJoin(d0, offset, s1, s2);
    }

    /** The runs Consume copies out for `n` bytes: one when not wrapped, else up to the end of the array and then from 0. */
    method FrontRuns(n: int) returns (s1: seq<uint8>, s2: seq<uint8>)
      requires Valid() && 0 < n <= RingLength(State())
      ensures s1 + s2 == RingContents(State())[..n]
    {
      ghost var r := State();
      var cap := buffer.Length;
      if validFrom < validTo {
        assert validFrom + n <= validTo by {
          LengthCases(r);
        }
        s1, s2 := buffer[validFrom..validFrom + n], [];
        assert s1 == RingContents(r)[..n] by {
          ConsumedBytes(r, n);
        }
      } else {
        var consumeCount1 := Min(n, cap - validFrom);
        var consumeCount2 := n - consumeCount1;
        assert consumeCount2 <= validTo by {
          LengthCases(r);
        }
        s1, s2 := buffer[validFrom..validFrom + consumeCount1], buffer[0..consumeCount2];
        ConsumedBytes(r, n);
      }
    }

    /** The indexer's getter. */
    method Get(i: int) returns (res: Result<uint8>)
      requires Valid()
      ensures res == GetSpec(State(), i)
    {
      if i < 0 || i >= Length() {
        return Err(ArgumentOutOfRange);
      }
      LengthFull(State());
      return Ok(buffer[(validFrom + i) % buffer.Length]);
    }

    /** The indexer's setter. */
    method Set(i: int, v: uint8) returns (failure: Option<Error>)
      requires Valid()
      modifies buffer
      ensures Valid()
      ensures var res := SetSpec(old(State()), i, v);
        if res.Err? then failure == Some(res.error) && State() == old(State())
        else failure == None && State() == res.value
    {
      if i < 0 || i >= Length() {
        return Some(ArgumentOutOfRange);
      }
      LengthFull(State());
      buffer[(validFrom + i) % buffer.Length] := v;
      return None;
    }

    /** Seek: move the position, refusing a target before the start and clamping one past the end. */
    method Seek(offset: int64, origin: SeekOrigin) returns (res: Result<int>)
      requires Valid() && buffer.Length <= Int32Max
      modifies this
      ensures buffer == old(buffer) && Valid()
      ensures res == SeekSpec(old(State()), offset, origin)
      ensures State() == if res.Ok? then old(State()).(position := res.value) else old(State())
    {
      LengthFull(State());
      var newPosition: int64 := externalPosition;
      match origin {
        case Begin =>
          newPosition := offset;
        case Current =>
          newPosition := WrapInt64(newPosition + offset);
        case End =>
          newPosition := WrapInt64(Length() - offset);
      }
      if newPosition < 0 {
        return Err(ArgumentError);
      }
      if newPosition > Length() {
        newPosition := Length();
      }
      externalPosition := newPosition;
      return Ok(newPosition);
    }

    /** The zero fill of SetLength: clear the bytes after `validTo`, wrapping, and move `validTo` past them. */
    method ZeroExtend(extendLength: int)
      requires Valid() && 0 < extendLength && RingLength(State()) + extendLength <= buffer.Length
      modifies this`validTo, this`empty, buffer
      ensures buffer == old(buffer) && Valid()
      ensures State() == FeedWrite(old(State()), Zeros(extendLength))
    {
      ghost var r := State();
      var newValidTo := (validTo + extendLength) % buffer.Length;
      ClearIsFeedWrite(r, extendLength);
      ClearFrom(newValidTo);
      ghost var b := buffer[..];
      validTo := newValidTo;
      empty := false;
      assert buffer[..] == b;
      assert State() == r.(buffer := b, validTo := newValidTo, empty := false);
      assert State() == FeedWrite(r, Zeros(extendLength));
    }

    /** SetLength's Array.Clear calls: zero from `validTo` up to `to`, wrapping at the end of the array. */
    method ClearFrom(to: int)
      requires 0 <= validTo < buffer.Length && 0 <= to < buffer.Length
      modifies buffer
      ensures buffer[..] == Cleared(old(buffer[..]), validTo, to)
    {
      if validTo < to {
        Clear(buffer, validTo, to - validTo);
      } else {
        Clear(buffer, validTo, buffer.Length - validTo);
        Clear(buffer, 0, to);
      }
    }

    /**
     * SetLength as intended: reset for 0, cut for a smaller length, grow and zero-fill for a larger
     * one. The code as written is SetLengthAsWritten.
     */
    method SetLength(value: int64) returns (failure: Option<Error>)
      requires Valid() && value >= 0
      modifies this, buffer
      ensures Valid() && (buffer == old(buffer) || fresh(buffer))
      ensures var res := SetLengthSpec(old(State()), value);
        if res.Err? then failure == Some(res.error) && State() == old(State())
        else failure == None && State() == res.value
    {
      if value > Int32Max {
        return Some(ArgumentOutOfRange);
      }
      if value == 0 {
        validFrom, validTo, empty := 0, 0, true;
        return None;
      }
      ghost var r := State();
      LengthFull(r);
      var length := Length();
      if value < length {
        validTo := (validFrom + value) % buffer.Length;
      } else if value > length {
        Lengthen(value);
      }
      return None;
    }

    /** SetLength's growing branch: reserve room for `value` bytes, then zero-fill up to it. */
    method Lengthen(value: int)
      requires Valid() && RingLength(State()) < value
      modifies this`buffer, this`validFrom, this`validTo, this`empty, buffer
      ensures Valid() && (buffer == old(buffer) || fresh(buffer))
      ensures State() == LengthenSpec(old(State()), value)
    {
      ghost var r := State();
      var length := Length();
      ReserveKeepsContents(r, value, false);
      if value > buffer.Length {
        var _ := Reserve(value, false);
      }
      ZeroExtend(value - length);
    }
  }
}
