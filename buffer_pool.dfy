/**
 * The pool of reusable byte buffers: one manager per size class, each holding a fixed number
 * of slots. Allocate takes the first pooled buffer or makes a new one; disposing of a buffer
 * returns it to the first empty slot of its manager, or drops it when every slot is full.
 */
module BufferPool {
  import opened Ints

  /** ArraySizes: 16 KiB, 64 KiB, 256 KiB, 1 MiB and 4 MiB. */
  const ArraySizes: seq<nat> := [0x4000, 0x1_0000, 0x4_0000, 0x10_0000, 0x40_0000]

  /** A buffer, with the memory stream over it; the stream is its length and position. */
  class Allocation {
    const manager: ReusableByteBufferManager?
    const buffer: array<uint8>
    var streamLength: int
    var streamPosition: int

    /** A buffer made for a manager has that manager's size. */
    predicate Valid()
    {
      manager != null ==> buffer.Length == manager.arraySize
    }

    /** A new zeroed buffer; a MemoryStream over an array starts with the array's length, at position 0. */
    constructor (b: ReusableByteBufferManager?, size: nat)
      ensures manager == b && fresh(buffer) && buffer.Length == size
      ensures forall i :: 0 <= i < size ==> buffer[i] == 0
      ensures streamLength == size && streamPosition == 0
    {
      manager := b;
      buffer := new uint8[size](_ => 0);
      streamLength := size;
      streamPosition := 0;
    }

    /** The stream is emptied and rewound. */
    method ResetState()
      modifies this
      ensures streamLength == 0 && streamPosition == 0
    {
      streamLength := 0;
      streamPosition := 0;
    }

    /** Array.Clear of the whole buffer. */
    method Clear()
      modifies buffer
      ensures forall i :: 0 <= i < buffer.Length ==> buffer[i] == 0
    {
      forall i | 0 <= i < buffer.Length {
        buffer[i] := 0;
      }
    }

    /** Dispose: back to the manager, when there is one. */
    method Dispose()
      requires Valid()
      requires manager != null ==> manager.Valid()
      modifies if manager != null then {manager.buffers} else {}
      ensures manager != null ==> manager.Valid() && manager.buffers[..] == Put(old(manager.buffers[..]), this)
    {
      if manager != null {
        manager.Return(this);
      }
    }
  }

  // ---- The slots as a sequence ----

  /** The first slot that holds a buffer (`full`) or holds none (`!full`), or -1. */
  function FirstSlot(s: seq<Allocation?>, full: bool): (r: int)
    ensures -1 <= r < |s|
    ensures r >= 0 ==> (s[r] != null) == full && forall j :: 0 <= j < r ==> (s[j] != null) != full
    ensures r == -1 <==> forall j :: 0 <= j < |s| ==> (s[j] != null) != full
  {
    if s == [] then -1
    else if (s[0] != null) == full then 0
    else
      var r := FirstSlot(s[1..], full);
      assert forall j :: 1 <= j < |s| ==> s[j] == s[1..][j - 1];
      if r == -1 then -1 else r + 1
  }

  /** What Allocate leaves in the slots: the first pooled buffer taken out. */
  function Taken(s: seq<Allocation?>): seq<Allocation?>
  {
    var k := FirstSlot(s, true);
    if k < 0 then s else s[k := null]
  }

  /** What Return leaves in the slots: the buffer in the first empty slot, or nothing changed when all are full. */
  function Put(s: seq<Allocation?>, b: Allocation): seq<Allocation?>
  {
    var k := FirstSlot(s, false);
    if k < 0 then s else s[k := b]
  }

  /** How many buffers the slots hold. */
  function Count(s: seq<Allocation?>): (n: nat)
    ensures n <= |s|
  {
    if s == [] then 0 else (if s[0] != null then 1 else 0) + Count(s[1..])
  }

  /** No buffer sits in two slots. */
  predicate Distinct(s: seq<Allocation?>)
  {
    forall i, j :: 0 <= i < j < |s| && s[i] != null ==> s[i] != s[j]
  }

  lemma {:induction false} CountUpdate(s: seq<Allocation?>, i: nat, x: Allocation?)
    requires i < |s|
    ensures Count(s[i := x]) == Count(s) - (if s[i] != null then 1 else 0) + (if x != null then 1 else 0)
  {
    if i > 0 {
      assert s[i := x][1..] == s[1..][i - 1 := x];
      CountUpdate(s[1..], i - 1, x);
    }
  }

  /** Allocate removes one buffer from a pool that has one, and none from an empty pool. */
  lemma TakenCount(s: seq<Allocation?>)
    ensures Count(Taken(s)) == if FirstSlot(s, true) >= 0 then Count(s) - 1 else Count(s)
  {
    var k := FirstSlot(s, true);
    if k >= 0 {
      CountUpdate(s, k, null);
    }
  }

  /** Return adds the buffer when a slot is empty and drops it otherwise. */
  lemma PutCount(s: seq<Allocation?>, b: Allocation)
    ensures Count(Put(s, b)) == if FirstSlot(s, false) >= 0 then Count(s) + 1 else Count(s)
    ensures FirstSlot(s, false) < 0 <==> Count(s) == |s|
  {
    var k := FirstSlot(s, false);
    if k >= 0 {
      CountUpdate(s, k, b);
      assert Count(s) < |s| by { CountBelow(s, k); }
    } else {
      CountFull(s);
    }
  }

  lemma {:induction false} CountBelow(s: seq<Allocation?>, k: nat)
    requires k < |s| && s[k] == null
    ensures Count(s) < |s|
  {
    if k > 0 {
      CountBelow(s[1..], k - 1);
    }
  }

  lemma {:induction false} CountFull(s: seq<Allocation?>)
    requires forall j :: 0 <= j < |s| ==> s[j] != null
    ensures Count(s) == |s|
  {
    if s != [] {
      CountFull(s[1..]);
    }
  }

  /** The buffer handed out is no longer pooled, so Allocate never hands out one buffer twice. */
  lemma TakenNotPooled(s: seq<Allocation?>)
    requires Distinct(s) && FirstSlot(s, true) >= 0
    ensures s[FirstSlot(s, true)] !in Taken(s) && Distinct(Taken(s))
  {
  }

  /** Returning a buffer that is not pooled keeps the slots free of duplicates. */
  lemma PutDistinct(s: seq<Allocation?>, b: Allocation)
    requires Distinct(s) && b !in s
    ensures Distinct(Put(s, b))
  {
  }

  /** A buffer returned to a pool with no buffers in it is the next one handed out, and the slots are back as they were. */
  lemma PutThenTake(s: seq<Allocation?>, b: Allocation)
    requires |s| > 0 && FirstSlot(s, true) < 0
    ensures FirstSlot(Put(s, b), true) == 0 && Put(s, b)[0] == b
    ensures Taken(Put(s, b)) == s
  {
    assert FirstSlot(s, false) == 0;
  }

  /**
   * Nothing stops a buffer disposed of twice from taking two slots: with two slots empty, both
   * returns succeed and the buffer sits in the first two empty slots.
   */
  lemma DoubleReturnSharesBuffer(s: seq<Allocation?>, b: Allocation)
    requires Count(s) + 2 <= |s|
    ensures var k1, t1 := FirstSlot(s, false), Put(s, b);
      var k2, t := FirstSlot(t1, false), Put(t1, b);
      && 0 <= k1 < k2 && t[k1] == b && t[k2] == b
      && Count(t) == Count(s) + 2 && !Distinct(t)
  {
    PutCount(s, b);
    var k1, t1 := FirstSlot(s, false), Put(s, b);
    PutCount(t1, b);
    var k2 := FirstSlot(t1, false);
    assert forall j :: 0 <= j <= k1 ==> t1[j] != null;
  }

  /** In a pool that held no buffer, the next two allocations after a double return both hand out that buffer. */
  lemma DoubleReturnHandedOutTwice(s: seq<Allocation?>, b: Allocation)
    requires |s| >= 2 && FirstSlot(s, true) < 0
    ensures var t := Put(Put(s, b), b);
      && FirstSlot(t, true) >= 0 && t[FirstSlot(t, true)] == b
      && FirstSlot(Taken(t), true) >= 0 && Taken(t)[FirstSlot(Taken(t), true)] == b
  {
    assert FirstSlot(s, false) == 0;
    var t1 := Put(s, b);
    assert t1 == s[0 := b];
    assert FirstSlot(t1, false) == 1;
    var t := Put(t1, b);
    assert t == s[0 := b][1 := b];
    assert FirstSlot(t, true) == 0;
    assert Taken(t) == s[1 := b];
    assert FirstSlot(Taken(t), true) == 1;
  }

  // ---- The manager ----

  class ReusableByteBufferManager {
    const arraySize: nat
    const buffers: array<Allocation?>

    /** Every pooled buffer belongs to this manager and has its size. */
    predicate Valid()
      reads buffers
    {
      forall i :: 0 <= i < buffers.Length && buffers[i] != null ==> buffers[i].manager == this && buffers[i].buffer.Length == arraySize
    }

    /** The buffer Allocate will take, if any. */
    function Next(): (r: Allocation?)
      reads buffers
      ensures r == null <==> FirstSlot(buffers[..], true) < 0
      ensures r != null ==> r == buffers[FirstSlot(buffers[..], true)]
    {
      var k := FirstSlot(buffers[..], true);
      if k < 0 then null else buffers[k]
    }

    constructor (size: nat, maxBuffers: nat)
      ensures arraySize == size && buffers.Length == maxBuffers && fresh(buffers)
      ensures forall i :: 0 <= i < maxBuffers ==> buffers[i] == null
      ensures Valid()
    {
      arraySize := size;
      buffers := new Allocation?[maxBuffers](_ => null);
    }

    /**
     * Allocate: the first pooled buffer, taken out of its slot and zeroed on request, or else
     * a new zeroed buffer of the manager's size; either way with its stream emptied.
     */
    method Allocate(clear: bool) returns (res: Allocation)
      requires Valid()
      modifies buffers, Next(), if Next() != null then {Next().buffer} else {}
      ensures Valid()
      ensures buffers[..] == Taken(old(buffers[..]))
      ensures old(Next()) != null ==> res == old(Next())
      ensures old(Next()) == null ==> fresh(res) && fresh(res.buffer)
      ensures (old(Next()) == null || clear) ==> forall i :: 0 <= i < res.buffer.Length ==> res.buffer[i] == 0
      ensures old(Next()) != null && !clear ==> unchanged(res.buffer)
      ensures res.manager == this && res.buffer.Length == arraySize && res.Valid()
      ensures res.streamLength == 0 && res.streamPosition == 0
      ensures Distinct(old(buffers[..])) ==> Distinct(buffers[..]) && res !in buffers[..]
    {
      ghost var before := buffers[..];
      ghost var next := Next();
      var taken: Allocation? := null;
      var i := 0;
      while i < buffers.Length
        invariant 0 <= i <= buffers.Length
        invariant forall j :: 0 <= j < i ==> buffers[j] == null
        invariant buffers[..] == before
      {
        if buffers[i] == null {
          i := i + 1;
          continue;
        }
        taken := buffers[i];
        buffers[i] := null;
        break;
      }
      FirstSlotUnique(before, true, if taken == null then -1 else i);
      if taken == null {
        res := new Allocation(this, arraySize);
      } else {
        res := taken;
        if clear {
          res.Clear();
        }
      }
      res.ResetState();
      if Distinct(before) && taken != null {
        TakenNotPooled(before);
      }
    }

    /** Return: into the first empty slot; with every slot full the buffer is dropped. */
    method Return(buf: Allocation)
      requires Valid() && buf.manager == this && buf.buffer.Length == arraySize
      modifies buffers
      ensures Valid()
      ensures buffers[..] == Put(old(buffers[..]), buf)
      ensures Distinct(old(buffers[..])) && buf !in old(buffers[..]) ==> Distinct(buffers[..])
    {
      ghost var before := buffers[..];
      var i := 0;
      while i < buffers.Length
        invariant 0 <= i <= buffers.Length
        invariant forall j :: 0 <= j < i ==> buffers[j] != null
        invariant buffers[..] == before
      {
        if buffers[i] != null {
          i := i + 1;
          continue;
        }
        buffers[i] := buf;
        FirstSlotUnique(before, false, i);
        if Distinct(before) && buf !in before {
          PutDistinct(before, buf);
        }
        return;
      }
      FirstSlotUnique(before, false, -1);
    }
  }

  /** An index with FirstSlot's properties is FirstSlot. */
  lemma FirstSlotUnique(s: seq<Allocation?>, full: bool, i: int)
    requires -1 <= i < |s|
    requires i >= 0 ==> (s[i] != null) == full && forall j :: 0 <= j < i ==> (s[j] != null) != full
    requires i == -1 ==> forall j :: 0 <= j < |s| ==> (s[j] != null) != full
    ensures FirstSlot(s, full) == i
  {
  }

  // ---- The size classes ----

  /** The first size class of at least `minSize` bytes, or -1. */
  function SizeClass(minSize: int): (k: int)
    ensures -1 <= k < |ArraySizes|
    ensures k >= 0 ==> ArraySizes[k] >= minSize && forall j :: 0 <= j < k ==> ArraySizes[j] < minSize
    ensures k == -1 <==> minSize > ArraySizes[|ArraySizes| - 1]
  {
    if minSize <= ArraySizes[0] then 0
    else if minSize <= ArraySizes[1] then 1
    else if minSize <= ArraySizes[2] then 2
    else if minSize <= ArraySizes[3] then 3
    else if minSize <= ArraySizes[4] then 4
    else -1
  }

  /** The sizes grow, so the first class that fits is the smallest one that fits. */
  lemma SizeClassSmallest(minSize: int, j: nat)
    requires j < |ArraySizes| && ArraySizes[j] >= minSize
    ensures 0 <= SizeClass(minSize) <= j && ArraySizes[SizeClass(minSize)] <= ArraySizes[j]
  {
  }

  /** The five managers, one per size class. */
  predicate Instances(instances: seq<ReusableByteBufferManager>)
    reads set i | 0 <= i < |instances| :: instances[i].buffers
  {
    && |instances| == |ArraySizes|
    && (forall i :: 0 <= i < |instances| ==> instances[i].arraySize == ArraySizes[i] && instances[i].Valid())
  }

  /**
   * GetBuffer(minSize): an allocation from the smallest size class that holds `minSize`
   * bytes, or an unpooled zeroed buffer of exactly `minSize` bytes, whose stream then keeps
   * the buffer's length.
   */
  method GetBuffer(instances: seq<ReusableByteBufferManager>, minSize: int, clear: bool) returns (res: Allocation)
    requires Instances(instances)
    modifies if SizeClass(minSize) >= 0 then {instances[SizeClass(minSize)].buffers} else {}
    modifies if SizeClass(minSize) >= 0 then {instances[SizeClass(minSize)].Next()} else {}
    modifies if SizeClass(minSize) >= 0 && instances[SizeClass(minSize)].Next() != null
      then {instances[SizeClass(minSize)].Next().buffer} else {}
    ensures var k := SizeClass(minSize);
      && (k >= 0 ==> res.manager == instances[k] && res.buffer.Length == ArraySizes[k] && res.streamLength == 0
                     && instances[k].Valid() && instances[k].buffers[..] == Taken(old(instances[k].buffers[..])))
      && (k < 0 ==> fresh(res) && fresh(res.buffer) && res.manager == null && res.buffer.Length == minSize
                    && res.streamLength == minSize && (forall i :: 0 <= i < minSize ==> res.buffer[i] == 0))
      && res.buffer.Length >= minSize && res.streamPosition == 0 && res.Valid()
  {
    var i := 0;
    while i < |ArraySizes|
      invariant 0 <= i <= |ArraySizes|
      invariant forall j :: 0 <= j < i ==> ArraySizes[j] < minSize
    {
      if ArraySizes[i] >= minSize {
        assert SizeClass(minSize) == i;
        res := instances[i].Allocate(clear);
        return;
      }
      i := i + 1;
    }
    res := new Allocation(null, minSize);
  }

  /** GetBuffer(): an allocation from the smallest size class. */
  method GetSmallBuffer(instances: seq<ReusableByteBufferManager>, clear: bool) returns (res: Allocation)
    requires Instances(instances)
    modifies instances[0].buffers, instances[0].Next(), if instances[0].Next() != null then {instances[0].Next().buffer} else {}
    ensures res.manager == instances[0] && res.buffer.Length == 0x4000 && res.streamLength == 0 && res.streamPosition == 0
    ensures instances[0].Valid() && instances[0].buffers[..] == Taken(old(instances[0].buffers[..]))
  {
    res := instances[0].Allocate(clear);
  }
}
