/**
 * The installer of a patch index: the parts each target file and each patch file is missing,
 * the download tasks queued for them, the byte ranges a download task asks for, and the retry
 * rule of a download task. Downloads, streams and the file system are not modelled; a download
 * task's run is given as the outcomes of its attempts.
 */
module Installer {
  import opened Wrappers
  import opened Ints
  import opened PartLocator
  import opened TargetFile
  import opened PatchIndex

  /** A part of the index: the index of its target file and its index in that file's list. */
  type PartRef = (int, int)

  /** A queued install task: a download from a URL, or a read from a stream. */
  datatype InstallTask =
    | HttpTask(sourceIndex: int, sourceUrl: string, sid: Option<string>, parts: seq<PartRef>)
    | StreamTask(sourceIndex: int, parts: seq<PartRef>)

  /** The part indices 0 .. n - 1 of a target file with n parts. */
  function PartIndices(n: nat): (r: set<int>)
    ensures forall i :: i in r <==> 0 <= i < n
  {
    if n == 0 then {} else PartIndices(n - 1) + {n - 1}
  }

  /** Every reference names a part of the index. */
  predicate ValidRefs(index: IndexedZiPatchIndex, refs: seq<PartRef>)
    reads index, index.targetFiles
  {
    forall k :: 0 <= k < |refs| ==>
      0 <= refs[k].0 < |index.targetFiles| && 0 <= refs[k].1 < |index.targetFiles[refs[k].0].parts|
  }

  /** The most source bytes each referenced part can take. */
  function PartSizes(index: IndexedZiPatchIndex, refs: seq<PartRef>): (r: seq<nat>)
    requires ValidRefs(index, refs)
    reads index, index.targetFiles
    ensures SizesOf(index, refs, r)
  {
    if refs == [] then []
    else [MaxSourceSize(index.targetFiles[refs[0].0].parts[refs[0].1])] + PartSizes(index, refs[1..])
  }

  /** `sizes` are the most source bytes of the referenced parts. */
  ghost predicate SizesOf(index: IndexedZiPatchIndex, refs: seq<PartRef>, sizes: seq<nat>)
    reads index, index.targetFiles
  {
    && ValidRefs(index, refs) && |sizes| == |refs|
    && forall k :: 0 <= k < |refs| ==> sizes[k] == MaxSourceSize(index.targetFiles[refs[k].0].parts[refs[k].1])
  }

  // ---- Splitting a patch file's missing parts into requests ----

  /** The most source bytes one request is filled up to: 256 MiB. */
  const MaxDownloadPerRequest: nat := 256 * 1024 * 1024

  /** The parts per request: the ceiling of count / splitBy. */
  function PerRequest(count: nat, splitBy: nat): (per: nat)
    requires splitBy >= 1
    ensures per * splitBy >= count
    ensures count > 0 ==> per >= 1 && (per - 1) * splitBy < count
  {
    (count + splitBy - 1) / splitBy
  }

  /** The sum of the sizes. */
  function Total(sizes: seq<nat>): nat
  {
    if sizes == [] then 0 else Total(sizes[..|sizes| - 1]) + sizes[|sizes| - 1]
  }

  /**
   * How many sizes the next request takes, when it already holds `count` of them adding up to
   * `size`: one more while it holds fewer than `per` and less than the byte limit.
   */
  function ChunkLength(sizes: seq<nat>, per: nat, count: nat, size: nat): (n: nat)
    requires count <= |sizes|
    ensures count <= n <= |sizes|
    ensures count < |sizes| && count < per && size < MaxDownloadPerRequest ==> n > count
    decreases |sizes| - count
  {
    if count < |sizes| && count < per && size < MaxDownloadPerRequest
    then ChunkLength(sizes, per, count + 1, size + sizes[count])
    else count
  }

  /** The requests the missing parts are split into, in order. */
  function Chunks(refs: seq<PartRef>, sizes: seq<nat>, per: nat): seq<seq<PartRef>>
    requires |sizes| == |refs| && (refs != [] ==> per >= 1)
    decreases |refs|
  {
    if refs == [] then []
    else
      var n := ChunkLength(sizes, per, 0, 0);
      [refs[..n]] + Chunks(refs[n..], sizes[n..], per)
  }

  function Flatten(chunks: seq<seq<PartRef>>): seq<PartRef>
  {
    if chunks == [] then [] else chunks[0] + Flatten(chunks[1..])
  }

  /** The download tasks of the requests, in order. */
  function HttpTasks(sourceIndex: int, sourceUrl: string, sid: Option<string>, chunks: seq<seq<PartRef>>): (r: seq<InstallTask>)
    ensures |r| == |chunks|
    ensures forall k :: 0 <= k < |chunks| ==> r[k] == HttpTask(sourceIndex, sourceUrl, sid, chunks[k])
  {
    if chunks == [] then []
    else [HttpTask(sourceIndex, sourceUrl, sid, chunks[0])] + HttpTasks(sourceIndex, sourceUrl, sid, chunks[1..])
  }

  /** The requests from the j-th part on: the one TakeChunk cuts, then the rest. */
  lemma ChunksStep(refs: seq<PartRef>, sizes: seq<nat>, per: nat, j: nat, next: nat)
    requires |sizes| == |refs| && per >= 1 && j < next <= |refs|
    requires next - j == ChunkLength(sizes[j..], per, 0, 0)
    ensures Chunks(refs[j..], sizes[j..], per) == [refs[j..next]] + Chunks(refs[next..], sizes[next..], per)
  {
    assert refs[j..][..next - j] == refs[j..next];
    assert refs[j..][next - j..] == refs[next..] && sizes[j..][next - j..] == sizes[next..];
  }

  /**
   * Queueing the request TakeChunk cuts from the j-th part on, after the tasks `pre`, leaves the
   * requests from the part after it to go.
   */
  lemma QueueStep(pre: seq<InstallTask>, sourceIndex: int, sourceUrl: string, sid: Option<string>,
                  refs: seq<PartRef>, sizes: seq<nat>, per: nat, j: nat, next: nat)
    requires |sizes| == |refs| && per >= 1 && j < next <= |refs|
    requires next - j == ChunkLength(sizes[j..], per, 0, 0)
    ensures pre + [HttpTask(sourceIndex, sourceUrl, sid, refs[j..next])]
              + HttpTasks(sourceIndex, sourceUrl, sid, Chunks(refs[next..], sizes[next..], per))
      == pre + HttpTasks(sourceIndex, sourceUrl, sid, Chunks(refs[j..], sizes[j..], per))
  {
    ChunksStep(refs, sizes, per, j, next);
    var t := HttpTask(sourceIndex, sourceUrl, sid, refs[j..next]);
    var cs := Chunks(refs[next..], sizes[next..], per);
    assert ([refs[j..next]] + cs)[1..] == cs;
    assert pre + [t] + HttpTasks(sourceIndex, sourceUrl, sid, cs) == pre + ([t] + HttpTasks(sourceIndex, sourceUrl, sid, cs));
  }

  /** An empty session id is sent as none. */
  function SidOrNone(sid: Option<string>): Option<string>
  {
    if sid == Some("") then None else sid
  }

  /** The requests, read in order, are the missing parts in order. */
  lemma {:induction false} ChunksFlatten(refs: seq<PartRef>, sizes: seq<nat>, per: nat)
    requires |sizes| == |refs| && per >= 1
    ensures Flatten(Chunks(refs, sizes, per)) == refs
    decreases |refs|
  {
    if refs != [] {
      var n := ChunkLength(sizes, per, 0, 0);
      ChunksFlatten(refs[n..], sizes[n..], per);
      assert refs[..n] + refs[n..] == refs;
    }
  }

  /** Every request holds at least one part and at most `per`. */
  lemma {:induction false} ChunksBounded(refs: seq<PartRef>, sizes: seq<nat>, per: nat)
    requires |sizes| == |refs| && per >= 1
    ensures forall c :: c in Chunks(refs, sizes, per) ==> 1 <= |c| <= per
    decreases |refs|
  {
    if refs != [] {
      var n := ChunkLength(sizes, per, 0, 0);
      ChunkLengthRule(sizes, per);
      ChunksBounded(refs[n..], sizes[n..], per);
    }
  }

  lemma TotalAppend(sizes: seq<nat>, x: nat)
    ensures Total(sizes + [x]) == Total(sizes) + x
  {
    assert (sizes + [x])[..|sizes|] == sizes;
  }

  lemma {:induction false} ChunkLengthFrom(sizes: seq<nat>, per: nat, count: nat)
    requires count <= |sizes| && count <= per
    ensures var n := ChunkLength(sizes, per, count, Total(sizes[..count]));
      && n <= per
      && (n > count ==> Total(sizes[..n - 1]) < MaxDownloadPerRequest)
      && (n < |sizes| && n < per ==> Total(sizes[..n]) >= MaxDownloadPerRequest)
    decreases |sizes| - count
  {
    var size := Total(sizes[..count]);
    if count < |sizes| && count < per && size < MaxDownloadPerRequest {
      assert sizes[..count + 1] == sizes[..count] + [sizes[count]];
      TotalAppend(sizes[..count], sizes[count]);
      ChunkLengthFrom(sizes, per, count + 1);
    } else {
      assert ChunkLength(sizes, per, count, size) == count;
    }
  }

  /**
   * The rule each request is cut by: it holds at most `per` parts, the parts before its last
   * one stay under 256 MiB, and one that holds fewer than `per` while parts remain has reached
   * 256 MiB.
   */
  lemma ChunkLengthRule(sizes: seq<nat>, per: nat)
    requires |sizes| >= 1 && per >= 1
    ensures var n := ChunkLength(sizes, per, 0, 0);
      && 1 <= n <= per
      && Total(sizes[..n - 1]) < MaxDownloadPerRequest
      && (n < |sizes| && n < per ==> Total(sizes[..n]) >= MaxDownloadPerRequest)
  {
    assert sizes[..0] == [];
    ChunkLengthFrom(sizes, per, 0);
  }

  /** When all the parts stay under 256 MiB, every request but the last is full. */
  lemma {:induction false} SmallChunks(refs: seq<PartRef>, sizes: seq<nat>, per: nat)
    requires |sizes| == |refs| && per >= 1
    requires Total(sizes) < MaxDownloadPerRequest
    ensures var c := |Chunks(refs, sizes, per)|; c * per >= |refs| && (refs != [] ==> (c - 1) * per < |refs|)
    decreases |refs|
  {
    if refs != [] {
      var n := ChunkLength(sizes, per, 0, 0);
      ChunkLengthRule(sizes, per);
      if n < |sizes| && n < per {
        TotalPrefix(sizes, n);
      }
      TotalSuffix(sizes, n);
      SmallChunks(refs[n..], sizes[n..], per);
      var c := |Chunks(refs[n..], sizes[n..], per)|;
      assert |Chunks(refs, sizes, per)| == c + 1;
      assert n == per || n == |refs|;
      ChunkCountStep(c, per, n, |refs| - n);
    }
  }

  lemma ChunkCountStep(c: nat, per: nat, n: nat, rest: nat)
    requires 1 <= n <= per && (rest > 0 ==> n == per)
    requires c * per >= rest && (rest > 0 ==> (c - 1) * per < rest) && (rest == 0 ==> c == 0)
    ensures (c + 1) * per >= n + rest && c * per < n + rest
  {
    assert (c + 1) * per == c * per + per;
    if rest > 0 {
      assert c * per == (c - 1) * per + per;
    }
  }

  lemma {:induction false} TotalPrefix(sizes: seq<nat>, n: nat)
    requires n <= |sizes|
    ensures Total(sizes[..n]) <= Total(sizes)
    decreases |sizes|
  {
    if n < |sizes| {
      var m := |sizes| - 1;
      assert sizes[..m][..n] == sizes[..n];
      TotalPrefix(sizes[..m], n);
    } else {
      assert sizes[..n] == sizes;
    }
  }

  lemma {:induction false} TotalSuffix(sizes: seq<nat>, n: nat)
    requires n <= |sizes|
    ensures Total(sizes[n..]) <= Total(sizes)
    decreases |sizes|
  {
    if n < |sizes| {
      var m := |sizes| - 1;
      assert sizes[n..][..|sizes| - n - 1] == sizes[..m][n..];
      TotalSuffix(sizes[..m], n);
    } else {
      assert sizes[n..] == [];
    }
  }

  /**
   * With every part under 256 MiB in total, the missing parts of a patch file go out in at most
   * `splitBy` requests.
   */
  lemma AtMostSplitByRequests(refs: seq<PartRef>, sizes: seq<nat>, splitBy: nat)
    requires |sizes| == |refs| && splitBy >= 1
    requires Total(sizes) < MaxDownloadPerRequest
    ensures |Chunks(refs, sizes, PerRequest(|refs|, splitBy))| <= splitBy
  {
    var per := PerRequest(|refs|, splitBy);
    if refs != [] {
      SmallChunks(refs, sizes, per);
      var c := |Chunks(refs, sizes, per)|;
      FewerMultiples(c - 1, splitBy, per);
    }
  }

  lemma FewerMultiples(a: nat, b: nat, p: nat)
    requires a * p < b * p
    ensures a < b
  {
    if a >= b {
      MulMonotone(a, b, p);
    }
  }

  lemma MulMonotone(a: nat, b: nat, p: nat)
    requires a >= b
    ensures a * p >= b * p
  {
    assert a * p == b * p + (a - b) * p;
  }

  // ---- The installer ----

  /** The installer of an index: the missing parts per patch file and per target file, and the queued tasks. */
  class IndexedZiPatchInstaller {
    const index: IndexedZiPatchIndex
    /** Per patch file, the missing parts it holds, as its sorted set enumerates them. */
    var missingPerPatch: seq<seq<PartRef>>
    /** Per target file, the indices of its missing parts. */
    var missingPerTarget: seq<set<int>>
    var tasks: seq<InstallTask>

    /** One empty set of missing parts per target file and one per patch file, and no task. */
    constructor (def: IndexedZiPatchIndex)
      ensures index == def && tasks == []
      ensures |missingPerTarget| == |def.targetFiles|
      ensures forall i :: 0 <= i < |missingPerTarget| ==> missingPerTarget[i] == {}
      ensures |missingPerPatch| == |def.sourceFiles|
      ensures forall i :: 0 <= i < |missingPerPatch| ==> missingPerPatch[i] == []
    {
      var perTarget: seq<set<int>> := [];
      var i := 0;
      while i < |def.targetFiles|
        invariant 0 <= i <= |def.targetFiles| && |perTarget| == i
        invariant forall k :: 0 <= k < i ==> perTarget[k] == {}
      {
        perTarget := perTarget + [{}];
        i := i + 1;
      }
      var perPatch: seq<seq<PartRef>> := [];
      i := 0;
      while i < |def.sourceFiles|
        invariant 0 <= i <= |def.sourceFiles| && |perPatch| == i
        invariant forall k :: 0 <= k < i ==> perPatch[k] == []
      {
        perPatch := perPatch + [[]];
        i := i + 1;
      }
      index := def;
      missingPerPatch := perPatch;
      missingPerTarget := perTarget;
      tasks := [];
    }

    /**
     * MarkFileAsMissing: every part of the target file joins its missing set. A target index
     * outside the index, or, when the file has parts, outside the missing sets, is out of range.
     */
    method MarkFileAsMissing(targetIndex: int) returns (failure: Option<Error>)
      modifies this
      ensures tasks == old(tasks) && missingPerPatch == old(missingPerPatch)
      ensures var ok := 0 <= targetIndex < |index.targetFiles|
          && (|index.targetFiles[targetIndex].parts| == 0 || targetIndex < |old(missingPerTarget)|);
        if ok then
          failure == None
          && missingPerTarget == if |index.targetFiles[targetIndex].parts| == 0 then old(missingPerTarget)
             else old(missingPerTarget)[targetIndex := old(missingPerTarget)[targetIndex] + PartIndices(|index.targetFiles[targetIndex].parts|)]
        else failure == Some(ArgumentOutOfRange) && missingPerTarget == old(missingPerTarget)
    {
      if !(0 <= targetIndex < |index.targetFiles|) {
        return Some(ArgumentOutOfRange);
      }
      var count := |index.targetFiles[targetIndex].parts|;
      if count == 0 {
        return None;
      }
      if targetIndex >= |missingPerTarget| {
        return Some(ArgumentOutOfRange);
      }
      ghost var orig := missingPerTarget;
      assert orig[targetIndex] + PartIndices(0) == orig[targetIndex];
      assert orig[targetIndex := orig[targetIndex]] == orig;
      var i := 0;
      while i < count
        invariant 0 <= i <= count
        invariant tasks == old(tasks) && missingPerPatch == old(missingPerPatch)
        invariant missingPerTarget == orig[targetIndex := orig[targetIndex] + PartIndices(i)]
      {
        assert orig[targetIndex] + PartIndices(i) + {i} == orig[targetIndex] + PartIndices(i + 1);
        missingPerTarget := missingPerTarget[targetIndex := missingPerTarget[targetIndex] + {i}];
        assert missingPerTarget == orig[targetIndex := orig[targetIndex] + PartIndices(i + 1)];
        i := i + 1;
      }
      failure := None;
    }

    /** QueueInstall with a set of parts: a download task for them, and none for an empty set. */
    method QueueInstallSet(sourceIndex: int, sourceUrl: string, sid: Option<string>, parts: seq<PartRef>)
      modifies this
      ensures missingPerPatch == old(missingPerPatch) && missingPerTarget == old(missingPerTarget)
      ensures tasks == old(tasks) + if parts == [] then [] else [HttpTask(sourceIndex, sourceUrl, SidOrNone(sid), parts)]
    {
      if parts != [] {
        tasks := tasks + [HttpTask(sourceIndex, sourceUrl, SidOrNone(sid), parts)];
      }
    }

    /** QueueInstall from a stream: a stream task for the parts, and none for an empty set. */
    method QueueInstallStream(sourceIndex: int, parts: seq<PartRef>)
      modifies this
      ensures missingPerPatch == old(missingPerPatch) && missingPerTarget == old(missingPerTarget)
      ensures tasks == old(tasks) + if parts == [] then [] else [StreamTask(sourceIndex, parts)]
    {
      if parts != [] {
        tasks := tasks + [StreamTask(sourceIndex, parts)];
      }
    }

    /**
     * QueueInstall with a split: the patch file's missing parts, in order, go out in requests
     * of at most ceil(count / splitBy) parts, each closed once it reaches 256 MiB.
     */
    method QueueInstall(sourceIndex: int, sourceUrl: string, sid: Option<string>, splitBy: int)
      requires 0 <= sourceIndex < |missingPerPatch| && splitBy >= 1
      requires ValidRefs(index, missingPerPatch[sourceIndex])
      modifies this
      ensures missingPerPatch == old(missingPerPatch) && missingPerTarget == old(missingPerTarget)
      ensures var refs := old(missingPerPatch[sourceIndex]);
        tasks == old(tasks) + HttpTasks(sourceIndex, sourceUrl, SidOrNone(sid),
          Chunks(refs, PartSizes(index, refs), PerRequest(|refs|, splitBy)))
    {
      var refs := missingPerPatch[sourceIndex];
      ghost var sizes := PartSizes(index, refs);
      ghost var sid' := SidOrNone(sid);
      var per := PerRequest(|refs|, splitBy);
      ghost var whole := old(tasks) + HttpTasks(sourceIndex, sourceUrl, sid', Chunks(refs, sizes, per));
      var j := 0;
      while j < |refs|
        invariant 0 <= j <= |refs|
        invariant SizesOf(index, refs, sizes)
        invariant missingPerPatch == old(missingPerPatch) && missingPerTarget == old(missingPerTarget)
        invariant tasks + HttpTasks(sourceIndex, sourceUrl, sid', Chunks(refs[j..], sizes[j..], per)) == whole
        decreases |refs| - j
      {
        j := QueueRequest(sourceIndex, sourceUrl, sid, refs, sizes, j, per);
      }
      assert refs[j..] == [] && Chunks(refs[j..], sizes[j..], per) == [];
      assert tasks == whole;
    }

    /** One pass of QueueInstall's outer loop: cut the next request and queue it. */
    method QueueRequest(sourceIndex: int, sourceUrl: string, sid: Option<string>, refs: seq<PartRef>,
                        ghost sizes: seq<nat>, j: nat, per: nat) returns (next: nat)
      requires SizesOf(index, refs, sizes) && j < |refs| && per >= 1
      modifies this
      ensures SizesOf(index, refs, sizes)
      ensures j < next <= |refs| && next - j == ChunkLength(sizes[j..], per, 0, 0)
      ensures missingPerPatch == old(missingPerPatch) && missingPerTarget == old(missingPerTarget)
      ensures tasks == old(tasks) + [HttpTask(sourceIndex, sourceUrl, SidOrNone(sid), refs[j..next])]
      ensures var sid' := SidOrNone(sid);
        tasks + HttpTasks(sourceIndex, sourceUrl, sid', Chunks(refs[next..], sizes[next..], per))
        == old(tasks) + HttpTasks(sourceIndex, sourceUrl, sid', Chunks(refs[j..], sizes[j..], per))
    {
      var chunk;
      chunk, next := TakeChunk(refs, sizes, j, per);
      QueueInstallSet(sourceIndex, sourceUrl, sid, chunk);
      QueueStep(old(tasks), sourceIndex, sourceUrl, SidOrNone(sid), refs, sizes, per, j, next);
    }

    /** The inner loop of QueueInstall: the parts, from the j-th on, that the next request takes. */
    method TakeChunk(refs: seq<PartRef>, ghost sizes: seq<nat>, j: nat, per: nat) returns (chunk: seq<PartRef>, next: nat)
      requires SizesOf(index, refs, sizes) && j < |refs| && per >= 1
      ensures j < next <= |refs| && chunk == refs[j..next]
      ensures next - j == ChunkLength(sizes[j..], per, 0, 0)
    {
      ghost var rest := sizes[j..];
      chunk, next := [], j;
      var size: nat := 0;
      while next < |refs| && |chunk| < per && size < MaxDownloadPerRequest
        invariant j <= next <= |refs| && chunk == refs[j..next] && |chunk| == next - j
        invariant ChunkLength(rest, per, |chunk|, size) == ChunkLength(rest, per, 0, 0)
        decreases |refs| - next
      {
        var s := MaxSourceSize(index.targetFiles[refs[next].0].parts[refs[next].1]);
        assert s == rest[|chunk|];
        chunk := chunk + [refs[next]];
        size := size + s;
        next := next + 1;
      }
    }
  }

  // ---- The byte ranges a download asks for ----

  /** The gap below which two ranges are fetched as one. */
  const MergedGapDownload: int := 512

  /** A byte range of the patch file: its first byte and its end. */
  type Range = (int, int)

  /** The order of (long, long) tuples: by begin, then by end. */
  predicate RangeLe(a: Range, b: Range)
  {
    a.0 < b.0 || (a.0 == b.0 && a.1 <= b.1)
  }

  predicate SortedRanges(s: seq<Range>)
  {
    forall i, j :: 0 <= i < j < |s| ==> RangeLe(s[i], s[j])
  }

  /** Range `x` lies inside range `y`. */
  predicate Within(x: Range, y: Range)
  {
    y.0 <= x.0 && x.1 <= y.1
  }

  /** Between two neighbouring ranges lie at least 512 bytes. */
  ghost predicate Separated(r: seq<Range>)
  {
    forall a, b :: 0 <= a < b < |r| && b == a + 1 ==> r[b].0 - r[a].1 >= MergedGapDownload
  }

  function InsertRange(x: Range, s: seq<Range>): (r: seq<Range>)
    requires SortedRanges(s)
    ensures |r| == |s| + 1
    ensures SortedRanges(r) && multiset(r) == multiset(s) + multiset{x}
    ensures forall e :: e in r ==> e in s || e == x
  {
    if s == [] || RangeLe(x, s[0]) then [x] + s
    else
      var t := InsertRange(x, s[1..]);
      assert forall e :: e in t ==> RangeLe(s[0], e);
      assert s == [s[0]] + s[1..];
      [s[0]] + t
  }

  /** List.Sort on the ranges: sorted, and the same ranges. */
  function SortRanges(s: seq<Range>): (r: seq<Range>)
    ensures |r| == |s|
    ensures SortedRanges(r) && multiset(r) == multiset(s)
  {
    if s == [] then []
    else
      assert s == [s[0]] + s[1..];
      InsertRange(s[0], SortRanges(s[1..]))
  }

  predicate BeginsSorted(r: seq<Range>)
  {
    forall a, b :: 0 <= a < b < |r| ==> r[a].0 <= r[b].0
  }

  /** Range i folded into range i - 1. */
  function Fold(r: seq<Range>, i: nat): (m: seq<Range>)
    requires 1 <= i < |r|
    ensures |m| == |r| - 1
    ensures forall k :: 0 <= k < i - 1 ==> m[k] == r[k]
    ensures m[i - 1] == (r[i - 1].0, Max(r[i - 1].1, r[i].1))
    ensures forall k :: i <= k < |m| ==> m[k] == r[k + 1]
  {
    r[..i - 1] + [(r[i - 1].0, Max(r[i - 1].1, r[i].1))] + r[i + 1..]
  }

  /** Folding keeps the begins sorted and the gaps before range i - 1. */
  lemma FoldKeepsOrder(r: seq<Range>, i: nat)
    requires 1 <= i < |r| && BeginsSorted(r)
    requires SeparatedBelow(r, i)
    ensures BeginsSorted(Fold(r, i)) && SeparatedBelow(Fold(r, i), i)
  {
    var m := Fold(r, i);
    forall a, b | 0 <= a < b < |m|
      ensures m[a].0 <= m[b].0
    {
      var a' := if a < i then a else a + 1;
      var b' := if b < i then b else b + 1;
      assert m[a].0 == r[a'].0 && m[b].0 == r[b'].0;
    }
  }

  /** The indices 0 .. n - 1 in order. */
  function Iota(n: nat): (r: seq<nat>)
    ensures |r| == n && forall k :: 0 <= k < n ==> r[k] == k
  {
    if n == 0 then [] else Iota(n - 1) + [n - 1]
  }

  /** Where each covered range lies once range i is folded into range i - 1. */
  function FoldCover(cov: seq<nat>, i: nat): (r: seq<nat>)
    requires i >= 1
    ensures |r| == |cov|
    ensures forall j :: 0 <= j < |cov| ==> r[j] == if cov[j] < i - 1 then cov[j] else if cov[j] <= i then i - 1 else cov[j] - 1
  {
    if cov == [] then []
    else
      var c := cov[0];
      [if c < i - 1 then c else if c <= i then i - 1 else c - 1] + FoldCover(cov[1..], i)
  }

  /** Index `i` removed from a sequence of indices. */
  function Without(w: seq<nat>, i: nat): (r: seq<nat>)
    requires i < |w|
    ensures |r| == |w| - 1
    ensures forall k :: 0 <= k < i ==> r[k] == w[k]
    ensures forall k :: i <= k < |r| ==> r[k] == w[k + 1]
  {
    w[..i] + w[i + 1..]
  }

  /** Range x lies inside one of the ranges. */
  predicate InSome(x: Range, r: seq<Range>)
  {
    exists k :: 0 <= k < |r| && Within(x, r[k])
  }

  /** One of the ranges begins at b. */
  predicate BeginOfSome(b: int, s: seq<Range>)
  {
    exists j :: 0 <= j < |s| && s[j].0 == b
  }

  /** One of the ranges ends at e. */
  predicate EndOfSome(e: int, s: seq<Range>)
  {
    exists j :: 0 <= j < |s| && s[j].1 == e
  }

  /** The input ranges covered: the witness tells, for each input range, the range it lies in. */
  predicate CoveredBy(sorted: seq<Range>, r: seq<Range>, cov: seq<nat>)
  {
    |cov| == |sorted| && forall j {:trigger cov[j]} :: 0 <= j < |sorted| ==> cov[j] < |r| && Within(sorted[j], r[cov[j]])
  }

  /** The witnesses tell, for each range, the input range its begin and its end come from. */
  predicate TakenFrom(sorted: seq<Range>, r: seq<Range>, bFrom: seq<nat>, eFrom: seq<nat>)
  {
    && |bFrom| == |r| && (forall k {:trigger bFrom[k]} :: 0 <= k < |r| ==> bFrom[k] < |sorted| && sorted[bFrom[k]].0 == r[k].0)
    && |eFrom| == |r| && (forall k {:trigger eFrom[k]} :: 0 <= k < |r| ==> eFrom[k] < |sorted| && sorted[eFrom[k]].1 == r[k].1)
  }

  /** The gaps before range i are at least 512 bytes. */
  ghost predicate SeparatedBelow(r: seq<Range>, i: nat)
  {
    forall a, b :: 0 <= a < b < |r| && b == a + 1 && b < i ==> r[b].0 - r[a].1 >= MergedGapDownload
  }

  /** What MergeRanges keeps: ranges below i are merged, and the witnesses hold. */
  ghost predicate MergeInv(sorted: seq<Range>, r: seq<Range>, i: nat, cov: seq<nat>, bFrom: seq<nat>, eFrom: seq<nat>)
  {
    && 1 <= i && (i <= |r| || r == []) && |r| <= |sorted|
    && BeginsSorted(r) && SeparatedBelow(r, i)
    && CoveredBy(sorted, r, cov) && TakenFrom(sorted, r, bFrom, eFrom)
  }

  lemma MergeStart(sorted: seq<Range>)
    requires BeginsSorted(sorted)
    ensures MergeInv(sorted, sorted, 1, Iota(|sorted|), Iota(|sorted|), Iota(|sorted|))
  {
  }

  /** Range i starts 512 bytes or more after range i - 1 ends: it stays. */
  lemma MergeSkip(sorted: seq<Range>, r: seq<Range>, i: nat, cov: seq<nat>, bFrom: seq<nat>, eFrom: seq<nat>)
    requires MergeInv(sorted, r, i, cov, bFrom, eFrom) && i < |r|
    requires r[i].0 - r[i - 1].1 >= MergedGapDownload
    ensures MergeInv(sorted, r, i + 1, cov, bFrom, eFrom)
  {
  }

  /** Range i starts less than 512 bytes after range i - 1 ends: it is folded into it. */
  lemma MergeFold(sorted: seq<Range>, r: seq<Range>, i: nat, cov: seq<nat>, bFrom: seq<nat>, eFrom: seq<nat>)
    requires MergeInv(sorted, r, i, cov, bFrom, eFrom) && i < |r|
    ensures MergeInv(sorted, Fold(r, i), i, FoldCover(cov, i), Without(bFrom, i), Without(eFrom[i - 1 := FoldEnd(r, i, eFrom)], i))
  {
    FoldKeepsOrder(r, i);
    FoldKeepsWitnesses(sorted, r, i, cov, bFrom, eFrom);
  }

  /** Once every range is merged, the witnesses give what MergeRanges promises. */
  lemma MergeDone(sorted: seq<Range>, r: seq<Range>, i: nat, cov: seq<nat>, bFrom: seq<nat>, eFrom: seq<nat>)
    requires MergeInv(sorted, r, i, cov, bFrom, eFrom) && i >= |r|
    ensures |r| <= |sorted|
    ensures Separated(r) && BeginsSorted(r)
    ensures forall j {:trigger InSome(sorted[j], r)} :: 0 <= j < |sorted| ==> InSome(sorted[j], r)
    ensures forall k {:trigger BeginOfSome(r[k].0, sorted)} :: 0 <= k < |r| ==> BeginOfSome(r[k].0, sorted)
    ensures forall k {:trigger EndOfSome(r[k].1, sorted)} :: 0 <= k < |r| ==> EndOfSome(r[k].1, sorted)
  {
    forall j | 0 <= j < |sorted|
      ensures InSome(sorted[j], r)
    {
      assert Within(sorted[j], r[cov[j]]);
    }
    forall k | 0 <= k < |r|
      ensures BeginOfSome(r[k].0, sorted) && EndOfSome(r[k].1, sorted)
    {
      assert sorted[bFrom[k]].0 == r[k].0 && sorted[eFrom[k]].1 == r[k].1;
    }
  }

  /**
   * The merge read as a left fold over the ranges: `acc` holds the ranges merged so far, and
   * the next range either extends the last of them, when it starts less than 512 bytes after
   * that one ends, or is kept as a range of its own.
   */
  function MergeInto(acc: seq<Range>, rest: seq<Range>): seq<Range>
    decreases |rest|
  {
    if rest == [] then acc
    else if acc != [] && rest[0].0 - acc[|acc| - 1].1 < MergedGapDownload then
      var last := acc[|acc| - 1];
      MergeInto(acc[..|acc| - 1] + [(last.0, Max(last.1, rest[0].1))], rest[1..])
    else MergeInto(acc + [rest[0]], rest[1..])
  }

  /** The ranges GetNextStream's merge computes. */
  function Merged(sorted: seq<Range>): seq<Range>
  {
    MergeInto([], sorted)
  }

  /** Nothing is folded while every gap is 512 bytes or more. */
  lemma {:induction false} MergeIntoSeparated(acc: seq<Range>, rest: seq<Range>)
    requires Separated(acc + rest)
    ensures MergeInto(acc, rest) == acc + rest
    decreases |rest|
  {
    if rest != [] {
      var s := acc + rest;
      if acc != [] {
        assert s[|acc|] == rest[0] && s[|acc| - 1] == acc[|acc| - 1];
      }
      assert acc + [rest[0]] + rest[1..] == s;
      MergeIntoSeparated(acc + [rest[0]], rest[1..]);
    }
  }

  /** Ranges already 512 bytes apart are requested as they are: the merge joins no range it need not join. */
  lemma MergedKeepsSeparated(sorted: seq<Range>)
    requires Separated(sorted)
    ensures Merged(sorted) == sorted
  {
    assert [] + sorted == sorted;
    MergeIntoSeparated([], sorted);
  }

  /** Folding keeps the merged ranges 512 bytes apart: extending the last range keeps its begin. */
  lemma {:induction false} MergeIntoKeepsApart(acc: seq<Range>, rest: seq<Range>)
    requires Separated(acc)
    ensures Separated(MergeInto(acc, rest))
    decreases |rest|
  {
    if rest != [] {
      if acc != [] && rest[0].0 - acc[|acc| - 1].1 < MergedGapDownload {
        var last := acc[|acc| - 1];
        var next := acc[..|acc| - 1] + [(last.0, Max(last.1, rest[0].1))];
        assert forall k :: 0 <= k < |acc| - 1 ==> next[k] == acc[k];
        MergeIntoKeepsApart(next, rest[1..]);
      } else {
        var next := acc + [rest[0]];
        assert forall k :: 0 <= k < |acc| ==> next[k] == acc[k];
        MergeIntoKeepsApart(next, rest[1..]);
      }
    }
  }

  /** Merging the merged ranges again changes nothing. */
  lemma MergedIdempotent(sorted: seq<Range>)
    ensures Merged(Merged(sorted)) == Merged(sorted)
  {
    MergeIntoKeepsApart([], sorted);
    MergedKeepsSeparated(Merged(sorted));
  }

  /**
   * The merge of GetNextStream: a range that starts less than 512 bytes after its predecessor
   * ends is folded into it. The result is the fold `Merged`; it is sorted by begin, 512 bytes
   * apart, covers every input range and takes each begin and end from an input range.
   */
  method MergeRanges(sorted: seq<Range>) returns (r: seq<Range>)
    requires BeginsSorted(sorted)
    ensures r == Merged(sorted)
    ensures |r| <= |sorted|
    ensures Separated(r) && BeginsSorted(r)
    ensures forall j {:trigger InSome(sorted[j], r)} :: 0 <= j < |sorted| ==> InSome(sorted[j], r)
    ensures forall k {:trigger BeginOfSome(r[k].0, sorted)} :: 0 <= k < |r| ==> BeginOfSome(r[k].0, sorted)
    ensures forall k {:trigger EndOfSome(r[k].1, sorted)} :: 0 <= k < |r| ==> EndOfSome(r[k].1, sorted)
  {
    r := sorted;
    // Witnesses: the range each input lies in, and the input each begin and each end comes from.
    ghost var cov: seq<nat>, bFrom: seq<nat>, eFrom: seq<nat> := Iota(|sorted|), Iota(|sorted|), Iota(|sorted|);
    MergeStart(sorted);
    var i := 1;
    if r != [] {
      assert r[..1] == [] + [r[0]] && r[1..] == r[0..][1..];
    }
    while i < |r|
      invariant MergeInv(sorted, r, i, cov, bFrom, eFrom)
      invariant r == [] ==> sorted == []
      invariant r != [] ==> MergeInto(r[..i], r[i..]) == Merged(sorted)
      decreases |r| - i
    {
      if r[i].0 - r[i - 1].1 >= MergedGapDownload {
        assert r[..i] + [r[i]] == r[..i + 1] && r[i..][1..] == r[i + 1..];
        MergeSkip(sorted, r, i, cov, bFrom, eFrom);
        i := i + 1;
      } else {
        ghost var m := Fold(r, i);
        assert m[..i] == r[..i][..i - 1] + [(r[i - 1].0, Max(r[i - 1].1, r[i].1))];
        assert m[i..] == r[i..][1..];
        MergeFold(sorted, r, i, cov, bFrom, eFrom);
        cov, bFrom, eFrom := FoldCover(cov, i), Without(bFrom, i), Without(eFrom[i - 1 := FoldEnd(r, i, eFrom)], i);
        r := Fold(r, i);
      }
    }
    if r != [] {
      assert r[..i] == r && r[i..] == [];
    }
    MergeDone(sorted, r, i, cov, bFrom, eFrom);
  }

  /** Which input the end of the folded range comes from. */
  function FoldEnd(r: seq<Range>, i: nat, eFrom: seq<nat>): nat
    requires 1 <= i < |r| && |eFrom| == |r|
  {
    if r[i - 1].1 >= r[i].1 then eFrom[i - 1] else eFrom[i]
  }

  /** Folding keeps the witnesses. */
  lemma FoldKeepsWitnesses(sorted: seq<Range>, r: seq<Range>, i: nat, cov: seq<nat>, bFrom: seq<nat>, eFrom: seq<nat>)
    requires 1 <= i < |r| && r[i - 1].0 <= r[i].0
    requires CoveredBy(sorted, r, cov) && TakenFrom(sorted, r, bFrom, eFrom)
    ensures CoveredBy(sorted, Fold(r, i), FoldCover(cov, i))
    ensures TakenFrom(sorted, Fold(r, i), Without(bFrom, i), Without(eFrom[i - 1 := FoldEnd(r, i, eFrom)], i))
  {
    var m, c := Fold(r, i), FoldCover(cov, i);
    forall j | 0 <= j < |sorted|
      ensures c[j] < |m| && Within(sorted[j], m[c[j]])
    {
      var k := cov[j];
      if k < i - 1 {
        assert m[c[j]] == r[k];
      } else if k > i {
        assert m[c[j]] == r[k];
      } else {
        assert c[j] == i - 1;
      }
    }
    var b, e := Without(bFrom, i), Without(eFrom[i - 1 := FoldEnd(r, i, eFrom)], i);
    forall k | 0 <= k < |m|
      ensures b[k] < |sorted| && sorted[b[k]].0 == m[k].0 && e[k] < |sorted| && sorted[e[k]].1 == m[k].1
    {
      if k >= i {
        assert m[k] == r[k + 1] && b[k] == bFrom[k + 1] && e[k] == eFrom[k + 1];
      } else if k < i - 1 {
        assert m[k] == r[k] && b[k] == bFrom[k] && e[k] == eFrom[k];
      }
    }
  }

  /** A part's bytes in the patch file: from its source offset to its end, cut at the file's last byte. */
  function PartRange(part: Locator, lastPtr: int): Range
  {
    (SourceOffset(part), Min(lastPtr, MaxSourceEnd(part)))
  }

  function PartRanges(parts: seq<Locator>, lastPtr: int): (r: seq<Range>)
    ensures |r| == |parts| && forall k :: 0 <= k < |parts| ==> r[k] == PartRange(parts[k], lastPtr)
  {
    if parts == [] then [] else [PartRange(parts[0], lastPtr)] + PartRanges(parts[1..], lastPtr)
  }

  /** One of the parts starts at source offset b. */
  predicate StartOfSome(b: int, parts: seq<Locator>)
  {
    exists j :: 0 <= j < |parts| && SourceOffset(parts[j]) == b
  }

  /**
   * The ranges GetNextStream asks for: the merge of the sorted part ranges. Every remaining
   * part's bytes lie in one of them, they are 512 bytes apart, and each starts where a part starts.
   */
  method RequestRanges(parts: seq<Locator>, lastPtr: int) returns (r: seq<Range>)
    ensures r == Merged(SortRanges(PartRanges(parts, lastPtr)))
    ensures |r| <= |parts| && Separated(r)
    ensures forall j :: 0 <= j < |parts| ==> InSome(PartRange(parts[j], lastPtr), r)
    ensures forall k :: 0 <= k < |r| ==> StartOfSome(r[k].0, parts)
  {
    var offsets := PartRanges(parts, lastPtr);
    var sorted := SortRanges(offsets);
    assert BeginsSorted(sorted) by {
      forall a, b | 0 <= a < b < |sorted|
        ensures sorted[a].0 <= sorted[b].0
      {
        assert RangeLe(sorted[a], sorted[b]);
      }
    }
    r := MergeRanges(sorted);
    RangesCoverParts(parts, lastPtr, offsets, sorted, r);
  }

  /** What the merge says of the sorted ranges, said of the parts. */
  lemma RangesCoverParts(parts: seq<Locator>, lastPtr: int, offsets: seq<Range>, sorted: seq<Range>, r: seq<Range>)
    requires offsets == PartRanges(parts, lastPtr) && multiset(sorted) == multiset(offsets)
    requires forall j {:trigger InSome(sorted[j], r)} :: 0 <= j < |sorted| ==> InSome(sorted[j], r)
    requires forall k {:trigger BeginOfSome(r[k].0, sorted)} :: 0 <= k < |r| ==> BeginOfSome(r[k].0, sorted)
    ensures forall j :: 0 <= j < |parts| ==> InSome(PartRange(parts[j], lastPtr), r)
    ensures forall k :: 0 <= k < |r| ==> StartOfSome(r[k].0, parts)
  {
    forall j | 0 <= j < |parts|
      ensures InSome(PartRange(parts[j], lastPtr), r)
    {
      var x := offsets[j];
      assert x in multiset(offsets);
      var i :| 0 <= i < |sorted| && sorted[i] == x by {
        assert x in multiset(sorted);
      }
      assert InSome(sorted[i], r);
    }
    forall k | 0 <= k < |r|
      ensures StartOfSome(r[k].0, parts)
    {
      assert BeginOfSome(r[k].0, sorted);
      var i :| 0 <= i < |sorted| && sorted[i].0 == r[k].0;
      var x := sorted[i];
      assert x in multiset(sorted);
      var j :| 0 <= j < |offsets| && offsets[j] == x by {
        assert x in multiset(offsets);
      }
      assert SourceOffset(parts[j]) == r[k].0;
    }
  }

  // ---- The retry rule of a download task ----

  /** The wait, in milliseconds, before an attempt that follows the given number of failures. */
  const ReattemptWait: seq<nat> := [0, 500, 1000, 2000, 3000, 5000, 10000, 15000, 20000, 25000, 30000, 45000, 60000]

  /** How an attempt ended when parts remained: an I/O error, any other error, or the response ran out before the next part. */
  datatype AttemptEnd = IOFault | OtherFault | StreamExhausted

  /** One attempt as the network and the disk made it: the parts it wrote, then how it ended. */
  datatype Attempt = Attempt(written: nat, end: AttemptEnd)

  datatype InstallTaskState = NotStarted | WaitingForReattempt | Connecting | Working | Finishing | Done | Error

  /**
   * A run of Repair: the waits before its attempts, the parts left, the state it ended in and
   * whether it rethrew. A run that used up the attempts given waits for the next one.
   */
  datatype RepairRun = RepairRun(waits: seq<nat>, remaining: nat, state: InstallTaskState, rethrown: bool)

  /** Repair from `remaining` parts after `failed` failures in a row, over the given attempts. */
  function RepairSpec(remaining: nat, failed: nat, attempts: seq<Attempt>): RepairRun
    requires failed < |ReattemptWait|
    decreases |attempts|
  {
    if remaining == 0 then RepairRun([], 0, Done, false)
    else if attempts == [] then RepairRun([], remaining, WaitingForReattempt, false)
    else
      var a := attempts[0];
      var failed' := if a.written > 0 then 0 else failed;
      var left := if a.written >= remaining then 0 else remaining - a.written;
      var rest :=
        if left == 0 then RepairRun([], 0, Done, false)
        else match a.end
          case StreamExhausted => RepairSpec(left, failed', attempts[1..])
          case OtherFault => RepairRun([], left, Error, true)
          case IOFault =>
            if failed' + 1 == |ReattemptWait| then RepairRun([], left, Error, true)
            else RepairSpec(left, failed' + 1, attempts[1..]);
      rest.(waits := [ReattemptWait[failed]] + rest.waits)
  }

  /** A run with the given waits before its own. */
  function AfterWaits(waits: seq<nat>, run: RepairRun): RepairRun
  {
    run.(waits := waits + run.waits)
  }

  /** One attempt of Repair from the t-th on, after the waits so far, by how it ends. */
  lemma RepairStep(remaining: nat, failed: nat, attempts: seq<Attempt>, t: nat, waits: seq<nat>)
    requires remaining > 0 && failed < |ReattemptWait| && t < |attempts|
    ensures
      var a := attempts[t];
      var failed' := if a.written > 0 then 0 else failed;
      var left := if a.written >= remaining then 0 else remaining - a.written;
      var w := waits + [ReattemptWait[failed]];
      var whole := AfterWaits(waits, RepairSpec(remaining, failed, attempts[t..]));
      && (left == 0 ==> whole == RepairRun(w, 0, Done, false))
      && (left > 0 && a.end == OtherFault ==> whole == RepairRun(w, left, Error, true))
      && (left > 0 && a.end == IOFault && failed' + 1 == |ReattemptWait| ==> whole == RepairRun(w, left, Error, true))
      && (left > 0 && a.end == StreamExhausted ==> whole == AfterWaits(w, RepairSpec(left, failed', attempts[t + 1..])))
      && (left > 0 && a.end == IOFault && failed' + 1 < |ReattemptWait| ==>
            whole == AfterWaits(w, RepairSpec(left, failed' + 1, attempts[t + 1..])))
  {
    assert attempts[t..][0] == attempts[t] && attempts[t..][1..] == attempts[t + 1..];
    var s := RepairSpec(remaining, failed, attempts[t..]);
    assert waits + s.waits == waits + [ReattemptWait[failed]] + s.waits[1..];
  }

  /**
   * HttpInstallTaskConfig.Repair: wait by the failures in a row, attempt, write parts while
   * the response holds them (each written part clears the failures), count an I/O error and
   * give up at the thirteenth in a row, give up at once on any other error.
   */
  method Repair(parts: nat, attempts: seq<Attempt>) returns (run: RepairRun)
    ensures run == RepairSpec(parts, 0, attempts)
  {
    var failedCount := 0;
    var remaining := parts;
    var waits: seq<nat> := [];
    var t := 0;
    while remaining > 0 && failedCount < |ReattemptWait|
      invariant 0 <= t <= |attempts| && failedCount < |ReattemptWait|
      invariant RepairSpec(parts, 0, attempts) == AfterWaits(waits, RepairSpec(remaining, failedCount, attempts[t..]))
      decreases |attempts| - t, remaining
    {
      if t == |attempts| {
        return RepairRun(waits, remaining, WaitingForReattempt, false);
      }
      RepairStep(remaining, failedCount, attempts, t, waits);
      ghost var before := remaining;
      ghost var failedBefore := failedCount;
      var a := attempts[t];
      waits := waits + [ReattemptWait[failedCount]];
      var k := 0;
      while k < a.written && remaining > 0
        invariant 0 <= k <= a.written && remaining == before - k
        invariant failedCount == if k > 0 then 0 else failedBefore
      {
        remaining := remaining - 1;
        failedCount := 0;
        k := k + 1;
      }
      assert remaining == if a.written >= before then 0 else before - a.written;
      assert failedCount == if a.written > 0 then 0 else failedBefore;
      t := t + 1;
      if remaining > 0 {
        match a.end
        case StreamExhausted =>
        case OtherFault =>
          return RepairRun(waits, remaining, Error, true);
        case IOFault =>
          failedCount := failedCount + 1;
          if failedCount == |ReattemptWait| {
            return RepairRun(waits, remaining, Error, true);
          }
      }
    }
    run := RepairRun(waits, 0, Done, false);
  }

  /** Thirteen I/O errors in a row, none writing a part, make the task give up after all thirteen waits. */
  lemma GivesUpAfterThirteen(remaining: nat, attempts: seq<Attempt>)
    requires remaining > 0 && |attempts| >= |ReattemptWait|
    requires forall k :: 0 <= k < |ReattemptWait| ==> attempts[k] == Attempt(0, IOFault)
    ensures RepairSpec(remaining, 0, attempts) == RepairRun(ReattemptWait, remaining, Error, true)
  {
    GivesUpFrom(remaining, 0, attempts);
    assert ReattemptWait[0..] == ReattemptWait;
  }

  /** An attempt that writes nothing and ends in an I/O error counts one more failure. */
  lemma IOFaultStep(remaining: nat, failed: nat, attempts: seq<Attempt>)
    requires remaining > 0 && failed < |ReattemptWait| && attempts != [] && attempts[0] == Attempt(0, IOFault)
    ensures RepairSpec(remaining, failed, attempts)
      == if failed + 1 == |ReattemptWait| then RepairRun([ReattemptWait[failed]], remaining, Error, true)
         else AfterWaits([ReattemptWait[failed]], RepairSpec(remaining, failed + 1, attempts[1..]))
  {
  }

  lemma {:induction false} GivesUpFrom(remaining: nat, failed: nat, attempts: seq<Attempt>)
    requires remaining > 0 && failed < |ReattemptWait| && |attempts| >= |ReattemptWait| - failed
    requires forall k :: 0 <= k < |ReattemptWait| - failed ==> attempts[k] == Attempt(0, IOFault)
    ensures RepairSpec(remaining, failed, attempts) == RepairRun(ReattemptWait[failed..], remaining, Error, true)
    decreases |ReattemptWait| - failed
  {
    IOFaultStep(remaining, failed, attempts);
    if failed + 1 < |ReattemptWait| {
      assert forall k :: 0 <= k < |ReattemptWait| - (failed + 1) ==> attempts[1..][k] == attempts[k + 1];
      GivesUpFrom(remaining, failed + 1, attempts[1..]);
      assert ReattemptWait[failed..] == [ReattemptWait[failed]] + ReattemptWait[failed + 1..];
    } else {
      assert ReattemptWait[failed..] == [ReattemptWait[failed]];
    }
  }

  /** A task whose every attempt writes a part never gives up on I/O errors. */
  lemma {:induction false} ProgressNeverGivesUp(remaining: nat, failed: nat, attempts: seq<Attempt>)
    requires failed < |ReattemptWait| - 1
    requires forall k :: 0 <= k < |attempts| ==> attempts[k].written > 0 && attempts[k].end != OtherFault
    ensures RepairSpec(remaining, failed, attempts).state != Error
    decreases |attempts|
  {
    if remaining > 0 && attempts != [] {
      ProgressNeverGivesUp(if attempts[0].written >= remaining then 0 else remaining - attempts[0].written, 0, attempts[1..]);
    }
  }

  function IOFaults(attempts: seq<Attempt>): nat
  {
    if attempts == [] then 0 else (if attempts[0].end == IOFault then 1 else 0) + IOFaults(attempts[1..])
  }

  /** Without other errors, a task gives up only after thirteen I/O errors at the least. */
  lemma {:induction false} ErrorNeedsThirteenFaults(remaining: nat, failed: nat, attempts: seq<Attempt>)
    requires failed < |ReattemptWait|
    requires forall k :: 0 <= k < |attempts| ==> attempts[k].end != OtherFault
    requires RepairSpec(remaining, failed, attempts).state == Error
    ensures failed + IOFaults(attempts) >= |ReattemptWait|
    decreases |attempts|
  {
    var a := attempts[0];
    var failed' := if a.written > 0 then 0 else failed;
    var left := if a.written >= remaining then 0 else remaining - a.written;
    if a.end == StreamExhausted {
      ErrorNeedsThirteenFaults(left, failed', attempts[1..]);
    } else if failed' + 1 < |ReattemptWait| {
      ErrorNeedsThirteenFaults(left, failed' + 1, attempts[1..]);
    }
  }

  /** A run ends Done exactly when no part is left, and it waits once per attempt it makes. */
  lemma {:induction false} RepairRunShape(remaining: nat, failed: nat, attempts: seq<Attempt>)
    requires failed < |ReattemptWait|
    ensures var run := RepairSpec(remaining, failed, attempts);
      && (run.state == Done <==> run.remaining == 0)
      && run.remaining <= remaining
      && |run.waits| <= |attempts|
      && (forall w :: w in run.waits ==> w in ReattemptWait)
      && (run.rethrown <==> run.state == Error)
    decreases |attempts|
  {
    if remaining > 0 && attempts != [] {
      var a := attempts[0];
      var failed' := if a.written > 0 then 0 else failed;
      var left := if a.written >= remaining then 0 else remaining - a.written;
      if left > 0 {
        if a.end == StreamExhausted {
          RepairRunShape(left, failed', attempts[1..]);
        } else if a.end == IOFault && failed' + 1 < |ReattemptWait| {
          RepairRunShape(left, failed' + 1, attempts[1..]);
        }
      }
    }
  }
}
