/**
 * Two pieces of the patch-index update command: the clean-up of a path taken from a patch
 * list into one relative to the game folder, and the check of a downloaded patch file against
 * the list's per-block SHA-1 hashes.
 */
module IndexUpdate {
  import opened Wrappers
  import opened Ints
  import Arguments

  // ---- EnsureRelativePath ----

  predicate IsSeparator(c: char)
  {
    c == '/' || c == '\\'
  }

  /** Starts with "/" or "\" (StartsWith with ordinal comparison tests the characters one by one). */
  predicate RootPrefix(s: string)
  {
    |s| >= 1 && IsSeparator(s[0])
  }

  /** Starts with "./" or ".\". */
  predicate CurrentPrefix(s: string)
  {
    |s| >= 2 && s[0] == '.' && IsSeparator(s[1])
  }

  /** Starts with "../" or "..\". */
  predicate ParentPrefix(s: string)
  {
    |s| >= 3 && s[0] == '.' && s[1] == '.' && IsSeparator(s[2])
  }

  predicate Relative(s: string)
  {
    !RootPrefix(s) && !CurrentPrefix(s) && !ParentPrefix(s)
  }

  /** How many characters one pass of the loop removes: 1, 2 or 3 for the three prefixes, else 0. */
  function Step(path: string): (k: nat)
    ensures k <= |path| && (k == 0 <==> Relative(path))
  {
    if RootPrefix(path) then 1 else if CurrentPrefix(path) then 2 else if ParentPrefix(path) then 3 else 0
  }

  /** How many leading characters the clean-up removes in all. */
  function Removed(path: string): (n: nat)
    ensures n <= |path| && Relative(path[n..])
    decreases |path|
  {
    var k := Step(path);
    if k == 0 then 0
    else
      var m := Removed(path[k..]);
      assert path[k..][m..] == path[k + m..];
      k + m
  }

  /** The path with every leading separator, "./" and "../" removed, tested in that order. */
  function StripLeading(path: string): string
  {
    path[Removed(path)..]
  }

  /** The clean-up keeps a suffix of the path, and the result starts with none of the six prefixes. */
  lemma StripSuffix(path: string)
    ensures var r := StripLeading(path);
      |r| <= |path| && r == path[|path| - |r|..] && Relative(r)
  {
  }

  method EnsureRelativePath(path0: string) returns (path: string)
    ensures path == StripLeading(path0)
  {
    path := path0;
    while true
      invariant StripLeading(path) == StripLeading(path0)
      decreases |path|
    {
      assert path[Step(path)..][Removed(path[Step(path)..])..] == path[Removed(path)..];
      if RootPrefix(path) {
        path := path[1..];
        continue;
      }
      if CurrentPrefix(path) {
        path := path[2..];
        continue;
      }
      if ParentPrefix(path) {
        path := path[3..];
        continue;
      }
      return;
    }
  }

  /** A path that is already relative comes back unchanged, and only such a path does. */
  lemma StripRelative(path: string)
    ensures StripLeading(path) == path <==> Relative(path)
  {
  }

  /** Cleaning up a clean path changes nothing. */
  lemma StripIdempotent(path: string)
    ensures StripLeading(StripLeading(path)) == StripLeading(path)
  {
    StripRelative(StripLeading(path));
  }

  predicate SeparatorOrDot(c: char)
  {
    c == '/' || c == '\\' || c == '.'
  }

  /** Only separators and dots are removed. */
  lemma {:induction false} StripRemovesSeparatorsAndDots(path: string)
    ensures forall i :: 0 <= i < Removed(path) ==> SeparatorOrDot(path[i])
    decreases |path|
  {
    var k := Step(path);
    if k > 0 {
      var tail := path[k..];
      StripRemovesSeparatorsAndDots(tail);
      var m := Removed(path);
      assert forall i :: 0 <= i < k ==> SeparatorOrDot(path[i]);
      assert forall i :: k <= i < m ==> SeparatorOrDot(path[i]) by {
        forall i | k <= i < m
          ensures SeparatorOrDot(path[i])
        {
          assert path[i] == tail[i - k];
        }
      }
    }
  }

  // ---- CheckPatchHashAsync ----

  /** The size of the buffer the blocks are read through. */
  const ReadBufferSize: int := 65536

  /** The bytes block `j` covers: the rest of the file, at most one block, and nothing past the end. */
  function BlockLength(length: int, blockSize: int, j: int): (n: int)
    ensures n >= 0
    ensures n <= Max(0, blockSize)
    ensures length - j * blockSize >= blockSize >= 0 ==> n == blockSize
  {
    Max(0, Min(length - j * blockSize, blockSize))
  }

  /** Where block `j` starts in a file of `length` bytes. */
  function BlockStart(length: int, blockSize: int, j: nat): int
  {
    Min(length, j * blockSize)
  }

  /** Block `j` ends where block `j + 1` starts. */
  lemma BlockAdjacent(length: int, blockSize: int, j: nat)
    requires length >= 0 && blockSize > 0
    ensures BlockStart(length, blockSize, j) + BlockLength(length, blockSize, j) == BlockStart(length, blockSize, j + 1)
  {
    assert (j + 1) * blockSize == j * blockSize + blockSize;
  }

  /** The first `k` blocks cover the first min(length, k * blockSize) bytes: no gap, no overlap. */
  lemma {:induction false} BlocksCover(length: int, blockSize: int, k: nat)
    requires length >= 0 && blockSize > 0
    ensures SumBlocks(length, blockSize, k) == BlockStart(length, blockSize, k)
  {
    if k > 0 {
      BlocksCover(length, blockSize, k - 1);
      BlockAdjacent(length, blockSize, k - 1);
    }
  }

  function SumBlocks(length: int, blockSize: int, k: nat): int
  {
    if k == 0 then 0 else SumBlocks(length, blockSize, k - 1) + BlockLength(length, blockSize, k - 1)
  }

  /** The sizes the inner loop reads a block in: whole buffers, then the rest. */
  method ReadSizes(remaining0: int, bufferSize: int) returns (sizes: seq<int>)
    requires bufferSize > 0
    ensures forall i :: 0 <= i < |sizes| ==> 0 < sizes[i] <= bufferSize
    ensures Sum(sizes) == Max(0, remaining0)
    ensures forall i :: 0 <= i < |sizes| - 1 ==> sizes[i] == bufferSize
  {
    sizes := [];
    var remaining := remaining0;
    while remaining > 0
      invariant forall i :: 0 <= i < |sizes| ==> 0 < sizes[i] <= bufferSize
      invariant forall i :: 0 <= i < |sizes| ==> (i < |sizes| - 1 || remaining > 0) ==> sizes[i] == bufferSize
      invariant Sum(sizes) + Max(0, remaining) == Max(0, remaining0)
    {
      var r := Min(bufferSize, remaining);
      SumAppend(sizes, r);
      sizes := sizes + [r];
      remaining := remaining - r;
    }
  }

  function Sum(s: seq<int>): int
  {
    if s == [] then 0 else Sum(s[..|s| - 1]) + s[|s| - 1]
  }

  lemma SumAppend(s: seq<int>, x: int)
    ensures Sum(s + [x]) == Sum(s) + x
  {
    assert (s + [x])[..|s|] == s;
  }

  /** String.Join of each byte in "x2" format. */
  function HexOfBytes(bytes: seq<uint8>): (s: string)
    ensures |s| == 2 * |bytes|
  {
    if bytes == [] then "" else Arguments.Hex(bytes[0], 2) + HexOfBytes(bytes[1..])
  }

  /**
   * The verdict on a patch file from block `j` on, reading at `pos`: an IOException when the
   * file ends inside a block, false at the first block whose digest differs, true otherwise.
   */
  function CheckFrom(file: seq<uint8>, length: int, blockSize: int, hashes: seq<string>,
                     sha1: seq<uint8> -> seq<uint8>, j: nat, pos: nat): Result<bool>
    decreases |hashes| - j
  {
    if j >= |hashes| then Ok(true)
    else
      var n := BlockLength(length, blockSize, j);
      if pos + n > |file| then Err(IOFailure)
      else if HexOfBytes(sha1(file[pos..pos + n])) != hashes[j] then Ok(false)
      else CheckFrom(file, length, blockSize, hashes, sha1, j + 1, pos + n)
  }

  /** Block `j` of the file, as far as the file goes. */
  function Block(file: seq<uint8>, length: int, blockSize: int, j: nat): seq<uint8>
    requires length >= 0 && blockSize > 0
    requires BlockStart(length, blockSize, j + 1) <= |file|
  {
    assert BlockStart(length, blockSize, j) <= BlockStart(length, blockSize, j + 1) by {
      BlockAdjacent(length, blockSize, j);
    }
    file[BlockStart(length, blockSize, j)..BlockStart(length, blockSize, j + 1)]
  }

  predicate BlockMatches(file: seq<uint8>, length: int, blockSize: int, hashes: seq<string>,
                         sha1: seq<uint8> -> seq<uint8>, j: nat)
    requires length >= 0 && blockSize > 0 && j < |hashes|
  {
    BlockStart(length, blockSize, j + 1) <= |file| && HexOfBytes(sha1(Block(file, length, blockSize, j))) == hashes[j]
  }

  /** From block `j` on the file passes exactly when each later block is there and has its listed digest. */
  lemma {:induction false} CheckFromMatches(file: seq<uint8>, length: int, blockSize: int, hashes: seq<string>,
                                           sha1: seq<uint8> -> seq<uint8>, j: nat)
    requires length >= 0 && blockSize > 0
    ensures CheckFrom(file, length, blockSize, hashes, sha1, j, BlockStart(length, blockSize, j) as nat) == Ok(true)
            <==> forall i :: j <= i < |hashes| ==> BlockMatches(file, length, blockSize, hashes, sha1, i)
    decreases |hashes| - j
  {
    assert j * blockSize >= 0;
    if j < |hashes| {
      var pos, next := BlockStart(length, blockSize, j), BlockStart(length, blockSize, j + 1);
      BlockAdjacent(length, blockSize, j);
      CheckFromMatches(file, length, blockSize, hashes, sha1, j + 1);
      assert pos + BlockLength(length, blockSize, j) == next;
      var c := CheckFrom(file, length, blockSize, hashes, sha1, j, pos as nat);
      var rest := CheckFrom(file, length, blockSize, hashes, sha1, j + 1, next as nat);
      if next > |file| {
        assert c.Err? && !BlockMatches(file, length, blockSize, hashes, sha1, j);
      } else {
        assert Block(file, length, blockSize, j) == file[pos..next];
        if BlockMatches(file, length, blockSize, hashes, sha1, j) {
          assert c == rest;
        } else {
          assert c == Ok(false);
        }
      }
    }
  }

  /** The whole file passes exactly when every listed block is there and has its listed digest. */
  lemma CheckMatchesAll(file: seq<uint8>, length: int, blockSize: int, hashes: seq<string>, sha1: seq<uint8> -> seq<uint8>)
    requires length >= 0 && blockSize > 0
    ensures CheckFrom(file, length, blockSize, hashes, sha1, 0, 0) == Ok(true)
            <==> forall i :: 0 <= i < |hashes| ==> BlockMatches(file, length, blockSize, hashes, sha1, i)
  {
    CheckFromMatches(file, length, blockSize, hashes, sha1, 0);
  }

  /** CheckPatchHashAsync over the file's bytes, with SHA-1 as a parameter. */
  method CheckPatchHash(file: seq<uint8>, length: int, blockSize: int, hashes: seq<string>,
                        sha1: seq<uint8> -> seq<uint8>) returns (r: Result<bool>)
    ensures r == CheckFrom(file, length, blockSize, hashes, sha1, 0, 0)
  {
    var pos: nat := 0;
    var j: nat := 0;
    while j < |hashes|
      invariant j <= |hashes| && pos <= |file|
      invariant CheckFrom(file, length, blockSize, hashes, sha1, j, pos) == CheckFrom(file, length, blockSize, hashes, sha1, 0, 0)
    {
      var blockStart := pos;
      var remaining := Min(length - j * blockSize, blockSize);
      ghost var n := BlockLength(length, blockSize, j);
      while remaining > 0
        invariant blockStart <= pos <= |file|
        invariant pos - blockStart + Max(0, remaining) == n
      {
        var r := Min(ReadBufferSize, remaining);
        if pos + r > |file| {
          return Err(IOFailure);
        }
        pos := pos + r;
        remaining := remaining - r;
      }
      if HexOfBytes(sha1(file[blockStart..pos])) != hashes[j] {
        return Ok(false);
      }
      j := j + 1;
    }
    return Ok(true);
  }
}
