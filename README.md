# XIVLauncher core, modelled in Dafny

This project models the self-contained core of XIVLauncher, a launcher and patcher for
FINAL FANTASY XIV. The model covers the patch-index data layer, the installer's planning
logic, two buffer pools, a set of small text and number codecs, and the staged native
launch sequence. Each source file of the core becomes a Dafny module (the patch index two: its lists and its file format):

- `PartLocator`: the part locator of a patch index. It packs sizes and two flags into one
  32-bit word. Its setters use checked casts.
- `TargetFile`: a target file as a sorted list of part locators that tile it from offset 0.
  `SplitAt` and `Update` change the list in place.
- `PartialFile`: the older twin of `TargetFile`, over a plain struct with unchecked
  `long`/`int` arithmetic. Its CompareTo takes the sign of a wrapping `long` difference, and
  List.BinarySearch is modelled over that comparison.
- `CircularStream`: the ring-buffer memory stream. A byte array holds the valid bytes from
  `validFrom` round to `validTo`; an `empty` flag tells a full ring from an empty one. The
  class changes the array and the fields in place. Each method is proved equal to a function
  on a snapshot of the fields (`Ring`), and the properties are lemmas about those functions.
- `SeVersion`: the five-field game version, its parser, its zero-padded text form and its
  order. The parser and the text form are proved to round-trip.
- `Arguments`: the game's argument builder. A class holds the key/value list, which Append
  and DeriveKey change. Build renders the list as text. BuildEncrypted escapes the list and
  wraps the sealed text in the "//**sqex0003...**//" frame with a checksum character.
- `MessageBox`: the quoting of one command-line argument for the launcher's restart, and the
  default and cancel results of the message box builder. The quoting loop is proved against a
  function, and that function against a model of the Windows argument reader: a quoted
  argument reads back as itself.
- `UniqueIdCache`: the per-user cache of unique ids, a class over a list of entries that
  expire one day after they were added. The clock is a parameter.
- `Repository`: the game's repositories, the paths of their version files and the reading
  and writing of those files, over a file system given as a map from paths to text.
- `IndexUpdate`: the update command's clean-up of patch-list paths into relative ones, and its
  check of a downloaded patch file against per-block SHA-1 digests.
- `PatchIndex`: the patch index, a class over the list of target files. It normalises paths,
  finds and allocates target files, renumbers their parts, and names the version files.
- `IndexFile`: the header of the patch index file, as the index writes and reads it: the
  signature, the format version, the names of the patch files with their 7-bit length
  prefixes, and the pointers. It is modelled over byte sequences.
- `BufferPool`: the reusable byte buffers, one manager per size class. They are Dafny classes
  over an array of slots that Allocate empties and Return fills.
- `Installer`: the patch installer's planning. A class holds the missing parts per target
  file and per patch file and the queued tasks. QueueInstall cuts a patch file's missing parts
  into requests; the merge of byte ranges and the retry rule of a download task are proved
  against functions of their inputs. A download attempt is given as the parts it wrote and how
  it ended.
- `DxvkSettings`: the DXVK settings of the Unix compatibility layer: the release each DXVK
  version downloads, the HUD environment variables, and the check of a custom HUD string
  against two regular expressions. Both patterns are modelled as written and as evidently
  intended; the settings use the corrected check.
- `BinaryReaderHelpers`: the big-endian reads over a BinaryReader. A class holds the stream's
  bytes and position; the exact read, the in-place reversal of a byte array, the six integer
  reads and the fixed-length ASCII string read are methods proved against functions of the
  bytes.
- `OtpShell`: the shell command that supplies a one-time password. The command is cut at its
  first space into the file to run and its arguments, and the password is the trimmed output
  of a process that exits with 0 and prints something that is not blank.
- `SteamTicket`: the encrypted Steam session ticket. The ticket bytes become lowercase hex
  text with a NUL; a byte sum, the text and up to seven garbage bytes fill whole 8-byte
  blocks; a running sum over the garbage overwrites the first four bytes and the first two
  are swapped; the sealed text is cut into pieces of at most 300 characters joined by commas.
  Get is a method whose loops are proved against a function of its inputs.
- `NativeLauncher`: the native program that starts the game. It builds an ACL that grants the
  launcher's user access and creates the game process with the command line "app arg". It then
  polls the top-level windows until one belongs to the game. Only then does it give the game
  the launcher's own ACL and return the process id. The operating system is a class that
  answers from a fixed record and logs the calls made; the staging is stated over that log.

Two helper modules hold what several modules share. `Wrappers` has `Option`, `Result` and
the exception kinds. `Ints` has the C# integer widths, their wrap-around conversions and a
few bit-level helpers. `Strings` has the .NET string routines the core calls: Split, Join,
Trim, decimal formatting and uint.Parse.

Exceptions are modelled as `Result` values. A method that can throw after it has already
changed its list returns the list as left at the throw, plus the exception (`Outcome`).
Classes whose methods change a list are Dafny classes with a `seq` field. Each such method is
proved equal to a function of the old list. The properties are lemmas about those functions.

## Model

| member | source | states |
|---|---|---|
| `PartLocator.CheckedCastToUint` | src/XIVLauncher.Common/Patching/IndexedZiPatch/IndexedZiPatchPartLocator.cs:333-339 | throws exactly when the value exceeds the maximum; an in-range value is kept |
| `PartLocator.CheckedCastToUshort` | src/XIVLauncher.Common/Patching/IndexedZiPatch/IndexedZiPatchPartLocator.cs:341-347 | throws exactly above the maximum; otherwise the low 16 bits, equal to the value when it fits |
| `PartLocator.CheckedCastToByte` | src/XIVLauncher.Common/Patching/IndexedZiPatch/IndexedZiPatchPartLocator.cs:349-355 | throws exactly above the maximum; otherwise the low 8 bits, equal to the value when it fits |
| `PartLocator.TargetEnd` | src/XIVLauncher.Common/Patching/IndexedZiPatch/IndexedZiPatchPartLocator.cs:70 | the end lies less than 2^30 past the start, and equals it exactly for an empty part |
| `PartLocator.PackedWord` | src/XIVLauncher.Common/Patching/IndexedZiPatch/IndexedZiPatchPartLocator.cs:20-22 | the packed word is the sum of the deflated bit, the CRC bit and a size of at most 30 bits |
| `PartLocator.IsFromSourceFile` | src/XIVLauncher.Common/Patching/IndexedZiPatch/IndexedZiPatchPartLocator.cs:84-87 | holds iff the source index is none of 255, 254, 253, that is iff it is at most 252 |
| `PartLocator.WithTargetOffset` | src/XIVLauncher.Common/Patching/IndexedZiPatch/IndexedZiPatchPartLocator.cs:32-36 | succeeds iff the value fits 32 bits; then the offset reads back and no other field changes |
| `PartLocator.WithSourceOffset` | src/XIVLauncher.Common/Patching/IndexedZiPatch/IndexedZiPatchPartLocator.cs:38-42 | succeeds iff the value fits 32 bits; then it reads back and no other field changes |
| `PartLocator.WithSplitDecodedSourceFrom` | src/XIVLauncher.Common/Patching/IndexedZiPatch/IndexedZiPatchPartLocator.cs:50-54 | succeeds iff the value fits 16 bits; then it reads back and no other field changes |
| `PartLocator.WithTargetIndex` | src/XIVLauncher.Common/Patching/IndexedZiPatch/IndexedZiPatchPartLocator.cs:56-60 | succeeds iff the value fits 8 bits; then it reads back and no other field changes |
| `PartLocator.WithSourceIndex` | src/XIVLauncher.Common/Patching/IndexedZiPatch/IndexedZiPatchPartLocator.cs:62-66 | succeeds iff the value fits 8 bits; then it reads back and no other field changes |
| `PartLocator.WithIsDeflatedBlockData` | src/XIVLauncher.Common/Patching/IndexedZiPatch/IndexedZiPatchPartLocator.cs:68-76 | sets the deflated flag and nothing else: the CRC flag, the size and every other field are kept; MaxSourceSize becomes 16384 or the size |
| `PartLocator.WithIsValidCrc32Value` | src/XIVLauncher.Common/Patching/IndexedZiPatch/IndexedZiPatchPartLocator.cs:78-82 | sets the CRC flag and nothing else |
| `PartLocator.TargetSizeAsWrittenWithoutFlags` | src/XIVLauncher.Common/Patching/IndexedZiPatch/IndexedZiPatchPartLocator.cs:44-48 | with both flags clear, the setter as written stores a size up to 2^30-1 and rejects a larger one, agreeing with the corrected setter |
| `PartLocator.TargetSizeAsWrittenRejectsFlaggedParts` | src/XIVLauncher.Common/Patching/IndexedZiPatch/IndexedZiPatchPartLocator.cs:44-48 | with either flag set, the setter as written throws for every non-negative size |
| `PartLocator.WithTargetSize` | src/XIVLauncher.Common/Patching/IndexedZiPatch/IndexedZiPatchPartLocator.cs:44-48 | corrected setter: rejects exactly the sizes above 2^30-1; otherwise the size reads back and both flags and all other fields are kept |
| `PartLocator.CompareTo` | src/XIVLauncher.Common/Patching/IndexedZiPatch/IndexedZiPatchPartLocator.cs:120-124 | returns -1, 0 or 1, by the target offsets alone: negative iff smaller, zero iff equal |
| `PartLocator.CompareToPreorder` | src/XIVLauncher.Common/Patching/IndexedZiPatch/IndexedZiPatchPartLocator.cs:120-124 | the order is transitive and antisymmetric and ignores every field but the target offset |
| `PartLocator.Verify` | src/XIVLauncher.Common/Patching/IndexedZiPatch/IndexedZiPatchPartLocator.cs:134-159 | a length other than TargetSize gives FailNotEnoughData; Pass needs a CRC, zeros or placeholder part |
| `PartLocator.VerifyAllZeros` | src/XIVLauncher.Common/Patching/IndexedZiPatch/IndexedZiPatchPartLocator.cs:142-143 | an all-zeros part without a CRC passes iff every byte of its range is zero, else FailBadData |
| `PartLocator.VerifyAcceptsPlaceholder` | src/XIVLauncher.Common/Patching/IndexedZiPatch/IndexedZiPatchPartLocator.cs:145-156 | a placeholder part accepts the header with its data-unit count followed by zeros |
| `PartLocator.FilterBufferSize` | src/XIVLauncher.Common/Patching/IndexedZiPatch/IndexedZiPatchPartLocator.cs:228-238 | throws iff an explicit size is negative and not clamped by the part |
| `PartLocator.FilterBufferSizeBounds` | src/XIVLauncher.Common/Patching/IndexedZiPatch/IndexedZiPatchPartLocator.cs:228-238 | the size is never negative and never past the part's end; an explicit size that fits is kept; -1 also stays within the buffer |
| `TargetFile.FileSizeCovers` | src/XIVLauncher.Common/Patching/IndexedZiPatch/IndexedZiPatchTargetFile.cs:63 | on a tiled list, exactly the offsets below FileSize have a byte, and every part ends at or before it |
| `TargetFile.BinarySearchSpec` | src/XIVLauncher.Common/Patching/IndexedZiPatch/IndexedZiPatchTargetFile.cs:65-68 | throws iff the offset exceeds 32 bits (the probe's setter); otherwise the List.BinarySearch result |
| `TargetFile.SearchFinds` | src/XIVLauncher.Common/Patching/IndexedZiPatch/IndexedZiPatchTargetFile.cs:65-68 | on a sorted list the search hits iff a part starts at the offset, at that part's index |
| `TargetFile.IndexedZiPatchTargetFile.BinarySearchByTargetOffset` | src/XIVLauncher.Common/Patching/IndexedZiPatch/IndexedZiPatchTargetFile.cs:65-68 | the lo/hi loop returns the index of the match or the complement of the insertion point |
| `TargetFile.SplitAtStartIsNoOp` | src/XIVLauncher.Common/Patching/IndexedZiPatch/IndexedZiPatchTargetFile.cs:72-77 | an offset where a part starts leaves the list unchanged and throws nothing |
| `TargetFile.SplitGrows` | src/XIVLauncher.Common/Patching/IndexedZiPatch/IndexedZiPatchTargetFile.cs:84-106 | past the end (or on an empty list) one zeros part is appended, from the old end to the offset, with the given target index; a gap over 30 bits throws |
| `TargetFile.SplitInteriorShape` | src/XIVLauncher.Common/Patching/IndexedZiPatch/IndexedZiPatchTargetFile.cs:107-112 | an offset strictly inside the file where no part starts splits the part that strictly contains it |
| `TargetFile.SplitPartShape` | src/XIVLauncher.Common/Patching/IndexedZiPatch/IndexedZiPatchTargetFile.cs:107-161 | a plain part with a decoded-source offset throws and nothing changes; otherwise it becomes two parts, the second at the offset, sizes summing to the old; plain parts shift SourceOffset, deflated and placeholder parts shift SplitDecodedSourceFrom |
| `TargetFile.SplitKeepsBytes` | src/XIVLauncher.Common/Patching/IndexedZiPatch/IndexedZiPatchTargetFile.cs:70-162 | a successful split keeps the list tiled, makes the offset a boundary, keeps every old boundary and the origin of every byte, and fills growth with zeros |
| `TargetFile.SplitFailures` | src/XIVLauncher.Common/Patching/IndexedZiPatch/IndexedZiPatchTargetFile.cs:70-162 | on a tiled list a split throws only ValueTooBig or ArgumentError, always ValueTooBig past 32 bits |
| `TargetFile.IndexedZiPatchTargetFile.SplitAt` | src/XIVLauncher.Common/Patching/IndexedZiPatch/IndexedZiPatchTargetFile.cs:70-162 | the new list and exception are those of SplitSpec on the old list; the path is unchanged |
| `TargetFile.UpdateEmptyIsNoOp` | src/XIVLauncher.Common/Patching/IndexedZiPatch/IndexedZiPatchTargetFile.cs:166-167 | a part of size 0 changes nothing |
| `TargetFile.UpdateOverwrites` | src/XIVLauncher.Common/Patching/IndexedZiPatch/IndexedZiPatchTargetFile.cs:164-191 | a successful Update keeps the list tiled, gives the bytes of [TargetOffset, TargetEnd) the part's origin, keeps all others, and fills a gap before the part with zeros |
| `TargetFile.UpdateFailures` | src/XIVLauncher.Common/Patching/IndexedZiPatch/IndexedZiPatchTargetFile.cs:182-190 | Update fails only as its splits fail; the negative-count RemoveRange is never reached |
| `TargetFile.IndexedZiPatchTargetFile.Update` | src/XIVLauncher.Common/Patching/IndexedZiPatch/IndexedZiPatchTargetFile.cs:164-191 | the new list and exception are those of UpdateSpec on the old list |
| `PartialFile.TargetEnd` | src/XIVLauncher.PatchInstaller/PartialFile/PartialFilePart.cs:31 | the `long` sum, equal to the exact end whenever that fits 64 bits |
| `PartialFile.DeflatedFlags` | src/XIVLauncher.PatchInstaller/PartialFile/PartialFilePart.cs:33-43 | a fresh struct's flags after the SourceIsDeflated setter: bit 0 is the flag, bit 1 is clear |
| `PartialFile.CompareTo` | src/XIVLauncher.PatchInstaller/PartialFile/PartialFilePart.cs:50-54 | returns -1, 0 or 1, the sign of the offset difference whenever it does not overflow |
| `PartialFile.CompareToWraps` | src/XIVLauncher.PatchInstaller/PartialFile/PartialFilePart.cs:50-54 | for all parts: when the offset difference does not fit a `long`, it wraps and CompareTo returns the reverse order (offsets 2^63-1 and -1 are such a pair), and CompareTo is the sign of the exact difference exactly when the difference fits |
| `PartialFile.SearchFinds` | src/XIVLauncher.PatchInstaller/PartialFile/PartialFilePartList.cs:42-45 | on a sorted list whose offsets all lie within a `long` of the probe, the search hits iff a part starts at the offset |
| `PartialFile.SearchResult` | src/XIVLauncher.PatchInstaller/PartialFile/PartialFilePartList.cs:42-45 | a non-negative result indexes a part starting at the probe; a negative one is the complement of an index at most the length |
| `PartialFile.SearchExact` | src/XIVLauncher.PatchInstaller/PartialFile/PartialFilePart.cs:50-54 | on a sorted list whose offsets all lie within a `long` of the probe, List.BinarySearch over the wrapping CompareTo equals the exact search (hit at the starting part, else complement of the insertion point) |
| `PartialFile.TiledNoWrap` | src/XIVLauncher.PatchInstaller/PartialFile/PartialFilePart.cs:50-54 | on a tiled list no difference wraps for a probe of at least FileSize - 2^63, so every non-negative probe is searched exactly |
| `PartialFile.SearchMissesAcrossWrap` | src/XIVLauncher.PatchInstaller/PartialFile/PartialFilePart.cs:50-54 | on the sorted starts Int64Min and Int64Max the wrapped difference reverses the order and the search for Int64Max misses |
| `PartialFile.PartialFilePartList.BinarySearchByTargetOffset` | src/XIVLauncher.PatchInstaller/PartialFile/PartialFilePartList.cs:42-45 | the lo/hi loop over the wrapping CompareTo returns exactly SearchResult, on any list and any probe |
| `PartialFile.SplitAtStartIsNoOp` | src/XIVLauncher.PatchInstaller/PartialFile/PartialFilePartList.cs:49-54 | on a sorted list, an offset where a part starts and from which no offset differs by more than a `long` leaves the list unchanged |
| `PartialFile.SplitAtStartAcrossWrapThrows` | src/XIVLauncher.PatchInstaller/PartialFile/PartialFilePartList.cs:49-100 | on the starts Int64Min and Int64Max a split at Int64Max, where a part starts, throws ArgumentOutOfRange instead of doing nothing |
| `PartialFile.SplitGrows` | src/XIVLauncher.PatchInstaller/PartialFile/PartialFilePartList.cs:61-81 | past the end (or on an empty list) one zeros part is appended from the old end to the offset, when the gap fits an `int` |
| `PartialFile.SplitInteriorShape` | src/XIVLauncher.PatchInstaller/PartialFile/PartialFilePartList.cs:82-106 | an interior offset replaces the part containing it by its two halves |
| `PartialFile.HalvesShape` | src/XIVLauncher.PatchInstaller/PartialFile/PartialFilePartList.cs:86-105 | the halves keep the start, the second starts at the offset, sizes sum to the old, the second's SplitDecodedSourceFrom advances by the first's size; source fields and the deflated flag are kept |
| `PartialFile.SplitKeepsBytes` | src/XIVLauncher.PatchInstaller/PartialFile/PartialFilePartList.cs:47-107 | a split at a non-negative offset never throws, keeps the list tiled, makes the offset a boundary, keeps every boundary and byte, and fills growth with zeros |
| `PartialFile.SplitFailures` | src/XIVLauncher.PatchInstaller/PartialFile/PartialFilePartList.cs:47-107 | on a tiled list a split at any offset no lower than FileSize - 2^63 throws iff the offset is negative and the list is not empty |
| `PartialFile.SplitBelowWrapSplits` | src/XIVLauncher.PatchInstaller/PartialFile/PartialFilePartList.cs:47-107 | on a one-byte file a split at Int64Min compares above the part, lands past it and cuts the part in two without throwing |
| `PartialFile.PartialFilePartList.SplitAt` | src/XIVLauncher.PatchInstaller/PartialFile/PartialFilePartList.cs:47-107 | the new list and exception are those of SplitSpec on the old list |
| `PartialFile.UpdateEmptyIsNoOp` | src/XIVLauncher.PatchInstaller/PartialFile/PartialFilePartList.cs:111-112 | a part of size 0 changes nothing |
| `PartialFile.UpdateOverwrites` | src/XIVLauncher.PatchInstaller/PartialFile/PartialFilePartList.cs:109-136 | Update of an insertable part never throws; it overwrites exactly [TargetOffset, TargetEnd), keeps all other bytes, fills a gap with zeros and keeps the list tiled |
| `PartialFile.PartialFilePartList.Update` | src/XIVLauncher.PatchInstaller/PartialFile/PartialFilePartList.cs:109-136 | the new list and exception are those of UpdateSpec on the old list |
| `CircularStream.LengthFull` | src/XIVLauncher.Common/Patching/Util/CircularMemoryStream.cs:174 | the length lies in [0, Capacity]; it equals Capacity iff both ends meet in a non-empty ring, and 0 iff the ring is empty |
| `CircularStream.CircularMemoryStream.Length` | src/XIVLauncher.Common/Patching/Util/CircularMemoryStream.cs:174 | the property reads the ring length of the fields |
| `CircularStream.RoundUpBounds` | src/XIVLauncher.Common/Patching/Util/CircularMemoryStream.cs:53 | the grown capacity is a multiple of 16384, at least the request and less than 16384 above it |
| `CircularStream.ReserveSpec` | src/XIVLauncher.Common/Patching/Util/CircularMemoryStream.cs:40-51 | a smaller request throws NotImplemented exactly when truncation is asked for; every result is a valid ring |
| `CircularStream.ReserveKeepsContents` | src/XIVLauncher.Common/Patching/Util/CircularMemoryStream.cs:40-76 | a successful Reserve keeps the contents in order and the position; growing rounds up to the growth unit; any other request changes nothing |
| `CircularStream.CircularMemoryStream.Reserve` | src/XIVLauncher.Common/Patching/Util/CircularMemoryStream.cs:40-76 | the new fields and the exception are those of ReserveSpec on the old fields |
| `CircularStream.CircularMemoryStream.MovedOut` | src/XIVLauncher.Common/Patching/Util/CircularMemoryStream.cs:56-64 | the one or two runs copied into the new array are the contents, in order |
| `CircularStream.CircularMemoryStream.Grow` | src/XIVLauncher.Common/Patching/Util/CircularMemoryStream.cs:53-75 | the new array is fresh, and the fields are ReserveSpec's grown ring |
| `CircularStream.FeedWriteAppends` | src/XIVLauncher.Common/Patching/Util/CircularMemoryStream.cs:108-122 | the copy at the end of Feed appends exactly the bytes to the contents and keeps the position and capacity |
| `CircularStream.FeedExtends` | src/XIVLauncher.Common/Patching/Util/CircularMemoryStream.cs:78-88 | in ExtendCapacity mode Feed appends exactly the bytes, so the length grows by the count; the position is kept and the capacity never shrinks |
| `CircularStream.FeedDiscards` | src/XIVLauncher.Common/Patching/Util/CircularMemoryStream.cs:90-106 | in DiscardOldest mode the capacity is kept and the contents are the last Capacity bytes of the old contents followed by the new ones |
| `CircularStream.KeptIsNewest` | src/XIVLauncher.Common/Patching/Util/CircularMemoryStream.cs:100-104 | moving validFrom to keepCount bytes before validTo keeps the newest keepCount bytes |
| `CircularStream.CircularMemoryStream.Feed` | src/XIVLauncher.Common/Patching/Util/CircularMemoryStream.cs:78-123 | the new fields are FeedSpec on the old fields for the stream's overflow mode |
| `CircularStream.ConsumeTakesFront` | src/XIVLauncher.Common/Patching/Util/CircularMemoryStream.cs:125-151 | Consume's count is min(count, Length); without peek it removes that many bytes from the front and moves the position back by them, not below 0; a peek leaves the ring unchanged; the capacity is kept |
| `CircularStream.AdvanceKeepsRest` | src/XIVLauncher.Common/Patching/Util/CircularMemoryStream.cs:141 | moving validFrom forward by fewer than the length drops exactly that many bytes from the front |
| `CircularStream.CircularMemoryStream.FrontRuns` | src/XIVLauncher.Common/Patching/Util/CircularMemoryStream.cs:130-138 | the one or two runs Consume copies out are the first n bytes of the contents |
| `CircularStream.CircularMemoryStream.CopyFront` | src/XIVLauncher.Common/Patching/Util/CircularMemoryStream.cs:130-138 | the destination receives the first n bytes of the contents at the offset, and nothing else of it changes |
| `CircularStream.CircularMemoryStream.Consume` | src/XIVLauncher.Common/Patching/Util/CircularMemoryStream.cs:125-151 | returns ConsumeCount; the new fields are ConsumeSpec on the old fields; a given destination holds the consumed bytes at the offset |
| `CircularStream.GetIsContents` | src/XIVLauncher.Common/Patching/Util/CircularMemoryStream.cs:155-160 | the getter succeeds iff 0 <= i < Length and then returns byte i of the contents |
| `CircularStream.SetUpdatesContents` | src/XIVLauncher.Common/Patching/Util/CircularMemoryStream.cs:161-166 | the setter succeeds iff 0 <= i < Length and then changes byte i of the contents and nothing else |
| `CircularStream.CircularMemoryStream.Get` | src/XIVLauncher.Common/Patching/Util/CircularMemoryStream.cs:155-160 | returns GetSpec of the fields |
| `CircularStream.CircularMemoryStream.Set` | src/XIVLauncher.Common/Patching/Util/CircularMemoryStream.cs:161-166 | the new fields and the exception are those of SetSpec |
| `CircularStream.SeekLands` | src/XIVLauncher.Common/Patching/Util/CircularMemoryStream.cs:234-255 | Seek throws exactly for a target before 0 or one past the long range; otherwise the position is min(target, Length), so within [0, Length]: the offset from Begin, position plus offset from Current, Length minus offset from End |
| `CircularStream.CircularMemoryStream.Seek` | src/XIVLauncher.Common/Patching/Util/CircularMemoryStream.cs:234-255 | the result is SeekSpec of the fields, and only the position changes, to that result |
| `CircularStream.SetLengthResizes` | src/XIVLauncher.Common/Patching/Util/CircularMemoryStream.cs:183-214 | the corrected SetLength cuts the contents to the new length or pads them with zeros up to it, and keeps the position |
| `CircularStream.CircularMemoryStream.SetLength` | src/XIVLauncher.Common/Patching/Util/CircularMemoryStream.cs:183-214 | the new fields and the exception are those of the corrected SetLengthSpec; a length above int.MaxValue throws |
| `CircularStream.ClearIsFeedWrite` | src/XIVLauncher.Common/Patching/Util/CircularMemoryStream.cs:199-210 | SetLength's Array.Clear calls are Feed's copy of zeros: the same array and validTo |
| `CircularStream.CircularMemoryStream.ZeroExtend` | src/XIVLauncher.Common/Patching/Util/CircularMemoryStream.cs:199-210 | the zero fill appends zeros as FeedWrite of zeros does |
| `CircularStream.SetLengthAsWrittenAgrees` | src/XIVLauncher.Common/Patching/Util/CircularMemoryStream.cs:183-214 | for a non-empty ring and a length within the capacity the code as written does what is intended |
| `CircularStream.SetLengthOnEmptyExposesBuffer` | src/XIVLauncher.Common/Patching/Util/CircularMemoryStream.cs:187-213 | on an empty ring the code as written gives the first bytes of the array as contents, whatever they were |
| `CircularStream.SetLengthBeyondCapacityKeepsLength` | src/XIVLauncher.Common/Patching/Util/CircularMemoryStream.cs:195-196 | as written, a length beyond the capacity only reserves: the length stays what it was |
| `CircularStream.StaleBytesAfterConsume` | src/XIVLauncher.Common/Patching/Util/CircularMemoryStream.cs:183-214 | feed [1, 2, 3], consume 3, SetLength(2): the code as written gives [1, 2], the intended one [0, 0] |
| `Strings.SplitPiecesFree` | src/XIVLauncher.Common/SeVersion.cs:42 | no piece of String.Split holds the separator |
| `Strings.SplitJoin` | src/XIVLauncher.Common/SeVersion.cs:42 | joining the pieces of String.Split with the separator gives the input back |
| `Strings.JoinSplit` | src/XIVLauncher.Common/SeVersion.cs:42 | splitting a join of separator-free pieces gives exactly those pieces back |
| `Strings.ParseUInt32` | src/XIVLauncher.Common/SeVersion.cs:45-49 | uint.Parse fails only with a FormatException or an OverflowException |
| `Strings.ParseDigits` | src/XIVLauncher.Common/SeVersion.cs:45-49 | a string of digits parses to its decimal value when that fits 32 bits, and overflows otherwise |
| `Strings.PaddedRoundTrip` | src/XIVLauncher.Common/SeVersion.cs:54 | a 32-bit number formatted with zero padding to any width parses back to the number |
| `Strings.DecimalValue` | src/XIVLauncher.Common/SeVersion.cs:54 | the decimal text of a number reads back as that number |
| `Strings.LeadingZerosValue` | src/XIVLauncher.Common/SeVersion.cs:54 | leading zeros keep a digit string all digits and do not change its value |
| `Strings.DecimalWidth` | src/XIVLauncher.Common/SeVersion.cs:54 | the decimal text of n has at most k digits iff n < 10^k |
| `Strings.PaddedWidth` | src/XIVLauncher.Common/Encryption/ArgumentBuilder.cs:87 | a number formatted with D`width` (or a `0000` pattern) is exactly `width` digits iff it is below 10^width, and always reads back as the number |
| `SeVersion.PiecesNeedFive` | src/XIVLauncher.Common/SeVersion.cs:42-50 | fewer than five pieces never give a version |
| `SeVersion.PiecesRead` | src/XIVLauncher.Common/SeVersion.cs:42-50 | with five or more pieces, Parse succeeds exactly when the first five are numbers, and the version holds them in order; later pieces are ignored |
| `SeVersion.PiecesTooFew` | src/XIVLauncher.Common/SeVersion.cs:45-49 | too few pieces, all of them numbers, throw IndexOutOfRange |
| `SeVersion.ParseErrors` | src/XIVLauncher.Common/SeVersion.cs:40-51 | Parse fails only with IndexOutOfRange, FormatException or OverflowException |
| `SeVersion.AssembleReads` | src/XIVLauncher.Common/SeVersion.cs:43-50 | the initializer gives a version exactly when all five parses succeed, with their values as fields; otherwise the first failure in field order |
| `SeVersion.ToStringIsJoin` | src/XIVLauncher.Common/SeVersion.cs:54 | the text form is the five zero-padded fields joined by '.' |
| `SeVersion.PaddedHasNoDot` | src/XIVLauncher.Common/SeVersion.cs:54 | a zero-padded field holds no '.', so the text splits into exactly five pieces |
| `SeVersion.ParseToString` | src/XIVLauncher.Common/SeVersion.cs:40-54 | the text form of every version parses back to that version |
| `SeVersion.ToStringLength` | src/XIVLauncher.Common/SeVersion.cs:54 | the text form is at least 20 characters long, and exactly 20 iff year, revision and part are below 10000 and month and day below 100 |
| `SeVersion.CompareTo` | src/XIVLauncher.Common/SeVersion.cs:57-94 | the result is always -1, 0 or 1 |
| `SeVersion.LexZeroIffEqual` | src/XIVLauncher.Common/SeVersion.cs:57-94 | the field-by-field comparison is 0 exactly for equal field lists |
| `SeVersion.LexAntisymmetric` | src/XIVLauncher.Common/SeVersion.cs:57-94 | swapping the arguments negates the field-by-field comparison |
| `SeVersion.LexTransitive` | src/XIVLauncher.Common/SeVersion.cs:57-94 | the field-by-field comparison is transitive |
| `SeVersion.CompareIsLex` | src/XIVLauncher.Common/SeVersion.cs:63-93 | CompareTo against a version is the lexicographic comparison of year, month, day, revision and part |
| `SeVersion.CompareOrder` | src/XIVLauncher.Common/SeVersion.cs:57-94 | null compares below every version; 0 exactly for equal versions; antisymmetric; transitive |
| `SeVersion.OperatorsAgree` | src/XIVLauncher.Common/SeVersion.cs:96-102 | <, >, <= and >= are the strict and reflexive lexicographic orders, < is > swapped, <= is not >, and against null only > and >= hold |
| `Arguments.DeriveChecksum` | src/XIVLauncher.Common/Encryption/ArgumentBuilder.cs:21-33 | the checksum is always an entry of the 16-character table |
| `Arguments.ChecksumIsNibble` | src/XIVLauncher.Common/Encryption/ArgumentBuilder.cs:21-33 | the checksum is the table entry at bits 16 to 19 of the key, so the '!' fallback is never returned |
| `Arguments.ChecksumDeterminesNibble` | src/XIVLauncher.Common/Encryption/ArgumentBuilder.cs:15-33 | two keys get the same checksum exactly when they agree in bits 16 to 19 (the table has no repeated entry) |
| `Arguments.RenderConcat` | src/XIVLauncher.Common/Encryption/ArgumentBuilder.cs:66-78 | the Aggregate over the list renders a concatenation of lists as the concatenation of their renderings |
| `Arguments.BuildAppends` | src/XIVLauncher.Common/Encryption/ArgumentBuilder.cs:66-71 | Build of one argument is " key=value", and appending an argument appends its " key=value" |
| `Arguments.EscapeRoundTrip` | src/XIVLauncher.Common/Encryption/ArgumentBuilder.cs:133-136 | collapsing doubled spaces undoes EscapeValue, so escaping loses nothing |
| `Arguments.EscapeLength` | src/XIVLauncher.Common/Encryption/ArgumentBuilder.cs:133-136 | escaping adds exactly one character per space and leaves a string without spaces unchanged |
| `Arguments.Hex` | src/XIVLauncher.Common/Encryption/ArgumentBuilder.cs:126-131 | the key text has exactly the requested number of digits |
| `Arguments.HexRoundTrip` | src/XIVLauncher.Common/Encryption/ArgumentBuilder.cs:126-131 | the hex text of a value that fits the width reads back as the value |
| `Arguments.HexDigits` | src/XIVLauncher.Common/Encryption/ArgumentBuilder.cs:126-131 | every character of the key text is a lowercase hex digit |
| `Arguments.AsciiBytes` | src/XIVLauncher.Common/Encryption/ArgumentBuilder.cs:130 | the UTF-8 encoding of an ASCII text is one byte per character, its code |
| `Arguments.GetKeyBytes` | src/XIVLauncher.Common/Encryption/ArgumentBuilder.cs:126-131 | the key bytes are 8 bytes long |
| `Arguments.KeyBytesRoundTrip` | src/XIVLauncher.Common/Encryption/ArgumentBuilder.cs:126-131 | the key bytes are the codes of eight lowercase hex digits that read back as the key |
| `Arguments.FrameVersionText` | src/XIVLauncher.Common/Encryption/ArgumentBuilder.cs:87 | example: the version constant 3 formatted with D04 is "0003"; the general fact is `Strings.PaddedWidth` |
| `Arguments.FrameRoundTrip` | src/XIVLauncher.Common/Encryption/ArgumentBuilder.cs:87 | the frame is read back into the same payload and checksum |
| `Arguments.BuildEncryptedFrames` | src/XIVLauncher.Common/Encryption/ArgumentBuilder.cs:73-88 | BuildEncrypted starts with "//**sqex0003", ends with "**//", and holds the sealed escaped arguments followed by the key's checksum |
| `Arguments.WithTicksLeads` | src/XIVLauncher.Common/Encryption/ArgumentBuilder.cs:117-121 | after DeriveKey the list starts with exactly one "T" argument holding the ticks, followed by the old list without its leading "T" argument |
| `Arguments.WithTicksTwice` | src/XIVLauncher.Common/Encryption/ArgumentBuilder.cs:117-121 | deriving twice leaves only the latest ticks argument |
| `Arguments.KeyClearsLowBits` | src/XIVLauncher.Common/Encryption/ArgumentBuilder.cs:112-113 | the key is the tick count with its low 16 bits cleared, and its checksum is picked by bits 16 to 19 of the ticks |
| `Arguments.TicksUnmasked` | src/XIVLauncher.Common/Encryption/ArgumentBuilder.cs:112 | masking a 32-bit tick count with 0xFFFFFFFF changes nothing |
| `Arguments.ArgumentBuilder.constructor` | src/XIVLauncher.Common/Encryption/ArgumentBuilder.cs:37-40 | a new builder has no arguments |
| `Arguments.ArgumentBuilder.FromItems` | src/XIVLauncher.Common/Encryption/ArgumentBuilder.cs:42-45 | a builder made from items holds exactly those items, in order |
| `Arguments.ArgumentBuilder.Append` | src/XIVLauncher.Common/Encryption/ArgumentBuilder.cs:47-57 | appends exactly the one argument, and Build gains its " key=value" |
| `Arguments.ArgumentBuilder.AppendKeyValue` | src/XIVLauncher.Common/Encryption/ArgumentBuilder.cs:47-50 | appends the pair as one argument |
| `Arguments.ArgumentBuilder.AppendAll` | src/XIVLauncher.Common/Encryption/ArgumentBuilder.cs:59-64 | appends all items in order, and Build gains their rendering |
| `Arguments.ArgumentBuilder.DeriveKey` | src/XIVLauncher.Common/Encryption/ArgumentBuilder.cs:97-124 | returns the masked key of the tick count cast to uint, and leaves the list as WithTicks gives it |
| `Arguments.ArgumentBuilder.BuildEncryptedNow` | src/XIVLauncher.Common/Encryption/ArgumentBuilder.cs:90-95 | derives the key first, then builds the encrypted text from the updated list under that key |
| `Ints.BitAndHigh16` | src/XIVLauncher.Common/Encryption/ArgumentBuilder.cs:113 | masking a 32-bit word with 0xFFFF0000 clears its low 16 bits |
| `Ints.BitAndNibble16` | src/XIVLauncher.Common/Encryption/ArgumentBuilder.cs:23 | masking with 0x000F0000 and shifting right by 16 gives bits 16 to 19 |
| `MessageBox.EncodeParameterArgument` | src/XIVLauncher/Windows/CustomMessageBox.xaml.cs:435-470 | the loop over the characters with its backslash counter computes Encode of the argument |
| `MessageBox.EncodeShape` | src/XIVLauncher/Windows/CustomMessageBox.xaml.cs:437-467 | an argument with no space, tab, newline, vertical tab or quote, and no force, is returned unchanged; any other is wrapped in quotes; the empty argument becomes "" |
| `MessageBox.QuotingRules` | src/XIVLauncher/Windows/CustomMessageBox.xaml.cs:449-466 | a quote after n backslashes becomes 2n+1 backslashes and the quote; n backslashes before another character are kept as they are; n trailing backslashes are doubled before the closing quote |
| `MessageBox.QuotedBodyBackslashes` | src/XIVLauncher/Windows/CustomMessageBox.xaml.cs:449-451 | a backslash is only counted when read; it is written when the next character decides how |
| `MessageBox.ReadArgument` | src/XIVLauncher/Windows/CustomMessageBox.xaml.cs:434-470 | the Windows reading of one argument always consumes text, unless it starts at a space outside quotes |
| `MessageBox.ReadBackslashes` | src/XIVLauncher/Windows/CustomMessageBox.xaml.cs:434-470 | backslashes in the text add to the reader's pending count |
| `MessageBox.ReadQuote` | src/XIVLauncher/Windows/CustomMessageBox.xaml.cs:434-470 | the reader turns 2n backslashes and a quote into n backslashes and a quote toggle, and 2n+1 into n backslashes and a literal quote |
| `MessageBox.ReadOrdinary` | src/XIVLauncher/Windows/CustomMessageBox.xaml.cs:434-470 | the reader keeps backslashes before any other character |
| `MessageBox.ReadEnds` | src/XIVLauncher/Windows/CustomMessageBox.xaml.cs:434-470 | outside quotes the reader stops at the end or at a space or tab |
| `MessageBox.ReadQuotedEnd` | src/XIVLauncher/Windows/CustomMessageBox.xaml.cs:466-467 | the doubled trailing backslashes and the closing quote read back as the original backslashes, closing the argument |
| `MessageBox.ReadQuotedQuote` | src/XIVLauncher/Windows/CustomMessageBox.xaml.cs:453-456 | an escaped quote in the body reads back as the quote |
| `MessageBox.ReadQuotedOrdinary` | src/XIVLauncher/Windows/CustomMessageBox.xaml.cs:458-461 | any other character in the body reads back as itself after its backslashes |
| `MessageBox.ReadQuotedBody` | src/XIVLauncher/Windows/CustomMessageBox.xaml.cs:440-467 | the quoted body and its closing quote read back as exactly the quoted text |
| `MessageBox.ReadPlain` | src/XIVLauncher/Windows/CustomMessageBox.xaml.cs:437-438 | an argument returned unquoted reads back as itself, backslashes included |
| `MessageBox.EncodeRoundTrip` | src/XIVLauncher/Windows/CustomMessageBox.xaml.cs:435-470 | every encoded argument reads back, by the Windows rules, as exactly the argument, and the reader stops right after it |
| `MessageBox.EncodeStartsArgument` | src/XIVLauncher/Windows/CustomMessageBox.xaml.cs:435-470 | an encoded argument is never empty and never starts with a space or tab |
| `MessageBox.SkipArgSpace` | src/XIVLauncher/Windows/CustomMessageBox.xaml.cs:390 | skipping separators leaves text that is empty or starts with an argument |
| `MessageBox.CommandLineStarts` | src/XIVLauncher/Windows/CustomMessageBox.xaml.cs:390 | a restart command line of one or more arguments starts with an argument |
| `MessageBox.CommandLineRoundTrip` | src/XIVLauncher/Windows/CustomMessageBox.xaml.cs:390 | the restart command line, the encoded arguments joined by spaces, reads back as exactly the original arguments |
| `MessageBox.DefaultsAreButtons` | src/XIVLauncher/Windows/CustomMessageBox.xaml.cs:344-360 | a defined button set has a default and a cancel result, never None: the click results of its first and last buttons (lines 161-193); an undefined set has neither |
| `MessageBox.ResolveKeepsOrDerives` | src/XIVLauncher/Windows/CustomMessageBox.xaml.cs:344-360 | a default or cancel result that was set is kept, an unset one is derived from the buttons; NotImplemented exactly when a derivation meets an undefined button set; afterwards neither is None |
| `MessageBox.ResolveIdempotent` | src/XIVLauncher/Windows/CustomMessageBox.xaml.cs:344-360 | resolving the results again changes nothing |
| `MessageBox.Builder.constructor` | src/XIVLauncher/Windows/CustomMessageBox.xaml.cs:245-247 | a new builder has OK buttons and no default or cancel result |
| `MessageBox.Builder.WithButtons` | src/XIVLauncher/Windows/CustomMessageBox.xaml.cs:269 | sets the button set and nothing else |
| `MessageBox.Builder.WithDefaultResult` | src/XIVLauncher/Windows/CustomMessageBox.xaml.cs:270 | sets the default result and nothing else |
| `MessageBox.Builder.WithCancelResult` | src/XIVLauncher/Windows/CustomMessageBox.xaml.cs:271 | sets the cancel result and nothing else |
| `MessageBox.Builder.ResolveResults` | src/XIVLauncher/Windows/CustomMessageBox.xaml.cs:344-360 | the two assignments leave the builder and the exception as ResolveSpec gives them |
| `UniqueIdCache.Unexpired` | src/XIVLauncher.Common/CommonUniqueIdCache.cs:57-60 | RemoveAll of the entries older than one day: at most as many entries, and an entry stays exactly when it was there and has not expired |
| `UniqueIdCache.UnexpiredUnchanged` | src/XIVLauncher.Common/CommonUniqueIdCache.cs:57-60 | the removal leaves the list as it is exactly when no entry has expired |
| `UniqueIdCache.UnexpiredIdempotent` | src/XIVLauncher.Common/CommonUniqueIdCache.cs:57-60 | removing the expired entries a second time at the same moment removes nothing more |
| `UniqueIdCache.FirstValid` | src/XIVLauncher.Common/CommonUniqueIdCache.cs:85 | FirstOrDefault of the valid entries: the index of a valid entry with no valid entry before it, or none exactly when no entry is valid |
| `UniqueIdCache.UnexpiredKeepsFirstValid` | src/XIVLauncher.Common/CommonUniqueIdCache.cs:83-85 | deleting the old entries before the lookup changes neither whether an entry is found nor which one |
| `UniqueIdCache.HasValidFirstValid` | src/XIVLauncher.Common/CommonUniqueIdCache.cs:62-65 | HasValidCache holds exactly when TryGet's lookup finds an entry |
| `UniqueIdCache.ExpiredNeverValid` | src/XIVLauncher.Common/CommonUniqueIdCache.cs:102-104 | an expired entry is never valid, and for the entry's own user valid means not expired |
| `UniqueIdCache.AddThenFind` | src/XIVLauncher.Common/CommonUniqueIdCache.cs:67-79 | an entry added now is valid now for its user; with no earlier valid entry the lookup finds the added one |
| `UniqueIdCache.ResetFindsNothing` | src/XIVLauncher.Common/CommonUniqueIdCache.cs:49-53 | after Reset no entry is valid and the lookup finds none |
| `UniqueIdCache.NoSaveFileLeavesNull` | src/XIVLauncher.Common/CommonUniqueIdCache.cs:16-38 | as written, a cache made without a save file keeps a null list; with a file it holds the loaded list |
| `UniqueIdCache.ConstructCorrected` | src/XIVLauncher.Common/CommonUniqueIdCache.cs:16-47 | the corrected constructor starts from an empty list without a file and agrees with the source otherwise |
| `UniqueIdCache.CommonUniqueIdCache.constructor` | src/XIVLauncher.Common/CommonUniqueIdCache.cs:16-21 | the list is the one Load gives, empty when there is no save file |
| `UniqueIdCache.CommonUniqueIdCache.Load` | src/XIVLauncher.Common/CommonUniqueIdCache.cs:35-47 | no save file: the list is unchanged; a missing file: empty; otherwise the stored list, or empty if the file holds null |
| `UniqueIdCache.CommonUniqueIdCache.Reset` | src/XIVLauncher.Common/CommonUniqueIdCache.cs:49-53 | the list is empty |
| `UniqueIdCache.CommonUniqueIdCache.DeleteOldCaches` | src/XIVLauncher.Common/CommonUniqueIdCache.cs:57-60 | the list becomes Unexpired of the old list |
| `UniqueIdCache.CommonUniqueIdCache.Add` | src/XIVLauncher.Common/CommonUniqueIdCache.cs:67-79 | one entry stamped now is appended, and the cache then holds a valid entry for the user |
| `UniqueIdCache.CommonUniqueIdCache.TryGet` | src/XIVLauncher.Common/CommonUniqueIdCache.cs:81-100 | the expired entries are gone; the result is true exactly when the old list held a valid entry, and then the id, region and expansion are the first valid entry's; otherwise the default value |
| `Repository.GetRepoPath` | src/XIVLauncher.Common/Repository.cs:54-73 | a defined repository's folder lies below the game folder; any other enum value is ArgumentOutOfRange |
| `Repository.GetVerFile` | src/XIVLauncher.Common/Repository.cs:82-102 | the file is the repository's folder plus the stem with ".bck" for the backup and ".ver" otherwise; an undefined repository is ArgumentOutOfRange |
| `Repository.RepoOfFileName` | src/XIVLauncher.Common/Repository.cs:85-98 | the version file name tells the repository and the backup choice back |
| `Repository.VerFilesDistinct` | src/XIVLauncher.Common/Repository.cs:82-102 | two version files are the same exactly when the repositories and the backup choices are |
| `Repository.GetVer` | src/XIVLauncher.Common/Repository.cs:111-120 | a defined repository always reads as a version that is not blank, anything else is an error |
| `Repository.IsBaseVerFile` | src/XIVLauncher.Common/Repository.cs:148-151 | a repository is at the base version exactly when its version file is missing, blank or holds the base version |
| `Repository.EmptyIsBase` | src/XIVLauncher.Common/Repository.cs:111-116 | with no version files every repository is at the base version |
| `Repository.AsciiText` | src/XIVLauncher.Common/Repository.cs:137 | the ASCII encoding keeps the length, keeps each character below U+0080 and writes '?' for the others |
| `Repository.AsciiUnchanged` | src/XIVLauncher.Common/Repository.cs:137 | ASCII text is written as it is |
| `Repository.SetVer` | src/XIVLauncher.Common/Repository.cs:129-140 | the version file is replaced by the ASCII text of the version, its folder exists afterwards, no other file changes and no folder goes away |
| `Repository.SetThenGet` | src/XIVLauncher.Common/Repository.cs:111-140 | reading back after SetVer gives the ASCII text written, or the base version when that text is blank |
| `Repository.SetThenGetAscii` | src/XIVLauncher.Common/Repository.cs:111-140 | an ASCII version that is not blank reads back as itself |
| `Repository.SetKeepsOthers` | src/XIVLauncher.Common/Repository.cs:129-140 | SetVer leaves every other version file, the backup or main file included, reading as before |
| `Repository.IsBaseVer` | src/XIVLauncher.Common/Repository.cs:148-151 | defined exactly for the six repositories; the main file, not the backup, is read |
| `Repository.WithDirectory` | src/XIVLauncher.Common/Repository.cs:133-134 | creating a folder makes it and only folders above it exist, and keeps the existing ones |
| `IndexUpdate.Step` | src/XIVLauncher.PatchInstaller/Commands/IndexUpdateCommand.cs:713-729 | one pass removes 1, 2 or 3 characters, and none exactly when the path starts with none of the six prefixes |
| `IndexUpdate.Removed` | src/XIVLauncher.PatchInstaller/Commands/IndexUpdateCommand.cs:709-733 | the loop removes at most the whole path and leaves a rest with none of the six prefixes |
| `IndexUpdate.StripSuffix` | src/XIVLauncher.PatchInstaller/Commands/IndexUpdateCommand.cs:709-733 | EnsureRelativePath returns a suffix of its input that starts neither with a slash or backslash nor with "." or ".." and then one |
| `IndexUpdate.EnsureRelativePath` | src/XIVLauncher.PatchInstaller/Commands/IndexUpdateCommand.cs:709-733 | the loop returns StripLeading of its input |
| `IndexUpdate.StripRelative` | src/XIVLauncher.PatchInstaller/Commands/IndexUpdateCommand.cs:731 | a path is returned unchanged exactly when it starts with none of the six prefixes |
| `IndexUpdate.StripIdempotent` | src/XIVLauncher.PatchInstaller/Commands/IndexUpdateCommand.cs:709-733 | cleaning up a cleaned-up path changes nothing |
| `IndexUpdate.StripRemovesSeparatorsAndDots` | src/XIVLauncher.PatchInstaller/Commands/IndexUpdateCommand.cs:713-729 | every removed character is a slash, a backslash or a dot |
| `IndexUpdate.BlockLength` | src/XIVLauncher.PatchInstaller/Commands/IndexUpdateCommand.cs:659 | a block covers between 0 and one block size of bytes, and a full block size where the file still has that many |
| `IndexUpdate.BlockAdjacent` | src/XIVLauncher.PatchInstaller/Commands/IndexUpdateCommand.cs:656-659 | block j ends where block j + 1 starts |
| `IndexUpdate.BlocksCover` | src/XIVLauncher.PatchInstaller/Commands/IndexUpdateCommand.cs:656-659 | the first k blocks cover the first min(Length, k times the block size) bytes, without gap or overlap |
| `IndexUpdate.ReadSizes` | src/XIVLauncher.PatchInstaller/Commands/IndexUpdateCommand.cs:661-669 | the inner loop reads the block in pieces of at most the buffer size, all full but the last, adding up to the block's length |
| `IndexUpdate.HexOfBytes` | src/XIVLauncher.PatchInstaller/Commands/IndexUpdateCommand.cs:673 | the digest text has two characters per byte |
| `IndexUpdate.CheckFromMatches` | src/XIVLauncher.PatchInstaller/Commands/IndexUpdateCommand.cs:656-679 | from block j on, the check passes exactly when every later block is in the file and has its listed digest |
| `IndexUpdate.CheckMatchesAll` | src/XIVLauncher.PatchInstaller/Commands/IndexUpdateCommand.cs:647-684 | the file passes exactly when every listed block is in the file and has its listed digest |
| `IndexUpdate.CheckPatchHash` | src/XIVLauncher.PatchInstaller/Commands/IndexUpdateCommand.cs:647-684 | the loops give CheckFrom's verdict: an IOException when the file ends inside a block, false at the first digest that differs, true otherwise |
| `PatchIndex.NormalizePath` | src/XIVLauncher.Common/Patching/IndexedZiPatch/IndexedZiPatchIndex.cs:355-364 | the loop returns the corrected normal form: the empty path unchanged, otherwise every backslash turned into a slash and the leading slashes removed |
| `PatchIndex.NormalizedShape` | src/XIVLauncher.Common/Patching/IndexedZiPatch/IndexedZiPatchIndex.cs:355-364 | the normal form has no backslash and does not start with a slash; what was cut off is separators only, and the rest is the input's tail with backslashes turned into slashes |
| `PatchIndex.NormalizedIdempotent` | src/XIVLauncher.Common/Patching/IndexedZiPatch/IndexedZiPatchIndex.cs:355-364 | normalising a normalised path changes nothing, so AllocFile's second normalisation inside IndexOf is harmless |
| `PatchIndex.AsWrittenThrowsOnSeparators` | src/XIVLauncher.Common/Patching/IndexedZiPatch/IndexedZiPatchIndex.cs:360-362 | the loop as written throws IndexOutOfRangeException exactly for a non-empty path of slashes and backslashes only, and otherwise returns the corrected normal form |
| `PatchIndex.SlashThrows` | src/XIVLauncher.Common/Patching/IndexedZiPatch/IndexedZiPatchIndex.cs:361-362 | the path "/" throws as written and normalises to "" when corrected |
| `PatchIndex.FindIndex` | src/XIVLauncher.Common/Patching/IndexedZiPatch/IndexedZiPatchIndex.cs:95 | List.FindIndex: the first position holding the name, with no earlier one; -1 exactly when no position holds it |
| `PatchIndex.FindAppended` | src/XIVLauncher.Common/Patching/IndexedZiPatch/IndexedZiPatchIndex.cs:119-123 | a name the list lacks, appended, is found at the new last position |
| `PatchIndex.IndexedZiPatchIndex.constructor` | src/XIVLauncher.Common/Patching/IndexedZiPatch/IndexedZiPatchIndex.cs:31-34 | a new index keeps the expansion number and starts with no patch files, pointers or target files |
| `PatchIndex.IndexedZiPatchIndex.IndexOf` | src/XIVLauncher.Common/Patching/IndexedZiPatch/IndexedZiPatchIndex.cs:95 | the position of the first target file whose path is the name after the corrected normaliser, or -1 (the as-written throw is under "## Left out") |
| `PatchIndex.IndexedZiPatchIndex.AllocFile` | src/XIVLauncher.Common/Patching/IndexedZiPatch/IndexedZiPatchIndex.cs:115-127 | an existing path gives its position and the lists unchanged; a new one appends one empty target file with the normalised path and gives its position, the old count; either way the file returned is the one listed there, found by IndexOf; the path is normalised by the corrected normaliser |
| `PatchIndex.IndexedZiPatchIndex.AddFile` | src/XIVLauncher.Common/Patching/IndexedZiPatch/IndexedZiPatchIndex.cs:121-122 | List.Add of a new empty target file: the list grows by that file only and stays free of duplicates |
| `PatchIndex.IndexedZiPatchIndex.ReassignTargetIndices` | src/XIVLauncher.Common/Patching/IndexedZiPatch/IndexedZiPatchIndex.cs:102-113 | succeeds exactly when no file beyond position 255 has parts; then every part of the file at position i has target index i and nothing else about it changes; otherwise the TargetIndex setter's exception |
| `PatchIndex.SetTargetIndex` | src/XIVLauncher.Common/Patching/IndexedZiPatch/IndexedZiPatchIndex.cs:106-111 | the inner loop: every part of one file gets the target index, or the setter throws for an index above 255 on a file with parts |
| `PatchIndex.Reindexed` | src/XIVLauncher.Common/Patching/IndexedZiPatch/IndexedZiPatchIndex.cs:106-111 | part by part, the list with the target index replaced |
| `PatchIndex.ReindexedKeepsParts` | src/XIVLauncher.Common/Patching/IndexedZiPatch/IndexedZiPatchIndex.cs:106-111 | renumbering changes only the target index of each part, so a list that tiled its file still tiles it |
| `PatchIndex.VersionName` | src/XIVLauncher.Common/Patching/IndexedZiPatch/IndexedZiPatchIndex.cs:97 | the last patch name without its first character and its last six; Last() of no patches throws InvalidOperationException and a name shorter than seven characters ArgumentOutOfRangeException |
| `PatchIndex.VersionNameOfPatch` | src/XIVLauncher.Common/Patching/IndexedZiPatch/IndexedZiPatchIndex.cs:97 | a patch named with one letter, a version and ".patch" gives back that version |
| `PatchIndex.VersionFilesAgree` | src/XIVLauncher.Common/Patching/IndexedZiPatch/IndexedZiPatchIndex.cs:98-100 | for the boot, base-game and expansion indices, the index's version file and backup are the repository's own version files below its top folder |
| `PatchIndex.ExpacOfVersionFileName` | src/XIVLauncher.Common/Patching/IndexedZiPatch/IndexedZiPatchIndex.cs:98-100 | the version file name tells the expansion number and the choice of backup back |
| `PatchIndex.VersionFilesDistinct` | src/XIVLauncher.Common/Patching/IndexedZiPatch/IndexedZiPatchIndex.cs:98-100 | six indices, twelve different file names: two are equal exactly when the expansion and the choice of backup are |
| `IndexFile.ReadBytes` | src/XIVLauncher.Common/Patching/IndexedZiPatch/IndexedZiPatchIndex.cs:40-50 | a read of n bytes succeeds exactly when n bytes remain, splits the stream there, and is an EndOfStreamException otherwise |
| `IndexFile.ReadUInt32` | src/XIVLauncher.Common/Patching/IndexedZiPatch/IndexedZiPatchIndex.cs:40-42 | ReadUInt32 succeeds exactly on four or more bytes, and the value read is the one whose little-endian bytes those are |
| `IndexFile.ReadInt32` | src/XIVLauncher.Common/Patching/IndexedZiPatch/IndexedZiPatchIndex.cs:45-52 | ReadInt32 succeeds exactly on four or more bytes |
| `IndexFile.ReadInt64` | src/XIVLauncher.Common/Patching/IndexedZiPatch/IndexedZiPatchIndex.cs:50 | ReadInt64 succeeds exactly on eight or more bytes |
| `IndexFile.ReadWriteUInt32` | src/XIVLauncher.Common/Patching/IndexedZiPatch/IndexedZiPatchIndex.cs:340-341 | the signature and the version written as uint read back as themselves, with the rest of the stream after them |
| `IndexFile.ReadWriteInt32` | src/XIVLauncher.Common/Patching/IndexedZiPatch/IndexedZiPatchIndex.cs:342-344 | an int written in two's complement reads back as itself |
| `IndexFile.ReadWriteInt64` | src/XIVLauncher.Common/Patching/IndexedZiPatch/IndexedZiPatchIndex.cs:347-348 | a long written in two's complement reads back as itself |
| `IndexFile.Read7Bit` | src/XIVLauncher.Common/Patching/IndexedZiPatch/IndexedZiPatchIndex.cs:48 | the 7-bit length prefix: a value below 2^32 after at most five bytes, consuming a non-empty prefix; a short stream is an EndOfStreamException and a fifth byte above 15 a FormatException |
| `IndexFile.Read7BitOfWrite` | src/XIVLauncher.Common/Patching/IndexedZiPatch/IndexedZiPatchIndex.cs:346 | a value that fits the bytes still allowed, 7-bit encoded, reads back as itself and consumes exactly its encoding |
| `IndexFile.Read7BitEncodedIntOfWrite` | src/XIVLauncher.Common/Patching/IndexedZiPatch/IndexedZiPatchIndex.cs:346 | every non-negative int written as a length prefix reads back as itself |
| `IndexFile.SixthBitsRejected` | src/XIVLauncher.Common/Patching/IndexedZiPatch/IndexedZiPatchIndex.cs:48 | for every byte stream: the read is a FormatException iff four continuation bytes are followed by a fifth byte above 15 |
| `IndexFile.FormatErrorAt` | src/XIVLauncher.Common/Patching/IndexedZiPatch/IndexedZiPatchIndex.cs:48 | from the k-th byte of the prefix on, the read fails with a FormatException iff the bytes up to the fifth are continuation bytes and the fifth is above 15 |
| `IndexFile.AllBitsReadMinusOne` | src/XIVLauncher.Common/Patching/IndexedZiPatch/IndexedZiPatchIndex.cs:48 | example: four 0xFF bytes and 0x0F, the 32 set bits, read as the `int` -1 |
| `IndexFile.ReadString` | src/XIVLauncher.Common/Patching/IndexedZiPatch/IndexedZiPatchIndex.cs:48 | a string read consumes a non-empty part of the stream; a negative length is an IOException and a short stream an EndOfStreamException |
| `IndexFile.NegativeLengthRejected` | src/XIVLauncher.Common/Patching/IndexedZiPatch/IndexedZiPatchIndex.cs:48 | a length prefix of -1 is refused as an IOException, whatever follows |
| `IndexFile.ReadWriteString` | src/XIVLauncher.Common/Patching/IndexedZiPatch/IndexedZiPatchIndex.cs:345-346 | a string written with its length prefix reads back as itself |
| `IndexFile.ReadStrings` | src/XIVLauncher.Common/Patching/IndexedZiPatch/IndexedZiPatchIndex.cs:47-48 | the name list holds as many names as the count says, none for a count that is not positive |
| `IndexFile.ReadWriteStrings` | src/XIVLauncher.Common/Patching/IndexedZiPatch/IndexedZiPatchIndex.cs:344-346 | the names written one after another read back as the same list |
| `IndexFile.ReadInt64s` | src/XIVLauncher.Common/Patching/IndexedZiPatch/IndexedZiPatchIndex.cs:49-50 | one pointer is read per name |
| `IndexFile.ReadWriteInt64s` | src/XIVLauncher.Common/Patching/IndexedZiPatch/IndexedZiPatchIndex.cs:347-348 | the pointers written one after another read back as the same list |
| `IndexFile.ReadHeader` | src/XIVLauncher.Common/Patching/IndexedZiPatch/IndexedZiPatchIndex.cs:36-53 | a header is read only from a stream that starts with the signature and the format version, and it has one pointer per name |
| `IndexFile.WrongSignatureRejected` | src/XIVLauncher.Common/Patching/IndexedZiPatch/IndexedZiPatchIndex.cs:40-41 | a stream that does not start with the signature is an InvalidDataException |
| `IndexFile.WrongVersionRejected` | src/XIVLauncher.Common/Patching/IndexedZiPatch/IndexedZiPatchIndex.cs:42-43 | a stream with the signature and another version is an InvalidDataException |
| `IndexFile.HeaderRoundTrip` | src/XIVLauncher.Common/Patching/IndexedZiPatch/IndexedZiPatchIndex.cs:338-350 | a header written by WriteTo reads back as the same expansion, names, pointers and target count, with the stream left at the first target file |
| `BufferPool.Allocation.constructor` | src/XIVLauncher.Common/Patching/Util/ReusableByteBufferManager.cs:19-25 | a new zeroed buffer of the size asked for, tied to its manager (or none), with a stream over the whole buffer at position 0 |
| `BufferPool.Allocation.ResetState` | src/XIVLauncher.Common/Patching/Util/ReusableByteBufferManager.cs:27-31 | the stream is emptied and rewound |
| `BufferPool.Allocation.Clear` | src/XIVLauncher.Common/Patching/Util/ReusableByteBufferManager.cs:33 | every byte of the buffer is zero |
| `BufferPool.Allocation.Dispose` | src/XIVLauncher.Common/Patching/Util/ReusableByteBufferManager.cs:35 | a pooled buffer goes back to its manager's slots as Return places it; an unpooled one changes nothing |
| `BufferPool.FirstSlot` | src/XIVLauncher.Common/Patching/Util/ReusableByteBufferManager.cs:51-65 | the first slot that is full (or empty), with none before it; -1 exactly when there is none |
| `BufferPool.TakenCount` | src/XIVLauncher.Common/Patching/Util/ReusableByteBufferManager.cs:61-62 | Allocate takes one buffer out of a pool that holds one, and none out of an empty pool |
| `BufferPool.PutCount` | src/XIVLauncher.Common/Patching/Util/ReusableByteBufferManager.cs:76-89 | Return adds the buffer exactly when a slot is empty, and drops it exactly when every slot is full |
| `BufferPool.TakenNotPooled` | src/XIVLauncher.Common/Patching/Util/ReusableByteBufferManager.cs:61-62 | in a pool without duplicates the buffer handed out is no longer pooled and no duplicate appears |
| `BufferPool.PutDistinct` | src/XIVLauncher.Common/Patching/Util/ReusableByteBufferManager.cs:86 | returning a buffer that is not pooled keeps the slots free of duplicates |
| `BufferPool.PutThenTake` | src/XIVLauncher.Common/Patching/Util/ReusableByteBufferManager.cs:47-90 | a buffer returned to a pool with no buffers in it is the next one handed out, and the slots are back as they were |
| `BufferPool.DoubleReturnSharesBuffer` | src/XIVLauncher.Common/Patching/Util/ReusableByteBufferManager.cs:74-90 | Return does not check whether the buffer is already pooled: in any pool with two empty slots, a buffer disposed of twice fills the first two empty slots, the count grows by two and the slots are no longer distinct |
| `BufferPool.DoubleReturnHandedOutTwice` | src/XIVLauncher.Common/Patching/Util/ReusableByteBufferManager.cs:47-90 | in any pool of two or more slots holding no buffer, a buffer disposed of twice is handed out by the next two allocations |
| `BufferPool.ReusableByteBufferManager.constructor` | src/XIVLauncher.Common/Patching/Util/ReusableByteBufferManager.cs:41-45 | a manager of the given buffer size with the given number of slots, all empty |
| `BufferPool.ReusableByteBufferManager.Allocate` | src/XIVLauncher.Common/Patching/Util/ReusableByteBufferManager.cs:47-72 | the first pooled buffer is taken out of its slot and zeroed on request, otherwise a new zeroed buffer of the manager's size is made; the stream is emptied either way, and a reused buffer not asked to be cleared keeps its bytes |
| `BufferPool.ReusableByteBufferManager.Return` | src/XIVLauncher.Common/Patching/Util/ReusableByteBufferManager.cs:74-90 | the buffer goes into the first empty slot, and is dropped when every slot is full; nothing else changes |
| `BufferPool.SizeClass` | src/XIVLauncher.Common/Patching/Util/ReusableByteBufferManager.cs:99-101 | the first size class of at least the size asked for; -1 exactly when the size is above 4 MiB |
| `BufferPool.SizeClassSmallest` | src/XIVLauncher.Common/Patching/Util/ReusableByteBufferManager.cs:9 | the size classes grow, so the first one that fits is the smallest that fits |
| `BufferPool.GetBuffer` | src/XIVLauncher.Common/Patching/Util/ReusableByteBufferManager.cs:97-104 | an allocation from the smallest size class that holds the size, or for a size above 4 MiB an unpooled zeroed buffer of exactly that size, whose stream keeps the buffer's length |
| `BufferPool.GetSmallBuffer` | src/XIVLauncher.Common/Patching/Util/ReusableByteBufferManager.cs:92-95 | an allocation from the 16 KiB managers |
| `Installer.IndexedZiPatchInstaller.constructor` | src/XIVLauncher.Common/Patching/IndexedZiPatch/IndexedZiPatchInstaller.cs:175-188 | one empty missing-part set per target file and one empty missing-part list per patch file, and no queued task |
| `Installer.IndexedZiPatchInstaller.MarkFileAsMissing` | src/XIVLauncher.Common/Patching/IndexedZiPatch/IndexedZiPatchInstaller.cs:323-328 | with a valid target index, every part index 0 .. count - 1 of that file joins its missing set and nothing else changes; an index outside the index's target files, or outside the missing-set list for a file with parts, throws and leaves the sets as they were |
| `Installer.IndexedZiPatchInstaller.QueueInstallSet` | src/XIVLauncher.Common/Patching/IndexedZiPatch/IndexedZiPatchInstaller.cs:688-692 | an HTTP task for the parts is appended exactly when the set is non-empty, with an empty session id sent as none |
| `Installer.IndexedZiPatchInstaller.QueueInstallStream` | src/XIVLauncher.Common/Patching/IndexedZiPatch/IndexedZiPatchInstaller.cs:716-720 | a stream task for the parts is appended exactly when the set is non-empty |
| `Installer.IndexedZiPatchInstaller.QueueInstall` | src/XIVLauncher.Common/Patching/IndexedZiPatch/IndexedZiPatchInstaller.cs:694-714 | the tasks appended are, in order, one HTTP task per request the patch file's missing parts are cut into, at ceil(count / splitBy) parts per request and closed at 256 MiB; the missing sets are unchanged |
| `Installer.IndexedZiPatchInstaller.QueueRequest` | src/XIVLauncher.Common/Patching/IndexedZiPatch/IndexedZiPatchInstaller.cs:701-713 | one pass of the outer loop appends exactly the next request's task and leaves the rest of the requests to go |
| `Installer.IndexedZiPatchInstaller.TakeChunk` | src/XIVLauncher.Common/Patching/IndexedZiPatch/IndexedZiPatchInstaller.cs:703-710 | the inner loop takes the parts from the j-th on, at least one, as many as the request rule allows |
| `Installer.PerRequest` | src/XIVLauncher.Common/Patching/IndexedZiPatch/IndexedZiPatchInstaller.cs:699 | the count per request is the least one whose splitBy multiples reach the count |
| `Installer.ChunksFlatten` | src/XIVLauncher.Common/Patching/IndexedZiPatch/IndexedZiPatchInstaller.cs:701-713 | the requests, read in order, are exactly the missing parts in order: none lost, none repeated |
| `Installer.ChunksBounded` | src/XIVLauncher.Common/Patching/IndexedZiPatch/IndexedZiPatchInstaller.cs:706 | every request holds at least one part and at most the count per request |
| `Installer.ChunkLengthRule` | src/XIVLauncher.Common/Patching/IndexedZiPatch/IndexedZiPatchInstaller.cs:706-710 | a request stops at the count per request, at the last part, or at the first part that brings it to 256 MiB, and the parts before its last stay under 256 MiB |
| `Installer.SmallChunks` | src/XIVLauncher.Common/Patching/IndexedZiPatch/IndexedZiPatchInstaller.cs:699-713 | when the parts total less than 256 MiB, every request but the last holds the full count per request |
| `Installer.AtMostSplitByRequests` | src/XIVLauncher.Common/Patching/IndexedZiPatch/IndexedZiPatchInstaller.cs:694-714 | when the parts total less than 256 MiB, a patch file's parts go out in at most splitBy requests |
| `Installer.SortRanges` | src/XIVLauncher.Common/Patching/IndexedZiPatch/IndexedZiPatchInstaller.cs:524 | the ranges sorted by begin then end, and a permutation of the input |
| `Installer.MergeRanges` | src/XIVLauncher.Common/Patching/IndexedZiPatch/IndexedZiPatchInstaller.cs:526-534 | the merged ranges are `Merged(sorted)`, the left fold that extends the last range by the next one when the gap is under 512 bytes and keeps it apart otherwise; they are sorted, at least 512 bytes apart, no more than the input, cover every input range, and take every begin and end from an input range |
| `Installer.MergeIntoSeparated` | src/XIVLauncher.Common/Patching/IndexedZiPatch/IndexedZiPatchInstaller.cs:526-534 | the fold adds ranges 512 or more bytes apart unchanged |
| `Installer.MergedKeepsSeparated` | src/XIVLauncher.Common/Patching/IndexedZiPatch/IndexedZiPatchInstaller.cs:526-534 | ranges already 512 bytes apart come out of the merge as they went in: nothing is joined that need not be |
| `Installer.MergeIntoKeepsApart` | src/XIVLauncher.Common/Patching/IndexedZiPatch/IndexedZiPatchInstaller.cs:531-533 | extending the last range keeps its begin, so the merged ranges stay 512 bytes apart |
| `Installer.MergedIdempotent` | src/XIVLauncher.Common/Patching/IndexedZiPatch/IndexedZiPatchInstaller.cs:526-534 | merging the merged ranges again changes nothing |
| `Installer.FoldKeepsWitnesses` | src/XIVLauncher.Common/Patching/IndexedZiPatch/IndexedZiPatchInstaller.cs:531-533 | folding range i into range i - 1 keeps every input range covered and every begin and end taken from an input range |
| `Installer.RequestRanges` | src/XIVLauncher.Common/Patching/IndexedZiPatch/IndexedZiPatchInstaller.cs:520-534 | the ranges a request asks for are the merge of the sorted part ranges; they cover every remaining part's bytes, cut at the patch file's last byte, are at least 512 bytes apart, and each starts where a part starts |
| `Installer.RangesCoverParts` | src/XIVLauncher.Common/Patching/IndexedZiPatch/IndexedZiPatchInstaller.cs:520-524 | what holds of the sorted ranges holds of the parts they were made from |
| `Installer.Repair` | src/XIVLauncher.Common/Patching/IndexedZiPatch/IndexedZiPatchInstaller.cs:565-624 | the run of the retry loop over the given attempts is the one the retry rule defines: waits, parts left, end state and rethrow |
| `Installer.GivesUpAfterThirteen` | src/XIVLauncher.Common/Patching/IndexedZiPatch/IndexedZiPatchInstaller.cs:567-614 | thirteen I/O errors in a row with no part written make the task wait each of the thirteen delays in turn and then fail and rethrow |
| `Installer.GivesUpFrom` | src/XIVLauncher.Common/Patching/IndexedZiPatch/IndexedZiPatchInstaller.cs:601-614 | after f failures in a row, 13 - f more I/O errors without progress give up after the remaining delays |
| `Installer.ProgressNeverGivesUp` | src/XIVLauncher.Common/Patching/IndexedZiPatch/IndexedZiPatchInstaller.cs:594 | a task whose every attempt writes a part, and which sees no other error, never ends in the error state |
| `Installer.ErrorNeedsThirteenFaults` | src/XIVLauncher.Common/Patching/IndexedZiPatch/IndexedZiPatchInstaller.cs:601-614 | without other errors, a task ends in the error state only after thirteen I/O errors at the least |
| `Installer.RepairRunShape` | src/XIVLauncher.Common/Patching/IndexedZiPatch/IndexedZiPatchInstaller.cs:565-624 | a run ends Done exactly when no part is left, rethrows exactly when it ends in error, never gains parts, waits at most once per attempt and only waits delays from the table |
| `DxvkSettings.ReleaseOfNamed` | src/XIVLauncher.Common.Unix/Compatibility/DxvkSettings.cs:44-51 | the four named versions, and only they, have a release (any other value throws ArgumentOutOfRange), and no two of them share a release |
| `DxvkSettings.DownloadNamesFolder` | src/XIVLauncher.Common.Unix/Compatibility/DxvkSettings.cs:52-53 | the download is the archive named after the folder, under the release's directory, and distinct releases never share a folder |
| `DxvkSettings.DigitRun` | src/XIVLauncher.Common.Unix/Compatibility/DxvkSettings.cs:26 | the length of the longest run of ASCII digits the string starts with |
| `DxvkSettings.ScaleValueIsRegex` | src/XIVLauncher.Common.Unix/Compatibility/DxvkSettings.cs:26 | the scale pattern as written holds exactly when the value splits into digits, optionally one character that is not a line feed and at least one more digit |
| `DxvkSettings.ItemChars` | src/XIVLauncher.Common.Unix/Compatibility/DxvkSettings.cs:24-26 | every item the word list accepts is a non-empty run of the allowed characters with no comma and no leading white space |
| `DxvkSettings.ChecksAcceptOne` | src/XIVLauncher.Common.Unix/Compatibility/DxvkSettings.cs:124 | both the written and the corrected check accept "1" |
| `DxvkSettings.IntendedAcceptsJoin` | src/XIVLauncher.Common.Unix/Compatibility/DxvkSettings.cs:125-129 | every comma-joined, non-empty list of HUD words and "scale=" decimals passes the corrected check |
| `DxvkSettings.IntendedAcceptsLists` | src/XIVLauncher.Common.Unix/Compatibility/DxvkSettings.cs:121-130 | the corrected check accepts "1" and exactly the non-empty comma-joined lists of HUD words and "scale=" decimals: null, blank and every other string fail |
| `DxvkSettings.AsWrittenAcceptsIntended` | src/XIVLauncher.Common.Unix/Compatibility/DxvkSettings.cs:121-130 | the check as written accepts every string the corrected check accepts |
| `DxvkSettings.AsWrittenAcceptsAnySeparator` | src/XIVLauncher.Common.Unix/Compatibility/DxvkSettings.cs:26 | "scale=1a2" passes the check as written and fails the corrected check |
| `DxvkSettings.AsWrittenAcceptsFinalNewline` | src/XIVLauncher.Common.Unix/Compatibility/DxvkSettings.cs:24 | "fps" followed by a line feed passes the check as written and fails the corrected check |
| `DxvkSettings.DefaultCustomHudPasses` | src/XIVLauncher.Common.Unix/Compatibility/DxvkSettings.cs:66-67 | the fallback "fps,frametimes,gpuload,version" passes the corrected check |
| `DxvkSettings.FirstExisting` | src/XIVLauncher.Common.Unix/Compatibility/DxvkSettings.cs:87-99 | the configuration found is a candidate that exists; none is found only when no candidate exists |
| `DxvkSettings.FirstExistingIsFirst` | src/XIVLauncher.Common.Unix/Compatibility/DxvkSettings.cs:93-98 | the configuration found is the first candidate that exists: every earlier candidate is missing |
| `DxvkSettings.HudVarsRules` | src/XIVLauncher.Common.Unix/Compatibility/DxvkSettings.cs:58-118 | the HUD variables throw exactly for an unnamed HUD type; every other type but none sets DXVK_HUD and then MANGOHUD, which is "1" exactly for the three MangoHud types; a custom DXVK_HUD value always passes the check; a MangoHud configuration file is only named when it exists |
| `DxvkSettings.NewSettingsRules` | src/XIVLauncher.Common.Unix/Compatibility/DxvkSettings.cs:28-119 | the settings throw exactly for an unnamed version or HUD type, and otherwise name the version's release folder and its download under the release's directory |
| `BinaryReaderHelpers.Reverse` | src/XIVLauncher.Common/Patching/Util/BinaryReaderHelpers.cs:19-23 | the array is reversed in place and the same array is returned |
| `BinaryReaderHelpers.LittleEndianOfReversed` | src/XIVLauncher.Common/Patching/Util/BinaryReaderHelpers.cs:25-53 | decoding the reversed bytes little-endian, as BitConverter does, gives the big-endian value of the bytes read |
| `BinaryReaderHelpers.BigEndianRoundTrip` | src/XIVLauncher.Common/Patching/Util/BinaryReaderHelpers.cs:25-53 | a big-endian read gives back every value that fits, from the bytes a big-endian writer puts down |
| `BinaryReaderHelpers.Int16Bits` | src/XIVLauncher.Common/Patching/Util/BinaryReaderHelpers.cs:30-33 | a short's 16-bit pattern reads back as the short |
| `BinaryReaderHelpers.Required` | src/XIVLauncher.Common/Patching/Util/BinaryReaderHelpers.cs:55-63 | an exact read succeeds exactly when the count is not negative and that many bytes are left, and then gives the next count bytes; a negative count is ArgumentOutOfRange and a short stream EndOfStream |
| `BinaryReaderHelpers.RequiredInSequence` | src/XIVLauncher.Common/Patching/Util/BinaryReaderHelpers.cs:55-63 | two exact reads in a row read the same bytes as one read of both counts, and fail together |
| `BinaryReaderHelpers.PositionAfter` | src/XIVLauncher.Common/Patching/Util/BinaryReaderHelpers.cs:57 | the stream moves on by the count after a read that succeeds, to its end after a short read, and not at all for a negative count |
| `BinaryReaderHelpers.BinaryReader.ReadBytesRequired` | src/XIVLauncher.Common/Patching/Util/BinaryReaderHelpers.cs:55-63 | the result is the exact read from the old position, and the position moves as ReadBytes moves it |
| `BinaryReaderHelpers.BinaryReader.ReadBigEndian` | src/XIVLauncher.Common/Patching/Util/BinaryReaderHelpers.cs:25-53 | reads exactly n bytes and gives their big-endian value, below 2^(8n), or EndOfStream with the stream at its end |
| `BinaryReaderHelpers.BinaryReader.ReadUInt16BE` | src/XIVLauncher.Common/Patching/Util/BinaryReaderHelpers.cs:25-28 | the next two bytes, big-endian; EndOfStream when fewer are left |
| `BinaryReaderHelpers.BinaryReader.ReadInt16BE` | src/XIVLauncher.Common/Patching/Util/BinaryReaderHelpers.cs:30-33 | the next two bytes as a big-endian two's complement short; EndOfStream when fewer are left |
| `BinaryReaderHelpers.BinaryReader.ReadUInt32BE` | src/XIVLauncher.Common/Patching/Util/BinaryReaderHelpers.cs:35-38 | the next four bytes, big-endian; EndOfStream when fewer are left |
| `BinaryReaderHelpers.BinaryReader.ReadInt32BE` | src/XIVLauncher.Common/Patching/Util/BinaryReaderHelpers.cs:40-43 | the next four bytes as a big-endian two's complement int; EndOfStream when fewer are left |
| `BinaryReaderHelpers.BinaryReader.ReadUInt64BE` | src/XIVLauncher.Common/Patching/Util/BinaryReaderHelpers.cs:45-48 | the next eight bytes, big-endian; EndOfStream when fewer are left |
| `BinaryReaderHelpers.BinaryReader.ReadInt64BE` | src/XIVLauncher.Common/Patching/Util/BinaryReaderHelpers.cs:50-53 | the next eight bytes as a big-endian two's complement long; EndOfStream when fewer are left |
| `BinaryReaderHelpers.BinaryReader.ReadFixedLengthString` | src/XIVLauncher.Common/Patching/Util/BinaryReaderHelpers.cs:13-16 | the string is the next length bytes, decoded as ASCII and cut of their trailing NULs, read with the `(int)` cast of the length |
| `BinaryReaderHelpers.Ascii` | src/XIVLauncher.Common/Patching/Util/BinaryReaderHelpers.cs:15 | every byte below 0x80 becomes its own character and every other byte '?' |
| `BinaryReaderHelpers.TrimEndChar` | src/XIVLauncher.Common/Patching/Util/BinaryReaderHelpers.cs:15 | the string without exactly its final run of the character: a prefix, followed only by that character, and not ending in it |
| `BinaryReaderHelpers.HugeLengthRefused` | src/XIVLauncher.Common/Patching/Util/BinaryReaderHelpers.cs:15 | a length of 2^31 or more casts to a negative count and throws ArgumentOutOfRange |
| `BinaryReaderHelpers.PaddedNameRoundTrip` | src/XIVLauncher.Common/Patching/Util/BinaryReaderHelpers.cs:13-16 | an ASCII name without NULs, padded with NUL bytes to the length, reads back as the name |
| `OtpShell.NewReceiver` | src/XIVLauncher.Common/Shell/OtpShellReceiver.cs:23-37 | a command without a space is all file name with empty arguments; otherwise the file name has no space and file name, a space and the arguments give back the command |
| `OtpShell.NewReceiverInverts` | src/XIVLauncher.Common/Shell/OtpShellReceiver.cs:26-35 | a space-free file name and any arguments joined by a space are split back into exactly those two |
| `OtpShell.BlankTrim` | src/XIVLauncher.Common/Shell/OtpShellReceiver.cs:105-106 | the trimmed output is blank exactly when the output was blank |
| `OtpShell.TryGetOneTimePassword` | src/XIVLauncher.Common/Shell/OtpShellReceiver.cs:89-115 | a password is gotten exactly when the process exits with 0 and its captured output (each line followed by the newline) is not blank, and it is then that output trimmed; otherwise there is none |
| `OtpShell.TryGetOneTimePasswordAsync` | src/XIVLauncher.Common/Shell/OtpShellReceiver.cs:39-87 | a password comes with true and its absence with false; a process that cannot be started gives none; otherwise the same password as the synchronous read |
| `OtpShell.PasswordIsTrimmedOutput` | src/XIVLauncher.Common/Shell/OtpShellReceiver.cs:105-112 | a password gotten is not empty, starts and ends with a character that is not white space, and has only white space around it in the output |
| `OtpShell.TrimEndBlankTail` | src/XIVLauncher.Common/Shell/OtpShellReceiver.cs:95-105 | trimming the end of a code followed by a blank line end gives back the code |
| `OtpShell.SingleLineCode` | src/XIVLauncher.Common/Shell/OtpShellReceiver.cs:93-112 | a process that prints one code without white space at its ends gives that code as the password, whatever the newline |
| `SteamTicket.KeyTime` | src/XIVLauncher.Common/Encryption/Ticket.cs:33 | the key time is a multiple of 60 at most 59 below the server time less 5, taken modulo 2^32 as uint arithmetic does, and never above the time less 5 when the time is at least 5 |
| `SteamTicket.TicketStringIsLowerHex` | src/XIVLauncher.Common/Encryption/Ticket.cs:35 | BitConverter's dashed uppercase text, with the dashes removed and lowercased, is each byte as two lowercase hex digits with nothing between |
| `SteamTicket.LowerHexAt` | src/XIVLauncher.Common/Encryption/Ticket.cs:35 | the two characters at twice a byte's index are that byte's two-digit hex text |
| `SteamTicket.LowerHexReadsBack` | src/XIVLauncher.Common/Encryption/Ticket.cs:35 | the two characters at twice a byte's index read back as the byte |
| `SteamTicket.RawTicketIsHexCodes` | src/XIVLauncher.Common/Encryption/Ticket.cs:36-40 | the raw ticket is the ASCII codes of the hex text, none of them zero, followed by one NUL |
| `SteamTicket.TicketSumOf` | src/XIVLauncher.Common/Encryption/Ticket.cs:50-55 | the ushort sum is the sum of the raw ticket's bytes modulo 2^16 |
| `SteamTicket.PaddingLength` | src/XIVLauncher.Common/Encryption/Ticket.cs:66 | the number of garbage bytes is below 8 and makes the 2-byte sum, the raw ticket and the garbage a whole number of 8-byte blocks |
| `SteamTicket.AlphabetAscii` | src/XIVLauncher.Common/Encryption/Ticket.cs:18 | the garbage alphabet has 64 characters: the digits, the uppercase letters, the lowercase letters, '-' and '_', so every character fits the byte it is cast to |
| `SteamTicket.GarbageChar` | src/XIVLauncher.Common/Encryption/Ticket.cs:75 | the character picked from the running sum and a random value is ASCII |
| `SteamTicket.GarbageInAlphabet` | src/XIVLauncher.Common/Encryption/Ticket.cs:73-78 | every garbage byte is the code of an alphabet character |
| `SteamTicket.GarbageSum` | src/XIVLauncher.Common/Encryption/Ticket.cs:71-78 | the final running sum is the first four stream bytes' word plus all garbage bytes, modulo 2^32 |
| `SteamTicket.GarbageStep` | src/XIVLauncher.Common/Encryption/Ticket.cs:73-78 | one step of the loop picks the byte from the current sum and the next random value, then continues from the sum with that byte added |
| `SteamTicket.FillGarbage` | src/XIVLauncher.Common/Encryption/Ticket.cs:67-78 | the loop fills the garbage array and ends with the running sum the garbage definition gives |
| `SteamTicket.SwapFirstTwo` | src/XIVLauncher.Common/Encryption/Ticket.cs:91-93 | the first two bytes are exchanged and every other byte is kept |
| `SteamTicket.SealedArray` | src/XIVLauncher.Common/Encryption/Ticket.cs:82-93 | the bytes sealed are the stream with the final sum written over its first four bytes, then the first two swapped |
| `SteamTicket.SealedLayout` | src/XIVLauncher.Common/Encryption/Ticket.cs:57-104 | for any non-empty ticket the sealed bytes are a whole number of 8-byte blocks, at least one; undoing the swap gives the final sum's four little-endian bytes, the raw ticket from its third byte on, and the garbage |
| `SteamTicket.KeyReadsBack` | src/XIVLauncher.Common/Encryption/Ticket.cs:44 | the key's first eight bytes are hex digits that read back as the key time, and the last eight are "#un@e=x>" |
| `SteamTicket.ChunksUpto` | src/XIVLauncher.Common/Encryption/Ticket.cs:119-123 | every piece is non-empty and at most the chunk size, and there are pieces exactly when the text is non-empty |
| `SteamTicket.ChunksConcat` | src/XIVLauncher.Common/Encryption/Ticket.cs:119-123 | the pieces concatenate back to the text |
| `SteamTicket.ChunksFull` | src/XIVLauncher.Common/Encryption/Ticket.cs:119-123 | every piece but the last has exactly the chunk size |
| `SteamTicket.ChunksCount` | src/XIVLauncher.Common/Encryption/Ticket.cs:119-123 | there are ceil(length / chunk size) pieces |
| `SteamTicket.ChunksWithout` | src/XIVLauncher.Common/Encryption/Ticket.cs:119-123 | no piece holds a character the text does not |
| `SteamTicket.JoinCounts` | src/XIVLauncher.Common/Encryption/Ticket.cs:114 | joining puts one separator between each two pieces, so the joined length is the pieces' length plus one less than their count, and that is its separator count when no piece holds one |
| `SteamTicket.TicketLength` | src/XIVLauncher.Common/Encryption/Ticket.cs:111-116 | for a non-empty sealed text the ticket length is the sealed text's length; with no comma in it, it is the joined text's length less its commas, and splitting at the commas gives back the pieces |
| `SteamTicket.Get` | src/XIVLauncher.Common/Encryption/Ticket.cs:26-117 | the method's loops, overwrite and swap give exactly the ticket the model defines for Steam's answers, the generator and the sealing |
| `SteamTicket.GetFailsOnEmpty` | src/XIVLauncher.Common/Encryption/Ticket.cs:28-69 | no ticket from Steam gives none; an empty ticket throws, as BitConverter.ToUInt32 does on a 3-byte stream; every other ticket gives a ticket |
| `NativeLauncher.Widen` | NativeLauncher/NativeLauncher.cpp:40 | a byte below 0x80 keeps its code, and every widened character truncates back to its byte |
| `NativeLauncher.WideString` | NativeLauncher/NativeLauncher.cpp:38-43 | the wide string has the narrow string's length, and each of its characters truncates back to the byte at that position |
| `NativeLauncher.CommandLineIsWidened` | NativeLauncher/NativeLauncher.cpp:45 | the command line is the narrow "app arg" widened character by character, and equals it on ASCII input |
| `NativeLauncher.EnumWindowsCallback` | NativeLauncher/NativeLauncher.cpp:13-22 | enumeration goes on exactly when the window belongs to another process; a window of the process is recorded and nothing else changes |
| `NativeLauncher.FirstOwnedIsFirst` | NativeLauncher/NativeLauncher.cpp:13-22 | the search finds a window exactly when the process owns one, and then the first window it owns in enumeration order |
| `NativeLauncher.Os.CallEnumWindows` | NativeLauncher/NativeLauncher.cpp:29 | the callback runs over the poll's windows until it stops; the handle recorded is the first window the process owns, or unchanged when it owns none |
| `NativeLauncher.HasWindow` | NativeLauncher/NativeLauncher.cpp:24-31 | one enumeration is made, and the answer is true exactly when some window of that poll belongs to the process |
| `NativeLauncher.WaitSeesSomePoll` | NativeLauncher/NativeLauncher.cpp:93-96 | the wait ends exactly when some poll finds a window of the process |
| `NativeLauncher.WaitStopsAtFirstWindow` | NativeLauncher/NativeLauncher.cpp:93-96 | a wait that ends stops right after the first poll that finds a window, every earlier poll followed by a 10 ms sleep |
| `NativeLauncher.WaitSleepsThroughout` | NativeLauncher/NativeLauncher.cpp:93-96 | a wait that finds no window sleeps 10 ms after every poll |
| `NativeLauncher.WaitCallsKinds` | NativeLauncher/NativeLauncher.cpp:93-96 | the wait makes enumerations and sleeps only |
| `NativeLauncher.PollOnce` | NativeLauncher/NativeLauncher.cpp:93-96 | one turn of the wait uses one poll; it answers whether that poll found a window, and its calls are the wait's own calls for that poll |
| `NativeLauncher.WaitForWindow` | NativeLauncher/NativeLauncher.cpp:93-96 | the loop's calls and outcome are the wait's for the polls the OS has left |
| `NativeLauncher.PrepareSecurity` | NativeLauncher/NativeLauncher.cpp:49-73 | the calls stop at the first of GetUserName, InitializeSecurityDescriptor and SetSecurityDescriptorDacl that fails, whose error is the answer; SetEntriesInAcl's answer is passed on unchecked |
| `NativeLauncher.CheckError` | NativeLauncher/NativeLauncher.cpp:49-73 | there is an error exactly when some check fails |
| `NativeLauncher.AttachToGame` | NativeLauncher/NativeLauncher.cpp:93-102 | the calls and result are the wait, then the ACL read and rebinding with the process id as result once a window is seen |
| `NativeLauncher.LaunchGame` | NativeLauncher/NativeLauncher.cpp:33-103 | the method's calls and result are the launch the model defines for the OS's answers, the application and the argument |
| `NativeLauncher.FailureStopsLaunch` | NativeLauncher/NativeLauncher.cpp:51-91 | a failing check returns its error as an int and is the last call made; no process is created unless all checks pass; a failing CreateProcess returns its error with no call after it |
| `NativeLauncher.CreateProcessGetsCommandLine` | NativeLauncher/NativeLauncher.cpp:88 | every CreateProcess call gets the widened application and the widened "app arg" |
| `NativeLauncher.AclReadOnlyAfterWindow` | NativeLauncher/NativeLauncher.cpp:93-100 | the ACL is read exactly when all checks pass, the process is created and some poll finds one of its windows |
| `NativeLauncher.AclRebindEndsLaunch` | NativeLauncher/NativeLauncher.cpp:93-102 | once read, the ACL is read and rebound on the new process as the last two calls, right after the first poll that found a window, and the result is the process id |
| `NativeLauncher.SuccessReturnsPid` | NativeLauncher/NativeLauncher.cpp:102 | after the process is created the result is absent only while no window has been seen, and is otherwise the process id as an int |
| `NativeLauncher.LauncherMain` | NativeLauncher/NativeLauncher.cpp:105-118 | fewer than two arguments give the usage text and -1 with no OS call; otherwise the launch's result is written out and returned |

## Left out

- `PartLocator.Verify`: the CRC-32 routine is a parameter, because the checksum is a foreign routine; Verify(Stream), Reconstruct and the struct's WriteTo/ReadFrom are not modelled.
- `PartialFile.PartialFilePartList.Update`: the method requires a part that starts within an `int` of the end of the file, has a positive size and does not reach past the `long` range; UpdateSpec models every part, and its lemmas need the same condition. Under it, Update's calls to SplitAt and BinarySearchByTargetOffset only see a tiled list and non-negative offsets, although those two methods take any list and any `long`.
- `PartialFile.SearchFinds`: stated only when every offset lies within a `long` of the probe; otherwise the wrapping CompareTo can reverse the order and a start can be missed (SearchMissesAcrossWrap).
- `PartialFile.SplitAtStartIsNoOp`: stated only when no difference between an offset and the probe wraps; across the wrap a start can be missed and the split throws (SplitAtStartAcrossWrapThrows). Every tiled list meets the condition for a non-negative offset.
- `PartialFile.SplitFailures`: stated only for offsets of at least FileSize - 2^63; below that the difference wraps, a negative offset can land past the end of the list, and the split does not throw (SplitBelowWrapSplits).
- `TargetFile.IndexedZiPatchTargetFile.SplitAt`: the offset is a `nat`, so a negative `long` offset, which the probe's uint cast would wrap, is not modelled; the same holds for `TargetFile.SplitSpec` and the lemmas about it.
- `Installer.IndexedZiPatchInstaller.QueueInstall`: the overload QueueInstall(sourceIndex, FileInfo, splitBy = 8) at IndexedZiPatchInstaller.cs:728-738 is not modelled. It cuts the missing parts into consecutive pieces of ceil(count / splitBy) parts, with no 256 MiB cap, and queues a stream task over the opened file for each piece. The FileInfo overload taking a set (722-726) only opens the file, which is I/O; given the stream, it is QueueInstallStream.
- `PartialFile.SplitGrows`: a gap wider than an `int` is truncated by the `(int)` cast; the model computes that truncated size but the lemma is stated for gaps that fit.
- The partial-file struct's IsEmptyBlock/IsUnavailable/IsFromSourceFile predicates and its verification and reconstruction code are not modelled.
- `CircularStream.CircularMemoryStream.Feed`: takes the caller's bytes as a sequence instead of an array, an offset and a count.
- `CircularStream.CircularMemoryStream.Consume`: requires a non-negative count and, when a destination is given, one that is not the stream's own array and has room for the bytes; the source lets Array.Copy throw there.
- `CircularStream.CircularMemoryStream.SetLength`: requires a non-negative length; the class performs the corrected behaviour (see Findings), and the code as written is `CircularStream.SetLengthAsWritten`.
- `CircularStream.CircularMemoryStream.Seek`: requires a capacity that fits an `int`, as every .NET byte array does.
- The stream's Read, Write, Position setter, Flush and Dispose are not modelled; the buffer pool behind the constructor is replaced by a zeroed array of its smallest size, 16384 bytes.
- `SeVersion.Parse`: a null input throws ArgumentNullException in .NET; the model takes a string. Parsing uses the invariant culture's signs and the digits 0-9 only; the trailing NUL characters .NET also accepts are not modelled.
- `SeVersion.CompareTo`: any object that is not a version is `None`, like null. The operators on a null left operand throw NullReferenceException; the model takes a version there.
- `Arguments.BuildEncrypted`: Blowfish encryption, the UTF-8 encoding of the plaintext and the game's base64 variant are foreign routines, so they are one function parameter `seal`. The model states the frame around its output and what goes into it.
- `Arguments.ArgumentBuilder.DeriveKey`: the tick count is a parameter. It is Environment.TickCount, or the macOS monotonic clock in milliseconds, before the `(uint)` cast. The log calls are not modelled.
- `Arguments.ArgumentBuilder.Append`: the fluent `return this` is not modelled; the methods return nothing.
- `MessageBox.ReadArgument`: the reader follows the classic Windows rules for backslashes and quotes. A doubled quote inside quotes, which newer C runtimes read as a literal quote, is not modelled. The encoder never writes an unescaped quote inside quotes except the closing one, which a space or the end follows.
- The message box window itself is not modelled: text, captions, images, links and the dialog. Of ShowAssumingDispatcherThread only the two result assignments are. The buttons' labels and the constructor's ArgumentOutOfRange for a default result that is not one of the buttons are not modelled either.
- `UniqueIdCache.CommonUniqueIdCache`: Save writes the list as JSON and Load reads it, which is file I/O; Load takes the file's state (`SaveFile`) as a parameter and Save is not modelled.
- `UniqueIdCache.IsValid`: DateTime.Now is a parameter `now` in ticks, read once per call, while the source reads the clock once per entry. TotalDays, a double, is compared with 1 as a whole tick count compared with one day of ticks.
- `Repository.BaseGameVersion`: Constants.cs is not part of this model; the value "2012.01.01.0000.0000" is the one src/XIVLauncher.PatchInstaller/PatcherMain.cs:22 declares for the same constant.
- `Repository.GetRepoPath`: paths are lists of components; Path.Combine's separators, rooted second arguments and DirectoryInfo's normalisation are not modelled.
- `Repository.GetVer`: the file's text is taken as stored; File.ReadAllText's byte-order-mark detection, file locking and I/O errors are not modelled.
- `Repository.SetVer`: a write that fails part way, and the access and sharing modes of the file stream, are not modelled. GetRepoHash returns null for every repository and is not modelled.
- `IndexUpdate.CheckPatchHash`: the file is a byte sequence and SHA-1 a function parameter applied to a whole block; the incremental TransformBlock calls are taken to hash the concatenation of the pieces, and a read is taken to return every byte the file still has. Cancellation and the buffer pool are not modelled; `long` overflow of the block offset is not modelled.
- The rest of the update command (downloading patch lists and files, building and writing the index) is network and file I/O and is not modelled.
- `PatchIndex.IndexedZiPatchIndex.ReassignTargetIndices`: when the setter throws, the files before the failing one are already renumbered; the contract states the exception only, not that partial state.
- PatchIndex.IndexedZiPatchIndex.IndexOf: uses the corrected normaliser (see Findings). As written, for a name of separators only, IndexOf throws IndexOutOfRangeException once the list is non-empty; the model returns -1 or the position of a file with the empty path.
- PatchIndex.IndexedZiPatchIndex.AllocFile: uses the corrected normaliser (see Findings). As written, a target of separators only ("/", "\\") throws IndexOutOfRangeException whatever the list holds; the model finds or appends a file with the empty path.
- ApplyZiPatch, which reads the chunks of a patch file and turns them into AllocFile, Update and RemoveAll calls, is not modelled: the ZiPatch chunk readers are not part of this model. SourceParts, CalculateCrc32 and the read-only accessors are not modelled either.
- `IndexFile.ReadString`: the patch file names are kept as their UTF-8 bytes; the UTF-8 encoding and decoding are not modelled.
- The target file records that follow the header (each target file's path, part count and 24-byte part records) are not modelled; the header ends at the count of target files. Disposing of the reader is not modelled.
- `BufferPool.GetBuffer`: the static managers are a parameter, one per size class; the number of slots they were made with (twice the processor count) is not modelled.
- The double-checked locking in Allocate and Return is concurrency and is not modelled; each method runs alone. The BinaryWriter over the stream is not modelled.
- Installer: the HTTP request, the multipart response, part reconstruction and the writes to the target streams are not modelled; a download attempt is given as the parts it wrote and how it ended.
- Installer: VerifyFiles, RepairNonPatchData, Install, the target streams and their locks, the progress counters and the version-file writes are I/O around the planning logic and are left out.
- Installer: the missing-part sets are sequences in the sets' sorted order; the HTTP task's re-sorting of its parts by source offset is not modelled.
- Installer: StreamInstallTaskConfig.Repair reads one local stream and is left out; only its queueing is modelled.
- Installer: the Range header's inclusive end (rangeToExclusive + 1) is request formatting and is left out.
- Installer: cancellation and the log-level choice at eight failures do not change the retry rule and are left out.
- Installer.IndexedZiPatchInstaller.QueueInstall: requires splitBy >= 1 and valid part references; the source divides by splitBy and indexes the parts without checks.
- Installer.PerRequest: computes the ceiling with integer division; the source's Math.Ceiling over doubles gives the same value for int counts.
- DxvkSettings: DXVK_LOG_PATH, DXVK_CONFIG_FILE, DXVK_ASYNC, DXVK_FRAME_RATE and DXVK_STATE_CACHE_PATH, and the creation of the configuration and cache directories, are path and file-system work and are left out; the settings keep the HUD variables in the order they are added.
- DxvkSettings: Dxvk.cs, which declares the version and HUD enums, is not part of this model; an enum value outside the named ones is `Unnamed` or `UnnamedHud`.
- DxvkSettings.HudVars: the home directory and the three MangoHud configuration paths are given as `candidates`, and File.Exists and FileInfo.Exists as the set `existing`.
- DxvkSettings.HudVars: uses the corrected HUD check (see Findings); the check as written is `DxvkSettings.CheckDxvkHudString`.
- DxvkSettings: .NET regular expressions are modelled only as far as these two patterns need, as predicates on the string.
- BinaryReaderHelpers: the stream is a byte sequence that does not change while it is read, and BinaryReader.ReadBytes is taken to return every byte left up to the count; BitConverter is taken on a little-endian machine.
- BinaryReaderHelpers: Dump writes a hex dump to the debug output and is left out.
- OtpShell: starting the process, reading its standard output and waiting for its exit are I/O; the process is given by the lines ReadLine returns, its exit code, whether it started, and the newline AppendLine adds.
- OtpShell.TryGetOneTimePasswordAsync: the task, the cancellation registration that kills the process, and exceptions other than a failed start are not modelled; a killed process is a process with that output and exit code.
- OtpShell.NewReceiver: String.IndexOf(string) is culture-sensitive; it is modelled as an ordinal search for U+0020.
- SteamTicket: ISteam is given as its two answers, the ticket bytes or none and the server time; the MemoryStream and BinaryWriter are the byte sequence they hold.
- SteamTicket: CrtRand.cs is not part of this model; the generator is the parameter `crtRand`, whose value for a seed and `k` is what the k-th call of Next returns.
- SteamTicket: Blowfish in ECB mode and Util.ToMangledSeBase64 are foreign routines, so they are one parameter `seal` over the key bytes and the bytes sealed.
- SteamTicket: the log lines, and ByteArrayToHex, the hex dump they print, are logging and are left out.
- SteamTicket.ToLower: string.ToLower uses the current culture; the model lowers the ASCII letters, the only letters the hex text holds.
- SteamTicket.ChunksUpto: requires a positive chunk size; the one caller passes 300, and a size of 0 would yield empty pieces without end.
- NativeLauncher: the Win32 calls are the class `Os`, which answers from a fixed record and logs each call; their effects on the system are not modelled. The username, the explicit-access entry and the security structures are left out.
- NativeLauncher: the results of SetEntriesInAcl, GetSecurityInfo and SetSecurityInfo are not checked by the launcher. The model records whether SetEntriesInAcl built the ACL, and what SetSecurityDescriptorDacl then receives.
- NativeLauncher.WaitForWindow: the launcher polls without bound. The model polls only as often as the OS's answers hold windows, and a wait that has not ended by then gives no result.
- NativeLauncher.LaunchGame: the DWORD error codes and the process id are returned as an `int`. This is modelled by the 32-bit wrap of `ToInt32`.
- NativeLauncher.LauncherMain: the message is written to standard output. It is returned as a value.

## Findings

| source | as written | input that shows it | evidently intended | confidence | as-written member | corrected member |
|---|---|---|---|---|---|---|
| src/XIVLauncher.Common/Patching/IndexedZiPatch/IndexedZiPatchPartLocator.cs:47 | the TargetSize setter ORs the flag bits into the value and checks the whole word against the 30-bit size mask | a deflated part (flag bit 31 set) given any size, e.g. 10 | keep both flags and store the size when it fits 30 bits | not executed | `PartLocator.TargetSizeAsWrittenRejectsFlaggedParts` | `PartLocator.WithTargetSize` |
| src/XIVLauncher.Common/Patching/Util/CircularMemoryStream.cs:187 | SetLength sets Empty to false before it compares the value with Length, so an empty ring reads as full | feed [1, 2, 3] to a new stream, consume 3 bytes, then SetLength(2): the contents are the stale [1, 2]; SetLength(20000) on a 16384-byte stream only reserves and leaves the length unchanged | compare with the length of the ring as it was, then zero-fill or cut to the new length | not executed | `CircularStream.StaleBytesAfterConsume` | `CircularStream.SetLengthResizes` |
| src/XIVLauncher.Common/CommonUniqueIdCache.cs:16-21 | the constructor calls Load, which returns at once when no save file is given, so the list stays null and Add, HasValidCache, TryGet and Reset throw NullReferenceException; the patch-index command builds a cache this way | `new CommonUniqueIdCache(null)`, then HasValidCache("a") | a cache without a save file that works in memory from an empty list | not executed | `UniqueIdCache.NoSaveFileLeavesNull` | `UniqueIdCache.ConstructCorrected` |
| src/XIVLauncher.Common/Patching/IndexedZiPatch/IndexedZiPatchIndex.cs:361 | NormalizePath reads path[0] in its loop without checking the length, so a path of separators only runs off the end and throws IndexOutOfRangeException | "/" (or "\\", or "//") | strip the separators and return "" | not executed | `PatchIndex.AsWrittenThrowsOnSeparators` | `PatchIndex.NormalizePath` |
| src/XIVLauncher.Common.Unix/Compatibility/DxvkSettings.cs:26 | the point between the two digit runs of the `scale=` alternative is not escaped, so it matches any character but a line feed | "scale=1a2" passes CheckDxvkHudString | an escaped point, so that a scale is a decimal number such as "scale=1.5" | not executed | `DxvkSettings.AsWrittenAcceptsAnySeparator` | `DxvkSettings.IntendedAcceptsLists` |
| src/XIVLauncher.Common.Unix/Compatibility/DxvkSettings.cs:24 | both patterns end in `$`, which without the multiline option also matches just before a final line feed, so a HUD string may end in one | "fps" followed by a line feed passes CheckDxvkHudString | anchor the patterns at the very end of the string | not executed | `DxvkSettings.AsWrittenAcceptsFinalNewline` | `DxvkSettings.IntendedAcceptsLists` |
