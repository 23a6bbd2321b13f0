/**
 * The cache of game unique ids per user name, with entries that expire one day after they
 * were added. Time is a tick count (units of 100 ns) passed in by the caller.
 */
module UniqueIdCache {
  import opened Wrappers
  import opened Ints

  /** DAYS_TO_TIMEOUT, in ticks: one day of 100-nanosecond ticks. */
  const TicksPerDay: int := 864_000_000_000

  datatype Entry = Entry(userName: string, uniqueId: string, region: int32, expansionLevel: int32, creationDate: int)

  /** What TryGet hands back. */
  datatype CachedUid = CachedUid(uniqueId: string, region: int32, maxExpansion: int32)

  /** The save file as Load finds it: none configured, configured but missing, or holding a JSON list (or `null`). */
  datatype SaveFile = NoSaveFile | Missing | Stored(contents: Option<seq<Entry>>)

  /** Older than one day. */
  predicate Expired(e: Entry, now: int)
  {
    now - e.creationDate > TicksPerDay
  }

  /** IsValidCache: the user's entry, at most one day old. */
  predicate IsValid(e: Entry, name: string, now: int)
  {
    e.userName == name && now - e.creationDate <= TicksPerDay
  }

  /** RemoveAll of the expired entries: the others, in their order. */
  function Unexpired(entries: seq<Entry>, now: int): (r: seq<Entry>)
    ensures |r| <= |entries|
    ensures forall e :: e in r <==> e in entries && !Expired(e, now)
  {
    if entries == [] then []
    else
      var rest := Unexpired(entries[1..], now);
      assert forall e :: e in entries <==> e == entries[0] || e in entries[1..];
      if Expired(entries[0], now) then rest else [entries[0]] + rest
  }

  /** Removing the expired entries leaves the list as it is exactly when none has expired. */
  lemma {:induction false} UnexpiredUnchanged(entries: seq<Entry>, now: int)
    ensures Unexpired(entries, now) == entries <==> forall i :: 0 <= i < |entries| ==> !Expired(entries[i], now)
    decreases |entries|
  {
    if entries != [] {
      var e0, tail := entries[0], entries[1..];
      UnexpiredUnchanged(tail, now);
      var u, ut := Unexpired(entries, now), Unexpired(tail, now);
      assert forall i :: 1 <= i < |entries| ==> entries[i] == tail[i - 1];
      if Expired(e0, now) {
        assert u == ut && |ut| <= |tail| < |entries|;
      } else {
        assert u == [e0] + ut;
        assert entries == [e0] + tail;
        assert u == entries <==> ut == tail;
      }
    }
  }

  /** Removing the expired entries twice is removing them once. */
  lemma {:induction false} UnexpiredIdempotent(entries: seq<Entry>, now: int)
    ensures Unexpired(Unexpired(entries, now), now) == Unexpired(entries, now)
  {
    var r := Unexpired(entries, now);
    UnexpiredUnchanged(r, now);
    assert forall i :: 0 <= i < |r| ==> !Expired(r[i], now) by {
      assert forall i :: 0 <= i < |r| ==> r[i] in r;
    }
  }

  /** FirstOrDefault of the valid entries: the index of the first one. */
  function FirstValid(entries: seq<Entry>, name: string, now: int): (r: Option<nat>)
    ensures r.Some? ==> r.value < |entries| && IsValid(entries[r.value], name, now)
    ensures r.Some? ==> forall j :: 0 <= j < r.value ==> !IsValid(entries[j], name, now)
    ensures r.None? <==> forall j :: 0 <= j < |entries| ==> !IsValid(entries[j], name, now)
  {
    if entries == [] then None
    else if IsValid(entries[0], name, now) then Some(0)
    else
      var r := FirstValid(entries[1..], name, now);
      assert forall j :: 1 <= j < |entries| ==> entries[j] == entries[1..][j - 1];
      if r.None? then None else Some(r.value + 1)
  }

  /** FirstValid past an entry that is not valid: the first valid index of the rest, one further on. */
  lemma FirstValidSkips(entries: seq<Entry>, name: string, now: int)
    requires |entries| > 0 && !IsValid(entries[0], name, now)
    ensures var f, ft := FirstValid(entries, name, now), FirstValid(entries[1..], name, now);
      && f.None? == ft.None?
      && (f.Some? ==> f.value == ft.value + 1 && entries[f.value] == entries[1..][ft.value])
  {
  }

  /** A valid entry is never expired, so removing the expired ones keeps every valid entry, first one first. */
  lemma {:induction false} UnexpiredKeepsFirstValid(entries: seq<Entry>, name: string, now: int)
    ensures var r, f := FirstValid(Unexpired(entries, now), name, now), FirstValid(entries, name, now);
      && r.None? == f.None?
      && (r.Some? ==> Unexpired(entries, now)[r.value] == entries[f.value])
    decreases |entries|
  {
    if entries != [] {
      var e0, tail := entries[0], entries[1..];
      UnexpiredKeepsFirstValid(tail, name, now);
      var u, ut := Unexpired(entries, now), Unexpired(tail, now);
      if IsValid(e0, name, now) {
        assert !Expired(e0, now);
        assert u == [e0] + ut;
        assert FirstValid(u, name, now) == Some(0);
      } else {
        FirstValidSkips(entries, name, now);
        if Expired(e0, now) {
          assert u == ut;
        } else {
          assert u == [e0] + ut;
          assert u[1..] == ut;
          FirstValidSkips(u, name, now);
        }
      }
    }
  }

  /** Any: some valid entry for the user. */
  predicate HasValid(entries: seq<Entry>, name: string, now: int)
  {
    exists i :: 0 <= i < |entries| && IsValid(entries[i], name, now)
  }

  /** Any and FirstOrDefault agree: some valid entry exists exactly when there is a first one. */
  lemma HasValidFirstValid(entries: seq<Entry>, name: string, now: int)
    ensures HasValid(entries, name, now) <==> FirstValid(entries, name, now).Some?
  {
    var f := FirstValid(entries, name, now);
    if f.Some? {
      assert IsValid(entries[f.value], name, now);
    }
  }

  /** An expired entry is never valid, for any user. */
  lemma ExpiredNeverValid(e: Entry, name: string, now: int)
    ensures Expired(e, now) ==> !IsValid(e, name, now)
    ensures e.userName == name ==> (IsValid(e, name, now) <==> !Expired(e, now))
  {
  }

  /** LoadSpec: the list after Load, or the list left as it was when no save file is configured. */
  function LoadSpec(old_cache: seq<Entry>, file: SaveFile): seq<Entry>
  {
    match file
    case NoSaveFile => old_cache
    case Missing => []
    case Stored(contents) => if contents.Some? then contents.value else []
  }

  /**
   * The constructor as written: Load returns at once with no save file, so the list stays
   * null (None), and every later call throws NullReferenceException.
   */
  function ConstructAsWritten(file: SaveFile): (r: Option<seq<Entry>>)
  {
    match file
    case NoSaveFile => None
    case Missing => Some([])
    case Stored(contents) => Some(if contents.Some? then contents.value else [])
  }

  /** With no save file the list as written is left null. */
  lemma NoSaveFileLeavesNull()
    ensures ConstructAsWritten(NoSaveFile) == None
    ensures forall f :: f != NoSaveFile ==> ConstructAsWritten(f) == Some(LoadSpec([], f))
  {
  }

  /** The corrected constructor starts from an empty list, so a cache without a file works in memory. */
  lemma ConstructCorrected(file: SaveFile)
    ensures LoadSpec([], file) == (if file.NoSaveFile? then [] else ConstructAsWritten(file).value)
  {
  }

  class CommonUniqueIdCache {
    var cache: seq<Entry>

    /** Loads the save file; with none the cache starts empty (see the Findings). */
    constructor (file: SaveFile)
      ensures cache == LoadSpec([], file)
    {
      cache := LoadSpec([], file);
    }

    method Load(file: SaveFile)
      modifies this
      ensures cache == LoadSpec(old(cache), file)
    {
      match file {
        case NoSaveFile =>
        case Missing =>
          cache := [];
        case Stored(contents) =>
          cache := if contents.Some? then contents.value else [];
      }
    }

    /** Clear (the Save that follows writes the file and is not modelled). */
    method Reset()
      modifies this
      ensures cache == []
    {
      cache := [];
    }

    method DeleteOldCaches(now: int)
      modifies this
      ensures cache == Unexpired(old(cache), now)
    {
      cache := Unexpired(cache, now);
    }

    predicate HasValidCache(userName: string, now: int)
      reads this
    {
      HasValid(cache, userName, now)
    }

    /** Appends one entry stamped with the current time. */
    method Add(userName: string, uid: string, region: int32, expansionLevel: int32, now: int)
      modifies this
      ensures cache == old(cache) + [Entry(userName, uid, region, expansionLevel, now)]
      ensures HasValidCache(userName, now)
    {
      cache := cache + [Entry(userName, uid, region, expansionLevel, now)];
      assert IsValid(cache[|cache| - 1], userName, now);
    }

    /** Drops the expired entries, then returns the first valid entry for the user, if any. */
    method TryGet(userName: string, now: int) returns (found: bool, cached: CachedUid)
      modifies this
      ensures cache == Unexpired(old(cache), now)
      ensures found <==> HasValid(old(cache), userName, now)
      ensures found ==> exists i :: 0 <= i < |old(cache)| && IsValid(old(cache)[i], userName, now)
                                    && (forall j :: 0 <= j < i ==> !IsValid(old(cache)[j], userName, now))
                                    && cached == CachedUid(old(cache)[i].uniqueId, old(cache)[i].region, old(cache)[i].expansionLevel)
      ensures !found ==> cached == CachedUid("", 0, 0)
    {
      ghost var before := cache;
      DeleteOldCaches(now);
      var first := FirstValid(cache, userName, now);
      UnexpiredKeepsFirstValid(before, userName, now);
      ghost var f := FirstValid(before, userName, now);
      if first.None? {
        found, cached := false, CachedUid("", 0, 0);
        return;
      }
      var entry := cache[first.value];
      found, cached := true, CachedUid(entry.uniqueId, entry.region, entry.expansionLevel);
      assert entry == before[f.value];
    }
  }

  /** An entry added now is found by the next lookup for that user at the same time. */
  lemma AddThenFind(entries: seq<Entry>, e: Entry, now: int)
    requires e.creationDate == now
    ensures HasValid(entries + [e], e.userName, now)
    ensures !HasValid(entries, e.userName, now) ==> FirstValid(entries + [e], e.userName, now) == Some(|entries|)
  {
    var s := entries + [e];
    assert IsValid(s[|entries|], e.userName, now);
    if !HasValid(entries, e.userName, now) {
      assert forall j :: 0 <= j < |entries| ==> s[j] == entries[j];
    }
  }

  /** A lookup after Reset finds nothing. */
  lemma ResetFindsNothing(name: string, now: int)
    ensures !HasValid([], name, now) && FirstValid([], name, now) == None
  {
  }
}
