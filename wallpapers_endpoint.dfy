/**
  `GET /api/wallpapers?folder=<name>`: the list of image files of a
  wallpaper folder, served from a module-level cache of recent listings.

  The directory read and the clock are inputs: `listing` is what `readdir`
  produced (`None` when it threw), `now` the clock at the cache lookup and
  `storedAt` the clock when the fresh listing is stored.
*/
module WallpapersEndpoint {
  import opened Js

  const DefaultFolder := "nature"
  const CacheDuration := 60000
  const MaxEntries := 10

  /** `url.searchParams.get('folder') || 'nature'`: a missing or empty
      parameter selects the default folder. */
  function FolderParam(query: Option<string>): (folder: string)
    ensures folder != ""
    ensures query.Some? && query.value != "" ==> folder == query.value
    ensures query.None? || query.value == "" ==> folder == DefaultFolder
  {
    if query.Some? && query.value != "" then query.value else DefaultFolder
  }

  /** `/\.(jpg|jpeg|png|webp|avif)$/i`: the name ends in one of the five
      extensions, ignoring ASCII case; the pattern has no `u` flag, so no
      other character folds onto these letters. */
  predicate IsImageFile(name: string)
  {
    var lower := LowerAscii(name);
    EndsWith(lower, ".jpg") || EndsWith(lower, ".jpeg") || EndsWith(lower, ".png")
      || EndsWith(lower, ".webp") || EndsWith(lower, ".avif")
  }

  /** `files.filter(...)`: the image files, in listing order. */
  function FilterImages(files: seq<string>): (images: seq<string>)
    ensures IsSubsequence(images, files)
    ensures forall x :: multiset(images)[x] == if IsImageFile(x) then multiset(files)[x] else 0
    decreases |files|
  {
    if files == [] then []
    else
      var rest := FilterImages(files[1..]);
      assert files == [files[0]] + files[1..];
      SubsequenceOfCons(rest, files[0], files[1..]);
      if IsImageFile(files[0]) then
        assert ([files[0]] + rest)[1..] == rest;
        [files[0]] + rest
      else rest
  }

  /** Every name in the filtered list is an image file of the listing, and
      every image file of the listing is in it. */
  lemma FilterImagesMembers(files: seq<string>, x: string)
    ensures x in FilterImages(files) <==> x in files && IsImageFile(x)
  {
    assert x in FilterImages(files) <==> multiset(FilterImages(files))[x] > 0;
    assert x in files <==> multiset(files)[x] > 0;
  }

  datatype Entry = Entry(files: seq<string>, timestamp: int)

  /** The cache `Map`: its keys in insertion order and its entries. */
  datatype ListCache = ListCache(keys: seq<string>, entries: map<string, Entry>)

  const EmptyCache := ListCache([], map[])

  /** The key order lists the map's keys once each, within the bound. */
  ghost predicate WellFormed(c: ListCache)
  {
    Distinct(c.keys) && |c.keys| <= MaxEntries && (forall k :: k in c.entries <==> k in c.keys)
  }

  /** `cached && Date.now() - cached.timestamp < CACHE_DURATION`. */
  predicate IsHit(c: ListCache, folder: string, now: int)
  {
    folder in c.entries && now - c.entries[folder].timestamp < CacheDuration
  }

  /** The response and the cache after the request. */
  datatype Served = Served(files: seq<string>, cache: ListCache)

  /** `wallpaperCache.set(folder, entry)` and the eviction of the first key
      when the map has grown past `MaxEntries`. */
  function Insert(c: ListCache, folder: string, e: Entry): ListCache
  {
    var keys := SetThenEvict(c.keys, folder, MaxEntries);
    var grown := c.entries[folder := e];
    ListCache(keys, map k | k in keys && k in grown :: grown[k])
  }

  /** The `GET` handler. */
  function Serve(c: ListCache, query: Option<string>, now: int, listing: Option<seq<string>>, storedAt: int): Served
  {
    var folder := FolderParam(query);
    if IsHit(c, folder, now) then Served(c.entries[folder].files, c)
    else match listing
      case None => Served([], c)
      case Some(files) =>
        var images := FilterImages(files);
        Served(images, Insert(c, folder, Entry(images, storedAt)))
  }

  /** A hit serves the cached list, leaves the cache as it was, and does not
      depend on the directory at all. */
  lemma HitServesCache(c: ListCache, query: Option<string>, now: int, l1: Option<seq<string>>, t1: int, l2: Option<seq<string>>, t2: int)
    requires IsHit(c, FolderParam(query), now)
    ensures Serve(c, query, now, l1, t1) == Serve(c, query, now, l2, t2)
    ensures Serve(c, query, now, l1, t1) == Served(c.entries[FolderParam(query)].files, c)
  {
  }

  /** A miss serves the filtered listing and stores exactly that list with
      the time of storing; a failed directory read serves the empty list
      and leaves the cache as it was. */
  lemma MissReadsDirectory(c: ListCache, query: Option<string>, now: int, listing: Option<seq<string>>, storedAt: int)
    requires WellFormed(c) && !IsHit(c, FolderParam(query), now)
    ensures listing.None? ==> Serve(c, query, now, listing, storedAt) == Served([], c)
    ensures listing.Some? ==>
      var r := Serve(c, query, now, listing, storedAt);
      && r.files == FilterImages(listing.value)
      && FolderParam(query) in r.cache.entries
      && r.cache.entries[FolderParam(query)] == Entry(r.files, storedAt)
  {
    if listing.Some? {
      InsertKeepsBounded(c, FolderParam(query), Entry(FilterImages(listing.value), storedAt));
    }
  }

  /** A stored listing is served again, from the cache, by any request for
      the same folder made within `CacheDuration` of storing it. */
  lemma StoredListingIsServed(c: ListCache, query: Option<string>, now: int, files: seq<string>, storedAt: int,
                              query2: Option<string>, now2: int, listing2: Option<seq<string>>, storedAt2: int)
    requires WellFormed(c) && !IsHit(c, FolderParam(query), now)
    requires FolderParam(query2) == FolderParam(query) && now2 - storedAt < CacheDuration
    ensures var r := Serve(c, query, now, Some(files), storedAt);
      Serve(r.cache, query2, now2, listing2, storedAt2) == Served(FilterImages(files), r.cache)
  {
    MissReadsDirectory(c, query, now, Some(files), storedAt);
  }

  /** Every request keeps the cache well formed, so it never holds more
      than `MaxEntries` folders. A hit or a failed read leaves it as it was.
      A stored listing re-uses the position of a folder already cached; a
      new folder that does not fit evicts exactly the first-inserted one. */
  lemma ServeKeepsCacheBounded(c: ListCache, query: Option<string>, now: int, listing: Option<seq<string>>, storedAt: int)
    requires WellFormed(c)
    ensures var r := Serve(c, query, now, listing, storedAt);
      && WellFormed(r.cache)
      && |r.cache.keys| <= MaxEntries
      && (IsHit(c, FolderParam(query), now) || listing.None? ==> r.cache == c)
      && (!IsHit(c, FolderParam(query), now) && listing.Some? ==>
            var folder := FolderParam(query);
            && (folder in c.keys ==> r.cache.keys == c.keys)
            && (folder !in c.keys && |c.keys| < MaxEntries ==> r.cache.keys == c.keys + [folder])
            && (folder !in c.keys && |c.keys| == MaxEntries ==>
                  r.cache.keys == c.keys[1..] + [folder] && c.keys[0] !in r.cache.entries))
  {
    var folder := FolderParam(query);
    if !IsHit(c, folder, now) && listing.Some? {
      InsertKeepsBounded(c, folder, Entry(FilterImages(listing.value), storedAt));
    }
  }

  /** Storing an entry keeps the cache well formed, holds the new entry,
      keeps every other surviving entry, and orders the keys as a `Map` does. */
  lemma InsertKeepsBounded(c: ListCache, folder: string, e: Entry)
    requires WellFormed(c)
    ensures var r := Insert(c, folder, e);
      && WellFormed(r)
      && folder in r.entries && r.entries[folder] == e
      && (forall k :: k in r.entries && k != folder ==> k in c.entries && r.entries[k] == c.entries[k])
      && (folder in c.keys ==> r.keys == c.keys)
      && (folder !in c.keys && |c.keys| < MaxEntries ==> r.keys == c.keys + [folder])
      && (folder !in c.keys && |c.keys| == MaxEntries ==> r.keys == c.keys[1..] + [folder] && c.keys[0] !in r.entries)
  {
    SetThenEvictBounded(c.keys, folder, MaxEntries);
    var r := Insert(c, folder, e);
    forall k ensures k in r.entries <==> k in r.keys {
      if k in r.keys {
        assert k == folder || k in c.keys;
      }
    }
  }

  /** The in-place update of the handler: set, then delete the first key
      when the map has grown past `MaxEntries`. */
  lemma InsertInPlace(c: ListCache, folder: string, e: Entry, r: ListCache)
    requires WellFormed(c)
    requires var grownKeys := if folder in c.keys then c.keys else c.keys + [folder];
      var grown := c.entries[folder := e];
      if |grownKeys| > MaxEntries then r == ListCache(grownKeys[1..], grown - {grownKeys[0]})
      else r == ListCache(grownKeys, grown)
    ensures r == Insert(c, folder, e)
  {
    var s := Insert(c, folder, e);
    InsertKeepsBounded(c, folder, e);
    if folder !in c.keys && |c.keys| == MaxEntries {
      forall k ensures k in r.entries <==> k in s.entries {
        TailMembers(c.keys, k);
        assert k in s.keys <==> k in c.keys[1..] || k == folder;
      }
    } else {
      forall k ensures k in r.entries <==> k in s.entries {
      }
    }
    assert r.entries == s.entries;
  }

  lemma TailMembers(keys: seq<string>, k: string)
    requires Distinct(keys) && |keys| > 0
    ensures k in keys[1..] <==> k in keys && k != keys[0]
  {
    if k in keys && k != keys[0] {
      var i :| 0 <= i < |keys| && keys[i] == k;
      assert keys[1..][i - 1] == k;
    }
  }

  /** A folder's first request on an empty cache reads the directory. */
  lemma EmptyCacheMisses(query: Option<string>, now: int)
    ensures !IsHit(EmptyCache, FolderParam(query), now)
  {
  }

  /** The handler with its module-level cache. */
  class ListingCache {
    var keys: seq<string>
    var entries: map<string, Entry>

    function Contents(): ListCache
      reads this
    {
      ListCache(keys, entries)
    }

    constructor ()
      ensures Contents() == EmptyCache && WellFormed(Contents())
    {
      keys := [];
      entries := map[];
    }

    /** One request. */
    method Get(query: Option<string>, now: int, listing: Option<seq<string>>, storedAt: int) returns (files: seq<string>)
      requires WellFormed(Contents())
      modifies this
      ensures Served(files, Contents()) == Serve(old(Contents()), query, now, listing, storedAt)
      ensures WellFormed(Contents())
    {
      ServeKeepsCacheBounded(Contents(), query, now, listing, storedAt);
      var folder := FolderParam(query);
      if folder in entries && now - entries[folder].timestamp < CacheDuration {
        return entries[folder].files;
      }
      if listing.None? {
        return [];
      }
      files := FilterImages(listing.value);
      ghost var c0 := Contents();
      var grownKeys := if folder in keys then keys else keys + [folder];
      entries := entries[folder := Entry(files, storedAt)];
      keys := grownKeys;
      if |keys| > MaxEntries {
        var oldest := keys[0];
        entries := entries - {oldest};
        keys := keys[1..];
      }
      InsertInPlace(c0, folder, Entry(files, storedAt), Contents());
    }
  }
}
