/**
  The wallpaper store: the decoded-image cache with its table of in-flight
  loads, the look-ahead preloading, the folder load, and the rotation timer
  with its pending 400 ms commits.

  A browser image load is split into the call that starts it and the event
  that ends it (`onload` or `onerror`); between the two the load is
  outstanding. Timers are events too: the interval fires `TimerTick`, each
  scheduled commit fires `CommitFires`.
*/
module WallpaperStore {
  import opened Js
  import opened Rotation

  const PreloadCount := 3
  const CacheSize := 6

  /** What `preloadImage` does with a url before its first `await`. */
  datatype Outcome = Resident | Joined | Started

  /** The three tables behind the cache:
      `cache` is the key order of `imageCache` (oldest first),
      `loading` the key set of `loadingPromises`, and
      `pending` the image loads the browser has not yet answered, one per
      started load. */
  datatype Tables = Tables(cache: seq<string>, loading: set<string>, pending: multiset<string>)

  const NoImages := Tables([], {}, multiset{})

  /** The cache respects its capacity and has distinct keys. */
  predicate Bounded(t: Tables)
  {
    Distinct(t.cache) && |t.cache| <= CacheSize
  }

  /** Every registered load is still outstanding. */
  predicate Tracked(t: Tables)
  {
    multiset(t.loading) <= t.pending
  }

  /** Every outstanding load is registered, and there is exactly one per
      registered url: at most one in-flight load exists per url. */
  predicate SingleFlight(t: Tables)
  {
    t.pending == multiset(t.loading)
  }

  function PreloadOutcome(t: Tables, url: string): (how: Outcome)
  {
    if url in t.cache then Resident
    else if url in t.loading then Joined
    else Started
  }

  /** `preloadImage(url)` up to its first `await`. */
  function Preload(t: Tables, url: string): Tables
  {
    if PreloadOutcome(t, url) == Started
    then t.(loading := t.loading + {url}, pending := t.pending + multiset{url})
    else t
  }

  /** `img.onload`: insert, evict the oldest key on overflow, unregister. */
  function LoadSucceeded(t: Tables, url: string): Tables
  {
    Tables(SetThenEvict(t.cache, url, CacheSize), t.loading - {url}, t.pending - multiset{url})
  }

  /** `img.onerror`: unregister only. */
  function LoadFailed(t: Tables, url: string): Tables
  {
    t.(loading := t.loading - {url}, pending := t.pending - multiset{url})
  }

  /** `preloadImage` called on each url in turn, without waiting. */
  function PreloadAll(t: Tables, urls: seq<string>): Tables
    decreases |urls|
  {
    if urls == [] then t else Preload(PreloadAll(t, urls[..|urls| - 1]), urls[|urls| - 1])
  }

  /** `imageCache.clear()` and `loadingPromises.clear()`; loads the browser
      already has in hand stay outstanding. */
  function Cleared(t: Tables): Tables
  {
    t.(cache := [], loading := {})
  }

  lemma MultisetOfAdded(s: set<string>, x: string)
    requires x !in s
    ensures multiset(s + {x}) == multiset(s) + multiset{x}
  {
    assert s + {x} - {x} == s;
  }

  lemma MultisetOfRemoved(s: set<string>, x: string)
    requires x in s
    ensures multiset(s - {x}) == multiset(s) - multiset{x}
  {
    assert s == (s - {x}) + {x};
    MultisetOfAdded(s - {x}, x);
  }

  /** A resident url is served from the cache and a url in flight joins the
      existing load: in both cases no table changes. A new load is
      registered exactly when the url is neither resident nor in flight, and
      it is registered once. */
  lemma PreloadSpec(t: Tables, url: string)
    ensures PreloadOutcome(t, url) == Resident <==> url in t.cache
    ensures PreloadOutcome(t, url) == Joined <==> url !in t.cache && url in t.loading
    ensures PreloadOutcome(t, url) != Started ==> Preload(t, url) == t
    ensures PreloadOutcome(t, url) == Started ==>
      Preload(t, url).loading == t.loading + {url} && Preload(t, url).pending[url] == t.pending[url] + 1
    ensures Preload(t, url).cache == t.cache
    ensures url in Preload(t, url).cache || url in Preload(t, url).loading
  {
  }

  /** Starting, joining or reusing loads keeps every table invariant. */
  lemma PreloadKeepsInvariants(t: Tables, url: string)
    ensures Bounded(t) ==> Bounded(Preload(t, url))
    ensures Tracked(t) ==> Tracked(Preload(t, url))
    ensures SingleFlight(t) ==> SingleFlight(Preload(t, url))
  {
    if PreloadOutcome(t, url) == Started {
      MultisetOfAdded(t.loading, url);
    }
  }

  /** A completed load leaves the in-flight table whether it succeeded or
      failed. On success the url becomes resident, the capacity still holds,
      a url already resident keeps its place, and a new url that does not
      fit evicts exactly the oldest key. On failure the cache is untouched. */
  lemma LoadCompletionSpec(t: Tables, url: string)
    requires Bounded(t)
    ensures var s := LoadSucceeded(t, url);
      && Bounded(s) && url in s.cache && url !in s.loading
      && (url in t.cache ==> s.cache == t.cache)
      && (url !in t.cache && |t.cache| < CacheSize ==> s.cache == t.cache + [url])
      && (url !in t.cache && |t.cache| == CacheSize ==> s.cache == t.cache[1..] + [url] && t.cache[0] !in s.cache)
    ensures var f := LoadFailed(t, url);
      f.cache == t.cache && url !in f.loading
  {
    SetThenEvictBounded(t.cache, url, CacheSize);
  }

  /** A completed outstanding load keeps the load-tracking invariants. */
  lemma LoadCompletionKeepsInvariants(t: Tables, url: string)
    requires url in t.pending
    ensures Tracked(t) ==> Tracked(LoadSucceeded(t, url)) && Tracked(LoadFailed(t, url))
    ensures SingleFlight(t) ==> SingleFlight(LoadSucceeded(t, url)) && SingleFlight(LoadFailed(t, url))
  {
    if SingleFlight(t) {
      MultisetOfRemoved(t.loading, url);
    }
    if Tracked(t) && url in t.loading {
      MultisetOfRemoved(t.loading, url);
    }
  }

  /** Preloading a list of urls leaves the cache alone, registers exactly
      the listed urls that are not resident, and keeps one load per url. */
  lemma {:induction false} PreloadAllSpec(t: Tables, urls: seq<string>)
    requires SingleFlight(t)
    ensures var r := PreloadAll(t, urls);
      && r.cache == t.cache
      && SingleFlight(r)
      && (forall u :: u in r.loading <==> u in t.loading || (u in urls && u !in t.cache))
    decreases |urls|
  {
    if urls != [] {
      var init, u := urls[..|urls| - 1], urls[|urls| - 1];
      PreloadAllSpec(t, init);
      var p := PreloadAll(t, init);
      PreloadKeepsInvariants(p, u);
      assert urls == init + [u];
      forall v ensures v in urls <==> v in init || v == u {
        assert v in urls <==> v in init + [u];
      }
    }
  }

  /** Preloading a list keeps the capacity bound and load tracking. */
  lemma {:induction false} PreloadAllKeepsInvariants(t: Tables, urls: seq<string>)
    ensures Bounded(t) ==> Bounded(PreloadAll(t, urls))
    ensures Tracked(t) ==> Tracked(PreloadAll(t, urls))
    decreases |urls|
  {
    if urls != [] {
      PreloadAllKeepsInvariants(t, urls[..|urls| - 1]);
      PreloadKeepsInvariants(PreloadAll(t, urls[..|urls| - 1]), urls[|urls| - 1]);
    }
  }

  lemma PreloadAllSnoc(t: Tables, urls: seq<string>, u: string)
    ensures PreloadAll(t, urls + [u]) == Preload(PreloadAll(t, urls), u)
  {
    assert (urls + [u])[..|urls|] == urls;
  }

  /** Cleanup empties the cache and the in-flight table, but the loads the
      browser still has outstanding are then no longer registered: a new
      request for such a url starts a second load of it. */
  lemma CleanupOrphansLoads(t: Tables, url: string)
    requires SingleFlight(t) && url in t.loading
    ensures Cleared(t).cache == [] && Cleared(t).loading == {}
    ensures Tracked(Cleared(t)) && !SingleFlight(Cleared(t))
    ensures Preload(Cleared(t), url).pending[url] == 2
  {
    var c := Cleared(t);
    assert c.pending[url] == 1;
    assert multiset(c.loading)[url] == 0;
  }

  /** The index `preloadNextImages` reads for its `i`-th request:
      `(startIndex + i) % wallpapers.length`, where a length of zero gives
      `NaN`, written here as -1 since both read `undefined`. */
  function PreloadIndex(start: int, i: int, len: nat): int
  {
    if len == 0 then -1 else Rem(start + i, len)
  }

  function RequestedUrl(folder: string, wallpapers: seq<string>, start: int, i: int): string
  {
    WallpaperUrl(folder, At(wallpapers, PreloadIndex(start, i, |wallpapers|)))
  }

  /** The urls `preloadNextImages(folder, wallpapers, start)` requests. */
  function Requested(folder: string, wallpapers: seq<string>, start: int): seq<string>
  {
    [RequestedUrl(folder, wallpapers, start, 0), RequestedUrl(folder, wallpapers, start, 1), RequestedUrl(folder, wallpapers, start, 2)]
  }

  lemma RequestedByIndex(folder: string, wallpapers: seq<string>, start: int, r: seq<string>)
    requires |r| == PreloadCount
    requires forall k :: 0 <= k < PreloadCount ==> r[k] == RequestedUrl(folder, wallpapers, start, k)
    ensures r == Requested(folder, wallpapers, start)
  {
  }

  /** On a non-empty list and a non-negative start, the look-ahead requests
      are the wallpapers at the next `PreloadCount` positions, cyclically. */
  lemma RequestedSpec(folder: string, wallpapers: seq<string>, start: int)
    requires |wallpapers| > 0 && start >= 0
    ensures |Requested(folder, wallpapers, start)| == PreloadCount
    ensures forall i :: 0 <= i < PreloadCount ==>
      Requested(folder, wallpapers, start)[i] == WallpaperUrl(folder, wallpapers[(start + i) % |wallpapers|])
  {
  }

  /** `await preloadImage(url)`, where the browser answers the load with
      `ok`; a resident url resolves at once. */
  function AwaitPreload(t: Tables, url: string, ok: bool): Tables
  {
    var p := Preload(t, url);
    if PreloadOutcome(t, url) == Resident then p
    else if ok then LoadSucceeded(p, url)
    else LoadFailed(p, url)
  }

  /** Whether that `await` resolves rather than rejects. */
  predicate AwaitResolves(t: Tables, url: string, ok: bool)
  {
    url in t.cache || ok
  }

  /** When the first image's `await` resolves, that image is resident, and
      it is still resident once the look-ahead has been requested. */
  lemma FirstImageResident(t: Tables, url: string, ok: bool, next: seq<string>)
    requires Bounded(t) && SingleFlight(t) && AwaitResolves(t, url, ok)
    ensures url in AwaitPreload(t, url, ok).cache
    ensures url in PreloadAll(AwaitPreload(t, url, ok), next).cache
    ensures SingleFlight(AwaitPreload(t, url, ok))
  {
    var p := Preload(t, url);
    PreloadKeepsInvariants(t, url);
    var a := AwaitPreload(t, url, ok);
    if PreloadOutcome(t, url) != Resident {
      SetThenEvictBounded(p.cache, url, CacheSize);
      LoadCompletionKeepsInvariants(p, url);
    }
    PreloadAllSpec(a, next);
  }

  /** A decoded image; its `src` is the url it was loaded from. */
  datatype Image = Image(src: string)

  /** The `setInterval` handle: the folder its callback captured and its
      period in milliseconds. */
  datatype Timer = Timer(folder: string, periodMs: int)

  class Store {
    var state: RotationState
    var interval: Option<Timer>
    /** The intervals the browser is running: `setInterval` adds one and
        `clearInterval` removes it. */
    var running: multiset<Timer>
    /** 400 ms commits scheduled and not yet fired. */
    var pendingCommits: nat
    var cache: seq<string>
    var loading: set<string>
    var pending: multiset<string>

    function Images(): Tables
      reads this
    {
      Tables(cache, loading, pending)
    }

    /** The only running interval is the one `interval` holds. */
    predicate OneTimer()
      reads this
    {
      running == if interval.Some? then multiset{interval.value} else multiset{}
    }

    /** The image tables keep their capacity and track their loads. */
    ghost predicate ImagesValid()
      reads this
    {
      Bounded(Images()) && Tracked(Images())
    }

    ghost predicate Valid()
      reads this
    {
      ImagesValid() && OneTimer()
    }

    constructor ()
      ensures state == Initial && interval == None && running == multiset{} && pendingCommits == 0
      ensures Images() == NoImages
      ensures Valid() && SingleFlight(Images())
    {
      state := Initial;
      interval := None;
      running := multiset{};
      pendingCommits := 0;
      cache := [];
      loading := {};
      pending := multiset{};
    }

    /** `preloadImage(url)` up to its first `await`. */
    method PreloadImage(url: string) returns (how: Outcome)
      requires ImagesValid()
      modifies this
      ensures how == PreloadOutcome(old(Images()), url)
      ensures Images() == Preload(old(Images()), url)
      ensures state == old(state) && interval == old(interval) && running == old(running) && pendingCommits == old(pendingCommits)
      ensures ImagesValid()
      ensures old(SingleFlight(Images())) ==> SingleFlight(Images())
    {
      PreloadKeepsInvariants(Images(), url);
      if url in cache {
        return Resident;
      }
      if url in loading {
        return Joined;
      }
      loading := loading + {url};
      pending := pending + multiset{url};
      how := Started;
    }

    /** The browser's `onload` for an outstanding load of `url`. */
    method OnLoad(url: string)
      requires ImagesValid() && url in pending
      modifies this
      ensures Images() == LoadSucceeded(old(Images()), url)
      ensures state == old(state) && interval == old(interval) && running == old(running) && pendingCommits == old(pendingCommits)
      ensures ImagesValid() && url in cache
      ensures old(SingleFlight(Images())) ==> SingleFlight(Images())
    {
      LoadCompletionSpec(Images(), url);
      LoadCompletionKeepsInvariants(Images(), url);
      cache := SetThenEvict(cache, url, CacheSize);
      loading := loading - {url};
      pending := pending - multiset{url};
    }

    /** The browser's `onerror` for an outstanding load of `url`. */
    method OnError(url: string)
      requires ImagesValid() && url in pending
      modifies this
      ensures Images() == LoadFailed(old(Images()), url)
      ensures state == old(state) && interval == old(interval) && running == old(running) && pendingCommits == old(pendingCommits)
      ensures ImagesValid()
      ensures old(SingleFlight(Images())) ==> SingleFlight(Images())
    {
      LoadCompletionKeepsInvariants(Images(), url);
      loading := loading - {url};
      pending := pending - multiset{url};
    }

    /** `preloadNextImages(folder, wallpapers, start)`: requests the next
      `PreloadCount` wallpapers and does not wait for them; it has no
      failure of its own. */
    method PreloadNextImages(folder: string, wallpapers: seq<string>, start: int) returns (requested: seq<string>)
      requires ImagesValid()
      modifies this
      ensures requested == Requested(folder, wallpapers, start)
      ensures Images() == PreloadAll(old(Images()), requested)
      ensures state == old(state) && interval == old(interval) && running == old(running) && pendingCommits == old(pendingCommits)
      ensures ImagesValid()
      ensures old(SingleFlight(Images())) ==> SingleFlight(Images())
    {
      ghost var t0 := Images();
      requested := [];
      for i := 0 to PreloadCount
        invariant |requested| == i
        invariant forall k :: 0 <= k < i ==> requested[k] == RequestedUrl(folder, wallpapers, start, k)
        invariant Images() == PreloadAll(t0, requested)
        invariant state == old(state) && interval == old(interval) && running == old(running) && pendingCommits == old(pendingCommits)
        invariant ImagesValid()
        invariant SingleFlight(t0) ==> SingleFlight(Images())
      {
        var url := RequestedUrl(folder, wallpapers, start, i);
        var _ := PreloadImage(url);
        PreloadAllSnoc(t0, requested, url);
        requested := requested + [url];
      }
      RequestedByIndex(folder, wallpapers, start, requested);
    }

    /** `loadWallpapers(folder)`. `listing` is the fetched list, or `None`
      when the fetch or its JSON decoding failed; `shuffled` is the order
      the shuffle produced; `firstLoads` is the browser's answer to the
      first image's load, when one is needed. */
    method LoadWallpapers(folder: string, listing: Option<seq<string>>, shuffled: seq<string>, firstLoads: bool)
      requires Valid()
      requires listing.Some? ==> multiset(shuffled) == multiset(listing.value)
      modifies this
      ensures interval == old(interval) && running == old(running) && pendingCommits == old(pendingCommits)
      ensures listing.None? || listing.value == [] ==> Images() == old(Images()) && state == old(state)
      ensures listing.Some? && listing.value != [] ==>
        var firstUrl := WallpaperUrl(folder, shuffled[0]);
        var awaited := AwaitPreload(old(Images()), firstUrl, firstLoads);
        if AwaitResolves(old(Images()), firstUrl, firstLoads) then
          && state == Loaded(old(state), shuffled, firstUrl)
          && Images() == PreloadAll(awaited, Requested(folder, shuffled, 1))
        else
          state == old(state) && Images() == awaited
      ensures Valid()
      ensures old(SingleFlight(Images())) ==> SingleFlight(Images())
    {
      if listing.None? || listing.value == [] {
        return;
      }
      assert |multiset(shuffled)| > 0;
      var firstUrl := WallpaperUrl(folder, shuffled[0]);
      ghost var t0 := Images();
      var how := PreloadImage(firstUrl);
      if how != Resident {
        if firstLoads {
          OnLoad(firstUrl);
        } else {
          OnError(firstUrl);
          return;
        }
      }
      assert Images() == AwaitPreload(t0, firstUrl, firstLoads);
      state := Loaded(state, shuffled, firstUrl);
      var _ := PreloadNextImages(folder, shuffled, 1);
    }

    /** `startRotation(folder, intervalSeconds)`: any previous interval is
      stopped first, so the new one is the only one running. */
    method StartRotation(folder: string, intervalSeconds: int)
      requires Valid()
      modifies this
      ensures interval == Some(Timer(folder, intervalSeconds * 1000))
      ensures running == multiset{Timer(folder, intervalSeconds * 1000)}
      ensures state == old(state) && pendingCommits == old(pendingCommits) && Images() == old(Images())
      ensures Valid()
    {
      StopRotation();
      var timer := Timer(folder, intervalSeconds * 1000);
      running := running + multiset{timer};
      interval := Some(timer);
    }

    /** `stopRotation()`: clears the interval if there is one. Commits
      already scheduled still fire. It ends in the same state however often
      it is called. */
    method StopRotation()
      requires Valid()
      modifies this
      ensures interval == None
      ensures running == old(running) - (if old(interval).Some? then multiset{old(interval).value} else multiset{})
      ensures running == multiset{}
      ensures state == old(state) && pendingCommits == old(pendingCommits) && Images() == old(Images())
      ensures Valid()
    {
      if interval.Some? {
        running := running - multiset{interval.value};
        interval := None;
      }
    }

    /** One firing of a running interval. The 400 ms commit is scheduled on
      every firing, also when the tick left the state as it was: this is
      `Rotation.IntervalAsWritten` once the commit fires. */
    method TimerTick(timer: Timer) returns (requested: seq<string>)
      requires Valid() && timer in running
      modifies this
      ensures old(interval) == Some(timer)
      ensures var s := old(state);
        && state == Tick(s, timer.folder)
        && pendingCommits == old(pendingCommits) + 1
        && (|s.available| <= 1 ==> requested == [] && Images() == old(Images()))
        && (|s.available| > 1 ==>
              && requested == Requested(timer.folder, s.available, Rem(state.currentIndex + 1, |s.available|))
              && Images() == PreloadAll(old(Images()), requested))
      ensures interval == old(interval) && running == old(running)
      ensures Valid()
      ensures old(SingleFlight(Images())) ==> SingleFlight(Images())
    {
      var folder := timer.folder;
      if |state.available| <= 1 {
        pendingCommits := pendingCommits + 1;
        return [];
      }
      var available := state.available;
      state := Tick(state, folder);
      var preloadStart := Rem(state.currentIndex + 1, |available|);
      requested := PreloadNextImages(folder, available, preloadStart);
      pendingCommits := pendingCommits + 1;
    }

    /** A scheduled 400 ms commit fires. */
    method CommitFires()
      requires pendingCommits > 0
      modifies this
      ensures state == Commit(old(state)) && pendingCommits == old(pendingCommits) - 1
      ensures interval == old(interval) && running == old(running) && Images() == old(Images())
    {
      state := Commit(state);
      pendingCommits := pendingCommits - 1;
    }

    /** `forceTransition(url, index)`: starts the transition and schedules
      its commit. */
    method ForceTransition(url: string, index: int)
      modifies this
      ensures state == Force(old(state), url, index) && pendingCommits == old(pendingCommits) + 1
      ensures interval == old(interval) && running == old(running) && Images() == old(Images())
    {
      state := Force(state, url, index);
      pendingCommits := pendingCommits + 1;
    }

    /** `cleanup()`: stops the rotation and empties the cache and the
      in-flight table; the rotation state and scheduled commits are kept. */
    method Cleanup()
      requires Valid()
      modifies this
      ensures interval == None && running == multiset{}
      ensures Images() == Cleared(old(Images()))
      ensures state == old(state) && pendingCommits == old(pendingCommits)
      ensures Valid()
    {
      StopRotation();
      cache := [];
      loading := {};
    }

    /** `getPreloadedImage(url)`: the decoded image when it is resident. */
    function GetPreloadedImage(url: string): (r: Option<Image>)
      reads this
      ensures r.Some? <==> url in cache
      ensures r.Some? ==> r.value.src == url
    {
      if url in cache then Some(Image(url)) else None
    }
  }
}
