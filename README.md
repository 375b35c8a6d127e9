# Wallpaper rotation, preload cache and palette extraction — a Dafny model

The application shows a full-screen wallpaper that rotates through the images
of a folder. It cross-fades to each next image and derives a three-colour
palette from the image on screen. This project models the three parts of it
that carry real logic, and proves what they promise.

* **The wallpaper store** (`src/lib/stores/wallpaper.ts`).
  * It keeps a decoded-image cache of at most 6 images, evicting the oldest
    insertion first.
  * A table of in-flight loads makes concurrent requests for one url share
    a single load.
  * The store preloads three images ahead, and loads a folder in shuffled
    order.
  * It has a rotation state machine:
    `current`, `next`, `available`, `isTransitioning`, `currentIndex`. The
    interval timer advances the state, and a 400 ms commit completes each
    transition.
* **Colour extraction** (`src/lib/utils/colorExtractor.ts`).
  * The hex codec: `rgbToHex` and `hexToRgb`.
  * The weighted colour distance.
  * The greedy choice of three mutually distinct colours, padded with
    default colours.
  * The worker's sampling of every 10th pixel of every 10th row into a
    histogram, and its top-20 ranking.
  * The palette fallback in `extractColors`.
* **The wallpaper-list endpoint** (`src/routes/api/wallpapers/+server.ts`).
  * A folder parameter that defaults to `nature`.
  * A 60-second cache of directory listings capped at 10 folders, which
    evicts the first-inserted folder.
  * A case-insensitive filter on image file extensions.

Files:

* `js.dfy`: the JavaScript behaviour the rest relies on.
  * `%` truncates toward zero.
  * An out-of-range array element interpolates as `undefined`.
  * The `i` regex flag folds ASCII case.
  * A `Map` keeps insertion order, and keeps a re-set key in its place.
* `color_extractor.dfy`: the colour extraction.
* `rotation.dfy`: the rotation state and its record-to-record steps.
* `wallpaper_store.dfy`: the store as a class.
  * The image tables are fields: cache key order, in-flight set, and
    outstanding browser loads.
  * Each method is specified by a pure function on those tables. The lemmas
    about those functions carry the invariants.
* `wallpapers_endpoint.dfy`: the endpoint.
  * A pure step function `Serve` from the cache, the request, the clock and
    the directory listing.
  * A class whose `Get` updates the cache in place, proved equal to `Serve`.

Events stand in for I/O and timers.

* Image loads: a browser load is started by `Store.PreloadImage`, and
  finished by `Store.OnLoad` or `Store.OnError`.
* Timers: the intervals the browser runs are the `running` field, and
  the firing of one of them is `Store.TimerTick`. A scheduled commit
  firing is `Store.CommitFires`; the count of scheduled commits not yet
  fired is `pendingCommits`.
* Other inputs are parameters: the fetched listing, the shuffle result,
  `readdir`'s result and the clock.

The code behaves as follows in places where a reader might expect otherwise,
and the model follows the code:

* A folder load sets `next` to `''` without clearing `isTransitioning`.
  So "transitioning exactly when a target is set" is not an invariant of
  the code (`Rotation.LoadDuringTransitionBreaksFlag`).
  * If a folder load completes inside a transition's 400 ms, the pending
    commit then shows the empty url (`Rotation.LoadDuringTransitionBlanks`).
* The commit is not gated on the next image having loaded. The tick never
  awaits its preloads.
* `stopRotation` clears the interval only. Commits already scheduled still
  fire (`Store.StopRotation` keeps `pendingCommits`).
* `cleanup` clears the in-flight table while the browser still holds
  outstanding loads.
  * Those loads later insert into the emptied cache.
  * A new request for such a url starts a second load, so the "one load per
    url" guarantee holds only until a cleanup (`CleanupOrphansLoads`).

## Model

| member | source | states |
|---|---|---|
| Js.Rem | src/lib/stores/wallpaper.ts:126 | JavaScript `%` by a positive length lies strictly between `-n` and `n` and has the sign of the dividend; on a non-negative dividend it is the ordinary remainder |
| Js.LowerAscii | src/routes/api/wallpapers/+server.ts:25 | case folding under the `i` flag keeps the length and lower-cases exactly the letters A-Z, position by position |
| Js.SetThenEvictBounded | src/lib/stores/wallpaper.ts:49-55 | setting a key in a bounded insertion-ordered map and deleting the first key on overflow keeps keys distinct and within the bound and leaves the key present; a present key keeps the order unchanged; a new key is appended, and on overflow exactly the first key is removed |
| Js.SetManyThenEvictBounded | src/routes/api/wallpapers/+server.ts:29-38 | any sequence of such sets keeps the map distinct and bounded, with the last key set present |
| ColorExtractor.ByteToHexDigits | src/lib/utils/colorExtractor.ts:69 | `x.toString(16).padStart(2, '0')` of a byte is its two lower-case hex digits, high nibble first |
| ColorExtractor.RgbToHexFormat | src/lib/utils/colorExtractor.ts:68-70 | `rgbToHex` is `#` followed by the three two-digit groups: seven characters |
| ColorExtractor.DigitValue | src/lib/utils/colorExtractor.ts:188-190 | a hex digit, in either case, has a value below 16 |
| ColorExtractor.HexToRgbAccepts | src/lib/utils/colorExtractor.ts:185-192 | `hexToRgb` returns a colour exactly when the string is an optional `#` and six hex digits of either case, and `null` otherwise |
| ColorExtractor.DecodeDigits | src/lib/utils/colorExtractor.ts:186-191 | the six digits of a colour, after `#`, decode to that colour |
| ColorExtractor.HexRoundTrip | src/lib/utils/colorExtractor.ts:185-192 | `hexToRgb(rgbToHex(r, g, b))` is `(r, g, b)` for every colour |
| ColorExtractor.PairCanonical | src/lib/utils/colorExtractor.ts:188-190 | a decoded digit pair is re-encoded as the same digits in lower case |
| ColorExtractor.HexCanonical | src/lib/utils/colorExtractor.ts:185-192 | re-encoding any accepted string gives `#` and its digits lower-cased: the codec is canonical in the other direction |
| ColorExtractor.WeightedMetric | src/lib/utils/colorExtractor.ts:178-182 | 2dr² + 4dg² + 3db² is symmetric and 0 exactly on equal colours |
| ColorExtractor.DistanceMetric | src/lib/utils/colorExtractor.ts:171-183 | the distance is symmetric and so is "too similar"; it is 0 when either string is malformed; between two colours it is 0 exactly on equal colours; "too similar" is the squared sum below 3600 |
| ColorExtractor.TooSimilarToItself | src/lib/utils/colorExtractor.ts:152 | every string is at distance 0 from itself, so the first colour, already selected, is never selected twice |
| ColorExtractor.CheckDiverse | src/lib/utils/colorExtractor.ts:150-156 | the inner loop's `isDiverse` holds exactly when the candidate is at distance at least 60 from every selected colour |
| ColorExtractor.GetDiverseColors | src/lib/utils/colorExtractor.ts:141-169 | the loops compute `DiverseColors`, whose properties follow |
| ColorExtractor.GreedyExtends | src/lib/utils/colorExtractor.ts:147-161 | the selection loop only appends, appends a subsequence of the candidates each diverse from all before it, and stops at `count` |
| ColorExtractor.GreedyMaximal | src/lib/utils/colorExtractor.ts:147-161 | when the loop ends short of `count`, every candidate is too similar to some selected colour |
| ColorExtractor.DiverseColorsSpec | src/lib/utils/colorExtractor.ts:144-166 | for an input longer than `count`: the result has `count` colours (one if `count` is 0) and starts with the first input colour; the picked colours are an in-order subsequence of the input and pairwise at distance at least 60; the other slots are the defaults for their positions; padding happens only when no input colour is diverse from the picked ones |
| ColorExtractor.ShortInputUnchanged | src/lib/utils/colorExtractor.ts:142 | an input of at most `count` colours is returned as it is |
| ColorExtractor.DiverseColorsFrom | src/lib/utils/colorExtractor.ts:141-169 | every returned colour is an input colour or the default colour of its position |
| ColorExtractor.PaletteSlots | src/lib/utils/colorExtractor.ts:116-122 | each palette slot is a worker candidate or that slot's default (`#ff0080`, `#00ff88`, `#00ffff`); with more than three non-empty candidates the palette is exactly `getDiverseColors(candidates, 3)` |
| ColorExtractor.SlotsFrom | src/lib/utils/colorExtractor.ts:119-121 | the `||` fallback keeps a non-empty colour and otherwise gives the slot's default |
| ColorExtractor.EmptyRankingGivesDefaults | src/lib/utils/colorExtractor.ts:116-122 | a worker reply with no colours gives the default palette |
| ColorExtractor.RowOnGrid | src/lib/utils/colorExtractor.ts:15 | every position of a row's inner loop is inside the image, on a column that is a multiple of 10 |
| ColorExtractor.SampledPositions | src/lib/utils/colorExtractor.ts:14-15 | every position the nested loops visit has `x < width` and `y < height`, both multiples of 10 |
| ColorExtractor.SampleIndexInBounds | src/lib/utils/colorExtractor.ts:16-19 | for `x < width` and `y < height`, `(y*width + x)*4 + 2 < width*height*4` |
| ColorExtractor.PixelRead | src/lib/utils/colorExtractor.ts:16-19 | the three channel reads at a sampled position index inside the pixel buffer |
| ColorExtractor.SampleRow | src/lib/utils/colorExtractor.ts:15-31 | the inner loop adds exactly the row's samples to the colour map |
| ColorExtractor.SampleColors | src/lib/utils/colorExtractor.ts:14-32 | the nested loops build exactly `ColorHistogram` of the image |
| ColorExtractor.AddScoreWellFormed | src/lib/utils/colorExtractor.ts:30 | `colorMap.set(hex, (colorMap.get(hex) \|\| 0) + score)` keeps the map's keys distinct and in step with its entries |
| ColorExtractor.AccumulateScores | src/lib/utils/colorExtractor.ts:14-31 | accumulating keeps the map well formed, adds a key exactly for colours of retained samples, and adds their scores to each colour |
| ColorExtractor.HistogramScores | src/lib/utils/colorExtractor.ts:14-31 | each histogram value is the sum of the scores of the retained samples with that colour, and only colours of retained samples are keys |
| ColorExtractor.Insert | src/lib/utils/colorExtractor.ts:35-36 | one insertion step of the stable sort adds exactly its element |
| ColorExtractor.SortByScore | src/lib/utils/colorExtractor.ts:35-36 | the sort is a permutation of the map's keys |
| ColorExtractor.InsertDescending | src/lib/utils/colorExtractor.ts:36 | inserting into a list ordered by non-increasing score keeps it ordered |
| ColorExtractor.SortDescending | src/lib/utils/colorExtractor.ts:36 | the sorted list is ordered by non-increasing score |
| ColorExtractor.SortedKeys | src/lib/utils/colorExtractor.ts:35-36 | the sorted keys are the map's keys, distinct, in non-increasing score order |
| ColorExtractor.RankedTop | src/lib/utils/colorExtractor.ts:35-38 | the reply has min(keys, 20) distinct colours of the map in non-increasing score order, and every colour left out scores no more than any colour kept |
| ColorExtractor.TopOfSorted | src/lib/utils/colorExtractor.ts:37 | a prefix of a distinct score-ordered list is distinct, ordered, and outscores the rest |
| ColorExtractor.NothingRetainedGivesDefaults | src/lib/utils/colorExtractor.ts:14-40 | when no pixel passes the thresholds, the histogram and the reply are empty and the palette is the default one |
| ColorExtractor.NothingRetainedKeeps | src/lib/utils/colorExtractor.ts:25 | samples that fail the thresholds leave the colour map unchanged |
| Rotation.TickSpec | src/lib/stores/wallpaper.ts:123-139 | with at most one wallpaper a tick returns the state unchanged; otherwise the index becomes `(currentIndex+1) mod len` and `next` the url of the wallpaper there; `isTransitioning` is set; `available` and `current` are unchanged |
| Rotation.TickKeepsIndexValid | src/lib/stores/wallpaper.ts:126 | a tick keeps a valid index valid |
| Rotation.TicksAdvance | src/lib/stores/wallpaper.ts:122-139 | after k ticks on L ≥ 2 wallpapers the index is `(index + k) mod L` and the order is unchanged |
| Rotation.FullCycle | src/lib/stores/wallpaper.ts:126 | L ticks on L ≥ 2 wallpapers bring the index back to where it started |
| Rotation.CommitSpec | src/lib/stores/wallpaper.ts:142-149 | the commit moves `next` into `current`, clears `next` and `isTransitioning`, and keeps the index and the order; after a tick it shows the wallpaper at the new index |
| Rotation.ForceSpec | src/lib/stores/wallpaper.ts:160-176 | a forced transition sets `next`, the index and `isTransitioning`, leaves `available` and `current` alone, and its commit shows the url |
| Rotation.LoadedSpec | src/lib/stores/wallpaper.ts:103-109 | after a folder load the index is 0 and valid, `current` is the first wallpaper's url, `next` is empty, `isTransitioning` is as before |
| Rotation.TransitionFlagPreserved | src/lib/stores/wallpaper.ts:123-176 | ticks and commits keep "transitioning exactly when a target is set"; a forced transition keeps it exactly when its url is non-empty |
| Rotation.LoadDuringTransitionBreaksFlag | src/lib/stores/wallpaper.ts:103-109 | a folder load during a transition leaves it transitioning with no target |
| Rotation.LoadDuringTransitionBlanks | src/lib/stores/wallpaper.ts:103-149 | the commit after a folder load shows the empty url |
| Rotation.SingleWallpaperBlanked | src/lib/stores/wallpaper.ts:122-150 | as written, with one wallpaper shown and no target, an interval firing replaces the shown wallpaper by the empty url |
| Rotation.IntervalShowsWallpaper | src/lib/stores/wallpaper.ts:122-150 | with the commit scheduled only after a transition starts, the shown wallpaper is never blanked: it stays with at most one wallpaper, and otherwise the next one of the order is shown |
| Rotation.ThreeWallpaperScenario | src/lib/stores/wallpaper.ts:95-139 | for any shuffle of three files the load shows one of them at index 0 without a transition, and the next interval advances to index 1 and completes its transition |
| WallpaperStore.PreloadSpec | src/lib/stores/wallpaper.ts:33-41 | a resident url and a url in flight change no table; a new load is registered exactly when the url is neither resident nor in flight, and registered once; afterwards the url is resident or in flight |
| WallpaperStore.PreloadKeepsInvariants | src/lib/stores/wallpaper.ts:38-72 | a preload keeps the cache bound, load tracking, and one outstanding load per in-flight url |
| WallpaperStore.LoadCompletionSpec | src/lib/stores/wallpaper.ts:48-64 | on load the url becomes resident within the bound of 6; a resident url keeps its place; a new url that does not fit evicts exactly the oldest; on error the cache is untouched; either way the url leaves the in-flight table |
| WallpaperStore.LoadCompletionKeepsInvariants | src/lib/stores/wallpaper.ts:57-62 | completing an outstanding load keeps load tracking and one load per url |
| WallpaperStore.PreloadAllSpec | src/lib/stores/wallpaper.ts:81-85 | preloading a list leaves the cache alone, puts in flight exactly the listed urls not resident, and keeps one load per url |
| WallpaperStore.PreloadAllKeepsInvariants | src/lib/stores/wallpaper.ts:81-85 | preloading a list keeps the cache bound and load tracking |
| WallpaperStore.CleanupOrphansLoads | src/lib/stores/wallpaper.ts:179-183 | cleanup empties the cache and the in-flight table, but an outstanding load is then untracked and a new request starts a second load of its url |
| WallpaperStore.RequestedSpec | src/lib/stores/wallpaper.ts:81-85 | the look-ahead requests are `/wallpapers/<folder>/<list[(start+i) mod len]>` for i = 0, 1, 2 |
| WallpaperStore.FirstImageResident | src/lib/stores/wallpaper.ts:100-112 | when the first image's `await` resolves, the image is resident and stays resident while the look-ahead is requested |
| WallpaperStore.Store.constructor | src/lib/stores/wallpaper.ts:17-28 | the store starts with the empty rotation state, no interval and no running timer, no commits, and empty tables |
| WallpaperStore.Store.PreloadImage | src/lib/stores/wallpaper.ts:31-75 | returns how the url was served and updates the tables as `Preload`, keeping the invariants |
| WallpaperStore.Store.OnLoad | src/lib/stores/wallpaper.ts:48-59 | the load event updates the tables as `LoadSucceeded`; the url is resident afterwards |
| WallpaperStore.Store.OnError | src/lib/stores/wallpaper.ts:61-64 | the error event updates the tables as `LoadFailed` |
| WallpaperStore.Store.PreloadNextImages | src/lib/stores/wallpaper.ts:78-88 | the loop requests exactly `Requested(folder, list, start)` and updates the tables as preloading them in turn; it changes nothing else and has no failure of its own |
| WallpaperStore.Store.LoadWallpapers | src/lib/stores/wallpaper.ts:90-117 | a failed fetch or an empty listing changes nothing. Otherwise the first image is awaited. If that resolves, the state becomes `Loaded` with the shuffled permutation and the look-ahead from index 1 is requested. If it rejects, the state is unchanged. |
| WallpaperStore.Store.StartRotation | src/lib/stores/wallpaper.ts:119-151 | the previous interval is cleared before the new one is set, so afterwards exactly one timer runs: the new one, with period `intervalSeconds * 1000`, held by the handle |
| WallpaperStore.Store.StopRotation | src/lib/stores/wallpaper.ts:153-158 | `clearInterval` removes the held timer from the running ones and the handle is cleared, so no timer runs (stopping is idempotent); scheduled commits are kept |
| WallpaperStore.Store.TimerTick | src/lib/stores/wallpaper.ts:122-150 | only the held, running timer can fire. The state ticks and one 400 ms commit is scheduled on every firing, also with at most one wallpaper. With more than one, the look-ahead from `(nextIndex+1) mod len` is requested; with at most one the tables are unchanged. |
| WallpaperStore.Store.CommitFires | src/lib/stores/wallpaper.ts:142-149 | a scheduled commit applies `Commit` and is consumed |
| WallpaperStore.Store.ForceTransition | src/lib/stores/wallpaper.ts:160-176 | applies `Force` and schedules its commit |
| WallpaperStore.Store.Cleanup | src/lib/stores/wallpaper.ts:179-183 | the interval is cleared and no timer runs, the cache and in-flight table are emptied, outstanding loads and the rotation state are kept |
| WallpaperStore.Store.GetPreloadedImage | src/lib/stores/wallpaper.ts:192 | an image is returned exactly when the url is resident, and it is that url's image |
| WallpapersEndpoint.FolderParam | src/routes/api/wallpapers/+server.ts:11 | a missing or empty parameter selects `nature`, any other value is used as is |
| WallpapersEndpoint.FilterImages | src/routes/api/wallpapers/+server.ts:24-26 | the result is an in-order subsequence of the listing holding every image file as often as the listing does, and nothing else |
| WallpapersEndpoint.FilterImagesMembers | src/routes/api/wallpapers/+server.ts:24-26 | a name is in the result exactly when it is in the listing and ends, ignoring case, in `.jpg`, `.jpeg`, `.png`, `.webp` or `.avif` |
| WallpapersEndpoint.HitServesCache | src/routes/api/wallpapers/+server.ts:15-18 | a hit (an entry younger than 60000 ms) serves the cached list, keeps the cache, and does not depend on the directory |
| WallpapersEndpoint.MissReadsDirectory | src/routes/api/wallpapers/+server.ts:20-44 | on a miss a failed read serves `[]` and keeps the cache; a successful read serves the filtered listing and stores that same list with the storing time |
| WallpapersEndpoint.StoredListingIsServed | src/routes/api/wallpapers/+server.ts:15-32 | a stored listing is served from the cache by any request for the folder within 60000 ms of storing |
| WallpapersEndpoint.ServeKeepsCacheBounded | src/routes/api/wallpapers/+server.ts:28-38 | every request keeps at most 10 distinct folders; hits and failed reads keep the cache; a re-stored folder keeps its position; a new folder that does not fit evicts exactly the first-inserted one |
| WallpapersEndpoint.InsertKeepsBounded | src/routes/api/wallpapers/+server.ts:29-38 | storing keeps the cache well formed, holds the new entry and keeps every other surviving entry |
| WallpapersEndpoint.InsertInPlace | src/routes/api/wallpapers/+server.ts:29-38 | `set` followed by deleting the first key past 10 is `Insert` |
| WallpapersEndpoint.EmptyCacheMisses | src/routes/api/wallpapers/+server.ts:15-16 | the empty cache never hits |
| WallpapersEndpoint.ListingCache.constructor | src/routes/api/wallpapers/+server.ts:7 | the cache starts empty and well formed |
| WallpapersEndpoint.ListingCache.Get | src/routes/api/wallpapers/+server.ts:10-45 | the in-place handler responds and updates the cache exactly as `Serve`, keeping it well formed |

## Left out

- The HSL conversion and the vibrancy score (floating point) are parameters. `retain` is the lightness and saturation threshold test, and `score` is the sample's score. Ranking compares these scores as reals.
- `colorDistance`'s square root is not computed. The comparison with 60 is modelled as a comparison of the squared sum with 3600. The two agree, because both sides are non-negative.
- Image loading and the canvas downscale in `extractColors` are left out; they involve float `scale` and `Math.floor`. The model's input is the pixel buffer and its dimensions.
- Creating the worker and its messaging are left out. The `onmessage` handler is reassigned on every call, which is a race between overlapping extractions with no sequential contract; the model treats one reply at a time.
- ColorExtractor.GetDiverseColors: requires `count <= 3`. The padding table has three entries, and beyond them the code pads with `undefined`. Its only caller passes 3.
- Timers run no clock. An interval firing and a commit firing are events, and `Timer.periodMs` is only recorded. The clamping of the delay by `setInterval` is not modelled.
- WallpaperStore.Store.StartRotation: `intervalSeconds` is an integer, while the code accepts any number.
- The `Math.random` shuffle is an arbitrary permutation of the listing; shuffle quality is not modelled.
- `fetch` and its JSON decoding are the `listing` input; `None` is a failure. A response that is not an array is not modelled.
- WallpaperStore.Store.LoadWallpapers: its `await`s are atomic. No other event interleaves between requesting the first image and its completion, whose outcome is the `firstLoads` input. The look-ahead loads it starts complete later through `OnLoad`/`OnError`.
- The value `preloadImage` resolves to is not modelled. Only its effect on the tables and its `Outcome` are. That value is `imageCache.get(url)!`, which can be missing if the url was evicted in between.
- Image elements are reduced to their `src`. `crossOrigin`, `fetchPriority` and `decoding` are left out; they do not change the logic.
- The Svelte store's `subscribe`, and the `preloadedImages` field of the state, are left out. The field is never written.
- WallpapersEndpoint.ListingCache.Get: one request runs to completion before the next begins. The code awaits `readdir` between the lookup and the store, so concurrent requests can interleave there.
- `readdir` and `path.join` are the `listing` input. The folder name reaches the file-system path unchecked, which is not modelled. The two `Date.now()` readings are the `now` and `storedAt` inputs.
- `console.error` logging and the JSON serialisation of the response are left out.
- The settings, the theme store, the build scripts and the configuration files are not part of this model.

## Findings

| source | as written | input that shows it | evidently intended | confidence | as-written member | corrected member |
|---|---|---|---|---|---|---|
| src/lib/stores/wallpaper.ts:142-149 | the interval callback schedules the 400 ms commit on every firing, also when its update returned the state unchanged because at most one wallpaper is available | a folder with the single file `a.jpg`: after the load `current` is `/wallpapers/<folder>/a.jpg` and `next` is `''`; the first interval firing commits `current := ''` | schedule the commit only when the tick started a transition, so a single wallpaper stays on screen | not executed | Rotation.SingleWallpaperBlanked | Rotation.IntervalShowsWallpaper |

`Rotation.IntervalAsWritten` is the callback as written, and `Rotation.Interval`
is the corrected one. `WallpaperStore.Store.TimerTick` models the code as
written: it schedules a commit on every firing, and that commit applied after
the tick is `Rotation.IntervalAsWritten`.
