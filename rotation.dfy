/**
  The wallpaper rotation state and the record-to-record steps the store
  applies to it: the folder load, the interval tick, the 400 ms commit and a
  forced transition. Timers are not modelled as time: a tick and a commit are
  steps that the caller applies in the order the timers fire.
*/
module Rotation {
  import opened Js

  /** `WallpaperState` without the unused `preloadedImages` map. */
  datatype RotationState = RotationState(
    current: string,
    next: string,
    available: seq<string>,
    isTransitioning: bool,
    currentIndex: int)

  const Initial := RotationState("", "", [], false, 0)

  /** `/wallpapers/${folder}/${name}`. */
  function WallpaperUrl(folder: string, name: string): string
  {
    "/wallpapers/" + folder + "/" + name
  }

  /** The interval callback's `update`: with at most one wallpaper the state
      is returned as it is; otherwise the index advances cyclically and the
      wallpaper at the new index becomes the transition target. */
  function Tick(s: RotationState, folder: string): RotationState
  {
    if |s.available| <= 1 then s
    else
      var nextIndex := Rem(s.currentIndex + 1, |s.available|);
      s.(next := WallpaperUrl(folder, At(s.available, nextIndex)), isTransitioning := true, currentIndex := nextIndex)
  }

  /** The `setTimeout` callback, 400 ms after a tick or a forced transition. */
  function Commit(s: RotationState): RotationState
  {
    s.(current := s.next, next := "", isTransitioning := false)
  }

  /** `forceTransition(url, index)`'s `update`. */
  function Force(s: RotationState, url: string, index: int): RotationState
  {
    s.(next := url, isTransitioning := true, currentIndex := index)
  }

  /** `loadWallpapers`' `update` once the first image has loaded. It does
      not touch `isTransitioning`. */
  function Loaded(s: RotationState, shuffled: seq<string>, firstUrl: string): RotationState
  {
    s.(available := shuffled, current := firstUrl, currentIndex := 0, next := "")
  }

  /** The index is a valid position of the playback order. */
  predicate IndexValid(s: RotationState)
  {
    0 <= s.currentIndex < |s.available|
  }

  /** With at most one wallpaper a tick changes nothing and starts no
      transition. With more, it advances the index by one modulo the length,
      targets the wallpaper there, enters the transition, and leaves the
      playback order and the shown wallpaper alone. */
  lemma TickSpec(s: RotationState, folder: string)
    ensures |s.available| <= 1 ==> Tick(s, folder) == s
    ensures |s.available| >= 2 && 0 <= s.currentIndex ==>
      var t := Tick(s, folder);
      && t.currentIndex == (s.currentIndex + 1) % |s.available|
      && IndexValid(t)
      && t.next == WallpaperUrl(folder, s.available[t.currentIndex])
      && t.isTransitioning
      && t.available == s.available && t.current == s.current
  {
  }

  /** A tick keeps a valid index valid whatever the length. */
  lemma TickKeepsIndexValid(s: RotationState, folder: string)
    requires IndexValid(s)
    ensures IndexValid(Tick(s, folder))
  {
  }

  /** `k` interval ticks. */
  function Ticks(s: RotationState, folder: string, k: nat): RotationState
    decreases k
  {
    if k == 0 then s else Ticks(Tick(s, folder), folder, k - 1)
  }

  /** After `k` ticks on a list of length at least 2 the index has advanced
      by `k` modulo the length, and the playback order is the same. */
  lemma {:induction false} TicksAdvance(s: RotationState, folder: string, k: nat)
    requires |s.available| >= 2 && IndexValid(s)
    ensures Ticks(s, folder, k).available == s.available
    ensures Ticks(s, folder, k).currentIndex == (s.currentIndex + k) % |s.available|
    decreases k
  {
    if k > 0 {
      var n := |s.available|;
      var t := Tick(s, folder);
      TicksAdvance(t, folder, k - 1);
      ModSucc(s.currentIndex, k, n);
    }
  }

  lemma ModSucc(i: nat, k: nat, n: nat)
    requires n > 0 && k > 0
    ensures ((i + 1) % n + (k - 1)) % n == (i + k) % n
  {
    var q := (i + 1) / n;
    assert i + 1 == q * n + (i + 1) % n;
    ModAddMultiple((i + 1) % n + (k - 1), q, n);
    assert (i + 1) % n + (k - 1) + q * n == i + k;
  }

  lemma {:induction false} ModAddMultiple(a: nat, q: nat, n: nat)
    requires n > 0
    ensures (a + q * n) % n == a % n
    decreases q
  {
    if q > 0 {
      ModAddMultiple(a, q - 1, n);
      assert a + q * n == (a + (q - 1) * n) + n;
      ModPlusModulus(a + (q - 1) * n, n);
    }
  }

  lemma ModPlusModulus(x: nat, n: nat)
    requires n > 0
    ensures (x + n) % n == x % n
  {
    var r, d := x % n, x / n;
    var r2, d2 := (x + n) % n, (x + n) / n;
    assert x == d * n + r;
    assert x + n == d2 * n + r2;
    assert (d2 - d - 1) * n == r - r2;
    SmallMultipleIsZero(d2 - d - 1, n);
  }

  lemma ModOfSmall(i: nat, n: nat)
    requires i < n
    ensures i % n == i
  {
  }

  lemma SmallMultipleIsZero(k: int, n: int)
    requires n > 0 && -n < k * n < n
    ensures k == 0
  {
  }

  /** Cyclic wrap-around: with L >= 2 wallpapers, L ticks bring the index
      back to where it started. */
  lemma FullCycle(s: RotationState, folder: string)
    requires |s.available| >= 2 && IndexValid(s)
    ensures Ticks(s, folder, |s.available|).currentIndex == s.currentIndex
  {
    var n := |s.available|;
    TicksAdvance(s, folder, n);
    ModPlusModulus(s.currentIndex, n);
    ModOfSmall(s.currentIndex, n);
  }

  /** The commit shows the transition target and ends the transition,
      leaving the index and the playback order alone; after a tick on two or
      more wallpapers it shows the wallpaper at the new index. */
  lemma CommitSpec(s: RotationState, folder: string)
    ensures var c := Commit(s);
      && c.current == s.next && c.next == "" && !c.isTransitioning
      && c.currentIndex == s.currentIndex && c.available == s.available
    ensures |s.available| >= 2 && IndexValid(s) ==>
      var t := Tick(s, folder);
      Commit(t).current == WallpaperUrl(folder, s.available[t.currentIndex])
  {
  }

  /** A forced transition targets `url` at `index` and does not alter the
      playback order or the wallpaper shown; its commit then shows `url`. */
  lemma ForceSpec(s: RotationState, url: string, index: int)
    ensures var f := Force(s, url, index);
      && f.next == url && f.currentIndex == index && f.isTransitioning
      && f.available == s.available && f.current == s.current
    ensures Commit(Force(s, url, index)).current == url
  {
  }

  /** After a folder load with a non-empty playback order the index is
      valid, the first wallpaper is shown and no transition target is set. */
  lemma LoadedSpec(s: RotationState, shuffled: seq<string>, folder: string)
    requires |shuffled| > 0
    ensures var l := Loaded(s, shuffled, WallpaperUrl(folder, shuffled[0]));
      && IndexValid(l) && l.current == WallpaperUrl(folder, l.available[0])
      && l.next == "" && l.isTransitioning == s.isTransitioning
  {
  }

  /** "A transition is in progress exactly when there is a target." */
  predicate InTransitionIffTarget(s: RotationState)
  {
    s.isTransitioning <==> s.next != ""
  }

  /** Ticks and commits keep the transition flag in step with the target;
      a forced transition does exactly when its url is non-empty. */
  lemma TransitionFlagPreserved(s: RotationState, folder: string, url: string, index: int)
    requires InTransitionIffTarget(s)
    ensures InTransitionIffTarget(Tick(s, folder))
    ensures InTransitionIffTarget(Commit(s))
    ensures InTransitionIffTarget(Force(s, url, index)) <==> url != ""
  {
  }

  /** The folder load does not keep it: a load that completes while a
      transition is in progress clears the target but stays "transitioning". */
  lemma LoadDuringTransitionBreaksFlag(s: RotationState, shuffled: seq<string>, firstUrl: string)
    requires s.isTransitioning
    ensures !InTransitionIffTarget(Loaded(s, shuffled, firstUrl))
  {
  }

  /** ...and the commit still pending from that transition then blanks the
      wallpaper the load has just shown. */
  lemma LoadDuringTransitionBlanks(s: RotationState, shuffled: seq<string>, firstUrl: string)
    ensures Commit(Loaded(s, shuffled, firstUrl)).current == ""
  {
  }

  /** One interval callback as written: the commit is scheduled whether or
      not the tick started a transition. */
  function IntervalAsWritten(s: RotationState, folder: string): RotationState
  {
    Commit(Tick(s, folder))
  }

  /** With a single wallpaper and no transition target, the interval callback
      as written replaces the wallpaper being shown by the empty url. */
  lemma SingleWallpaperBlanked(s: RotationState, folder: string)
    requires |s.available| == 1 && s.current != "" && s.next == ""
    ensures IntervalAsWritten(s, folder).current == ""
    ensures IntervalAsWritten(s, folder).current != s.current
  {
  }

  /** The interval callback with the commit scheduled only when the tick
      started a transition. */
  function Interval(s: RotationState, folder: string): RotationState
  {
    if |s.available| <= 1 then s else Commit(Tick(s, folder))
  }

  /** The corrected callback never blanks the wallpaper: a shown wallpaper
      stays shown with at most one wallpaper available, and with more the
      next wallpaper of the playback order is shown. */
  lemma IntervalShowsWallpaper(s: RotationState, folder: string)
    requires IndexValid(s) && s.current != ""
    ensures Interval(s, folder).current != ""
    ensures |s.available| <= 1 ==> Interval(s, folder) == s
    ensures |s.available| >= 2 ==>
      Interval(s, folder).current == WallpaperUrl(folder, s.available[(s.currentIndex + 1) % |s.available|])
  {
  }

  /** A folder of three wallpapers: after the load the index is 0, the shown
      wallpaper is one of the three and no transition is in progress; one
      interval later the index has advanced by one and the transition has
      come and gone. */
  lemma ThreeWallpaperScenario(shuffled: seq<string>)
    requires multiset(shuffled) == multiset(["a.jpg", "b.jpg", "c.jpg"])
    ensures var l := Loaded(Initial, shuffled, WallpaperUrl("nature", shuffled[0]));
      && l.currentIndex == 0 && !l.isTransitioning
      && (exists name :: name in ["a.jpg", "b.jpg", "c.jpg"] && l.current == WallpaperUrl("nature", name))
      && Tick(l, "nature").isTransitioning
      && Tick(l, "nature").currentIndex == 1
      && var i := IntervalAsWritten(l, "nature");
         !i.isTransitioning && i.currentIndex == (l.currentIndex + 1) % 3
  {
    assert |multiset(shuffled)| == 3;
    assert shuffled[0] in multiset(shuffled);
    var l := Loaded(Initial, shuffled, WallpaperUrl("nature", shuffled[0]));
    assert shuffled[0] in ["a.jpg", "b.jpg", "c.jpg"];
  }
}
