/**
 * The presenter state of src/App.tsx: the deck, the index of the slide on
 * screen, the direction of the last transition and the last save time, with
 * the mount-time load, the deck edits, navigation, the evidence refresh and
 * the auto-save. The IndexedDB cache and `localStorage` are objects the
 * presenter holds; clocks and network replies are parameters.
 */
module App {

  import opened Types
  import SlideSplit
  import Deck
  import Cache

  /** `CONTENT_VERSION`: bumped whenever the bundled slide data changes. */
  const ContentVersion: string := "v5"
  const VersionKey: string := "dfu-content-version"

  /** The browser's `localStorage`: a string-to-string map. */
  class LocalStorage {
    var items: map<string, string>

    constructor()
      ensures items == map[]
    {
      items := map[];
    }

    method GetItem(key: string) returns (v: Option<string>)
      ensures key in items ==> v == Some(items[key])
      ensures key !in items ==> v == None
    {
      v := if key in items then Some(items[key]) else None;
    }

    method SetItem(key: string, value: string)
      modifies this
      ensures items == old(items)[key := value]
    {
      items := items[key := value];
    }
  }

  /** The mount-time decision: the cached deck is kept only when non-empty and saved under this version. */
  predicate UseCached(cached: seq<SlideData>, storedVersion: Option<string>) {
    |cached| > 0 && storedVersion == Some(ContentVersion)
  }

  /** `localStorage.getItem('dfu-content-version')`. */
  function StoredVersion(items: map<string, string>): Option<string> {
    if VersionKey in items then Some(items[VersionKey]) else None
  }

  class Presenter {
    var deck: seq<SlideData>
    var current: int
    var direction: Deck.Direction
    var lastUpdated: Option<string>
    const store: Cache.SlideStore
    const storage: LocalStorage

    ghost predicate Valid()
      reads this
    {
      0 <= current < |deck|
    }

    /** The first render: the bundled slides, split at three bullets, on the first slide. */
    constructor(defaults: seq<SlideData>, store: Cache.SlideStore, storage: LocalStorage)
      requires |defaults| > 0
      ensures Valid()
      ensures deck == SlideSplit.Split(defaults, SlideSplit.DefaultMaxBullets)
      ensures current == 0 && direction == Deck.Next && lastUpdated == None
      ensures this.store == store && this.storage == storage
    {
      var split := SlideSplit.SplitSlidesMaxBullets(defaults, SlideSplit.DefaultMaxBullets);
      SlideSplit.SplitLength(defaults, SlideSplit.DefaultMaxBullets);
      deck := split;
      current := 0;
      direction := Deck.Next;
      lastUpdated := None;
      this.store := store;
      this.storage := storage;
    }

    /**
     * The mount effect. With the database unavailable every step throws and
     * the defaults stay. Otherwise a non-empty cached deck saved under the
     * current version is shown; any other outcome rebuilds the split defaults,
     * saves them and records the version. The last save time is then read.
     */
    method LoadOnMount(dbAvailable: bool, defaults: seq<SlideData>, stamps: seq<string>, savedAt: string)
      requires Valid() && current == 0
      requires |defaults| > 0
      requires |stamps| == |SlideSplit.Split(defaults, SlideSplit.DefaultMaxBullets)|
      modifies this, store, storage
      ensures Valid() && current == 0 && direction == old(direction)
      ensures !dbAvailable ==> deck == old(deck) && lastUpdated == old(lastUpdated)
                               && unchanged(store) && unchanged(storage)
      ensures dbAvailable && UseCached(old(Cache.Load(store.records, store.meta)), old(StoredVersion(storage.items)))
              ==> deck == old(Cache.Load(store.records, store.meta)) && unchanged(store) && unchanged(storage)
      ensures dbAvailable && !UseCached(old(Cache.Load(store.records, store.meta)), old(StoredVersion(storage.items)))
              ==> deck == SlideSplit.Split(defaults, SlideSplit.DefaultMaxBullets)
                  && store.records == Cache.Records(deck, stamps)
                  && Cache.Load(store.records, store.meta) == (if DistinctSlideIds(deck) then Cache.Stamped(deck, stamps) else [])
                  && storage.items == old(storage.items)[VersionKey := ContentVersion]
                  && store.meta == old(store.meta)[Cache.LastUpdatedKey := Cache.Stamp(savedAt)]
                                                  [Cache.SlideOrderKey := Cache.Order(SlideIds(deck))]
                  && lastUpdated == Some(savedAt)
      ensures dbAvailable ==> lastUpdated == Cache.LastUpdated(store.meta)
    {
      if !dbAvailable {
        return;
      }
      var cached := store.GetCachedSlides();
      var cachedVersion := storage.GetItem(VersionKey);
      if |cached| > 0 && cachedVersion == Some(ContentVersion) {
        deck := cached;
      } else {
        RebuildDefaults(defaults, stamps, savedAt);
      }
      var ts := store.GetLastUpdated();
      lastUpdated := ts;
    }

    /** The fallback branch of the mount effect: split the defaults, save them and record the version. */
    method RebuildDefaults(defaults: seq<SlideData>, stamps: seq<string>, savedAt: string)
      requires |defaults| > 0
      requires |stamps| == |SlideSplit.Split(defaults, SlideSplit.DefaultMaxBullets)|
      modifies this, store, storage
      ensures deck == SlideSplit.Split(defaults, SlideSplit.DefaultMaxBullets) && |deck| >= 1
      ensures current == old(current) && direction == old(direction) && lastUpdated == old(lastUpdated)
      ensures store.records == Cache.Records(deck, stamps)
      ensures store.meta == old(store.meta)[Cache.LastUpdatedKey := Cache.Stamp(savedAt)][Cache.SlideOrderKey := Cache.Order(SlideIds(deck))]
      ensures Cache.LastUpdated(store.meta) == Some(savedAt)
      ensures Cache.Load(store.records, store.meta) == (if DistinctSlideIds(deck) then Cache.Stamped(deck, stamps) else [])
      ensures storage.items == old(storage.items)[VersionKey := ContentVersion]
    {
      var split := SlideSplit.SplitSlidesMaxBullets(defaults, SlideSplit.DefaultMaxBullets);
      SlideSplit.SplitLength(defaults, SlideSplit.DefaultMaxBullets);
      deck := split;
      ghost var meta0 := store.meta;
      store.CacheSlides(split, stamps, savedAt);
      if DistinctSlideIds(split) {
        Cache.SaveLoadRoundTrip(split, stamps, meta0, savedAt);
      } else {
        Cache.DuplicateIdsDefeatLoad(split, stamps, meta0[Cache.LastUpdatedKey := Cache.Stamp(savedAt)]);
      }
      ghost var records1, meta1 := store.records, store.meta;
      storage.SetItem(VersionKey, ContentVersion);
      assert store.records == records1 && store.meta == meta1;
    }

    /** `goTo(index, direction)`: a target outside the deck is ignored. */
    method GoTo(index: int, dir: Deck.Direction)
      requires Valid()
      modifies this
      ensures Valid() && deck == old(deck) && lastUpdated == old(lastUpdated)
      ensures current == Deck.NavTarget(|deck|, old(current), index)
      ensures 0 <= index < |deck| ==> direction == dir
      ensures !(0 <= index < |deck|) ==> direction == old(direction)
    {
      if index < 0 || index >= |deck| {
        return;
      }
      direction := dir;
      current := index;
    }

    /** `goNext`: one slide forward, except on the last slide. */
    method GoNext()
      requires Valid()
      modifies this
      ensures Valid() && deck == old(deck) && lastUpdated == old(lastUpdated)
      ensures old(current) < |deck| - 1 ==> current == old(current) + 1 && direction == Deck.Next
      ensures old(current) == |deck| - 1 ==> current == old(current) && direction == old(direction)
    {
      if current < |deck| - 1 {
        GoTo(current + 1, Deck.Next);
      }
    }

    /** `goPrev`: one slide back, except on the first slide. */
    method GoPrev()
      requires Valid()
      modifies this
      ensures Valid() && deck == old(deck) && lastUpdated == old(lastUpdated)
      ensures old(current) > 0 ==> current == old(current) - 1 && direction == Deck.Prev
      ensures old(current) == 0 ==> current == 0 && direction == old(direction)
    {
      if current > 0 {
        GoTo(current - 1, Deck.Prev);
      }
    }

    /** `handleUpdateSlide(index, updates)`. */
    method HandleUpdateSlide(index: int, u: Deck.SlidePatch)
      requires Valid() && 0 <= index < |deck|
      modifies this
      ensures Valid() && current == old(current)
      ensures direction == old(direction) && lastUpdated == old(lastUpdated)
      ensures deck == Deck.UpdateAt(old(deck), index, u)
      ensures u.slide_id.None? && DistinctSlideIds(old(deck)) ==> DistinctSlideIds(deck)
    {
      var copy := deck;
      copy := copy[index := Deck.ApplyPatch(copy[index], u)];
      deck := copy;
      if u.slide_id.None? {
        Deck.UpdateKeepsIds(old(deck), index, u);
      }
    }

    /**
     * `handleAddSlide` with a fresh id: a blank slide after the current one,
     * then navigation to it, the guard seeing the deck that holds it.
     */
    method HandleAddSlide(id: string)
      requires Valid() && id !in SlideIds(deck)
      modifies this
      ensures Valid()
      ensures deck == Deck.AddAfter(old(deck), old(current), id)
      ensures current == old(current) + 1 && deck[current] == Deck.BlankSlide(id) && direction == Deck.Next
      ensures lastUpdated == old(lastUpdated)
      ensures DistinctSlideIds(old(deck)) ==> DistinctSlideIds(deck)
    {
      var at := current;
      if DistinctSlideIds(deck) {
        Deck.InsertionsKeepDistinctIds(deck, at, id);
      }
      deck := Deck.AddAfter(deck, at, id);
      GoTo(at + 1, Deck.Next);
    }

    /** `handleDuplicateSlide` with a fresh id: a copy of the current slide after it, then navigation to it. */
    method HandleDuplicateSlide(id: string)
      requires Valid() && id !in SlideIds(deck)
      modifies this
      ensures Valid()
      ensures deck == Deck.DuplicateAfter(old(deck), old(current), id)
      ensures current == old(current) + 1 && deck[current] == old(deck)[old(current)].(slide_id := id)
      ensures direction == Deck.Next && lastUpdated == old(lastUpdated)
      ensures DistinctSlideIds(old(deck)) ==> DistinctSlideIds(deck)
    {
      var at := current;
      if DistinctSlideIds(deck) {
        Deck.InsertionsKeepDistinctIds(deck, at, id);
      }
      deck := Deck.DuplicateAfter(deck, at, id);
      GoTo(at + 1, Deck.Next);
    }

    /** `handleDeleteSlide`: the last remaining slide is never deleted. */
    method HandleDeleteSlide()
      requires Valid()
      modifies this
      ensures Valid() && direction == old(direction) && lastUpdated == old(lastUpdated)
      ensures |old(deck)| <= 1 ==> deck == old(deck) && current == old(current)
      ensures |old(deck)| > 1 ==>
                deck == Deck.RemoveAt(old(deck), old(current))
                && current == Deck.IndexAfterDelete(old(current), |old(deck)|)
      ensures DistinctSlideIds(old(deck)) ==> DistinctSlideIds(deck)
    {
      if |deck| <= 1 {
        return;
      }
      var n := |deck|;
      if DistinctSlideIds(deck) {
        Deck.RemoveKeepsDistinctIds(deck, current);
      }
      Deck.DeleteShowsNeighbour(deck, current);
      deck := Deck.RemoveAt(deck, current);
      current := if current <= n - 2 then current else n - 2;
    }

    /**
     * `refreshEvidence`: every slide with a citation query gets its merged
     * citations and a stamp; the deck is then saved. When the save throws,
     * the refreshed deck stays on screen and the save time is not updated.
     */
    method RefreshEvidence(lookups: seq<Deck.Lookup>, dbAvailable: bool,
                           stamps: seq<string>, savedAt: string, finishedAt: string)
      requires Valid() && |lookups| == |deck| && |stamps| == |deck|
      modifies this, store
      ensures Valid() && current == old(current) && direction == old(direction)
      ensures deck == Deck.RefreshedDeck(old(deck), lookups)
      ensures DistinctSlideIds(old(deck)) ==> DistinctSlideIds(deck)
      ensures dbAvailable ==> store.records == Cache.Records(deck, stamps)
                              && store.meta == old(store.meta)[Cache.LastUpdatedKey := Cache.Stamp(savedAt)]
                                                              [Cache.SlideOrderKey := Cache.Order(SlideIds(deck))]
                              && lastUpdated == Some(finishedAt)
      ensures dbAvailable && DistinctSlideIds(old(deck)) ==>
                Cache.Load(store.records, store.meta) == Cache.Stamped(deck, stamps)
      ensures !dbAvailable ==> unchanged(store) && lastUpdated == old(lastUpdated)
    {
      var updated := Deck.RefreshedDeck(deck, lookups);
      if DistinctSlideIds(deck) {
        Deck.RefreshKeepsDistinctIds(deck, lookups);
      }
      ghost var distinct := DistinctSlideIds(updated);
      deck := updated;
      if dbAvailable {
        store.CacheSlides(updated, stamps, savedAt);
        if distinct {
          Cache.SaveLoadRoundTrip(updated, stamps, old(store.meta), savedAt);
        }
        lastUpdated := Some(finishedAt);
      }
    }

    /** The debounced auto-save after a deck change: save, then record the time. */
    method AutoSave(dbAvailable: bool, stamps: seq<string>, savedAt: string, finishedAt: string)
      requires Valid() && |stamps| == |deck|
      modifies this, store
      ensures Valid() && deck == old(deck) && current == old(current) && direction == old(direction)
      ensures dbAvailable ==> store.records == Cache.Records(deck, stamps) && lastUpdated == Some(finishedAt)
      ensures dbAvailable ==> store.meta == old(store.meta)[Cache.LastUpdatedKey := Cache.Stamp(savedAt)]
                                                          [Cache.SlideOrderKey := Cache.Order(SlideIds(deck))]
      ensures dbAvailable && DistinctSlideIds(deck) ==>
                Cache.Load(store.records, store.meta) == Cache.Stamped(deck, stamps)
      ensures !dbAvailable ==> unchanged(store) && lastUpdated == old(lastUpdated)
    {
      if dbAvailable {
        store.CacheSlides(deck, stamps, savedAt);
        if DistinctSlideIds(deck) {
          Cache.SaveLoadRoundTrip(deck, stamps, old(store.meta), savedAt);
        }
        lastUpdated := Some(finishedAt);
      }
    }
  }
}
