/**
 * The IndexedDB cache of src/services/cache.ts. The database holds two
 * object stores: `slides`, keyed by `slide_id`, and `meta`, whose keys
 * `lastUpdated` and `slideOrder` hold the save time and the saved deck's
 * ids in order. `SlideStore` keeps both stores as maps that its methods
 * replace; the timestamps `new Date().toISOString()` would produce are
 * parameters.
 */
module Cache {

  import opened Types

  const LastUpdatedKey: string := "lastUpdated"
  const SlideOrderKey: string := "slideOrder"

  /** A value of the `meta` store. */
  datatype MetaValue = Stamp(time: string) | Order(ids: seq<string>)

  /** A slide as `cacheSlides` and `cacheSingleSlide` write it: `last_updated` replaced. */
  function Stamp1(s: SlideData, stamp: string): SlideData {
    s.(last_updated := Some(stamp))
  }

  function Stamped(deck: seq<SlideData>, stamps: seq<string>): (r: seq<SlideData>)
    requires |stamps| == |deck|
    ensures |r| == |deck|
    ensures forall i :: 0 <= i < |deck| ==> r[i] == Stamp1(deck[i], stamps[i])
  {
    seq(|deck|, i requires 0 <= i < |deck| => Stamp1(deck[i], stamps[i]))
  }

  /** The `slides` store after putting the deck's slides, in order, into an empty store. */
  function Records(deck: seq<SlideData>, stamps: seq<string>): map<string, SlideData>
    requires |stamps| == |deck|
  {
    if deck == [] then map[]
    else
      var n := |deck| - 1;
      Records(deck[..n], stamps[..n])[deck[n].slide_id := Stamp1(deck[n], stamps[n])]
  }

  /** The ids of `order` found in `records`, mapped to their records, in order. */
  function Collect(order: seq<string>, records: map<string, SlideData>): (r: seq<SlideData>)
    ensures |r| <= |order|
    ensures (forall i :: 0 <= i < |order| ==> order[i] in records) ==>
              |r| == |order| && forall i :: 0 <= i < |order| ==> r[i] == records[order[i]]
    ensures (exists i :: 0 <= i < |order| && order[i] !in records) ==> |r| < |order|
  {
    if order == [] then []
    else
      var n := |order| - 1;
      assert forall i :: 0 <= i < n ==> order[..n][i] == order[i];
      Collect(order[..n], records) + (if order[n] in records then [records[order[n]]] else [])
  }

  /** `getCachedSlides` on the stores' contents. */
  function Load(records: map<string, SlideData>, meta: map<string, MetaValue>): (r: seq<SlideData>)
    ensures r != [] ==> SlideOrderKey in meta && meta[SlideOrderKey].Order?
                        && |r| == |meta[SlideOrderKey].ids| == |records|
                        && forall i :: 0 <= i < |r| ==>
                             meta[SlideOrderKey].ids[i] in records && r[i] == records[meta[SlideOrderKey].ids[i]]
    ensures SlideOrderKey in meta && meta[SlideOrderKey].Order?
            && (exists i :: 0 <= i < |meta[SlideOrderKey].ids| && meta[SlideOrderKey].ids[i] !in records)
            ==> r == []
    ensures SlideOrderKey in meta && meta[SlideOrderKey].Order?
            && |meta[SlideOrderKey].ids| == |records|
            && (forall i :: 0 <= i < |meta[SlideOrderKey].ids| ==> meta[SlideOrderKey].ids[i] in records)
            ==> r == Collect(meta[SlideOrderKey].ids, records) && |r| == |records|
  {
    if SlideOrderKey !in meta || !meta[SlideOrderKey].Order? then []
    else
      var order := meta[SlideOrderKey].ids;
      if |order| != |records| then []
      else
        var ordered := Collect(order, records);
        if |ordered| == |order| then ordered else []
  }

  /** `getLastUpdated`. */
  function LastUpdated(meta: map<string, MetaValue>): (r: Option<string>)
    ensures r.Some? <==> LastUpdatedKey in meta && meta[LastUpdatedKey].Stamp?
  {
    if LastUpdatedKey in meta && meta[LastUpdatedKey].Stamp? then Some(meta[LastUpdatedKey].time) else None
  }

  class SlideStore {
    /** The `slides` object store, keyed by `slide_id`. */
    var records: map<string, SlideData>
    /** The `meta` object store. */
    var meta: map<string, MetaValue>

    /** A freshly created database: both stores empty. */
    constructor()
      ensures records == map[] && meta == map[]
    {
      records := map[];
      meta := map[];
    }

    /** `cacheSlides`: clear the slides, put each one stamped, then record the save time and order. */
    method CacheSlides(deck: seq<SlideData>, stamps: seq<string>, savedAt: string)
      requires |stamps| == |deck|
      modifies this
      ensures records == Records(deck, stamps)
      ensures meta == old(meta)[LastUpdatedKey := Stamp(savedAt)][SlideOrderKey := Order(SlideIds(deck))]
    {
      records := map[];
      for i := 0 to |deck|
        invariant records == Records(deck[..i], stamps[..i])
        invariant meta == old(meta)
      {
        assert deck[..i + 1][..i] == deck[..i];
        assert stamps[..i + 1][..i] == stamps[..i];
        records := records[deck[i].slide_id := Stamp1(deck[i], stamps[i])];
      }
      assert deck[..|deck|] == deck && stamps[..|stamps|] == stamps;
      meta := meta[LastUpdatedKey := Stamp(savedAt)];
      meta := meta[SlideOrderKey := Order(SlideIds(deck))];
    }

    /** `getCachedSlides`: the slides in saved order, or nothing when the stores disagree. */
    method GetCachedSlides() returns (ordered: seq<SlideData>)
      ensures ordered == Load(records, meta)
    {
      if SlideOrderKey !in meta || !meta[SlideOrderKey].Order? {
        return [];
      }
      var order := meta[SlideOrderKey].ids;
      if |order| != |records| {
        return [];
      }
      ordered := [];
      for i := 0 to |order|
        invariant ordered == Collect(order[..i], records)
      {
        assert order[..i + 1][..i] == order[..i];
        var id := order[i];
        if id in records {
          ordered := ordered + [records[id]];
        }
      }
      assert order[..|order|] == order;
      if |ordered| != |order| {
        ordered := [];
      }
    }

    /** `getLastUpdated`. */
    method GetLastUpdated() returns (t: Option<string>)
      ensures t == LastUpdated(meta)
    {
      if LastUpdatedKey in meta && meta[LastUpdatedKey].Stamp? {
        t := Some(meta[LastUpdatedKey].time);
      } else {
        t := None;
      }
    }

    /** `cacheSingleSlide`: one put, replacing any record with the same id; `meta` untouched. */
    method CacheSingleSlide(s: SlideData, stamp: string)
      modifies this
      ensures records == old(records)[s.slide_id := Stamp1(s, stamp)]
      ensures meta == old(meta)
    {
      records := records[s.slide_id := Stamp1(s, stamp)];
    }

    /** `clearCache`: both stores emptied. */
    method ClearCache()
      modifies this
      ensures records == map[] && meta == map[]
    {
      records := map[];
      meta := map[];
    }
  }

  // ---------------------------------------------------------------------
  // Properties of save and load

  lemma SlideIdsSnoc(deck: seq<SlideData>)
    requires deck != []
    ensures SlideIds(deck) == SlideIds(deck[..|deck| - 1]) + [deck[|deck| - 1].slide_id]
  {
  }

  /** The keys of the saved records are exactly the deck's ids. */
  lemma {:induction false} RecordsKeys(deck: seq<SlideData>, stamps: seq<string>)
    requires |stamps| == |deck|
    ensures Records(deck, stamps).Keys == set x | x in SlideIds(deck)
  {
    if deck != [] {
      var n := |deck| - 1;
      RecordsKeys(deck[..n], stamps[..n]);
      SlideIdsSnoc(deck);
      var front := SlideIds(deck[..n]);
      assert forall x :: x in front + [deck[n].slide_id] <==> x in front || x == deck[n].slide_id;
    }
  }

  lemma DistinctPrefix(deck: seq<SlideData>, n: nat)
    requires DistinctSlideIds(deck) && n <= |deck|
    ensures DistinctSlideIds(deck[..n])
  {
    var front := deck[..n];
    forall i, j | 0 <= i < j < n ensures front[i].slide_id != front[j].slide_id {
      assert front[i] == deck[i] && front[j] == deck[j];
    }
  }

  lemma LastIdIsNew(deck: seq<SlideData>)
    requires DistinctSlideIds(deck) && deck != []
    ensures deck[|deck| - 1].slide_id !in SlideIds(deck[..|deck| - 1])
  {
  }

  /** With distinct ids there is one record per slide, each holding its own stamped slide. */
  lemma {:induction false} RecordsOfDistinct(deck: seq<SlideData>, stamps: seq<string>)
    requires |stamps| == |deck|
    requires DistinctSlideIds(deck)
    ensures |Records(deck, stamps)| == |deck|
    ensures forall i :: 0 <= i < |deck| ==>
              deck[i].slide_id in Records(deck, stamps)
              && Records(deck, stamps)[deck[i].slide_id] == Stamp1(deck[i], stamps[i])
  {
    if deck != [] {
      var n := |deck| - 1;
      var front, frontStamps := deck[..n], stamps[..n];
      DistinctPrefix(deck, n);
      RecordsOfDistinct(front, frontStamps);
      RecordsKeys(front, frontStamps);
      LastIdIsNew(deck);
      var recs := Records(front, frontStamps);
      assert Records(deck, stamps) == recs[deck[n].slide_id := Stamp1(deck[n], stamps[n])];
      forall i | 0 <= i < n
        ensures deck[i].slide_id in Records(deck, stamps)
        ensures Records(deck, stamps)[deck[i].slide_id] == Stamp1(deck[i], stamps[i])
      {
        assert deck[i].slide_id != deck[n].slide_id;
        assert front[i] == deck[i] && frontStamps[i] == stamps[i];
      }
    }
  }

  /** A deck with distinct ids saved by `cacheSlides` loads back as itself, each slide stamped. */
  lemma SaveLoadRoundTrip(deck: seq<SlideData>, stamps: seq<string>, meta: map<string, MetaValue>, savedAt: string)
    requires |stamps| == |deck|
    requires DistinctSlideIds(deck)
    ensures Load(Records(deck, stamps), meta[LastUpdatedKey := Stamp(savedAt)][SlideOrderKey := Order(SlideIds(deck))])
         == Stamped(deck, stamps)
    ensures LastUpdated(meta[LastUpdatedKey := Stamp(savedAt)][SlideOrderKey := Order(SlideIds(deck))]) == Some(savedAt)
  {
    var recs := Records(deck, stamps);
    RecordsOfDistinct(deck, stamps);
    var order := SlideIds(deck);
  }

  /** A set drawn from a sequence is no larger than it, and strictly smaller when an element repeats. */
  lemma {:induction false} SetOfSeqSize(ids: seq<string>)
    ensures |set x | x in ids| <= |ids|
    ensures (exists i, j :: 0 <= i < j < |ids| && ids[i] == ids[j]) ==> |set x | x in ids| < |ids|
  {
    if ids != [] {
      var n := |ids| - 1;
      SetOfSeqSize(ids[..n]);
      var front := set x | x in ids[..n];
      assert (set x | x in ids) == front + {ids[n]} by {
        assert forall x :: x in ids <==> x in ids[..n] || x == ids[n];
      }
      if exists i, j :: 0 <= i < j < |ids| && ids[i] == ids[j] {
        var i, j :| 0 <= i < j < |ids| && ids[i] == ids[j];
        if j == n {
          assert ids[n] in front by { assert ids[..n][i] == ids[n]; }
        } else {
          assert ids[..n][i] == ids[..n][j];
        }
      }
    }
  }

  /** A deck with a repeated id never loads back: the store keeps fewer records than the order names. */
  lemma DuplicateIdsDefeatLoad(deck: seq<SlideData>, stamps: seq<string>, meta: map<string, MetaValue>)
    requires |stamps| == |deck|
    requires !DistinctSlideIds(deck)
    ensures Load(Records(deck, stamps), meta[SlideOrderKey := Order(SlideIds(deck))]) == []
  {
    var recs := Records(deck, stamps);
    var ids := SlideIds(deck);
    RecordsKeys(deck, stamps);
    var i, j :| 0 <= i < j < |deck| && deck[i].slide_id == deck[j].slide_id;
    assert ids[i] == ids[j];
    SetOfSeqSize(ids);
  }

  /** Re-caching one slide of a saved deck replaces it in place on the next load. */
  lemma SingleSlideReplacesInPlace(deck: seq<SlideData>, stamps: seq<string>, meta: map<string, MetaValue>,
                                   k: nat, s: SlideData, stamp: string)
    requires |stamps| == |deck| && DistinctSlideIds(deck)
    requires k < |deck| && s.slide_id == deck[k].slide_id
    ensures Load(Records(deck, stamps)[s.slide_id := Stamp1(s, stamp)], meta[SlideOrderKey := Order(SlideIds(deck))])
         == Stamped(deck, stamps)[k := Stamp1(s, stamp)]
  {
    var recs := Records(deck, stamps);
    RecordsOfDistinct(deck, stamps);
    var recs' := recs[s.slide_id := Stamp1(s, stamp)];
    assert |recs'| == |deck|;
    var order := SlideIds(deck);
    var r := Collect(order, recs');
    var want := Stamped(deck, stamps)[k := Stamp1(s, stamp)];
    assert |r| == |want|;
    forall i | 0 <= i < |deck| ensures r[i] == want[i] {
      if i != k {
        assert deck[i].slide_id != deck[k].slide_id;
      }
    }
  }

  /** Caching one slide whose id the saved order lacks makes the next load come back empty. */
  lemma SingleNewSlideDefeatsLoad(deck: seq<SlideData>, stamps: seq<string>, meta: map<string, MetaValue>,
                                  s: SlideData, stamp: string)
    requires |stamps| == |deck| && DistinctSlideIds(deck)
    requires s.slide_id !in SlideIds(deck)
    ensures Load(Records(deck, stamps)[s.slide_id := Stamp1(s, stamp)], meta[SlideOrderKey := Order(SlideIds(deck))])
         == []
  {
    RecordsOfDistinct(deck, stamps);
    RecordsKeys(deck, stamps);
  }

  /**
   * The count check does not catch every repeated id: a deck `[a, a', b]`
   * whose first two slides share an id saves two records, and a later
   * single-slide cache of a third id `c` evens the counts, so the next load
   * returns the second copy twice and never the slide `c`.
   */
  lemma RepeatedIdLoadsAfterStrayRecord(a: SlideData, a': SlideData, b: SlideData, c: SlideData,
                                        stamps: seq<string>, stamp: string, meta: map<string, MetaValue>)
    requires |stamps| == 3
    requires a'.slide_id == a.slide_id && a.slide_id != b.slide_id
    requires c.slide_id != a.slide_id && c.slide_id != b.slide_id
    ensures Load(Records([a, a', b], stamps)[c.slide_id := Stamp1(c, stamp)],
                 meta[SlideOrderKey := Order(SlideIds([a, a', b]))])
         == [Stamp1(a', stamps[1]), Stamp1(a', stamps[1]), Stamp1(b, stamps[2])]
  {
    var recs := Records([a, a', b], stamps)[c.slide_id := Stamp1(c, stamp)];
    StrayRecordCount(a, a', b, c, stamps, stamp);
    LoadOfRepeatedOrder(recs, meta[SlideOrderKey := Order(SlideIds([a, a', b]))], a.slide_id, b.slide_id);
  }

  lemma StrayRecordCount(a: SlideData, a': SlideData, b: SlideData, c: SlideData, stamps: seq<string>, stamp: string)
    requires |stamps| == 3
    requires a'.slide_id == a.slide_id && a.slide_id != b.slide_id
    requires c.slide_id != a.slide_id && c.slide_id != b.slide_id
    ensures var recs := Records([a, a', b], stamps)[c.slide_id := Stamp1(c, stamp)];
            a.slide_id in recs && b.slide_id in recs && |recs| == 3
            && recs[a.slide_id] == Stamp1(a', stamps[1]) && recs[b.slide_id] == Stamp1(b, stamps[2])
    ensures SlideIds([a, a', b]) == [a.slide_id, a.slide_id, b.slide_id]
  {
    RecordsWithRepeat(a, a', b, stamps);
    var recs := Records([a, a', b], stamps)[c.slide_id := Stamp1(c, stamp)];
    assert recs.Keys == {a.slide_id, b.slide_id, c.slide_id};
  }

  lemma LoadOfRepeatedOrder(records: map<string, SlideData>, meta: map<string, MetaValue>, x: string, y: string)
    requires x in records && y in records && |records| == 3
    requires SlideOrderKey in meta && meta[SlideOrderKey] == Order([x, x, y])
    ensures Load(records, meta) == [records[x], records[x], records[y]]
  {
    CollectRepeat(x, y, records);
  }

  /** Saving `[a, a', b]` where `a'` repeats the id of `a`: two records, the later copy kept. */
  lemma RecordsWithRepeat(a: SlideData, a': SlideData, b: SlideData, stamps: seq<string>)
    requires |stamps| == 3
    requires a'.slide_id == a.slide_id
    ensures Records([a, a', b], stamps)
         == map[a.slide_id := Stamp1(a', stamps[1])][b.slide_id := Stamp1(b, stamps[2])]
  {
    var deck := [a, a', b];
    assert deck[..2] == [a, a'] && deck[..2][..1] == [a] && [a][..0] == [];
    var s2 := stamps[..2];
    assert s2[..1] == [stamps[0]] && [stamps[0]][..0] == [];
    assert Records([], []) == map[];
    assert Records([a], [stamps[0]]) == map[a.slide_id := Stamp1(a, stamps[0])];
    assert Records([a, a'], s2) == map[a.slide_id := Stamp1(a', stamps[1])];
  }

  lemma CollectRepeat(x: string, y: string, records: map<string, SlideData>)
    requires x in records && y in records
    ensures Collect([x, x, y], records) == [records[x], records[x], records[y]]
  {
    assert [x, x, y][..2] == [x, x] && [x, x][..1] == [x] && [x][..0] == [];
    assert Collect([], records) == [];
    assert Collect([x], records) == [records[x]];
    assert Collect([x, x], records) == [records[x], records[x]];
  }

  /** After `clearCache` nothing loads and there is no save time. */
  lemma ClearedStoreLoadsNothing()
    ensures Load(map[], map[]) == [] && LastUpdated(map[]) == None
  {
  }
}
