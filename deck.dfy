/**
 * The deck edits of src/App.tsx as functions on the slide list: overriding
 * fields of one slide, inserting a blank or duplicated slide after the
 * current one, deleting the current slide, the navigation guard, and the
 * evidence refresh that rewrites every slide with a citation query.
 */
module Deck {

  import opened Types
  import PubMed

  /** Which way the slide transition animates. */
  datatype Direction = Next | Prev

  /** A `Partial<SlideData>`: `Some` fields override the slide's, `None` fields keep it. */
  datatype SlidePatch = SlidePatch(
    slide_id: Option<string>,
    title: Option<string>,
    layout_hint: Option<LayoutHint>,
    image_queries: Option<seq<string>>,
    bullets: Option<seq<string>>,
    speaker_notes: Option<string>,
    citations_query: Option<string>,
    citations: Option<seq<Citation>>,
    evidence_confidence: Option<EvidenceConfidence>,
    exportable_graphics: Option<bool>,
    image_alt: Option<string>,
    link: Option<Option<string>>,
    last_updated: Option<Option<string>>,
    reviewed_by: Option<Option<string>>)

  const EmptyPatch: SlidePatch :=
    SlidePatch(None, None, None, None, None, None, None, None, None, None, None, None, None, None)

  function Pick<T>(current: T, update: Option<T>): T {
    if update.Some? then update.value else current
  }

  /** `{ ...s, ...u }`. */
  function ApplyPatch(s: SlideData, u: SlidePatch): SlideData {
    SlideData(
      Pick(s.slide_id, u.slide_id),
      Pick(s.title, u.title),
      Pick(s.layout_hint, u.layout_hint),
      Pick(s.image_queries, u.image_queries),
      Pick(s.bullets, u.bullets),
      Pick(s.speaker_notes, u.speaker_notes),
      Pick(s.citations_query, u.citations_query),
      Pick(s.citations, u.citations),
      Pick(s.evidence_confidence, u.evidence_confidence),
      Pick(s.exportable_graphics, u.exportable_graphics),
      Pick(s.image_alt, u.image_alt),
      Pick(s.link, u.link),
      Pick(s.last_updated, u.last_updated),
      Pick(s.reviewed_by, u.reviewed_by))
  }

  function PickLater<T>(first: Option<T>, second: Option<T>): Option<T> {
    if second.Some? then second else first
  }

  /** `{ ...u, ...v }`: the later patch wins field by field. */
  function CombinePatches(u: SlidePatch, v: SlidePatch): SlidePatch {
    SlidePatch(
      PickLater(u.slide_id, v.slide_id),
      PickLater(u.title, v.title),
      PickLater(u.layout_hint, v.layout_hint),
      PickLater(u.image_queries, v.image_queries),
      PickLater(u.bullets, v.bullets),
      PickLater(u.speaker_notes, v.speaker_notes),
      PickLater(u.citations_query, v.citations_query),
      PickLater(u.citations, v.citations),
      PickLater(u.evidence_confidence, v.evidence_confidence),
      PickLater(u.exportable_graphics, v.exportable_graphics),
      PickLater(u.image_alt, v.image_alt),
      PickLater(u.link, v.link),
      PickLater(u.last_updated, v.last_updated),
      PickLater(u.reviewed_by, v.reviewed_by))
  }

  /** An empty update changes nothing; an update applied twice is applied once; two updates compose. */
  lemma PatchLaws(s: SlideData, u: SlidePatch, v: SlidePatch)
    ensures ApplyPatch(s, EmptyPatch) == s
    ensures ApplyPatch(ApplyPatch(s, u), u) == ApplyPatch(s, u)
    ensures ApplyPatch(ApplyPatch(s, u), v) == ApplyPatch(s, CombinePatches(u, v))
  {
  }

  /** `handleUpdateSlide(index, updates)`: the slide at `index` takes the update, no other slide changes. */
  function UpdateAt(deck: seq<SlideData>, index: int, u: SlidePatch): (r: seq<SlideData>)
    requires 0 <= index < |deck|
    ensures |r| == |deck|
    ensures r[index] == ApplyPatch(deck[index], u)
    ensures forall j :: 0 <= j < |deck| && j != index ==> r[j] == deck[j]
  {
    deck[index := ApplyPatch(deck[index], u)]
  }

  /** An update that leaves `slide_id` alone keeps the deck's ids, so distinct ids stay distinct. */
  lemma UpdateKeepsIds(deck: seq<SlideData>, index: int, u: SlidePatch)
    requires 0 <= index < |deck|
    requires u.slide_id.None?
    ensures SlideIds(UpdateAt(deck, index, u)) == SlideIds(deck)
    ensures DistinctSlideIds(deck) ==> DistinctSlideIds(UpdateAt(deck, index, u))
  {
  }

  /** `copy.splice(pos, 0, s)`: `s` is inserted at `pos`, clamped to the end. */
  function Splice(deck: seq<SlideData>, pos: nat, s: SlideData): (r: seq<SlideData>)
    ensures |r| == |deck| + 1
    ensures r[Min(pos, |deck|)] == s
    ensures forall j :: 0 <= j < Min(pos, |deck|) ==> r[j] == deck[j]
    ensures forall j :: Min(pos, |deck|) < j < |r| ==> r[j] == deck[j - 1]
  {
    var p := Min(pos, |deck|);
    deck[..p] + [s] + deck[p..]
  }

  /** `prev.filter((_, i) => i !== index)`. */
  function RemoveAt(deck: seq<SlideData>, index: int): (r: seq<SlideData>)
    ensures 0 <= index < |deck| ==> |r| == |deck| - 1
    ensures 0 <= index < |deck| ==> forall j :: 0 <= j < |r| ==> r[j] == if j < index then deck[j] else deck[j + 1]
    ensures !(0 <= index < |deck|) ==> r == deck
  {
    if 0 <= index < |deck| then deck[..index] + deck[index + 1..] else deck
  }

  /** Removing what was just inserted gives back the deck. */
  lemma RemoveUndoesSplice(deck: seq<SlideData>, pos: nat, s: SlideData)
    requires pos <= |deck|
    ensures RemoveAt(Splice(deck, pos, s), pos) == deck
  {
    var r := RemoveAt(Splice(deck, pos, s), pos);
    assert forall j :: 0 <= j < |deck| ==> r[j] == deck[j];
  }

  /** The slide `handleAddSlide` creates; its id `slide_<Date.now()>` is supplied. */
  function BlankSlide(id: string): (s: SlideData)
    ensures s.slide_id == id && |s.bullets| == 1 && s.citations == [] && s.citations_query == ""
  {
    SlideData(
      id, "New Slide — Click to Edit", ImageRight, [], ["Click to add your first point"],
      "", "", [], Medium, false, "Slide image", None, None, None)
  }

  /** `handleAddSlide`: a blank slide right after the current one. */
  function AddAfter(deck: seq<SlideData>, current: nat, id: string): (r: seq<SlideData>)
    requires current < |deck|
    ensures |r| == |deck| + 1 && r[current + 1] == BlankSlide(id)
    ensures r[..current + 1] == deck[..current + 1] && r[current + 2..] == deck[current + 1..]
  {
    var r := Splice(deck, current + 1, BlankSlide(id));
    assert r[..current + 1] == deck[..current + 1];
    assert r[current + 2..] == deck[current + 1..];
    r
  }

  /** `handleDuplicateSlide`: a copy of the current slide, under a new id, right after it. */
  function DuplicateAfter(deck: seq<SlideData>, current: nat, id: string): (r: seq<SlideData>)
    requires current < |deck|
    ensures |r| == |deck| + 1 && r[current + 1] == deck[current].(slide_id := id)
    ensures r[..current + 1] == deck[..current + 1] && r[current + 2..] == deck[current + 1..]
  {
    var r := Splice(deck, current + 1, deck[current].(slide_id := id));
    assert r[..current + 1] == deck[..current + 1];
    assert r[current + 2..] == deck[current + 1..];
    r
  }

  /** Inserting a slide whose id the deck does not use keeps the ids distinct. */
  lemma SpliceKeepsDistinctIds(deck: seq<SlideData>, pos: nat, s: SlideData)
    requires DistinctSlideIds(deck)
    requires s.slide_id !in SlideIds(deck)
    ensures DistinctSlideIds(Splice(deck, pos, s))
  {
    var r := Splice(deck, pos, s);
    var p := Min(pos, |deck|);
    forall i, j | 0 <= i < j < |r| ensures r[i].slide_id != r[j].slide_id {
      if i == p {
        assert r[j].slide_id == SlideIds(deck)[j - 1];
      } else if j == p {
        assert r[i].slide_id == SlideIds(deck)[i];
      }
    }
  }

  /** Adding or duplicating with a fresh id keeps the deck's ids distinct. */
  lemma InsertionsKeepDistinctIds(deck: seq<SlideData>, current: nat, id: string)
    requires current < |deck|
    requires DistinctSlideIds(deck) && id !in SlideIds(deck)
    ensures DistinctSlideIds(AddAfter(deck, current, id))
    ensures DistinctSlideIds(DuplicateAfter(deck, current, id))
  {
    SpliceKeepsDistinctIds(deck, current + 1, BlankSlide(id));
    SpliceKeepsDistinctIds(deck, current + 1, deck[current].(slide_id := id));
  }

  /** `Math.min(prev, slides.length - 2)`: the slide shown after deleting the current one. */
  function IndexAfterDelete(current: int, length: int): (r: int)
    ensures r <= current && r <= length - 2
    ensures r == current || r == length - 2
  {
    Min(current, length - 2)
  }

  /**
   * Deleting the current slide of a deck of two or more shows the slide that
   * followed it, or, when the last slide was deleted, the one before it.
   */
  lemma DeleteShowsNeighbour(deck: seq<SlideData>, current: nat)
    requires 2 <= |deck| && current < |deck|
    ensures 0 <= IndexAfterDelete(current, |deck|) < |RemoveAt(deck, current)|
    ensures current < |deck| - 1 ==>
              RemoveAt(deck, current)[IndexAfterDelete(current, |deck|)] == deck[current + 1]
    ensures current == |deck| - 1 ==>
              RemoveAt(deck, current)[IndexAfterDelete(current, |deck|)] == deck[current - 1]
  {
  }

  /** Deleting keeps the ids of the other slides distinct. */
  lemma RemoveKeepsDistinctIds(deck: seq<SlideData>, index: int)
    requires DistinctSlideIds(deck)
    ensures DistinctSlideIds(RemoveAt(deck, index))
  {
    var r := RemoveAt(deck, index);
    if 0 <= index < |deck| {
      forall i, j | 0 <= i < j < |r| ensures r[i].slide_id != r[j].slide_id {
        var i' := if i < index then i else i + 1;
        var j' := if j < index then j else j + 1;
        assert r[i] == deck[i'] && r[j] == deck[j'];
      }
    }
  }

  /** `goTo(target)`: the guard that ignores a target outside the deck. */
  function NavTarget(length: int, current: int, target: int): (r: int)
    ensures r == target <==> (0 <= target < length || target == current)
    ensures !(0 <= target < length) ==> r == current
    ensures 0 <= current < length ==> 0 <= r < length
  {
    if target < 0 || target >= length then current else target
  }

  // ---------------------------------------------------------------------
  // Evidence refresh

  /** What one slide's PubMed lookup returned, and the time it finished. */
  datatype Lookup = Lookup(
    search: PubMed.Response<Option<seq<string>>>,
    summaries: PubMed.Response<Option<map<string, PubMed.SummaryRecord>>>,
    stamp: string)

  /** One slide of `refreshEvidence`: untouched without a query, otherwise new citations and a stamp. */
  function RefreshedSlide(s: SlideData, l: Lookup): (r: SlideData)
    ensures r.slide_id == s.slide_id
    ensures s.citations_query == "" ==> r == s
    ensures s.citations_query != "" ==>
              r == s.(citations := r.citations, last_updated := Some(l.stamp))
              && r.citations == PubMed.CitationsForSlide(s.citations_query, s.citations, l.search, l.summaries)
              && |r.citations| <= PubMed.MaxCitations
              && (DistinctCitationIds(s.citations) ==> DistinctCitationIds(r.citations))
  {
    if s.citations_query == "" then s
    else
      PubMed.CitationsForSlideBounded(s.citations_query, s.citations, l.search, l.summaries);
      s.(citations := PubMed.CitationsForSlide(s.citations_query, s.citations, l.search, l.summaries),
         last_updated := Some(l.stamp))
  }

  /** `refreshEvidence`: every slide refreshed in place, order and ids kept. */
  function RefreshedDeck(deck: seq<SlideData>, lookups: seq<Lookup>): (r: seq<SlideData>)
    requires |lookups| == |deck|
    ensures |r| == |deck|
    ensures SlideIds(r) == SlideIds(deck)
    ensures forall i :: 0 <= i < |deck| && deck[i].citations_query == "" ==> r[i] == deck[i]
    ensures forall i :: 0 <= i < |deck| && deck[i].citations_query != "" ==>
              r[i] == deck[i].(citations := r[i].citations, last_updated := Some(lookups[i].stamp))
              && r[i].citations == PubMed.CitationsForSlide(deck[i].citations_query, deck[i].citations,
                                                             lookups[i].search, lookups[i].summaries)
              && |r[i].citations| <= PubMed.MaxCitations
              && (DistinctCitationIds(deck[i].citations) ==> DistinctCitationIds(r[i].citations))
  {
    seq(|deck|, i requires 0 <= i < |deck| => RefreshedSlide(deck[i], lookups[i]))
  }

  /** The refresh keeps distinct slide ids distinct. */
  lemma RefreshKeepsDistinctIds(deck: seq<SlideData>, lookups: seq<Lookup>)
    requires |lookups| == |deck|
    requires DistinctSlideIds(deck)
    ensures DistinctSlideIds(RefreshedDeck(deck, lookups))
  {
    var r := RefreshedDeck(deck, lookups);
    forall i, j | 0 <= i < j < |r| ensures r[i].slide_id != r[j].slide_id {
      assert r[i].slide_id == SlideIds(r)[i] == SlideIds(deck)[i];
      assert r[j].slide_id == SlideIds(r)[j] == SlideIds(deck)[j];
    }
  }

  // ---------------------------------------------------------------------
  // Navigation after an insertion

  /**
   * As written, the 50 ms `goTo(currentSlide + 1)` after an insertion uses
   * the guard of the render that scheduled it, whose deck length is the old
   * one: on the last slide the new slide is out of range and the view stays.
   */
  function IndexAfterInsertAsWritten(lengthBefore: nat, current: nat): (r: int)
    ensures current + 1 < lengthBefore ==> r == current + 1
    ensures current + 1 >= lengthBefore ==> r == current
  {
    NavTarget(lengthBefore, current, current + 1)
  }

  /** The evidently intended navigation: the guard sees the deck with the new slide. */
  function IndexAfterInsert(lengthBefore: nat, current: nat): (r: int)
    requires current < lengthBefore
    ensures r == current + 1 && r < lengthBefore + 1
  {
    NavTarget(lengthBefore + 1, current, current + 1)
  }

  /** Adding on the last slide of a one-slide deck: the new slide is at 1, the view stays at 0. */
  lemma StaleNavigationOnLastSlide(deck: seq<SlideData>, id: string)
    requires |deck| == 1
    ensures AddAfter(deck, 0, id)[1] == BlankSlide(id)
    ensures IndexAfterInsertAsWritten(|deck|, 0) == 0
    ensures IndexAfterInsert(|deck|, 0) == 1
  {
  }

  /** With the intended navigation, the view lands on the inserted slide wherever it was added. */
  lemma InsertThenShowsNewSlide(deck: seq<SlideData>, current: nat, id: string)
    requires current < |deck|
    ensures AddAfter(deck, current, id)[IndexAfterInsert(|deck|, current)] == BlankSlide(id)
    ensures DuplicateAfter(deck, current, id)[IndexAfterInsert(|deck|, current)]
         == deck[current].(slide_id := id)
    ensures current < |deck| - 1 ==> IndexAfterInsertAsWritten(|deck|, current) == IndexAfterInsert(|deck|, current)
  {
  }
}
