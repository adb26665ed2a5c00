/**
 * The record types shared by every part of the presentation: slides, their
 * evidence citations, quiz questions and parsed PubMed summaries.
 */
module Types {

  datatype Option<T> = None | Some(value: T)

  /** `Math.min` on integers. */
  function Min(a: int, b: int): int {
    if a <= b then a else b
  }

  datatype EvidenceConfidence = High | Medium | Low

  datatype LayoutHint = ImageLeft | ImageRight

  /** Whether a citation id is a PubMed id or a DOI. */
  datatype CitationType = Pmid | Doi

  /** A year is either a number (CrossRef, curated data) or text (PubMed). */
  datatype Year = YearNumber(n: int) | YearText(text: string)

  datatype Citation = Citation(
    id: string,
    kind: CitationType,
    title: string,
    authors: string,
    journal: string,
    year: Year,
    url: string)

  datatype SlideData = SlideData(
    slide_id: string,
    title: string,
    layout_hint: LayoutHint,
    image_queries: seq<string>,
    bullets: seq<string>,
    speaker_notes: string,
    citations_query: string,
    citations: seq<Citation>,
    evidence_confidence: EvidenceConfidence,
    exportable_graphics: bool,
    image_alt: string,
    link: Option<string>,
    last_updated: Option<string>,
    reviewed_by: Option<string>)

  datatype QuizQuestion = QuizQuestion(
    id: string,
    question: string,
    options: seq<string>,
    correctIndex: int,
    explanation: string,
    empathetic_response: Option<string>)

  datatype PubMedArticle = PubMedArticle(
    pmid: string,
    title: string,
    authors: string,
    journal: string,
    year: string,
    doi: Option<string>,
    abstract_text: Option<string>)

  /** The set of citation ids in a list. */
  function CitationIds(cs: seq<Citation>): set<string> {
    set c | c in cs :: c.id
  }

  /** No two citations of the list share an id. */
  predicate DistinctCitationIds(cs: seq<Citation>) {
    forall i, j :: 0 <= i < j < |cs| ==> cs[i].id != cs[j].id
  }

  /** The slide ids of a deck, in deck order. */
  function SlideIds(deck: seq<SlideData>): (ids: seq<string>)
    ensures |ids| == |deck|
    ensures forall i :: 0 <= i < |deck| ==> ids[i] == deck[i].slide_id
  {
    seq(|deck|, i requires 0 <= i < |deck| => deck[i].slide_id)
  }

  /** No two slides of the deck share an id. */
  predicate DistinctSlideIds(deck: seq<SlideData>) {
    forall i, j :: 0 <= i < j < |deck| ==> deck[i].slide_id != deck[j].slide_id
  }
}
