/**
 * The citation resolver of src/services/pubmed.ts: normalising parsed
 * PubMed and CrossRef records into citations, and merging live PubMed
 * citations into a slide's curated list (existing entries first, a live
 * entry only when its id is unseen, the whole list capped at 10).
 *
 * Network exchanges are inputs: a `Response` is what one request produced,
 * already parsed from JSON. `Failed` stands for a thrown `fetch`, a non-ok
 * status and a body that does not parse; the source treats all three alike.
 */
module PubMed {

  import opened Types
  import opened Strings

  /** `merged.slice(0, 10)`: the cap on a refreshed citation list. */
  const MaxCitations: nat := 10

  const PubMedUrlPrefix: string := "https://pubmed.ncbi.nlm.nih.gov/"
  const DoiUrlPrefix: string := "https://doi.org/"
  const EtAl: string := " et al."
  const AuthorSeparator: string := ", "

  /** How many authors are named before " et al.". */
  const NamedAuthors: nat := 3

  datatype Response<T> = Failed | Ok(body: T)

  // ---------------------------------------------------------------------
  // PubMed search and summaries

  /** `searchPubMed`: the `idlist` of the esearch reply, or nothing. */
  function SearchPubMed(query: string, reply: Response<Option<seq<string>>>): (ids: seq<string>)
    ensures query == "" || reply.Failed? ==> ids == []
    ensures query != "" && reply.Ok? && reply.body.Some? ==> ids == reply.body.value
    ensures reply.Ok? && reply.body.None? ==> ids == []
  {
    if query == "" then []
    else match reply
      case Failed => []
      case Ok(idlist) => if idlist.Some? then idlist.value else []
  }

  /** One entry of the esummary `result` object, with every field optional. */
  datatype SummaryRecord = SummaryRecord(
    title: Option<string>,
    authorNames: Option<seq<string>>,
    source: Option<string>,
    pubdate: Option<string>,
    elocationid: Option<string>)

  /** `slice(0, 3).map(name).join(', ')` followed by " et al." when there are more than three. */
  function AuthorList(names: seq<string>): string {
    Join(names[..Min(NamedAuthors, |names|)], AuthorSeparator)
      + (if |names| > NamedAuthors then EtAl else "")
  }

  /**
   * The authors line exactly as the source computes it. When the record has
   * no author list, the optional chain yields `undefined`, and
   * `undefined + ''` is the text "undefined"; the `?? ''` after it never applies.
   */
  function AuthorsLineAsWritten(names: Option<seq<string>>): (line: string)
    ensures names.None? ==> line == "undefined"
    ensures names.Some? ==> line == AuthorList(names.value)
  {
    match names
    case None => "undefined"
    case Some(ns) => AuthorList(ns)
  }

  /** The authors line the `?? ''` fallback evidently intends: empty when there is no list. */
  function AuthorsLine(names: Option<seq<string>>): (line: string)
    ensures names.None? ==> line == ""
    ensures names.Some? && |names.value| <= NamedAuthors ==> line == Join(names.value, AuthorSeparator)
    ensures names.Some? && |names.value| > NamedAuthors
            ==> line == Join(names.value[..NamedAuthors], AuthorSeparator) + EtAl
  {
    match names
    case None => ""
    case Some(ns) => (assert |ns| <= NamedAuthors ==> ns[..|ns|] == ns; AuthorList(ns))
  }

  /** The missing-author case: the source writes "undefined" where an empty line is meant. */
  lemma AuthorsLineMissingList()
    ensures AuthorsLineAsWritten(None) == "undefined"
    ensures AuthorsLine(None) == ""
    ensures forall ns :: AuthorsLineAsWritten(Some(ns)) == AuthorsLine(Some(ns))
  {
  }

  function OrEmpty(s: Option<string>): string {
    if s.Some? then s.value else ""
  }

  /** The article built from the record for `pmid`. */
  function ToArticle(pmid: string, rec: SummaryRecord): (a: PubMedArticle)
    ensures a.pmid == pmid
    ensures a.title == OrEmpty(rec.title) && a.journal == OrEmpty(rec.source)
    ensures a.authors == AuthorsLine(rec.authorNames)
    ensures ' ' !in a.year
    ensures rec.pubdate.Some? ==> |a.year| <= |rec.pubdate.value| && a.year == rec.pubdate.value[..|a.year|]
    ensures rec.pubdate.Some? ==> a.year == FirstToken(rec.pubdate.value)
    ensures rec.pubdate.None? ==> a.year == ""
    ensures rec.elocationid.None? ==> a.doi == Some("")
    ensures rec.elocationid.Some? ==> a.doi == Some(ReplaceFirst(rec.elocationid.value, "doi: ", ""))
    ensures a.abstract_text.None?
  {
    PubMedArticle(
      pmid,
      OrEmpty(rec.title),
      AuthorsLine(rec.authorNames),
      OrEmpty(rec.source),
      if rec.pubdate.Some? then FirstToken(rec.pubdate.value) else "",
      Some(if rec.elocationid.Some? then ReplaceFirst(rec.elocationid.value, "doi: ", "") else ""),
      None)
  }

  /** `pmids.filter(id => result[id]).map(...)`: requested order, unknown ids dropped. */
  function SummariesInOrder(pmids: seq<string>, result: map<string, SummaryRecord>): (arts: seq<PubMedArticle>)
    ensures |arts| <= |pmids|
    ensures forall i :: 0 <= i < |arts| ==> arts[i].pmid in result && arts[i].pmid in pmids
    ensures forall i :: 0 <= i < |arts| ==> arts[i] == ToArticle(arts[i].pmid, result[arts[i].pmid])
  {
    if pmids == [] then []
    else
      var rest := SummariesInOrder(pmids[1..], result);
      if pmids[0] in result then [ToArticle(pmids[0], result[pmids[0]])] + rest else rest
  }

  /** The filter-and-map works id by id: the articles of `a + b` are those of `a` followed by those of `b`. */
  lemma {:induction false} SummariesAppend(a: seq<string>, b: seq<string>, result: map<string, SummaryRecord>)
    ensures SummariesInOrder(a + b, result) == SummariesInOrder(a, result) + SummariesInOrder(b, result)
  {
    if a != [] {
      assert (a + b)[1..] == a[1..] + b;
      SummariesAppend(a[1..], b, result);
    } else {
      assert a + b == b;
    }
  }

  /** A single requested id gives its article when the reply has a record for it, and nothing otherwise. */
  lemma SummariesOfOne(pmid: string, result: map<string, SummaryRecord>)
    ensures pmid in result ==> SummariesInOrder([pmid], result) == [ToArticle(pmid, result[pmid])]
    ensures pmid !in result ==> SummariesInOrder([pmid], result) == []
  {
    assert [pmid][1..] == [];
  }

  /** When every requested id has a record, the articles follow the requested ids one for one. */
  lemma {:induction false} SummariesAllPresent(pmids: seq<string>, result: map<string, SummaryRecord>)
    requires forall i :: 0 <= i < |pmids| ==> pmids[i] in result
    ensures |SummariesInOrder(pmids, result)| == |pmids|
    ensures forall i :: 0 <= i < |pmids| ==> SummariesInOrder(pmids, result)[i].pmid == pmids[i]
  {
    if pmids != [] {
      SummariesAllPresent(pmids[1..], result);
    }
  }

  /** When no requested id has a record, there are no articles. */
  lemma {:induction false} SummariesNonePresent(pmids: seq<string>, result: map<string, SummaryRecord>)
    requires forall i :: 0 <= i < |pmids| ==> pmids[i] !in result
    ensures SummariesInOrder(pmids, result) == []
  {
    if pmids != [] {
      SummariesNonePresent(pmids[1..], result);
    }
  }

  /** `fetchPubMedSummaries`: nothing for no ids, a failed exchange or a reply without `result`. */
  function FetchPubMedSummaries(pmids: seq<string>, reply: Response<Option<map<string, SummaryRecord>>>)
    : (arts: seq<PubMedArticle>)
    ensures pmids == [] || reply.Failed? || (reply.Ok? && reply.body.None?) ==> arts == []
    ensures reply.Ok? && reply.body.Some? ==> arts == SummariesInOrder(pmids, reply.body.value)
  {
    if |pmids| == 0 then []
    else match reply
      case Failed => []
      case Ok(None) => []
      case Ok(Some(result)) => SummariesInOrder(pmids, result)
  }

  /** The citation a PubMed article becomes in `fetchCitationsForSlide`. */
  function ArticleCitation(a: PubMedArticle): (c: Citation)
    ensures c.id == a.pmid && c.kind == Pmid
    ensures c.url == PubMedUrlPrefix + a.pmid + "/"
    ensures c.title == a.title && c.authors == a.authors && c.journal == a.journal
    ensures c.year == YearText(a.year)
  {
    Citation(a.pmid, Pmid, a.title, a.authors, a.journal, YearText(a.year), PubMedUrlPrefix + a.pmid + "/")
  }

  function ArticleCitations(arts: seq<PubMedArticle>): (cs: seq<Citation>)
    ensures |cs| == |arts|
    ensures forall i :: 0 <= i < |arts| ==> cs[i] == ArticleCitation(arts[i])
  {
    seq(|arts|, i requires 0 <= i < |arts| => ArticleCitation(arts[i]))
  }

  // ---------------------------------------------------------------------
  // CrossRef

  datatype CrossRefAuthor = CrossRefAuthor(family: string, given: Option<string>)

  /** One `message.items` entry; `published` holds `date-parts` when present. */
  datatype CrossRefItem = CrossRefItem(
    doi: string,
    title: Option<seq<string>>,
    author: Option<seq<CrossRefAuthor>>,
    containerTitle: Option<seq<string>>,
    datePartsOfPublished: Option<seq<seq<int>>>)

  /** `list?.[0] ?? ''`. */
  function FirstOrEmpty(list: Option<seq<string>>): string {
    if list.Some? && |list.value| > 0 then list.value[0] else ""
  }

  /** `` `${family} ${given?.[0] ?? ''}`.trim() ``. */
  function CrossRefAuthorName(a: CrossRefAuthor): string {
    var initial := if a.given.Some? && |a.given.value| > 0 then [a.given.value[0]] else "";
    Trim(a.family + " " + initial)
  }

  function CrossRefAuthorNames(authors: seq<CrossRefAuthor>): (names: seq<string>)
    ensures |names| == |authors|
    ensures forall i :: 0 <= i < |authors| ==> names[i] == CrossRefAuthorName(authors[i])
  {
    seq(|authors|, i requires 0 <= i < |authors| => CrossRefAuthorName(authors[i]))
  }

  /** The item's authors line, with the same missing-list correction as `AuthorsLine`. */
  function CrossRefAuthorsLine(author: Option<seq<CrossRefAuthor>>): string {
    AuthorsLine(if author.Some? then Some(CrossRefAuthorNames(author.value)) else None)
  }

  /** `published?.['date-parts']?.[0]?.[0] ?? ''`. */
  function CrossRefYear(dateParts: Option<seq<seq<int>>>): (y: Year)
    ensures dateParts.Some? && |dateParts.value| > 0 && |dateParts.value[0]| > 0
            ==> y == YearNumber(dateParts.value[0][0])
    ensures !(dateParts.Some? && |dateParts.value| > 0 && |dateParts.value[0]| > 0) ==> y == YearText("")
  {
    if dateParts.Some? && |dateParts.value| > 0 && |dateParts.value[0]| > 0
    then YearNumber(dateParts.value[0][0])
    else YearText("")
  }

  /** The citation a CrossRef item becomes. */
  function CrossRefCitation(item: CrossRefItem): (c: Citation)
    ensures c.id == item.doi && c.kind == Doi
    ensures c.url == DoiUrlPrefix + item.doi
    ensures c.title == FirstOrEmpty(item.title) && c.journal == FirstOrEmpty(item.containerTitle)
    ensures c.authors == CrossRefAuthorsLine(item.author)
    ensures c.year == CrossRefYear(item.datePartsOfPublished)
  {
    Citation(item.doi, Doi, FirstOrEmpty(item.title), CrossRefAuthorsLine(item.author),
             FirstOrEmpty(item.containerTitle), CrossRefYear(item.datePartsOfPublished),
             DoiUrlPrefix + item.doi)
  }

  /** `searchCrossRef`: every item normalised, in reply order; nothing on an empty query or a failure. */
  function SearchCrossRef(query: string, reply: Response<Option<seq<CrossRefItem>>>): (cs: seq<Citation>)
    ensures query == "" || reply.Failed? ==> cs == []
    ensures reply.Ok? && reply.body.None? ==> cs == []
    ensures query != "" && reply.Ok? && reply.body.Some? ==>
              |cs| == |reply.body.value| &&
              forall i :: 0 <= i < |cs| ==> cs[i] == CrossRefCitation(reply.body.value[i])
  {
    if query == "" then []
    else match reply
      case Failed => []
      case Ok(items) =>
        var its := if items.Some? then items.value else [];
        seq(|its|, i requires 0 <= i < |its| => CrossRefCitation(its[i]))
  }

  // ---------------------------------------------------------------------
  // Merge

  /**
   * The loop of `fetchCitationsForSlide`, written as the accumulation it
   * performs: each live citation is appended when its id is not yet in the list.
   */
  function AppendUnseen(acc: seq<Citation>, live: seq<Citation>): seq<Citation>
    decreases |live|
  {
    if live == [] then acc
    else AppendUnseen(if live[0].id in CitationIds(acc) then acc else acc + [live[0]], live[1..])
  }

  /**
   * Reference definition: the live citations, in order, whose id is neither
   * in `seen` nor taken by an earlier one of them.
   */
  function Unseen(seen: set<string>, live: seq<Citation>): seq<Citation>
    decreases |live|
  {
    if live == [] then []
    else if live[0].id in seen then Unseen(seen, live[1..])
    else [live[0]] + Unseen(seen + {live[0].id}, live[1..])
  }

  /** `merged.slice(0, 10)`. */
  function Cap(cs: seq<Citation>): (r: seq<Citation>)
    ensures |r| == Min(MaxCitations, |cs|)
    ensures r == cs[..|r|]
  {
    cs[..Min(MaxCitations, |cs|)]
  }

  /** The result of merging `live` into `existing`. */
  function Merged(existing: seq<Citation>, live: seq<Citation>): seq<Citation> {
    Cap(AppendUnseen(existing, live))
  }

  /** The live citations the two PubMed replies yield. */
  function LiveCitations(query: string, search: Response<Option<seq<string>>>,
                         summaries: Response<Option<map<string, SummaryRecord>>>): seq<Citation>
  {
    ArticleCitations(FetchPubMedSummaries(SearchPubMed(query, search), summaries))
  }

  /** `fetchCitationsForSlide(query, existing)` given the two PubMed replies. */
  function CitationsForSlide(query: string, existing: seq<Citation>,
                             search: Response<Option<seq<string>>>,
                             summaries: Response<Option<map<string, SummaryRecord>>>): seq<Citation>
  {
    if query == "" then existing else Merged(existing, LiveCitations(query, search, summaries))
  }

  /** The merge loop with its `seen` set, then the cap. */
  method MergeCitations(existing: seq<Citation>, live: seq<Citation>) returns (r: seq<Citation>)
    ensures r == Merged(existing, live)
  {
    var seen := set c | c in existing :: c.id;
    var merged := existing;
    for i := 0 to |live|
      invariant seen == CitationIds(merged)
      invariant AppendUnseen(merged, live[i..]) == AppendUnseen(existing, live)
    {
      var cite := live[i];
      assert live[i..][1..] == live[i + 1..];
      if cite.id !in seen {
        seen := seen + {cite.id};
        merged := merged + [cite];
      }
    }
    r := merged[..if |merged| <= MaxCitations then |merged| else MaxCitations];
  }

  /** `fetchCitationsForSlide`: no lookup for an empty query, otherwise search, fetch, normalise and merge. */
  method FetchCitationsForSlide(query: string, existing: seq<Citation>,
                                search: Response<Option<seq<string>>>,
                                summaries: Response<Option<map<string, SummaryRecord>>>)
    returns (r: seq<Citation>)
    ensures r == CitationsForSlide(query, existing, search, summaries)
  {
    if query == "" {
      return existing;
    }
    var pmids := SearchPubMed(query, search);
    var articles := FetchPubMedSummaries(pmids, summaries);
    var liveCitations := ArticleCitations(articles);
    r := MergeCitations(existing, liveCitations);
  }

  // ---------------------------------------------------------------------
  // Properties of the merge

  lemma IdsAppend(a: seq<Citation>, x: Citation)
    ensures CitationIds(a + [x]) == CitationIds(a) + {x.id}
  {
    assert forall c :: c in a + [x] <==> c in a || c == x;
  }

  /** The accumulation equals `acc` followed by the unseen live citations. */
  lemma {:induction false} AppendUnseenIsUnseen(acc: seq<Citation>, live: seq<Citation>)
    ensures AppendUnseen(acc, live) == acc + Unseen(CitationIds(acc), live)
    decreases |live|
  {
    if live != [] {
      var x := live[0];
      if x.id in CitationIds(acc) {
        AppendUnseenIsUnseen(acc, live[1..]);
      } else {
        AppendUnseenIsUnseen(acc + [x], live[1..]);
        IdsAppend(acc, x);
        assert (acc + [x]) + Unseen(CitationIds(acc) + {x.id}, live[1..])
            == acc + ([x] + Unseen(CitationIds(acc) + {x.id}, live[1..]));
      }
    }
  }

  /** `Unseen` keeps live entries whose ids are not in `seen`. */
  lemma {:induction false} UnseenFromLive(seen: set<string>, live: seq<Citation>)
    ensures |Unseen(seen, live)| <= |live|
    ensures forall c :: c in Unseen(seen, live) ==> c in live && c.id !in seen
    decreases |live|
  {
    if live != [] {
      var x := live[0];
      if x.id in seen {
        UnseenFromLive(seen, live[1..]);
      } else {
        UnseenFromLive(seen + {x.id}, live[1..]);
      }
    }
  }

  /** No two entries `Unseen` keeps share an id. */
  lemma {:induction false} UnseenDistinct(seen: set<string>, live: seq<Citation>)
    ensures DistinctCitationIds(Unseen(seen, live))
    decreases |live|
  {
    if live != [] {
      var x := live[0];
      if x.id in seen {
        UnseenDistinct(seen, live[1..]);
      } else {
        var rest := Unseen(seen + {x.id}, live[1..]);
        UnseenDistinct(seen + {x.id}, live[1..]);
        UnseenFromLive(seen + {x.id}, live[1..]);
        var u := [x] + rest;
        forall i, j | 0 <= i < j < |u| ensures u[i].id != u[j].id {
          assert u[j] == rest[j - 1];
          if i == 0 {
            assert u[j] in rest;
          } else {
            assert u[i] == rest[i - 1];
          }
        }
      }
    }
  }

  /** Every live id ends up in `seen` or among the kept entries. */
  lemma {:induction false} UnseenCovers(seen: set<string>, live: seq<Citation>)
    ensures CitationIds(live) <= seen + CitationIds(Unseen(seen, live))
    decreases |live|
  {
    if live != [] {
      var x := live[0];
      assert live == [x] + live[1..];
      assert CitationIds(live) == {x.id} + CitationIds(live[1..]) by {
        assert forall c :: c in live <==> c == x || c in live[1..];
      }
      if x.id in seen {
        UnseenCovers(seen, live[1..]);
      } else {
        var rest := Unseen(seen + {x.id}, live[1..]);
        UnseenCovers(seen + {x.id}, live[1..]);
        assert Unseen(seen, live) == [x] + rest;
        assert CitationIds([x] + rest) == {x.id} + CitationIds(rest) by {
          assert forall c :: c in [x] + rest <==> c == x || c in rest;
        }
      }
    }
  }

  /** The merge result is the first 10 of existing followed by the unseen live citations. */
  lemma MergedShape(existing: seq<Citation>, live: seq<Citation>)
    ensures Merged(existing, live) == Cap(existing + Unseen(CitationIds(existing), live))
    ensures |Merged(existing, live)| <= MaxCitations
  {
    AppendUnseenIsUnseen(existing, live);
  }

  /** Existing entries come first and are never replaced; only the cap can drop them. */
  lemma ExistingEntriesWin(existing: seq<Citation>, live: seq<Citation>)
    ensures |Merged(existing, live)| >= Min(MaxCitations, |existing|)
    ensures forall i :: 0 <= i < Min(MaxCitations, |existing|) ==> Merged(existing, live)[i] == existing[i]
    ensures |existing| <= MaxCitations ==> Merged(existing, live)[..|existing|] == existing
    ensures |existing| > MaxCitations ==> Merged(existing, live) == existing[..MaxCitations]
  {
    AppendUnseenIsUnseen(existing, live);
    var all := existing + Unseen(CitationIds(existing), live);
    assert all[..|existing|] == existing;
  }

  /** Every appended entry is a live citation whose id no existing entry has. */
  lemma AppendedAreNew(existing: seq<Citation>, live: seq<Citation>)
    ensures forall i :: |existing| <= i < |Merged(existing, live)| ==>
              Merged(existing, live)[i] in live && Merged(existing, live)[i].id !in CitationIds(existing)
  {
    AppendUnseenIsUnseen(existing, live);
    UnseenFromLive(CitationIds(existing), live);
    var u := Unseen(CitationIds(existing), live);
    var m := Merged(existing, live);
    forall i | |existing| <= i < |m|
      ensures m[i] in live && m[i].id !in CitationIds(existing)
    {
      assert m[i] == u[i - |existing|];
    }
  }

  /** If the curated list has no duplicate ids, neither has the merge. */
  lemma MergedDistinct(existing: seq<Citation>, live: seq<Citation>)
    requires DistinctCitationIds(existing)
    ensures DistinctCitationIds(Merged(existing, live))
  {
    AppendUnseenIsUnseen(existing, live);
    UnseenFromLive(CitationIds(existing), live);
    UnseenDistinct(CitationIds(existing), live);
    var u := Unseen(CitationIds(existing), live);
    var all := existing + u;
    forall i, j | 0 <= i < j < |all| ensures all[i].id != all[j].id {
      if j >= |existing| {
        assert all[j] == u[j - |existing|];
        if i < |existing| {
          assert all[i] in existing;
        }
      }
    }
  }

  /** Once every live id is in the list, nothing more is appended. */
  lemma {:induction false} AppendUnseenAllSeen(acc: seq<Citation>, live: seq<Citation>)
    requires CitationIds(live) <= CitationIds(acc)
    ensures AppendUnseen(acc, live) == acc
    decreases |live|
  {
    if live != [] {
      assert live[0] in live;
      assert CitationIds(live[1..]) <= CitationIds(live) by {
        assert forall c :: c in live[1..] ==> c in live;
      }
      AppendUnseenAllSeen(acc, live[1..]);
    }
  }

  /** Merging the same live list into the merged result changes nothing. */
  lemma MergeIdempotent(existing: seq<Citation>, live: seq<Citation>)
    ensures Merged(Merged(existing, live), live) == Merged(existing, live)
  {
    var full := AppendUnseen(existing, live);
    var r := Cap(full);
    AppendUnseenIsUnseen(existing, live);
    AppendUnseenIsUnseen(r, live);
    if |full| <= MaxCitations {
      assert r == full;
      UnseenCovers(CitationIds(existing), live);
      var u := Unseen(CitationIds(existing), live);
      assert CitationIds(full) == CitationIds(existing) + CitationIds(u) by {
        assert forall c :: c in full <==> c in existing || c in u;
      }
      AppendUnseenAllSeen(r, live);
    } else {
      assert |r| == MaxCitations;
      var again := AppendUnseen(r, live);
      assert again[..MaxCitations] == r;
    }
  }

  /** An empty query leaves the list as it is, however long. */
  lemma EmptyQueryKeepsExisting(existing: seq<Citation>, search: Response<Option<seq<string>>>,
                                summaries: Response<Option<map<string, SummaryRecord>>>)
    ensures CitationsForSlide("", existing, search, summaries) == existing
  {
  }

  /**
   * A lookup that yields no articles (a failed search, a search without an
   * `idlist`, a failed summary fetch or a reply without `result`) degrades to
   * the existing list, capped at 10.
   */
  lemma FailedLookupKeepsExisting(query: string, existing: seq<Citation>,
                                  search: Response<Option<seq<string>>>,
                                  summaries: Response<Option<map<string, SummaryRecord>>>)
    requires query != ""
    ensures CitationsForSlide(query, existing, Failed, summaries) == Cap(existing)
    ensures CitationsForSlide(query, existing, Ok(None), summaries) == Cap(existing)
    ensures CitationsForSlide(query, existing, search, Failed) == Cap(existing)
    ensures CitationsForSlide(query, existing, search, Ok(None)) == Cap(existing)
  {
  }

  /** A refreshed list never exceeds 10 entries and keeps distinct ids distinct. */
  lemma CitationsForSlideBounded(query: string, existing: seq<Citation>,
                                 search: Response<Option<seq<string>>>,
                                 summaries: Response<Option<map<string, SummaryRecord>>>)
    requires query != ""
    ensures |CitationsForSlide(query, existing, search, summaries)| <= MaxCitations
    ensures DistinctCitationIds(existing) ==> DistinctCitationIds(CitationsForSlide(query, existing, search, summaries))
  {
    var live := LiveCitations(query, search, summaries);
    MergedShape(existing, live);
    if DistinctCitationIds(existing) {
      MergedDistinct(existing, live);
    }
  }

  function Cite(id: string, title: string): Citation {
    Citation(id, Pmid, title, "", "", YearText(""), PubMedUrlPrefix + id + "/")
  }

  /** Existing `[100]` with live `[100 "X", 200 "Y"]` gives `[100 (original), 200 "Y"]`. */
  lemma MergeExample()
    ensures Merged([Cite("100", "curated")], [Cite("100", "X"), Cite("200", "Y")])
         == [Cite("100", "curated"), Cite("200", "Y")]
  {
    var e := [Cite("100", "curated")];
    var l := [Cite("100", "X"), Cite("200", "Y")];
    assert CitationIds(e) == {"100"};
    assert l[1..] == [Cite("200", "Y")];
    assert "200" != "100";
    assert CitationIds(e + [Cite("200", "Y")]) == {"100", "200"};
  }
}
