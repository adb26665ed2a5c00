/**
 * Splitting oversized slides into continuation slides (`splitSlidesMaxBullets`
 * in src/App.tsx). A slide with more than `max` bullets becomes
 * ceil(n / max) adjacent parts of at most `max` bullets each; part 1 keeps
 * the slide's id and title, part k >= 2 gets the id `<id>_pt<k>` and the
 * title `<title> (cont'd)`.
 */
module SlideSplit {

  import opened Types
  import opened Strings

  /** The default bullet limit of `splitSlidesMaxBullets`. */
  const DefaultMaxBullets: nat := 3

  const ContinuationSuffix: string := " (cont'd)"

  /** `Math.ceil(n / max)` for a positive `max`. */
  function PartCount(n: nat, max: nat): nat
    requires max >= 1
  {
    (n + max - 1) / max
  }

  lemma MulSucc(k: int, m: int)
    ensures (k + 1) * m == k * m + m
  {
  }

  lemma {:induction false} MulMonotone(a: nat, b: nat, m: nat)
    requires a <= b
    ensures a * m <= b * m
    decreases b - a
  {
    if a < b {
      MulMonotone(a, b - 1, m);
      MulSucc(b - 1, m);
    }
  }

  /** ceil(n / max) parts of `max` bullets cover n bullets, and one part fewer does not. */
  lemma PartCountBounds(n: nat, max: nat)
    requires max >= 1 && n >= 1
    ensures PartCount(n, max) >= 1
    ensures (PartCount(n, max) - 1) * max < n <= PartCount(n, max) * max
  {
    var k := PartCount(n, max);
    var r := (n + max - 1) % max;
    assert n + max - 1 == k * max + r;
    MulSucc(k - 1, max);
  }

  /** The id of part `p` (counted from 0) of a split slide. */
  function PartId(id: string, p: nat): string {
    if p == 0 then id else id + "_pt" + NatToString(p + 1)
  }

  /** The title of part `p` (counted from 0) of a split slide. */
  function PartTitle(title: string, p: nat): string {
    if p == 0 then title else title + ContinuationSuffix
  }

  /** `bullets.slice(p * max, (p + 1) * max)`, with JavaScript's clamping to the length. */
  function Chunk(bullets: seq<string>, max: nat, p: nat): seq<string> {
    bullets[Min(p * max, |bullets|)..Min((p + 1) * max, |bullets|)]
  }

  /** Part `p` of `s`: every field copied except id, title and bullets. */
  function Part(s: SlideData, max: nat, p: nat): SlideData {
    s.(slide_id := PartId(s.slide_id, p),
       title := PartTitle(s.title, p),
       bullets := Chunk(s.bullets, max, p))
  }

  /** The first `k` parts of `s`, in order. */
  function PartsUpTo(s: SlideData, max: nat, k: nat): (ps: seq<SlideData>)
    ensures |ps| == k
    ensures forall j :: 0 <= j < k ==> ps[j] == Part(s, max, j)
  {
    if k == 0 then [] else PartsUpTo(s, max, k - 1) + [Part(s, max, k - 1)]
  }

  /** What one input slide contributes to the result. */
  function Parts(s: SlideData, max: nat): seq<SlideData>
    requires max >= 1
  {
    if |s.bullets| <= max then [s] else PartsUpTo(s, max, PartCount(|s.bullets|, max))
  }

  /** The deck `splitSlidesMaxBullets(slides, max)` returns. */
  function Split(slides: seq<SlideData>, max: nat): seq<SlideData>
    requires max >= 1
  {
    if slides == [] then []
    else Split(slides[..|slides| - 1], max) + Parts(slides[|slides| - 1], max)
  }

  /** All bullets of a deck, slide after slide. */
  function AllBullets(deck: seq<SlideData>): seq<string> {
    if deck == [] then [] else AllBullets(deck[..|deck| - 1]) + deck[|deck| - 1].bullets
  }

  /** Every slide of the deck respects the bullet limit. */
  predicate WithinLimit(deck: seq<SlideData>, max: nat) {
    forall i :: 0 <= i < |deck| ==> |deck[i].bullets| <= max
  }

  /** The loop of `splitSlidesMaxBullets`, pushing slides and parts onto `result`. */
  method SplitSlidesMaxBullets(input: seq<SlideData>, max: nat) returns (result: seq<SlideData>)
    requires max >= 1
    ensures result == Split(input, max)
  {
    result := [];
    for i := 0 to |input|
      invariant result == Split(input[..i], max)
    {
      var slide := input[i];
      assert input[..i + 1][..i] == input[..i];
      if |slide.bullets| <= max {
        result := result + [slide];
      } else {
        result := PushParts(result, slide, max);
      }
      assert Split(input[..i + 1], max) == Split(input[..i], max) + Parts(slide, max) by {
        assert input[..i + 1][i] == slide;
      }
    }
    assert input[..|input|] == input;
  }

  /** The inner loop of `splitSlidesMaxBullets`: push the parts of one oversized slide. */
  method PushParts(before: seq<SlideData>, slide: SlideData, max: nat) returns (result: seq<SlideData>)
    requires max >= 1 && |slide.bullets| > max
    ensures result == before + Parts(slide, max)
  {
    result := before;
    var n := |slide.bullets|;
    var totalParts := (n + max - 1) / max;
    for p := 0 to totalParts
      invariant result == before + PartsUpTo(slide, max, p)
    {
      var start := p * max;
      var lo := if start <= n then start else n;
      var hi := if start + max <= n then start + max else n;
      ChunkBounds(slide.bullets, max, p, lo, hi);
      var part := slide.(
        slide_id := if p == 0 then slide.slide_id else slide.slide_id + "_pt" + NatToString(p + 1),
        title := if p == 0 then slide.title else slide.title + ContinuationSuffix,
        bullets := slide.bullets[lo..hi]);
      assert part == Part(slide, max, p);
      ConcatAssoc(before, PartsUpTo(slide, max, p), [part]);
      result := result + [part];
    }
  }

  /** The loop's slice bounds are those of `Chunk`. */
  lemma ChunkBounds(bullets: seq<string>, max: nat, p: nat, lo: int, hi: int)
    requires lo == (if p * max <= |bullets| then p * max else |bullets|)
    requires hi == (if p * max + max <= |bullets| then p * max + max else |bullets|)
    ensures 0 <= lo <= hi <= |bullets|
    ensures bullets[lo..hi] == Chunk(bullets, max, p)
  {
    MulSucc(p, max);
  }

  // ---------------------------------------------------------------------
  // Properties of one slide's parts

  lemma PartIndexBounds(n: nat, max: nat, p: nat)
    requires max >= 1 && n > max && p < PartCount(n, max)
    ensures p * max < n
    ensures (p + 1) * max <= n || p == PartCount(n, max) - 1
  {
    var k := PartCount(n, max);
    PartCountBounds(n, max);
    MulMonotone(p, k - 1, max);
    if p < k - 1 {
      MulMonotone(p + 1, k - 1, max);
    }
  }

  lemma ChunkSize(bullets: seq<string>, max: nat, p: nat)
    requires max >= 1 && |bullets| > max && p < PartCount(|bullets|, max)
    ensures 1 <= |Chunk(bullets, max, p)| <= max
  {
    PartIndexBounds(|bullets|, max, p);
    MulSucc(p, max);
  }

  /** Every part of an oversized slide holds between 1 and `max` bullets. */
  lemma PartsOfOversizedAreBounded(s: SlideData, max: nat)
    requires max >= 1 && |s.bullets| > max
    ensures forall p :: 0 <= p < |Parts(s, max)| ==> 1 <= |Parts(s, max)[p].bullets| <= max
  {
    forall p | 0 <= p < |Parts(s, max)| ensures 1 <= |Parts(s, max)[p].bullets| <= max {
      ChunkSize(s.bullets, max, p);
    }
  }

  /** A slide within the limit passes through unchanged; an oversized one becomes ceil(n / max) parts. */
  lemma PartsShape(s: SlideData, max: nat)
    requires max >= 1
    ensures |s.bullets| <= max ==> Parts(s, max) == [s]
    ensures |s.bullets| > max ==> |Parts(s, max)| == (|s.bullets| + max - 1) / max >= 2
  {
    if |s.bullets| > max {
      var k := PartCount(|s.bullets|, max);
      PartCountBounds(|s.bullets|, max);
      if k < 2 {
        MulMonotone(k, 1, max);
      }
    }
  }

  /** Naming of the parts: part 1 keeps id and title, part k >= 2 is `<id>_pt<k>` / `<title> (cont'd)`. */
  lemma PartsNaming(s: SlideData, max: nat, p: nat)
    requires max >= 1 && |s.bullets| > max && p < |Parts(s, max)|
    ensures Parts(s, max)[p].slide_id == (if p == 0 then s.slide_id else s.slide_id + "_pt" + NatToString(p + 1))
    ensures Parts(s, max)[p].title == (if p == 0 then s.title else s.title + ContinuationSuffix)
    ensures Parts(s, max)[p] == s.(slide_id := Parts(s, max)[p].slide_id,
                                   title := Parts(s, max)[p].title,
                                   bullets := Parts(s, max)[p].bullets)
  {
  }

  lemma {:induction false} AllBulletsAppend(a: seq<SlideData>, b: seq<SlideData>)
    ensures AllBullets(a + b) == AllBullets(a) + AllBullets(b)
    decreases |b|
  {
    if b == [] {
      assert a + b == a;
    } else {
      var b' := b[..|b| - 1];
      assert (a + b)[..|a + b| - 1] == a + b';
      AllBulletsAppend(a, b');
    }
  }

  /** Adjacent chunks join up: the prefix before chunk `p`, then chunk `p`, is the prefix before chunk `p + 1`. */
  lemma ChunkExtendsPrefix(bullets: seq<string>, max: nat, p: nat)
    ensures bullets[..Min(p * max, |bullets|)] + Chunk(bullets, max, p)
         == bullets[..Min((p + 1) * max, |bullets|)]
  {
    MulSucc(p, max);
  }

  lemma DropLast<T>(xs: seq<T>, x: T)
    ensures (xs + [x])[..|xs|] == xs
  {
  }

  lemma AllBulletsSnoc(deck: seq<SlideData>, x: SlideData)
    ensures AllBullets(deck + [x]) == AllBullets(deck) + x.bullets
  {
    DropLast(deck, x);
  }

  lemma {:induction false} PartsUpToBullets(s: SlideData, max: nat, k: nat)
    ensures AllBullets(PartsUpTo(s, max, k)) == s.bullets[..Min(k * max, |s.bullets|)]
  {
    if k > 0 {
      var j: nat := k - 1;
      var ps, part := PartsUpTo(s, max, j), Part(s, max, j);
      assert PartsUpTo(s, max, k) == ps + [part];
      AllBulletsSnoc(ps, part);
      PartsUpToBullets(s, max, j);
      MulMonotone(0, j, max);
      var before := s.bullets[..Min(j * max, |s.bullets|)];
      assert AllBullets(ps) == before;
      assert part.bullets == Chunk(s.bullets, max, j);
      ChunkExtendsPrefix(s.bullets, max, j);
    }
  }

  /** The parts' bullets, concatenated, are the slide's bullets in order. */
  lemma PartsConserveBullets(s: SlideData, max: nat)
    requires max >= 1
    ensures AllBullets(Parts(s, max)) == s.bullets
  {
    if |s.bullets| <= max {
      assert Parts(s, max) == [s];
      SingleSlideBullets(s);
    } else {
      var k := PartCount(|s.bullets|, max);
      assert Parts(s, max) == PartsUpTo(s, max, k);
      AllPartsBullets(s, max);
    }
  }

  lemma SingleSlideBullets(s: SlideData)
    ensures AllBullets([s]) == s.bullets
  {
    AllBulletsSnoc([], s);
    assert [] + [s] == [s];
  }

  lemma AllPartsBullets(s: SlideData, max: nat)
    requires max >= 1 && |s.bullets| > max
    ensures AllBullets(PartsUpTo(s, max, PartCount(|s.bullets|, max))) == s.bullets
  {
    PartsUpToBullets(s, max, PartCount(|s.bullets|, max));
    PartsCoverAll(|s.bullets|, max);
    assert s.bullets[..|s.bullets|] == s.bullets;
  }

  /** The last part ends at the last bullet. */
  lemma PartsCoverAll(n: nat, max: nat)
    requires max >= 1 && n >= 1
    ensures Min(PartCount(n, max) * max, n) == n
  {
    PartCountBounds(n, max);
  }

  // ---------------------------------------------------------------------
  // Properties of the whole deck

  /** Input order is preserved: splitting a concatenation splits each half in place. */
  lemma ConcatAssoc<T>(a: seq<T>, b: seq<T>, c: seq<T>)
    ensures (a + b) + c == a + (b + c)
  {
  }

  lemma SplitSnoc(s: seq<SlideData>, x: SlideData, max: nat)
    requires max >= 1
    ensures Split(s + [x], max) == Split(s, max) + Parts(x, max)
  {
    assert (s + [x])[..|s|] == s;
  }

  lemma SplitAppendStep(a: seq<SlideData>, b: seq<SlideData>, x: SlideData, max: nat)
    requires max >= 1
    requires Split(a + b, max) == Split(a, max) + Split(b, max)
    ensures Split(a + (b + [x]), max) == Split(a, max) + Split(b + [x], max)
  {
    var sa, sb, px := Split(a, max), Split(b, max), Parts(x, max);
    calc {
      Split(a + (b + [x]), max);
      == { ConcatAssoc(a, b, [x]); SplitSnoc(a + b, x, max); }
      Split(a + b, max) + px;
      ==
      (sa + sb) + px;
      == { ConcatAssoc(sa, sb, px); }
      sa + (sb + px);
      == { SplitSnoc(b, x, max); }
      sa + Split(b + [x], max);
    }
  }

  /** Input order is preserved: splitting a concatenation splits each half in place. */
  lemma {:induction false} SplitAppend(a: seq<SlideData>, b: seq<SlideData>, max: nat)
    requires max >= 1
    ensures Split(a + b, max) == Split(a, max) + Split(b, max)
    decreases |b|
  {
    if b == [] {
      assert a + b == a;
    } else {
      var b', x := b[..|b| - 1], b[|b| - 1];
      assert b == b' + [x];
      SplitAppend(a, b', max);
      SplitAppendStep(a, b', x, max);
    }
  }

  /** No bullet is lost, duplicated or reordered by the split. */
  lemma {:induction false} SplitConservesBullets(slides: seq<SlideData>, max: nat)
    requires max >= 1
    ensures AllBullets(Split(slides, max)) == AllBullets(slides)
  {
    if slides != [] {
      var init := slides[..|slides| - 1];
      var last := slides[|slides| - 1];
      SplitConservesBullets(init, max);
      AllBulletsAppend(Split(init, max), Parts(last, max));
      PartsConserveBullets(last, max);
    }
  }

  /** Every slide the split produces respects the limit. */
  lemma {:induction false} SplitWithinLimit(slides: seq<SlideData>, max: nat)
    requires max >= 1
    ensures WithinLimit(Split(slides, max), max)
  {
    if slides != [] {
      var init := slides[..|slides| - 1];
      var last := slides[|slides| - 1];
      SplitWithinLimit(init, max);
      if |last.bullets| > max {
        PartsOfOversizedAreBounded(last, max);
      }
      var r, front := Split(slides, max), Split(init, max);
      forall i | 0 <= i < |r| ensures |r[i].bullets| <= max {
        if i >= |front| {
          assert r[i] == Parts(last, max)[i - |front|];
        }
      }
    }
  }

  /** A deck already within the limit is left unchanged. */
  lemma {:induction false} SplitOfWithinLimit(slides: seq<SlideData>, max: nat)
    requires max >= 1 && WithinLimit(slides, max)
    ensures Split(slides, max) == slides
  {
    if slides != [] {
      SplitOfWithinLimit(slides[..|slides| - 1], max);
    }
  }

  /** Splitting twice with the same limit gives the same deck as splitting once. */
  lemma SplitIdempotent(slides: seq<SlideData>, max: nat)
    requires max >= 1
    ensures Split(Split(slides, max), max) == Split(slides, max)
  {
    SplitWithinLimit(slides, max);
    SplitOfWithinLimit(Split(slides, max), max);
  }

  /** The split deck is never shorter than its input, so a non-empty deck stays non-empty. */
  lemma {:induction false} SplitLength(slides: seq<SlideData>, max: nat)
    requires max >= 1
    ensures |Split(slides, max)| >= |slides|
  {
    if slides != [] {
      SplitLength(slides[..|slides| - 1], max);
      PartsShape(slides[|slides| - 1], max);
    }
  }

  // ---------------------------------------------------------------------
  // Concrete cases

  function PlainSlide(id: string, title: string, bullets: seq<string>): SlideData {
    SlideData(id, title, ImageRight, [], bullets, "", "", [], Medium, false, "", None, None, None)
  }

  /** A five-bullet slide `a` at limit 3 becomes `a: [1,2,3]` and `a_pt2: [4,5]`. */
  lemma SplitFiveBulletsExample()
    ensures Split([PlainSlide("a", "T", ["1", "2", "3", "4", "5"])], 3)
         == [PlainSlide("a", "T", ["1", "2", "3"]), PlainSlide("a_pt2", "T (cont'd)", ["4", "5"])]
  {
    var s := PlainSlide("a", "T", ["1", "2", "3", "4", "5"]);
    assert PartCount(5, 3) == 2;
    assert NatToString(2) == "2";
    assert [s][..0] == [];
    assert Parts(s, 3) == [Part(s, 3, 0), Part(s, 3, 1)];
    assert Chunk(s.bullets, 3, 0) == ["1", "2", "3"];
    assert Chunk(s.bullets, 3, 1) == ["4", "5"];
    assert PartId("a", 1) == "a_pt2";
    assert PartTitle("T", 1) == "T (cont'd)";
    assert Part(s, 3, 0) == PlainSlide("a", "T", ["1", "2", "3"]);
    assert Part(s, 3, 1) == PlainSlide("a_pt2", "T (cont'd)", ["4", "5"]);
  }

  /** The nine-bullet limb-salvage slide of the default deck becomes three parts. */
  lemma SplitNineBulletsExample(s: SlideData)
    requires s.slide_id == "limb_salvage_module" && |s.bullets| == 9
    ensures Split([s], DefaultMaxBullets) == [
      Part(s, 3, 0), Part(s, 3, 1), Part(s, 3, 2)]
    ensures Split([s], DefaultMaxBullets)[2].slide_id == "limb_salvage_module_pt3"
    ensures Split([s], DefaultMaxBullets)[2].bullets == s.bullets[6..9]
  {
    assert PartCount(9, 3) == 3;
    assert NatToString(3) == "3";
    assert [s][..0] == [];
  }
}
