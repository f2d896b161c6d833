/** `_Line` and the first half of the detector: picking the candidate lines
    of each page and pairing similar candidates of nearby pages.

    A line is identified by its page (the page's index in the volume, where
    the source uses the page object's identity) and its 0-based number on
    that page. */
module Lines {
  import opened Slices
  import opened SeqUtils
  import opened CleanText
  import opened Levenshtein

  datatype LineId = LineId(page: nat, number: nat)

  datatype Line = Line(id: LineId, text: string)

  /** `_Line.__eq__`: the same page and the same line number; the text plays
      no part. */
  predicate SameLine(a: Line, b: Line)
  {
    a.id == b.id
  }

  /** `_get_page_lines`: the lines of page `p`, numbered from 0. */
  function PageLines(page: seq<string>, p: nat): (r: seq<Line>)
    ensures |r| == |page|
    ensures forall k :: 0 <= k < |r| ==> r[k].id == LineId(p, k) && r[k].text == page[k]
  {
    seq(|page|, k requires 0 <= k < |page| => Line(LineId(p, k), page[k]))
  }

  /** The lines of one volume: page `p` of `pages` is read as page `p`. */
  predicate OfVolume(pages: seq<seq<string>>, l: Line)
  {
    l.id.page < |pages| && l.id.number < |pages[l.id.page]| && l.text == pages[l.id.page][l.id.number]
  }

  /** Within one volume the text is a function of the position, so `__eq__`
      agrees with structural equality. */
  lemma SameLineIsEquality(pages: seq<seq<string>>, a: Line, b: Line)
    requires OfVolume(pages, a) && OfVolume(pages, b)
    ensures SameLine(a, b) <==> a == b
  {
  }

  lemma PageLinesOfVolume(pages: seq<seq<string>>, p: nat, l: Line)
    requires p < |pages| && l in PageLines(pages[p], p)
    ensures OfVolume(pages, l) && l.id.page == p
  {
  }

  /** `not len(l.cleaned_text) < 4`: the candidate filter. */
  predicate Comparable(l: Line)
  {
    |Clean(l.text)| >= 4
  }

  predicate AllComparable(ls: seq<Line>)
  {
    forall l :: l in ls ==> Comparable(l)
  }

  /** Line numbers strictly increase along the list. */
  predicate Increasing(ls: seq<Line>)
  {
    forall i, j :: 0 <= i < j < |ls| ==> ls[i].id.number < ls[j].id.number
  }

  /** The comprehension `[l for l in lines if not len(l.cleaned_text) < 4]`. */
  function KeepComparable(ls: seq<Line>): (r: seq<Line>)
    ensures |r| <= |ls|
    ensures forall l :: l in r <==> l in ls && Comparable(l)
  {
    if ls == [] then []
    else if Comparable(ls[0]) then [ls[0]] + KeepComparable(ls[1..])
    else KeepComparable(ls[1..])
  }

  /** The filter keeps the page order. */
  lemma {:induction false} KeepIncreasing(ls: seq<Line>)
    requires Increasing(ls)
    ensures Increasing(KeepComparable(ls))
  {
    if ls != [] {
      KeepIncreasing(ls[1..]);
      var rest := KeepComparable(ls[1..]);
      forall j | 0 <= j < |rest|
        ensures ls[0].id.number < rest[j].id.number
      {
        assert rest[j] in ls[1..];
        var k :| 0 <= k < |ls[1..]| && ls[1..][k] == rest[j];
        assert ls[k + 1] == rest[j];
      }
    }
  }

  /** Header candidates: the comparable lines among the first
      `max_header_lines` lines of the page. */
  function HeaderCandidates(page: seq<string>, p: nat, maxHeaderLines: int): seq<Line>
  {
    KeepComparable(Take(PageLines(page, p), maxHeaderLines))
  }

  /** Footer candidates: the comparable lines among `lines[-max_footer_lines:]`. */
  function FooterCandidates(page: seq<string>, p: nat, maxFooterLines: int): seq<Line>
  {
    KeepComparable(Drop(PageLines(page, p), -maxFooterLines))
  }

  /** A header candidate is a comparable line of the page whose number is
      below `max_header_lines` (read as a Python slice bound); they come in
      page order. */
  lemma HeaderCandidatesAre(page: seq<string>, p: nat, maxHeaderLines: int, l: Line)
    ensures l in HeaderCandidates(page, p, maxHeaderLines) <==>
      && l.id.page == p && l.id.number < Bound(maxHeaderLines, |page|)
      && l.text == page[l.id.number] && Comparable(l)
    ensures Increasing(HeaderCandidates(page, p, maxHeaderLines))
  {
    var ls := PageLines(page, p);
    TakeIsPrefix(ls, maxHeaderLines);
    var pre := ls[..Bound(maxHeaderLines, |page|)];
    KeepIncreasing(pre);
    if l.id.page == p && l.id.number < Bound(maxHeaderLines, |page|) && l.text == page[l.id.number] {
      assert l == pre[l.id.number];
    }
  }

  /** A footer candidate is a comparable line of the page whose number is at
      least `len - max_footer_lines` (read as a Python slice bound, so a bound
      of zero admits the whole page); they come in page order. */
  lemma FooterCandidatesAre(page: seq<string>, p: nat, maxFooterLines: int, l: Line)
    ensures l in FooterCandidates(page, p, maxFooterLines) <==>
      && l.id.page == p && Bound(-maxFooterLines, |page|) <= l.id.number < |page|
      && l.text == page[l.id.number] && Comparable(l)
    ensures Increasing(FooterCandidates(page, p, maxFooterLines))
  {
    var ls := PageLines(page, p);
    var b := Bound(-maxFooterLines, |page|);
    assert Drop(ls, -maxFooterLines) == ls[b..];
    KeepIncreasing(ls[b..]);
    if l.id.page == p && b <= l.id.number < |page| && l.text == page[l.id.number] {
      assert l == ls[b..][l.id.number - b];
    }
  }

  /** `_Line.similarity_ratio`: one minus the unit-cost edit distance of the
      cleaned texts over the longer cleaned length. The source divides by
      that length, so it is undefined when both cleaned texts are empty. */
  function SimilarityRatio(a: string, b: string): (r: real)
    requires |a| > 0 || |b| > 0
    ensures 0.0 <= r <= 1.0
    ensures r == 1.0 <==> a == b
  {
    UnitBounds(a, b);
    UnitZeroIffEqual(a, b);
    RatioBounds(Levenshtein.Levenshtein(a, b, UnitCosts) as real, Max(|a|, |b|) as real);
    1.0 - (Levenshtein.Levenshtein(a, b, UnitCosts) as real) / (Max(|a|, |b|) as real)
  }

  /** One minus a distance over a positive length it cannot exceed. */
  lemma RatioBounds(d: real, m: real)
    requires 0.0 <= d <= m && m > 0.0
    ensures 0.0 <= 1.0 - d / m <= 1.0
    ensures 1.0 - d / m == 1.0 <==> d == 0.0
  {
    assert d / m * m == d;
  }

  /** The ratio clears a threshold exactly when the edit distance leaves
      enough of the longer length: `max_len - lev >= ratio * max_len`. */
  lemma SimilarityThreshold(a: string, b: string, minRatio: real)
    requires |a| > 0 || |b| > 0
    ensures var m := Max(|a|, |b|) as real;
      SimilarityRatio(a, b) >= minRatio <==> m - Levenshtein.Levenshtein(a, b, UnitCosts) as real >= minRatio * m
  {
    var m := Max(|a|, |b|) as real;
    var d := Levenshtein.Levenshtein(a, b, UnitCosts) as real;
    assert SimilarityRatio(a, b) == 1.0 - d / m;
    ThresholdScaled(d, m, minRatio);
  }

  /** Multiplying by the positive length keeps the comparison. */
  lemma ThresholdScaled(d: real, m: real, t: real)
    requires m > 0.0
    ensures 1.0 - d / m >= t <==> m - d >= t * m
  {
    var q := 1.0 - d / m;
    assert q * m == m - d;
    assert (q - t) * m == q * m - t * m;
    if q >= t {
      assert (q - t) * m >= 0.0;
    } else {
      assert (t - q) * m > 0.0;
    }
  }

  /** `l1.similarity_ratio(l2) >= min_similarity_ratio` */
  predicate Similar(a: Line, b: Line, minRatio: real)
    requires Comparable(a) && Comparable(b)
  {
    SimilarityRatio(Clean(a.text), Clean(b.text)) >= minRatio
  }

  /** `(l1, l2) for l2 in lines2 if l1.similarity_ratio(l2) >= min_similarity_ratio` */
  function SimilarTo(l1: Line, l2s: seq<Line>, minRatio: real): (r: seq<(Line, Line)>)
    requires Comparable(l1) && AllComparable(l2s)
    ensures forall e :: e in r <==> e.0 == l1 && e.1 in l2s && Similar(l1, e.1, minRatio)
  {
    if l2s == [] then []
    else
      var rest := SimilarTo(l1, l2s[1..], minRatio);
      if Similar(l1, l2s[0], minRatio) then [(l1, l2s[0])] + rest else rest
  }

  /** `(l1, l2) for l1 in lines1 for l2 in lines2 if ...` */
  function CrossEdges(l1s: seq<Line>, l2s: seq<Line>, minRatio: real): (r: seq<(Line, Line)>)
    requires AllComparable(l1s) && AllComparable(l2s)
    ensures forall e :: e in r <==> e.0 in l1s && e.1 in l2s && Similar(e.0, e.1, minRatio)
  {
    if l1s == [] then []
    else SimilarTo(l1s[0], l2s, minRatio) + CrossEdges(l1s[1..], l2s, minRatio)
  }

  predicate PairsComparable(pairs: seq<(seq<Line>, seq<Line>)>)
  {
    forall k :: 0 <= k < |pairs| ==> AllComparable(pairs[k].0) && AllComparable(pairs[k].1)
  }

  /** The loop that extends the similarity list for each pair of pages. */
  function SimilarPairs(pairs: seq<(seq<Line>, seq<Line>)>, minRatio: real): seq<(Line, Line)>
    requires PairsComparable(pairs)
  {
    if pairs == [] then []
    else CrossEdges(pairs[0].0, pairs[0].1, minRatio) + SimilarPairs(pairs[1..], minRatio)
  }

  lemma {:induction false} SimilarPairsMembership(pairs: seq<(seq<Line>, seq<Line>)>, minRatio: real, e: (Line, Line))
    requires PairsComparable(pairs)
    ensures e in SimilarPairs(pairs, minRatio) <==>
      exists k :: 0 <= k < |pairs| && e.0 in pairs[k].0 && e.1 in pairs[k].1 && Similar(e.0, e.1, minRatio)
  {
    if pairs != [] {
      SimilarPairsMembership(pairs[1..], minRatio, e);
      if e in SimilarPairs(pairs[1..], minRatio) {
        var k :| 0 <= k < |pairs[1..]| && e.0 in pairs[1..][k].0 && e.1 in pairs[1..][k].1 && Similar(e.0, e.1, minRatio);
        assert pairs[k + 1] == pairs[1..][k];
      }
      if exists k :: 0 <= k < |pairs| && e.0 in pairs[k].0 && e.1 in pairs[k].1 && Similar(e.0, e.1, minRatio) {
        var k :| 0 <= k < |pairs| && e.0 in pairs[k].0 && e.1 in pairs[k].1 && Similar(e.0, e.1, minRatio);
        if k > 0 {
          assert pairs[1..][k - 1] == pairs[k];
        }
      }
    }
  }

  predicate ListsComparable(cands: seq<seq<Line>>)
  {
    forall p :: 0 <= p < |cands| ==> AllComparable(cands[p])
  }

  /** The similar pairs of candidates of pages compared within the window:
      `pairwise_combine_within_distance` over the candidate lists, then the
      similarity test on every pair of their lines. */
  function SimilarLines(cands: seq<seq<Line>>, windowSize: int, minRatio: real): seq<(Line, Line)>
    requires ListsComparable(cands)
  {
    PairsAtIndices(cands, 0, windowSize);
    assert cands[0..] == cands;
    SimilarPairs(PairsWithin(cands, windowSize), minRatio)
  }

  /** A pair is recorded exactly when its first line is a candidate of page
      `i`, its second a candidate of page `j` with `i < j <= i + window - 1`,
      and the two are similar. */
  lemma SimilarLinesAre(cands: seq<seq<Line>>, windowSize: int, minRatio: real, e: (Line, Line))
    requires windowSize >= 1 && ListsComparable(cands)
    ensures e in SimilarLines(cands, windowSize, minRatio) <==>
      exists i, j :: 0 <= i < j < |cands| && j <= i + windowSize - 1
        && e.0 in cands[i] && e.1 in cands[j] && Similar(e.0, e.1, minRatio)
  {
    if e in SimilarLines(cands, windowSize, minRatio) {
      var i, j := SimilarLinesSound(cands, windowSize, minRatio, e);
    }
    if exists i, j :: 0 <= i < j < |cands| && j <= i + windowSize - 1
        && e.0 in cands[i] && e.1 in cands[j] && Similar(e.0, e.1, minRatio) {
      var i, j :| 0 <= i < j < |cands| && j <= i + windowSize - 1
        && e.0 in cands[i] && e.1 in cands[j] && Similar(e.0, e.1, minRatio);
      SimilarLinesComplete(cands, windowSize, minRatio, e, i, j);
    }
  }

  lemma SimilarLinesSound(cands: seq<seq<Line>>, windowSize: int, minRatio: real, e: (Line, Line))
      returns (i: nat, j: nat)
    requires windowSize >= 1 && ListsComparable(cands)
    requires e in SimilarLines(cands, windowSize, minRatio)
    ensures i < j < |cands| && j <= i + windowSize - 1
    ensures e.0 in cands[i] && e.1 in cands[j] && Similar(e.0, e.1, minRatio)
  {
    var pairs := PairsWithin(cands, windowSize);
    var ix := WindowIndices(0, |cands|, windowSize);
    PairsAtIndices(cands, 0, windowSize);
    assert cands[0..] == cands;
    WindowIndicesBounded(0, |cands|, windowSize);
    SimilarPairsMembership(pairs, minRatio, e);
    var k :| 0 <= k < |pairs| && e.0 in pairs[k].0 && e.1 in pairs[k].1 && Similar(e.0, e.1, minRatio);
    i, j := ix[k].0, ix[k].1;
  }

  lemma SimilarLinesComplete(cands: seq<seq<Line>>, windowSize: int, minRatio: real, e: (Line, Line), i: nat, j: nat)
    requires windowSize >= 1 && ListsComparable(cands)
    requires i < j < |cands| && j <= i + windowSize - 1
    requires e.0 in cands[i] && e.1 in cands[j] && Similar(e.0, e.1, minRatio)
    ensures e in SimilarLines(cands, windowSize, minRatio)
  {
    var pairs := PairsWithin(cands, windowSize);
    var ix := WindowIndices(0, |cands|, windowSize);
    PairsAtIndices(cands, 0, windowSize);
    assert cands[0..] == cands;
    WindowIndicesComplete(0, |cands|, windowSize, i, j);
    var k :| 0 <= k < |ix| && ix[k] == (i, j);
    assert pairs[k] == (cands[i], cands[j]);
    SimilarPairsMembership(pairs, minRatio, e);
  }
}
