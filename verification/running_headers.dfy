/** `parse_page_structure`: the running header and footer detector.

    For every page it picks candidate lines near the top and near the
    bottom, links similar candidates of pages at most `window_size - 1`
    apart, clusters the links, keeps clusters of at least `min_cluster_size`
    lines, and falls back to runs of consecutive page numbers when no
    footer cluster survives. A page's header then ends after its last header
    cluster line and its footer starts at its first footer cluster line.

    The volume is a list of pages, each a list of line strings; page `p` is
    the `p`-th page. The result pairs each page with its two counts. */
module RunningHeaders {
  import opened Slices
  import opened SeqUtils
  import opened Results
  import opened Clustering
  import opened Lines
  import opened PageNumbers
  import opened Models

  /** The keyword arguments of `parse_page_structure`. */
  datatype Params = Params(
    windowSize: int,
    minSimilarityRatio: real,
    minClusterSize: int,
    maxHeaderLines: int,
    maxFooterLines: int)

  const Defaults := Params(6, 0.7, 3, 3, 3)

  function HeaderCandidateLists(pages: seq<seq<string>>, maxHeaderLines: int): (r: seq<seq<Line>>)
    ensures |r| == |pages| && ListsComparable(r)
    ensures forall p :: 0 <= p < |pages| ==> r[p] == HeaderCandidates(pages[p], p, maxHeaderLines)
  {
    seq(|pages|, p requires 0 <= p < |pages| => HeaderCandidates(pages[p], p, maxHeaderLines))
  }

  function FooterCandidateLists(pages: seq<seq<string>>, maxFooterLines: int): (r: seq<seq<Line>>)
    ensures |r| == |pages| && ListsComparable(r)
    ensures forall p :: 0 <= p < |pages| ==> r[p] == FooterCandidates(pages[p], p, maxFooterLines)
  {
    seq(|pages|, p requires 0 <= p < |pages| => FooterCandidates(pages[p], p, maxFooterLines))
  }

  /** The dictionary keys of `_cluster_lines`: a `_Line` hashes and compares
      by its identity. */
  function Ids(edges: seq<(Line, Line)>): (r: seq<(LineId, LineId)>)
    ensures |r| == |edges|
    ensures forall k :: 0 <= k < |edges| ==> r[k] == (edges[k].0.id, edges[k].1.id)
  {
    seq(|edges|, k requires 0 <= k < |edges| => (edges[k].0.id, edges[k].1.id))
  }

  /** `[cluster for cluster in ... if len(cluster) >= min_cluster_size]` */
  function KeepLarge<T>(cs: seq<seq<T>>, minSize: int): (r: seq<seq<T>>)
    ensures forall c :: c in r ==> c in cs && |c| >= minSize
    ensures forall c :: c in cs && |c| >= minSize ==> c in r
  {
    if cs == [] then []
    else (if |cs[0]| >= minSize then [cs[0]] else []) + KeepLarge(cs[1..], minSize)
  }

  lemma KeepLargeFlatten<T>(cs: seq<seq<T>>, minSize: int, y: T)
    requires y in Flatten(KeepLarge(cs, minSize))
    ensures y in Flatten(cs)
  {
    FlattenMembership(KeepLarge(cs, minSize), y);
    FlattenMembership(cs, y);
    var i :| 0 <= i < |KeepLarge(cs, minSize)| && y in KeepLarge(cs, minSize)[i];
    assert KeepLarge(cs, minSize)[i] in cs;
  }

  /** The clusters of similar candidates that are large enough. */
  function LargeClusters(cands: seq<seq<Line>>, ps: Params): seq<seq<LineId>>
    requires ListsComparable(cands)
  {
    KeepLarge(ClusterLines(Ids(SimilarLines(cands, ps.windowSize, ps.minSimilarityRatio))), ps.minClusterSize)
  }

  function HeaderClusters(pages: seq<seq<string>>, ps: Params): seq<seq<LineId>>
  {
    LargeClusters(HeaderCandidateLists(pages, ps.maxHeaderLines), ps)
  }

  /** Footer clusters before the fallback. */
  function SimilarFooterClusters(pages: seq<seq<string>>, ps: Params): seq<seq<LineId>>
  {
    LargeClusters(FooterCandidateLists(pages, ps.maxFooterLines), ps)
  }

  /** `if not footer_clusters:` use the page-number runs instead. */
  function FooterClusters(pages: seq<seq<string>>, ps: Params): seq<seq<LineId>>
  {
    var similar := SimilarFooterClusters(pages, ps);
    if similar != [] then similar else KeepLarge(PageNumberRuns(pages), ps.minClusterSize)
  }

  /** `_get_last_header_line` of page `p`'s group: the largest line number
      among the lines of page `p`, if any. */
  function LastHeaderLine(ids: seq<LineId>, p: nat): (r: Option<nat>)
    ensures r.None? <==> forall y :: y in ids ==> y.page != p
    ensures r.Some? ==> LineId(p, r.value) in ids
    ensures r.Some? ==> forall y :: y in ids && y.page == p ==> y.number <= r.value
  {
    if ids == [] then None
    else
      var rest := LastHeaderLine(ids[1..], p);
      if ids[0].page != p then rest
      else if rest.Some? && rest.value > ids[0].number then rest
      else Some(ids[0].number)
  }

  /** `_get_first_footer_line` of page `p`'s group: the smallest line number
      among the lines of page `p`, if any. */
  function FirstFooterLine(ids: seq<LineId>, p: nat): (r: Option<nat>)
    ensures r.None? <==> forall y :: y in ids ==> y.page != p
    ensures r.Some? ==> LineId(p, r.value) in ids
    ensures r.Some? ==> forall y :: y in ids && y.page == p ==> r.value <= y.number
  {
    if ids == [] then None
    else
      var rest := FirstFooterLine(ids[1..], p);
      if ids[0].page != p then rest
      else if rest.Some? && rest.value < ids[0].number then rest
      else Some(ids[0].number)
  }

  /** `last_header_line + 1`, or 0 without one. */
  function HeaderCount(ids: seq<LineId>, p: nat): int
  {
    match LastHeaderLine(ids, p)
    case None => 0
    case Some(m) => m + 1
  }

  /** `len(page.text_lines) - first_footer_line`, or 0 without one. */
  function FooterCount(ids: seq<LineId>, p: nat, len: nat): int
  {
    match FirstFooterLine(ids, p)
    case None => 0
    case Some(m) => len - m
  }

  /** The final loop of `parse_page_structure`, given the lines of the kept
      header clusters `hs` and footer clusters `fs`. */
  function Assemble(pages: seq<seq<string>>, hs: seq<LineId>, fs: seq<LineId>): (r: seq<PageStructure>)
    ensures |r| == |pages|
    ensures forall p :: 0 <= p < |r| ==> r[p].textLines == pages[p]
  {
    seq(|pages|, p requires 0 <= p < |pages| =>
      PageStructure(pages[p], HeaderCount(hs, p), FooterCount(fs, p, |pages[p]|)))
  }

  /** The detector: every page with its header and footer counts. */
  function ParsePageStructure(pages: seq<seq<string>>, ps: Params): (r: seq<PageStructure>)
    ensures |r| == |pages|
    ensures forall p :: 0 <= p < |r| ==> r[p].textLines == pages[p]
  {
    Assemble(pages, Flatten(HeaderClusters(pages, ps)), Flatten(FooterClusters(pages, ps)))
  }

  /** The counts of page `p` in the detector's result. */
  lemma ParsedCounts(pages: seq<seq<string>>, ps: Params, p: nat)
    requires p < |pages|
    ensures ParsePageStructure(pages, ps)[p].numHeaderLines == HeaderCount(Flatten(HeaderClusters(pages, ps)), p)
    ensures ParsePageStructure(pages, ps)[p].numFooterLines
      == FooterCount(Flatten(FooterClusters(pages, ps)), p, |pages[p]|)
  {
  }

  /** A page has a header exactly when one of its lines is among `hs`, and
      then the header ends just after the last such line. */
  lemma HeaderCountMeaning(pages: seq<seq<string>>, hs: seq<LineId>, fs: seq<LineId>, p: nat)
    requires p < |pages|
    ensures var h := Assemble(pages, hs, fs)[p].numHeaderLines;
      && (h > 0 <==> exists y :: y in hs && y.page == p)
      && (h > 0 ==> LineId(p, h - 1) in hs && forall y :: y in hs && y.page == p ==> y.number < h)
      && (h == 0 ==> forall y :: y in hs ==> y.page != p)
  {
    var last := LastHeaderLine(hs, p);
    if last.Some? {
      assert LineId(p, last.value) in hs;
    }
  }

  /** A page has a footer exactly when one of its lines is among `fs`, and
      then the footer starts at the first such line. */
  lemma FooterCountMeaning(pages: seq<seq<string>>, hs: seq<LineId>, fs: seq<LineId>, p: nat)
    requires p < |pages|
    ensures var f := Assemble(pages, hs, fs)[p].numFooterLines;
      var ff := FirstFooterLine(fs, p);
      && (ff.None? <==> forall y :: y in fs ==> y.page != p)
      && (ff.None? ==> f == 0)
      && (ff.Some? ==>
            && f == |pages[p]| - ff.value
            && LineId(p, ff.value) in fs
            && forall y :: y in fs && y.page == p ==> ff.value <= y.number)
  {
  }

  /** A line in a kept cluster of similar candidates is a candidate. */
  lemma ClusteredIsCandidate(cands: seq<seq<Line>>, ps: Params, y: LineId) returns (i: nat, l: Line)
    requires ListsComparable(cands)
    requires y in Flatten(LargeClusters(cands, ps))
    ensures i < |cands| && l in cands[i] && l.id == y
  {
    var edges := SimilarLines(cands, ps.windowSize, ps.minSimilarityRatio);
    var ids := Ids(edges);
    assert y in Flatten(ClusterLines(ids)) by {
      KeepLargeFlatten(ClusterLines(ids), ps.minClusterSize, y);
    }
    var k := ClusteredIsEndpoint(ids, y);
    assert ids[k] == (edges[k].0.id, edges[k].1.id);
    var i0, j0 := SimilarLinesMember(cands, ps.windowSize, ps.minSimilarityRatio, edges[k]);
    if y == edges[k].0.id {
      i, l := i0, edges[k].0;
    } else {
      i, l := j0, edges[k].1;
    }
  }

  /** Both lines of a recorded pair are candidates, whatever the window. */
  lemma SimilarLinesMember(cands: seq<seq<Line>>, windowSize: int, minRatio: real, e: (Line, Line))
      returns (i: nat, j: nat)
    requires ListsComparable(cands)
    requires e in SimilarLines(cands, windowSize, minRatio)
    ensures i < |cands| && j < |cands| && e.0 in cands[i] && e.1 in cands[j]
  {
    var pairs := PairsWithin(cands, windowSize);
    var ix := WindowIndices(0, |cands|, windowSize);
    PairsAtIndices(cands, 0, windowSize);
    assert cands[0..] == cands;
    SimilarPairsMembership(pairs, minRatio, e);
    var k :| 0 <= k < |pairs| && e.0 in pairs[k].0 && e.1 in pairs[k].1 && Similar(e.0, e.1, minRatio);
    i, j := ix[k].0, ix[k].1;
  }

  /** Every header cluster line is a line of the volume within the first
      `max_header_lines` lines of its page. */
  lemma HeaderLinesWithin(pages: seq<seq<string>>, ps: Params, y: LineId)
    requires y in Flatten(HeaderClusters(pages, ps))
    ensures y.page < |pages| && y.number < Bound(ps.maxHeaderLines, |pages[y.page]|)
  {
    var cands := HeaderCandidateLists(pages, ps.maxHeaderLines);
    var i, l := ClusteredIsCandidate(cands, ps, y);
    HeaderCandidatesAre(pages[i], i, ps.maxHeaderLines, l);
  }

  /** A line of a kept footer cluster from similarity is a footer candidate
      of its own page. */
  lemma SimilarFooterIsCandidate(pages: seq<seq<string>>, ps: Params, y: LineId) returns (l: Line)
    requires y in Flatten(SimilarFooterClusters(pages, ps))
    ensures l.id == y && y.page < |pages| && l in FooterCandidates(pages[y.page], y.page, ps.maxFooterLines)
  {
    var cands := FooterCandidateLists(pages, ps.maxFooterLines);
    var i;
    i, l := ClusteredIsCandidate(cands, ps, y);
    FooterCandidateBounds(pages[i], i, ps.maxFooterLines, l);
  }

  lemma FooterCandidateBounds(page: seq<string>, p: nat, maxFooterLines: int, l: Line)
    requires l in FooterCandidates(page, p, maxFooterLines)
    ensures l.id.page == p && Bound(-maxFooterLines, |page|) <= l.id.number < |page|
  {
    FooterCandidatesAre(page, p, maxFooterLines, l);
  }

  /** Every footer cluster line from similarity is a line of the volume
      within the last `max_footer_lines` lines of its page. */
  lemma SimilarFooterLinesWithin(pages: seq<seq<string>>, ps: Params, y: LineId)
    requires y in Flatten(SimilarFooterClusters(pages, ps))
    ensures y.page < |pages| && Bound(-ps.maxFooterLines, |pages[y.page]|) <= y.number < |pages[y.page]|
  {
    var l := SimilarFooterIsCandidate(pages, ps, y);
    FooterCandidateBounds(pages[y.page], y.page, ps.maxFooterLines, l);
  }

  /** Every fallback footer line is the potential page-number line of its
      page: one of the page's last two lines. */
  lemma PageNumberLinesWithin(pages: seq<seq<string>>, ps: Params, y: LineId)
    requires y in Flatten(KeepLarge(PageNumberRuns(pages), ps.minClusterSize))
    ensures y.page < |pages| && y.number < |pages[y.page]| && y.number + 2 >= |pages[y.page]|
  {
    var xs := PotentialPageNumbers(pages);
    KeepLargeFlatten(PageNumberRuns(pages), ps.minClusterSize, y);
    PageNumberRunsCover(pages);
    var k :| 0 <= k < |GroupIds(xs)| && GroupIds(xs)[k] == y;
  }

  /** Every footer cluster line is a line of its page. */
  lemma FooterLinesWithin(pages: seq<seq<string>>, ps: Params, y: LineId)
    requires y in Flatten(FooterClusters(pages, ps))
    ensures y.page < |pages| && y.number < |pages[y.page]|
  {
    if SimilarFooterClusters(pages, ps) != [] {
      SimilarFooterLinesWithin(pages, ps, y);
    } else {
      PageNumberLinesWithin(pages, ps, y);
    }
  }

  /** Bounds on the counts: the header never exceeds the candidate window
      `min(max_header_lines, len)` (for a non-negative limit), and the footer
      never exceeds the page. */
  lemma CountsWithinPage(pages: seq<seq<string>>, ps: Params, p: nat)
    requires p < |pages|
    ensures var s := ParsePageStructure(pages, ps)[p];
      && 0 <= s.numHeaderLines <= Bound(ps.maxHeaderLines, |pages[p]|)
      && 0 <= s.numFooterLines <= |pages[p]|
  {
    var hs := Flatten(HeaderClusters(pages, ps));
    var fs := Flatten(FooterClusters(pages, ps));
    ParsedCounts(pages, ps, p);
    var last := LastHeaderLine(hs, p);
    if last.Some? {
      HeaderLinesWithin(pages, ps, LineId(p, last.value));
    }
    var first := FirstFooterLine(fs, p);
    if first.Some? {
      FooterLinesWithin(pages, ps, LineId(p, first.value));
    }
  }

  /** Footers found by similarity never exceed `max_footer_lines`. */
  lemma SimilarFooterWithinLimit(pages: seq<seq<string>>, ps: Params, p: nat)
    requires p < |pages| && SimilarFooterClusters(pages, ps) != []
    ensures ParsePageStructure(pages, ps)[p].numFooterLines <= |pages[p]| - Bound(-ps.maxFooterLines, |pages[p]|)
  {
    var hs := Flatten(HeaderClusters(pages, ps));
    var fs := Flatten(FooterClusters(pages, ps));
    ParsedCounts(pages, ps, p);
    var first := FirstFooterLine(fs, p);
    if first.Some? {
      SimilarFooterLinesWithin(pages, ps, LineId(p, first.value));
    }
  }

  /** Footers found by the page-number fallback are at most two lines: the
      number line, and a blank line after it. */
  lemma FallbackFooterAtMostTwo(pages: seq<seq<string>>, ps: Params, p: nat)
    requires p < |pages| && SimilarFooterClusters(pages, ps) == []
    ensures ParsePageStructure(pages, ps)[p].numFooterLines <= 2
  {
    var hs := Flatten(HeaderClusters(pages, ps));
    var fs := Flatten(FooterClusters(pages, ps));
    ParsedCounts(pages, ps, p);
    var first := FirstFooterLine(fs, p);
    if first.Some? {
      PageNumberLinesWithin(pages, ps, LineId(p, first.value));
    }
  }

  /** Two kept page-number lines of the same page are the same line: the
      potential page numbers hold at most one line per page. */
  lemma FallbackLineUnique(pages: seq<seq<string>>, ps: Params, y: LineId, y': LineId)
    requires y in Flatten(KeepLarge(PageNumberRuns(pages), ps.minClusterSize))
    requires y' in Flatten(KeepLarge(PageNumberRuns(pages), ps.minClusterSize))
    requires y.page == y'.page
    ensures y == y'
  {
    var xs := PotentialPageNumbers(pages);
    KeepLargeFlatten(PageNumberRuns(pages), ps.minClusterSize, y);
    KeepLargeFlatten(PageNumberRuns(pages), ps.minClusterSize, y');
    PageNumberRunsCover(pages);
    var k :| 0 <= k < |GroupIds(xs)| && GroupIds(xs)[k] == y;
    var k' :| 0 <= k' < |GroupIds(xs)| && GroupIds(xs)[k'] == y';
    OneEntryPerPage(pages, k, k');
  }

  /** When no footer cluster is found by similarity, a page whose
      page-number line lies in a run of at least `min_cluster_size` lines
      gets a footer that starts at that line. */
  lemma FallbackFooterFound(pages: seq<seq<string>>, ps: Params, g: seq<LineId>, y: LineId)
    requires SimilarFooterClusters(pages, ps) == []
    requires g in PageNumberRuns(pages) && |g| >= ps.minClusterSize && y in g
    ensures y.page < |pages| && y.number < |pages[y.page]|
    ensures ParsePageStructure(pages, ps)[y.page].numFooterLines == |pages[y.page]| - y.number
  {
    var kept := KeepLarge(PageNumberRuns(pages), ps.minClusterSize);
    var fs := Flatten(FooterClusters(pages, ps));
    assert fs == Flatten(kept);
    assert y in Flatten(kept) by {
      var i :| 0 <= i < |kept| && kept[i] == g;
      FlattenMembership(kept, y);
    }
    PageNumberLinesWithin(pages, ps, y);
    ParsedCounts(pages, ps, y.page);
    var first := FirstFooterLine(fs, y.page);
    assert first.Some?;
    FallbackLineUnique(pages, ps, y, LineId(y.page, first.value));
  }
}
