/** `PageStructure`: a page's lines together with the number of running
    header lines at its top and footer lines at its bottom, and the views
    that cut the page into header, body and footer. The counts are plain
    integers, as in the source; the detector only ever sets them to
    non-negative values. */
module Models {
  import opened Slices

  datatype PageStructure = PageStructure(textLines: seq<string>, numHeaderLines: int, numFooterLines: int)

  /** A freshly initialised structure: no header and no footer. */
  function Fresh(lines: seq<string>): (p: PageStructure)
    ensures p.textLines == lines
    ensures !HasHeader(p) && !HasFooter(p)
    ensures HeaderLines(p) == [] && FooterLines(p) == []
    ensures BodyLines(p) == lines
    ensures HasBody(p) <==> lines != []
  {
    PageStructure(lines, 0, 0)
  }

  predicate HasHeader(p: PageStructure)
  {
    p.numHeaderLines > 0
  }

  predicate HasBody(p: PageStructure)
  {
    |p.textLines| - p.numHeaderLines - p.numFooterLines > 0
  }

  predicate HasFooter(p: PageStructure)
  {
    p.numFooterLines > 0
  }

  /** `text_lines[:num_header_lines]`: the first lines of the page, as many
      as the count says and the page has (a negative count would, as in
      Python, drop lines from the end instead). */
  function HeaderLines(p: PageStructure): (r: seq<string>)
    ensures p.numHeaderLines == 0 ==> r == []
    ensures 0 <= p.numHeaderLines ==> |r| == Min(p.numHeaderLines, |p.textLines|)
    ensures r <= p.textLines
  {
    Take(p.textLines, p.numHeaderLines)
  }

  /** `text_lines[num_header_lines:len - num_footer_lines]`: for in-range
      counts, what lies strictly between header and footer. */
  function BodyLines(p: PageStructure): (r: seq<string>)
    ensures (0 <= p.numHeaderLines && 0 <= p.numFooterLines
             && p.numHeaderLines + p.numFooterLines <= |p.textLines|) ==>
      r == p.textLines[p.numHeaderLines..|p.textLines| - p.numFooterLines]
    ensures (0 <= p.numHeaderLines && 0 <= p.numFooterLines <= |p.textLines|
             && p.numHeaderLines + p.numFooterLines > |p.textLines|) ==> r == []
  {
    Slice(p.textLines, p.numHeaderLines, |p.textLines| - p.numFooterLines)
  }

  /** `text_lines[-num_footer_lines:]` when the page has a footer, else
      nothing: the last lines of the page, as many as the count says and the
      page has. */
  function FooterLines(p: PageStructure): (r: seq<string>)
    ensures p.numFooterLines <= 0 ==> r == []
    ensures 0 < p.numFooterLines ==>
      r == p.textLines[|p.textLines| - Min(p.numFooterLines, |p.textLines|)..]
  {
    if HasFooter(p) then Drop(p.textLines, -p.numFooterLines) else []
  }

  /** The guard in `footer_lines` is needed: without it a zero count would
      make the slice `[-0:]`, which is the whole page. */
  lemma FooterGuardNeeded(p: PageStructure)
    requires p.numFooterLines == 0
    ensures Drop(p.textLines, -p.numFooterLines) == p.textLines
    ensures FooterLines(p) == []
  {
    DropMinusZero(p.textLines);
  }

  /** When the counts fit the page, the three views cut it without loss or
      overlap. */
  lemma Partition(p: PageStructure)
    requires 0 <= p.numHeaderLines && 0 <= p.numFooterLines
    requires p.numHeaderLines + p.numFooterLines <= |p.textLines|
    ensures HeaderLines(p) + BodyLines(p) + FooterLines(p) == p.textLines
  {
    var xs, h, f := p.textLines, p.numHeaderLines, p.numFooterLines;
    assert HeaderLines(p) == xs[..h];
    assert FooterLines(p) == xs[|xs| - f..];
    assert xs[..h] + xs[h..|xs| - f] + xs[|xs| - f..] == xs;
  }

  /** When the counts overlap on a short page, the header and footer share
      lines and the three views repeat them. */
  lemma OverlapRepeats(p: PageStructure)
    requires p.textLines == ["x"] && p.numHeaderLines == 1 && p.numFooterLines == 1
    ensures HeaderLines(p) + BodyLines(p) + FooterLines(p) == ["x", "x"]
  {
  }

  lemma HeaderAgrees(p: PageStructure)
    requires 0 <= p.numHeaderLines <= |p.textLines|
    ensures HasHeader(p) <==> HeaderLines(p) != []
  {
  }

  lemma FooterAgrees(p: PageStructure)
    requires p.numFooterLines <= |p.textLines|
    ensures HasFooter(p) <==> FooterLines(p) != []
  {
  }

  /** For counts within the page, `has_body` says exactly that the body view
      is non-empty. */
  lemma BodyAgrees(p: PageStructure)
    requires 0 <= p.numHeaderLines <= |p.textLines|
    requires 0 <= p.numFooterLines <= |p.textLines|
    ensures HasBody(p) <==> BodyLines(p) != []
  {
  }
}
