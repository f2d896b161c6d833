/** The page-number fallback of the detector: reading numbers off the last
    line of each page and keeping runs of consecutive page numbers as footer
    clusters.

    `_extract_line_numbers` scans a line with the regular expression
    `(?:(?<=^)|(?<=\s))\d{1,4}(?=\s|$)`. `Scan` follows the engine: at each
    position it checks the look-behind, takes up to four digits greedily,
    backs off one digit at a time until the look-ahead holds, and on a match
    resumes after it. `Tokens` is the reading the pattern is meant to
    express: the whitespace-separated words made of one to four digits.
    `ScanIsTokens` proves the two agree on every line. */
module PageNumbers {
  import opened Chars
  import opened CleanText
  import opened SeqUtils
  import opened Lines
  import opened Results

  function Pow10(n: nat): (p: nat)
    ensures p >= 1
  {
    if n == 0 then 1 else 10 * Pow10(n - 1)
  }

  /** `int(w)` for a word of ASCII digits: below ten to the length of the word. */
  function DigitsValue(w: string): (v: nat)
    requires AllDigits(w)
    ensures v < Pow10(|w|)
  {
    if w == [] then 0
    else DigitsValue(w[..|w| - 1]) * 10 + (w[|w| - 1] as int - '0' as int)
  }

  /** The number of leading digits of `t`, at most `n` (`\d{1,n}`, greedy). */
  function LeadingDigits(t: string, n: nat): (d: nat)
    ensures d <= n && d <= |t|
    ensures forall i :: 0 <= i < d ==> IsDigit(t[i])
    ensures d < n && d < |t| ==> !IsDigit(t[d])
  {
    if n == 0 || t == [] || !IsDigit(t[0]) then 0 else 1 + LeadingDigits(t[1..], n - 1)
  }

  /** Backtracking over the digit count until `(?=\s|$)` holds. */
  function Backtrack(t: string, n: nat): (m: nat)
    requires n <= |t|
    ensures m <= n
    ensures m > 0 ==> m == |t| || IsSpace(t[m])
    ensures forall m' :: m < m' <= n ==> !(m' == |t| || IsSpace(t[m']))
  {
    if n == 0 then 0
    else if n == |t| || IsSpace(t[n]) then n
    else Backtrack(t, n - 1)
  }

  /** The length of the match at the start of `t`, or 0 for none; `boundary`
      says whether the look-behind holds (start of line or after whitespace). */
  function MatchLength(t: string, boundary: bool): (m: nat)
    ensures m <= |t|
  {
    if boundary then Backtrack(t, LeadingDigits(t, 4)) else 0
  }

  /** `re.finditer` over `t`, converting each match with `int`. */
  function Scan(t: string, boundary: bool): seq<nat>
    decreases |t|
  {
    if t == [] then []
    else
      var m := MatchLength(t, boundary);
      if m > 0 then
        assert AllDigits(t[..m]);
        [DigitsValue(t[..m])] + Scan(t[m..], false)
      else Scan(t[1..], IsSpace(t[0]))
  }

  /** The numbers `_extract_line_numbers` finds in a line. */
  function NumberTokens(text: string): seq<nat>
  {
    Scan(text, true)
  }

  /** The longest prefix without whitespace. */
  function Word(t: string): (w: string)
    ensures |w| <= |t| && w == t[..|w|]
    ensures forall i :: 0 <= i < |w| ==> !IsSpace(w[i])
    ensures |w| == |t| || IsSpace(t[|w|])
  {
    if t == [] || IsSpace(t[0]) then [] else [t[0]] + Word(t[1..])
  }

  /** A word of one to four digits. */
  predicate IsNumberWord(w: string)
  {
    1 <= |w| <= 4 && AllDigits(w)
  }

  /** The values of the number words of `t`, in order. */
  function Tokens(t: string): seq<nat>
    decreases |t|
  {
    if t == [] then []
    else if IsSpace(t[0]) then Tokens(t[1..])
    else
      var w := Word(t);
      (if IsNumberWord(w) then [DigitsValue(w)] else []) + Tokens(t[|w|..])
  }

  /** At a boundary, the engine matches exactly a leading number word, and
      matches all of it: backing off never helps, since the character after a
      shorter digit run is a digit. */
  lemma MatchIsNumberWord(t: string)
    requires t != [] && !IsSpace(t[0])
    ensures MatchLength(t, true) == (if IsNumberWord(Word(t)) then |Word(t)| else 0)
  {
    var w := Word(t);
    var d := LeadingDigits(t, 4);
    BacktrackDigits(t, d);
    assert forall i :: 0 <= i < |w| ==> t[i] == w[i];
    assert IsNumberWord(w) ==> d == |w|;
    assert Backtrack(t, d) > 0 ==> d == |w| && IsNumberWord(w);
  }

  /** Backing off from a run of digits succeeds only at its full length. */
  lemma {:induction false} BacktrackDigits(t: string, d: nat)
    requires d <= |t| && forall i :: 0 <= i < d ==> IsDigit(t[i])
    ensures Backtrack(t, d) == 0 || Backtrack(t, d) == d
  {
    if d > 0 && !(d == |t| || IsSpace(t[d])) {
      BacktrackDigits(t, d - 1);
      if d - 1 > 0 {
        assert IsDigit(t[d - 1]);
      }
    }
  }

  /** The regular-expression scan finds exactly the number words, in order;
      started inside a word, it skips the rest of that word. */
  lemma {:induction false} ScanIsTokens(t: string)
    ensures Scan(t, true) == Tokens(t)
    ensures Scan(t, false) == Tokens(t[|Word(t)|..])
    decreases |t|
  {
    if t != [] {
      var w := Word(t);
      if IsSpace(t[0]) {
        ScanIsTokens(t[1..]);
        assert MatchLength(t, true) == 0;
      } else {
        ScanIsTokens(t[1..]);
        assert Word(t[1..]) == w[1..];
        assert t[1..][|w| - 1..] == t[|w|..];
        MatchIsNumberWord(t);
        if IsNumberWord(w) {
          var rest := t[|w|..];
          ScanIsTokens(rest);
          assert rest == [] || IsSpace(rest[0]);
          assert Word(rest) == [];
          assert t[..|w|] == w;
        }
      }
    }
  }

  /** The retry condition of `_extract_potential_page_numbers`: there is a
      line before the last, and the last has no number and is blank. */
  predicate BlankLast(lines: seq<Line>)
    requires |lines| > 0
  {
    |lines| > 1 && NumberTokens(lines[|lines| - 1].text) == [] && Strip(lines[|lines| - 1].text) == []
  }

  /** `_extract_potential_page_numbers`: the last line and its numbers, or
      the line before it when the last line is blank (has no numbers and
      strips to nothing) and there is one. */
  function ExtractPotential(lines: seq<Line>): (r: (Line, seq<nat>))
    requires |lines| > 0
    ensures r.1 == NumberTokens(r.0.text)
    ensures BlankLast(lines) ==> r.0 == lines[|lines| - 2]
    ensures !BlankLast(lines) ==> r.0 == lines[|lines| - 1]
  {
    var last := lines[|lines| - 1];
    var numbers := NumberTokens(last.text);
    if numbers == [] && Strip(last.text) == [] && |lines| > 1 then
      (lines[|lines| - 2], NumberTokens(lines[|lines| - 2].text))
    else
      (last, numbers)
  }

  /** What page `q` adds to `potential_page_numbers`: nothing for an empty
      page; otherwise the line `_extract_potential_page_numbers` chooses,
      with its number, when that line has exactly one number. An entry is a
      line of the page, one of its last two, whose only number it carries. */
  function PageEntry(pages: seq<seq<string>>, q: nat): (r: Option<(Line, nat)>)
    requires q < |pages|
    ensures r.Some? <==> pages[q] != [] && |ExtractPotential(PageLines(pages[q], q)).1| == 1
    ensures r.Some? ==>
      && r.value.0.id.page == q && OfVolume(pages, r.value.0)
      && r.value.0.id.number + 2 >= |pages[q]|
      && NumberTokens(r.value.0.text) == [r.value.1]
  {
    var lines := PageLines(pages[q], q);
    if lines == [] then None
    else
      var e := ExtractPotential(lines);
      if |e.1| == 1 then Some((e.0, e.1[0])) else None
  }

  /** The two comprehensions building `potential_page_numbers`, over pages
      `p` onwards: the entries of the pages, in page order. */
  function PotentialFrom(pages: seq<seq<string>>, p: nat): (r: seq<(Line, nat)>)
    requires p <= |pages|
    ensures forall k :: 0 <= k < |r| ==>
      && p <= r[k].0.id.page && OfVolume(pages, r[k].0)
      && r[k].0.id.number + 2 >= |pages[r[k].0.id.page]|
      && NumberTokens(r[k].0.text) == [r[k].1]
    ensures forall k, k' :: 0 <= k < k' < |r| ==> r[k].0.id.page < r[k'].0.id.page
    decreases |pages| - p
  {
    if p == |pages| then []
    else
      var rest := PotentialFrom(pages, p + 1);
      match PageEntry(pages, p)
      case None => rest
      case Some(x) => [x] + rest
  }

  /** An entry is listed exactly when some page from `p` on adds it: no page
      whose chosen line has one number is skipped. */
  lemma PotentialFromMembership(pages: seq<seq<string>>, p: nat, x: (Line, nat))
    requires p <= |pages|
    ensures x in PotentialFrom(pages, p) <==> exists q :: p <= q < |pages| && PageEntry(pages, q) == Some(x)
  {
    if x in PotentialFrom(pages, p) {
      var q := PotentialFromSound(pages, p, x);
    }
    if exists q :: p <= q < |pages| && PageEntry(pages, q) == Some(x) {
      var q :| p <= q < |pages| && PageEntry(pages, q) == Some(x);
      PotentialFromComplete(pages, p, q, x);
    }
  }

  lemma {:induction false} PotentialFromSound(pages: seq<seq<string>>, p: nat, x: (Line, nat)) returns (q: nat)
    requires p <= |pages| && x in PotentialFrom(pages, p)
    ensures p <= q < |pages| && PageEntry(pages, q) == Some(x)
    decreases |pages| - p
  {
    if PageEntry(pages, p) == Some(x) {
      q := p;
    } else {
      assert x in PotentialFrom(pages, p + 1) by {
        PotentialFromHead(pages, p);
        if PageEntry(pages, p).Some? {
          InConcatRight([PageEntry(pages, p).value], PotentialFrom(pages, p + 1), x);
        }
      }
      q := PotentialFromSound(pages, p + 1, x);
    }
  }

  lemma {:induction false} PotentialFromComplete(pages: seq<seq<string>>, p: nat, q: nat, x: (Line, nat))
    requires p <= q < |pages| && PageEntry(pages, q) == Some(x)
    ensures x in PotentialFrom(pages, p)
    decreases q - p
  {
    PotentialFromHead(pages, p);
    if p == q {
      InConcat([x], PotentialFrom(pages, p + 1), x);
    } else {
      PotentialFromComplete(pages, p + 1, q, x);
      if PageEntry(pages, p).Some? {
        InConcat([PageEntry(pages, p).value], PotentialFrom(pages, p + 1), x);
      }
    }
  }

  /** One unfolding of `PotentialFrom`: page `p`'s entry, if any, then the rest. */
  lemma PotentialFromHead(pages: seq<seq<string>>, p: nat)
    requires p < |pages|
    ensures PageEntry(pages, p).None? ==> PotentialFrom(pages, p) == PotentialFrom(pages, p + 1)
    ensures PageEntry(pages, p).Some? ==> PotentialFrom(pages, p) == [PageEntry(pages, p).value] + PotentialFrom(pages, p + 1)
  {
  }

  /** Every non-empty page whose chosen line has exactly one number is
      listed, with that number. */
  lemma ChosenLineListed(pages: seq<seq<string>>, q: nat)
    requires q < |pages| && pages[q] != []
    ensures var e := ExtractPotential(PageLines(pages[q], q));
      |e.1| == 1 ==> (e.0, e.1[0]) in PotentialPageNumbers(pages)
  {
    var e := ExtractPotential(PageLines(pages[q], q));
    if |e.1| == 1 {
      PotentialFromComplete(pages, 0, q, (e.0, e.1[0]));
    }
  }

  function PotentialPageNumbers(pages: seq<seq<string>>): seq<(Line, nat)>
  {
    PotentialFrom(pages, 0)
  }

  /** Each page has at most one entry. */
  lemma OneEntryPerPage(pages: seq<seq<string>>, k: int, k': int)
    requires 0 <= k < |PotentialPageNumbers(pages)| && 0 <= k' < |PotentialPageNumbers(pages)|
    requires PotentialPageNumbers(pages)[k].0.id.page == PotentialPageNumbers(pages)[k'].0.id.page
    ensures k == k'
  {
  }

  /** `lambda x, y: y[1] - x[1] == 1` */
  predicate Consecutive(x: (Line, nat), y: (Line, nat))
  {
    y.1 - x.1 == 1
  }

  /** `tuple(map(lambda t: t[0], group))`, as line identities. */
  function GroupIds(group: seq<(Line, nat)>): (r: seq<LineId>)
    ensures |r| == |group|
    ensures forall k :: 0 <= k < |group| ==> r[k] == group[k].0.id
  {
    seq(|group|, k requires 0 <= k < |group| => group[k].0.id)
  }

  function GroupsIds(groups: seq<seq<(Line, nat)>>): (r: seq<seq<LineId>>)
    ensures |r| == |groups|
    ensures forall k :: 0 <= k < |groups| ==> r[k] == GroupIds(groups[k])
  {
    seq(|groups|, k requires 0 <= k < |groups| => GroupIds(groups[k]))
  }

  /** The page-number runs: `potential_clusters` before the size filter. */
  function PageNumberRuns(pages: seq<seq<string>>): seq<seq<LineId>>
  {
    GroupsIds(GroupConsecutiveWhen(PotentialPageNumbers(pages), Consecutive))
  }

  /** Each run lists pages whose numbers go up by exactly one, and a run
      ends where the next number is not the successor; together the runs
      cover every potential page number, in order. */
  lemma PageNumberRunsAreRuns(pages: seq<seq<string>>)
    requires PotentialPageNumbers(pages) != []
    ensures var g := GroupConsecutiveWhen(PotentialPageNumbers(pages), Consecutive);
      Flatten(g) == PotentialPageNumbers(pages) && MaximalRuns(g, Consecutive)
  {
    GroupsAreMaximalRuns(PotentialPageNumbers(pages), Consecutive);
  }

  lemma GroupIdsAppend(a: seq<(Line, nat)>, b: seq<(Line, nat)>)
    ensures GroupIds(a + b) == GroupIds(a) + GroupIds(b)
  {
  }

  lemma {:induction false} FlattenGroupsIds(g: seq<seq<(Line, nat)>>)
    ensures Flatten(GroupsIds(g)) == GroupIds(Flatten(g))
  {
    if g != [] {
      FlattenGroupsIds(g[1..]);
      assert GroupsIds(g)[1..] == GroupsIds(g[1..]);
      GroupIdsAppend(g[0], Flatten(g[1..]));
    }
  }

  /** The runs list every potential page-number line once, in page order,
      also when there are none (one empty run). */
  lemma PageNumberRunsCover(pages: seq<seq<string>>)
    ensures Flatten(PageNumberRuns(pages)) == GroupIds(PotentialPageNumbers(pages))
  {
    var xs := PotentialPageNumbers(pages);
    var g := GroupConsecutiveWhen(xs, Consecutive);
    FlattenGroupsIds(g);
    if xs == [] {
      GroupsOfEmpty(Consecutive);
      assert Flatten(g) == [] + Flatten(g[1..]);
    } else {
      GroupsAreMaximalRuns(xs, Consecutive);
    }
  }
}
