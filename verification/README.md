# Running headers and footers of HTRC volumes, in Dafny

This project models the core of the HTRC Workset Toolkit's running
header/footer detector, `parse_page_structure`, and proves properties of the
model. The detector takes a volume, a list of pages each given as a list of
text lines. For every page it decides how many lines at the top form a
running header and how many at the bottom form a running footer.

It works as follows:

- It picks candidate lines near the top and bottom of each page.
- It links candidates of nearby pages whose cleaned texts are close in
  Levenshtein distance.
- It clusters the links with union-by-size and keeps the large clusters.
- When no footer cluster survives, it falls back to runs of consecutive
  page numbers.
- It turns the kept lines into per-page counts.

The `PageStructure` views then cut each page into header, body and footer.

Two small utilities of the same package are modelled too: `split_items`,
which chunks a sequence for batched requests, and the HathiTrust id parsers
`parse_record_id` and `parse_volume_id`.

Modules, one per file:

| file | module | what it holds |
|---|---|---|
| slices.dfy | `Slices` | Python slicing `xs[lo:hi]` with negative and out-of-range bounds |
| chars.dfy | `Chars` | the character classes `\w`/letter, `\d`, `\s` and lower-casing |
| clean_text.dfy | `CleanText` | `clean_text` |
| levenshtein.dfy | `Levenshtein` | the edit-distance recurrence and the two-row loop |
| seq_utils.dfy | `SeqUtils` | `flatten`, `pairwise_combine_within_distance`, `group_consecutive_when` |
| models.dfy | `Models` | `PageStructure` and its views |
| lines.dfy | `Lines` | `_Line`, candidates, `similarity_ratio`, similarity edges |
| clustering.dfy | `Clustering` | `_cluster_lines` |
| page_numbers.dfy | `PageNumbers` | `_extract_line_numbers`, `_extract_potential_page_numbers`, the page-number runs |
| running_headers.dfy | `RunningHeaders` | `parse_page_structure` |
| split_items.dfy | `SplitItems` | `split_items` |
| resolve.dfy | `Resolve` | `parse_record_id`, `parse_volume_id`, `ORG_CODES` |
| results.dfy | `Results` | `Option` and `Result` |

Modelling choices:

- A page is identified by its index in the volume. A line is identified by
  its page and line number (`LineId`), which is what `_Line.__eq__` and
  `__hash__` compare.
- `_cluster_lines` is a left fold of one step per edge over two things:
  an arena of clusters (a sequence of lists) and a map from each line to
  the index of its cluster. `Clustering.ClusterLoop` is a method that
  runs the source's loop on an arena and map held in local variables, with
  the source's four branches and an inner loop (`Clustering.PointAt`) for
  the reassignment; it is proved to return the fold's result.
- The levenshtein loop is `Levenshtein.LevenshteinTwoRows`. It is proved
  equal to the recursive recurrence `Table`.
- The `finditer` scan of `_extract_line_numbers` is modelled as the regex
  engine runs it: look-behind, then greedy `\d{1,4}`, then backing off
  until the look-ahead holds. `PageNumbers.ScanIsTokens` proves this equals
  the intended reading: the whitespace-separated words of one to four
  digits.
- `group_consecutive_when` is modelled with its two quirks. An empty input
  yields one empty group. The last element is emitted twice when
  `pred(last, last)` holds; the page-number predicate `y - x == 1` never
  holds on equal arguments, so the fallback never hits this.
- Errors (`ValueError`, and the exceptions of the babel branch) are `Err`
  values of `Results.Result`.

## Model

| member | source | states |
|---|---|---|
| Slices.Bound | htrc/models/__init__.py:39 | a slice bound lands in `[0, len]`: a bound in `[0, len]` is kept, a larger one is clamped to `len`, a negative one within range counts back from the end, and one further back is clamped to 0 |
| Slices.DropMinusZero | htrc/models/__init__.py:47 | `xs[-0:]` is the whole list |
| Slices.DropNegative | htrc/models/__init__.py:47 | for a positive count, `xs[-k:]` is the last `min(k, len)` elements |
| CleanText.CleanShape | htrc/hf_utils/__init__.py:7-17 | the cleaned text is lower-case and has no leading, trailing or doubled space; every character is a letter or a single space; its letters are the input's letters, lower-cased, in order |
| CleanText.CleanIdempotent | htrc/hf_utils/__init__.py:7-17 | cleaning a cleaned text changes nothing |
| CleanText.CleanFixedPoint | htrc/hf_utils/__init__.py:7-17 | a text that already has the cleaned shape is its own cleaning |
| CleanText.CleanIsJoinedWords | htrc/hf_utils/__init__.py:7-17 | the cleaned text is the input's words (maximal runs of letters, `Words`), in order, joined by single spaces and lower-cased: each run of non-letters between two words becomes one space and runs at either end vanish |
| CleanText.WordsAreWords | htrc/hf_utils/__init__.py:9 | every word is a non-empty run of letters |
| CleanText.StripReplaced | htrc/hf_utils/__init__.py:9-13 | stripping the result of the non-letter replacement leaves the words joined by single spaces |
| CleanText.ReplaceWords | htrc/hf_utils/__init__.py:9 | on text that is empty or starts with a letter, the replacement is the words joined by single spaces, plus one space when the text ends in a non-letter |
| CleanText.ReplaceShape | htrc/hf_utils/__init__.py:9 | replacing runs of non-letters with one space leaves letters and single spaces, keeps the letters, and starts with a space exactly when the input starts with a non-letter |
| CleanText.CollapseSpacedLetters | htrc/hf_utils/__init__.py:11 | collapsing space runs changes nothing once no two spaces are adjacent |
| CleanText.StripShape | htrc/hf_utils/__init__.py:13 | stripping keeps the letters and the single spacing and leaves no space at either end |
| CleanText.LettersOfLower | htrc/hf_utils/__init__.py:15 | lower-casing commutes with keeping only the letters |
| CleanText.LowerAll | htrc/hf_utils/__init__.py:15 | lower-casing maps each character on its own and keeps the length |
| Levenshtein.LevenshteinTwoRows | htrc/hf_utils/__init__.py:20-67 | the two-row loop returns 0 for equal strings and the other length for an empty one; otherwise it returns the last cell of the full edit-distance recurrence with the given costs |
| Levenshtein.FillRow | htrc/hf_utils/__init__.py:46-64 | one pass of the inner loop turns row `j` of the recurrence into row `j + 1` |
| Levenshtein.ShortcutsAgree | htrc/hf_utils/__init__.py:22-33 | with non-negative costs, the degenerate-case shortcuts agree with the recurrence |
| Levenshtein.TableDiagonal | htrc/hf_utils/__init__.py:36-67 | with non-negative costs, a string is at distance 0 from itself in the recurrence |
| Levenshtein.TableNonNegative | htrc/hf_utils/__init__.py:36-67 | with non-negative costs, every cell of the recurrence is non-negative |
| Levenshtein.TableTranspose | htrc/hf_utils/__init__.py:36-67 | swapping the strings swaps the insert and delete costs |
| Levenshtein.Symmetric | htrc/hf_utils/__init__.py:20-67 | with equal insert and delete costs, the distance is symmetric |
| Levenshtein.UnitBounds | htrc/hf_utils/__init__.py:20-67 | with unit costs, the distance lies between the length difference and the longer length |
| Levenshtein.TableZero | htrc/hf_utils/__init__.py:36-67 | with unit costs, a zero cell means equal prefixes of equal length |
| Levenshtein.UnitZeroIffEqual | htrc/hf_utils/__init__.py:20-67 | with unit costs, the distance is 0 exactly when the strings are equal |
| Levenshtein.KittenSitting | htrc/hf_vol_load/__init__.py:89-92 | `kitten` to `sitting` with replace cost 2 is 5 |
| SeqUtils.FlattenMembership | htrc/hf_utils/__init__.py:107-110 | an element is in the flattened list exactly when it is in one of the lists |
| SeqUtils.FlattenAppend | htrc/hf_utils/__init__.py:107-110 | flattening distributes over concatenation |
| SeqUtils.PairWithEach | htrc/hf_utils/__init__.py:78 | the head is paired with each following element, in order |
| SeqUtils.PairsAtIndices | htrc/hf_utils/__init__.py:70-81 | the generated pairs are the elements at the generated index pairs |
| SeqUtils.WindowIndicesBounded | htrc/hf_utils/__init__.py:70-81 | for `n >= 1`, only pairs `(i, j)` with `i < j <= i + n - 1` are generated |
| SeqUtils.WindowIndicesComplete | htrc/hf_utils/__init__.py:70-81 | for `n >= 1`, every such pair is generated |
| SeqUtils.WindowIndicesOrdered | htrc/hf_utils/__init__.py:70-81 | the pairs come ordered by `i`, then by `j`, with no repeats |
| SeqUtils.ScanRuns | htrc/hf_utils/__init__.py:88-94 | after each round of the loop, the yielded groups are maximal runs, and the open group is chained and continues into the next element |
| SeqUtils.ScanCovers | htrc/hf_utils/__init__.py:88-94 | after each round, the yielded groups and the open group concatenate to the consumed prefix |
| SeqUtils.GroupsAreMaximalRuns | htrc/hf_utils/__init__.py:84-104 | for a non-empty input whose last element fails `pred(last, last)`: the groups concatenate to the input, `pred` holds inside each group, and `pred` fails across each boundary |
| SeqUtils.GroupsOfEmpty | htrc/hf_utils/__init__.py:84-104 | an empty input yields one empty group |
| SeqUtils.GroupsRepeatLast | htrc/hf_utils/__init__.py:96-104 | with two or more elements and `pred(last, last)`, the last element is emitted twice |
| Models.Fresh | htrc/models/__init__.py:21-23 | a fresh structure has no header or footer; its body is the whole page, non-empty exactly when the page is |
| Models.HeaderLines | htrc/models/__init__.py:37-39 | the header view is a prefix of the page; it is empty for a zero count and has `min(count, len)` lines for a non-negative one |
| Models.BodyLines | htrc/models/__init__.py:41-43 | for counts that fit, the body view is exactly what lies between header and footer; it is empty when non-negative counts overlap |
| Models.FooterLines | htrc/models/__init__.py:45-47 | the footer view is empty without a footer and otherwise holds the last `min(count, len)` lines |
| Models.FooterGuardNeeded | htrc/models/__init__.py:45-47 | without the `has_footer` guard, a zero count would make the footer the whole page |
| Models.Partition | htrc/models/__init__.py:37-47 | when the counts fit the page, header, body and footer concatenate back to the page |
| Models.OverlapRepeats | htrc/models/__init__.py:37-47 | when the counts overlap on a one-line page, the three views repeat the line |
| Models.HeaderAgrees | htrc/models/__init__.py:25-27 | for a count within the page, `has_header` holds exactly when the header view is non-empty |
| Models.FooterAgrees | htrc/models/__init__.py:33-35 | for a count up to the page length, `has_footer` holds exactly when the footer view is non-empty |
| Models.BodyAgrees | htrc/models/__init__.py:29-31 | for counts within the page, `has_body` holds exactly when the body view is non-empty |
| Lines.SameLineIsEquality | htrc/runningheaders/__init__.py:19-25 | two lines of a volume are equal under `__eq__` exactly when they are the same line; the text plays no part |
| Lines.PageLines | htrc/runningheaders/__init__.py:53-54 | a page's lines are numbered from 0 in order and carry their page |
| Lines.KeepComparable | htrc/runningheaders/__init__.py:121 | the filter keeps exactly the lines whose cleaned text has at least 4 characters |
| Lines.HeaderCandidatesAre | htrc/runningheaders/__init__.py:121 | a line is a header candidate exactly when its number is below the slice bound of `max_header_lines` (Python's `[:max_header_lines]`: `min(max_header_lines, len)` when it is non-negative, `len + max_header_lines` floored at 0 when it is negative) of its page and its cleaned text has at least 4 characters; candidates come in line order |
| Lines.FooterCandidatesAre | htrc/runningheaders/__init__.py:122 | a line is a footer candidate exactly when it is among the last `max_footer_lines` lines (by Python's slice rule) and its cleaned text has at least 4 characters; candidates come in line order |
| Lines.SimilarityRatio | htrc/runningheaders/__init__.py:40-44 | the ratio lies in `[0, 1]` and is 1 exactly when the cleaned texts are equal |
| Lines.SimilarityThreshold | htrc/runningheaders/__init__.py:40-44 | the ratio reaches a threshold exactly when `max_len - distance >= threshold * max_len` |
| Lines.CrossEdges | htrc/runningheaders/__init__.py:129-130 | the pairs from two candidate lists are exactly the similar cross pairs |
| Lines.SimilarLinesAre | htrc/runningheaders/__init__.py:124-135 | for `window_size >= 1`, a pair of lines is an edge exactly when the lines are candidates of pages `i < j <= i + window_size - 1` and they are similar |
| Lines.SimilarLinesSound | htrc/runningheaders/__init__.py:124-135 | every edge joins similar candidates of pages within the window |
| Lines.SimilarLinesComplete | htrc/runningheaders/__init__.py:124-135 | every similar pair of candidates of pages within the window is an edge |
| Clustering.Reassign | htrc/runningheaders/__init__.py:66-67 | the moved lines point to the larger cluster; every other line keeps its cluster |
| Clustering.Step | htrc/runningheaders/__init__.py:59-77 | one edge's update keeps every line pointing at an existing cluster |
| Clustering.InvAll | htrc/runningheaders/__init__.py:56-77 | after any prefix of the edges: every line is in the cluster it points to; live clusters hold only lines pointing to them; each live cluster has 2 or more lines; both ends of every processed edge share a cluster |
| Clustering.LiveDisjoint | htrc/runningheaders/__init__.py:79 | distinct returned clusters share no line |
| Clustering.LiveCover | htrc/runningheaders/__init__.py:79 | a line is in some returned cluster exactly when it is a key of the cluster map |
| Clustering.LiveJoin | htrc/runningheaders/__init__.py:79 | two lines that point to the same cluster are in the same returned cluster |
| Clustering.ClusteredIsEndpoint | htrc/runningheaders/__init__.py:56-79 | every line in a returned cluster is one side of some pair |
| Clustering.ClusterLinesProperties | htrc/runningheaders/__init__.py:56-79 | the returned clusters each have 2 or more lines and are pairwise disjoint; their union is exactly the set of edge endpoints; both ends of every edge lie in one cluster |
| Clustering.ConnectedAll | htrc/runningheaders/__init__.py:56-77 | after the update loop over any list of pairs, each line is linked to every line of the cluster it points to by a chain of those pairs |
| Clustering.ClustersAreComponents | htrc/runningheaders/__init__.py:56-79 | for a line in a returned cluster, another line is in that cluster exactly when a chain of pairs links the two: the clusters are the connected components of the pairs |
| Clustering.PointAt | htrc/runningheaders/__init__.py:66-67 | the loop `for x in smaller: cluster_map[x] = larger` computes `Reassign` |
| Clustering.ClusterLoop | htrc/runningheaders/__init__.py:56-79 | the loop over the edges, one branch per case of the source, computes the fold; its clusters have 2 or more lines and cover exactly the edge endpoints |
| PageNumbers.DigitsValue | htrc/runningheaders/__init__.py:101 | `int` of a digit word of length `n` is below `10^n` |
| PageNumbers.LeadingDigits | htrc/runningheaders/__init__.py:102 | `\d{1,4}` takes the longest run of at most four leading digits |
| PageNumbers.Backtrack | htrc/runningheaders/__init__.py:102 | backing off from `n` digits stops at a length the look-ahead accepts (end of text or whitespace next), and no longer length up to `n` is accepted |
| PageNumbers.MatchIsNumberWord | htrc/runningheaders/__init__.py:102 | at a word boundary the pattern matches exactly a whole word of 1 to 4 digits |
| PageNumbers.ScanIsTokens | htrc/runningheaders/__init__.py:100-104 | the numbers found in a line are exactly the values of its whitespace-separated words of 1 to 4 digits, in order |
| PageNumbers.ExtractPotential | htrc/runningheaders/__init__.py:106-112 | the chosen line is the one before the last exactly when there are two or more lines and the last has no number and strips to nothing; otherwise it is the last line; the numbers are those of the chosen line |
| PageNumbers.PageEntry | htrc/runningheaders/__init__.py:143-144 | a page contributes an entry exactly when it is non-empty and its chosen line has exactly one number; the entry is a line of that page, one of its last two, whose only number is the entry's number |
| PageNumbers.PotentialFrom | htrc/runningheaders/__init__.py:143-144 | each entry is a line of its page, one of the page's last two, whose only number is the entry's number; entries come in page order, at most one per page |
| PageNumbers.PotentialFromMembership | htrc/runningheaders/__init__.py:143-144 | an entry is listed exactly when some page from the start page on contributes it |
| PageNumbers.PotentialFromSound | htrc/runningheaders/__init__.py:143-144 | every listed entry is contributed by a page from the start page on |
| PageNumbers.PotentialFromComplete | htrc/runningheaders/__init__.py:143-144 | every page from the start page on that contributes an entry has it listed |
| PageNumbers.ChosenLineListed | htrc/runningheaders/__init__.py:143-144 | a non-empty page whose chosen line has exactly one number is listed with that line and number |
| PageNumbers.PageNumberRunsAreRuns | htrc/runningheaders/__init__.py:145-146 | the runs concatenate to the potential page numbers, each run counts up by one, and a run ends where the next number is not the successor |
| PageNumbers.PageNumberRunsCover | htrc/runningheaders/__init__.py:143-146 | the runs list every potential page-number line once, in page order |
| RunningHeaders.HeaderCandidateLists | htrc/runningheaders/__init__.py:119-121 | there is one header candidate list per page, and every candidate can be compared |
| RunningHeaders.FooterCandidateLists | htrc/runningheaders/__init__.py:119-122 | there is one footer candidate list per page, and every candidate can be compared |
| RunningHeaders.KeepLarge | htrc/runningheaders/__init__.py:137-140 | exactly the clusters with at least `min_cluster_size` lines are kept |
| RunningHeaders.LastHeaderLine | htrc/runningheaders/__init__.py:88-92 | the largest line number among the page's lines, and none when the page has none |
| RunningHeaders.FirstFooterLine | htrc/runningheaders/__init__.py:94-98 | the smallest line number among the page's lines, and none when the page has none |
| RunningHeaders.Assemble | htrc/runningheaders/__init__.py:156-163 | one structure per page, in order, each keeping its page's lines |
| RunningHeaders.ParsePageStructure | htrc/runningheaders/__init__.py:47-163 | one structure per input page, in order, each keeping its page's lines |
| RunningHeaders.HeaderCountMeaning | htrc/runningheaders/__init__.py:149-160 | a page has a header exactly when one of its lines is in a kept header cluster; the header then ends just after the last such line |
| RunningHeaders.FooterCountMeaning | htrc/runningheaders/__init__.py:150-161 | a page has a footer exactly when one of its lines is in a kept footer cluster; the footer then starts at the first such line |
| RunningHeaders.ClusteredIsCandidate | htrc/runningheaders/__init__.py:124-140 | every line of a kept cluster is a candidate of some page |
| RunningHeaders.HeaderLinesWithin | htrc/runningheaders/__init__.py:121-138 | every header-cluster line has a number below the slice bound of `max_header_lines` (Python's `[:max_header_lines]`: `min(max_header_lines, len)` when it is non-negative, `len + max_header_lines` floored at 0 when it is negative) of its page |
| RunningHeaders.SimilarFooterLinesWithin | htrc/runningheaders/__init__.py:122-140 | every footer-cluster line found by similarity lies within the last `max_footer_lines` lines of its page |
| RunningHeaders.PageNumberLinesWithin | htrc/runningheaders/__init__.py:142-147 | every fallback footer line is one of the last two lines of its page |
| RunningHeaders.CountsWithinPage | htrc/runningheaders/__init__.py:156-161 | a page's header count is between 0 and the slice bound of `max_header_lines` (Python's `[:max_header_lines]`: `min(max_header_lines, len)` when it is non-negative, `len + max_header_lines` floored at 0 when it is negative); its footer count is between 0 and the page length |
| RunningHeaders.SimilarFooterWithinLimit | htrc/runningheaders/__init__.py:139-161 | when footer clusters are found by similarity, no footer is longer than the candidate window at the bottom of the page |
| RunningHeaders.FallbackLineUnique | htrc/runningheaders/__init__.py:142-147 | two fallback footer lines on the same page are the same line |
| RunningHeaders.FallbackFooterFound | htrc/runningheaders/__init__.py:142-161 | when similarity finds no footer cluster, a page whose entry lies in a run of at least `min_cluster_size` numbers gets a footer that starts at that entry's line |
| RunningHeaders.FallbackFooterAtMostTwo | htrc/runningheaders/__init__.py:142-161 | when the page-number fallback is used, no footer is longer than two lines |
| SplitItems.FloorDiv | htrc/util/__init__.py:15 | `math.floor(a / b)` is the `q` with `q * b <= a < (q + 1) * b`; this flips for a negative divisor |
| SplitItems.SplitFlatten | htrc/util/__init__.py:7-19 | for a positive size, the chunks concatenate back to the sequence |
| SplitItems.SplitSizes | htrc/util/__init__.py:15-19 | for a positive size, every chunk but the last has exactly `k` elements, and the last has between 1 and `k` |
| SplitItems.SplitCount | htrc/util/__init__.py:15-19 | for a positive size, there are `ceil(len / k)` chunks |
| SplitItems.CeilFromFloor | htrc/util/__init__.py:15-19 | `ceil(n / k)` is the number of full chunks, plus one when a remainder is left |
| SplitItems.EmptyYieldsNothing | htrc/util/__init__.py:15-19 | an empty sequence yields no chunk |
| SplitItems.NegativeSizeYieldsNothing | htrc/util/__init__.py:15-19 | a negative size yields no chunk |
| SplitItems.SevenInThrees | htrc/util/__init__.py:15-19 | seven elements in threes give `[1,2,3]`, `[4,5,6]`, `[7]` |
| Resolve.DigitRun | htrc/util/resolve.py:70 | `[\d]+` takes the whole leading run of digits |
| Resolve.Search | htrc/util/resolve.py:70-73 | a successful search captures a non-empty run of digits |
| Resolve.SearchFailsIffNoDigit | htrc/util/resolve.py:72-75 | the search fails exactly when the input has no digit |
| Resolve.NoPrefixIsFirstRun | htrc/util/resolve.py:70-73 | where the catalog prefix never matches, the captured digits are the first run of digits |
| Resolve.PlainIdIsFirstRun | htrc/util/resolve.py:70-73 | for input without a `:`, the captured digits are the first run of digits |
| Resolve.RecordUrlGivesDigits | htrc/util/resolve.py:70-73 | a Record URL, with or without the `s`, followed by digits yields those digits |
| Resolve.DigitsFoundWhole | htrc/util/resolve.py:70-73 | a non-empty string of digits is found whole |
| Resolve.ParseRecordId | htrc/util/resolve.py:57-85 | a returned record id is all digits; it has exactly 9 digits without `fix_truncated_id`, and at least 9 with it |
| Resolve.ParseRecordIdMeaning | htrc/util/resolve.py:72-85 | no digits means an error. A 9-digit run is returned as is. With `fix_truncated_id`, another run is left-padded with zeros to 9 digits, or kept when longer, and ends with the run. Without it, another run is an error |
| Resolve.RecordUrlExample | tests/test_htrc_util_resolve.py:17-18 | the Record URL yields `000234911` |
| Resolve.PlainRecordExample | tests/test_htrc_util_resolve.py:20-21 | the plain id `000234911` is returned as is |
| Resolve.HandleUrlRejected | tests/test_htrc_util_resolve.py:24-25 | a Handle URL is rejected, since its first digits `2027` are not 9 digits |
| Resolve.NoDigitRejected | tests/test_htrc_util_resolve.py:27-28 | a sentence without digits is rejected |
| Resolve.TruncatedExamples | tests/test_htrc_util_resolve.py:30-36 | `234911` is rejected, but becomes `000234911` when fixing is asked for; `1022499` becomes `001022499` |
| Resolve.CheckOrg | htrc/util/resolve.py:117-120 | an id is accepted, unchanged, exactly when it is non-empty and starts with an organization code |
| Resolve.ParseVolumeId | htrc/util/resolve.py:88-120 | every accepted volume id starts with an organization code |
| Resolve.PlainVolumeId | htrc/util/resolve.py:112-120 | a string that is neither a Handle nor a babel URL is returned unchanged exactly when it starts with an organization code |
| Resolve.OrgCodeLengths | htrc/util/resolve.py:12-54 | every organization code has 2 to 4 characters |
| Resolve.RemoveAll | htrc/util/resolve.py:103 | removing `/2027/` never lengthens the path |
| Resolve.RemoveAllUnchangedIff | htrc/util/resolve.py:103 | removal leaves the path unchanged exactly when `/2027/` does not occur in it |
| Resolve.RemovalCanReassemble | htrc/util/resolve.py:103 | one removal pass can leave a new `/2027/` behind: `/20/2027/27/` becomes `/2027/` |
| Resolve.LeadingYearRemoved | htrc/util/resolve.py:99-103 | a Handle path that is `/2027/` followed by an id without `/2027/` in it reduces to that id |
| Resolve.HandleVolumeExample | tests/test_htrc_util_resolve.py:39-40 | the Handle URL yields `uc2.ark:/13960/fk92805m1s` |
| Resolve.BabelVolumeExample | tests/test_htrc_util_resolve.py:42-43 | the babel URL whose `id` parameter is `uc2.ark:/13960/fk92805m1s` yields that id |
| Resolve.PlainVolumeExample | tests/test_htrc_util_resolve.py:45-46 | the plain volume id is returned as is |
| Resolve.UnknownOrgRejected | tests/test_htrc_util_resolve.py:48-50 | `uc42.ark:/13960/fk92805m1s` is rejected: no organization code is a prefix of it |

## Left out

- Unicode character classes. `Chars` defines "letter", "digit", "whitespace" and lower-casing by concrete tables. Word characters (`\w`) are ASCII and Latin-1 letters, the Latin-1 superscripts and vulgar fractions, Latin Extended-A/B letters and Cyrillic letters. Whitespace is the set `str.isspace` accepts. Python's full Unicode database is not reproduced. `\d` is ASCII digits only.
- Chars.ToLower: lower-casing covers ASCII, Latin-1 and basic Cyrillic (U+0400 to U+042F) only. Latin Extended-A/B capitals such as `Ā` and `Ł`, and Cyrillic capitals beyond that block such as `Ґ`, keep their case here, although `str.lower` lowers them.
- Floating point. `min_similarity_ratio` and the similarity ratio are exact reals. IEEE rounding of `1 - lev / max_len` is not modelled.
- Page identity. A page is its index in the list, not the object compared by `is`, so a page object listed twice counts as two pages.
- The run-time class change of each page to `StructuredPage`. The result is a new sequence of `PageStructure` records instead.
- `_Line.__eq__` on a non-`_Line` argument. The model is typed, so that case cannot arise.
- The `text`, `header`, `body` and `footer` properties. They join lines with `os.linesep`, which is platform text.
- Cluster order. `_cluster_lines` returns a Python set, whose order is arbitrary. The model returns the live clusters in the order they were created. Only the flattened membership of the clusters reaches the counts, so the counts do not depend on that order.
- Levenshtein.KittenSitting: the other pinned value, `rosettacode` against `raisethysword` giving 8, is not proved. Its table is too large to evaluate cell by cell in the verifier.
- SeqUtils.WindowIndicesBounded, Lines.SimilarLinesAre, Lines.SimilarLinesSound, Lines.SimilarLinesComplete: the pair characterisation is proved for a window size `n >= 1` only. The functions themselves follow Python for `n <= 0`: `xs[:n - 1]` then pairs each page with every later page except the last `1 - n` pages of the volume, and no property is stated for that case.
- Python's `split_items` takes `floor` of a float division, which can round for lengths beyond 2^53. `SplitItems.FloorDiv` is exact. A zero size divides by zero in the source and is excluded by a precondition.
- `urlparse` and `parse_qs`. Their results are the input `ParsedUrl`: network location, path, query, and the first value of the `id` parameter. How `parse_qs` splits on `;` differs between Python versions; the input decides it.
- `volume_id_to_record_id` and `record_id_to_volume_ids`. They fetch from the network.
- Lines.SimilarityRatio: two texts that both clean to nothing make the source divide by zero (`ZeroDivisionError`); a precondition excludes that case. It cannot arise in the pipeline, because every compared line has a cleaned text of at least 4 characters.
- CleanText.CleanShape: the two sample strings in htrc/hf_vol_load/__init__.py:72-75 are not evaluated. Each is too long for the verifier to unfold `clean_text` character by character. `CleanText.CleanIsJoinedWords` fixes their results as their words, lower-cased and joined by single spaces.
- Error messages. They are carried as strings, but no property is stated about their text.
