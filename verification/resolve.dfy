/** Reading HathiTrust identifiers out of user input: `parse_record_id` for
    catalog record ids and `parse_volume_id` for volume ids.

    `parse_record_id` runs `re.search` with the pattern
    `(?:http[s]?://catalog.hathitrust.org/Record/)?([\d]+)` and takes the
    captured digits; its dots are unescaped, so each matches any character
    but a newline. A record id has nine digits: a different length is an
    error unless `fix_truncated_id` asks for left-padding with zeros.

    `parse_volume_id` takes the id from a Handle URL's path, from the `id`
    query parameter of a `babel.hathitrust.org` URL, or from the whole
    string, and accepts it only when it starts with a known organization
    code. The URL has already been split by `urlparse`/`parse_qs`; the model
    takes their results as input. */
module Resolve {
  import opened Chars
  import opened Results

  // ---------------------------------------------------------------------
  // parse_record_id

  /** The longest prefix of digits: `[\d]+` is greedy and nothing after it
      in the pattern can make it give digits back. */
  function DigitRun(t: string): (d: string)
    ensures |d| <= |t| && d == t[..|d|] && AllDigits(d)
    ensures |d| == |t| || !IsDigit(t[|d|])
  {
    if t == [] || !IsDigit(t[0]) then []
    else
      var rest := DigitRun(t[1..]);
      assert [t[0]] + t[1..][..|rest|] == t[..|rest| + 1];
      [t[0]] + rest
  }

  const WithS := "https://catalog.hathitrust.org/Record/"
  const WithoutS := "http://catalog.hathitrust.org/Record/"

  /** One pattern character against one input character: `.` matches
      anything but a newline, every other character only itself. */
  predicate CharMatches(p: char, c: char)
  {
    if p == '.' then c != '\n' else p == c
  }

  /** The literal part of the pattern matches at the start of `t`. */
  predicate PatternAt(pat: string, t: string)
  {
    |pat| <= |t| && forall i :: 0 <= i < |pat| ==> CharMatches(pat[i], t[i])
  }

  /** The captured group of a match starting at the beginning of `t`, if
      there is one. The optional prefix is tried first (with the `s`, then
      without), and dropped again when no digit follows it. */
  function MatchAt(t: string): (r: Option<string>)
    ensures r.Some? ==> r.value != [] && AllDigits(r.value)
  {
    if PatternAt(WithS, t) && DigitRun(t[|WithS|..]) != [] then Some(DigitRun(t[|WithS|..]))
    else if PatternAt(WithoutS, t) && DigitRun(t[|WithoutS|..]) != [] then Some(DigitRun(t[|WithoutS|..]))
    else if DigitRun(t) != [] then Some(DigitRun(t))
    else None
  }

  /** `re.search(REGEX, string).group(1)`: the first position where a match
      starts wins. */
  function Search(s: string): (r: Option<string>)
    ensures r.Some? ==> r.value != [] && AllDigits(r.value)
  {
    match MatchAt(s)
    case Some(g) => Some(g)
    case None => if s == [] then None else Search(s[1..])
  }

  /** The first run of digits of `s`: what the search finds when no catalog
      prefix gets in the way. */
  function FirstRun(s: string): Option<string>
  {
    if s == [] then None
    else if IsDigit(s[0]) then Some(DigitRun(s))
    else FirstRun(s[1..])
  }

  /** `'0' * n`, which is empty for a negative `n`. */
  function Zeros(n: int): (z: string)
    ensures |z| == if n > 0 then n else 0
    ensures forall i :: 0 <= i < |z| ==> z[i] == '0'
  {
    if n <= 0 then [] else ['0'] + Zeros(n - 1)
  }

  function ParseRecordId(s: string, fixTruncated: bool): (r: Result<string>)
    ensures r.Ok? ==> AllDigits(r.value)
    ensures r.Ok? && !fixTruncated ==> |r.value| == 9
    ensures r.Ok? && fixTruncated ==> |r.value| >= 9
  {
    match Search(s)
    case None => Err("No record ID found in string: " + s)
    case Some(record) =>
      if |record| == 9 then Ok(record)
      else if fixTruncated then Ok(Zeros(9 - |record|) + record)
      else Err("Invalid record ID. Valid record IDs are 9 digits. "
               + "Call parse_record_id(string, fix_truncated_id=True) to correct.")
  }

  /** The search fails exactly when the input has no digit at all. */
  lemma {:induction false} SearchFailsIffNoDigit(s: string)
    ensures Search(s).None? <==> forall i :: 0 <= i < |s| ==> !IsDigit(s[i])
  {
    if s != [] {
      SearchFailsIffNoDigit(s[1..]);
      if MatchAt(s).None? {
        assert !IsDigit(s[0]);
        assert forall i :: 1 <= i < |s| ==> s[i] == s[1..][i - 1];
      } else {
        var i := MatchAtFindsDigit(s);
      }
    } else {
      assert MatchAt(s).None?;
    }
  }

  /** A match always contains a digit of the input. */
  lemma MatchAtFindsDigit(t: string) returns (i: nat)
    requires MatchAt(t).Some?
    ensures i < |t| && IsDigit(t[i])
  {
    if PatternAt(WithS, t) && DigitRun(t[|WithS|..]) != [] {
      i := |WithS|;
    } else if PatternAt(WithoutS, t) && DigitRun(t[|WithoutS|..]) != [] {
      i := |WithoutS|;
    } else {
      i := 0;
    }
  }

  /** No position of `s` starts the catalog prefix. */
  predicate NoPrefixAnywhere(s: string)
  {
    forall i :: 0 <= i <= |s| ==> !PatternAt(WithS, s[i..]) && !PatternAt(WithoutS, s[i..])
  }

  /** Where the catalog prefix never matches, the search finds the first run
      of digits. */
  lemma {:induction false} NoPrefixIsFirstRun(s: string)
    requires NoPrefixAnywhere(s)
    ensures Search(s) == FirstRun(s)
  {
    assert s[0..] == s;
    if s != [] {
      assert forall i :: 0 <= i <= |s[1..]| ==> s[1..][i..] == s[i + 1..];
      NoPrefixIsFirstRun(s[1..]);
    }
  }

  /** The catalog prefix contains a `:`, so in an input without one the
      search finds the first run of digits. */
  lemma PlainIdIsFirstRun(s: string)
    requires forall i :: 0 <= i < |s| ==> s[i] != ':'
    ensures Search(s) == FirstRun(s)
  {
    forall i | 0 <= i <= |s|
      ensures !PatternAt(WithS, s[i..]) && !PatternAt(WithoutS, s[i..])
    {
      PrefixHasColon(s[i..]);
    }
    NoPrefixIsFirstRun(s);
  }

  /** A few characters any match of the catalog prefix must have. */
  lemma PrefixHasColon(t: string)
    ensures PatternAt(WithS, t) ==> t[0] == 'h' && t[4] == 's' && t[5] == ':' && t[8] == 'c'
    ensures PatternAt(WithoutS, t) ==> t[0] == 'h' && t[4] == ':'
  {
    assert WithS[0] == 'h' && WithS[4] == 's' && WithS[5] == ':' && WithS[8] == 'c';
    assert WithoutS[0] == 'h' && WithoutS[4] == ':';
    assert PatternAt(WithS, t) ==>
      CharMatches(WithS[0], t[0]) && CharMatches(WithS[4], t[4]) && CharMatches(WithS[5], t[5]) && CharMatches(WithS[8], t[8]);
    assert PatternAt(WithoutS, t) ==> CharMatches(WithoutS[0], t[0]) && CharMatches(WithoutS[4], t[4]);
  }

  /** Leading non-digits do not change the first run. */
  lemma {:induction false} FirstRunSkips(s: string, k: nat)
    requires k <= |s| && forall j :: 0 <= j < k ==> !IsDigit(s[j])
    ensures FirstRun(s) == FirstRun(s[k..])
  {
    if k > 0 {
      assert s[1..][k - 1..] == s[k..];
      FirstRunSkips(s[1..], k - 1);
    }
  }

  /** A Record URL followed by digits yields exactly those digits. */
  lemma RecordUrlGivesDigits(d: string, rest: string)
    requires d != [] && AllDigits(d)
    requires rest == [] || !IsDigit(rest[0])
    ensures Search(WithS + d + rest) == Some(d)
    ensures Search(WithoutS + d + rest) == Some(d)
  {
    DigitRunOf(d, rest);
    assert WithS + d + rest == WithS + (d + rest);
    assert WithoutS + d + rest == WithoutS + (d + rest);
    SecureRecordUrl(d + rest);
    PlainRecordUrl(d + rest);
  }

  /** Every pattern matches its own text, dots included. */
  lemma MatchesOwnPattern(pat: string, x: string)
    ensures PatternAt(pat, pat + x)
  {
    assert forall i :: 0 <= i < |pat| ==> (pat + x)[i] == pat[i];
  }

  lemma SecureRecordUrl(x: string)
    requires DigitRun(x) != []
    ensures Search(WithS + x) == Some(DigitRun(x))
  {
    var t := WithS + x;
    MatchesOwnPattern(WithS, x);
    assert t[|WithS|..] == x;
    assert MatchAt(t) == Some(DigitRun(x));
  }

  lemma PlainRecordUrl(x: string)
    requires DigitRun(x) != []
    ensures Search(WithoutS + x) == Some(DigitRun(x))
  {
    var u := WithoutS + x;
    MatchesOwnPattern(WithoutS, x);
    assert u[|WithoutS|..] == x;
    assert !PatternAt(WithS, u) by {
      PrefixHasColon(u);
    }
    assert MatchAt(u) == Some(DigitRun(x));
  }

  lemma {:induction false} DigitRunOf(d: string, rest: string)
    requires AllDigits(d)
    requires rest == [] || !IsDigit(rest[0])
    ensures DigitRun(d + rest) == d
  {
    if d != [] {
      assert (d + rest)[1..] == d[1..] + rest;
      DigitRunOf(d[1..], rest);
    } else {
      assert d + rest == rest;
    }
  }

  /** What the function returns: an error without digits; the nine-digit
      run itself; with `fix_truncated_id` any other run, left-padded with
      zeros to nine digits when shorter and unchanged when longer; and an
      error otherwise. */
  lemma ParseRecordIdMeaning(s: string, fixTruncated: bool)
    ensures Search(s).None? ==> ParseRecordId(s, fixTruncated).Err?
    ensures Search(s).Some? ==>
      var run := Search(s).value;
      var r := ParseRecordId(s, fixTruncated);
      && (r.Ok? <==> |run| == 9 || fixTruncated)
      && (r.Ok? ==>
            && |r.value| == (if |run| < 9 then 9 else |run|)
            && r.value[|r.value| - |run|..] == run
            && forall i :: 0 <= i < |r.value| - |run| ==> r.value[i] == '0')
  {
  }

  // ---------------------------------------------------------------------
  // parse_volume_id

  /** `ORG_CODES`: the HathiTrust organization codes and their names. */
  const OrgCodes: map<string, string> := map[
    "mdp" := "University of Michigan",
    "miua" := "University of Michigan",
    "miun" := "University of Michigan",
    "wu" := "University of Wisconsin",
    "inu" := "Indiana University",
    "uc1" := "University of California",
    "uc2" := "University of California",
    "pst" := "Penn State University",
    "umn" := "University of Minnesota",
    "nnc1" := "Columbia University",
    "nnc2" := "Columbia University",
    "nyp" := "New York Public Library",
    "uiuo" := "University of Illinois",
    "njp" := "Princeton University",
    "yale" := "Yale University",
    "chi" := "University of Chicago",
    "coo" := "Cornell University",
    "ucm" := "Universidad Complutense de Madrid",
    "loc" := "Library of Congress",
    "ien" := "Northwestern University",
    "hvd" := "Harvard University",
    "uva" := "University of Virginia",
    "dul1" := "Duke University",
    "ncs1" := "North Carolina State University",
    "nc01" := "University of North Carolina",
    "pur1" := "Purdue University",
    "pur2" := "Purdue University",
    "mdl" := "Minnesota Digital Library",
    "usu" := "Utah State University Press",
    "gri" := "Getty Research Institute",
    "uiug" := "University of Illinois",
    "psia" := "Penn State University",
    "bc" := "Boston College",
    "ufl1" := "University of Florida",
    "ufl2" := "University of Florida",
    "txa" := "Texas A&M University",
    "keio" := "Keio University",
    "osu" := "The Ohio State University",
    "uma" := "University of Massachusets",
    "udel" := "University of Delaware",
    "caia" := "Clark Art Institute Library"
  ]

  /** `any(id.startswith(org) for org in ORG_CODES)` */
  predicate HasOrgPrefix(id: string)
  {
    exists org :: org in OrgCodes && org <= id
  }

  /** What `urlparse`/`parse_qs` report about the input: the network
      location, the path, the query string, and the first value of the `id`
      query parameter if it has one. */
  datatype ParsedUrl = ParsedUrl(netloc: string, path: string, query: string, queryId: Option<string>)

  /** `str.replace(old, '')`: every occurrence of `pat`, found left to right
      without overlapping, is removed. */
  function RemoveAll(s: string, pat: string): (r: string)
    requires pat != []
    ensures |r| <= |s|
    decreases |s|
  {
    if |s| < |pat| then s
    else if s[..|pat|] == pat then RemoveAll(s[|pat|..], pat)
    else [s[0]] + RemoveAll(s[1..], pat)
  }

  /** `pat` occurs in `s` at position `i`. */
  predicate OccursAt(pat: string, s: string, i: int)
  {
    0 <= i <= |s| - |pat| && s[i..i + |pat|] == pat
  }

  /** `pat` occurs in `s`. */
  predicate Occurs(pat: string, s: string)
  {
    exists i :: 0 <= i <= |s| - |pat| && OccursAt(pat, s, i)
  }

  /** The org-code check on the extracted id. */
  function CheckOrg(id: string): (r: Result<string>)
    ensures r.Ok? <==> id != [] && HasOrgPrefix(id)
    ensures r.Ok? ==> r.value == id
  {
    if id != [] && HasOrgPrefix(id) then Ok(id)
    else Err("Invalid Organization Code in HathiTrust ID")
  }

  function ParseVolumeId(s: string, url: ParsedUrl): (r: Result<string>)
    ensures r.Ok? ==> HasOrgPrefix(r.value)
  {
    if url.netloc == "hdl.handle.net" then CheckOrg(RemoveAll(url.path, "/2027/"))
    else if url.netloc == "babel.hathitrust.org" then
      if url.query == [] then Err("local variable 'id' referenced before assignment")
      else match url.queryId
        case None => Err("'NoneType' object is not subscriptable")
        case Some(id) => CheckOrg(id)
    else CheckOrg(s)
  }

  /** Every organization code has two to four characters. */
  lemma OrgCodeLengths(org: string)
    requires org in OrgCodes
    ensures 2 <= |org| <= 4
  {
  }

  /** A string that is neither a Handle nor a babel URL is returned
      unchanged exactly when it starts with an organization code. */
  lemma PlainVolumeId(s: string, url: ParsedUrl)
    requires url.netloc != "hdl.handle.net" && url.netloc != "babel.hathitrust.org"
    ensures ParseVolumeId(s, url).Ok? <==> HasOrgPrefix(s)
    ensures ParseVolumeId(s, url).Ok? ==> ParseVolumeId(s, url).value == s
  {
    if HasOrgPrefix(s) {
      var org :| org in OrgCodes && org <= s;
      OrgCodeLengths(org);
    }
  }

  /** Removal leaves a string without the pattern unchanged, and changes
      every string that has it. */
  lemma {:induction false} RemoveAllUnchangedIff(s: string, pat: string)
    requires pat != []
    ensures RemoveAll(s, pat) == s <==> !Occurs(pat, s)
    decreases |s|
  {
    if |s| < |pat| {
    } else if s[..|pat|] == pat {
      assert OccursAt(pat, s, 0);
    } else {
      RemoveAllUnchangedIff(s[1..], pat);
      OccursSplit(pat, s);
      ConsEquals(s, RemoveAll(s[1..], pat));
    }
  }

  /** `pat` occurs in `s` exactly when it occurs at the start or in the tail. */
  lemma OccursSplit(pat: string, s: string)
    requires pat != [] && |pat| <= |s|
    ensures Occurs(pat, s) <==> s[..|pat|] == pat || Occurs(pat, s[1..])
  {
    assert OccursAt(pat, s, 0) <==> s[..|pat|] == pat by {
      assert s[0..0 + |pat|] == s[..|pat|];
    }
    if Occurs(pat, s) {
      var i :| 0 <= i <= |s| - |pat| && OccursAt(pat, s, i);
      if i > 0 {
        assert s[1..][i - 1..i - 1 + |pat|] == s[i..i + |pat|];
        assert OccursAt(pat, s[1..], i - 1);
      }
    }
    if Occurs(pat, s[1..]) {
      var i :| 0 <= i <= |s[1..]| - |pat| && OccursAt(pat, s[1..], i);
      assert s[i + 1..i + 1 + |pat|] == s[1..][i..i + |pat|];
      assert OccursAt(pat, s, i + 1);
    }
  }

  /** A sequence is its head followed by `r` exactly when `r` is its tail. */
  lemma ConsEquals<T>(s: seq<T>, r: seq<T>)
    requires s != []
    ensures [s[0]] + r == s <==> r == s[1..]
  {
    if [s[0]] + r == s {
      assert ([s[0]] + r)[1..] == r;
    }
  }

  /** One pass of removal can create a new occurrence out of the pieces
      around a removed one. */
  lemma RemovalCanReassemble()
    ensures RemoveAll("/20/2027/27/", "/2027/") == "/2027/"
  {
    var s := "/20/2027/27/";
    assert s[..6][3] != "/2027/"[3];
    assert s[1..][..6][0] != "/2027/"[0];
    assert s[2..][..6][0] != "/2027/"[0];
    assert s[3..][..6] == "/2027/";
    assert s[3..][6..] == "27/";
  }

  // ---------------------------------------------------------------------
  // The repository's own examples

  lemma RecordUrlExample()
    ensures ParseRecordId("https://catalog.hathitrust.org/Record/000234911", false) == Ok("000234911")
  {
    assert "https://catalog.hathitrust.org/Record/000234911" == WithS + "000234911" + "";
    RecordUrlGivesDigits("000234911", "");
  }

  lemma PlainRecordExample()
    ensures ParseRecordId("000234911", false) == Ok("000234911")
  {
    var s := "000234911";
    assert AllDigits(s);
    DigitsFoundWhole(s);
  }

  /** A Handle URL's first digits are the `2027` of its path: too short. */
  lemma HandleUrlRejected()
    ensures ParseRecordId("https://hdl.handle.net/2027/hvd.hn3t2m", false).Err?
  {
    var s := "https://hdl.handle.net/2027/hvd.hn3t2m";
    HandleUrlHasNoPrefix(s);
    NoPrefixIsFirstRun(s);
    HandleFirstRun(s);
  }

  lemma HandleFirstRun(s: string)
    requires s == "https://hdl.handle.net/2027/hvd.hn3t2m"
    ensures FirstRun(s) == Some("2027")
  {
    assert s[23..] == "2027/hvd.hn3t2m";
    YearFirstRun(s[23..]);
    HandleHostHasNoDigit(s);
    FirstRunSkips(s, 23);
  }

  lemma YearFirstRun(rest: string)
    requires rest == "2027/hvd.hn3t2m"
    ensures FirstRun(rest) == Some("2027")
  {
    assert rest == "2027" + "/hvd.hn3t2m";
    DigitRunOf("2027", "/hvd.hn3t2m");
  }

  lemma HandleUrlHasNoPrefix(s: string)
    requires s == "https://hdl.handle.net/2027/hvd.hn3t2m"
    ensures NoPrefixAnywhere(s)
  {
    assert |s| == 38 && s[1] == 't' && s[4] == 's' && s[8] == 'h';
    ShortNoPrefix(s);
  }

  /** A string of the Record URL's length can only start the prefix at its
      first two positions; these characters rule both out. */
  lemma ShortNoPrefix(s: string)
    requires |s| == 38 && s[1] == 't' && s[4] == 's' && s[8] == 'h'
    ensures NoPrefixAnywhere(s)
  {
    assert |WithS| == 38 && |WithoutS| == 37;
    forall i | 0 <= i <= |s|
      ensures !PatternAt(WithS, s[i..]) && !PatternAt(WithoutS, s[i..])
    {
      if i == 0 {
        PrefixHasColon(s);
        assert s[0..] == s;
      } else if i == 1 {
        PrefixHasColon(s[1..]);
        assert s[1..][0] == 't';
      }
    }
  }

  lemma HandleHostHasNoDigit(s: string)
    requires s == "https://hdl.handle.net/2027/hvd.hn3t2m"
    ensures forall j :: 0 <= j < 23 ==> !IsDigit(s[j])
  {
    var host := s[..23];
    assert host == "https://hdl.handle.net/";
    forall j | 0 <= j < 23
      ensures !IsDigit(s[j])
    {
      assert s[j] == host[j] && host[j] in host;
    }
  }

  lemma NoDigitRejected()
    ensures ParseRecordId("this is not a valid URL or volume ID", false).Err?
  {
    var s := "this is not a valid URL or volume ID";
    NoDigitInSentence(s);
    SearchFailsIffNoDigit(s);
  }

  lemma NoDigitInSentence(s: string)
    requires s == "this is not a valid URL or volume ID"
    ensures forall i :: 0 <= i < |s| ==> !IsDigit(s[i])
  {
    forall i | 0 <= i < |s|
      ensures !IsDigit(s[i])
    {
      assert s[i] in s;
    }
  }

  lemma TruncatedExamples()
    ensures ParseRecordId("234911", false).Err?
    ensures ParseRecordId("234911", true) == Ok("000234911")
    ensures ParseRecordId("1022499", true) == Ok("001022499")
  {
    var s, t := "234911", "1022499";
    TruncatedRejected(s);
    TruncatedPadded(s, 3, "000234911");
    TruncatedPadded(t, 2, "001022499");
  }

  lemma TruncatedRejected(s: string)
    requires s == "234911"
    ensures ParseRecordId(s, false).Err?
  {
    assert AllDigits(s);
    DigitsFoundWhole(s);
  }

  lemma TruncatedPadded(s: string, k: nat, padded: string)
    requires || (s == "234911" && k == 3 && padded == "000234911")
             || (s == "1022499" && k == 2 && padded == "001022499")
    ensures ParseRecordId(s, true) == Ok(padded)
  {
    assert AllDigits(s) && |s| == 9 - k;
    DigitsFoundWhole(s);
    assert Zeros(k) + s == padded;
  }

  /** A non-empty string of digits is its own record id. */
  lemma DigitsFoundWhole(s: string)
    requires s != [] && AllDigits(s)
    ensures Search(s) == Some(s)
  {
    PlainIdIsFirstRun(s);
    DigitRunOf(s, "");
    assert s + "" == s;
  }

  lemma PlainVolumeExample()
    ensures ParseVolumeId("uc2.ark:/13960/fk92805m1s",
      ParsedUrl("", "uc2.ark:/13960/fk92805m1s", "", None))
      == Ok("uc2.ark:/13960/fk92805m1s")
  {
    assert "uc2" in OrgCodes && "uc2" <= "uc2.ark:/13960/fk92805m1s";
  }

  lemma HandleVolumeExample()
    ensures ParseVolumeId("https://hdl.handle.net/2027/uc2.ark:/13960/fk92805m1s",
      ParsedUrl("hdl.handle.net", "/2027/uc2.ark:/13960/fk92805m1s", "", None))
      == Ok("uc2.ark:/13960/fk92805m1s")
  {
    var id := "uc2.ark:/13960/fk92805m1s";
    var path := "/2027/" + id;
    assert path == "/2027/uc2.ark:/13960/fk92805m1s";
    NoYearInId(id);
    LeadingYearRemoved(id, path);
    Uc2Accepted(id);
  }

  /** A path that is `/2027/` followed by an id without `/2027/` in it
      reduces to the id. */
  lemma LeadingYearRemoved(id: string, path: string)
    requires path == "/2027/" + id && !Occurs("/2027/", id)
    ensures RemoveAll(path, "/2027/") == id
  {
    assert path[..6] == "/2027/" && path[6..] == id;
    RemoveAllUnchangedIff(id, "/2027/");
  }

  lemma Uc2Accepted(id: string)
    requires id == "uc2.ark:/13960/fk92805m1s"
    ensures CheckOrg(id) == Ok(id)
  {
    assert "uc2" in OrgCodes && "uc2" <= id;
  }

  lemma NoYearInId(id: string)
    requires id == "uc2.ark:/13960/fk92805m1s"
    ensures !Occurs("/2027/", id)
  {
    assert '7' !in id;
    forall i | 0 <= i <= |id| - 6
      ensures !OccursAt("/2027/", id, i)
    {
      assert id[i..i + 6][4] == id[i + 4] && id[i + 4] in id;
    }
  }

  /** The `id` parameter of a babel URL, as `parse_qs` reports it. */
  lemma BabelVolumeExample()
    ensures ParseVolumeId("https://babel.hathitrust.org/cgi/pt?id=uc2.ark:/13960/fk92805m1s;view=1up;seq=7",
      ParsedUrl("babel.hathitrust.org", "/cgi/pt", "id=uc2.ark:/13960/fk92805m1s;view=1up;seq=7",
        Some("uc2.ark:/13960/fk92805m1s")))
      == Ok("uc2.ark:/13960/fk92805m1s")
  {
    var id := "uc2.ark:/13960/fk92805m1s";
    Uc2Accepted(id);
  }

  /** `uc42` is not an organization code, and no code is a prefix of it. */
  lemma UnknownOrgRejected()
    ensures ParseVolumeId("uc42.ark:/13960/fk92805m1s",
      ParsedUrl("", "uc42.ark:/13960/fk92805m1s", "", None)).Err?
  {
    var bad := "uc42.ark:/13960/fk92805m1s";
    NoOrgPrefix(bad);
  }

  /** The codes beginning with `uc` are `uc1`, `uc2` and `ucm`. */
  lemma CodesBeginningUc(org: string)
    requires org in OrgCodes
    ensures 2 <= |org| && org[0] == 'u' && org[1] == 'c' ==> |org| == 3 && org[2] in {'1', '2', 'm'}
  {
  }

  lemma NoOrgPrefix(bad: string)
    requires bad == "uc42.ark:/13960/fk92805m1s"
    ensures !HasOrgPrefix(bad)
  {
    assert bad[0] == 'u' && bad[1] == 'c' && bad[2] == '4';
    forall org | org in OrgCodes
      ensures !(org <= bad)
    {
      OrgCodeLengths(org);
      CodesBeginningUc(org);
    }
  }
}
