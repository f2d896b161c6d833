/** `clean_text`: the canonical form a line is compared in. The source runs
    four steps, modelled one function each:
      1. every maximal run of non-letters becomes one space;
      2. every run of two or more whitespace characters becomes one space;
      3. leading and trailing whitespace is stripped;
      4. the result is lower-cased. */
module CleanText {
  import opened Chars

  /** Drops the longest prefix of non-letters (the rest of a `[\W\d_]+` match). */
  function DropNonLetters(s: string): (r: string)
    ensures |r| <= |s|
    ensures r == s[|s| - |r|..]
    ensures forall i :: 0 <= i < |s| - |r| ==> !IsLetter(s[i])
    ensures r == [] || IsLetter(r[0])
  {
    if s == [] || IsLetter(s[0]) then s else DropNonLetters(s[1..])
  }

  /** Step 1: `re.sub(r'[\W\d_]+', " ", s)`. */
  function ReplaceNonLetterRuns(s: string): string
    decreases |s|
  {
    if s == [] then []
    else if IsLetter(s[0]) then [s[0]] + ReplaceNonLetterRuns(s[1..])
    else [' '] + ReplaceNonLetterRuns(DropNonLetters(s[1..]))
  }

  /** Drops the longest prefix of whitespace. */
  function DropSpaces(s: string): (r: string)
    ensures |r| <= |s|
  {
    if s == [] || !IsSpace(s[0]) then s else DropSpaces(s[1..])
  }

  /** Step 2: `re.sub(r'\s{2,}', " ", s)`. */
  function CollapseSpaces(s: string): string
    decreases |s|
  {
    if s == [] then []
    else if |s| >= 2 && IsSpace(s[0]) && IsSpace(s[1]) then [' '] + CollapseSpaces(DropSpaces(s))
    else [s[0]] + CollapseSpaces(s[1..])
  }

  function TrimStart(s: string): (r: string)
    ensures |r| <= |s|
  {
    if s != [] && IsSpace(s[0]) then TrimStart(s[1..]) else s
  }

  function TrimEnd(s: string): (r: string)
    ensures |r| <= |s|
  {
    if s != [] && IsSpace(s[|s| - 1]) then TrimEnd(s[..|s| - 1]) else s
  }

  /** Step 3: `s.strip()`. */
  function Strip(s: string): string
  {
    TrimEnd(TrimStart(s))
  }

  /** Step 4: `s.lower()`. */
  function LowerAll(s: string): (r: string)
    ensures |r| == |s|
    ensures forall i :: 0 <= i < |s| ==> r[i] == ToLower(s[i])
  {
    if s == [] then [] else [ToLower(s[0])] + LowerAll(s[1..])
  }

  /** The letters of `s`, in order. */
  function Letters(s: string): string
  {
    if s == [] then []
    else if IsLetter(s[0]) then [s[0]] + Letters(s[1..])
    else Letters(s[1..])
  }

  function Clean(s: string): string
  {
    LowerAll(Strip(CollapseSpaces(ReplaceNonLetterRuns(s))))
  }

  /** Letters separated by single spaces (the shape after step 1). */
  predicate SpacedLetters(s: string)
  {
    && (forall i :: 0 <= i < |s| ==> s[i] == ' ' || IsLetter(s[i]))
    && (forall i :: 0 <= i < |s| - 1 ==> s[i] == ' ' ==> s[i + 1] != ' ')
  }

  /** The shape `clean_text` promises: lower-case letters separated by single
      spaces, with no space at either end. */
  predicate IsClean(s: string)
  {
    && SpacedLetters(s)
    && (forall i :: 0 <= i < |s| ==> ToLower(s[i]) == s[i])
    && (s != [] ==> s[0] != ' ' && s[|s| - 1] != ' ')
  }

  /** Step 1 yields letters and single spaces, keeps every letter, and starts
      with a space exactly when the input starts with a non-letter. */
  lemma {:induction false} ReplaceShape(s: string)
    ensures SpacedLetters(ReplaceNonLetterRuns(s))
    ensures Letters(ReplaceNonLetterRuns(s)) == Letters(s)
    ensures |ReplaceNonLetterRuns(s)| == 0 <==> |s| == 0
    ensures s != [] ==> (ReplaceNonLetterRuns(s)[0] == ' ' <==> !IsLetter(s[0]))
    decreases |s|
  {
    if s == [] {
    } else if IsLetter(s[0]) {
      ReplaceShape(s[1..]);
      var t := ReplaceNonLetterRuns(s[1..]);
      assert ReplaceNonLetterRuns(s) == [s[0]] + t;
    } else {
      var d := DropNonLetters(s[1..]);
      ReplaceShape(d);
      LettersOfDropped(s[1..]);
      var t := ReplaceNonLetterRuns(d);
      assert ReplaceNonLetterRuns(s) == [' '] + t;
      assert d != [] ==> t[0] != ' ';
    }
  }

  lemma {:induction false} LettersOfDropped(s: string)
    ensures Letters(DropNonLetters(s)) == Letters(s)
  {
    if s != [] && !IsLetter(s[0]) {
      LettersOfDropped(s[1..]);
    }
  }

  /** Step 2 changes nothing once step 1 has run. */
  lemma {:induction false} CollapseSpacedLetters(s: string)
    requires SpacedLetters(s)
    ensures CollapseSpaces(s) == s
    decreases |s|
  {
    if s != [] {
      if |s| >= 2 && IsSpace(s[0]) && IsSpace(s[1]) {
        SpaceIsNotLetter(s[0]);
        SpaceIsNotLetter(s[1]);
        assert false;
      }
      assert SpacedLetters(s[1..]) by {
        forall i | 0 <= i < |s[1..]| - 1 && s[1..][i] == ' '
          ensures s[1..][i + 1] != ' '
        {
          assert s[i + 1] == ' ';
        }
      }
      CollapseSpacedLetters(s[1..]);
    }
  }

  lemma {:induction false} TrimStartSpaced(s: string)
    requires SpacedLetters(s)
    ensures SpacedLetters(TrimStart(s))
    ensures Letters(TrimStart(s)) == Letters(s)
    ensures TrimStart(s) == [] || TrimStart(s)[0] != ' '
    ensures TrimStart(s) == s[|s| - |TrimStart(s)|..]
  {
    if s != [] && IsSpace(s[0]) {
      SpaceIsNotLetter(s[0]);
      assert SpacedLetters(s[1..]) by {
        assert forall i :: 0 <= i < |s[1..]| ==> s[1..][i] == s[i + 1];
      }
      TrimStartSpaced(s[1..]);
    }
  }

  lemma {:induction false} TrimEndSpaced(s: string)
    requires SpacedLetters(s)
    ensures SpacedLetters(TrimEnd(s))
    ensures Letters(TrimEnd(s)) == Letters(s)
    ensures TrimEnd(s) == [] || TrimEnd(s)[|TrimEnd(s)| - 1] != ' '
    ensures TrimEnd(s) == s[..|TrimEnd(s)|]
    decreases |s|
  {
    if s != [] && IsSpace(s[|s| - 1]) {
      var u := s[..|s| - 1];
      SpaceIsNotLetter(s[|s| - 1]);
      LettersAppendNonLetter(u, s[|s| - 1]);
      assert s == u + [s[|s| - 1]];
      TrimEndSpaced(u);
    }
  }

  lemma {:induction false} LettersAppendNonLetter(u: string, c: char)
    requires !IsLetter(c)
    ensures Letters(u + [c]) == Letters(u)
  {
    if u != [] {
      assert (u + [c])[1..] == u[1..] + [c];
      LettersAppendNonLetter(u[1..], c);
    }
  }

  lemma {:induction false} StripShape(s: string)
    requires SpacedLetters(s)
    ensures SpacedLetters(Strip(s))
    ensures Letters(Strip(s)) == Letters(s)
    ensures Strip(s) != [] ==> Strip(s)[0] != ' ' && Strip(s)[|Strip(s)| - 1] != ' '
  {
    var a := TrimStart(s);
    TrimStartSpaced(s);
    TrimEndSpaced(a);
    var b := TrimEnd(a);
    if b != [] {
      assert b[0] == a[0];
    }
  }

  lemma {:induction false} LettersOfLower(s: string)
    ensures Letters(LowerAll(s)) == LowerAll(Letters(s))
  {
    if s != [] {
      LowerKeepsClass(s[0]);
      assert LowerAll(s)[1..] == LowerAll(s[1..]);
      LettersOfLower(s[1..]);
    }
  }

  /** `clean_text` yields lower-case letters separated by single spaces, with
      no space at either end, and keeps every letter of its input, in order,
      lower-cased: digits, punctuation and whitespace are what it drops. */
  lemma CleanShape(s: string)
    ensures IsClean(Clean(s))
    ensures Letters(Clean(s)) == LowerAll(Letters(s))
  {
    var a := ReplaceNonLetterRuns(s);
    ReplaceShape(s);
    CollapseSpacedLetters(a);
    StripShape(a);
    var b := Strip(a);
    var r := LowerAll(b);
    forall i | 0 <= i < |r|
      ensures r[i] == ' ' || IsLetter(r[i])
      ensures ToLower(r[i]) == r[i]
      ensures r[i] == ' ' <==> b[i] == ' '
    {
      LowerKeepsClass(b[i]);
      LowerIdempotent(b[i]);
    }
    LettersOfLower(b);
  }

  /** Cleaning already-clean text changes nothing. */
  lemma CleanIdempotent(s: string)
    ensures Clean(Clean(s)) == Clean(s)
  {
    var t := Clean(s);
    CleanShape(s);
    CleanFixedPoint(t);
  }

  lemma CleanFixedPoint(t: string)
    requires IsClean(t)
    ensures Clean(t) == t
  {
    ReplaceCleanIsIdentity(t);
    CollapseSpacedLetters(t);
    assert Strip(t) == t by {
      if t != [] {
        SpaceIsNotLetter(t[0]);
        SpaceIsNotLetter(t[|t| - 1]);
        assert !IsSpace(t[0]);
        assert !IsSpace(t[|t| - 1]);
      }
    }
    assert LowerAll(t) == t;
  }

  lemma {:induction false} ReplaceCleanIsIdentity(t: string)
    requires SpacedLetters(t)
    requires t != [] ==> t[|t| - 1] != ' '
    ensures ReplaceNonLetterRuns(t) == t
    decreases |t|
  {
    if t != [] {
      var u := t[1..];
      assert SpacedLetters(u) by {
        assert forall i :: 0 <= i < |u| ==> u[i] == t[i + 1];
      }
      assert u != [] ==> u[|u| - 1] != ' ' by {
        if u != [] {
          assert u[|u| - 1] == t[|t| - 1];
        }
      }
      ReplaceCleanIsIdentity(u);
      if IsLetter(t[0]) {
        KeepLetter(t);
      } else {
        assert t[0] == ' ' && u != [] && u[0] != ' ';
        KeepSpace(t);
      }
    }
  }

  /** A leading letter of text that step 1 keeps is kept too. */
  lemma KeepLetter(t: string)
    requires t != [] && IsLetter(t[0])
    requires ReplaceNonLetterRuns(t[1..]) == t[1..]
    ensures ReplaceNonLetterRuns(t) == t
  {
    assert t == [t[0]] + t[1..];
  }

  /** A single space before a letter is kept too. */
  lemma KeepSpace(t: string)
    requires |t| > 1 && t[0] == ' ' && IsLetter(t[1])
    requires ReplaceNonLetterRuns(t[1..]) == t[1..]
    ensures ReplaceNonLetterRuns(t) == t
  {
    var u := t[1..];
    SpaceIsNotLetter(t[0]);
    assert DropNonLetters(u) == u;
    assert t == [' '] + u;
  }

  /** A word: a non-empty run of letters. */
  predicate IsWord(w: string)
  {
    w != [] && forall i :: 0 <= i < |w| ==> IsLetter(w[i])
  }

  /** The words of `s`, in order: its maximal runs of letters. A letter
      followed by a letter extends the word that follows; any other letter
      is a word of its own; non-letters only separate. */
  function Words(s: string): (ws: seq<string>)
    ensures s != [] && IsLetter(s[0]) ==> ws != []
  {
    if s == [] then []
    else
      var ws := Words(s[1..]);
      if !IsLetter(s[0]) then ws
      else if |s| > 1 && IsLetter(s[1]) then [[s[0]] + ws[0]] + ws[1..]
      else [[s[0]]] + ws
  }

  /** `sep.join(ws)` */
  function Join(ws: seq<string>, sep: string): string
  {
    if ws == [] then []
    else if |ws| == 1 then ws[0]
    else ws[0] + sep + Join(ws[1..], sep)
  }

  /** The space step 1 leaves after the last word when the text ends in
      non-letters. */
  function Trailing(t: string): string
  {
    if t != [] && !IsLetter(t[|t| - 1]) then " " else []
  }

  /** `clean_text` is the words of its input, joined by single spaces and
      lower-cased: every run of non-letters between two words becomes
      exactly one space, and runs at either end disappear. */
  lemma CleanIsJoinedWords(s: string)
    ensures Clean(s) == LowerAll(Join(Words(s), " "))
  {
    ReplaceShape(s);
    CollapseSpacedLetters(ReplaceNonLetterRuns(s));
    StripReplaced(s);
  }

  /** Stripping the output of step 1 leaves the words joined by spaces. */
  lemma StripReplaced(s: string)
    ensures Strip(ReplaceNonLetterRuns(s)) == Join(Words(s), " ")
  {
    WordsAreWords(s);
    JoinEnds(Words(s));
    if s != [] && IsLetter(s[0]) {
      StripLetterStart(s);
    } else if s != [] {
      StripGapStart(s);
    }
  }

  lemma StripLetterStart(s: string)
    requires s != [] && IsLetter(s[0])
    requires var j := Join(Words(s), " ");
      j != [] ==> IsLetter(j[0]) && IsLetter(j[|j| - 1])
    ensures Strip(ReplaceNonLetterRuns(s)) == Join(Words(s), " ")
  {
    var j := Join(Words(s), " ");
    ReplaceWords(s);
    assert ReplaceNonLetterRuns(s) == [] + j + Trailing(s);
    StripPadded([], j, Trailing(s));
  }

  lemma StripGapStart(s: string)
    requires s != [] && !IsLetter(s[0])
    requires var j := Join(Words(s), " ");
      j != [] ==> IsLetter(j[0]) && IsLetter(j[|j| - 1])
    ensures Strip(ReplaceNonLetterRuns(s)) == Join(Words(s), " ")
  {
    var d := DropNonLetters(s);
    ReplaceGap(s);
    WordsDrop(s);
    StripPadded(" ", Join(Words(s), " "), Trailing(d));
  }

  /** Step 1 on text that starts with a non-letter: one space, then the words
      after the leading run. */
  lemma ReplaceGap(s: string)
    requires s != [] && !IsLetter(s[0])
    ensures var d := DropNonLetters(s);
      ReplaceNonLetterRuns(s) == " " + Join(Words(d), " ") + Trailing(d)
  {
    var d := DropNonLetters(s);
    var r := ReplaceNonLetterRuns(s);
    assert DropNonLetters(s[1..]) == d;
    assert r == " " + ReplaceNonLetterRuns(d);
    ReplaceWords(d);
    PadLeft(r, " ", ReplaceNonLetterRuns(d), Join(Words(d), " "), Trailing(d));
  }

  /** Each word of `s` is a non-empty run of letters. */
  lemma {:induction false} WordsAreWords(s: string)
    ensures forall k :: 0 <= k < |Words(s)| ==> IsWord(Words(s)[k])
  {
    if s != [] {
      WordsAreWords(s[1..]);
      var ws := Words(s[1..]);
      if IsLetter(s[0]) && |s| > 1 && IsLetter(s[1]) {
        var w := [s[0]] + ws[0];
        assert IsWord(ws[0]);
        assert IsWord(w) by {
          forall i | 0 <= i < |w|
            ensures IsLetter(w[i])
          {
            if i > 0 {
              assert w[i] == ws[0][i - 1];
            }
          }
        }
      }
    }
  }

  /** Leading non-letters contribute no word. */
  lemma {:induction false} WordsDrop(s: string)
    ensures Words(DropNonLetters(s)) == Words(s)
  {
    if s != [] && !IsLetter(s[0]) {
      WordsDrop(s[1..]);
    }
  }

  /** The concatenation steps behind `ReplaceWords`, apart from any text. */
  lemma Rejoin<T>(rt: seq<T>, c: seq<T>, rr: seq<T>, jt: seq<T>, jr: seq<T>, tr: seq<T>)
    requires rt == c + rr && rr == jr + tr && jt == c + jr
    ensures rt == jt + tr
  {
  }

  lemma PadLeft<T>(r: seq<T>, a: seq<T>, rd: seq<T>, j: seq<T>, b: seq<T>)
    requires r == a + rd && rd == j + b
    ensures r == a + j + b
  {
  }

  /** Prefixing the first word with a letter prefixes the joined text. */
  lemma JoinExtendFirst(c: string, ws: seq<string>)
    requires ws != []
    ensures Join([c + ws[0]] + ws[1..], " ") == c + Join(ws, " ")
  {
    var vs := [c + ws[0]] + ws[1..];
    assert vs[1..] == ws[1..];
  }

  /** A new first word is followed by one space. */
  lemma JoinCons(w: string, ws: seq<string>)
    requires ws != []
    ensures Join([w] + ws, " ") == w + " " + Join(ws, " ")
  {
    assert ([w] + ws)[1..] == ws;
  }

  /** Step 1 on text that is empty or starts with a letter: the words joined
      by single spaces, then one space when the text ends in non-letters. */
  lemma {:induction false} ReplaceWords(t: string)
    requires t == [] || IsLetter(t[0])
    ensures ReplaceNonLetterRuns(t) == Join(Words(t), " ") + Trailing(t)
    decreases |t|
  {
    if t != [] {
      var u := t[1..];
      if u == [] {
        ReplaceOneLetter(t);
      } else if IsLetter(u[0]) {
        ReplaceWords(u);
        ReplaceLetterLetter(t);
      } else {
        var d := DropNonLetters(u[1..]);
        if d != [] {
          ReplaceWords(d);
        }
        ReplaceLetterGap(t, d);
      }
    }
  }

  /** `ReplaceWords` for a single letter. */
  lemma ReplaceOneLetter(t: string)
    requires |t| == 1 && IsLetter(t[0])
    ensures ReplaceNonLetterRuns(t) == Join(Words(t), " ") + Trailing(t)
  {
    assert t == [t[0]];
    assert ReplaceNonLetterRuns(t) == t + ReplaceNonLetterRuns(t[1..]);
    assert Words(t) == [t];
  }

  /** `ReplaceWords` when the second character is a letter too: the first
      letter joins the first word of the rest. */
  lemma ReplaceLetterLetter(t: string)
    requires |t| > 1 && IsLetter(t[0]) && IsLetter(t[1])
    requires ReplaceNonLetterRuns(t[1..]) == Join(Words(t[1..]), " ") + Trailing(t[1..])
    ensures ReplaceNonLetterRuns(t) == Join(Words(t), " ") + Trailing(t)
  {
    var c, u := [t[0]], t[1..];
    assert ReplaceNonLetterRuns(t) == c + ReplaceNonLetterRuns(u);
    assert Trailing(u) == Trailing(t);
    JoinExtendFirst(c, Words(u));
    Rejoin(ReplaceNonLetterRuns(t), c, ReplaceNonLetterRuns(u),
      Join(Words(t), " "), Join(Words(u), " "), Trailing(t));
  }

  /** `ReplaceWords` when a letter is followed by non-letters: the letter is a
      word, and the gap becomes one space before the words of `d`, the text
      after the gap. */
  lemma ReplaceLetterGap(t: string, d: string)
    requires |t| > 1 && IsLetter(t[0]) && !IsLetter(t[1])
    requires d == DropNonLetters(t[2..])
    requires d != [] ==> ReplaceNonLetterRuns(d) == Join(Words(d), " ") + Trailing(d)
    ensures ReplaceNonLetterRuns(t) == Join(Words(t), " ") + Trailing(t)
  {
    GapUnfold(t, d);
    GapTrailing(t, d);
    var c := [t[0]];
    if d == [] {
      assert Words(t) == [c];
    } else {
      JoinCons(c, Words(d));
      Rejoin(ReplaceNonLetterRuns(t), c + " ", ReplaceNonLetterRuns(d),
        Join(Words(t), " "), Join(Words(d), " "), Trailing(t));
    }
  }

  /** One step of step 1 and of `Words` over a letter and the gap after it. */
  lemma GapUnfold(t: string, d: string)
    requires |t| > 1 && IsLetter(t[0]) && !IsLetter(t[1])
    requires d == DropNonLetters(t[2..])
    ensures ReplaceNonLetterRuns(t) == [t[0]] + " " + ReplaceNonLetterRuns(d)
    ensures Words(t) == [[t[0]]] + Words(d)
  {
    GapReplace(t, d);
    GapWords(t, d);
  }

  lemma GapReplace(t: string, d: string)
    requires |t| > 1 && IsLetter(t[0]) && !IsLetter(t[1])
    requires d == DropNonLetters(t[2..])
    ensures ReplaceNonLetterRuns(t) == [t[0]] + " " + ReplaceNonLetterRuns(d)
  {
    var u := t[1..];
    assert ReplaceNonLetterRuns(t) == [t[0]] + ReplaceNonLetterRuns(u);
    assert u[1..] == t[2..];
    assert ReplaceNonLetterRuns(u) == " " + ReplaceNonLetterRuns(d);
    PadLeft(ReplaceNonLetterRuns(t), [t[0]], ReplaceNonLetterRuns(u), " ", ReplaceNonLetterRuns(d));
  }

  lemma GapWords(t: string, d: string)
    requires |t| > 1 && IsLetter(t[0]) && !IsLetter(t[1])
    requires d == DropNonLetters(t[2..])
    ensures Words(t) == [[t[0]]] + Words(d)
  {
    var u := t[1..];
    assert u[1..] == t[2..];
    assert DropNonLetters(u) == d;
    WordsDrop(u);
  }

  /** The gap's text ends where `t` ends; if nothing follows the gap, `t`
      ends in a non-letter. */
  lemma GapTrailing(t: string, d: string)
    requires |t| > 1 && !IsLetter(t[1])
    requires d == DropNonLetters(t[2..])
    ensures d == [] ==> Trailing(t) == " "
    ensures d != [] ==> Trailing(d) == Trailing(t)
  {
    if d == [] {
      assert !IsLetter(t[|t| - 1]) by {
        if |t| > 2 {
          assert t[|t| - 1] == t[2..][|t| - 3];
        }
      }
    } else {
      assert d[|d| - 1] == t[|t| - 1] by {
        assert d == t[2..][|t| - 2 - |d|..];
      }
    }
  }

  /** Joined words start and end with a letter. */
  lemma {:induction false} JoinEnds(ws: seq<string>)
    requires forall k :: 0 <= k < |ws| ==> IsWord(ws[k])
    ensures var j := Join(ws, " ");
      (j == [] <==> ws == []) && (j != [] ==> IsLetter(j[0]) && IsLetter(j[|j| - 1]))
  {
    if |ws| > 1 {
      JoinEnds(ws[1..]);
      var j := Join(ws[1..], " ");
      assert (ws[0] + " " + j)[0] == ws[0][0];
      assert (ws[0] + " " + j)[|ws[0] + " " + j| - 1] == j[|j| - 1];
    }
  }

  /** Stripping removes at most one space at either end of a text that
      starts and ends with letters. */
  lemma StripPadded(a: string, j: string, b: string)
    requires a == [] || a == " "
    requires b == [] || b == " "
    requires j != [] ==> IsLetter(j[0]) && IsLetter(j[|j| - 1])
    ensures Strip(a + j + b) == j
  {
    var x := j + b;
    assert TrimStart(a + j + b) == TrimStart(x) by {
      assert a + j + b == a + x;
      if a == " " {
        TrimStartSpace(x);
      }
    }
    if j == [] {
      assert x == b;
      if b == " " {
        TrimStartSpace([]);
        assert x == " " + [];
      }
      assert TrimStart(x) == [];
    } else {
      SpaceIsNotLetter(j[0]);
      SpaceIsNotLetter(j[|j| - 1]);
      assert x[0] == j[0];
      TrimStartKeep(x);
      assert TrimEnd(x) == TrimEnd(j) by {
        if b == " " {
          TrimEndSpace(j);
        } else {
          assert x == j;
        }
      }
      TrimEndKeep(j);
    }
  }

  lemma TrimStartSpace(x: string)
    ensures TrimStart(" " + x) == TrimStart(x)
  {
    assert (" " + x)[1..] == x;
  }

  lemma TrimStartKeep(x: string)
    requires x == [] || !IsSpace(x[0])
    ensures TrimStart(x) == x
  {
  }

  lemma TrimEndSpace(x: string)
    ensures TrimEnd(x + " ") == TrimEnd(x)
  {
    assert (x + " ")[..|x|] == x;
  }

  lemma TrimEndKeep(x: string)
    requires x == [] || !IsSpace(x[|x| - 1])
    ensures TrimEnd(x) == x
  {
  }
}
