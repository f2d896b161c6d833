/** Character classes used by the text normaliser, the page-number
    extractor and the id parser.

    Python decides these with its Unicode tables (`\W`, `\d`, `\s`,
    `str.lower`). The model uses a fixed table instead: ASCII, Latin-1,
    Latin Extended-A/B and Cyrillic letters, together with the Latin-1
    superscripts and vulgar fractions (numeric, so `\w`, but not decimal, so
    not `\d`); ASCII decimal digits; and the characters `str.isspace`
    accepts. Lower-casing maps the upper-case
    letters of ASCII, Latin-1 and basic Cyrillic and leaves every other
    character alone. The facts the rest of the model relies on are proved at
    the end of the module: whitespace and digits are not letters, and
    lower-casing keeps letters letters and is idempotent. */
module Chars {

  /** A character that `[\W\d_]` does NOT match, i.e. one `clean_text` keeps. */
  predicate IsLetter(c: char)
  {
    || ('A' <= c <= 'Z')
    || ('a' <= c <= 'z')
    || c == '\U{00AA}' || c == '\U{00B5}' || c == '\U{00BA}'
    || c == '\U{00B2}' || c == '\U{00B3}' || c == '\U{00B9}'
    || ('\U{00BC}' <= c <= '\U{00BE}')
    || ('\U{00C0}' <= c <= '\U{00D6}')
    || ('\U{00D8}' <= c <= '\U{00F6}')
    || ('\U{00F8}' <= c <= '\U{024F}')
    || ('\U{0400}' <= c <= '\U{0481}')
    || ('\U{048A}' <= c <= '\U{04FF}')
  }

  /** A character `\d` matches (decimal digits; ASCII only in this model). */
  predicate IsDigit(c: char)
  {
    '0' <= c <= '9'
  }

  predicate AllDigits(w: string)
  {
    forall i :: 0 <= i < |w| ==> IsDigit(w[i])
  }

  /** A character `\s` matches and `str.strip()` removes. */
  predicate IsSpace(c: char)
  {
    || c == ' ' || ('\t' <= c <= '\r')
    || ('\U{001C}' <= c <= '\U{001F}')
    || c == '\U{0085}' || c == '\U{00A0}' || c == '\U{1680}'
    || ('\U{2000}' <= c <= '\U{200A}')
    || c == '\U{2028}' || c == '\U{2029}' || c == '\U{202F}'
    || c == '\U{205F}' || c == '\U{3000}'
  }

  /** `c.lower()` for the characters of the table. */
  function ToLower(c: char): char
  {
    if 'A' <= c <= 'Z' then (c as int + 32) as char
    else if '\U{00C0}' <= c <= '\U{00DE}' && c != '\U{00D7}' then (c as int + 32) as char
    else if '\U{0410}' <= c <= '\U{042F}' then (c as int + 32) as char
    else if '\U{0400}' <= c <= '\U{040F}' then (c as int + 80) as char
    else c
  }

  lemma SpaceIsNotLetter(c: char)
    ensures IsSpace(c) ==> !IsLetter(c)
  {
  }

  lemma DigitIsNotLetter(c: char)
    ensures IsDigit(c) ==> !IsLetter(c)
  {
  }

  /** Lower-casing maps letters to letters and everything else to itself. */
  lemma LowerKeepsClass(c: char)
    ensures IsLetter(ToLower(c)) == IsLetter(c)
    ensures !IsLetter(c) ==> ToLower(c) == c
  {
  }

  lemma LowerIdempotent(c: char)
    ensures ToLower(ToLower(c)) == ToLower(c)
  {
  }
}
