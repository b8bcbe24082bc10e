/**
 * standardize_date and _parse_month_name of cleaner.py: eleven strptime formats
 * tried in order as full matches, then two case-insensitive searches for a
 * day, a month name and a year, and a Gregorian validity check on the result,
 * which is rendered as an ISO 8601 calendar date YYYY-MM-DD.
 */
module Dates {
  import opened Wrappers
  import opened Text

  /** A year, month and day as datetime receives them (not necessarily a real date). */
  datatype Date = Date(year: int, month: int, day: int)

  predicate IsLeap(y: int) {
    y % 4 == 0 && (y % 100 != 0 || y % 400 == 0)
  }

  function DaysInMonth(y: int, m: int): int
    requires 1 <= m <= 12
  {
    if m == 2 then (if IsLeap(y) then 29 else 28)
    else if m == 4 || m == 6 || m == 9 || m == 11 then 30
    else 31
  }

  /** What datetime(year, month, day) accepts: MINYEAR = 1, MAXYEAR = 9999, a real day of the month. */
  predicate ValidDate(d: Date) {
    1 <= d.year <= 9999 && 1 <= d.month <= 12 && 1 <= d.day <= DaysInMonth(d.year, d.month)
  }

  // ---------------------------------------------------------------------------
  // strftime("%Y-%m-%d")
  // ---------------------------------------------------------------------------

  function Digits2(n: nat): (r: string)
    requires n < 100
    ensures |r| == 2 && IsDigit(r[0]) && IsDigit(r[1])
  {
    [DigitChar(n / 10), DigitChar(n % 10)]
  }

  function Digits4(n: nat): (r: string)
    requires n < 10000
    ensures |r| == 4 && IsDigit(r[0]) && IsDigit(r[1]) && IsDigit(r[2]) && IsDigit(r[3])
  {
    Digits2(n / 100) + Digits2(n % 100)
  }

  /** The canonical form: four-digit year, two-digit month and day, joined by '-'. */
  function Iso(d: Date): (r: string)
    requires ValidDate(d)
    ensures |r| == 10 && r[4] == '-' && r[7] == '-'
    ensures forall i :: 0 <= i < 10 && i != 4 && i != 7 ==> IsDigit(r[i])
  {
    Digits4(d.year) + "-" + Digits2(d.month) + "-" + Digits2(d.day)
  }

  lemma Digits2Value(n: nat)
    requires n < 100
    ensures DigitsValue(Digits2(n)) == n
  {
    var s := Digits2(n);
    assert s[..1] == [s[0]];
    assert DigitsValue(s[..1]) == DigitValue(s[0]);
  }

  lemma Digits4Value(n: nat)
    requires n < 10000
    ensures DigitsValue(Digits4(n)) == n
  {
    var s := Digits4(n);
    assert s[..3][..2] == s[..2] && s[..2][..1] == s[..1] && s[..1] == [s[0]];
    assert DigitsValue(s[..1]) == DigitValue(s[0]);
    assert DigitsValue(s[..2]) == DigitValue(s[0]) * 10 + DigitValue(s[1]);
    assert DigitsValue(s[..3]) == DigitsValue(s[..2]) * 10 + DigitValue(s[2]);
  }

  lemma DigitsValue2(s: string)
    requires |s| == 2 && IsDigit(s[0]) && IsDigit(s[1])
    ensures DigitsValue(s) == 10 * DigitValue(s[0]) + DigitValue(s[1])
  {
    assert s[..1] == [s[0]];
    assert DigitsValue(s[..1]) == DigitValue(s[0]);
  }

  lemma DigitsValue4(s: string)
    requires |s| == 4 && IsDigit(s[0]) && IsDigit(s[1]) && IsDigit(s[2]) && IsDigit(s[3])
    ensures DigitsValue(s) == 1000 * DigitValue(s[0]) + 100 * DigitValue(s[1]) + 10 * DigitValue(s[2]) + DigitValue(s[3])
  {
    assert s[..3][..2] == s[..2] && s[..2][..1] == s[..1] && s[..1] == [s[0]];
    assert DigitsValue(s[..1]) == DigitValue(s[0]);
    assert DigitsValue(s[..2]) == DigitValue(s[0]) * 10 + DigitValue(s[1]);
    assert DigitsValue(s[..3]) == DigitsValue(s[..2]) * 10 + DigitValue(s[2]);
  }

  // ---------------------------------------------------------------------------
  // Month names
  // ---------------------------------------------------------------------------

  const MONTH_FULL: seq<string> := [
    "january", "february", "march", "april", "may", "june",
    "july", "august", "september", "october", "november", "december"
  ]

  /** The keys of MONTH_NAMES, in month order; also the `%b` names and the fallback alternation. */
  const MONTH_ABBR: seq<string> := [
    "jan", "feb", "mar", "apr", "may", "jun", "jul", "aug", "sep", "oct", "nov", "dec"
  ]

  /** Every name starts with a lower-case ASCII letter. */
  predicate LetterInitials(names: seq<string>) {
    forall k :: 0 <= k < |names| ==> names[k] != [] && 'a' <= names[k][0] <= 'z'
  }

  lemma MonthInitials()
    ensures LetterInitials(MONTH_FULL) && LetterInitials(MONTH_ABBR)
  {
  }

  /** s starts with name, ignoring ASCII case. */
  predicate NameMatches(s: string, name: string) {
    |name| <= |s| && Lower(s[..|name|]) == name
  }

  /**
   * The month whose name in names starts s, ignoring ASCII case, searched from index i:
   * the month number and the length of the name. No name in either list is a prefix of
   * another, so at most one name can start s and the order of the search does not matter.
   */
  function NameAt(s: string, names: seq<string>, i: nat): (m: Option<(nat, nat)>)
    requires forall k :: 0 <= k < |names| ==> names[k] != []
    ensures m.Some? ==> i < m.value.0 <= |names| && m.value.1 == |names[m.value.0 - 1]| <= |s|
    ensures m.Some? ==> Lower(s[..m.value.1]) == names[m.value.0 - 1]
    ensures m.None? ==> forall k :: i <= k < |names| ==> !NameMatches(s, names[k])
    decreases |names| - i
  {
    if i >= |names| then None
    else if NameMatches(s, names[i]) then Some((i + 1, |names[i]|))
    else NameAt(s, names, i + 1)
  }

  /** `_parse_month_name`: MONTH_NAMES.get(month_str.lower()[:3], 1). */
  function ParseMonthName(month: string): (r: nat)
    ensures 1 <= r <= 12
  {
    var key := Lower(month)[..if |month| < 3 then |month| else 3];
    if key in MONTH_ABBR then IndexOf(MONTH_ABBR, key) + 1 else 1
  }

  function IndexOf(names: seq<string>, key: string): (i: nat)
    requires key in names
    ensures i < |names| && names[i] == key
    ensures forall j :: 0 <= j < i ==> names[j] != key
  {
    if names[0] == key then 0 else 1 + IndexOf(names[1..], key)
  }

  /** Names of at least three letters whose first three letters tell them apart. */
  predicate DistinctPrefixes(names: seq<string>) {
    && (forall k :: 0 <= k < |names| ==> |names[k]| >= 3)
    && (forall j, k :: 0 <= j < k < |names| ==> names[j][..3] != names[k][..3])
  }

  lemma MonthNamesDistinct()
    ensures forall k :: 0 <= k < 12 ==> MONTH_FULL[k][..3] == MONTH_ABBR[k] == MONTH_ABBR[k][..3]
    ensures DistinctPrefixes(MONTH_FULL) && DistinctPrefixes(MONTH_ABBR)
  {
    forall k | 0 <= k < 12
      ensures MONTH_FULL[k][..3] == MONTH_ABBR[k] == MONTH_ABBR[k][..3]
    {
    }
    assert forall j, k :: 0 <= j < k < 12 ==> MONTH_ABBR[j] != MONTH_ABBR[k];
  }

  /**
   * When the names are told apart by their first three letters, the search finds a
   * name exactly when that name starts s, whatever the order of the list.
   */
  lemma NameAtFinds(s: string, names: seq<string>, k: nat)
    requires DistinctPrefixes(names) && k < |names|
    ensures NameAt(s, names, 0) == Some((k + 1, |names[k]|)) <==> NameMatches(s, names[k])
  {
    var m := NameAt(s, names, 0);
    if NameMatches(s, names[k]) && m.Some? && m.value.0 - 1 != k {
      assert false;
    }
  }

  /** A month name only starts at an ASCII letter. */
  lemma NameAtLetter(s: string, names: seq<string>)
    requires LetterInitials(names)
    ensures NameAt(s, names, 0).Some? ==> |s| > 0 && IsAsciiLetter(s[0])
  {
    var m := NameAt(s, names, 0);
    if m.Some? {
      assert Lower(s[..m.value.1])[0] == names[m.value.0 - 1][0];
    }
  }

  /** The name found agrees with s on the first three letters. */
  lemma NameAtPrefix(s: string, names: seq<string>)
    requires DistinctPrefixes(names)
    ensures NameAt(s, names, 0).Some? ==>
      |s| >= 3 && Lower(s[..3]) == names[NameAt(s, names, 0).value.0 - 1][..3]
  {
    var m := NameAt(s, names, 0);
    if m.Some? {
      assert Lower(s[..3]) == Lower(s[..m.value.1])[..3];
    }
  }

  /** _parse_month_name on a string that starts with an abbreviation under ASCII case folding: the default of 1 is not used. */
  lemma ParseMonthNameOfAbbr(s: string, k: nat)
    requires k < 12 && NameMatches(s, MONTH_ABBR[k])
    ensures ParseMonthName(s[..3]) == k + 1
  {
    MonthNamesDistinct();
    assert Lower(s[..3]) == MONTH_ABBR[k];
    var i := IndexOf(MONTH_ABBR, MONTH_ABBR[k]);
    if i != k {
      assert false;
    }
  }

  // ---------------------------------------------------------------------------
  // datetime.strptime
  // ---------------------------------------------------------------------------

  /**
   * One element of a strptime format as _strptime compiles it into a regular
   * expression: `%Y` is `\d\d\d\d`, `%m` is `1[0-2]|0[1-9]|[1-9]`, `%d` is
   * `3[01]|[12]\d|0[1-9]|[1-9]| [1-9]`, `%B` and `%b` are the English month names,
   * a run of whitespace in the format is `\s+`, and any other character matches
   * itself; matching ignores case.
   */
  datatype Directive = Year4 | MonthNum | DayNum | MonthFull | MonthAbbr | Spaces | Lit(c: char)

  /**
   * The match of one directive at the start of s: its numeric value (0 for separators)
   * and its length. The first alternative that matches is taken; in every format each
   * numeric directive is followed by a non-digit, so a shorter alternative that the
   * regular expression could fall back to would leave a digit where a separator must
   * match, and this choice loses no match.
   */
  function Step(s: string, d: Directive): (m: Option<(nat, nat)>)
    ensures m.Some? ==> 1 <= m.value.1 <= |s|
  {
    match d
    case Year4 =>
      if |s| >= 4 && IsDigit(s[0]) && IsDigit(s[1]) && IsDigit(s[2]) && IsDigit(s[3])
      then Some((DigitsValue(s[..4]), 4)) else None
    case MonthNum =>
      if |s| >= 2 && s[0] == '1' && '0' <= s[1] <= '2' then Some((10 + DigitValue(s[1]), 2))
      else if |s| >= 2 && s[0] == '0' && '1' <= s[1] <= '9' then Some((DigitValue(s[1]), 2))
      else if |s| >= 1 && '1' <= s[0] <= '9' then Some((DigitValue(s[0]), 1))
      else None
    case DayNum =>
      if |s| >= 2 && s[0] == '3' && '0' <= s[1] <= '1' then Some((30 + DigitValue(s[1]), 2))
      else if |s| >= 2 && '1' <= s[0] <= '2' && IsDigit(s[1]) then Some((10 * DigitValue(s[0]) + DigitValue(s[1]), 2))
      else if |s| >= 2 && s[0] == '0' && '1' <= s[1] <= '9' then Some((DigitValue(s[1]), 2))
      else if |s| >= 1 && '1' <= s[0] <= '9' then Some((DigitValue(s[0]), 1))
      else if |s| >= 2 && s[0] == ' ' && '1' <= s[1] <= '9' then Some((DigitValue(s[1]), 2))
      else None
    case MonthFull => NameAt(s, MONTH_FULL, 0)
    case MonthAbbr => NameAt(s, MONTH_ABBR, 0)
    case Spaces =>
      var n := RunLength(s, IsSpace);
      if n >= 1 then Some((0, n)) else None
    case Lit(c) =>
      if |s| >= 1 && LowerChar(s[0]) == LowerChar(c) then Some((0, 1)) else None
  }

  function Assign(acc: Date, d: Directive, v: nat): Date {
    match d
    case Year4 => acc.(year := v)
    case MonthNum => acc.(month := v)
    case MonthFull => acc.(month := v)
    case MonthAbbr => acc.(month := v)
    case DayNum => acc.(day := v)
    case _ => acc
  }

  /** Match the whole of s against the compiled format, filling in the fields it names. */
  function MatchFormat(s: string, fmt: seq<Directive>, acc: Date): Option<Date>
    decreases |fmt|
  {
    if fmt == [] then (if s == [] then Some(acc) else None)
    else match Step(s, fmt[0])
      case None => None
      case Some((v, n)) => MatchFormat(s[n..], fmt[1..], Assign(acc, fmt[0], v))
  }

  /**
   * datetime.strptime(s, fmt): the fields default to 1900-01-01; a failed match,
   * unconverted trailing data or an impossible date raise ValueError (None).
   */
  function Strptime(s: string, fmt: Format): (r: Option<Date>)
    ensures r.Some? ==> ValidDate(r.value)
  {
    match MatchFormat(s, fmt, Date(1900, 1, 1))
    case Some(d) => if ValidDate(d) then Some(d) else None
    case None => None
  }

  type Format = seq<Directive>

  /** The formats standardize_date tries, in order, each compiled as strptime compiles it. */
  const FORMATS: seq<Format> := [
    [Year4, Lit('-'), MonthNum, Lit('-'), DayNum],                // "%Y-%m-%d"
    [Year4, Lit('/'), MonthNum, Lit('/'), DayNum],                // "%Y/%m/%d"
    [MonthNum, Lit('/'), DayNum, Lit('/'), Year4],                // "%m/%d/%Y"
    [DayNum, Lit('/'), MonthNum, Lit('/'), Year4],                // "%d/%m/%Y"
    [DayNum, Lit('-'), MonthNum, Lit('-'), Year4],                // "%d-%m-%Y"
    [DayNum, Lit('.'), MonthNum, Lit('.'), Year4],                // "%d.%m.%Y"
    [MonthNum, Lit('-'), DayNum, Lit('-'), Year4],                // "%m-%d-%Y"
    [MonthFull, Spaces, DayNum, Lit(','), Spaces, Year4],         // "%B %d, %Y"
    [MonthAbbr, Spaces, DayNum, Lit(','), Spaces, Year4],         // "%b %d, %Y"
    [DayNum, Spaces, MonthFull, Spaces, Year4],                   // "%d %B %Y"
    [DayNum, Spaces, MonthAbbr, Spaces, Year4]                    // "%d %b %Y"
  ]

  /** The first format in fmts that parses s. */
  function FirstFormat(s: string, fmts: seq<Format>): (r: Option<Date>)
    ensures r.Some? ==> ValidDate(r.value)
  {
    if fmts == [] then None
    else match Strptime(s, fmts[0])
      case Some(d) => Some(d)
      case None => FirstFormat(s, fmts[1..])
  }

  /** First success wins: the result is the parse by the earliest format that succeeds. */
  lemma {:induction false} FirstFormatPrecedence(s: string, fmts: seq<Format>)
    ensures FirstFormat(s, fmts).Some? <==> exists i :: 0 <= i < |fmts| && Strptime(s, fmts[i]).Some?
    ensures FirstFormat(s, fmts).Some? ==>
      (exists i :: 0 <= i < |fmts| && Strptime(s, fmts[i]) == FirstFormat(s, fmts)
        && forall j :: 0 <= j < i ==> Strptime(s, fmts[j]).None?)
  {
    if fmts != [] {
      FirstFormatPrecedence(s, fmts[1..]);
      if Strptime(s, fmts[0]).None? {
        if exists i :: 0 <= i < |fmts| && Strptime(s, fmts[i]).Some? {
          var i :| 0 <= i < |fmts| && Strptime(s, fmts[i]).Some?;
          assert fmts[1..][i - 1] == fmts[i];
        }
        if FirstFormat(s, fmts).Some? {
          var i :| 0 <= i < |fmts[1..]| && Strptime(s, fmts[1..][i]) == FirstFormat(s, fmts[1..])
            && forall j :: 0 <= j < i ==> Strptime(s, fmts[1..][j]).None?;
          assert forall j :: 0 < j <= i ==> fmts[j] == fmts[1..][j - 1];
          assert Strptime(s, fmts[i + 1]) == FirstFormat(s, fmts);
        }
      } else {
        assert Strptime(s, fmts[0]) == FirstFormat(s, fmts);
      }
    }
  }

  // ---------------------------------------------------------------------------
  // The two fallback searches
  // ---------------------------------------------------------------------------

  /** `\d{1,2}`, greedy: the value and the length of the digits at the start of s. */
  function DayDigitsAt(s: string): (m: Option<(nat, nat)>)
    ensures m.Some? ==> 1 <= m.value.1 <= 2 && m.value.1 <= |s| && IsDigit(s[0])
  {
    var n := RunLength(s, IsDigit);
    if n == 0 then None
    else
      var k := if n >= 2 then 2 else 1;
      Some((DigitsValue(s[..k]), k))
  }

  /** `\d{4}` at the start of s. */
  function YearDigitsAt(s: string): Option<nat> {
    if |s| >= 4 && IsDigit(s[0]) && IsDigit(s[1]) && IsDigit(s[2]) && IsDigit(s[3])
    then Some(DigitsValue(s[..4])) else None
  }

  /**
   * `(Jan|Feb|...|Dec)[a-z]*\.?` at the start of s, ignoring case: the month that
   * _parse_month_name gives for the three captured letters, and the length of the match.
   */
  /** The `%b` name that starts s, ignoring ASCII case: the month number and three. */
  function AbbrAt(s: string): (m: Option<(nat, nat)>)
    ensures m.Some? ==> m.value.1 == 3 <= |s| && IsAsciiLetter(s[0])
  {
    AbbrInitials();
    NameAtLetter(s, MONTH_ABBR);
    NameAt(s, MONTH_ABBR, 0)
  }

  lemma AbbrInitials()
    ensures LetterInitials(MONTH_ABBR) && forall k :: 0 <= k < 12 ==> |MONTH_ABBR[k]| == 3
  {
  }

  function MonthWordAt(s: string): (m: Option<(nat, nat)>)
    ensures m.Some? ==> 3 <= m.value.1 <= |s|
    ensures m.Some? ==> IsAsciiLetter(s[0])
  {
    match AbbrAt(s)
    case None => None
    case Some((_, n)) =>
      var k := n + RunLength(s[n..], IsAsciiLetter);
      Some((ParseMonthName(s[..3]), if k < |s| && s[k] == '.' then k + 1 else k))
  }

  /**
   * `(\d{1,2})\s+(Jan|...|Dec)[a-z]*\.?\s+(\d{4})` matched at the start of s. Each
   * repetition is greedy, and giving back a character would leave a digit, a letter,
   * a '.' or a space where the next element cannot accept it, so this is the only match.
   */
  function DayMonthYearAt(s: string): (r: Option<Date>)
    ensures r.Some? ==> HasYearDigits(s) && HasLetter(s) && IsDigit(s[0])
  {
    match DayDigitsAt(s)
    case None => None
    case Some((day, a)) =>
      var b := a + RunLength(s[a..], IsSpace);
      if b == a then None
      else match MonthYearAt(s[b..])
        case None => None
        case Some((month, year)) => SuffixFacts(s, b); Some(Date(year, month, day))
  }

  /** `(Jan|...|Dec)[a-z]*\.?\s+(\d{4})` matched at the start of s: the month and the year. */
  function MonthYearAt(s: string): (r: Option<(nat, nat)>)
    ensures r.Some? ==> HasYearDigits(s) && HasLetter(s)
  {
    match MonthWordAt(s)
    case None => None
    case Some((month, c)) =>
      var f := c + RunLength(s[c..], IsSpace);
      if f == c then None
      else match YearDigitsAt(s[f..])
        case None => None
        case Some(year) => YearDigitsAtYear(s, f); Some((month, year))
  }

  /** Four digits and a letter in a suffix are in the whole string. */
  lemma SuffixFacts(s: string, b: nat)
    requires b <= |s| && HasYearDigits(s[b..]) && HasLetter(s[b..])
    ensures HasYearDigits(s) && HasLetter(s)
  {
    assert s[b..|s|] == s[b..];
    HasYearDigitsSlice(s, b, |s|);
    var i :| 0 <= i < |s[b..]| && IsAsciiLetter(s[b..][i]);
    assert IsAsciiLetter(s[b + i]);
  }

  /** `(Jan|...|Dec)[a-z]*\.?\s+(\d{1,2}),?\s+(\d{4})` matched at the start of s. */
  function MonthDayYearAt(s: string): (r: Option<Date>)
    ensures r.Some? ==> HasYearDigits(s) && HasLetter(s)
  {
    match MonthWordAt(s)
    case None => None
    case Some((month, c)) =>
      var b := c + RunLength(s[c..], IsSpace);
      if b == c then None
      else match DayDigitsAt(s[b..])
        case None => None
        case Some((day, a)) =>
          var e := b + a;
          var e' := if e < |s| && s[e] == ',' then e + 1 else e;
          var f := e' + RunLength(s[e'..], IsSpace);
          if f == e' then None
          else match YearDigitsAt(s[f..])
            case None => None
            case Some(year) => YearDigitsAtYear(s, f); Some(Date(year, month, day))
  }

  predicate HasLetter(s: string) {
    exists i :: 0 <= i < |s| && IsAsciiLetter(s[i])
  }

  /** re.search: the match at the leftmost position where the pattern matches. */
  function Search(s: string, at: string -> Option<Date>): Option<Date>
    decreases |s|
  {
    if at(s).Some? || s == [] then at(s) else Search(s[1..], at)
  }

  /** The search returns the match at the first position where one starts. */
  lemma {:induction false} SearchLeftmost(s: string, at: string -> Option<Date>)
    ensures Search(s, at).Some? <==> exists i :: 0 <= i <= |s| && at(s[i..]).Some?
    ensures Search(s, at).Some? ==>
      (exists i :: 0 <= i <= |s| && at(s[i..]) == Search(s, at) && forall j :: 0 <= j < i ==> at(s[j..]).None?)
    decreases |s|
  {
    assert s[0..] == s;
    if at(s).None? && s != [] {
      SearchLeftmost(s[1..], at);
      forall i | 1 <= i <= |s| ensures s[1..][i - 1..] == s[i..] { }
      if exists i :: 0 <= i <= |s| && at(s[i..]).Some? {
        var i :| 0 <= i <= |s| && at(s[i..]).Some?;
        assert at(s[1..][i - 1..]).Some?;
      }
      if Search(s, at).Some? {
        var i :| 0 <= i <= |s[1..]| && at(s[1..][i..]) == Search(s[1..], at)
          && forall j :: 0 <= j < i ==> at(s[1..][j..]).None?;
        assert s[1..][i..] == s[i + 1..];
        forall j | 0 <= j < i + 1 ensures at(s[j..]).None? {
          if j > 0 {
            assert s[1..][j - 1..] == s[j..];
          }
        }
      }
    }
  }

  /** The converse: the match at the first position where one starts is the one returned. */
  lemma SearchFirst(s: string, at: string -> Option<Date>, i: nat)
    requires i <= |s| && at(s[i..]).Some?
    requires forall j :: 0 <= j < i ==> at(s[j..]).None?
    ensures Search(s, at) == at(s[i..])
  {
    SearchLeftmost(s, at);
  }

  /** No match at any position: the search finds nothing. */
  lemma SearchNone(s: string, at: string -> Option<Date>)
    requires forall j :: 0 <= j <= |s| ==> at(s[j..]).None?
    ensures Search(s, at).None?
  {
    SearchLeftmost(s, at);
  }

  // ---------------------------------------------------------------------------
  // standardize_date
  // ---------------------------------------------------------------------------

  /** The date standardize_date settles on, or None. */
  function DateOf(s: string): (r: Option<Date>)
    ensures r.Some? ==> ValidDate(r.value)
  {
    if s == [] then None
    else
      var t := Strip(s);
      match FirstFormat(t, FORMATS)
      case Some(d) => Some(d)
      case None => Fallback(t)
  }

  /** standardize_date on a string. */
  function StandardizedDate(s: string): (r: Option<string>)
    ensures r.Some? <==> DateOf(s).Some?
    ensures r.Some? ==> r.value == Iso(DateOf(s).value)
  {
    match DateOf(s)
    case Some(d) => Some(Iso(d))
    case None => None
  }

  lemma FirstFormatStep(s: string, fmts: seq<Format>, i: nat)
    requires i < |fmts|
    ensures FirstFormat(s, fmts[i..]) ==
      if Strptime(s, fmts[i]).Some? then Strptime(s, fmts[i]) else FirstFormat(s, fmts[i + 1..])
  {
    assert fmts[i..][0] == fmts[i];
    assert fmts[i..][1..] == fmts[i + 1..];
  }

  /** Formats that fail can be skipped. */
  lemma {:induction false} FirstFormatSkip(s: string, fmts: seq<Format>, i: nat, j: nat)
    requires i <= j <= |fmts|
    requires forall k :: i <= k < j ==> Strptime(s, fmts[k]).None?
    ensures FirstFormat(s, fmts[i..]) == FirstFormat(s, fmts[j..])
    decreases j - i
  {
    if i < j {
      FirstFormatStep(s, fmts, i);
      FirstFormatSkip(s, fmts, i + 1, j);
    }
  }

  /** The fallback searches that DateOf runs once no format has matched. */
  function Fallback(t: string): (r: Option<Date>)
    ensures r.Some? ==> ValidDate(r.value)
  {
    var m1 := Search(t, DayMonthYearAt);
    if m1.Some? && ValidDate(m1.value) then m1
    else
      var m2 := Search(t, MonthDayYearAt);
      if m2.Some? && ValidDate(m2.value) then m2 else None
  }

  method StandardizeDate(dateStr: string) returns (r: Option<string>)
    ensures r == StandardizedDate(dateStr)
  {
    if dateStr == [] {
      return None;
    }
    var t := Strip(dateStr);
    for i := 0 to |FORMATS|
      invariant FirstFormat(t, FORMATS) == FirstFormat(t, FORMATS[i..])
    {
      FirstFormatStep(t, FORMATS, i);
      var parsed := Strptime(t, FORMATS[i]);
      if parsed.Some? {
        return Some(Iso(parsed.value));
      }
    }
    assert FORMATS[|FORMATS|..] == [];
    var m1 := Search(t, DayMonthYearAt);
    if m1.Some? && ValidDate(m1.value) {
      return Some(Iso(m1.value));
    }
    var m2 := Search(t, MonthDayYearAt);
    if m2.Some? && ValidDate(m2.value) {
      return Some(Iso(m2.value));
    }
    return None;
  }

  // ---------------------------------------------------------------------------
  // Round trip
  // ---------------------------------------------------------------------------

  lemma YearOfDigits4(y: nat, rest: string)
    requires y < 10000
    ensures Step(Digits4(y) + rest, Year4) == Some((y, 4))
  {
    var s := Digits4(y) + rest;
    assert s[..4] == Digits4(y);
    Digits4Value(y);
  }

  lemma MonthOfDigits2(m: nat, rest: string)
    requires 1 <= m <= 12
    ensures Step(Digits2(m) + rest, MonthNum) == Some((m, 2))
  {
  }

  lemma DayOfDigits2(d: nat, rest: string)
    requires 1 <= d <= 31
    ensures Step(Digits2(d) + rest, DayNum) == Some((d, 2))
  {
  }

  /** The first format, "%Y-%m-%d", reads a rendered date back as that date. */
  lemma IsoParses(d: Date)
    requires ValidDate(d)
    ensures Strptime(Iso(d), FORMATS[0]) == Some(d)
  {
    var s := Iso(d);
    var mm, dd := Digits2(d.month), Digits2(d.day);
    assert s == Digits4(d.year) + ("-" + mm + "-" + dd);
    YearOfDigits4(d.year, "-" + mm + "-" + dd);
    assert s[4..] == "-" + mm + "-" + dd;
    assert s[5..] == mm + ("-" + dd);
    MonthOfDigits2(d.month, "-" + dd);
    assert s[7..] == "-" + dd;
    assert s[8..] == dd + [];
    DayOfDigits2(d.day, []);
    var f := FORMATS[0];
    assert f[1..] == [Lit('-'), MonthNum, Lit('-'), DayNum];
    assert MatchFormat(s[8..], [DayNum], Date(d.year, d.month, 1)) == Some(d) by {
      assert s[8..][2..] == [];
    }
    assert MatchFormat(s[7..], [Lit('-'), DayNum], Date(d.year, d.month, 1)) == Some(d) by {
      assert s[7..][1..] == s[8..];
    }
    assert MatchFormat(s[5..], [MonthNum, Lit('-'), DayNum], Date(d.year, 1, 1)) == Some(d) by {
      assert s[5..][2..] == s[7..];
    }
    assert MatchFormat(s[4..], f[1..], Date(d.year, 1, 1)) == Some(d) by {
      assert s[4..][1..] == s[5..];
    }
  }

  /** standardize_date accepts its own output and returns the same date. */
  lemma DateOfIso(d: Date)
    requires ValidDate(d)
    ensures DateOf(Iso(d)) == Some(d)
  {
    var s := Iso(d);
    assert !IsSpace(s[0]) && !IsSpace(s[9]);
    StripNoOuterSpace(s);
    IsoParses(d);
    assert FirstFormat(s, FORMATS) == Some(d);
  }

  /** standardize_date is idempotent on the strings it accepts. */
  lemma StandardizedDateIdempotent(s: string)
    requires StandardizedDate(s).Some?
    ensures StandardizedDate(StandardizedDate(s).value) == StandardizedDate(s)
  {
    DateOfIso(DateOf(s).value);
  }

  // ---------------------------------------------------------------------------
  // Every accepted string holds a four-digit year
  // ---------------------------------------------------------------------------

  /** Four ASCII digits at position i of s. */
  predicate DigitsAt(s: string, i: nat) {
    i + 4 <= |s| && forall k :: i <= k < i + 4 ==> IsDigit(s[k])
  }

  /** Four consecutive ASCII digits somewhere in s. */
  predicate HasYearDigits(s: string) {
    exists i: nat :: i < |s| && DigitsAt(s, i)
  }

  lemma HasYearDigitsSlice(s: string, a: nat, b: nat)
    requires a <= b <= |s| && HasYearDigits(s[a..b])
    ensures HasYearDigits(s)
  {
    var i: nat :| i < b - a && DigitsAt(s[a..b], i);
    assert forall k :: a + i <= k < a + i + 4 ==> s[k] == s[a..b][k - a];
    assert DigitsAt(s, a + i);
  }

  lemma {:induction false} MatchFormatYear(s: string, fmt: Format, acc: Date)
    requires Year4 in fmt && MatchFormat(s, fmt, acc).Some?
    ensures HasYearDigits(s)
    decreases |fmt|
  {
    var m := Step(s, fmt[0]);
    assert m.Some?;
    if fmt[0] == Year4 {
      assert DigitsAt(s, 0);
    } else {
      assert Year4 in fmt[1..];
      assert MatchFormat(s[m.value.1..], fmt[1..], Assign(acc, fmt[0], m.value.0)).Some?;
      MatchFormatYear(s[m.value.1..], fmt[1..], Assign(acc, fmt[0], m.value.0));
      assert s[m.value.1..|s|] == s[m.value.1..];
      HasYearDigitsSlice(s, m.value.1, |s|);
    }
  }

  lemma {:induction false} FirstFormatYear(s: string, fmts: seq<Format>)
    requires forall k :: 0 <= k < |fmts| ==> Year4 in fmts[k]
    requires FirstFormat(s, fmts).Some?
    ensures HasYearDigits(s)
  {
    FirstFormatPrecedence(s, fmts);
    var i :| 0 <= i < |fmts| && Strptime(s, fmts[i]).Some?;
    MatchFormatYear(s, fmts[i], Date(1900, 1, 1));
  }

  lemma FormatsHaveYear()
    ensures forall k :: 0 <= k < |FORMATS| ==> Year4 in FORMATS[k]
  {
  }

  lemma YearDigitsAtYear(s: string, f: nat)
    requires f <= |s| && YearDigitsAt(s[f..]).Some?
    ensures HasYearDigits(s)
  {
    assert DigitsAt(s, f);
  }

  lemma {:induction false} SearchYear(s: string, at: string -> Option<Date>)
    requires forall x :: at(x).Some? ==> HasYearDigits(x)
    requires Search(s, at).Some?
    ensures HasYearDigits(s)
  {
    SearchLeftmost(s, at);
    var i :| 0 <= i <= |s| && at(s[i..]).Some?;
    assert s[i..|s|] == s[i..];
    HasYearDigitsSlice(s, i, |s|);
  }

  /** A string standardize_date accepts contains four consecutive digits, its year. */
  lemma DateOfNeedsYear(s: string)
    requires DateOf(s).Some?
    ensures HasYearDigits(s)
  {
    var i, j := StripSlice(s);
    var t := Strip(s);
    if FirstFormat(t, FORMATS).Some? {
      FormatsHaveYear();
      FirstFormatYear(t, FORMATS);
    } else if Search(t, DayMonthYearAt).Some? && ValidDate(Search(t, DayMonthYearAt).value) {
      SearchYear(t, DayMonthYearAt);
    } else {
      SearchYear(t, MonthDayYearAt);
    }
    HasYearDigitsSlice(s, i, j);
  }

  lemma HasLetterSlice(s: string, a: nat)
    requires a <= |s| && HasLetter(s[a..])
    ensures HasLetter(s)
  {
    var i :| 0 <= i < |s[a..]| && IsAsciiLetter(s[a..][i]);
    assert s[a + i] == s[a..][i];
  }

  /** Both fallback searches need a month name, so a string without letters has no fallback date. */
  lemma FallbackNeedsLetter(t: string)
    ensures Fallback(t).Some? ==> HasLetter(t)
  {
    var at := if Search(t, DayMonthYearAt).Some? && ValidDate(Search(t, DayMonthYearAt).value)
      then DayMonthYearAt else MonthDayYearAt;
    if Fallback(t).Some? {
      SearchLeftmost(t, at);
      var i :| 0 <= i <= |t| && at(t[i..]).Some?;
      HasLetterSlice(t, i);
    }
  }
}
