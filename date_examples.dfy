/**
 * standardize_date on the inputs its docstring and the comments on its format list
 * name ("Jan 15, 2024", "15 January 2024"), plus ambiguous month/day, leap-day and
 * in-text cases: the format order settles month-first against day-first readings,
 * the fallback searches find a date inside other text, and impossible dates are refused.
 */
module DateExamples {
  import opened Wrappers
  import opened Text
  import opened Dates

  // ---------------------------------------------------------------------------
  // How a single format succeeds or fails
  // ---------------------------------------------------------------------------

  lemma YearAt(s: string, y: nat)
    requires y < 10000 && |s| >= 4 && s[..4] == Digits4(y)
    ensures Step(s, Year4) == Some((y, 4))
  {
    assert s == Digits4(y) + s[4..];
    YearOfDigits4(y, s[4..]);
  }

  /** A format reads its first directive, then the rest of the string with the rest of the format. */
  lemma MatchCons(s: string, fmt: Format, acc: Date, v: nat, n: nat)
    requires fmt != [] && Step(s, fmt[0]) == Some((v, n))
    ensures MatchFormat(s, fmt, acc) == MatchFormat(s[n..], fmt[1..], Assign(acc, fmt[0], v))
  {
  }

  /** A five-directive format whose directives read consecutive pieces that cover s. */
  lemma MatchFive(s: string, fmt: Format, acc: Date, v0: nat, v1: nat, v2: nat, v3: nat, v4: nat,
                  n0: nat, n1: nat, n2: nat, n3: nat, n4: nat)
    requires |fmt| == 5 && n0 + n1 + n2 + n3 + n4 == |s|
    requires Step(s, fmt[0]) == Some((v0, n0))
    requires Step(s[n0..], fmt[1]) == Some((v1, n1))
    requires Step(s[n0 + n1..], fmt[2]) == Some((v2, n2))
    requires Step(s[n0 + n1 + n2..], fmt[3]) == Some((v3, n3))
    requires Step(s[n0 + n1 + n2 + n3..], fmt[4]) == Some((v4, n4))
    ensures MatchFormat(s, fmt, acc) ==
      Some(Assign(Assign(Assign(Assign(Assign(acc, fmt[0], v0), fmt[1], v1), fmt[2], v2), fmt[3], v3), fmt[4], v4))
  {
    var a1 := Assign(acc, fmt[0], v0);
    var a2 := Assign(a1, fmt[1], v1);
    var a3 := Assign(a2, fmt[2], v2);
    var a4 := Assign(a3, fmt[3], v3);
    var t1, t2, t3, t4 := s[n0..], s[n0 + n1..], s[n0 + n1 + n2..], s[n0 + n1 + n2 + n3..];
    assert t1[n1..] == t2 && t2[n2..] == t3 && t3[n3..] == t4 && t4[n4..] == [];
    assert fmt[1..][0] == fmt[1] && fmt[2..][0] == fmt[2] && fmt[3..][0] == fmt[3] && fmt[4..][0] == fmt[4];
    assert fmt[1..][1..] == fmt[2..] && fmt[2..][1..] == fmt[3..] && fmt[3..][1..] == fmt[4..] && fmt[4..][1..] == [];
    MatchCons(s, fmt, acc, v0, n0);
    MatchCons(t1, fmt[1..], a1, v1, n1);
    MatchCons(t2, fmt[2..], a2, v2, n2);
    MatchCons(t3, fmt[3..], a3, v3, n3);
    MatchCons(t4, fmt[4..], a4, v4, n4);
  }

  /** A six-directive format whose directives read consecutive pieces that cover s. */
  lemma MatchSix(s: string, fmt: Format, acc: Date, v0: nat, v1: nat, v2: nat, v3: nat, v4: nat, v5: nat,
                 n0: nat, n1: nat, n2: nat, n3: nat, n4: nat, n5: nat)
    requires |fmt| == 6 && n0 + n1 + n2 + n3 + n4 + n5 == |s|
    requires Step(s, fmt[0]) == Some((v0, n0))
    requires Step(s[n0..], fmt[1]) == Some((v1, n1))
    requires Step(s[n0 + n1..], fmt[2]) == Some((v2, n2))
    requires Step(s[n0 + n1 + n2..], fmt[3]) == Some((v3, n3))
    requires Step(s[n0 + n1 + n2 + n3..], fmt[4]) == Some((v4, n4))
    requires Step(s[n0 + n1 + n2 + n3 + n4..], fmt[5]) == Some((v5, n5))
    ensures MatchFormat(s, fmt, acc) ==
      Some(Assign(Assign(Assign(Assign(Assign(Assign(acc, fmt[0], v0), fmt[1], v1), fmt[2], v2), fmt[3], v3), fmt[4], v4), fmt[5], v5))
  {
    var a1 := Assign(acc, fmt[0], v0);
    var t1 := s[n0..];
    assert t1[n1..] == s[n0 + n1..] && t1[n1 + n2..] == s[n0 + n1 + n2..];
    assert t1[n1 + n2 + n3..] == s[n0 + n1 + n2 + n3..] && t1[n1 + n2 + n3 + n4..] == s[n0 + n1 + n2 + n3 + n4..];
    assert fmt[1..][0] == fmt[1] && fmt[1..][1] == fmt[2] && fmt[1..][2] == fmt[3];
    assert fmt[1..][3] == fmt[4] && fmt[1..][4] == fmt[5];
    MatchCons(s, fmt, acc, v0, n0);
    MatchFive(t1, fmt[1..], a1, v1, v2, v3, v4, v5, n1, n2, n3, n4, n5);
  }

  /** The first format that parses s is the i-th when every one before it fails. */
  lemma FirstFormatAt(s: string, fmts: seq<Format>, i: nat, d: Date)
    requires i < |fmts| && Strptime(s, fmts[i]) == Some(d)
    requires forall j :: 0 <= j < i ==> Strptime(s, fmts[j]).None?
    ensures FirstFormat(s, fmts) == Some(d)
  {
    FirstFormatSkip(s, fmts, 0, i);
    FirstFormatStep(s, fmts, i);
    assert fmts[0..] == fmts;
  }
  /** The third format is the first to parse. */
  lemma ThirdFormat(s: string, d: Date)
    requires Strptime(s, FORMATS[0]).None? && Strptime(s, FORMATS[1]).None?
    requires Strptime(s, FORMATS[2]) == Some(d)
    ensures FirstFormat(s, FORMATS) == Some(d)
  {
    forall j | 0 <= j < 2 ensures Strptime(s, FORMATS[j]).None? {
      assert j == 0 || j == 1;
    }
    FirstFormatAt(s, FORMATS, 2, d);
  }

  /** The fourth format is the first to parse. */
  lemma FourthFormat(s: string, d: Date)
    requires Strptime(s, FORMATS[0]).None? && Strptime(s, FORMATS[1]).None?
    requires Strptime(s, FORMATS[2]).None? && Strptime(s, FORMATS[3]) == Some(d)
    ensures FirstFormat(s, FORMATS) == Some(d)
  {
    forall j | 0 <= j < 3 ensures Strptime(s, FORMATS[j]).None? {
      assert j == 0 || j == 1 || j == 2;
    }
    FirstFormatAt(s, FORMATS, 3, d);
  }

  /** The fifth format is the first to parse. */
  lemma FifthFormat(s: string, d: Date)
    requires Strptime(s, FORMATS[0]).None? && Strptime(s, FORMATS[1]).None?
    requires Strptime(s, FORMATS[2]).None? && Strptime(s, FORMATS[3]).None?
    requires Strptime(s, FORMATS[4]) == Some(d)
    ensures FirstFormat(s, FORMATS) == Some(d)
  {
    forall j | 0 <= j < 4 ensures Strptime(s, FORMATS[j]).None? {
      assert j == 0 || j == 1 || j == 2 || j == 3;
    }
    FirstFormatAt(s, FORMATS, 4, d);
  }


  /** A format whose first directive fails does not parse. */
  lemma FirstStepFails(s: string, fmt: Format)
    requires fmt != [] && Step(s, fmt[0]).None?
    ensures Strptime(s, fmt).None?
  {
  }

  /** A format whose second directive fails after its first does not parse. */
  lemma SecondStepFails(s: string, fmt: Format, v: nat, n: nat)
    requires |fmt| >= 2 && Step(s, fmt[0]) == Some((v, n)) && Step(s[n..], fmt[1]).None?
    ensures Strptime(s, fmt).None?
  {
    assert fmt[1..][0] == fmt[1];
    assert MatchFormat(s[n..], fmt[1..], Assign(Date(1900, 1, 1), fmt[0], v)).None?;
  }

  /**
   * The numeric formats "%m/%d/%Y" and the like on a ten-character string: two
   * two-digit fields, each followed by the separator, then the year.
   */
  lemma NumericMatch(s: string, fmt: Format, va: nat, vb: nat, y: nat)
    requires |fmt| == 5 && fmt[1].Lit? && fmt[3] == fmt[1] && fmt[4] == Year4
    requires |s| == 10 && y < 10000 && s[6..] == Digits4(y)
    requires Step(s, fmt[0]) == Some((va, 2)) && Step(s[2..], fmt[1]).Some?
    requires Step(s[3..], fmt[2]) == Some((vb, 2)) && Step(s[5..], fmt[3]).Some?
    ensures MatchFormat(s, fmt, Date(1900, 1, 1)) ==
      Some(Assign(Assign(Date(1900, 1, 1), fmt[0], va), fmt[2], vb).(year := y))
  {
    var a := Assign(Date(1900, 1, 1), fmt[0], va);
    var b := Assign(a, fmt[2], vb);
    YearAt(s[6..], y);
    assert MatchFormat(s[6..], fmt[4..], b) == Some(b.(year := y)) by {
      assert s[6..][4..] == [];
      assert fmt[4..][1..] == [];
    }
    assert MatchFormat(s[5..], fmt[3..], b) == Some(b.(year := y)) by {
      assert s[5..][1..] == s[6..] && fmt[3..][1..] == fmt[4..];
    }
    assert MatchFormat(s[3..], fmt[2..], a) == Some(b.(year := y)) by {
      assert s[3..][2..] == s[5..] && fmt[2..][1..] == fmt[3..];
    }
    assert MatchFormat(s[2..], fmt[1..], a) == Some(b.(year := y)) by {
      assert s[2..][1..] == s[3..] && fmt[1..][1..] == fmt[2..];
    }
  }

  /** The two year-first formats fail when the third character is not a digit. */
  lemma YearFirstFails(s: string)
    requires |s| >= 3 && !IsDigit(s[2])
    ensures Strptime(s, FORMATS[0]).None? && Strptime(s, FORMATS[1]).None?
  {
    FirstStepFails(s, FORMATS[0]);
    FirstStepFails(s, FORMATS[1]);
  }

  /** Formats 7 and 8 start with a month name, which only starts at a letter. */
  lemma NameFormatsFail(s: string)
    requires s != [] && !IsAsciiLetter(s[0])
    ensures Strptime(s, FORMATS[7]).None? && Strptime(s, FORMATS[8]).None?
  {
    MonthInitials();
    NameAtLetter(s, MONTH_FULL);
    NameAtLetter(s, MONTH_ABBR);
    FirstStepFails(s, FORMATS[7]);
    FirstStepFails(s, FORMATS[8]);
  }

  /** Every format but 7 and 8 starts with a number, which cannot start at a letter. */
  lemma NumberFormatsFail(s: string)
    requires s != [] && IsAsciiLetter(s[0])
    ensures forall k :: 0 <= k < |FORMATS| && k != 7 && k != 8 ==> Strptime(s, FORMATS[k]).None?
  {
    forall k | 0 <= k < |FORMATS| && k != 7 && k != 8
      ensures Strptime(s, FORMATS[k]).None?
    {
      assert FORMATS[k][0] in {Year4, MonthNum, DayNum};
      FirstStepFails(s, FORMATS[k]);
    }
  }

  /** A format whose fourth directive fails after two two-or-one-character fields and a separator. */
  lemma FourthStepFails(s: string, fmt: Format, va: nat, vb: nat, n: nat)
    requires |fmt| >= 4 && |s| >= 3 + n
    requires Step(s, fmt[0]) == Some((va, 2)) && Step(s[2..], fmt[1]) == Some((0, 1))
    requires Step(s[3..], fmt[2]) == Some((vb, n)) && Step(s[3 + n..], fmt[3]).None?
    ensures Strptime(s, fmt).None?
  {
    var a := Assign(Date(1900, 1, 1), fmt[0], va);
    assert MatchFormat(s[3..], fmt[2..], a).None? by {
      assert s[3..][n..] == s[3 + n..] && fmt[2..][1..][0] == fmt[3];
      assert MatchFormat(s[3 + n..], fmt[3..], Assign(a, fmt[2], vb)).None?;
    }
    assert MatchFormat(s[2..], fmt[1..], a).None? by {
      assert s[2..][1..] == s[3..] && fmt[1..][1..] == fmt[2..];
    }
  }

  /** What standardize_date returns once the formats have settled the date. */
  lemma ByFormat(s: string, d: Date)
    requires s != [] && Strip(s) == s && FirstFormat(s, FORMATS) == Some(d)
    ensures StandardizedDate(s) == Some(Iso(d))
  {
  }

  lemma NoFormat(s: string)
    requires forall k :: 0 <= k < |FORMATS| ==> Strptime(s, FORMATS[k]).None?
    ensures FirstFormat(s, FORMATS) == None
  {
    FirstFormatSkip(s, FORMATS, 0, |FORMATS|);
    assert FORMATS[0..] == FORMATS;
    assert FORMATS[|FORMATS|..] == [];
  }

  /** A string with no letter and no format that parses it has no date. */
  lemma NoFormatNoLetter(s: string)
    requires s != [] && Strip(s) == s && FirstFormat(s, FORMATS) == None
    requires forall i :: 0 <= i < |s| ==> !IsAsciiLetter(s[i])
    ensures StandardizedDate(s) == None
  {
    FallbackNeedsLetter(s);
  }

  // ---------------------------------------------------------------------------
  // Format precedence
  // ---------------------------------------------------------------------------

  /** "%m/%d/%Y" on a string whose fields it reads as month m, day d and year y. */
  lemma MonthDayYearSlash(s: string, m: nat, d: nat, y: nat)
    requires |s| == 10 && y < 10000 && s[6..] == Digits4(y)
    requires Step(s, MonthNum) == Some((m, 2)) && Step(s[2..], Lit('/')).Some?
    requires Step(s[3..], DayNum) == Some((d, 2)) && Step(s[5..], Lit('/')).Some?
    requires ValidDate(Date(y, m, d))
    ensures Strptime(s, FORMATS[2]) == Some(Date(y, m, d))
  {
    NumericMatch(s, FORMATS[2], m, d, y);
  }

  /** "%d/%m/%Y" on a string whose fields it reads as day d, month m and year y. */
  lemma DayMonthYearSlash(s: string, d: nat, m: nat, y: nat)
    requires |s| == 10 && y < 10000 && s[6..] == Digits4(y)
    requires Step(s, DayNum) == Some((d, 2)) && Step(s[2..], Lit('/')).Some?
    requires Step(s[3..], MonthNum) == Some((m, 2)) && Step(s[5..], Lit('/')).Some?
    requires ValidDate(Date(y, m, d))
    ensures Strptime(s, FORMATS[3]) == Some(Date(y, m, d))
  {
    NumericMatch(s, FORMATS[3], d, m, y);
  }

  /** "%d-%m-%Y" on a string whose fields it reads as day d, month m and year y. */
  lemma DayMonthYearDash(s: string, d: nat, m: nat, y: nat)
    requires |s| == 10 && y < 10000 && s[6..] == Digits4(y)
    requires Step(s, DayNum) == Some((d, 2)) && Step(s[2..], Lit('-')).Some?
    requires Step(s[3..], MonthNum) == Some((m, 2)) && Step(s[5..], Lit('-')).Some?
    requires ValidDate(Date(y, m, d))
    ensures Strptime(s, FORMATS[4]) == Some(Date(y, m, d))
  {
    NumericMatch(s, FORMATS[4], d, m, y);
  }

  lemma Fields0304(s: string)
    requires s == "03/04/2024"
    ensures |s| == 10 && s[6..] == Digits4(2024)
    ensures Step(s, MonthNum) == Some((3, 2)) && Step(s[2..], Lit('/')).Some?
    ensures Step(s[3..], DayNum) == Some((4, 2)) && Step(s[5..], Lit('/')).Some?
  {
    assert s[2..] == "/04/2024" && s[3..] == "04/2024" && s[5..] == "/2024" && s[6..] == Digits4(2024);
  }

  lemma Parse0304(s: string)
    requires s == "03/04/2024"
    ensures Strptime(s, FORMATS[2]) == Some(Date(2024, 3, 4))
  {
    Fields0304(s);
    MonthDayYearSlash(s, 3, 4, 2024);
  }

  /** "03/04/2024" is read month first: "%m/%d/%Y" precedes "%d/%m/%Y". */
  lemma MonthFirst(s: string)
    requires s == "03/04/2024"
    ensures StandardizedDate(s) == Some("2024-03-04")
  {
    StripNoOuterSpace(s);
    YearFirstFails(s);
    Parse0304(s);
    ThirdFormat(s, Date(2024, 3, 4));
    ByFormat(s, Date(2024, 3, 4));
    Iso20240304();
  }

  lemma Iso20240304()
    ensures Iso(Date(2024, 3, 4)) == "2024-03-04"
  {
  }

  lemma Fields1304(s: string)
    requires s == "13/04/2024"
    ensures Step(s, MonthNum) == Some((1, 1)) && Step(s[1..], Lit('/')).None?
    ensures |s| == 10 && s[6..] == Digits4(2024)
    ensures Step(s, DayNum) == Some((13, 2)) && Step(s[2..], Lit('/')).Some?
    ensures Step(s[3..], MonthNum) == Some((4, 2)) && Step(s[5..], Lit('/')).Some?
  {
    assert s[1..] == "3/04/2024";
    assert s[2..] == "/04/2024" && s[3..] == "04/2024" && s[5..] == "/2024" && s[6..] == Digits4(2024);
  }

  lemma Parse1304(s: string)
    requires s == "13/04/2024"
    ensures Strptime(s, FORMATS[2]).None?
    ensures Strptime(s, FORMATS[3]) == Some(Date(2024, 4, 13))
  {
    Fields1304(s);
    MonthSlashFails(s, 1, 1);
    DayMonthYearSlash(s, 13, 4, 2024);
  }

  /** "%m/%d/%Y" fails when no '/' follows the month it reads. */
  lemma MonthSlashFails(s: string, m: nat, n: nat)
    requires Step(s, MonthNum) == Some((m, n)) && Step(s[n..], Lit('/')).None?
    ensures Strptime(s, FORMATS[2]).None?
  {
    SecondStepFails(s, FORMATS[2], m, n);
  }

  /** "13/04/2024" has no thirteenth month, so "%d/%m/%Y" reads it. */
  lemma DayFirstWhenMonthImpossible(s: string)
    requires s == "13/04/2024"
    ensures StandardizedDate(s) == Some("2024-04-13")
  {
    StripNoOuterSpace(s);
    YearFirstFails(s);
    Parse1304(s);
    FourthFormat(s, Date(2024, 4, 13));
    ByFormat(s, Date(2024, 4, 13));
    Iso20240413();
  }

  lemma Iso20240413()
    ensures Iso(Date(2024, 4, 13)) == "2024-04-13"
  {
  }

  lemma Fields0304Dashes(s: string)
    requires s == "03-04-2024"
    ensures |s| == 10 && s[6..] == Digits4(2024)
    ensures Step(s, MonthNum) == Some((3, 2)) && Step(s, DayNum) == Some((3, 2))
    ensures Step(s[2..], Lit('/')).None? && Step(s[2..], Lit('-')).Some?
    ensures Step(s[3..], MonthNum) == Some((4, 2)) && Step(s[5..], Lit('-')).Some?
  {
    assert s[2..] == "-04-2024" && s[3..] == "04-2024" && s[5..] == "-2024" && s[6..] == Digits4(2024);
  }

  lemma Parse0304Dashes(s: string)
    requires s == "03-04-2024"
    ensures Strptime(s, FORMATS[2]).None? && Strptime(s, FORMATS[3]).None?
    ensures Strptime(s, FORMATS[4]) == Some(Date(2024, 4, 3))
  {
    Fields0304Dashes(s);
    MonthSlashFails(s, 3, 2);
    DaySlashFailsAt(s, 3, 2);
    DayMonthYearDash(s, 3, 4, 2024);
  }

  /** "%d/%m/%Y" fails when no '/' follows the day it reads. */
  lemma DaySlashFailsAt(s: string, d: nat, n: nat)
    requires Step(s, DayNum) == Some((d, n)) && Step(s[n..], Lit('/')).None?
    ensures Strptime(s, FORMATS[3]).None?
  {
    SecondStepFails(s, FORMATS[3], d, n);
  }

  /** "03-04-2024" is read day first: "%d-%m-%Y" precedes "%m-%d-%Y". */
  lemma DashDayFirst(s: string)
    requires s == "03-04-2024"
    ensures StandardizedDate(s) == Some("2024-04-03")
  {
    StripNoOuterSpace(s);
    YearFirstFails(s);
    Parse0304Dashes(s);
    FifthFormat(s, Date(2024, 4, 3));
    ByFormat(s, Date(2024, 4, 3));
    Iso20240403();
  }

  lemma Iso20240403()
    ensures Iso(Date(2024, 4, 3)) == "2024-04-03"
  {
  }

  // ---------------------------------------------------------------------------
  // Gregorian validity
  // ---------------------------------------------------------------------------

  /** "%m/%d/%Y" reads "02/dd/yyyy" as the dd-th of February of year yyyy, real or not. */
  lemma ParseFebruary(s: string, day: nat, y: nat)
    requires |s| == 10 && s[..3] == "02/" && s[5] == '/' && 10 <= day <= 31
    requires s[3..5] == Digits2(day) && y < 10000 && s[6..] == Digits4(y)
    ensures Strptime(s, FORMATS[2]) == if ValidDate(Date(y, 2, day)) then Some(Date(y, 2, day)) else None
  {
    assert s[2..][0] == '/' && s[5..][0] == '/';
    assert s[3..] == Digits2(day) + s[5..];
    DayOfDigits2(day, s[5..]);
    NumericMatch(s, FORMATS[2], 2, day, y);
  }

  /** 2024 is a leap year. */
  lemma LeapDay(s: string)
    requires s == "02/29/2024"
    ensures StandardizedDate(s) == Some("2024-02-29")
  {
    StripNoOuterSpace(s);
    YearFirstFails(s);
    ParseFebruary(s, 29, 2024);
    ThirdFormat(s, Date(2024, 2, 29));
    ByFormat(s, Date(2024, 2, 29));
    Iso20240229();
  }

  lemma Iso20240229()
    ensures Iso(Date(2024, 2, 29)) == "2024-02-29"
  {
  }

  /** The shape "02/dd/yyyy" with dd from 20 to 99. */
  predicate FebruaryShape(s: string) {
    |s| == 10 && s[..3] == "02/" && '2' <= s[3] <= '9' && IsDigit(s[4]) && s[5] == '/'
  }

  /** "%d/%m/%Y" reads 02 as the day and then the single digit month s[3], and finds no '/' after it. */
  lemma DaySlashFails(s: string)
    requires FebruaryShape(s)
    ensures Strptime(s, FORMATS[3]).None?
  {
    assert s[2..][0] == '/' && s[3..][1] == s[4];
    assert Step(s, DayNum) == Some((2, 2));
    assert Step(s[2..], Lit('/')) == Some((0, 1));
    assert Step(s[3..], MonthNum) == Some((DigitValue(s[3]), 1));
    assert s[3..][1..] == s[4..];
    FourthStepFails(s, FORMATS[3], 2, DigitValue(s[3]), 1);
  }

  /** The formats with another separator fail right after "02". */
  lemma OtherSeparatorsFail(s: string)
    requires FebruaryShape(s)
    ensures Strptime(s, FORMATS[4]).None? && Strptime(s, FORMATS[5]).None? && Strptime(s, FORMATS[6]).None?
  {
    assert s[2..][0] == '/';
    assert Step(s, DayNum) == Some((2, 2)) && Step(s, MonthNum) == Some((2, 2));
    SecondStepFails(s, FORMATS[4], 2, 2);
    SecondStepFails(s, FORMATS[5], 2, 2);
    SecondStepFails(s, FORMATS[6], 2, 2);
  }

  /** The formats with a month name fail on "02", and those with a space find none after it. */
  lemma WordFormatsFail(s: string)
    requires FebruaryShape(s)
    ensures forall k :: 7 <= k < |FORMATS| ==> Strptime(s, FORMATS[k]).None?
  {
    assert s[2..][0] == '/' && !IsSpace(s[2..][0]);
    assert Step(s, DayNum) == Some((2, 2));
    assert Step(s[2..], Spaces).None?;
    NameFormatsFail(s);
    SecondStepFails(s, FORMATS[9], 2, 2);
    SecondStepFails(s, FORMATS[10], 2, 2);
  }

  /** A string of digits and '/' is its own strip and has no letter. */
  lemma NumericStrip(s: string)
    requires s != [] && forall i :: 0 <= i < |s| ==> IsDigit(s[i]) || s[i] == '/'
    ensures Strip(s) == s && forall i :: 0 <= i < |s| ==> !IsAsciiLetter(s[i])
  {
    StripNoOuterSpace(s);
  }

  /** An impossible February date in the shape "02/dd/yyyy" has no standard form. */
  lemma ImpossibleFebruary(s: string, day: nat, y: nat)
    requires |s| == 10 && s[..3] == "02/" && s[5] == '/' && 20 <= day <= 31
    requires s[3..5] == Digits2(day) && y < 10000 && s[6..] == Digits4(y)
    requires day > DaysInMonth(y, 2)
    requires forall i :: 0 <= i < |s| ==> IsDigit(s[i]) || s[i] == '/'
    ensures StandardizedDate(s) == None
  {
    FebruaryNumericFail(s, day, y);
    WordFormatsFail(s);
    NoFormat(s);
    NumericStrip(s);
    NoFormatNoLetter(s);
  }

  /** No numeric format reads an impossible February date "02/dd/yyyy". */
  lemma FebruaryNumericFail(s: string, day: nat, y: nat)
    requires |s| == 10 && s[..3] == "02/" && s[5] == '/' && 20 <= day <= 31
    requires s[3..5] == Digits2(day) && y < 10000 && s[6..] == Digits4(y)
    requires day > DaysInMonth(y, 2)
    ensures FebruaryShape(s)
    ensures forall k :: 0 <= k < 7 ==> Strptime(s, FORMATS[k]).None?
  {
    assert s[2] == '/';
    YearFirstFails(s);
    NoSuchFebruaryDay(s, day, y);
    assert s[3] == s[3..5][0] && s[4] == s[3..5][1];
    DaySlashFails(s);
    OtherSeparatorsFail(s);
  }

  /** "%m/%d/%Y" reads the month and the day, and then refuses the date. */
  lemma NoSuchFebruaryDay(s: string, day: nat, y: nat)
    requires |s| == 10 && s[..3] == "02/" && s[5] == '/' && 20 <= day <= 31
    requires s[3..5] == Digits2(day) && y < 10000 && s[6..] == Digits4(y)
    requires day > DaysInMonth(y, 2)
    ensures Strptime(s, FORMATS[2]).None?
  {
    ParseFebruary(s, day, y);
  }

  /** 2023 is not a leap year. */
  lemma NoLeapDay(s: string)
    requires s == "02/29/2023"
    ensures StandardizedDate(s) == None
  {
    assert s[3..5] == Digits2(29) && s[6..] == Digits4(2023);
    ImpossibleFebruary(s, 29, 2023);
  }

  /** February never has a thirtieth day. */
  lemma NoFebruaryThirtieth(s: string)
    requires s == "02/30/2024"
    ensures StandardizedDate(s) == None
  {
    assert s[3..5] == Digits2(30) && s[6..] == Digits4(2024);
    ImpossibleFebruary(s, 30, 2024);
  }

  lemma NoYearDigits(s: string)
    requires s == "not a date"
    ensures !HasYearDigits(s)
  {
    forall i | 0 <= i < |s|
      ensures !DigitsAt(s, i)
    {
      assert !IsDigit(s[i]);
    }
  }

  /** The empty string and a string without four digits give no date. */
  lemma NotADate(s: string)
    requires s == "not a date"
    ensures StandardizedDate("") == None
    ensures StandardizedDate(s) == None
  {
    NoYearDigits(s);
    if DateOf(s).Some? {
      DateOfNeedsYear(s);
    }
  }

  // ---------------------------------------------------------------------------
  // Month names
  // ---------------------------------------------------------------------------

  lemma OneSpace(s: string)
    requires |s| >= 2 && s[0] == ' ' && !IsSpace(s[1])
    ensures Step(s, Spaces) == Some((0, 1))
  {
    RunLengthIs(s, IsSpace, 1);
  }

  lemma AbbrStep(s: string, k: nat)
    requires k < 12 && NameMatches(s, MONTH_ABBR[k])
    ensures Step(s, MonthAbbr) == Some((k + 1, 3))
  {
    MonthNamesDistinct();
    NameAtFinds(s, MONTH_ABBR, k);
  }

  lemma FullStep(s: string, k: nat)
    requires k < 12 && NameMatches(s, MONTH_FULL[k])
    ensures Step(s, MonthFull) == Some((k + 1, |MONTH_FULL[k]|))
  {
    MonthNamesDistinct();
    NameAtFinds(s, MONTH_FULL, k);
  }

  /** "%B" fails where the abbreviation of month k is not followed by the rest of the full name. */
  lemma FullNameFails(s: string, k: nat)
    requires k < 12 && NameMatches(s, MONTH_ABBR[k]) && !NameMatches(s, MONTH_FULL[k])
    ensures Step(s, MonthFull).None?
  {
    MonthNamesDistinct();
    NameAtPrefix(s, MONTH_FULL);
    assert Lower(s[..3]) == MONTH_ABBR[k];
  }

  lemma AbbrDayYearSteps(s: string, k: nat, day: nat, y: nat)
    requires k < 12 && |s| == 12 && NameMatches(s, MONTH_ABBR[k]) && s[3] == ' '
    requires 10 <= day <= 31 && s[4..6] == Digits2(day) && s[6..8] == ", "
    requires y < 10000 && s[8..] == Digits4(y)
    ensures Step(s, MonthAbbr) == Some((k + 1, 3)) && Step(s[3..], Spaces) == Some((0, 1))
    ensures Step(s[4..], DayNum) == Some((day, 2)) && Step(s[6..], Lit(',')) == Some((0, 1))
    ensures Step(s[7..], Spaces) == Some((0, 1)) && Step(s[8..], Year4) == Some((y, 4))
  {
    AbbrSpaceSteps(s, k, day);
    DayCommaYearSteps(s, day, y);
  }

  lemma AbbrSpaceSteps(s: string, k: nat, day: nat)
    requires k < 12 && |s| >= 6 && NameMatches(s, MONTH_ABBR[k]) && s[3] == ' '
    requires 10 <= day <= 31 && s[4..6] == Digits2(day)
    ensures Step(s, MonthAbbr) == Some((k + 1, 3)) && Step(s[3..], Spaces) == Some((0, 1))
  {
    AbbrStep(s, k);
    assert s[3..][1] == s[4..6][0];
    OneSpace(s[3..]);
  }

  lemma DayCommaYearSteps(s: string, day: nat, y: nat)
    requires |s| == 12 && 10 <= day <= 31 && s[4..6] == Digits2(day) && s[6..8] == ", "
    requires y < 10000 && s[8..] == Digits4(y)
    ensures Step(s[4..], DayNum) == Some((day, 2)) && Step(s[6..], Lit(',')) == Some((0, 1))
    ensures Step(s[7..], Spaces) == Some((0, 1)) && Step(s[8..], Year4) == Some((y, 4))
  {
    assert s[4..] == Digits2(day) + s[6..];
    DayOfDigits2(day, s[6..]);
    assert s[7..][0] == ' ' && s[7..][1] == s[8..][0];
    OneSpace(s[7..]);
    YearAt(s[8..], y);
  }

  /** The format "%b %d, %Y" reads month abbreviation, spaces, day, ',', spaces and year in turn. */
  lemma AbbrDayYearMatch(s: string, fmt: Format, month: nat, day: nat, y: nat)
    requires fmt == [MonthAbbr, Spaces, DayNum, Lit(','), Spaces, Year4] && |s| == 12
    requires Step(s, MonthAbbr) == Some((month, 3)) && Step(s[3..], Spaces) == Some((0, 1))
    requires Step(s[4..], DayNum) == Some((day, 2)) && Step(s[6..], Lit(',')) == Some((0, 1))
    requires Step(s[7..], Spaces) == Some((0, 1)) && Step(s[8..], Year4) == Some((y, 4))
    ensures MatchFormat(s, fmt, Date(1900, 1, 1)) == Some(Date(y, month, day))
  {
    MatchSix(s, fmt, Date(1900, 1, 1), month, 0, day, 0, 0, y, 3, 1, 2, 1, 1, 4);
  }

  /** "%b %d, %Y" reads "Mon dd, yyyy". */
  lemma AbbrDayYearParse(s: string, month: nat, day: nat, y: nat)
    requires |s| == 12
    requires Step(s, MonthAbbr) == Some((month, 3)) && Step(s[3..], Spaces) == Some((0, 1))
    requires Step(s[4..], DayNum) == Some((day, 2)) && Step(s[6..], Lit(',')) == Some((0, 1))
    requires Step(s[7..], Spaces) == Some((0, 1)) && Step(s[8..], Year4) == Some((y, 4))
    requires ValidDate(Date(y, month, day))
    ensures Strptime(s, FORMATS[8]) == Some(Date(y, month, day))
  {
    AbbrDayYearMatch(s, FORMATS[8], month, day, y);
  }

  /** "Mon dd, yyyy" with an abbreviated month: formats 0 to 7 fail and "%b %d, %Y" reads it. */
  lemma AbbrDayYearFormats(s: string, k: nat, day: nat, y: nat)
    requires k < 12 && |s| == 12 && NameMatches(s, MONTH_ABBR[k]) && !NameMatches(s, MONTH_FULL[k]) && s[3] == ' '
    requires 10 <= day <= 31 && s[4..6] == Digits2(day) && s[6..8] == ", "
    requires y < 10000 && s[8..] == Digits4(y)
    requires ValidDate(Date(y, k + 1, day))
    ensures FirstFormat(s, FORMATS) == Some(Date(y, k + 1, day))
  {
    AbbrNameFails(s, k);
    AbbrDayYearSteps(s, k, day, y);
    AbbrDayYearParse(s, k + 1, day, y);
    FirstFormatAt(s, FORMATS, 8, Date(y, k + 1, day));
  }

  /** A string that starts with an abbreviation but not the full name defeats formats 0 to 7. */
  lemma AbbrNameFails(s: string, k: nat)
    requires k < 12 && |s| >= 3 && NameMatches(s, MONTH_ABBR[k]) && !NameMatches(s, MONTH_FULL[k])
    ensures forall j :: 0 <= j < 8 ==> Strptime(s, FORMATS[j]).None?
  {
    MonthInitials();
    assert Lower(s[..3])[0] == MONTH_ABBR[k][0];
    NumberFormatsFail(s);
    FullNameFails(s, k);
    FirstStepFails(s, FORMATS[7]);
  }

  /** "Jan 15, 2024": "%B" wants "January", so "%b %d, %Y" reads it. */
  lemma AbbreviatedMonth(s: string)
    requires s == "Jan 15, 2024"
    ensures StandardizedDate(s) == Some("2024-01-15")
  {
    JanFields(s);
    AbbrDayYearFormats(s, 0, 15, 2024);
    StripNoOuterSpace(s);
    ByFormat(s, Date(2024, 1, 15));
    Iso20240115();
  }

  lemma JanFields(s: string)
    requires s == "Jan 15, 2024"
    ensures |s| == 12 && NameMatches(s, MONTH_ABBR[0]) && !NameMatches(s, MONTH_FULL[0]) && s[3] == ' '
    ensures s[4..6] == Digits2(15) && s[6..8] == ", " && s[8..] == Digits4(2024)
    ensures !IsSpace(s[0]) && !IsSpace(s[|s| - 1])
  {
    assert Lower(s[..3]) == "jan" && Lower(s[..7])[3] == ' ';
  }

  lemma Iso20240115()
    ensures Iso(Date(2024, 1, 15)) == "2024-01-15"
  {
  }

  /** A two-digit day and a space: no numeric format with a separator reads it. */
  lemma DaySpaceNumericFails(s: string, day: nat)
    requires |s| >= 3 && 10 <= day <= 31 && s[..2] == Digits2(day) && s[2] == ' '
    ensures forall k :: 0 <= k < 7 ==> Strptime(s, FORMATS[k]).None?
  {
    YearFirstFails(s);
    DaySpaceDayFails(s, day);
    DaySpaceMonthFails(s, day);
    forall k | 0 <= k < 7 ensures Strptime(s, FORMATS[k]).None? {
      assert k == 0 || k == 1 || k == 2 || k == 3 || k == 4 || k == 5 || k == 6;
    }
  }

  /** The formats that read a day first want a separator after it. */
  lemma DaySpaceDayFails(s: string, day: nat)
    requires |s| >= 3 && 10 <= day <= 31 && s[..2] == Digits2(day) && s[2] == ' '
    ensures Strptime(s, FORMATS[3]).None? && Strptime(s, FORMATS[4]).None? && Strptime(s, FORMATS[5]).None?
  {
    assert s == Digits2(day) + s[2..];
    DayOfDigits2(day, s[2..]);
    assert s[2..][0] == ' ';
    SecondStepFails(s, FORMATS[3], day, 2);
    SecondStepFails(s, FORMATS[4], day, 2);
    SecondStepFails(s, FORMATS[5], day, 2);
  }

  /** The formats that read a month first want a separator after it. */
  lemma DaySpaceMonthFails(s: string, day: nat)
    requires |s| >= 3 && 10 <= day <= 31 && s[..2] == Digits2(day) && s[2] == ' '
    ensures Strptime(s, FORMATS[2]).None? && Strptime(s, FORMATS[6]).None?
  {
    assert s[0] == Digits2(day)[0] && s[1] == Digits2(day)[1];
    assert Step(s, MonthNum).Some?;
    var (v, n) := Step(s, MonthNum).value;
    assert s[n..][0] == s[n];
    SecondStepFails(s, FORMATS[2], v, n);
    SecondStepFails(s, FORMATS[6], v, n);
  }

  lemma DayFullYearSteps(s: string, day: nat, k: nat, n: nat, y: nat)
    requires k < 12 && 10 <= day <= 31 && y < 10000
    requires n == |MONTH_FULL[k]| && |s| == 8 + n && s[..2] == Digits2(day) && s[2] == ' '
    requires NameMatches(s[3..], MONTH_FULL[k]) && s[3 + n] == ' ' && s[4 + n..] == Digits4(y)
    ensures Step(s, DayNum) == Some((day, 2)) && Step(s[2..], Spaces) == Some((0, 1))
    ensures Step(s[3..], MonthFull) == Some((k + 1, n))
    ensures Step(s[3 + n..], Spaces) == Some((0, 1))
    ensures Step(s[4 + n..], Year4) == Some((y, 4))
  {
    MonthInitials();
    assert s == Digits2(day) + s[2..];
    DayOfDigits2(day, s[2..]);
    assert Lower(s[3..][..n])[0] == MONTH_FULL[k][0];
    assert s[2..][1] == s[3..][0];
    OneSpace(s[2..]);
    FullStep(s[3..], k);
    assert s[3 + n..][1] == s[4 + n..][0];
    OneSpace(s[3 + n..]);
    YearAt(s[4 + n..], y);
  }

  /** The format "%d %B %Y" reads day, spaces, month name, spaces and year in turn. */
  lemma DayFullYearMatch(s: string, fmt: Format, day: nat, month: nat, n: nat, y: nat)
    requires fmt == [DayNum, Spaces, MonthFull, Spaces, Year4] && |s| == 8 + n
    requires Step(s, DayNum) == Some((day, 2)) && Step(s[2..], Spaces) == Some((0, 1))
    requires Step(s[3..], MonthFull) == Some((month, n)) && Step(s[3 + n..], Spaces) == Some((0, 1))
    requires Step(s[4 + n..], Year4) == Some((y, 4))
    ensures MatchFormat(s, fmt, Date(1900, 1, 1)) == Some(Date(y, month, day))
  {
    assert 2 + 1 + n == 3 + n && 2 + 1 + n + 1 == 4 + n;
    MatchFive(s, fmt, Date(1900, 1, 1), day, 0, month, 0, y, 2, 1, n, 1, 4);
  }

  /** "%d %B %Y" reads "dd Month yyyy". */
  lemma DayFullYearParse(s: string, day: nat, month: nat, n: nat, y: nat)
    requires |s| == 8 + n
    requires Step(s, DayNum) == Some((day, 2)) && Step(s[2..], Spaces) == Some((0, 1))
    requires Step(s[3..], MonthFull) == Some((month, n)) && Step(s[3 + n..], Spaces) == Some((0, 1))
    requires Step(s[4 + n..], Year4) == Some((y, 4))
    requires ValidDate(Date(y, month, day))
    ensures Strptime(s, FORMATS[9]) == Some(Date(y, month, day))
  {
    DayFullYearMatch(s, FORMATS[9], day, month, n, y);
  }

  /** "dd Month yyyy" with a full month name: formats 0 to 8 fail and "%d %B %Y" reads it. */
  lemma DayFullYearFormats(s: string, day: nat, k: nat, n: nat, y: nat)
    requires k < 12 && 10 <= day <= 31 && y < 10000
    requires n == |MONTH_FULL[k]| && |s| == 8 + n && s[..2] == Digits2(day) && s[2] == ' '
    requires NameMatches(s[3..], MONTH_FULL[k]) && s[3 + n] == ' ' && s[4 + n..] == Digits4(y)
    requires ValidDate(Date(y, k + 1, day))
    ensures FirstFormat(s, FORMATS) == Some(Date(y, k + 1, day))
  {
    DaySpaceFails(s, day);
    DayFullYearSteps(s, day, k, n, y);
    DayFullYearParse(s, day, k + 1, n, y);
    FirstFormatAt(s, FORMATS, 9, Date(y, k + 1, day));
  }

  /** A two-digit day and a space defeat formats 0 to 8. */
  lemma DaySpaceFails(s: string, day: nat)
    requires |s| >= 3 && 10 <= day <= 31 && s[..2] == Digits2(day) && s[2] == ' '
    ensures forall j :: 0 <= j < 9 ==> Strptime(s, FORMATS[j]).None?
  {
    DaySpaceNumericFails(s, day);
    assert s[0] == Digits2(day)[0];
    NameFormatsFail(s);
  }

  /** "15 January 2024": the day-first format with the full name reads it. */
  lemma JanuaryFields(s: string)
    requires s == "15 January 2024"
    ensures 7 == |MONTH_FULL[0]| && |s| == 15 && s[..2] == Digits2(15) && s[2] == ' '
    ensures NameMatches(s[3..], MONTH_FULL[0]) && s[10] == ' ' && s[11..] == Digits4(2024)
    ensures !IsSpace(s[0]) && !IsSpace(s[|s| - 1])
  {
    assert s[3..][..7] == "January" && Lower("January") == MONTH_FULL[0];
  }

  lemma FullMonthName(s: string)
    requires s == "15 January 2024"
    ensures StandardizedDate(s) == Some("2024-01-15")
  {
    JanuaryFields(s);
    DayFullYearFormats(s, 15, 0, 7, 2024);
    StripNoOuterSpace(s);
    ByFormat(s, Date(2024, 1, 15));
    Iso20240115();
  }

  // ---------------------------------------------------------------------------
  // The fallback searches
  // ---------------------------------------------------------------------------

  /** No month name starts at a letter that begins none of them. */
  lemma NoMonthAt(s: string)
    requires s != [] && forall k :: 0 <= k < 12 ==> MONTH_ABBR[k][0] != LowerChar(s[0])
    ensures Step(s, MonthFull).None? && Step(s, MonthAbbr).None?
  {
    MonthNamesDistinct();
    NameAtPrefix(s, MONTH_FULL);
    NameAtPrefix(s, MONTH_ABBR);
  }

  lemma SingleDigitDay(x: string, day: nat)
    requires 1 <= day <= 9 && |x| >= 2 && x[0] == DigitChar(day) && !IsDigit(x[1])
    ensures DayDigitsAt(x) == Some((day, 1))
  {
    RunLengthIs(x, IsDigit, 1);
    assert x[..1] == [x[0]] && x[..1][..0] == [];
    assert DigitsValue(x[..1]) == DigitValue(x[0]);
  }

  /** `(Jan|...|Dec)[a-z]*\.?` on month k's abbreviation followed by letters up to position w. */
  lemma WordAt(x: string, k: nat, w: nat)
    requires k < 12 && NameMatches(x, MONTH_ABBR[k]) && 3 <= w < |x|
    requires (forall i :: 3 <= i < w ==> IsAsciiLetter(x[i])) && !IsAsciiLetter(x[w])
    ensures MonthWordAt(x) == Some((k + 1, if x[w] == '.' then w + 1 else w))
  {
    AbbrStep(x, k);
    RunLengthIs(x[3..], IsAsciiLetter, w - 3);
    ParseMonthNameOfAbbr(x, k);
  }

  lemma YearDigits(x: string, y: nat)
    requires y < 10000 && x == Digits4(y)
    ensures YearDigitsAt(x) == Some(y)
  {
    assert x[..4] == x;
    Digits4Value(y);
  }

  lemma DayWordYearParts(x: string, day: nat, k: nat, w: nat, y: nat)
    requires |x| == w + 7 && 1 <= day <= 9 && x[0] == DigitChar(day) && x[1] == ' '
    requires k < 12 && NameMatches(x[2..], MONTH_ABBR[k]) && 3 <= w
    requires (forall i :: 5 <= i < 2 + w ==> IsAsciiLetter(x[i])) && x[2 + w] == ' '
    requires y < 10000 && x[3 + w..] == Digits4(y)
    ensures DayDigitsAt(x) == Some((day, 1)) && RunLength(x[1..], IsSpace) == 1
    ensures MonthWordAt(x[2..]) == Some((k + 1, w)) && RunLength(x[2 + w..], IsSpace) == 1
    ensures YearDigitsAt(x[3 + w..]) == Some(y)
  {
    DaySpacePart(x, day, k);
    MonthYearPart(x, 2, k, w, y);
  }

  /** One digit, a space, then a month abbreviation. */
  lemma DaySpacePart(x: string, day: nat, k: nat)
    requires |x| >= 2 && 1 <= day <= 9 && x[0] == DigitChar(day) && x[1] == ' '
    requires k < 12 && NameMatches(x[2..], MONTH_ABBR[k])
    ensures DayDigitsAt(x) == Some((day, 1)) && RunLength(x[1..], IsSpace) == 1
  {
    SingleDigitDay(x, day);
    AbbrInitial(x[2..], k);
    assert x[2] == x[2..][0];
    OneSpaceAt(x, 1);
  }

  /** A month word from position j to j + w, one space, then the year. */
  lemma MonthYearPart(x: string, j: nat, k: nat, w: nat, y: nat)
    requires |x| == j + w + 5 && k < 12 && NameMatches(x[j..], MONTH_ABBR[k]) && 3 <= w
    requires (forall i :: j + 3 <= i < j + w ==> IsAsciiLetter(x[i])) && x[j + w] == ' '
    requires y < 10000 && x[j + w + 1..] == Digits4(y)
    ensures MonthWordAt(x[j..]) == Some((k + 1, w)) && RunLength(x[j + w..], IsSpace) == 1
    ensures YearDigitsAt(x[j + w + 1..]) == Some(y)
  {
    WordAtIn(x, j, k, w);
    assert x[j + w + 1] == x[j + w + 1..][0];
    OneSpaceAt(x, j + w);
    YearDigits(x[j + w + 1..], y);
  }

  /** A month abbreviation starts at a letter. */
  lemma AbbrInitial(t: string, k: nat)
    requires k < 12 && NameMatches(t, MONTH_ABBR[k])
    ensures |t| >= 3 && IsAsciiLetter(t[0])
  {
    MonthInitials();
    assert Lower(t[..3])[0] == MONTH_ABBR[k][0];
  }

  /** WordAt on the suffix of x from position j. */
  lemma WordAtIn(x: string, j: nat, k: nat, w: nat)
    requires k < 12 && j <= |x| && NameMatches(x[j..], MONTH_ABBR[k]) && 3 <= w && j + w < |x|
    requires (forall i :: j + 3 <= i < j + w ==> IsAsciiLetter(x[i])) && !IsAsciiLetter(x[j + w])
    ensures MonthWordAt(x[j..]) == Some((k + 1, if x[j + w] == '.' then w + 1 else w))
  {
    assert forall i :: 3 <= i <= w ==> x[j..][i] == x[j + i];
    WordAt(x[j..], k, w);
  }

  /** Pattern 1 on "d Month yyyy", where the month word runs to position 2 + w. */
  lemma DayWordYear(x: string, day: nat, k: nat, w: nat, y: nat)
    requires |x| == w + 7 && 1 <= day <= 9 && x[0] == DigitChar(day) && x[1] == ' '
    requires k < 12 && NameMatches(x[2..], MONTH_ABBR[k]) && 3 <= w
    requires (forall i :: 5 <= i < 2 + w ==> IsAsciiLetter(x[i])) && x[2 + w] == ' '
    requires y < 10000 && x[3 + w..] == Digits4(y)
    ensures DayMonthYearAt(x) == Some(Date(y, k + 1, day))
  {
    DayWordYearParts(x, day, k, w, y);
    assert x[2..][w..] == x[2 + w..] && x[2..][w + 1..] == x[3 + w..];
    MonthYearAtOf(x[2..], k + 1, w, y);
    DayMonthYearAtOf(x, day, k + 1, y);
  }

  /** Pattern 1 matched piece by piece: day digits, spaces, then a month word, spaces and a year. */
  lemma DayMonthYearAtOf(x: string, day: nat, month: nat, year: nat)
    requires DayDigitsAt(x) == Some((day, 1)) && RunLength(x[1..], IsSpace) == 1 && 2 <= |x|
    requires MonthYearAt(x[2..]) == Some((month, year))
    ensures DayMonthYearAt(x) == Some(Date(year, month, day))
  {
    assert x[1 + 1..] == x[2..];
  }

  /** A month word, spaces and a year. */
  lemma MonthYearAtOf(x: string, month: nat, w: nat, year: nat)
    requires MonthWordAt(x) == Some((month, w)) && w < |x| && RunLength(x[w..], IsSpace) == 1
    requires YearDigitsAt(x[w + 1..]) == Some(year)
    ensures MonthYearAt(x) == Some((month, year))
  {
  }

  lemma DayCommaYearParts(x: string, day: nat, y: nat)
    requires |x| == 7 && 1 <= day <= 9 && x[0] == DigitChar(day) && x[1] == ',' && x[2] == ' '
    requires y < 10000 && x[3..] == Digits4(y)
    ensures DayDigitsAt(x) == Some((day, 1)) && RunLength(x[2..], IsSpace) == 1
    ensures YearDigitsAt(x[3..]) == Some(y)
  {
    SingleDigitDay(x, day);
    assert x[2..][1] == x[3..][0];
    RunLengthIs(x[2..], IsSpace, 1);
    YearDigits(x[3..], y);
  }

  /** A single space at position j. */
  lemma OneSpaceAt(x: string, j: nat)
    requires j + 1 < |x| && x[j] == ' ' && !IsSpace(x[j + 1])
    ensures RunLength(x[j..], IsSpace) == 1
  {
    assert x[j..][0] == ' ' && x[j..][1] == x[j + 1];
    RunLengthIs(x[j..], IsSpace, 1);
  }

  lemma WordDotSpace(x: string, k: nat, w: nat)
    requires k < 12 && NameMatches(x, MONTH_ABBR[k]) && 3 <= w && w + 2 < |x|
    requires (forall i :: 3 <= i < w ==> IsAsciiLetter(x[i])) && x[w] == '.' && x[w + 1] == ' '
    requires !IsSpace(x[w + 2])
    ensures MonthWordAt(x) == Some((k + 1, w + 1)) && RunLength(x[w + 1..], IsSpace) == 1
  {
    assert !IsAsciiLetter(x[w]);
    WordAt(x, k, w);
    OneSpaceAt(x, w + 1);
  }

  lemma WordDotDayYearParts(x: string, k: nat, w: nat, day: nat, y: nat)
    requires |x| == w + 9 && k < 12 && NameMatches(x, MONTH_ABBR[k]) && 3 <= w
    requires (forall i :: 3 <= i < w ==> IsAsciiLetter(x[i])) && x[w] == '.' && x[w + 1] == ' '
    requires 1 <= day <= 9 && x[w + 2] == DigitChar(day) && x[w + 3] == ',' && x[w + 4] == ' '
    requires y < 10000 && x[w + 5..] == Digits4(y)
    ensures MonthWordAt(x) == Some((k + 1, w + 1)) && RunLength(x[w + 1..], IsSpace) == 1
    ensures DayDigitsAt(x[w + 2..]) == Some((day, 1)) && RunLength(x[w + 4..], IsSpace) == 1
    ensures YearDigitsAt(x[w + 5..]) == Some(y)
  {
    WordDotSpace(x, k, w);
    var t := x[w + 2..];
    assert |t| == 7 && t[0] == x[w + 2] && t[1] == x[w + 3] && t[2] == x[w + 4];
    assert t[2..] == x[w + 4..] && t[3..] == x[w + 5..];
    DayCommaYearParts(t, day, y);
  }

  /** Pattern 2 on "Mon. d, yyyy", where the month word runs to position w, then a '.'. */
  lemma WordDotDayYear(x: string, k: nat, w: nat, day: nat, y: nat)
    requires |x| == w + 9 && k < 12 && NameMatches(x, MONTH_ABBR[k]) && 3 <= w
    requires (forall i :: 3 <= i < w ==> IsAsciiLetter(x[i])) && x[w] == '.' && x[w + 1] == ' '
    requires 1 <= day <= 9 && x[w + 2] == DigitChar(day) && x[w + 3] == ',' && x[w + 4] == ' '
    requires y < 10000 && x[w + 5..] == Digits4(y)
    ensures MonthDayYearAt(x) == Some(Date(y, k + 1, day))
  {
    WordDotDayYearParts(x, k, w, day, y);
    assert x[w + 2 + 1 + 1..] == x[w + 4..] && x[w + 4 + 1..] == x[w + 5..];
  }

  /** When no format parses, standardize_date settles on the fallback searches. */
  lemma DateOfFallback(s: string)
    requires s != [] && !IsSpace(s[0]) && !IsSpace(s[|s| - 1]) && FirstFormat(s, FORMATS) == None
    ensures DateOf(s) == Fallback(s)
  {
    StripNoOuterSpace(s);
  }

  /** What standardize_date returns when no format parses and the first search finds a real date. */
  lemma ByFirstSearch(s: string, d: Date, iso: string)
    requires s != [] && !IsSpace(s[0]) && !IsSpace(s[|s| - 1]) && FirstFormat(s, FORMATS) == None
    requires Search(s, DayMonthYearAt) == Some(d) && ValidDate(d) && Iso(d) == iso
    ensures StandardizedDate(s) == Some(iso)
  {
    DateOfFallback(s);
  }

  /** What standardize_date returns when no format parses, the first search finds nothing and the second a real date. */
  lemma BySecondSearch(s: string, d: Date, iso: string)
    requires s != [] && !IsSpace(s[0]) && !IsSpace(s[|s| - 1]) && FirstFormat(s, FORMATS) == None
    requires Search(s, DayMonthYearAt) == None && Search(s, MonthDayYearAt) == Some(d)
    requires ValidDate(d) && Iso(d) == iso
    ensures StandardizedDate(s) == Some(iso)
  {
    FallbackSecond(s, d);
    ByFallback(s, d, iso);
  }

  /** The second search decides when the first finds nothing. */
  lemma FallbackSecond(t: string, d: Date)
    requires Search(t, DayMonthYearAt) == None && Search(t, MonthDayYearAt) == Some(d) && ValidDate(d)
    ensures Fallback(t) == Some(d)
  {
  }

  /** What standardize_date returns when no format parses and the fallback finds a date. */
  lemma ByFallback(s: string, d: Date, iso: string)
    requires s != [] && !IsSpace(s[0]) && !IsSpace(s[|s| - 1]) && FirstFormat(s, FORMATS) == None
    requires Fallback(s) == Some(d) && Iso(d) == iso
    ensures StandardizedDate(s) == Some(iso)
  {
    DateOfFallback(s);
  }

  /** Pattern 1 cannot start where there is no digit. */
  lemma DayMonthYearNotAt(s: string, j: nat)
    requires j < |s| && !IsDigit(s[j])
    ensures DayMonthYearAt(s[j..]).None?
  {
    assert s[j..][0] == s[j];
  }

  /** Pattern 1 cannot start where no letter follows. */
  lemma DayMonthYearNoLetter(s: string, j: nat)
    requires j <= |s| && forall i :: j <= i < |s| ==> !IsAsciiLetter(s[i])
    ensures DayMonthYearAt(s[j..]).None?
  {
  }

  /** re.search for pattern 1 passes over a prefix without digits. */
  lemma DayMonthYearAfter(s: string, i: nat)
    requires i <= |s| && DayMonthYearAt(s[i..]).Some?
    requires forall j :: 0 <= j < i ==> !IsDigit(s[j])
    ensures Search(s, DayMonthYearAt) == DayMonthYearAt(s[i..])
  {
    forall j | 0 <= j < i
      ensures DayMonthYearAt(s[j..]).None?
    {
      DayMonthYearNotAt(s, j);
    }
    SearchFirst(s, DayMonthYearAt, i);
  }

  /** re.search for pattern 1 finds nothing when every digit comes after the last letter. */
  lemma DayMonthYearNowhere(s: string, i: nat)
    requires i <= |s|
    requires forall j :: 0 <= j < i ==> !IsDigit(s[j])
    requires forall j :: i <= j < |s| ==> !IsAsciiLetter(s[j])
    ensures Search(s, DayMonthYearAt).None?
  {
    forall j | 0 <= j <= |s|
      ensures DayMonthYearAt(s[j..]).None?
    {
      if j < i {
        DayMonthYearNotAt(s, j);
      } else {
        DayMonthYearNoLetter(s, j);
      }
    }
    SearchNone(s, DayMonthYearAt);
  }

  lemma Iso20240305()
    ensures Iso(Date(2024, 3, 5)) == "2024-03-05"
  {
  }

  lemma Iso20240905()
    ensures Iso(Date(2024, 9, 5)) == "2024-09-05"
  {
  }

  /** No format reads a string that opens with a letter no month name begins with. */
  lemma NoMonthInitial(s: string)
    requires s != [] && IsAsciiLetter(s[0])
    requires forall k :: 0 <= k < 12 ==> MONTH_ABBR[k][0] != LowerChar(s[0])
    ensures FirstFormat(s, FORMATS) == None
  {
    NumberFormatsFail(s);
    NoMonthAt(s);
    FirstStepFails(s, FORMATS[7]);
    FirstStepFails(s, FORMATS[8]);
    NoFormat(s);
  }

  /** Pattern 1 on "d Month yyyy" after a prefix of length i without digits. */
  lemma DayWordYearAfter(s: string, i: nat, day: nat, k: nat, w: nat, y: nat)
    requires |s| == i + w + 7 && forall j :: 0 <= j < i ==> !IsDigit(s[j])
    requires 1 <= day <= 9 && s[i] == DigitChar(day) && s[i + 1] == ' '
    requires k < 12 && NameMatches(s[i + 2..], MONTH_ABBR[k]) && 3 <= w
    requires (forall j :: i + 5 <= j < i + 2 + w ==> IsAsciiLetter(s[j])) && s[i + 2 + w] == ' '
    requires y < 10000 && s[i + 3 + w..] == Digits4(y)
    ensures Search(s, DayMonthYearAt) == Some(Date(y, k + 1, day))
  {
    var x := s[i..];
    assert x[2..] == s[i + 2..] && x[3 + w..] == s[i + 3 + w..];
    assert forall j :: 5 <= j < 2 + w ==> x[j] == s[i + j];
    DayWordYear(x, day, k, w, y);
    DayMonthYearAfter(s, i);
  }

  /**
   * A date written "d Month yyyy" after a word that no format reads is found by
   * the first fallback search: "Posted 5 March 2024" becomes "2024-03-05".
   */
  lemma DayWordYearInText(s: string, i: nat, day: nat, k: nat, w: nat, y: nat)
    requires |s| == i + w + 7 && 1 <= i && IsAsciiLetter(s[0])
    requires forall m :: 0 <= m < 12 ==> MONTH_ABBR[m][0] != LowerChar(s[0])
    requires forall j :: 0 <= j < i ==> !IsDigit(s[j])
    requires 1 <= day <= 9 && s[i] == DigitChar(day) && s[i + 1] == ' '
    requires k < 12 && NameMatches(s[i + 2..], MONTH_ABBR[k]) && 3 <= w
    requires (forall j :: i + 5 <= j < i + 2 + w ==> IsAsciiLetter(s[j])) && s[i + 2 + w] == ' '
    requires y < 10000 && s[i + 3 + w..] == Digits4(y) && ValidDate(Date(y, k + 1, day))
    ensures StandardizedDate(s) == Some(Iso(Date(y, k + 1, day)))
  {
    NoMonthInitial(s);
    DayWordYearAfter(s, i, day, k, w, y);
    assert s[|s| - 1] == s[i + 3 + w..][3];
    ByFirstSearch(s, Date(y, k + 1, day), Iso(Date(y, k + 1, day)));
  }

  lemma PostedFields(s: string)
    requires s == "Posted 5 March 2024"
    ensures |s| == 19 && IsAsciiLetter(s[0]) && forall m :: 0 <= m < 12 ==> MONTH_ABBR[m][0] != LowerChar(s[0])
    ensures (forall j :: 0 <= j < 7 ==> !IsDigit(s[j])) && s[7] == DigitChar(5) && s[8] == ' '
    ensures NameMatches(s[9..], MONTH_ABBR[2]) && (forall j :: 12 <= j < 14 ==> IsAsciiLetter(s[j]))
    ensures s[14] == ' ' && s[15..] == Digits4(2024)
  {
    PostedMarch(s);
  }

  lemma PostedMarch(s: string)
    requires s == "Posted 5 March 2024"
    ensures NameMatches(s[9..], MONTH_ABBR[2]) && s[15..] == Digits4(2024)
  {
    assert Lower(s[9..][..3]) == MONTH_ABBR[2] && s[15..] == Digits4(2024);
  }

  lemma PostedDay(s: string)
    requires s == "Posted 5 March 2024"
    ensures StandardizedDate(s) == Some("2024-03-05")
  {
    PostedFields(s);
    DayWordYearInText(s, 7, 5, 2, 5, 2024);
    Iso20240305();
  }

  /** A month abbreviation followed by more letters: neither %B nor %b with a space reads it. */
  lemma LongAbbrFails(s: string, k: nat)
    requires 4 <= |s| && k < 12 && NameMatches(s, MONTH_ABBR[k]) && !NameMatches(s, MONTH_FULL[k])
    requires IsAsciiLetter(s[3])
    ensures Strptime(s, FORMATS[7]).None? && Strptime(s, FORMATS[8]).None?
  {
    FullNameFails(s, k);
    FirstStepFails(s, FORMATS[7]);
    AbbrLetterFails(s, k);
  }

  /** "%b %d, %Y" wants a space right after the abbreviation. */
  lemma AbbrLetterFails(s: string, k: nat)
    requires 4 <= |s| && k < 12 && NameMatches(s, MONTH_ABBR[k]) && IsAsciiLetter(s[3])
    ensures Strptime(s, FORMATS[8]).None?
  {
    AbbrStep(s, k);
    assert s[3..][0] == s[3];
    SecondStepFails(s, FORMATS[8], k + 1, 3);
  }

  /** A rendered year holds no letter. */
  lemma YearNoLetter(s: string, a: nat, y: nat)
    requires a + 4 == |s| && y < 10000 && s[a..] == Digits4(y)
    ensures forall j :: a <= j < |s| ==> !IsAsciiLetter(s[j])
  {
    forall j | a <= j < |s|
      ensures !IsAsciiLetter(s[j])
    {
      assert s[j] == s[a..][j - a];
    }
  }

  /** In "Mon. d, yyyy" every digit follows the last letter. */
  lemma WordDotDayYearLayout(s: string, w: nat, day: nat, y: nat)
    requires |s| == w + 9 && 3 <= w && (forall i :: 0 <= i < w ==> IsAsciiLetter(s[i]))
    requires s[w] == '.' && s[w + 1] == ' '
    requires 1 <= day <= 9 && s[w + 2] == DigitChar(day) && s[w + 3] == ',' && s[w + 4] == ' '
    requires y < 10000 && s[w + 5..] == Digits4(y)
    ensures forall j :: 0 <= j < w + 2 ==> !IsDigit(s[j])
    ensures forall j :: w + 2 <= j < |s| ==> !IsAsciiLetter(s[j])
  {
    YearNoLetter(s, w + 5, y);
  }

  /** Pattern 2 on "Mon. d, yyyy" in a string that pattern 1 does not match. */
  lemma WordDotDayYearOnly(s: string, k: nat, w: nat, day: nat, y: nat)
    requires |s| == w + 9 && k < 12 && NameMatches(s, MONTH_ABBR[k]) && 3 <= w
    requires (forall i :: 0 <= i < w ==> IsAsciiLetter(s[i])) && s[w] == '.' && s[w + 1] == ' '
    requires 1 <= day <= 9 && s[w + 2] == DigitChar(day) && s[w + 3] == ',' && s[w + 4] == ' '
    requires y < 10000 && s[w + 5..] == Digits4(y)
    ensures Search(s, DayMonthYearAt).None?
    ensures Search(s, MonthDayYearAt) == Some(Date(y, k + 1, day))
  {
    WordDotDayYearLayout(s, w, day, y);
    DayMonthYearNowhere(s, w + 2);
    WordDotDayYear(s, k, w, day, y);
    assert s[0..] == s;
    SearchFirst(s, MonthDayYearAt, 0);
  }

  /**
   * A month word longer than its abbreviation and not the full name, then a '.', is
   * read by neither %B nor %b but by the second fallback search: "Sept. 5, 2024"
   * becomes "2024-09-05".
   */
  lemma WordDotDayYearDate(s: string, k: nat, w: nat, day: nat, y: nat)
    requires |s| == w + 9 && k < 12 && NameMatches(s, MONTH_ABBR[k]) && !NameMatches(s, MONTH_FULL[k])
    requires 4 <= w && (forall i :: 0 <= i < w ==> IsAsciiLetter(s[i])) && s[w] == '.' && s[w + 1] == ' '
    requires 1 <= day <= 9 && s[w + 2] == DigitChar(day) && s[w + 3] == ',' && s[w + 4] == ' '
    requires y < 10000 && s[w + 5..] == Digits4(y) && ValidDate(Date(y, k + 1, day))
    ensures StandardizedDate(s) == Some(Iso(Date(y, k + 1, day)))
  {
    NumberFormatsFail(s);
    LongAbbrFails(s, k);
    NoFormat(s);
    WordDotDayYearOnly(s, k, w, day, y);
    assert s[|s| - 1] == s[w + 5..][3];
    BySecondSearch(s, Date(y, k + 1, day), Iso(Date(y, k + 1, day)));
  }

  lemma SeptFields(s: string)
    requires s == "Sept. 5, 2024"
    ensures |s| == 13 && NameMatches(s, MONTH_ABBR[8]) && !NameMatches(s, MONTH_FULL[8])
    ensures (forall i :: 0 <= i < 4 ==> IsAsciiLetter(s[i])) && s[4] == '.' && s[5] == ' '
    ensures s[6] == DigitChar(5) && s[7] == ',' && s[8] == ' ' && s[9..] == Digits4(2024)
  {
    assert Lower(s[..3]) == MONTH_ABBR[8] && Lower(s[..9])[4] == '.' && s[9..] == Digits4(2024);
  }

  lemma SeptemberWord(s: string)
    requires s == "Sept. 5, 2024"
    ensures StandardizedDate(s) == Some("2024-09-05")
  {
    SeptFields(s);
    WordDotDayYearDate(s, 8, 4, 5, 2024);
    Iso20240905();
  }
}
