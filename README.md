# Data pipeline: cleaning and validating scraped records, in Dafny

This project models the core of a small Python data pipeline. Scraped article records are dictionaries with fields such as title, content, url, date, author and tags. The pipeline:

- cleans each record (`cleaner.py`);
- validates the cleaned records (`validator.py`);
- writes the records annotated with their validity, and reports how complete each field is and which validation failures occur (`run_pipeline.py`).

The modules follow the source:

- `Text` (text.dfy) holds the Python string built-ins the code relies on:
  - `str.strip` with CPython's whitespace table;
  - ASCII lower-casing;
  - decimal rendering of integers;
  - `str.replace` and chains of replacements over a table;
  - per-character rewrites and subsequences.
- `Values` (values.dfy) holds JSON-like values and records (`map<string, Value>`), and `str()` of a value. It also defines `Host`, a record of foreign functions passed in as a parameter:
  - NFC normalisation (Unicode Standard Annex #15);
  - `str.isprintable`;
  - the tolerant HTML parser;
  - `urllib.parse.urlparse`;
  - `repr` of non-string values.
- `Cleaner` (cleaner.dfy) holds the four text stages of `clean_text` and their composition:
  - HTML entities and tags;
  - the encoding table after NFC;
  - curly quotes and control characters;
  - whitespace collapsing.
- `Dates` (dates.dfy) holds `standardize_date`:
  - the eleven `strptime` formats, each compiled the way CPython's `_strptime` compiles it, tried in order;
  - then the two case-insensitive month-name searches;
  - Gregorian validity and the `YYYY-MM-DD` rendering of ISO 8601 (ISO 8601:2004 section 4.1.2.2).

  `DateExamples` (date_examples.dfy) works through the inputs named in standardize_date's docstring and in the comments on its format list, plus ambiguous month/day, leap-day and in-text cases.
- `RecordCleaner` (record_cleaner.dfy) holds `clean_record`.
- `Validator` (validator.py's counterpart, validator.dfy) holds:
  - `URL_PATTERN` as a predicate on the parts of a URL, and `validate_url`;
  - the required-field, URL and minimum-length checks with their exact messages;
  - `ValidationResult` as a class whose `add_reason` is a method;
  - `validate_records` and `get_invalid_records`.
- `Pipeline` (pipeline.dfy) holds the non-I/O part of `run_pipeline`:
  - the record limit;
  - cleaning and validating every record;
  - the annotated output;
  - the valid and invalid counts;
  - the completeness counts;
  - the failure counter.

Four things are modelled as `Result` errors:

- `chr()` raises on a numeric character reference above U+10FFFF.
- `int()` raises on a decimal reference whose digit run, leading zeros included, is longer than 4300 digits. This is the default of `sys.int_info.default_max_str_digits` in current Python releases.
- Dafny's `char` cannot hold a lone surrogate, so a reference to one is an error here.
- A raise inside `clean_text` propagates through `clean_record` and the whole run.

The model follows the code wherever it and its docstrings differ:

- Non-string inputs of `clean_text` and of each text stage come back as `str(text)`, uncleaned; None gives "".
- An empty `required_fields` or `min_lengths` falls back to the defaults.
- `add_reason` leaves `is_valid` alone.
- The pipeline's own `clean_record` (run_pipeline.py:31-48) is the same code as cleaner.py's. It is therefore modelled by the same method, `RecordCleaner.CleanRecord`.

## Model

| member | source | states |
|---|---|---|
| Text.Strip | cleaner.py:87 | `strip()` leaves no whitespace at either end |
| Text.StripSlice | cleaner.py:87 | `strip()` is a slice `s[i..j]` with only whitespace cut off on both sides |
| Text.StripNoOuterSpace | validator.py:80 | a string without outer whitespace is its own strip |
| Text.StripEmptyIffAllSpace | cleaner.py:272 | `s.strip()` is falsy exactly when s is all whitespace |
| Text.Lower | cleaner.py:184 | lower-casing keeps the length and maps each character on its own |
| Text.NatToString | validator.py:146 | the length in the message is rendered as digits with no leading zero |
| Text.NatToStringRoundTrip | validator.py:146 | reading the rendered length back gives the number |
| Text.ChainOfCharsIsExpand | cleaner.py:111-112 | a replacement table with one-character keys acts character by character |
| Text.ReplaceChainSingle | cleaner.py:148-149 | on one character a table without rescanning gives the first matching entry's replacement |
| Text.ReplaceChainNoOccurrence | cleaner.py:67-68 | a table none of whose patterns occurs anywhere in the text leaves the text alone |
| Text.ReplaceChainHeadOnly | cleaner.py:67-68 | a table whose patterns' first characters occur in the text at most at its head, where no pattern starts, leaves the text alone |
| Values.Str | cleaner.py:265 | `str()` of a string is the string itself |
| Cleaner.ReferenceAt | cleaner.py:70-71 | a numeric reference match starts with `&`, ends with `;` and has at least four characters |
| Cleaner.CharOf | cleaner.py:70 | `chr(n)` gives the character with code n, and fails exactly above U+10FFFF or on a surrogate |
| Cleaner.ReferenceChar | cleaner.py:70-71 | `chr(int(digits))` fails exactly on a decimal run of more than 4300 digits or a code point `chr` rejects; the hex pass has no digit limit |
| Cleaner.DecodeReferences | cleaner.py:70-71 | the two `re.sub` passes fail only with a too-long decimal run, a code point above U+10FFFF or a surrogate |
| Cleaner.DecodeReferencesShape | cleaner.py:70-71 | decoding references never lengthens the text, and text without `&` is unchanged |
| Cleaner.DecodeReferencesScan | cleaner.py:70-71 | against the left-to-right scan of matches: decoding succeeds exactly when `int` and `chr` accept every match, each match then becomes `chr(N)` and each other character stays; otherwise the error is that of the first rejected match |
| Cleaner.TooManyDigitsRaise | cleaner.py:70 | a decimal reference of more than 4300 digits makes `int()` raise, whatever its value |
| Cleaner.LeadingZerosDecoded | cleaner.py:70 | leading zeros count: `&#` with 4301 zeros and `65;` names `A` but raises |
| Cleaner.TagAt | cleaner.py:47 | a `<[^>]+>` match has at least three characters |
| Cleaner.StripTagsRegex | cleaner.py:47 | the regex fallback never lengthens the text, and text without `<` is unchanged |
| Cleaner.StripTagsRegexDeletes | cleaner.py:47 | the regex fallback only deletes: its output is a subsequence of its input |
| Cleaner.StripTagsRegexTagFree | cleaner.py:47 | the fallback leaves no `<[^>]+>` match anywhere |
| Cleaner.TagFreeFixed | cleaner.py:47 | text with no tag is left alone by the fallback |
| Cleaner.StripTagsRegexIdempotent | cleaner.py:47 | running the fallback twice is running it once |
| Cleaner.RemoveHtmlTags | cleaner.py:37-47 | empty gives empty; when the parser raises, the result is a tag-free subsequence of the input |
| Cleaner.EntitiesOneLayer | cleaner.py:57-71 | `&amp;amp;` becomes `&amp;` in one pass and `&` in a second: decoding peels one layer per pass, so it is not idempotent |
| Cleaner.EntitiesTableOrder | cleaner.py:57-68 | the entries apply in table order: `&amp;` comes after `&nbsp;` and before `&lt;`, so `&amp;lt;` becomes `<` but `&amp;nbsp;` only `&nbsp;` |
| Cleaner.DecimalDecoded | cleaner.py:69-70 | the decimal reference `&#65;` becomes `A` |
| Cleaner.HexDecoded | cleaner.py:69-71 | the decimal pass leaves `&#x41;` alone and the hex pass turns it into `A` |
| Cleaner.TooLargeDecoded | cleaner.py:69-70 | `&#1114112;`, one past U+10FFFF, makes `chr` raise, so entity decoding fails with that code point |
| Cleaner.ApplyReplacements | cleaner.py:66-68 | the replacement loop computes the chained replace over the table in order |
| Cleaner.RemoveHtmlArtifacts | cleaner.py:50-72 | named entities, then decimal and hex references, then tag removal |
| Cleaner.CollapseRunsCollapsed | cleaner.py:86 | after `re.sub(r"\s+", " ", s)` every whitespace character is a single ' ' |
| Cleaner.CollapseRunsNonSpace | cleaner.py:86 | collapsing keeps every non-whitespace character, in order |
| Cleaner.CollapseRunsFixed | cleaner.py:86 | a collapsed string is left alone by another collapse |
| Cleaner.RemoveExtraWhitespace | cleaner.py:80-87 | remove_extra_whitespace on a string: the result is no longer than the input and has no whitespace at either end |
| Cleaner.RemoveExtraWhitespaceShape | cleaner.py:80-87 | no outer whitespace and no two adjacent whitespace characters; the only whitespace is ' ' |
| Cleaner.RemoveExtraWhitespaceKeeps | cleaner.py:80-87 | the non-whitespace characters are kept in order |
| Cleaner.RemoveExtraWhitespaceIdempotent | cleaner.py:80-87 | applying it twice equals applying it once |
| Cleaner.NormalizeEncoding | cleaner.py:95-113 | the method computes NFC then the replacement table |
| Cleaner.EncodingTableLookup | cleaner.py:103-110 | on one character the table maps U+00A0 to ' ', deletes the four zero-width characters and keeps the rest |
| Cleaner.EncodingTableIsExpand | cleaner.py:111-112 | the replacement loop is that per-character map over the whole text |
| Cleaner.EncodingNormalizedSpec | cleaner.py:101-113 | each U+00A0 becomes one ' ', U+FEFF/U+200B/U+200C/U+200D are deleted, none of the five remains |
| Cleaner.ControlReplaced | cleaner.py:151-154 | Cc characters other than \n, \r, \t become ' ', everything else is kept, the length is unchanged |
| Cleaner.HandleSpecialCharacters | cleaner.py:121-157 | the method computes the enabled steps in the source's order |
| Cleaner.CurlyTableLookup | cleaner.py:140-147 | on one character the curly table maps quotes and dashes to ASCII |
| Cleaner.CurlyTablePerChar | cleaner.py:148-149 | the curly-quote loop is a one-for-one per-character map |
| Cleaner.PrintableKeptShape | cleaner.py:155-156 | the printable filter is a subsequence whose characters are printable or \n, \r, \t |
| Cleaner.SpecialCharactersSpec | cleaner.py:138-157 | length kept without the printable filter; no curly quote or dash left; no Cc other than \n\r\t left; the printable filter alone gives a subsequence |
| Cleaner.CleanText | cleaner.py:281-312 | the method computes the guarded stage composition |
| Cleaner.CleanedTextOfGuard | cleaner.py:301-302 | None and "" give ""; another non-string is returned as `str(text)` uncleaned |
| Cleaner.RemoveHtmlTagsGuard | cleaner.py:39-40 | remove_html_tags on None or "" gives ""; another non-string gives `str(text)` without parsing |
| Cleaner.HtmlArtifactsGuard | cleaner.py:54-55 | remove_html_artifacts on None or "" gives ""; another non-string gives `str(text)` and never raises |
| Cleaner.RemoveExtraWhitespaceGuard | cleaner.py:84-85 | remove_extra_whitespace on None or "" gives ""; another non-string gives `str(text)` with its whitespace untouched |
| Cleaner.EncodingGuard | cleaner.py:99-100 | normalize_encoding on None or "" gives ""; another non-string gives `str(text)` |
| Cleaner.SpecialCharactersGuard | cleaner.py:136-137 | handle_special_characters on None or "" gives "" under any options; another non-string gives `str(text)` |
| Cleaner.CleanedTextFailsOnlyInHtml | cleaner.py:303-311 | only the HTML stage can raise |
| Cleaner.CleanedTextAllOff | cleaner.py:303-312 | with every stage off the text comes back unchanged |
| Cleaner.CleanedTextSingleStage | cleaner.py:303-311 | each stage enabled alone is exactly that stage |
| Cleaner.CleanedTextHtmlFirst | cleaner.py:304-311 | the HTML stage runs first and the rest runs on its output |
| Cleaner.CleanedTextWhitespaceLast | cleaner.py:310-311 | the whitespace stage runs last, on the output of the other enabled stages |
| Cleaner.CleanedTextWhitespace | cleaner.py:310-312 | with the whitespace stage on, the result is trimmed and run-collapsed |
| Dates.Digits2 | cleaner.py:221 | a month or day is rendered as exactly two digits |
| Dates.Digits4 | cleaner.py:221 | a year is rendered as exactly four digits |
| Dates.Iso | cleaner.py:221 | the output is ten characters, digits with '-' at positions 4 and 7 |
| Dates.Digits2Value | cleaner.py:221 | the two rendered digits read back as the number |
| Dates.Digits4Value | cleaner.py:221 | the four rendered digits read back as the number |
| Dates.MonthNamesDistinct | cleaner.py:176-179 | the twelve keys are the first three letters of the full names and tell the months apart |
| Dates.NameAt | cleaner.py:226 | a month name found starts the text, ignoring case; none found means no name starts it |
| Dates.NameAtFinds | cleaner.py:226 | the search finds month k exactly when k's name starts the text |
| Dates.ParseMonthName | cleaner.py:182-185 | the month number is always between 1 and 12 |
| Dates.ParseMonthNameOfAbbr | cleaner.py:184-185 | on text starting with an abbreviation under ASCII case folding, the month is that abbreviation's, so the default 1 is not used for such text |
| Dates.Step | cleaner.py:220 | a directive consumes at least one character of the text |
| Dates.Strptime | cleaner.py:220-223 | a successful parse is a real date with year 1 to 9999 |
| Dates.FirstFormat | cleaner.py:218-223 | the format loop only returns real dates |
| Dates.FirstFormatPrecedence | cleaner.py:218-223 | a format parses exactly when one of them does, and the result is that of the earliest one |
| Dates.FirstFormatSkip | cleaner.py:218-223 | formats that fail can be skipped |
| Dates.FormatsHaveYear | cleaner.py:205-217 | every one of the eleven formats reads a four-digit year |
| Dates.DayDigitsAt | cleaner.py:226 | `\d{1,2}` takes one or two digits |
| Dates.MonthWordAt | cleaner.py:226 | a month word starts with a letter and is at least three characters long |
| Dates.DayMonthYearAt | cleaner.py:225-236 | a match of the first fallback pattern starts with a digit and holds a letter and four digits |
| Dates.MonthDayYearAt | cleaner.py:237-248 | a match of the second fallback pattern holds a letter and four digits |
| Dates.SearchLeftmost | cleaner.py:225-229 | `re.search` finds a match exactly when one starts somewhere, and returns the leftmost |
| Dates.SearchFirst | cleaner.py:237-241 | the match at the first matching position is the one returned |
| Dates.SearchNone | cleaner.py:237-241 | no match at any position means the search finds nothing |
| Dates.Fallback | cleaner.py:224-249 | the fallback only returns real dates |
| Dates.DateOf | cleaner.py:201-249 | every date standardize_date settles on is a real date |
| Dates.StandardizedDate | cleaner.py:188-249 | the result is present exactly when a date is found, and is then that date in `YYYY-MM-DD` form |
| Dates.StandardizeDate | cleaner.py:188-249 | the method (loop over the formats, then the two searches) computes that result |
| Dates.IsoParses | cleaner.py:206 | "%Y-%m-%d" reads a rendered date back as the same date |
| Dates.DateOfIso | cleaner.py:218-223 | standardize_date accepts its own output and returns the same date |
| Dates.StandardizedDateIdempotent | cleaner.py:188-249 | standardize_date is idempotent on the strings it accepts |
| Dates.DateOfNeedsYear | cleaner.py:188-249 | a string that yields a date contains four consecutive digits |
| Dates.FallbackNeedsLetter | cleaner.py:225-248 | both fallback searches need a month name, so a string without letters has no fallback date |
| DateExamples.MonthFirst | cleaner.py:208 | "03/04/2024" gives "2024-03-04": "%m/%d/%Y" precedes "%d/%m/%Y" |
| DateExamples.DayFirstWhenMonthImpossible | cleaner.py:208-209 | "13/04/2024" gives "2024-04-13" |
| DateExamples.DashDayFirst | cleaner.py:210-212 | "03-04-2024" gives "2024-04-03": "%d-%m-%Y" precedes "%m-%d-%Y" |
| DateExamples.LeapDay | cleaner.py:208 | "02/29/2024" gives "2024-02-29" |
| DateExamples.ImpossibleFebruary | cleaner.py:218-249 | "02/dd/yyyy" with an impossible day of February gives None |
| DateExamples.NoLeapDay | cleaner.py:218-249 | "02/29/2023" gives None |
| DateExamples.NoFebruaryThirtieth | cleaner.py:218-249 | "02/30/2024" gives None |
| DateExamples.NotADate | cleaner.py:201-202 | "" and "not a date" give None |
| DateExamples.AbbreviatedMonth | cleaner.py:213-214 | "Jan 15, 2024" gives "2024-01-15" |
| DateExamples.FullMonthName | cleaner.py:215 | "15 January 2024" gives "2024-01-15" |
| DateExamples.DayWordYearInText | cleaner.py:225-236 | "d Month yyyy" after a prefix without digits is found by the first search |
| DateExamples.PostedDay | cleaner.py:225-236 | "Posted 5 March 2024" gives "2024-03-05" |
| DateExamples.WordDotDayYearDate | cleaner.py:237-248 | "Mon. d, yyyy" is found by the second search |
| DateExamples.SeptemberWord | cleaner.py:237-248 | "Sept. 5, 2024" gives "2024-09-05" |
| RecordCleaner.CleanedString | cleaner.py:265 | `clean_text(str(v))` gives a string exactly when cleaning does not raise |
| RecordCleaner.TextRule | cleaner.py:265 | the text rule is `clean_text` on `str(v)` with every stage on |
| RecordCleaner.CleanRecord | cleaner.py:257-273 | the method (copy, then the field updates) computes clean_record; the pipeline's own clean_record (run_pipeline.py:31-48) is the same code, so this method models both |
| RecordCleaner.NonNull | cleaner.py:270 | dropping None elements never lengthens the list |
| RecordCleaner.NonNullHasNoNull | cleaner.py:270 | no None is left, and the list is shorter by exactly the number of None elements |
| RecordCleaner.TagsCleanedSpec | cleaner.py:269-270 | the tags succeed exactly when each non-None element cleans; then one cleaned element each, in order |
| RecordCleaner.TextFieldsCleanedSpec | cleaner.py:263-265 | the text loop cleans exactly the present non-None named fields and keeps the rest |
| RecordCleaner.LaterStepsFields | cleaner.py:266-272 | the date, tags and url steps each touch only their own field |
| RecordCleaner.CleanedRecordFields | cleaner.py:262-273 | same key set as the input; succeeds exactly when every field's rule does; each field rewritten by its own rule only |
| RecordCleaner.CleanedRecordKeepsOthers | cleaner.py:262 | fields other than the six named ones pass through unchanged |
| RecordCleaner.BlankUrlBecomesNone | cleaner.py:271-272 | a blank url becomes None and its key stays |
| RecordCleaner.UnreadableDateKept | cleaner.py:266-268 | a date standardize_date cannot read is kept as it was |
| Validator.UrlPatternMatches | validator.py:29-37 | URL_PATTERN matches a string split into scheme, host, optional port and tail; any match is at least seven characters and starts with "http" in some case |
| Validator.ValidUrl | validator.py:68-92 | an accepted URL is non-blank once stripped, matches the pattern, and urlparse reports a netloc and the scheme http or https |
| Validator.ValidUrlShape | validator.py:78-90 | an accepted URL is non-blank, matches the pattern and begins with "http" in some case |
| Validator.BlankUrlInvalid | validator.py:78-82 | empty and blank strings are rejected |
| Validator.MatchBeginsWithH | validator.py:29-37 | a pattern match begins with h or H |
| Validator.NotHttpInvalid | validator.py:29-37 | a URL not beginning with h or H is rejected whatever urlparse says |
| Validator.FtpInvalid | validator.py:68-92 | "ftp://bad" is rejected |
| Validator.NameOfLabels | validator.py:31 | a label, a dot and a 2-6 letter top label form a hostname |
| Validator.PatternOfParts | validator.py:29-37 | a scheme, host, optional port and tail together match the pattern |
| Validator.ValidUrlByPattern | validator.py:83-90 | once urlparse reports an http(s) scheme and a netloc, the pattern decides |
| Validator.LabelsUrlEdges | validator.py:80 | such a URL has no outer whitespace, so strip leaves it alone |
| Validator.ValidUrlOfLabels | validator.py:78-90 | scheme + label.top + tail passes once urlparse reports an http(s) scheme and a netloc |
| Validator.HttpsValid | validator.py:68-92 | "https://example.com/page" is accepted |
| Validator.HttpAComValid | validator.py:78-90 | "http://a.com" is accepted and is its own strip |
| Validator.UrlDisplay | validator.py:178 | a URL of up to 50 characters is shown whole; a longer one as its first 50 characters plus "..." |
| Validator.RequiredMessagesDistinct | validator.py:113-117 | the three messages never coincide, and each determines its field name |
| Validator.RequiredReasonsOf | validator.py:109-118 | at most one reason per required name |
| Validator.ValidateRequiredFields | validator.py:95-118 | the loop computes the reasons for the names (defaults when none are given), in order |
| Validator.RequiredReasonsAppend | validator.py:111-117 | checking a + b reports a's reasons, then b's |
| Validator.RequiredReasonsMembers | validator.py:111-117 | a reason is reported exactly when some name is missing, None or a blank string |
| Validator.RequiredReasonsEmpty | validator.py:109-118 | no reasons exactly when every name passes |
| Validator.RequiredMessageIff | validator.py:112-117 | each message is reported exactly for a listed name in the matching state; a non-string, non-None value passes |
| Validator.LengthReasonsOf | validator.py:135-148 | at most one reason per (field, minimum) pair |
| Validator.ValidateContentLength | validator.py:121-148 | the loop computes the length reasons over the pairs (defaults when none are given), in order |
| Validator.LengthReasonsAppend | validator.py:137-147 | checking a + b reports a's reasons, then b's |
| Validator.LengthReasonsChecks | validator.py:137-147 | the reasons are exactly those of the individual pairs |
| Validator.LengthReasonsMembers | validator.py:137-147 | a reason is reported exactly for a present, non-None field whose stripped length is below the minimum; absent and None fields are skipped |
| Validator.OnlyFirstShort | validator.py:137-147 | of two pairs, only the too-short first one is reported |
| Validator.OnlyFirstBlank | validator.py:111-117 | of three names, only the blank first one is reported |
| Validator.ExplicitSettings | validator.py:168-169 | non-empty settings are used as given |
| Validator.BlankUrlOnlyRequired | validator.py:172-179 | a missing, None or blank url gets the required-field reason and no URL reason |
| Validator.UrlCheckIff | validator.py:175-179 | the URL reason is present exactly for a present, non-blank url that validate_url rejects, and shows the stripped url |
| Validator.AcceptedUrlNoReason | validator.py:175-177 | an accepted, stripped url adds no reason |
| Validator.StripIdempotent | validator.py:176-177 | validate_url's own strip sees the already stripped url unchanged |
| Validator.RecordValidIff | validator.py:167-185 | valid exactly when all required names pass, the url passes and no field is too short |
| Validator.FirstBlankReasons | validator.py:167-185 | a blank first required name with a minimum of at least 1 gives exactly its empty and length reasons |
| Validator.BlankTitleReasons | validator.py:167-185 | defaults, a blank title, non-blank content and an accepted url give exactly two reasons |
| Validator.BlankTitleExample | validator.py:167-185 | {title: "", content: "x", url: "http://a.com"} gives exactly the empty-title and title-length reasons |
| Validator.TitleMessages | validator.py:117 | those two reasons are "Required field 'title' is empty" and "Field 'title' length 0 is below minimum 1" |
| Validator.StatusLine | validator.py:56-60 | `__str__` begins with the status, is the bare status when there are no reasons, and otherwise continues with ": " |
| Validator.StatusLineShape | validator.py:56-60 | the line starts with V exactly when valid, and is the bare status exactly when there are no reasons |
| Validator.StatusLineAppend | validator.py:52-60 | one more reason extends the line by ": reason" for the first, "; reason" after |
| Validator.JoinLength | validator.py:59 | the joined text has the reasons' lengths plus one separator between each two |
| Validator.ValidationResult.constructor | validator.py:45-50 | the result holds the given flag and reasons |
| Validator.ValidationResult.ToString | validator.py:56-60 | the line starts with V exactly for a valid result, and is the bare status exactly when there are no reasons |
| Validator.ValidationResult.AddReason | validator.py:52-54 | appends the reason at the end, leaves is_valid unchanged, and extends `__str__` accordingly |
| Validator.ValidateRecord | validator.py:151-185 | required reasons, then at most one URL reason, then length reasons; is_valid exactly when there are none |
| Validator.ValidateRecords | validator.py:188-207 | one result per record, in input order, each carrying validate_record's reasons and is_valid exactly when there are none |
| Validator.Validity | validator.py:204-207 | one validity flag per record |
| Validator.InvalidIndicesSpec | validator.py:222-226 | the invalid indices ascend strictly and are exactly the indices flagged invalid |
| Validator.CollectInvalid | validator.py:222-226 | the loop keeps (index, record, result) for each invalid result, in order |
| Validator.GetInvalidRecords | validator.py:210-226 | exactly the invalid indices, ascending, each with its record and its (invalid) result |
| Pipeline.AsList | run_pipeline.py:68-69 | a single loaded record is processed as a list of one |
| Pipeline.Limited | run_pipeline.py:72-73 | the first min(n, RECORD_LIMIT) records, in input order |
| Pipeline.CleanedAll | run_pipeline.py:80 | when cleaning succeeds, one cleaned record per record, in order |
| Pipeline.CleanedAllSucceeds | run_pipeline.py:80 | cleaning all records succeeds exactly when each record cleans |
| Pipeline.CleanAll | run_pipeline.py:80 | the loop computes that comprehension |
| Pipeline.ReasonsOf | run_pipeline.py:85 | one reason list per cleaned record, validate_record's with the defaults |
| Pipeline.CountValid | run_pipeline.py:86 | the valid count is at most the number of records |
| Pipeline.ValidCount | run_pipeline.py:86 | the loop counts the valid results |
| Pipeline.CountValidAll | run_pipeline.py:86-87 | every record is valid exactly when the valid count is the total |
| Pipeline.ValidPlusInvalid | run_pipeline.py:86-87 | valid records plus invalid positions make up all records |
| Pipeline.InvalidCountIsInvalidRecords | run_pipeline.py:87 | invalid_count is the number of records get_invalid_records returns |
| Pipeline.ReasonValues | run_pipeline.py:96 | the reasons are written as a list of strings, one per reason, in order |
| Pipeline.AnnotatedAll | run_pipeline.py:91-97 | one annotated entry per cleaned record, in order |
| Pipeline.AnnotateRecords | run_pipeline.py:91-97 | the loop builds that output |
| Pipeline.AnnotatedSpec | run_pipeline.py:93-96 | `_valid` is set; `_validation_reasons` only for an invalid record; every other field is kept |
| Pipeline.CountPresent | run_pipeline.py:107-114 | a field is present in at most all records |
| Pipeline.CompletenessOf | run_pipeline.py:104-114 | one count per field name, the number of records where it is a list or a non-blank string |
| Pipeline.CountFields | run_pipeline.py:106-114 | the inner loop adds one for each field present in the record |
| Pipeline.Completeness | run_pipeline.py:104-114 | the nested loops compute those counts |
| Pipeline.FailureCounter | run_pipeline.py:116-119 | the counter counts every reason of every result |
| Pipeline.FlattenMembers | run_pipeline.py:116-119 | a reason is counted exactly when some list holds it; nothing is counted exactly when all lists are empty |
| Pipeline.FlattenLength | run_pipeline.py:116-119 | the counts add up to the total number of reasons |
| Pipeline.RunPipeline | run_pipeline.py:56-119 | the run computes the summary of limiting, cleaning, validating, annotating and counting |
| Pipeline.Summarize | run_pipeline.py:86-119 | counting, annotating and reporting on validated records |
| Pipeline.Report | run_pipeline.py:85-119 | validation with the defaults, then the counts, the output and the report |
| Pipeline.PipelineSummary | run_pipeline.py:72-119 | once cleaning succeeds, the run's outcome is the report on the cleaned records |
| Pipeline.PipelineFails | run_pipeline.py:80 | a run fails exactly when cleaning one of the first RECORD_LIMIT records raises |
| Pipeline.PipelineCounts | run_pipeline.py:72-87 | total_records = min(n, 10), and valid_count + invalid_count = total_records with both non-negative |
| Pipeline.PipelineOutput | run_pipeline.py:91-97 | the output has one entry per record, in order, each the cleaned record annotated with its own reasons |
| Pipeline.PipelineCompleteness | run_pipeline.py:104-114 | one count per field name, each at most total_records |
| Pipeline.PipelineNoFailures | run_pipeline.py:116-119 | the failure counter is empty exactly when invalid_count is 0 |
| Pipeline.PipelineFailureTotal | run_pipeline.py:116-119 | the failure counts sum to the number of reasons over all records |
| Pipeline.PipelineFailureReasons | run_pipeline.py:116-119 | a reason is counted exactly when some record's validation reported it |

## Left out

- File and console I/O are not modelled:
  - JSON loading and writing, the report text and `print`;
  - the `__main__` blocks of cleaner.py and validator.py.

  The loaded JSON is a parameter: a list of records or a single record. Other top-level JSON values, and list elements that are not objects, are not modelled.
- Percentages, `Counter.most_common` ordering and the report layout are reporting and float formatting.
- The tolerant HTML parser (`HTMLTagStripper`), NFC, `str.isprintable`, `urllib.parse.urlparse` and `str()`/`repr` of non-string values are foreign. They are uninterpreted parameters (`Host`). An exception from `urlparse` is modelled as its returning nothing, which rejects the URL as the source's `except` does.
- Pipeline.FailureCounter: `Counter` is modelled as a multiset of reasons, with the same counts. The counter's key order is not modelled.
- Dict key order is not modelled, because records are maps. This affects the layout of the JSON output.
- Digits and case folding are ASCII only:
  - `\d` and `%Y`/`%m`/`%d` also accept other Unicode decimal digits in Python;
  - `re.IGNORECASE` also equates a few non-ASCII letters with ASCII ones.

  The month names are English, as in the C locale.
- Dates.ParseMonthName and Dates.StandardizedDate: the default month 1 of `_parse_month_name` is reachable in the source through `re.IGNORECASE`'s non-ASCII equivalences, which the model does not have. On `"5 ſep 2024"` (U+017F matches `s`), the source's first fallback search matches `ſep`, the lookup misses, and the result is `"2024-01-05"`. The model gives None.
- `strftime("%Y")` pads years below 1000 differently on some platforms. The model always writes four digits.
- Numeric references to lone surrogates (U+D800 to U+DFFF) are an error here, because a Dafny `char` cannot hold one.
- `DATE_PATTERNS` (cleaner.py:165-174) is never referenced by the code.
- Idempotence of `clean_text` is not stated. The entity stage alone peels one `&amp;` layer per pass and is not idempotent; Cleaner.EntitiesOneLayer shows this on `&amp;amp;`. For the whole function, the HTML parser that follows unescapes one more layer, so a counterexample needs a third layer (`&amp;amp;amp;` gives `&amp;`, then `&`). That depends on the foreign parser's output, so it is not stated.
- Cleaner.RemoveHtmlTags: says nothing about the parser's output beyond the empty input, since the parser is foreign.
- Validator.ValidateRecords: does not state that each result is a newly allocated object. Each comes from Validator.ValidateRecord, which does state it, but carrying freshness through the loop's invariant is too costly for the verifier.
- RecordCleaner.CleanedRecordFields: when several fields raise, the model reports the first in the source's order. The lemma states only that the record fails.
- The integers are unbounded, as Python's are. No width or wrap-around occurs in the source. The one limit it meets is `int()`'s 4300-digit limit on decimal strings, which is modelled (Cleaner.ReferenceChar). Raising that limit through `sys.set_int_max_str_digits` or `PYTHONINTMAXSTRDIGITS`, or running on a Python that predates it, is not modelled.
- Pipeline.PipelineFails and Pipeline.RunPipeline: on an empty record list (a JSON `[]`), the source raises ZeroDivisionError in the console summary (run_pipeline.py:163), after both output files are written. The report's percentages guard against a zero total (run_pipeline.py:136), but the console's do not. The console summary is left out with the rest of the printing, so the model's run returns its summary there, with every count 0.
