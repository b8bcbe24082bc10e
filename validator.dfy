/**
 * validator.py: the URL check, the required-field and minimum-length checks,
 * the ValidationResult record they fill, and the batch helpers.
 */
module Validator {
  import opened Wrappers
  import opened Text
  import opened Values

  const REQUIRED_FIELDS: seq<string> := ["title", "content", "url"]

  /** DEFAULT_MIN_LENGTHS as (field, minimum) pairs in the dict's insertion order. */
  const DEFAULT_MIN_LENGTHS: seq<(string, int)> := [("title", 1), ("content", 1)]

  // ---------------------------------------------------------------------------
  // URL_PATTERN, matched case-insensitively and anchored at both ends
  // ---------------------------------------------------------------------------

  /** `[A-Z0-9]` under IGNORECASE. */
  predicate IsAlnum(c: char) {
    IsAsciiLetter(c) || IsDigit(c)
  }

  /** `[A-Z0-9](?:[A-Z0-9-]{0,61}[A-Z0-9])?`: 1 to 63 characters, alphanumeric at both ends. */
  predicate IsLabel(s: string) {
    && 1 <= |s| <= 63
    && IsAlnum(s[0]) && IsAlnum(s[|s| - 1])
    && forall i :: 0 < i < |s| - 1 ==> IsAlnum(s[i]) || s[i] == '-'
  }

  /** `[A-Z]{2,6}` */
  predicate IsTopLabel(s: string) {
    2 <= |s| <= 6 && forall i :: 0 <= i < |s| ==> IsAsciiLetter(s[i])
  }

  /** `(?:label\.)+[A-Z]{2,6}`: one or more labels, each followed by a dot, then the top label. */
  predicate DottedName(s: string)
    decreases |s|
  {
    exists i :: 0 < i < |s| && s[i] == '.' && IsLabel(s[..i]) && (IsTopLabel(s[i + 1..]) || DottedName(s[i + 1..]))
  }

  /** The hostname alternative, with its optional trailing dot. */
  predicate IsHostName(s: string) {
    DottedName(s) || (s != [] && s[|s| - 1] == '.' && DottedName(s[..|s| - 1]))
  }

  /** n groups of one to three digits separated by dots (`\d{1,3}`, no range check). */
  predicate DigitGroups(s: string, n: nat)
    decreases n
  {
    if n <= 1 then 1 <= |s| <= 3 && forall i :: 0 <= i < |s| ==> IsDigit(s[i])
    else exists i :: 0 < i < |s| && i <= 3 && s[i] == '.' && DigitGroups(s[..i], 1) && DigitGroups(s[i + 1..], n - 1)
  }

  /** The host part: a hostname, `localhost`, or four digit groups. */
  predicate IsUrlHost(s: string) {
    IsHostName(s) || Lower(s) == "localhost" || DigitGroups(s, 4)
  }

  /** `(?::\d+)?` */
  predicate IsUrlPort(s: string) {
    s == [] || (|s| >= 2 && s[0] == ':' && forall i :: 1 <= i < |s| ==> IsDigit(s[i]))
  }

  /** `(?:/?|[/?]\S+)$` */
  predicate IsUrlTail(s: string) {
    s == [] || s == "/" || (|s| >= 2 && (s[0] == '/' || s[0] == '?') && forall i :: 1 <= i < |s| ==> !IsSpace(s[i]))
  }

  /** `https?://` */
  predicate IsUrlScheme(s: string) {
    Lower(s) == "http://" || Lower(s) == "https://"
  }

  /** A prefix that matches `https?://` is seven or eight characters long and reads "http" in some case. */
  lemma SchemePrefix(u: string)
    ensures forall a :: 0 <= a <= |u| && IsUrlScheme(u[..a]) ==> a >= 7 && Lower(u[..4]) == "http"
  {
    forall a | 0 <= a <= |u| && IsUrlScheme(u[..a]) ensures a >= 7 && Lower(u[..4]) == "http" {
      assert |Lower(u[..a])| == a;
      assert Lower(u[..4]) == Lower(u[..a])[..4];
    }
  }

  /** URL_PATTERN.match(u): u splits into scheme, host, optional port and tail. */
  predicate UrlPatternMatches(u: string)
    ensures UrlPatternMatches(u) ==> |u| >= 7 && Lower(u[..4]) == "http"
  {
    SchemePrefix(u);
    exists a, b, c :: 0 <= a <= b <= c <= |u| &&
      IsUrlScheme(u[..a]) && IsUrlHost(u[a..b]) && IsUrlPort(u[b..c]) && IsUrlTail(u[c..])
  }

  /** validate_url on a string: urlparse (foreign) must find an http(s) scheme and a netloc, then the pattern must match. */
  function ValidUrl(host: Host, url: string): (r: bool)
    ensures r ==> Strip(url) != [] && UrlPatternMatches(Strip(url))
    ensures r ==> (
      && host.urlParse(Strip(url)).Some?
      && host.urlParse(Strip(url)).value.netloc != []
      && (host.urlParse(Strip(url)).value.scheme == "http" || host.urlParse(Strip(url)).value.scheme == "https"))
  {
    if url == [] then false
    else
      var u := Strip(url);
      if u == [] then false
      else match host.urlParse(u)
        case None => false
        case Some(parts) =>
          && parts.scheme != [] && parts.netloc != []
          && (parts.scheme == "http" || parts.scheme == "https")
          && UrlPatternMatches(u)
  }

  /** A URL that passes is non-blank, matches the pattern, and so begins with http:// or https://. */
  lemma ValidUrlShape(host: Host, url: string)
    requires ValidUrl(host, url)
    ensures Strip(url) != [] && UrlPatternMatches(Strip(url))
    ensures |Strip(url)| >= 7 && Lower(Strip(url)[..4]) == "http"
  {
    var u := Strip(url);
    var a, b, c :| 0 <= a <= b <= c <= |u| &&
      IsUrlScheme(u[..a]) && IsUrlHost(u[a..b]) && IsUrlPort(u[b..c]) && IsUrlTail(u[c..]);
    assert |Lower(u[..a])| == a;
    assert Lower(u[..4]) == Lower(u[..a])[..4];
  }

  /** Empty and blank strings are rejected whatever urlparse would say. */
  lemma BlankUrlInvalid(host: Host, url: string)
    requires AllSpace(url)
    ensures !ValidUrl(host, url)
  {
    StripEmptyIffAllSpace(url);
  }

  /** A string that matches the pattern begins with h or H. */
  lemma MatchBeginsWithH(u: string)
    ensures UrlPatternMatches(u) ==> u != [] && LowerChar(u[0]) == 'h'
  {
    if UrlPatternMatches(u) {
      var a, b, c :| 0 <= a <= b <= c <= |u| &&
        IsUrlScheme(u[..a]) && IsUrlHost(u[a..b]) && IsUrlPort(u[b..c]) && IsUrlTail(u[c..]);
      assert Lower(u[..a])[0] == LowerChar(u[0]);
    }
  }

  /** A string that does not begin with h or H is rejected whatever urlparse would say. */
  lemma NotHttpInvalid(host: Host, u: string)
    requires u != [] && !IsSpace(u[0]) && !IsSpace(u[|u| - 1]) && LowerChar(u[0]) != 'h'
    ensures !ValidUrl(host, u)
  {
    StripNoOuterSpace(u);
    MatchBeginsWithH(u);
  }

  /** "ftp://bad" is rejected. */
  lemma FtpInvalid(host: Host)
    ensures !ValidUrl(host, "ftp://bad")
  {
    NotHttpInvalid(host, "ftp://bad");
  }

  /** A label, a dot and a top label form a hostname. */
  lemma NameOfLabels(l: string, t: string)
    requires IsLabel(l) && IsTopLabel(t)
    ensures DottedName(l + "." + t)
  {
    var s := l + "." + t;
    assert s[..|l|] == l && s[|l|] == '.' && s[|l| + 1..] == t;
  }

  /** The four parts of URL_PATTERN, put together, match it. */
  lemma PatternOfParts(scheme: string, h: string, port: string, tail: string)
    requires IsUrlScheme(scheme) && IsUrlHost(h) && IsUrlPort(port) && IsUrlTail(tail)
    ensures UrlPatternMatches(scheme + h + port + tail)
  {
    var sh := scheme + h;
    var shp := sh + port;
    var u := shp + tail;
    var a, b, c := |scheme|, |sh|, |shp|;
    assert u[..c] == shp && u[c..] == tail;
    assert shp[..b] == sh && shp[b..] == port;
    assert sh[..a] == scheme && sh[a..] == h;
    assert u[..a] == scheme && u[a..b] == h && u[b..c] == port;
  }

  /** When urlparse reports an http(s) scheme and a netloc, the pattern decides. */
  lemma ValidUrlByPattern(host: Host, u: string, scheme: string, netloc: string)
    requires u != [] && !IsSpace(u[0]) && !IsSpace(u[|u| - 1])
    requires host.urlParse(u) == Some(UrlParts(scheme, netloc)) && netloc != []
    requires scheme == "http" || scheme == "https"
    ensures ValidUrl(host, u) == UrlPatternMatches(u)
  {
    StripNoOuterSpace(u);
  }

  /** Such a URL begins with h or H and ends with a letter or a tail character, so strip leaves it alone. */
  lemma LabelsUrlEdges(u: string, scheme: string, l: string, t: string, tail: string)
    requires IsUrlScheme(scheme) && IsTopLabel(t) && IsUrlTail(tail)
    requires u == scheme + (l + "." + t) + "" + tail
    ensures u != [] && !IsSpace(u[0]) && !IsSpace(u[|u| - 1])
  {
    assert Lower(scheme)[0] == LowerChar(scheme[0]);
    assert u[0] == scheme[0];
    if tail == [] {
      assert u[|u| - 1] == t[|t| - 1];
    } else {
      assert u[|u| - 1] == tail[|tail| - 1];
    }
  }

  /**
   * A URL made of an http(s) scheme, `label.top` and a tail passes once urlparse
   * reports an http(s) scheme and a netloc for it.
   */
  lemma ValidUrlOfLabels(host: Host, u: string, scheme: string, l: string, t: string, tail: string, parts: UrlParts)
    requires IsUrlScheme(scheme) && IsLabel(l) && IsTopLabel(t) && IsUrlTail(tail)
    requires u == scheme + (l + "." + t) + "" + tail
    requires host.urlParse(u) == Some(parts) && parts.netloc != []
    requires parts.scheme == "http" || parts.scheme == "https"
    ensures ValidUrl(host, u)
  {
    NameOfLabels(l, t);
    PatternOfParts(scheme, l + "." + t, "", tail);
    LabelsUrlEdges(u, scheme, l, t, tail);
    ValidUrlByPattern(host, u, parts.scheme, parts.netloc);
  }

  /** "https://example.com/page" passes once urlparse reports its scheme and netloc. */
  lemma HttpsValid(host: Host, u: string)
    requires u == "https://example.com/page"
    requires host.urlParse(u) == Some(UrlParts("https", "example.com"))
    ensures ValidUrl(host, u)
  {
    var scheme, l, t, tail := "https://", "example", "com", "/page";
    HttpsPieces(scheme, l, t, tail);
    assert u == scheme + (l + "." + t) + "" + tail;
    ValidUrlOfLabels(host, u, scheme, l, t, tail, UrlParts("https", "example.com"));
  }

  lemma HttpsPieces(scheme: string, l: string, t: string, tail: string)
    requires scheme == "https://" && l == "example" && t == "com" && tail == "/page"
    ensures IsUrlScheme(scheme) && IsLabel(l) && IsTopLabel(t) && IsUrlTail(tail)
  {
  }

  // ---------------------------------------------------------------------------
  // Reason messages
  // ---------------------------------------------------------------------------

  function MissingMessage(n: string): string {
    "Missing required field: '" + n + "'"
  }

  function NoneMessage(n: string): string {
    "Required field '" + n + "' is None"
  }

  function EmptyMessage(n: string): string {
    "Required field '" + n + "' is empty"
  }

  function LengthMessage(n: string, length: nat, minimum: int): string {
    "Field '" + n + "' length " + NatToString(length) + " is below minimum " + IntToString(minimum)
  }

  /** The URL as shown in its reason: cut to 50 characters and marked with "..." when longer. */
  function UrlDisplay(u: string): (r: string)
    ensures |u| <= 50 ==> r == u
    ensures |u| > 50 ==> |r| == 53 && r[..50] == u[..50] && r[50..] == "..."
  {
    if |u| > 50 then u[..50] + "..." else u
  }

  function UrlMessage(u: string): string {
    "Invalid URL format: '" + UrlDisplay(u) + "'"
  }

  /** The three required-field messages never coincide, and each names its field. */
  lemma RequiredMessagesDistinct(n: string, m: string)
    ensures MissingMessage(n) != NoneMessage(m) && MissingMessage(n) != EmptyMessage(m)
    ensures NoneMessage(n) != EmptyMessage(m)
    ensures MissingMessage(n) == MissingMessage(m) ==> n == m
    ensures NoneMessage(n) == NoneMessage(m) ==> n == m
    ensures EmptyMessage(n) == EmptyMessage(m) ==> n == m
  {
    assert MissingMessage(n)[0] == 'M' && NoneMessage(m)[0] == 'R' && EmptyMessage(m)[0] == 'R';
    var a, b := NoneMessage(n), EmptyMessage(m);
    assert a[|a| - 1] == 'e' && b[|b| - 1] == 'y';
    if MissingMessage(n) == MissingMessage(m) {
      assert n == MissingMessage(n)[25..|MissingMessage(n)| - 1];
      assert m == MissingMessage(m)[25..|MissingMessage(m)| - 1];
    }
    if NoneMessage(n) == NoneMessage(m) {
      assert n == NoneMessage(n)[16..|NoneMessage(n)| - 9];
      assert m == NoneMessage(m)[16..|NoneMessage(m)| - 9];
    }
    if EmptyMessage(n) == EmptyMessage(m) {
      assert n == EmptyMessage(n)[16..|EmptyMessage(n)| - 10];
      assert m == EmptyMessage(m)[16..|EmptyMessage(m)| - 10];
    }
  }

  /** An optional reason as a list of zero or one reasons. */
  function OptList(o: Option<string>): (r: seq<string>)
    ensures |r| <= 1 && (r == [] <==> o.None?)
  {
    if o.Some? then [o.value] else []
  }

  /**
   * The reasons a per-item check reports over a list, in the order of the list: the shape
   * shared by the required-field loop and the minimum-length loop.
   */
  function Collected<T>(check: T -> Option<string>, xs: seq<T>): (r: seq<string>)
    ensures |r| <= |xs|
  {
    if xs == [] then [] else Collected(check, xs[..|xs| - 1]) + OptList(check(xs[|xs| - 1]))
  }

  /** Checking a + b reports a's reasons, then b's. */
  lemma {:induction false} CollectedAppend<T>(check: T -> Option<string>, a: seq<T>, b: seq<T>)
    ensures Collected(check, a + b) == Collected(check, a) + Collected(check, b)
    decreases |b|
  {
    if b != [] {
      var b', last := b[..|b| - 1], b[|b| - 1];
      assert (a + b)[..|a + b| - 1] == a + b' && (a + b)[|a + b| - 1] == last;
      CollectedAppend(check, a, b');
      var o := OptList(check(last));
      var ra, rb' := Collected(check, a), Collected(check, b');
      assert Collected(check, a + b) == (ra + rb') + o;
      assert Collected(check, b) == rb' + o;
      assert (ra + rb') + o == ra + (rb' + o);
    } else {
      assert a + b == a && Collected(check, a) + [] == Collected(check, a);
    }
  }

  /** A reason is reported exactly when the check of some item reports it. */
  lemma {:induction false} CollectedMembers<T>(check: T -> Option<string>, xs: seq<T>, x: string)
    ensures x in Collected(check, xs) <==> exists j :: 0 <= j < |xs| && check(xs[j]) == Some(x)
    decreases |xs|
  {
    if xs != [] {
      var init := xs[..|xs| - 1];
      CollectedMembers(check, init, x);
      assert Collected(check, xs) == Collected(check, init) + OptList(check(xs[|xs| - 1]));
      if x in Collected(check, init) {
        var j :| 0 <= j < |init| && check(init[j]) == Some(x);
        assert xs[j] == init[j];
      }
      if exists j :: 0 <= j < |xs| && check(xs[j]) == Some(x) {
        var j :| 0 <= j < |xs| && check(xs[j]) == Some(x);
        if j < |init| {
          assert init[j] == xs[j];
        }
      }
    }
  }

  /** No reasons exactly when every item passes its check. */
  lemma {:induction false} CollectedEmpty<T>(check: T -> Option<string>, xs: seq<T>)
    ensures Collected(check, xs) == [] <==> forall j :: 0 <= j < |xs| ==> check(xs[j]).None?
    decreases |xs|
  {
    if xs != [] {
      var init := xs[..|xs| - 1];
      CollectedEmpty(check, init);
      assert forall j :: 0 <= j < |init| ==> init[j] == xs[j];
      var r0, o := Collected(check, init), OptList(check(xs[|xs| - 1]));
      assert Collected(check, xs) == r0 + o;
      assert |r0 + o| == |r0| + |o|;
    }
  }

  // ---------------------------------------------------------------------------
  // validate_required_fields
  // ---------------------------------------------------------------------------

  /** `required or REQUIRED_FIELDS`: None and the empty tuple both select the default. */
  function EffectiveRequired(required: seq<string>): seq<string> {
    if required == [] then REQUIRED_FIELDS else required
  }

  /** The reason one required name contributes, if any. */
  function RequiredCheck(rec: Record, n: string): Option<string> {
    if n !in rec then Some(MissingMessage(n))
    else if rec[n] == VNull then Some(NoneMessage(n))
    else if rec[n].VStr? && Strip(rec[n].s) == [] then Some(EmptyMessage(n))
    else None
  }

  function RequiredChecker(rec: Record): string -> Option<string> {
    n => RequiredCheck(rec, n)
  }

  /** The reasons for the names, in the order of the names. */
  function RequiredReasonsOf(rec: Record, names: seq<string>): (r: seq<string>)
    ensures |r| <= |names|
  {
    Collected(RequiredChecker(rec), names)
  }

  method ValidateRequiredFields(rec: Record, required: seq<string>) returns (reasons: seq<string>)
    ensures reasons == RequiredReasonsOf(rec, EffectiveRequired(required))
  {
    var names := if required == [] then REQUIRED_FIELDS else required;
    reasons := [];
    for i := 0 to |names|
      invariant reasons == RequiredReasonsOf(rec, names[..i])
    {
      var n := names[i];
      assert names[..i + 1][..i] == names[..i];
      if n !in rec {
        reasons := reasons + [MissingMessage(n)];
      } else if rec[n] == VNull {
        reasons := reasons + [NoneMessage(n)];
      } else if rec[n].VStr? && Strip(rec[n].s) == [] {
        reasons := reasons + [EmptyMessage(n)];
      }
    }
    assert names[..|names|] == names;
  }

  /** Checking a + b reports a's reasons, then b's. */
  lemma RequiredReasonsAppend(rec: Record, a: seq<string>, b: seq<string>)
    ensures RequiredReasonsOf(rec, a + b) == RequiredReasonsOf(rec, a) + RequiredReasonsOf(rec, b)
  {
    CollectedAppend(RequiredChecker(rec), a, b);
  }

  /** A reason is reported exactly when some name is missing, None or a blank string. */
  lemma RequiredReasonsMembers(rec: Record, names: seq<string>, x: string)
    ensures x in RequiredReasonsOf(rec, names) <==>
      exists j :: 0 <= j < |names| && RequiredCheck(rec, names[j]) == Some(x)
  {
    CollectedMembers(RequiredChecker(rec), names, x);
  }

  /** No reasons exactly when every required name holds a value that is not None and not a blank string. */
  lemma RequiredReasonsEmpty(rec: Record, names: seq<string>)
    ensures RequiredReasonsOf(rec, names) == [] <==> forall j :: 0 <= j < |names| ==> RequiredCheck(rec, names[j]) == None
  {
    CollectedEmpty(RequiredChecker(rec), names);
  }

  /** Each message names a field that is in the list and in the matching state. */
  lemma RequiredMessageIff(rec: Record, names: seq<string>, n: string)
    ensures MissingMessage(n) in RequiredReasonsOf(rec, names) <==> n in names && n !in rec
    ensures NoneMessage(n) in RequiredReasonsOf(rec, names) <==> n in names && n in rec && rec[n] == VNull
    ensures EmptyMessage(n) in RequiredReasonsOf(rec, names) <==>
      n in names && n in rec && rec[n].VStr? && Strip(rec[n].s) == []
  {
    forall m ensures
      && (RequiredCheck(rec, m) == Some(MissingMessage(n)) <==> m == n && n !in rec)
      && (RequiredCheck(rec, m) == Some(NoneMessage(n)) <==> m == n && n in rec && rec[n] == VNull)
      && (RequiredCheck(rec, m) == Some(EmptyMessage(n)) <==> m == n && n in rec && rec[n].VStr? && Strip(rec[n].s) == [])
    {
      RequiredMessagesDistinct(m, n);
      RequiredMessagesDistinct(n, m);
    }
    RequiredReasonsMembers(rec, names, MissingMessage(n));
    RequiredReasonsMembers(rec, names, NoneMessage(n));
    RequiredReasonsMembers(rec, names, EmptyMessage(n));
  }

  // ---------------------------------------------------------------------------
  // validate_content_length
  // ---------------------------------------------------------------------------

  /** `min_lengths or DEFAULT_MIN_LENGTHS` */
  function EffectiveMins(mins: seq<(string, int)>): seq<(string, int)> {
    if mins == [] then DEFAULT_MIN_LENGTHS else mins
  }

  /** len(str(value).strip()) for a field that is present. */
  function FieldLength(host: Host, rec: Record, n: string): nat
    requires n in rec
  {
    |Strip(Str(host, rec[n]))|
  }

  /** The reason one (field, minimum) pair contributes, if any. */
  function LengthCheck(host: Host, rec: Record, n: string, minimum: int): Option<string> {
    if n !in rec || rec[n] == VNull then None
    else if FieldLength(host, rec, n) < minimum then Some(LengthMessage(n, FieldLength(host, rec, n), minimum))
    else None
  }

  function LengthChecker(host: Host, rec: Record): ((string, int)) -> Option<string> {
    (p: (string, int)) => LengthCheck(host, rec, p.0, p.1)
  }

  /** The reasons for the (field, minimum) pairs, in the order of the pairs. */
  function LengthReasonsOf(host: Host, rec: Record, mins: seq<(string, int)>): (r: seq<string>)
    ensures |r| <= |mins|
  {
    Collected(LengthChecker(host, rec), mins)
  }

  method ValidateContentLength(host: Host, rec: Record, minLengths: seq<(string, int)>) returns (reasons: seq<string>)
    ensures reasons == LengthReasonsOf(host, rec, EffectiveMins(minLengths))
  {
    var mins := if minLengths == [] then DEFAULT_MIN_LENGTHS else minLengths;
    reasons := [];
    for i := 0 to |mins|
      invariant reasons == LengthReasonsOf(host, rec, mins[..i])
    {
      var (n, minimum) := mins[i];
      assert mins[..i + 1][..i] == mins[..i];
      if n !in rec {
        continue;
      }
      var value := rec[n];
      if value == VNull {
        continue;
      }
      var length := |Strip(Str(host, value))|;
      if length < minimum {
        reasons := reasons + [LengthMessage(n, length, minimum)];
      }
    }
    assert mins[..|mins|] == mins;
  }

  /** Checking a + b reports a's reasons, then b's. */
  lemma LengthReasonsAppend(host: Host, rec: Record, a: seq<(string, int)>, b: seq<(string, int)>)
    ensures LengthReasonsOf(host, rec, a + b) == LengthReasonsOf(host, rec, a) + LengthReasonsOf(host, rec, b)
  {
    CollectedAppend(LengthChecker(host, rec), a, b);
  }

  /** Field n is present, not None, and its stripped text is shorter than the minimum. */
  predicate TooShort(host: Host, rec: Record, n: string, minimum: int) {
    HasValue(rec, n) && FieldLength(host, rec, n) < minimum
  }

  /** Pair p of min_lengths yields reason x. */
  predicate Reports(host: Host, rec: Record, p: (string, int), x: string) {
    TooShort(host, rec, p.0, p.1) && x == LengthMessage(p.0, FieldLength(host, rec, p.0), p.1)
  }

  /** The reasons are those of the individual pairs. */
  lemma LengthReasonsChecks(host: Host, rec: Record, mins: seq<(string, int)>, x: string)
    ensures x in LengthReasonsOf(host, rec, mins) <==>
      exists j :: 0 <= j < |mins| && LengthCheck(host, rec, mins[j].0, mins[j].1) == Some(x)
  {
    CollectedMembers(LengthChecker(host, rec), mins, x);
  }

  /**
   * A length reason is reported exactly for a pair whose field is present, not None,
   * and whose stripped text is shorter than the minimum; absent and None fields are skipped.
   */
  lemma LengthReasonsMembers(host: Host, rec: Record, mins: seq<(string, int)>, x: string)
    ensures x in LengthReasonsOf(host, rec, mins) <==> exists j :: 0 <= j < |mins| && Reports(host, rec, mins[j], x)
  {
    LengthReasonsChecks(host, rec, mins, x);
    forall j | 0 <= j < |mins|
      ensures LengthCheck(host, rec, mins[j].0, mins[j].1) == Some(x) <==> Reports(host, rec, mins[j], x)
    {
    }
  }

  // ---------------------------------------------------------------------------
  // validate_record
  // ---------------------------------------------------------------------------

  /** The URL-format reason: only for a url that is present, not None, not blank, and rejected. */
  function UrlCheck(host: Host, rec: Record): Option<string> {
    if HasValue(rec, "url") then
      var u := Strip(Str(host, rec["url"]));
      if u != [] && !ValidUrl(host, u) then Some(UrlMessage(u)) else None
    else None
  }

  /** Every reason validate_record reports, in its order. */
  function RecordReasons(host: Host, rec: Record, required: seq<string>, mins: seq<(string, int)>): seq<string> {
    RequiredReasonsOf(rec, EffectiveRequired(required)) + OptList(UrlCheck(host, rec)) +
    LengthReasonsOf(host, rec, EffectiveMins(mins))
  }

  predicate IsValidRecord(host: Host, rec: Record, required: seq<string>, mins: seq<(string, int)>) {
    RecordReasons(host, rec, required, mins) == []
  }

  /** A missing, None or blank url gets the required-field reason and no URL-format reason. */
  lemma BlankUrlOnlyRequired(host: Host, rec: Record)
    requires "url" !in rec || rec["url"] == VNull || (rec["url"].VStr? && AllSpace(rec["url"].s))
    ensures UrlCheck(host, rec) == None
    ensures RequiredCheck(rec, "url").Some?
    ensures RequiredCheck(rec, "url").value in RecordReasons(host, rec, [], [])
  {
    if "url" in rec && rec["url"].VStr? {
      StripEmptyIffAllSpace(rec["url"].s);
    }
    RequiredReasonsMembers(rec, REQUIRED_FIELDS, RequiredCheck(rec, "url").value);
    assert REQUIRED_FIELDS[2] == "url";
  }

  /** The URL-format reason is present exactly for a present, non-blank url that validate_url rejects. */
  lemma UrlCheckIff(host: Host, rec: Record)
    ensures UrlCheck(host, rec).Some? <==>
      HasValue(rec, "url") && !AllSpace(Str(host, rec["url"])) && !ValidUrl(host, Str(host, rec["url"]))
    ensures UrlCheck(host, rec).Some? ==>
      UrlCheck(host, rec).value == UrlMessage(Strip(Str(host, rec["url"])))
  {
    if HasValue(rec, "url") {
      var s := Str(host, rec["url"]);
      StripEmptyIffAllSpace(s);
      StripIdempotent(s);
    }
  }

  /** strip() of a stripped string changes nothing, so validate_url sees the same URL. */
  lemma StripIdempotent(s: string)
    ensures Strip(Strip(s)) == Strip(s)
  {
    StripNoOuterSpace(Strip(s));
  }

  /**
   * A record is valid exactly when every required name holds a usable value, the
   * url (if any) passes, and no field is shorter than its minimum.
   */
  lemma RecordValidIff(host: Host, rec: Record, required: seq<string>, mins: seq<(string, int)>)
    ensures IsValidRecord(host, rec, required, mins) <==>
      && (forall n :: n in EffectiveRequired(required) ==> RequiredCheck(rec, n) == None)
      && UrlCheck(host, rec) == None
      && (forall p :: p in EffectiveMins(mins) ==> !TooShort(host, rec, p.0, p.1))
  {
    var names, ms := EffectiveRequired(required), EffectiveMins(mins);
    RequiredReasonsEmpty(rec, names);
    var lengths := LengthReasonsOf(host, rec, ms);
    if lengths != [] {
      LengthReasonsMembers(host, rec, ms, lengths[0]);
    }
    forall p | p in ms && TooShort(host, rec, p.0, p.1) ensures lengths != [] {
      var x := LengthMessage(p.0, FieldLength(host, rec, p.0), p.1);
      LengthReasonsMembers(host, rec, ms, x);
    }
  }

  // ---------------------------------------------------------------------------
  // ValidationResult
  // ---------------------------------------------------------------------------

  function Status(valid: bool): string {
    if valid then "Valid" else "Invalid"
  }

  /** The reasons joined with the separator. */
  function Join(xs: seq<string>, sep: string): string {
    if xs == [] then ""
    else if |xs| == 1 then xs[0]
    else Join(xs[..|xs| - 1], sep) + sep + xs[|xs| - 1]
  }

  /** ValidationResult.__str__ */
  function StatusLine(valid: bool, reasons: seq<string>): (r: string)
    ensures Status(valid) <= r
    ensures reasons == [] ==> r == Status(valid)
    ensures reasons != [] ==> |r| >= |Status(valid)| + 2 && r[|Status(valid)|..|Status(valid)| + 2] == ": "
  {
    if reasons != [] then Status(valid) + ": " + Join(reasons, "; ") else Status(valid)
  }

  /** The line starts with V exactly for a valid result, and is the bare status exactly when there are no reasons. */
  lemma StatusLineShape(valid: bool, reasons: seq<string>)
    ensures StatusLine(valid, reasons)[0] == 'V' <==> valid
    ensures Status(valid) <= StatusLine(valid, reasons)
    ensures StatusLine(valid, reasons) == Status(valid) <==> reasons == []
  {
  }

  /** Adding a reason extends the line: by ": reason" for the first, by "; reason" after that. */
  lemma StatusLineAppend(valid: bool, reasons: seq<string>, x: string)
    ensures StatusLine(valid, reasons + [x]) ==
      StatusLine(valid, reasons) + (if reasons == [] then ": " else "; ") + x
  {
    var rs := reasons + [x];
    assert rs[..|rs| - 1] == reasons;
    if reasons == [] {
      assert rs == [x];
    }
  }

  /** The joined text is as long as the reasons together plus one separator between each pair. */
  lemma {:induction false} JoinLength(xs: seq<string>, sep: string)
    ensures xs != [] ==> |Join(xs, sep)| == SumLengths(xs) + (|xs| - 1) * |sep|
    decreases |xs|
  {
    if |xs| > 1 {
      JoinLength(xs[..|xs| - 1], sep);
      SumLengthsSnoc(xs[..|xs| - 1], xs[|xs| - 1]);
      assert xs[..|xs| - 1] + [xs[|xs| - 1]] == xs;
    } else if |xs| == 1 {
      assert SumLengths(xs) == |xs[0]| + SumLengths(xs[1..]);
    }
  }

  function SumLengths(xs: seq<string>): nat {
    if xs == [] then 0 else |xs[0]| + SumLengths(xs[1..])
  }

  lemma {:induction false} SumLengthsSnoc(xs: seq<string>, x: string)
    ensures SumLengths(xs + [x]) == SumLengths(xs) + |x|
    decreases |xs|
  {
    if xs != [] {
      assert (xs + [x])[1..] == xs[1..] + [x];
      SumLengthsSnoc(xs[1..], x);
    } else {
      assert [x][1..] == [];
    }
  }

  /** The result of validating one record. */
  class ValidationResult {
    var isValid: bool
    var reasons: seq<string>

    constructor (isValid: bool, reasons: seq<string>)
      ensures this.isValid == isValid && this.reasons == reasons
    {
      this.isValid := isValid;
      this.reasons := reasons;
    }

    /** Appends a reason; isValid is left as it was. */
    method AddReason(reason: string)
      modifies this
      ensures reasons == old(reasons) + [reason]
      ensures isValid == old(isValid)
      ensures ToString() == old(ToString()) + (if old(reasons) == [] then ": " else "; ") + reason
    {
      StatusLineAppend(isValid, reasons, reason);
      reasons := reasons + [reason];
    }

    function ToString(): (r: string)
      reads this
      ensures |r| >= 5 && (r[0] == 'V' <==> isValid)
      ensures r == Status(isValid) <==> reasons == []
    {
      StatusLineShape(isValid, reasons);
      StatusLine(isValid, reasons)
    }
  }

  // ---------------------------------------------------------------------------
  // validate_record, validate_records, get_invalid_records
  // ---------------------------------------------------------------------------

  method ValidateRecord(host: Host, rec: Record, requiredFields: seq<string>, minLengths: seq<(string, int)>)
    returns (result: ValidationResult)
    ensures fresh(result)
    ensures result.reasons == RecordReasons(host, rec, requiredFields, minLengths)
    ensures result.isValid <==> result.reasons == []
  {
    var required := if requiredFields == [] then REQUIRED_FIELDS else requiredFields;
    var mins := if minLengths == [] then DEFAULT_MIN_LENGTHS else minLengths;
    var reasons := ValidateRequiredFields(rec, required);
    ghost var afterRequired := reasons;
    if "url" in rec && rec["url"] != VNull {
      var urlVal := Strip(Str(host, rec["url"]));
      if urlVal != [] && !ValidUrl(host, urlVal) {
        reasons := reasons + [UrlMessage(urlVal)];
      }
    }
    assert reasons == afterRequired + OptList(UrlCheck(host, rec));
    var lengths := ValidateContentLength(host, rec, mins);
    reasons := reasons + lengths;
    result := new ValidationResult(|reasons| == 0, reasons);
  }

  /** validate_record with its settings fixed, as a function of the record. */
  function Checker(host: Host, required: seq<string>, mins: seq<(string, int)>): Record -> seq<string> {
    rec => RecordReasons(host, rec, required, mins)
  }

  /** validate_records: one result per record, in input order. */
  method ValidateRecords(host: Host, records: seq<Record>, requiredFields: seq<string>, minLengths: seq<(string, int)>)
    returns (results: seq<ValidationResult>)
    ensures |results| == |records|
    ensures forall i :: 0 <= i < |records| ==>
      && results[i].reasons == Checker(host, requiredFields, minLengths)(records[i])
      && (results[i].isValid <==> results[i].reasons == [])
  {
    results := [];
    for i := 0 to |records|
      invariant |results| == i
      invariant forall k :: 0 <= k < i ==> results[k].reasons == RecordReasons(host, records[k], requiredFields, minLengths)
      invariant forall k :: 0 <= k < i ==> (results[k].isValid <==> results[k].reasons == [])
    {
      ghost var before := results;
      var r := ValidateRecord(host, records[i], requiredFields, minLengths);
      results := results + [r];
      forall k | 0 <= k < i + 1
        ensures results[k].reasons == RecordReasons(host, records[k], requiredFields, minLengths)
        ensures results[k].isValid <==> results[k].reasons == []
      {
        if k < i {
          assert results[k] == before[k];
        }
      }
    }
  }

  /** The positions below n whose flag says invalid, ascending. */
  function InvalidIndices(valid: seq<bool>, n: nat): seq<nat>
    requires n <= |valid|
  {
    if n == 0 then [] else InvalidIndices(valid, n - 1) + (if valid[n - 1] then [] else [n - 1])
  }

  /** The invalid positions ascend strictly and are exactly the positions flagged invalid. */
  lemma {:induction false} InvalidIndicesSpec(valid: seq<bool>, n: nat)
    requires n <= |valid|
    ensures var ix := InvalidIndices(valid, n);
      && (forall a, b :: 0 <= a < b < |ix| ==> ix[a] < ix[b])
      && (forall i :: i in ix <==> 0 <= i < n && !valid[i])
    decreases n
  {
    if n > 0 {
      InvalidIndicesSpec(valid, n - 1);
      var ix := InvalidIndices(valid, n - 1);
      assert forall a :: 0 <= a < |ix| ==> ix[a] < n - 1 by {
        forall a | 0 <= a < |ix| ensures ix[a] < n - 1 {
          assert ix[a] in ix;
        }
      }
    }
  }

  /** Whether each record passes validate_record with the given settings. */
  function Validity(host: Host, records: seq<Record>, required: seq<string>, mins: seq<(string, int)>): (v: seq<bool>)
    ensures |v| == |records|
    ensures forall i :: 0 <= i < |records| ==> v[i] == (Checker(host, required, mins)(records[i]) == [])
  {
    seq(|records|, i requires 0 <= i < |records| => Checker(host, required, mins)(records[i]) == [])
  }

  /** The is_valid flags of the results. */
  function Flags(results: seq<ValidationResult>): (v: seq<bool>)
    reads results
    ensures |v| == |results| && forall k :: 0 <= k < |results| ==> v[k] == results[k].isValid
  {
    seq(|results|, k requires 0 <= k < |results| reads results => results[k].isValid)
  }

  /** The loop of get_invalid_records: keeps (index, record, result) for each invalid result, in order. */
  method CollectInvalid(records: seq<Record>, results: seq<ValidationResult>)
    returns (invalid: seq<(nat, Record, ValidationResult)>)
    requires |results| == |records|
    ensures var ix := InvalidIndices(Flags(results), |records|);
      && |invalid| == |ix|
      && forall k :: 0 <= k < |invalid| ==>
        invalid[k].0 == ix[k] < |records| && invalid[k].1 == records[ix[k]] && invalid[k].2 == results[ix[k]]
  {
    ghost var valid := Flags(results);
    invalid := [];
    for i := 0 to |records|
      invariant |invalid| == |InvalidIndices(valid, i)|
      invariant forall k :: 0 <= k < |invalid| ==>
        && invalid[k].0 == InvalidIndices(valid, i)[k]
        && invalid[k].0 < i
        && invalid[k].1 == records[invalid[k].0]
        && invalid[k].2 == results[invalid[k].0]
    {
      if !results[i].isValid {
        invalid := invalid + [(i, records[i], results[i])];
      }
    }
  }

  /**
   * get_invalid_records: for each invalid record, in ascending index order, its index,
   * the record itself and its result.
   */
  method GetInvalidRecords(host: Host, records: seq<Record>, requiredFields: seq<string>, minLengths: seq<(string, int)>)
    returns (invalid: seq<(nat, Record, ValidationResult)>)
    ensures var ix := InvalidIndices(Validity(host, records, requiredFields, minLengths), |records|);
      && |invalid| == |ix|
      && forall k :: 0 <= k < |invalid| ==>
        && invalid[k].0 == ix[k]
        && invalid[k].0 < |records|
        && invalid[k].1 == records[invalid[k].0]
        && invalid[k].2.reasons == Checker(host, requiredFields, minLengths)(records[invalid[k].0])
        && !invalid[k].2.isValid
  {
    var results := ValidateRecords(host, records, requiredFields, minLengths);
    invalid := CollectInvalid(records, results);
    ghost var ix := InvalidIndices(Flags(results), |records|);
    assert Flags(results) == Validity(host, records, requiredFields, minLengths);
    forall k | 0 <= k < |invalid|
      ensures invalid[k].2.reasons == Checker(host, requiredFields, minLengths)(records[invalid[k].0])
      ensures !invalid[k].2.isValid
    {
      var j := ix[k];
      assert invalid[k].2 == results[j];
      InvalidIndicesSpec(Flags(results), |records|);
      assert j in ix;
    }
  }

  // ---------------------------------------------------------------------------
  // A worked record
  // ---------------------------------------------------------------------------

  /** "http://a.com" passes once urlparse reports scheme http and netloc a.com. */
  lemma HttpAComValid(host: Host, u: string)
    requires u == "http://a.com"
    requires host.urlParse(u) == Some(UrlParts("http", "a.com"))
    ensures ValidUrl(host, u) && Strip(u) == u
  {
    var scheme, l, t := "http://", "a", "com";
    assert IsUrlScheme(scheme) && IsLabel(l) && IsTopLabel(t) && IsUrlTail("");
    assert u == scheme + (l + "." + t) + "" + "";
    ValidUrlOfLabels(host, u, scheme, l, t, "", UrlParts("http", "a.com"));
    LabelsUrlEdges(u, scheme, l, t, "");
    StripNoOuterSpace(u);
  }

  lemma RequiredReasonsSingle(rec: Record, n: string)
    ensures RequiredReasonsOf(rec, [n]) == OptList(RequiredCheck(rec, n))
  {
    assert [n][..0] == [];
  }

  lemma LengthReasonsSingle(host: Host, rec: Record, n: string, m: int)
    ensures LengthReasonsOf(host, rec, [(n, m)]) == OptList(LengthCheck(host, rec, n, m))
  {
    assert [(n, m)][..0] == [];
  }

  lemma RequiredReasonsThree(rec: Record, a: string, b: string, c: string)
    ensures RequiredReasonsOf(rec, [a, b, c]) ==
      OptList(RequiredCheck(rec, a)) + OptList(RequiredCheck(rec, b)) + OptList(RequiredCheck(rec, c))
  {
    RequiredReasonsSingle(rec, a);
    RequiredReasonsSingle(rec, b);
    RequiredReasonsSingle(rec, c);
    RequiredReasonsAppend(rec, [a], [b]);
    RequiredReasonsAppend(rec, [a, b], [c]);
    assert [a] + [b] == [a, b] && [a, b] + [c] == [a, b, c];
  }

  /** A name holding a blank string is reported as empty. */
  lemma BlankReason(rec: Record, n: string)
    requires n in rec && rec[n].VStr? && Strip(rec[n].s) == []
    ensures OptList(RequiredCheck(rec, n)) == [EmptyMessage(n)]
  {
  }

  /** A name holding a non-blank string is not reported. */
  lemma NonBlankNoReason(rec: Record, n: string)
    requires n in rec && rec[n].VStr? && Strip(rec[n].s) != []
    ensures OptList(RequiredCheck(rec, n)) == []
  {
  }

  /** Three names of which only the first holds a blank string give one reason, for the first. */
  lemma OnlyFirstBlank(rec: Record, a: string, b: string, c: string)
    requires a in rec && rec[a].VStr? && Strip(rec[a].s) == []
    requires b in rec && rec[b].VStr? && Strip(rec[b].s) != []
    requires c in rec && rec[c].VStr? && Strip(rec[c].s) != []
    ensures OptList(RequiredCheck(rec, a)) + OptList(RequiredCheck(rec, b)) + OptList(RequiredCheck(rec, c)) ==
      [EmptyMessage(a)]
  {
    BlankReason(rec, a);
    NonBlankNoReason(rec, b);
    NonBlankNoReason(rec, c);
    var m := EmptyMessage(a);
    assert [m] + [] + [] == [m];
  }

  /** Two pairs of which only the first field is too short give one reason, for the first. */
  lemma OnlyFirstShort(host: Host, rec: Record, a: string, m: int, b: string, k: int)
    requires a in rec && rec[a] != VNull && FieldLength(host, rec, a) < m
    requires b in rec && rec[b] != VNull && FieldLength(host, rec, b) >= k
    ensures LengthReasonsOf(host, rec, [(a, m), (b, k)]) == [LengthMessage(a, FieldLength(host, rec, a), m)]
  {
    LengthReasonsSingle(host, rec, a, m);
    LengthReasonsSingle(host, rec, b, k);
    LengthReasonsAppend(host, rec, [(a, m)], [(b, k)]);
    assert [(a, m)] + [(b, k)] == [(a, m), (b, k)];
  }

  /** Settings that are given explicitly are used as they are. */
  lemma ExplicitSettings(host: Host, rec: Record, names: seq<string>, mins: seq<(string, int)>)
    requires names != [] && mins != []
    ensures RecordReasons(host, rec, names, mins) ==
      RequiredReasonsOf(rec, names) + OptList(UrlCheck(host, rec)) + LengthReasonsOf(host, rec, mins)
  {
  }

  /** A url that is present, already stripped and accepted adds no reason. */
  lemma AcceptedUrlNoReason(host: Host, rec: Record)
    requires "url" in rec && rec["url"].VStr? && Strip(rec["url"].s) == rec["url"].s && ValidUrl(host, rec["url"].s)
    ensures UrlCheck(host, rec) == None
  {
  }

  /**
   * Required names a, b, c where only a is blank, minimum lengths for a and b where b is long
   * enough, and an accepted url: a is reported as empty and as too short, and nothing else.
   */
  lemma FirstBlankReasons(host: Host, rec: Record, a: string, b: string, c: string, m: int, k: int)
    requires a in rec && rec[a] == VStr("") && m >= 1
    requires b in rec && rec[b].VStr? && Strip(rec[b].s) != [] && FieldLength(host, rec, b) >= k
    requires c in rec && rec[c].VStr? && Strip(rec[c].s) != []
    requires UrlCheck(host, rec) == None
    ensures RecordReasons(host, rec, [a, b, c], [(a, m), (b, k)]) == [EmptyMessage(a), LengthMessage(a, 0, m)]
  {
    var names, mins := [a, b, c], [(a, m), (b, k)];
    ExplicitSettings(host, rec, names, mins);
    RequiredReasonsThree(rec, a, b, c);
    OnlyFirstBlank(rec, a, b, c);
    assert RequiredReasonsOf(rec, names) == [EmptyMessage(a)];
    OnlyFirstShort(host, rec, a, m, b, k);
    assert LengthReasonsOf(host, rec, mins) == [LengthMessage(a, 0, m)];
    ConcatThree(RequiredReasonsOf(rec, names), OptList(UrlCheck(host, rec)), LengthReasonsOf(host, rec, mins),
      EmptyMessage(a), LengthMessage(a, 0, m));
  }

  lemma ConcatThree(x: seq<string>, y: seq<string>, z: seq<string>, p: string, q: string)
    requires x == [p] && y == [] && z == [q]
    ensures x + y + z == [p, q]
  {
  }

  /** With the default settings, a blank title, a non-blank content and an accepted url give exactly two reasons. */
  lemma BlankTitleReasons(host: Host, rec: Record)
    requires "title" in rec && rec["title"] == VStr("")
    requires "content" in rec && rec["content"].VStr? && Strip(rec["content"].s) != []
    requires "url" in rec && rec["url"].VStr? && Strip(rec["url"].s) == rec["url"].s != [] && ValidUrl(host, rec["url"].s)
    ensures RecordReasons(host, rec, [], []) == [EmptyMessage("title"), LengthMessage("title", 0, 1)]
  {
    AcceptedUrlNoReason(host, rec);
    FirstBlankReasons(host, rec, "title", "content", "url", 1, 1);
  }

  /**
   * {title: "", content: "x", url: "http://a.com"} is reported for its empty title,
   * once as a required field and once for its length, and for nothing else.
   */
  lemma BlankTitleExample(host: Host, rec: Record, u: string)
    requires u == "http://a.com"
    requires rec == map["title" := VStr(""), "content" := VStr("x"), "url" := VStr(u)]
    requires host.urlParse(u) == Some(UrlParts("http", "a.com"))
    ensures RecordReasons(host, rec, [], []) == [EmptyMessage("title"), LengthMessage("title", 0, 1)]
  {
    HttpAComValid(host, u);
    StripNoOuterSpace("x");
    BlankTitleReasons(host, rec);
  }

  /** The two reasons of the worked record, spelled out. */
  lemma TitleMessages(n: string)
    requires n == "title"
    ensures EmptyMessage(n) == "Required field 'title' is empty"
    ensures LengthMessage(n, 0, 1) == "Field 'title' length 0 is below minimum 1"
  {
    EmptyTitleMessage(n);
    ShortTitleMessage(n);
  }

  lemma EmptyTitleMessage(n: string)
    requires n == "title"
    ensures EmptyMessage(n) == "Required field 'title' is empty"
  {
  }

  lemma ShortTitleMessage(n: string)
    requires n == "title"
    ensures LengthMessage(n, 0, 1) == "Field 'title' length 0 is below minimum 1"
  {
    SmallNumerals();
    var head, tail := "Field '" + n + "' length ", " is below minimum ";
    assert LengthMessage(n, 0, 1) == (head + "0") + (tail + "1");
    assert head + "0" == "Field 'title' length 0";
    assert tail + "1" == " is below minimum 1";
    assert "Field 'title' length 0" + " is below minimum 1" == "Field 'title' length 0 is below minimum 1";
  }

  lemma SmallNumerals()
    ensures NatToString(0) == "0" && IntToString(1) == "1"
  {
    assert NatToString(1) == "1";
  }
}
