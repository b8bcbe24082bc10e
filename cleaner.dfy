/**
 * The text normaliser of cleaner.py: HTML artefact removal, encoding
 * normalisation, special-character handling, whitespace collapsing, and
 * clean_text, which runs them in a fixed order.
 */
module Cleaner {
  import opened Wrappers
  import opened Text
  import opened Values

  /** Why decoding a numeric character reference fails. */
  datatype CleanError =
    | CodePointOutOfRange(code: nat)  // chr() raises above U+10FFFF
    | LoneSurrogate(code: nat)        // a surrogate code point, which a Dafny char cannot hold
    | TooManyDigits(digits: nat)      // int() refuses a decimal string longer than MAX_STR_DIGITS

  // ---------------------------------------------------------------------------
  // HTML artefacts
  // ---------------------------------------------------------------------------

  /** The named entities, in the dict's insertion order. */
  const ENTITY_TABLE: Table := [
    ("&nbsp;", " "), ("&amp;", "&"), ("&lt;", "<"), ("&gt;", ">"),
    ("&quot;", "\""), ("&#39;", "'"), ("&apos;", "'")
  ]

  predicate IsHexDigit(c: char) {
    IsDigit(c) || 'a' <= c <= 'f' || 'A' <= c <= 'F'
  }

  function HexDigitValue(c: char): nat
    requires IsHexDigit(c)
  {
    if IsDigit(c) then DigitValue(c)
    else if 'a' <= c <= 'f' then c as int - 'a' as int + 10
    else c as int - 'A' as int + 10
  }

  function HexValue(s: string): nat
    requires forall i :: 0 <= i < |s| ==> IsHexDigit(s[i])
  {
    if s == [] then 0 else HexValue(s[..|s| - 1]) * 16 + HexDigitValue(s[|s| - 1])
  }

  /**
   * The match of `&#(\d+);` (hex = false) or `&#x([0-9a-fA-F]+);` (hex = true)
   * at the start of s, as the code point and the length of the match.
   * The digit run is greedy and must be followed by ';', so at most one match starts here.
   */
  function ReferenceAt(s: string, hex: bool): (m: Option<(nat, nat)>)
    ensures m.Some? ==> 4 <= m.value.1 <= |s| && s[0] == '&' && s[m.value.1 - 1] == ';'
  {
    var open := if hex then "&#x" else "&#";
    var isDigit := if hex then IsHexDigit else IsDigit;
    if |s| < |open| || s[..|open|] != open then None
    else
      var n := RunLength(s[|open|..], isDigit);
      var end := |open| + n;
      if n == 0 || end >= |s| || s[end] != ';' then None
      else
        var digits := s[|open|..end];
        assert forall i :: 0 <= i < |digits| ==> digits[i] == s[|open|..][i];
        Some((if hex then HexValue(digits) else DigitsValue(digits), end + 1))
  }

  /** chr(n). */
  function CharOf(n: nat): (r: Result<char, CleanError>)
    ensures r.Ok? ==> r.value as int == n
    ensures r.Err? <==> n > 0x10FFFF || 0xD800 <= n <= 0xDFFF
  {
    if n > 0x10FFFF then Err(CodePointOutOfRange(n))
    else if 0xD800 <= n <= 0xDFFF then Err(LoneSurrogate(n))
    else Ok(n as char)
  }

  /** int()'s default limit on the length of a decimal string (sys.int_info.default_max_str_digits). */
  const MAX_STR_DIGITS: nat := 4300

  /**
   * `chr(int(digits))` or `chr(int(digits, 16))` for a match whose digit run has the given length:
   * int() raises on a decimal run of more than MAX_STR_DIGITS digits, leading zeros included,
   * before chr() sees the value; base 16, a power of two, has no limit.
   */
  function ReferenceChar(code: nat, digits: nat, hex: bool): (r: Result<char, CleanError>)
    ensures r.Err? <==> (!hex && digits > MAX_STR_DIGITS) || code > 0x10FFFF || 0xD800 <= code <= 0xDFFF
    ensures r.Ok? ==> r.value as int == code
    ensures r.Err? && r.error.TooManyDigits? ==> !hex && r.error.digits == digits
  {
    if !hex && digits > MAX_STR_DIGITS then Err(TooManyDigits(digits)) else CharOf(code)
  }

  /** The length of the digit run of a match of the given length: it lies between "&#" or "&#x" and ';'. */
  function DigitCount(len: nat, hex: bool): nat
    requires len >= 4
  {
    if hex then len - 4 else len - 3
  }

  /**
   * `re.sub(pattern, lambda m: chr(...), s)` for the decimal (hex = false) or the
   * hexadecimal (hex = true) reference pattern: matches are replaced left to right,
   * the replacement is not rescanned, and the first int() or chr() that raises aborts the call.
   */
  function DecodeReferences(s: string, hex: bool): (r: Result<string, CleanError>)
    ensures r.Err? && r.error.TooManyDigits? ==> !hex && r.error.digits > MAX_STR_DIGITS
    ensures r.Err? && !r.error.TooManyDigits? ==> r.error.code > 0x10FFFF || 0xD800 <= r.error.code <= 0xDFFF
    decreases |s|
  {
    if s == [] then Ok([])
    else match ReferenceAt(s, hex)
      case Some((code, len)) =>
        var c :- ReferenceChar(code, DigitCount(len, hex), hex);
        var rest :- DecodeReferences(s[len..], hex);
        Ok([c] + rest)
      case None =>
        var rest :- DecodeReferences(s[1..], hex);
        Ok([s[0]] + rest)
  }

  /** Decoding never lengthens the text, and text without '&' is left alone. */
  lemma {:induction false} DecodeReferencesShape(s: string, hex: bool)
    ensures DecodeReferences(s, hex).Ok? ==> |DecodeReferences(s, hex).value| <= |s|
    ensures '&' !in s ==> DecodeReferences(s, hex) == Ok(s)
    decreases |s|
  {
    if s != [] {
      match ReferenceAt(s, hex)
      case Some((code, len)) =>
        DecodeReferencesShape(s[len..], hex);
      case None =>
        assert '&' !in s ==> '&' !in s[1..];
        assert [s[0]] + s[1..] == s;
        DecodeReferencesShape(s[1..], hex);
    }
  }

  /** One step of re.sub's left-to-right scan: a character kept as it is, or a matched reference. */
  datatype Piece = Literal(c: char) | Reference(code: nat, digits: nat, hex: bool)

  /** The scan alone, before any int() or chr(): where each match starts, its digit count and its code point. */
  function Scan(s: string, hex: bool): seq<Piece>
    decreases |s|
  {
    if s == [] then []
    else match ReferenceAt(s, hex)
      case Some((code, len)) => [Reference(code, DigitCount(len, hex), hex)] + Scan(s[len..], hex)
      case None => [Literal(s[0])] + Scan(s[1..], hex)
  }

  /** A piece int() and chr() can turn into a character. */
  predicate Decodable(p: Piece) {
    p.Literal? || ReferenceChar(p.code, p.digits, p.hex).Ok?
  }

  function PieceChar(p: Piece): char
    requires Decodable(p)
  {
    if p.Literal? then p.c else ReferenceChar(p.code, p.digits, p.hex).value
  }

  predicate AllDecodable(p: seq<Piece>) {
    forall i :: 0 <= i < |p| ==> Decodable(p[i])
  }

  /** The text a scan stands for once every piece is decoded. */
  function Decoded(p: seq<Piece>): string
    requires AllDecodable(p)
  {
    seq(|p|, i requires 0 <= i < |p| => PieceChar(p[i]))
  }

  /** Piece i is the first that int() or chr() rejects, with error e. */
  predicate FailsFirstAt(p: seq<Piece>, i: nat, e: CleanError) {
    i < |p| && p[i].Reference? && ReferenceChar(p[i].code, p[i].digits, p[i].hex) == Err(e) &&
    forall j :: 0 <= j < i ==> Decodable(p[j])
  }

  /**
   * Decoding succeeds exactly when every scanned reference has a digit run int() accepts and
   * names a code point chr() accepts, and then each piece becomes one character, a reference
   * its code point. Otherwise the error is that of the first reference rejected.
   */
  lemma DecodeReferencesScan(s: string, hex: bool)
    ensures DecodeReferences(s, hex).Ok? <==> AllDecodable(Scan(s, hex))
    ensures DecodeReferences(s, hex).Ok? ==> DecodeReferences(s, hex).value == Decoded(Scan(s, hex))
    ensures DecodeReferences(s, hex).Err? ==> exists i: nat :: FailsFirstAt(Scan(s, hex), i, DecodeReferences(s, hex).error)
  {
    DecodedScan(s, hex);
    FirstFailureScan(s, hex);
    if DecodeReferences(s, hex).Err? {
      var i: nat :| FailsFirstAt(Scan(s, hex), i, DecodeReferences(s, hex).error);
      assert !Decodable(Scan(s, hex)[i]);
    }
  }

  lemma {:induction false} DecodedScan(s: string, hex: bool)
    ensures DecodeReferences(s, hex).Ok? ==>
      AllDecodable(Scan(s, hex)) && DecodeReferences(s, hex).value == Decoded(Scan(s, hex))
    decreases |s|
  {
    if s != [] && DecodeReferences(s, hex).Ok? {
      match ReferenceAt(s, hex)
      case Some((code, len)) =>
        DecodedScan(s[len..], hex);
        DecodedCons(Reference(code, DigitCount(len, hex), hex), Scan(s[len..], hex));
      case None =>
        DecodedScan(s[1..], hex);
        DecodedCons(Literal(s[0]), Scan(s[1..], hex));
    }
  }

  lemma {:induction false} FirstFailureScan(s: string, hex: bool)
    ensures DecodeReferences(s, hex).Err? ==> exists i: nat :: FailsFirstAt(Scan(s, hex), i, DecodeReferences(s, hex).error)
    decreases |s|
  {
    if s != [] && DecodeReferences(s, hex).Err? {
      var e := DecodeReferences(s, hex).error;
      match ReferenceAt(s, hex)
      case Some((code, len)) =>
        var p := Scan(s[len..], hex);
        var x := Reference(code, DigitCount(len, hex), hex);
        assert Scan(s, hex) == [x] + p;
        if ReferenceChar(code, DigitCount(len, hex), hex).Err? {
          assert FailsFirstAt(Scan(s, hex), 0, e);
        } else {
          assert DecodeReferences(s[len..], hex) == Err(e);
          FirstFailureScan(s[len..], hex);
          var i: nat :| FailsFirstAt(p, i, e);
          FailsFirstCons(x, p, i, e);
        }
      case None =>
        var p := Scan(s[1..], hex);
        assert Scan(s, hex) == [Literal(s[0])] + p;
        assert DecodeReferences(s[1..], hex) == Err(e);
        FirstFailureScan(s[1..], hex);
        var i: nat :| FailsFirstAt(p, i, e);
        FailsFirstCons(Literal(s[0]), p, i, e);
    }
  }

  lemma DecodedCons(x: Piece, p: seq<Piece>)
    requires Decodable(x) && AllDecodable(p)
    ensures AllDecodable([x] + p) && Decoded([x] + p) == [PieceChar(x)] + Decoded(p)
  {
    forall i | 0 <= i < |[x] + p| ensures Decodable(([x] + p)[i]) {
      if i > 0 {
        assert ([x] + p)[i] == p[i - 1];
      }
    }
  }

  lemma FailsFirstCons(x: Piece, p: seq<Piece>, i: nat, e: CleanError)
    requires Decodable(x) && FailsFirstAt(p, i, e)
    ensures FailsFirstAt([x] + p, i + 1, e)
  {
    forall j | 0 <= j < i + 1 ensures Decodable(([x] + p)[j]) {
      if j > 0 {
        assert ([x] + p)[j] == p[j - 1];
      }
    }
  }

  /** The match of `<[^>]+>` at the start of s, as its length. */
  function TagAt(s: string): (m: Option<nat>)
    ensures m.Some? ==> 3 <= m.value <= |s|
  {
    if s == [] || s[0] != '<' then None
    else
      var n := RunLength(s[1..], c => c != '>');
      if n == 0 || 1 + n >= |s| then None else Some(n + 2)
  }

  /** `re.sub(r"<[^>]+>", "", s)`: the fallback used when the HTML parser raises. */
  function StripTagsRegex(s: string): (r: string)
    ensures |r| <= |s|
    ensures '<' !in s ==> r == s
    decreases |s|
  {
    if s == [] then []
    else match TagAt(s)
      case Some(n) => StripTagsRegex(s[n..])
      case None => assert [s[0]] + s[1..] == s; [s[0]] + StripTagsRegex(s[1..])
  }

  /** No match of `<[^>]+>` starts anywhere in t. */
  predicate TagFree(t: string) {
    forall i :: 0 <= i < |t| ==> TagAt(t[i..]).None?
  }

  /** The fallback only deletes: its output is a subsequence of its input. */
  lemma {:induction false} StripTagsRegexDeletes(s: string)
    ensures IsSubsequence(StripTagsRegex(s), s)
    decreases |s|
  {
    if s != [] {
      match TagAt(s)
      case Some(n) =>
        StripTagsRegexDeletes(s[n..]);
        SubsequenceOfSuffix(StripTagsRegex(s[n..]), s, n);
      case None =>
        StripTagsRegexDeletes(s[1..]);
    }
  }

  /** The fallback leaves no tag behind. */
  lemma {:induction false} StripTagsRegexTagFree(s: string)
    ensures TagFree(StripTagsRegex(s))
    decreases |s|
  {
    if s != [] {
      match TagAt(s)
      case Some(n) =>
        StripTagsRegexTagFree(s[n..]);
      case None =>
        var rest := StripTagsRegex(s[1..]);
        StripTagsRegexTagFree(s[1..]);
        var r := [s[0]] + rest;
        forall i | 0 <= i < |r| ensures TagAt(r[i..]).None? {
          if i == 0 {
            if s[0] == '<' {
              FirstTagPosition(s, rest);
            }
          } else {
            assert r[i..] == rest[i - 1..];
          }
        }
      }
  }

  /** Why an unmatched '<' stays unmatched once the text after it has been processed. */
  lemma FirstTagPosition(s: string, rest: string)
    requires s != [] && s[0] == '<' && TagAt(s).None? && rest == StripTagsRegex(s[1..])
    ensures TagAt([s[0]] + rest).None?
  {
    var n := RunLength(s[1..], c => c != '>');
    var r := [s[0]] + rest;
    if n == 0 {
      if |s| > 1 {
        assert s[1] == '>';
        StripTagsRegexHead(s[1..]);
        assert r[1] == '>';
        assert RunLength(r[1..], c => c != '>') == 0;
      }
    } else {
      assert '>' !in s[1..] by {
        forall i | 0 <= i < |s[1..]| ensures s[1..][i] != '>' { }
      }
      StripTagsRegexDeletes(s[1..]);
      SubsequenceAvoids(rest, s[1..], '>');
      var m := RunLength(r[1..], c => c != '>');
      assert r[1..] == rest;
      assert m == |rest|;
    }
  }

  lemma StripTagsRegexHead(s: string)
    requires s != [] && s[0] == '>'
    ensures StripTagsRegex(s) != [] && StripTagsRegex(s)[0] == '>'
  {
  }

  /** Running the fallback again changes nothing. */
  lemma StripTagsRegexIdempotent(s: string)
    ensures StripTagsRegex(StripTagsRegex(s)) == StripTagsRegex(s)
  {
    StripTagsRegexTagFree(s);
    TagFreeFixed(StripTagsRegex(s));
  }

  lemma {:induction false} TagFreeFixed(t: string)
    requires TagFree(t)
    ensures StripTagsRegex(t) == t
    decreases |t|
  {
    if t != [] {
      assert TagAt(t[0..]).None? && t[0..] == t;
      assert TagFree(t[1..]) by {
        forall i | 0 <= i < |t[1..]| ensures TagAt(t[1..][i..]).None? {
          assert t[1..][i..] == t[i + 1..];
        }
      }
      TagFreeFixed(t[1..]);
    }
  }

  /** remove_html_tags: the tolerant parser's text, or the regex fallback when it raises. */
  function RemoveHtmlTags(host: Host, s: string): (r: string)
    ensures s == [] ==> r == []
    ensures host.parseHtml(s).None? ==> IsSubsequence(r, s) && TagFree(r)
  {
    if s == [] then []
    else match host.parseHtml(s)
      case Some(text) => text
      case None => StripTagsRegexDeletes(s); StripTagsRegexTagFree(s); StripTagsRegex(s)
  }

  /** The entity stage of remove_html_artifacts: named entities in table order, then decimal, then hex references. */
  function EntitiesDecoded(s: string): Result<string, CleanError> {
    var named := ReplaceChain(s, ENTITY_TABLE);
    var decimal :- DecodeReferences(named, false);
    DecodeReferences(decimal, true)
  }

  /** remove_html_artifacts: the entity stage, then tag removal. */
  function HtmlArtifactsRemoved(host: Host, s: string): Result<string, CleanError> {
    if s == [] then Ok([])
    else
      var decoded :- EntitiesDecoded(s);
      Ok(RemoveHtmlTags(host, decoded))
  }

  /** A text whose only '&' is at its head and starts no reference is left alone by the decoder. */
  lemma DecodeNoReference(s: string, hex: bool)
    requires s != [] && '&' !in s[1..] && ReferenceAt(s, hex).None?
    ensures DecodeReferences(s, hex) == Ok(s)
  {
    DecodeReferencesShape(s[1..], hex);
    assert [s[0]] + s[1..] == s;
  }

  /** "&nbsp;" is the first table entry; it occurs in none of the examples below. */
  lemma NbspAbsent(s: string)
    requires s != [] && s[0] == '&' && |s| > 1 && s[1] == 'a' && '&' !in s[1..]
    ensures ReplaceAll(s, "&nbsp;", " ") == s
  {
    assert "&nbsp;"[1] == 'n';
    ReplaceAllHeadOnly(s, "&nbsp;", " ");
  }

  lemma EntityTableHead(t: Table)
    requires t == ENTITY_TABLE
    ensures WellFormedTable(t) && |t| == 7 && t[0] == ("&nbsp;", " ") && t[1] == ("&amp;", "&")
  {
  }

  /** A string that starts with "&amp;" loses that layer: "&amp;" becomes "&". */
  lemma AmpLayer(s: string, rest: string)
    requires s == "&amp;" + rest && '&' !in rest
    ensures ReplaceAll(s, "&amp;", "&") == "&" + rest
  {
    ReplaceAllLeading("&amp;", rest, "&");
    if rest != [] {
      assert rest[0] != '&' && '&' !in rest[1..];
      ReplaceAllHeadOnly(rest, "&amp;", "&");
    }
  }

  /** "&amp;" followed by text without '&': the first two entries leave "&" and that text. */
  lemma AmpPrefixed(s: string, t: Table, rest: string)
    requires t == ENTITY_TABLE && s == "&amp;" + rest && '&' !in rest
    ensures ReplaceChain(s, t) == ReplaceChain("&" + rest, t[2..])
  {
    EntityTableHead(t);
    assert s[1..] == "amp;" + rest;
    NbspAbsent(s);
    AmpLayer(s, rest);
    ChainTwo(s, t, s, "&" + rest);
  }

  /** None of the entries after "&amp;" occurs in these strings. */
  lemma LaterEntitiesAbsent(x: string, t: Table)
    requires x == "&amp;" || x == "&nbsp;" || x == "&"
    requires t == ENTITY_TABLE[2..]
    ensures ReplaceChain(x, t) == x
  {
    assert x[1..] == "amp;" || x[1..] == "nbsp;" || x[1..] == [];
    assert x == "&" || x[1] == 'a' || x[1] == 'n';
    ReplaceChainHeadOnly(x, t);
  }

  lemma LtEntity(t: Table)
    requires t == ENTITY_TABLE[2..]
    ensures ReplaceChain("&lt;", t) == "<"
  {
    assert t[0] == ("&lt;", "<") && t[1..][0] == ("&gt;", ">");
    ReplaceAllLeading("&lt;", [], "<");
    assert ReplaceAll([], "&lt;", "<") == [] && "<" + [] == "<";
    ReplaceAllHeadOnly("<", "&gt;", ">");
    ChainTwo("&lt;", t, "<", "<");
    ReplaceChainHeadOnly("<", t[2..]);
  }

  lemma NamedAmpLtOf(s: string, t: Table)
    requires s == "&amp;lt;" && t == ENTITY_TABLE
    ensures ReplaceChain(s, t) == "<"
  {
    AmpPrefixed(s, t, "lt;");
    assert "&" + "lt;" == "&lt;";
    LtEntity(t[2..]);
  }

  /** An escaped "&nbsp;", "&amp;" or bare "&" loses exactly its "&amp;" layer. */
  lemma NamedAmpEscapedOf(s: string, t: Table, x: string)
    requires x == "&nbsp;" || x == "&amp;" || x == "&"
    requires s == "&amp;" + x[1..] && t == ENTITY_TABLE
    ensures ReplaceChain(s, t) == x
  {
    EscapedTail(x);
    AmpPrefixed(s, t, x[1..]);
    LaterEntitiesAbsent(x, t[2..]);
  }

  lemma EscapedTail(x: string)
    requires x == "&nbsp;" || x == "&amp;" || x == "&"
    ensures '&' !in x[1..] && "&" + x[1..] == x
  {
    assert x[1..] == "nbsp;" || x[1..] == "amp;" || x[1..] == [];
  }

  /** "&nbsp;" and "&amp;" start no numeric reference, so both numeric passes keep them. */
  lemma NamedNoReference(s: string, hex: bool)
    requires s == "&nbsp;" || s == "&amp;"
    ensures DecodeReferences(s, hex) == Ok(s)
  {
    assert s[1..] == "nbsp;" || s[1..] == "amp;";
    assert s[1] == 'n' || s[1] == 'a';
    assert s[..2] != "&#" && s[..3] != "&#x";
    DecodeNoReference(s, hex);
  }

  /** A lone "&" starts no numeric reference either. */
  lemma AmpAloneNoReference(s: string, hex: bool)
    requires s == "&"
    ensures DecodeReferences(s, hex) == Ok(s)
  {
    DecodeNoReference(s, hex);
  }

  lemma AmpLtDecoded(s: string)
    requires s == "&amp;lt;"
    ensures EntitiesDecoded(s) == Ok("<")
  {
    NamedAmpLtOf(s, ENTITY_TABLE);
    var x := ReplaceChain(s, ENTITY_TABLE);
    DecodeReferencesShape(x, false);
    DecodeReferencesShape(x, true);
  }

  /** An escaped "&nbsp;" or "&amp;" comes out of the entity stage with one "&amp;" layer removed. */
  lemma EscapedDecoded(s: string, x: string)
    requires x == "&nbsp;" || x == "&amp;"
    requires s == "&amp;" + x[1..]
    ensures EntitiesDecoded(s) == Ok(x)
  {
    NamedAmpEscapedOf(s, ENTITY_TABLE, x);
    NamedNoReference(x, false);
    NamedNoReference(x, true);
  }

  lemma AmpDecoded(s: string)
    requires s == "&amp;"
    ensures EntitiesDecoded(s) == Ok("&")
  {
    NamedAmpEscapedOf(s, ENTITY_TABLE, "&");
    var x := ReplaceChain(s, ENTITY_TABLE);
    AmpAloneNoReference(x, false);
    AmpAloneNoReference(x, true);
  }

  /**
   * One pass of the entity stage peels one layer of "&amp;", so the stage is not
   * idempotent: "&amp;amp;" becomes "&amp;", which a second pass turns into "&".
   */
  lemma EntitiesOneLayer(s: string)
    requires s == "&amp;amp;"
    ensures EntitiesDecoded(s) == Ok("&amp;")
    ensures EntitiesDecoded(EntitiesDecoded(s).value) == Ok("&")
  {
    assert s == "&amp;" + "&amp;"[1..];
    EscapedDecoded(s, "&amp;");
    AmpDecoded(EntitiesDecoded(s).value);
  }

  /**
   * The table is applied in its own order: "&amp;" comes after "&nbsp;" and before
   * "&lt;", so an escaped "&lt;" is decoded twice and an escaped "&nbsp;" once.
   */
  lemma EntitiesTableOrder(lt: string, nbsp: string)
    requires lt == "&amp;lt;" && nbsp == "&amp;nbsp;"
    ensures EntitiesDecoded(lt) == Ok("<")
    ensures EntitiesDecoded(nbsp) == Ok("&nbsp;")
  {
    AmpLtDecoded(lt);
    assert nbsp == "&amp;" + "&nbsp;"[1..];
    EscapedDecoded(nbsp, "&nbsp;");
  }

  /** No named entity occurs in a numeric reference "&#...;". */
  lemma NumericNamedUntouched(s: string)
    requires s == "&#65;" || s == "&#x41;" || s == "&#1114112;"
    ensures ReplaceChain(s, ENTITY_TABLE) == s
  {
    assert s[1..] == "#65;" || s[1..] == "#x41;" || s[1..] == "#1114112;";
    assert s != [] && s[0] == '&' && s[1] == '#';
    assert s[2] == '6' || s[2] == 'x' || s[2] == '1';
    ReplaceChainHeadOnly(s, ENTITY_TABLE);
  }

  lemma DecimalReference(s: string)
    requires s == "&#65;"
    ensures ReferenceAt(s, false) == Some((65, 5))
  {
    assert s[..2] == "&#" && s[2..] == "65;";
    assert RunLength("65;", IsDigit) == 2;
    assert s[2..4] == "65";
    assert DigitsValue("65") == 65;
  }

  lemma HexReferenceNotDecimal(s: string)
    requires s == "&#x41;"
    ensures ReferenceAt(s, false).None?
  {
    assert s[..2] == "&#" && s[2..] == "x41;";
    assert RunLength("x41;", IsDigit) == 0;
  }

  lemma HexReference(s: string)
    requires s == "&#x41;"
    ensures ReferenceAt(s, true) == Some((0x41, 6))
  {
    assert s[..3] == "&#x" && s[3..] == "41;";
    assert RunLength("41;", IsHexDigit) == 2;
    assert s[3..5] == "41";
    assert HexValue("41") == 0x41;
  }

  lemma TooLargeDigits()
    ensures DigitsValue("1114112") == 0x110000
  {
    var d := "1114112";
    assert d[..1] == "1" && d[..2][..1] == "1" && d[..3][..2] == d[..2] && d[..4][..3] == d[..3];
    assert d[..5][..4] == d[..4] && d[..6][..5] == d[..5] && d[..6] == d[..7][..6] && d[..7] == d;
    assert DigitsValue(d[..1]) == 1;
    assert DigitsValue(d[..2]) == 11;
    assert DigitsValue(d[..3]) == 111;
    assert DigitsValue(d[..4]) == 1114;
    assert DigitsValue(d[..5]) == 11141;
    assert DigitsValue(d[..6]) == 111411;
  }

  lemma TooLargeReference(s: string)
    requires s == "&#1114112;"
    ensures ReferenceAt(s, false) == Some((0x110000, 10))
  {
    var d := "1114112";
    assert s[..2] == "&#" && s[2..] == d + ";" && s[9] == ';';
    RunLengthIs(s[2..], IsDigit, 7);
    assert s[2..9] == d;
    TooLargeDigits();
    DecimalReferenceAt(s, 7);
  }

  /** A decimal reference whose digit run has length n ends just after it. */
  lemma DecimalReferenceAt(s: string, n: nat)
    requires |s| >= 2 && s[..2] == "&#" && RunLength(s[2..], IsDigit) == n
    requires 0 < n && 2 + n < |s| && s[2 + n] == ';'
    ensures ReferenceAt(s, false) == Some((DigitsValue(s[2..2 + n]), 3 + n))
  {
  }

  /** A decimal reference decodes to its character. */
  lemma DecimalDecoded(s: string)
    requires s == "&#65;"
    ensures EntitiesDecoded(s) == Ok("A")
  {
    NumericNamedUntouched(s);
    DecimalReference(s);
    assert s[5..] == [];
    assert DecodeReferences(s, false) == Ok("A") by {
      assert DecodeReferences(s[5..], false) == Ok([]);
      assert ['A'] + [] == "A";
    }
    DecodeReferencesShape("A", true);
  }

  /** A hex reference is left alone by the decimal pass and decoded by the hex pass. */
  lemma HexDecoded(s: string)
    requires s == "&#x41;"
    ensures EntitiesDecoded(s) == Ok("A")
  {
    NumericNamedUntouched(s);
    HexReferenceNotDecimal(s);
    DecodeNoReference(s, false);
    HexReference(s);
    assert s[6..] == [];
    assert DecodeReferences(s, true) == Ok("A") by {
      assert DecodeReferences(s[6..], true) == Ok([]);
      assert ['A'] + [] == "A";
    }
  }

  /** A reference above U+10FFFF makes chr() raise. */
  lemma TooLargeDecoded(s: string)
    requires s == "&#1114112;"
    ensures EntitiesDecoded(s) == Err(CodePointOutOfRange(0x110000))
  {
    NumericNamedUntouched(s);
    TooLargeReference(s);
  }

  /** A decimal reference whose digit run is longer than MAX_STR_DIGITS makes int() raise, whatever its value. */
  lemma TooManyDigitsRaise(s: string, n: nat)
    requires |s| >= 2 && s[..2] == "&#" && RunLength(s[2..], IsDigit) == n
    requires n > MAX_STR_DIGITS && 2 + n < |s| && s[2 + n] == ';'
    ensures DecodeReferences(s, false) == Err(TooManyDigits(n))
  {
    DecimalReferenceAt(s, n);
  }

  /** Leading zeros count towards the limit: "&#" with 4301 zeros and "65;" names 'A' but raises. */
  lemma LeadingZerosDecoded(s: string, zeros: string)
    requires zeros == seq(4301, _ => '0') && s == "&#" + zeros + "65;"
    ensures EntitiesDecoded(s) == Err(TooManyDigits(4303))
  {
    var digits := zeros + "65";
    assert s == "&#" + digits + ";";
    assert s[..2] == "&#" && s[2..] == digits + ";" && s[2 + 4303] == ';';
    RunLengthIs(s[2..], IsDigit, 4303);
    forall k | 0 <= k < |ENTITY_TABLE| ensures ENTITY_TABLE[k].0[0] !in s[1..] && !(ENTITY_TABLE[k].0 <= s) {
      assert ENTITY_TABLE[k].0[0] == '&' && '&' !in s[1..];
      assert s[..3] == "&#0";
    }
    ReplaceChainHeadOnly(s, ENTITY_TABLE);
    TooManyDigitsRaise(s, 4303);
  }

  /** `for old, new in table.items(): result = result.replace(old, new)` */
  method ApplyReplacements(s: string, table: Table) returns (result: string)
    requires WellFormedTable(table)
    ensures result == ReplaceChain(s, table)
  {
    result := s;
    for k := 0 to |table|
      invariant ReplaceChain(s, table) == ReplaceChain(result, table[k..])
    {
      assert table[k..][1..] == table[k + 1..];
      result := ReplaceAll(result, table[k].0, table[k].1);
    }
  }

  method RemoveHtmlArtifacts(host: Host, text: string) returns (r: Result<string, CleanError>)
    ensures r == HtmlArtifactsRemoved(host, text)
  {
    if text == [] {
      return Ok([]);
    }
    var result := ApplyReplacements(text, ENTITY_TABLE);
    var decimal := DecodeReferences(result, false);
    if decimal.Err? {
      return Err(decimal.error);
    }
    var decoded := DecodeReferences(decimal.value, true);
    if decoded.Err? {
      return Err(decoded.error);
    }
    r := Ok(RemoveHtmlTags(host, decoded.value));
  }

  // ---------------------------------------------------------------------------
  // Whitespace
  // ---------------------------------------------------------------------------

  /** `re.sub(r"\s+", " ", s)`: every maximal whitespace run becomes one space. */
  function CollapseRuns(s: string): (r: string)
    ensures |r| <= |s|
    decreases |s|
  {
    if s == [] then []
    else if IsSpace(s[0]) then " " + CollapseRuns(StripLeft(s[1..]))
    else [s[0]] + CollapseRuns(s[1..])
  }

  /** remove_extra_whitespace on a string. */
  function RemoveExtraWhitespace(s: string): (r: string)
    ensures |r| <= |s|
    ensures r == [] || (!IsSpace(r[0]) && !IsSpace(r[|r| - 1]))
  {
    Strip(CollapseRuns(s))
  }

  /** Every whitespace character is a plain space and none is followed by another. */
  predicate Collapsed(t: string) {
    forall i :: 0 <= i < |t| && IsSpace(t[i]) ==> t[i] == ' ' && (i + 1 == |t| || !IsSpace(t[i + 1]))
  }

  /** The non-whitespace characters of s, in order. */
  function NonSpace(s: string): string {
    if s == [] then [] else (if IsSpace(s[0]) then [] else [s[0]]) + NonSpace(s[1..])
  }

  lemma CollapseRunsHead(s: string)
    requires s != []
    ensures CollapseRuns(s) != [] && CollapseRuns(s)[0] == if IsSpace(s[0]) then ' ' else s[0]
  {
  }

  /** Putting ch in front of a collapsed string keeps it collapsed when ch cannot start a run. */
  lemma ConsCollapsed(ch: char, c: string)
    requires Collapsed(c)
    requires IsSpace(ch) ==> ch == ' ' && (c == [] || !IsSpace(c[0]))
    ensures Collapsed([ch] + c)
  {
    var r := [ch] + c;
    forall i | 0 <= i < |r| && IsSpace(r[i]) ensures r[i] == ' ' && (i + 1 == |r| || !IsSpace(r[i + 1])) {
      if i > 0 {
        assert r[i] == c[i - 1];
      }
    }
  }

  /** `re.sub(r"\s+", " ", s)` leaves only single plain spaces. */
  lemma {:induction false} CollapseRunsCollapsed(s: string)
    ensures Collapsed(CollapseRuns(s))
    decreases |s|
  {
    if s != [] {
      if IsSpace(s[0]) {
        var t := StripLeft(s[1..]);
        CollapseRunsCollapsed(t);
        if t != [] {
          CollapseRunsHead(t);
        }
        ConsCollapsed(' ', CollapseRuns(t));
      } else {
        CollapseRunsCollapsed(s[1..]);
        ConsCollapsed(s[0], CollapseRuns(s[1..]));
      }
    }
  }

  /** `re.sub(r"\s+", " ", s)` keeps every other character, in order. */
  lemma {:induction false} CollapseRunsNonSpace(s: string)
    ensures NonSpace(CollapseRuns(s)) == NonSpace(s)
    decreases |s|
  {
    if s != [] {
      if IsSpace(s[0]) {
        var t := StripLeft(s[1..]);
        CollapseRunsNonSpace(t);
        NonSpaceOfSpaces(s[1..]);
        var r := " " + CollapseRuns(t);
        assert r[1..] == CollapseRuns(t);
      } else {
        CollapseRunsNonSpace(s[1..]);
        var r := [s[0]] + CollapseRuns(s[1..]);
        assert r[1..] == CollapseRuns(s[1..]);
      }
    }
  }

  /** Leading whitespace contributes nothing to NonSpace. */
  lemma {:induction false} NonSpaceOfSpaces(s: string)
    ensures NonSpace(StripLeft(s)) == NonSpace(s)
    decreases |s|
  {
    if s != [] && IsSpace(s[0]) {
      NonSpaceOfSpaces(s[1..]);
    }
  }

  lemma {:induction false} NonSpaceConcat(a: string, b: string)
    ensures NonSpace(a + b) == NonSpace(a) + NonSpace(b)
  {
    if a == [] {
      assert a + b == b;
    } else {
      assert (a + b)[1..] == a[1..] + b;
      NonSpaceConcat(a[1..], b);
    }
  }

  lemma {:induction false} NonSpaceAllSpace(s: string)
    requires AllSpace(s)
    ensures NonSpace(s) == []
  {
    if s != [] {
      NonSpaceAllSpace(s[1..]);
    }
  }

  /** A collapsed string is left alone by CollapseRuns. */
  lemma {:induction false} CollapseRunsFixed(t: string)
    requires Collapsed(t)
    ensures CollapseRuns(t) == t
    decreases |t|
  {
    if t != [] {
      assert Collapsed(t[1..]) by {
        forall i | 0 <= i < |t[1..]| && IsSpace(t[1..][i])
          ensures t[1..][i] == ' ' && (i + 1 == |t[1..]| || !IsSpace(t[1..][i + 1]))
        {
          assert t[1..][i] == t[i + 1];
        }
      }
      if IsSpace(t[0]) {
        assert |t| == 1 || !IsSpace(t[1]);
        assert StripLeft(t[1..]) == t[1..];
      }
      CollapseRunsFixed(t[1..]);
    }
  }

  lemma CollapsedSlice(t: string, i: nat, j: nat)
    requires Collapsed(t) && i <= j <= |t|
    ensures Collapsed(t[i..j])
  {
    forall k | 0 <= k < j - i && IsSpace(t[i..j][k])
      ensures t[i..j][k] == ' ' && (k + 1 == j - i || !IsSpace(t[i..j][k + 1]))
    {
      assert t[i..j][k] == t[i + k];
    }
  }

  /**
   * remove_extra_whitespace: no outer whitespace, and every whitespace character
   * left is a single ' ' between two other characters.
   */
  lemma RemoveExtraWhitespaceShape(s: string)
    ensures var r := RemoveExtraWhitespace(s);
      && (r == [] || (!IsSpace(r[0]) && !IsSpace(r[|r| - 1])))
      && Collapsed(r)
  {
    var c := CollapseRuns(s);
    CollapseRunsCollapsed(s);
    var i, j := StripSlice(c);
    CollapsedSlice(c, i, j);
  }

  /** Strip removes whitespace only. */
  lemma NonSpaceStrip(c: string)
    ensures NonSpace(Strip(c)) == NonSpace(c)
  {
    var i, j := StripSlice(c);
    var left, mid, right := c[..i], c[i..j], c[j..];
    assert c == left + (mid + right);
    NonSpaceConcat(left, mid + right);
    NonSpaceConcat(mid, right);
    NonSpaceAllSpace(left);
    NonSpaceAllSpace(right);
  }

  /** remove_extra_whitespace keeps every non-whitespace character, in order. */
  lemma RemoveExtraWhitespaceKeeps(s: string)
    ensures NonSpace(RemoveExtraWhitespace(s)) == NonSpace(s)
  {
    CollapseRunsNonSpace(s);
    NonSpaceStrip(CollapseRuns(s));
  }

  /** Collapsing twice is collapsing once. */
  lemma RemoveExtraWhitespaceIdempotent(s: string)
    ensures RemoveExtraWhitespace(RemoveExtraWhitespace(s)) == RemoveExtraWhitespace(s)
  {
    var r := RemoveExtraWhitespace(s);
    RemoveExtraWhitespaceShape(s);
    CollapseRunsFixed(r);
    StripNoOuterSpace(r);
  }

  // ---------------------------------------------------------------------------
  // Encoding
  // ---------------------------------------------------------------------------

  /**
   * The replacements after NFC. The source's dict lists U+FEFF twice; a dict keeps one
   * entry at the first key's position, so the table has five entries.
   */
  const ENCODING_TABLE: Table := [
    ("\U{A0}", " "), ("\U{FEFF}", ""), ("\U{200B}", ""), ("\U{200C}", ""), ("\U{200D}", "")
  ]

  predicate IsZeroWidth(c: char) {
    c == '\U{FEFF}' || c == '\U{200B}' || c == '\U{200C}' || c == '\U{200D}'
  }

  /** What the encoding table does to one character. */
  function EncodingChar(c: char): string {
    if c == '\U{A0}' then " " else if IsZeroWidth(c) then "" else [c]
  }

  /** normalize_encoding on a string. */
  function EncodingNormalized(host: Host, s: string): string {
    if s == [] then [] else ReplaceChain(host.nfc(s), ENCODING_TABLE)
  }

  method NormalizeEncoding(host: Host, text: string) returns (r: string)
    ensures r == EncodingNormalized(host, text)
  {
    if text == [] {
      return [];
    }
    var normalized := host.nfc(text);
    r := ApplyReplacements(normalized, ENCODING_TABLE);
  }

  lemma EncodingTableShape()
    ensures SingleCharKeys(ENCODING_TABLE) && NoRescan(ENCODING_TABLE)
  {
  }

  lemma EncodingLookup(c: char)
    ensures Lookup(c, ENCODING_TABLE) == EncodingChar(c)
  {
    var t := ENCODING_TABLE;
    if c == '\U{A0}' {
      LookupHit(c, t, 0);
    } else if c == '\U{FEFF}' {
      LookupHit(c, t, 1);
    } else if c == '\U{200B}' {
      LookupHit(c, t, 2);
    } else if c == '\U{200C}' {
      LookupHit(c, t, 3);
    } else if c == '\U{200D}' {
      LookupHit(c, t, 4);
    } else {
      LookupMiss(c, t);
    }
  }

  /** On one character the encoding table acts as EncodingChar. */
  lemma EncodingTableLookup(c: char)
    ensures ReplaceChain([c], ENCODING_TABLE) == EncodingChar(c)
  {
    EncodingTableShape();
    ReplaceChainSingle(c, ENCODING_TABLE);
    EncodingLookup(c);
  }

  lemma EncodingTableIsExpand(n: string)
    ensures ReplaceChain(n, ENCODING_TABLE) == Expand(n, EncodingChar)
  {
    ChainOfCharsIsExpand(n, ENCODING_TABLE);
    forall c ensures ReplaceChain([c], ENCODING_TABLE) == EncodingChar(c) {
      EncodingTableLookup(c);
    }
    ExpandExtensional(n, c => ReplaceChain([c], ENCODING_TABLE), EncodingChar);
  }

  /**
   * After NFC, each U+00A0 becomes exactly one ' ', the four zero-width characters
   * are deleted, every other character is kept; so none of the five remains.
   */
  lemma EncodingNormalizedSpec(host: Host, s: string)
    ensures s != [] ==> EncodingNormalized(host, s) == Expand(host.nfc(s), EncodingChar)
    ensures '\U{A0}' !in EncodingNormalized(host, s)
    ensures forall c :: IsZeroWidth(c) ==> c !in EncodingNormalized(host, s)
  {
    var n := host.nfc(s);
    EncodingTableIsExpand(n);
    ExpandAvoids(n, EncodingChar, '\U{A0}');
    forall z | IsZeroWidth(z) ensures z !in EncodingNormalized(host, s) {
      ExpandAvoids(n, EncodingChar, z);
    }
  }

  // ---------------------------------------------------------------------------
  // Special characters
  // ---------------------------------------------------------------------------

  datatype SpecialOptions = SpecialOptions(replaceControl: bool, keepPrintableOnly: bool, replaceCurlyQuotes: bool)

  const DEFAULT_SPECIAL := SpecialOptions(true, false, true)

  /** Curly quotes and dashes to ASCII, in the dict's order. */
  const CURLY_TABLE: Table := [
    ("\U{2018}", "'"), ("\U{2019}", "'"), ("\U{201C}", "\""), ("\U{201D}", "\""),
    ("\U{2013}", "-"), ("\U{2014}", "-")
  ]

  predicate IsCurly(c: char) {
    c == '\U{2018}' || c == '\U{2019}' || c == '\U{201C}' || c == '\U{201D}' || c == '\U{2013}' || c == '\U{2014}'
  }

  function CurlyChar(c: char): char {
    if c == '\U{2018}' || c == '\U{2019}' then '\''
    else if c == '\U{201C}' || c == '\U{201D}' then '"'
    else if c == '\U{2013}' || c == '\U{2014}' then '-'
    else c
  }

  /** Unicode general category Cc (Unicode Standard section 4.5). */
  predicate IsControl(c: char) {
    c <= '\U{1F}' || '\U{7F}' <= c <= '\U{9F}'
  }

  predicate IsLineBreakOrTab(c: char) {
    c == '\n' || c == '\r' || c == '\t'
  }

  /** The control-character comprehension: Cc characters other than \n, \r, \t become ' '. */
  function ControlReplaced(s: string): (r: string)
    ensures |r| == |s|
    ensures forall i :: 0 <= i < |s| ==> r[i] == (if IsControl(s[i]) && !IsLineBreakOrTab(s[i]) then ' ' else s[i])
  {
    seq(|s|, i requires 0 <= i < |s| => if IsControl(s[i]) && !IsLineBreakOrTab(s[i]) then ' ' else s[i])
  }

  /** The printable-only comprehension. */
  function PrintableKept(host: Host, s: string): string {
    if s == [] then []
    else (if host.isPrintable(s[0]) || IsLineBreakOrTab(s[0]) then [s[0]] else []) + PrintableKept(host, s[1..])
  }

  /** handle_special_characters on a string. */
  function SpecialCharactersHandled(host: Host, s: string, opts: SpecialOptions): string {
    if s == [] then []
    else
      var quoted := if opts.replaceCurlyQuotes then ReplaceChain(s, CURLY_TABLE) else s;
      var controlled := if opts.replaceControl then ControlReplaced(quoted) else quoted;
      if opts.keepPrintableOnly then PrintableKept(host, controlled) else controlled
  }

  method HandleSpecialCharacters(host: Host, text: string, opts: SpecialOptions) returns (r: string)
    ensures r == SpecialCharactersHandled(host, text, opts)
  {
    if text == [] {
      return [];
    }
    var result := text;
    if opts.replaceCurlyQuotes {
      result := ApplyReplacements(result, CURLY_TABLE);
    }
    if opts.replaceControl {
      result := ControlReplaced(result);
    }
    if opts.keepPrintableOnly {
      result := PrintableKept(host, result);
    }
    r := result;
  }

  lemma CurlyTableShape()
    ensures SingleCharKeys(CURLY_TABLE) && NoRescan(CURLY_TABLE)
  {
  }

  lemma CurlyLookup(c: char)
    ensures Lookup(c, CURLY_TABLE) == [CurlyChar(c)]
  {
    var t := CURLY_TABLE;
    if c == '\U{2018}' {
      LookupHit(c, t, 0);
    } else if c == '\U{2019}' {
      LookupHit(c, t, 1);
    } else if c == '\U{201C}' {
      LookupHit(c, t, 2);
    } else if c == '\U{201D}' {
      LookupHit(c, t, 3);
    } else if c == '\U{2013}' {
      LookupHit(c, t, 4);
    } else if c == '\U{2014}' {
      LookupHit(c, t, 5);
    } else {
      LookupMiss(c, t);
    }
  }

  /** On one character the curly-quote table acts as CurlyChar. */
  lemma CurlyTableLookup(c: char)
    ensures ReplaceChain([c], CURLY_TABLE) == [CurlyChar(c)]
  {
    CurlyTableShape();
    ReplaceChainSingle(c, CURLY_TABLE);
    CurlyLookup(c);
  }

  lemma CurlyTablePerChar(s: string)
    ensures ReplaceChain(s, CURLY_TABLE) == Expand(s, c => [CurlyChar(c)])
  {
    ChainOfCharsIsExpand(s, CURLY_TABLE);
    forall c ensures ReplaceChain([c], CURLY_TABLE) == [CurlyChar(c)] {
      CurlyTableLookup(c);
    }
    ExpandExtensional(s, c => ReplaceChain([c], CURLY_TABLE), c => [CurlyChar(c)]);
  }

  lemma {:induction false} PrintableKeptShape(host: Host, s: string)
    ensures IsSubsequence(PrintableKept(host, s), s)
    ensures forall i :: 0 <= i < |PrintableKept(host, s)| ==>
      host.isPrintable(PrintableKept(host, s)[i]) || IsLineBreakOrTab(PrintableKept(host, s)[i])
    decreases |s|
  {
    if s != [] {
      PrintableKeptShape(host, s[1..]);
      if !(host.isPrintable(s[0]) || IsLineBreakOrTab(s[0])) {
        assert PrintableKept(host, s) == PrintableKept(host, s[1..]);
        SubsequenceDropHead(PrintableKept(host, s[1..]), s);
      } else {
        var r := PrintableKept(host, s);
        assert r[1..] == PrintableKept(host, s[1..]);
      }
    }
  }

  /**
   * handle_special_characters: without the printable filter the length is kept;
   * with curly-quote replacement no curly quote or dash remains; with control
   * replacement no Cc character other than \n, \r, \t remains; with the printable
   * filter only printable characters and \n, \r, \t remain, and the filter only deletes.
   */
  lemma SpecialCharactersSpec(host: Host, s: string, opts: SpecialOptions)
    ensures var r := SpecialCharactersHandled(host, s, opts);
      && (!opts.keepPrintableOnly ==> |r| == |s|)
      && (opts.replaceCurlyQuotes ==> forall i :: 0 <= i < |r| ==> !IsCurly(r[i]))
      && (opts.replaceControl ==> forall i :: 0 <= i < |r| ==> !IsControl(r[i]) || IsLineBreakOrTab(r[i]))
      && (opts.keepPrintableOnly ==> forall i :: 0 <= i < |r| ==> host.isPrintable(r[i]) || IsLineBreakOrTab(r[i]))
      && (opts.keepPrintableOnly && !opts.replaceCurlyQuotes && !opts.replaceControl ==> IsSubsequence(r, s))
  {
    if s != [] {
      var quoted := if opts.replaceCurlyQuotes then ReplaceChain(s, CURLY_TABLE) else s;
      var controlled := if opts.replaceControl then ControlReplaced(quoted) else quoted;
      if opts.replaceCurlyQuotes {
        CurlyTablePerChar(s);
        ExpandLength(s, c => [CurlyChar(c)]);
        forall d | IsCurly(d) ensures d !in quoted {
          ExpandAvoids(s, c => [CurlyChar(c)], d);
        }
        assert forall i :: 0 <= i < |controlled| ==> !IsCurly(controlled[i]) by {
          forall i | 0 <= i < |controlled| ensures !IsCurly(controlled[i]) {
            assert controlled[i] == ' ' || controlled[i] == quoted[i];
          }
        }
      }
      if opts.keepPrintableOnly {
        PrintableKeptShape(host, controlled);
        var r := PrintableKept(host, controlled);
        forall i | 0 <= i < |r| ensures !IsCurly(r[i]) || !opts.replaceCurlyQuotes {
          if opts.replaceCurlyQuotes && IsCurly(r[i]) {
            assert r[i] in r;
            SubsequenceAvoids(r, controlled, r[i]);
          }
        }
        forall i | 0 <= i < |r| ensures !opts.replaceControl || !IsControl(r[i]) || IsLineBreakOrTab(r[i]) {
          if opts.replaceControl && IsControl(r[i]) && !IsLineBreakOrTab(r[i]) {
            assert r[i] in r;
            assert forall j :: 0 <= j < |controlled| ==> controlled[j] != r[i];
            SubsequenceAvoids(r, controlled, r[i]);
          }
        }
      }
    }
  }

  // ---------------------------------------------------------------------------
  // clean_text
  // ---------------------------------------------------------------------------

  /** The four stage toggles of clean_text, in the source's parameter order. */
  datatype CleanOptions = CleanOptions(removeHtml: bool, removeExtraSpaces: bool, normalizeEnc: bool, handleSpecial: bool)

  const DEFAULT_CLEAN := CleanOptions(true, true, true, true)

  /** clean_text on a string: html, then encoding, then special characters, then whitespace. */
  function CleanedText(host: Host, s: string, opts: CleanOptions): Result<string, CleanError> {
    if s == [] then Ok([])
    else
      var html :- if opts.removeHtml then HtmlArtifactsRemoved(host, s) else Ok(s);
      var encoded := if opts.normalizeEnc then EncodingNormalized(host, html) else html;
      var special := if opts.handleSpecial then SpecialCharactersHandled(host, encoded, DEFAULT_SPECIAL) else encoded;
      Ok(if opts.removeExtraSpaces then RemoveExtraWhitespace(special) else special)
  }

  /** clean_text on any value: None gives "", another non-string gives str(v) uncleaned. */
  function CleanedTextOf(host: Host, v: Value, opts: CleanOptions): Result<string, CleanError> {
    match v
    case VStr(s) => CleanedText(host, s, opts)
    case VNull => Ok([])
    case _ => Ok(Str(host, v))
  }

  method CleanText(host: Host, text: Value, opts: CleanOptions) returns (r: Result<string, CleanError>)
    ensures r == CleanedTextOf(host, text, opts)
  {
    if !text.VStr? || text.s == [] {
      return Ok(if text.VNull? then [] else Str(host, text));
    }
    var result := text.s;
    if opts.removeHtml {
      var html := RemoveHtmlArtifacts(host, result);
      if html.Err? {
        return Err(html.error);
      }
      result := html.value;
    }
    if opts.normalizeEnc {
      result := NormalizeEncoding(host, result);
    }
    if opts.handleSpecial {
      result := HandleSpecialCharacters(host, result, DEFAULT_SPECIAL);
    }
    if opts.removeExtraSpaces {
      result := RemoveExtraWhitespace(result);
    }
    r := Ok(result);
  }

  /** The entry guard: None gives "", and a non-string is rendered with str() but not cleaned. */
  lemma CleanedTextOfGuard(host: Host, v: Value, opts: CleanOptions)
    ensures v == VNull || v == VStr([]) ==> CleanedTextOf(host, v, opts) == Ok([])
    ensures !v.VStr? && v != VNull ==> CleanedTextOf(host, v, opts) == Ok(Str(host, v))
  {
  }

  // ---------------------------------------------------------------------------
  // The stages on any value: each opens with the same guard as clean_text
  // ---------------------------------------------------------------------------

  /** What the guard returns for a value that is not a non-empty string: "" for None, str(v) otherwise. */
  function Unguarded(host: Host, v: Value): string {
    if v.VNull? then [] else Str(host, v)
  }

  function RemoveHtmlTagsOf(host: Host, v: Value): string {
    if v.VStr? then RemoveHtmlTags(host, v.s) else Unguarded(host, v)
  }

  function HtmlArtifactsRemovedOf(host: Host, v: Value): Result<string, CleanError> {
    if v.VStr? then HtmlArtifactsRemoved(host, v.s) else Ok(Unguarded(host, v))
  }

  function RemoveExtraWhitespaceOf(host: Host, v: Value): string {
    if v.VStr? then RemoveExtraWhitespace(v.s) else Unguarded(host, v)
  }

  function EncodingNormalizedOf(host: Host, v: Value): string {
    if v.VStr? then EncodingNormalized(host, v.s) else Unguarded(host, v)
  }

  function SpecialCharactersHandledOf(host: Host, v: Value, opts: SpecialOptions): string {
    if v.VStr? then SpecialCharactersHandled(host, v.s, opts) else Unguarded(host, v)
  }

  /** remove_html_tags: None and "" give "", another non-string gives str(v) with no parsing. */
  lemma RemoveHtmlTagsGuard(host: Host, v: Value)
    ensures v == VNull || v == VStr([]) ==> RemoveHtmlTagsOf(host, v) == []
    ensures !v.VStr? && v != VNull ==> RemoveHtmlTagsOf(host, v) == Str(host, v)
  {
  }

  /** remove_html_artifacts: the guard comes before any decoding, so a non-string never raises. */
  lemma HtmlArtifactsGuard(host: Host, v: Value)
    ensures v == VNull || v == VStr([]) ==> HtmlArtifactsRemovedOf(host, v) == Ok([])
    ensures !v.VStr? && v != VNull ==> HtmlArtifactsRemovedOf(host, v) == Ok(Str(host, v))
  {
  }

  /** remove_extra_whitespace: a non-string is rendered but its whitespace is left as it is. */
  lemma RemoveExtraWhitespaceGuard(host: Host, v: Value)
    ensures v == VNull || v == VStr([]) ==> RemoveExtraWhitespaceOf(host, v) == []
    ensures !v.VStr? && v != VNull ==> RemoveExtraWhitespaceOf(host, v) == Str(host, v)
  {
    assert RemoveExtraWhitespace([]) == [];
  }

  /** normalize_encoding: None and "" give "" without calling NFC; another non-string gives str(v). */
  lemma EncodingGuard(host: Host, v: Value)
    ensures v == VNull || v == VStr([]) ==> EncodingNormalizedOf(host, v) == []
    ensures !v.VStr? && v != VNull ==> EncodingNormalizedOf(host, v) == Str(host, v)
  {
  }

  /** handle_special_characters: the guard comes before every option. */
  lemma SpecialCharactersGuard(host: Host, v: Value, opts: SpecialOptions)
    ensures v == VNull || v == VStr([]) ==> SpecialCharactersHandledOf(host, v, opts) == []
    ensures !v.VStr? && v != VNull ==> SpecialCharactersHandledOf(host, v, opts) == Str(host, v)
  {
  }

  /** Only the HTML stage can fail, and only through a numeric reference. */
  lemma CleanedTextFailsOnlyInHtml(host: Host, s: string, opts: CleanOptions)
    ensures CleanedText(host, s, opts).Err? ==> opts.removeHtml && HtmlArtifactsRemoved(host, s).Err?
  {
  }

  /** With every stage disabled the text comes back unchanged. */
  lemma CleanedTextAllOff(host: Host, s: string)
    ensures CleanedText(host, s, CleanOptions(false, false, false, false)) == Ok(s)
  {
  }

  /** Each stage enabled alone is exactly that stage. */
  lemma CleanedTextSingleStage(host: Host, s: string)
    ensures CleanedText(host, s, CleanOptions(true, false, false, false)) == HtmlArtifactsRemoved(host, s)
    ensures CleanedText(host, s, CleanOptions(false, false, true, false)) == Ok(EncodingNormalized(host, s))
    ensures CleanedText(host, s, CleanOptions(false, false, false, true)) == Ok(SpecialCharactersHandled(host, s, DEFAULT_SPECIAL))
    ensures CleanedText(host, s, CleanOptions(false, true, false, false)) == Ok(RemoveExtraWhitespace(s))
  {
    assert RemoveExtraWhitespace([]) == [];
  }

  /** The HTML stage runs first, whatever the parameter order: the rest runs on its output. */
  lemma CleanedTextHtmlFirst(host: Host, s: string, opts: CleanOptions)
    requires opts.removeHtml
    ensures HtmlArtifactsRemoved(host, s).Err? ==> CleanedText(host, s, opts) == Err(HtmlArtifactsRemoved(host, s).error)
    ensures HtmlArtifactsRemoved(host, s).Ok? ==>
      CleanedText(host, s, opts) == CleanedText(host, HtmlArtifactsRemoved(host, s).value, opts.(removeHtml := false))
  {
    if s != [] {
      var h := HtmlArtifactsRemoved(host, s);
      if h.Ok? && h.value == [] {
        assert RemoveExtraWhitespace([]) == [];
      }
    }
  }

  /** The whitespace stage runs last, on the output of the other enabled stages. */
  lemma CleanedTextWhitespaceLast(host: Host, s: string, opts: CleanOptions)
    requires opts.removeExtraSpaces
    ensures var without := CleanedText(host, s, opts.(removeExtraSpaces := false));
      && (without.Err? ==> CleanedText(host, s, opts) == without)
      && (without.Ok? ==> CleanedText(host, s, opts) == Ok(RemoveExtraWhitespace(without.value)))
  {
    if s == [] {
      assert RemoveExtraWhitespace([]) == [];
    } else {
      var html := if opts.removeHtml then HtmlArtifactsRemoved(host, s) else Ok(s);
      if html.Ok? {
        var h := html.value;
        var encoded := if opts.normalizeEnc then EncodingNormalized(host, h) else h;
        var special := if opts.handleSpecial then SpecialCharactersHandled(host, encoded, DEFAULT_SPECIAL) else encoded;
        assert CleanedText(host, s, opts.(removeExtraSpaces := false)) == Ok(special);
        assert CleanedText(host, s, opts) == Ok(RemoveExtraWhitespace(special));
      }
    }
  }

  /** With the whitespace stage on, the result is trimmed and every whitespace run is one ' '. */
  lemma CleanedTextWhitespace(host: Host, s: string, opts: CleanOptions)
    requires opts.removeExtraSpaces && CleanedText(host, s, opts).Ok?
    ensures var r := CleanedText(host, s, opts).value;
      && (r == [] || (!IsSpace(r[0]) && !IsSpace(r[|r| - 1])))
      && Collapsed(r)
  {
    var without := CleanedText(host, s, opts.(removeExtraSpaces := false));
    CleanedTextWhitespaceLast(host, s, opts);
    assert without.Ok?;
    RemoveExtraWhitespaceShape(without.value);
  }
}
