/**
 * Loosely typed record values (what json.load produces) and the library
 * facilities the core calls but whose code is not part of this model.
 */
module Values {
  import opened Wrappers
  import opened Text

  /** A JSON-like Python value; VOther stands for floats, dicts and anything else. */
  datatype Value =
    | VStr(s: string)
    | VNull
    | VBool(b: bool)
    | VInt(i: int)
    | VList(items: seq<Value>)
    | VOther(id: nat)

  /** A record: a dict from field names to values. */
  type Record = map<string, Value>

  /** The two components of urllib.parse.urlparse that validate_url reads. */
  datatype UrlParts = UrlParts(scheme: string, netloc: string)

  /**
   * Foreign code, supplied by the caller and left uninterpreted:
   *  - nfc: unicodedata.normalize("NFC", ·) (Unicode Standard Annex #15);
   *  - isPrintable: str.isprintable on one character;
   *  - parseHtml: HTMLTagStripper.feed followed by get_text, None when feed raises;
   *  - urlParse: urllib.parse.urlparse, None when it raises;
   *  - repr: str() of a list or of a value the model does not spell out.
   */
  datatype Host = Host(
    nfc: string -> string,
    isPrintable: char -> bool,
    parseHtml: string -> Option<string>,
    urlParse: string -> Option<UrlParts>,
    repr: Value -> string)

  /** Python's str(v). */
  function Str(host: Host, v: Value): (r: string)
    ensures v.VStr? ==> r == v.s
  {
    match v
    case VStr(s) => s
    case VNull => "None"
    case VBool(b) => if b then "True" else "False"
    case VInt(i) => IntToString(i)
    case _ => host.repr(v)
  }

  /** `key in d and d[key] is not None` */
  predicate HasValue(r: Record, key: string) {
    key in r && r[key] != VNull
  }
}
