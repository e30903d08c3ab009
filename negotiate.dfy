/**
 * Header negotiation of the `HttpMessage` trait: `content_type`, `mime_type`,
 * `encoding`, `chunked` and `get_header`, pure lookups over the header map,
 * plus the Content-Length reading shared by `MessageBody::new` and
 * `UrlEncoded::new`.
 */
module Negotiate {
  import opened Wrappers
  import opened Text
  import opened Headers

  /** `content_type`: the media type before the first `;`, trimmed; `""` when absent or not text. */
  function ContentType(env: Env, h: HeaderMap): (r: string)
    ensures Get(h, CONTENT_TYPE).None? ==> r == ""
    ensures Get(h, CONTENT_TYPE).Some? && env.toStr(Get(h, CONTENT_TYPE).value).None? ==> r == ""
  {
    match Get(h, CONTENT_TYPE)
    case None => ""
    case Some(v) =>
      match env.toStr(v)
      case None => ""
      case Some(s) => Trim(Split(s, ';')[0])
  }

  /**
   * What `content_type` returns for a textual Content-Type `s`: `Trim(s[..k])`
   * where `k` is the offset of the first `;` (or `|s|` when there is none).
   */
  lemma ContentTypeIsTrimmedPrefix(env: Env, h: HeaderMap, s: string, k: nat)
    requires Get(h, CONTENT_TYPE).Some? && env.toStr(Get(h, CONTENT_TYPE).value) == Some(s)
    requires k <= |s| && ';' !in s[..k] && (k < |s| ==> s[k] == ';')
    ensures ContentType(env, h) == Trim(s[..k])
    ensures ';' !in ContentType(env, h)
  {
    SplitHead(s, ';');
    var p := Split(s, ';')[0];
    assert p == s[..k];
    TrimSubset(s[..k], ';');
  }

  /**
   * A media type with no parameters and no surrounding whitespace comes back
   * unchanged (`text/plain`, test at lines 679-680).
   */
  lemma ContentTypeOfBareMediaType(env: Env, h: HeaderMap, m: string)
    requires Get(h, CONTENT_TYPE).Some? && env.toStr(Get(h, CONTENT_TYPE).value) == Some(m)
    requires ';' !in m && (m != [] ==> !IsWhitespace(m[0]) && !IsWhitespace(m[|m| - 1]))
    ensures ContentType(env, h) == m
  {
    ContentTypeIsTrimmedPrefix(env, h, m, |m|);
    assert m[..|m|] == m;
    TrimUnchanged(m);
  }

  /**
   * Parameters after the first `;` are dropped (`application/json;
   * charset=utf=8` gives `application/json`, test at lines 681-684).
   */
  lemma ContentTypeDropsParameters(env: Env, h: HeaderMap, m: string, params: string)
    requires Get(h, CONTENT_TYPE).Some? && env.toStr(Get(h, CONTENT_TYPE).value) == Some(m + ";" + params)
    requires ';' !in m && (m != [] ==> !IsWhitespace(m[0]) && !IsWhitespace(m[|m| - 1]))
    ensures ContentType(env, h) == m
  {
    var s := m + ";" + params;
    ContentTypeIsTrimmedPrefix(env, h, s, |m|);
    assert s[..|m|] == m;
    TrimUnchanged(m);
  }

  /** `mime_type`: `None` when absent, `ParseError` when not text or not a media type. */
  function MimeType(env: Env, h: HeaderMap): (r: Result<Option<Mime>, ContentTypeError>)
    ensures r == Success(None) <==> Get(h, CONTENT_TYPE).None?
    ensures r.Failure? ==> r.error == ParseError
    ensures r.Failure? <==>
              Get(h, CONTENT_TYPE).Some? &&
              (env.toStr(Get(h, CONTENT_TYPE).value).None? ||
               env.parseMime(env.toStr(Get(h, CONTENT_TYPE).value).value).None?)
    ensures Get(h, CONTENT_TYPE).Some? && env.toStr(Get(h, CONTENT_TYPE).value).Some? &&
            env.parseMime(env.toStr(Get(h, CONTENT_TYPE).value).value).Some? ==>
              r == Success(Some(env.parseMime(env.toStr(Get(h, CONTENT_TYPE).value).value).value))
  {
    match Get(h, CONTENT_TYPE)
    case None => Success(None)
    case Some(v) =>
      match env.toStr(v)
      case None => Failure(ParseError)
      case Some(s) =>
        match env.parseMime(s)
        case None => Failure(ParseError)
        case Some(m) => Success(Some(m))
  }

  /** `Mime::get_param`: the value of the first parameter named `name`, ignoring ASCII case. */
  function GetParam(m: Mime, name: string): (r: Option<string>)
    ensures r.Some? ==> exists i :: 0 <= i < |m.params| && Lower(m.params[i].0) == name && m.params[i].1 == r.value
    ensures r.None? ==> forall i :: 0 <= i < |m.params| ==> Lower(m.params[i].0) != name
  {
    ParamIn(m.params, name)
  }

  function ParamIn(ps: seq<(string, string)>, name: string): (r: Option<string>)
    ensures r.Some? ==> exists i :: 0 <= i < |ps| && Lower(ps[i].0) == name && ps[i].1 == r.value
    ensures r.None? ==> forall i :: 0 <= i < |ps| ==> Lower(ps[i].0) != name
  {
    if ps == [] then None
    else if Lower(ps[0].0) == name then Some(ps[0].1)
    else
      var r := ParamIn(ps[1..], name);
      assert forall i :: 1 <= i < |ps| ==> ps[i] == ps[1..][i - 1];
      r
  }

  /** `encoding`: the charset named by the `charset` parameter, UTF-8 by default. */
  function Encoding(env: Env, h: HeaderMap): (r: Result<Charset, ContentTypeError>)
    ensures MimeType(env, h).Failure? ==> r == Failure(ParseError)
    ensures MimeType(env, h) == Success(None) ==> r == Success(UTF8)
    ensures r == Failure(UnknownEncoding) <==>
              MimeType(env, h).Success? && MimeType(env, h).value.Some? &&
              GetParam(MimeType(env, h).value.value, "charset").Some? &&
              env.charsetOfLabel(GetParam(MimeType(env, h).value.value, "charset").value).None?
  {
    match MimeType(env, h)
    case Failure(e) => Failure(e)
    case Success(None) => Success(UTF8)
    case Success(Some(m)) =>
      match GetParam(m, "charset")
      case None => Success(UTF8)
      case Some(lbl) =>
        match env.charsetOfLabel(lbl)
        case None => Failure(UnknownEncoding)
        case Some(cs) => Success(cs)
  }

  /**
   * The four outcomes of `encoding`: UTF-8 with no Content-Type or no charset
   * parameter; the registry's charset for a known label; `UnknownEncoding`
   * for an unknown one; `ParseError` when the header is there but is not a
   * textual media type.
   */
  lemma EncodingOutcomes(env: Env, h: HeaderMap)
    ensures Get(h, CONTENT_TYPE).None? ==> Encoding(env, h) == Success(UTF8)
    ensures Encoding(env, h) == Failure(ParseError) <==>
              Get(h, CONTENT_TYPE).Some? &&
              (env.toStr(Get(h, CONTENT_TYPE).value).None? ||
               env.parseMime(env.toStr(Get(h, CONTENT_TYPE).value).value).None?)
    ensures forall s, m :: Get(h, CONTENT_TYPE).Some? && env.toStr(Get(h, CONTENT_TYPE).value) == Some(s) && env.parseMime(s) == Some(m) ==>
              Encoding(env, h) == (match GetParam(m, "charset")
                                   case None => Success(UTF8)
                                   case Some(lbl) =>
                                     if env.charsetOfLabel(lbl).Some? then Success(env.charsetOfLabel(lbl).value)
                                     else Failure(UnknownEncoding))
  {
  }

  /** `chunked`: whether Transfer-Encoding, lower-cased, contains `chunked`. */
  function Chunked(env: Env, h: HeaderMap): (r: Result<bool, HeaderParseError>)
    ensures Get(h, TRANSFER_ENCODING).None? ==> r == Success(false)
    ensures r.Failure? <==> Get(h, TRANSFER_ENCODING).Some? && env.toStr(Get(h, TRANSFER_ENCODING).value).None?
    ensures r == Success(true) <==>
              Get(h, TRANSFER_ENCODING).Some? && env.toStr(Get(h, TRANSFER_ENCODING).value).Some? &&
              Contains(Lower(env.toStr(Get(h, TRANSFER_ENCODING).value).value), "chunked")
  {
    match Get(h, TRANSFER_ENCODING)
    case None => Success(false)
    case Some(v) =>
      match env.toStr(v)
      case None => Failure(Header)
      case Some(s) => Success(Contains(Lower(s), "chunked"))
  }

  /** The second example of the test at lines 747-762: the value `chunked` is chunked. */
  lemma ChunkedValue(env: Env, h: HeaderMap)
    requires Get(h, TRANSFER_ENCODING).Some? && env.toStr(Get(h, TRANSFER_ENCODING).value) == Some("chunked")
    ensures Chunked(env, h) == Success(true)
  {
    assert OccursAt(Lower("chunked"), "chunked", 0);
  }

  /** Any capitalisation of `chunked`, anywhere in the value, is recognised. */
  lemma ChunkedIgnoresCase(env: Env, h: HeaderMap, s: string, i: nat)
    requires Get(h, TRANSFER_ENCODING).Some? && env.toStr(Get(h, TRANSFER_ENCODING).value) == Some(s)
    requires i + 7 <= |s| && Lower(s[i..i + 7]) == "chunked"
    ensures Chunked(env, h) == Success(true)
  {
    assert OccursAt(Lower(s), "chunked", i);
  }

  /** `get_header`: a typed header, when the name is present and the value parses. */
  function GetHeader<T>(h: HeaderMap, name: string, parse: HeaderMap -> Result<T, HeaderParseError>): (r: Option<T>)
    ensures r.Some? <==> ContainsKey(h, name) && parse(h).Success?
    ensures r.Some? ==> r.value == parse(h).value
  {
    if ContainsKey(h, name) then
      match parse(h)
      case Success(v) => Some(v)
      case Failure(_) => None
    else None
  }

  /** What the Content-Length header declares, as `MessageBody::new` and `UrlEncoded::new` read it. */
  datatype LengthDecl = NoLength | Declared(n: nat) | BadLength

  /** Content-Length: absent, a `usize`, or (not text, or not a `usize`) bad. */
  function DeclaredLength(env: Env, h: HeaderMap): (r: LengthDecl)
    ensures r == NoLength <==> Get(h, CONTENT_LENGTH).None?
    ensures r.Declared? ==>
              && r.n <= USIZE_MAX
              && env.toStr(Get(h, CONTENT_LENGTH).value).Some?
              && ParseUsize(env.toStr(Get(h, CONTENT_LENGTH).value).value) == Some(r.n)
    ensures r == BadLength <==>
              Get(h, CONTENT_LENGTH).Some? &&
              (env.toStr(Get(h, CONTENT_LENGTH).value).None? ||
               ParseUsize(env.toStr(Get(h, CONTENT_LENGTH).value).value).None?)
  {
    match Get(h, CONTENT_LENGTH)
    case None => NoLength
    case Some(v) =>
      match env.toStr(v)
      case None => BadLength
      case Some(s) =>
        match ParseUsize(s)
        case None => BadLength
        case Some(n) => Declared(n)
  }

  /** Content-Length `xxxx` is bad (tests at lines 799 and 863). */
  lemma DeclaredLengthNotANumber(env: Env, h: HeaderMap)
    requires Get(h, CONTENT_LENGTH).Some? && env.toStr(Get(h, CONTENT_LENGTH).value) == Some("xxxx")
    ensures DeclaredLength(env, h) == BadLength
  {
    assert !IsDigit("xxxx"[0]);
  }

  /** Content-Length `1000000` declares one million bytes (tests at lines 810 and 870). */
  lemma DeclaredLengthMillion(env: Env, h: HeaderMap)
    requires Get(h, CONTENT_LENGTH).Some? && env.toStr(Get(h, CONTENT_LENGTH).value) == Some("1000000")
    ensures DeclaredLength(env, h) == Declared(1000000)
  {
    assert Decimal(1000000) == "1000000";
    ParseDecimal(1000000);
  }
}
