/**
 * The vocabulary shared by every body consumer: the read-only header map, the
 * error enums of `crate::error`, the resolved charset, and `Env`, the bundle
 * of foreign routines the code calls but does not define.
 */
module Headers {
  import opened Wrappers
  import opened Text

  /** The raw bytes of one header value. */
  type HeaderValue = seq<byte>

  /**
   * `http::HeaderMap`: names (lower-case, so lookup is case-insensitive) to
   * the values stored under them, in insertion order.
   */
  type HeaderMap = map<string, seq<HeaderValue>>

  const CONTENT_TYPE: string := "content-type"
  const CONTENT_LENGTH: string := "content-length"
  const TRANSFER_ENCODING: string := "transfer-encoding"
  const COOKIE: string := "cookie"

  /** `HeaderMap::get`: the first value stored under `name`. */
  function Get(h: HeaderMap, name: string): Option<HeaderValue> {
    if name in h && h[name] != [] then Some(h[name][0]) else None
  }

  /** `HeaderMap::get_all`: every value stored under `name`, in order. */
  function GetAll(h: HeaderMap, name: string): seq<HeaderValue> {
    if name in h then h[name] else []
  }

  /** `HeaderMap::contains_key`. */
  predicate ContainsKey(h: HeaderMap, name: string) {
    Get(h, name).Some?
  }

  /**
   * A resolved character encoding. The code tells UTF-8 apart by pointer
   * identity with `UTF_8`; here it is a tag compared by value.
   */
  datatype Charset = UTF8 | Other(id: nat)

  /** A parsed media type: `type/subtype` and its `name=value` parameters. */
  datatype Mime = Mime(essence: string, params: seq<(string, string)>)

  /** One request cookie, `name=value`. */
  datatype Cookie = Cookie(name: string, value: string)

  /** `ContentTypeError`. */
  datatype ContentTypeError = ParseError | UnknownEncoding

  /** `error::ParseError`, of which `chunked` only raises `Header`. */
  datatype HeaderParseError = Header

  /** `PayloadError`; `Transport` stands for the I/O and HTTP/2 variants. */
  datatype PayloadError = Incomplete | EncodingCorrupted | Overflow | UnknownLength | Transport(code: nat)

  /** `UrlencodedError`. */
  datatype UrlencodedError = Chunked | Overflow | UnknownLength | ContentType | Parse | Payload(cause: PayloadError)

  /** `ReadlinesError`. */
  datatype ReadlinesError = EncodingError | Payload(cause: PayloadError) | LimitOverflow | ContentType(reason: ContentTypeError)

  /** `CookieParseError` (the cookie crate's `ParseError`). */
  datatype CookieParseError = MissingPair | EmptyName | Utf8Error

  /**
   * The foreign routines, left uninterpreted:
   *   toStr          `HeaderValue::to_str`
   *   parseMime      `str::parse::<Mime>`
   *   charsetOfLabel `encoding_from_whatwg_label`
   *   fromUtf8       `str::from_utf8`
   *   decodeStrict   `Encoding::decode(.., DecoderTrap::Strict)` of a non-UTF-8 charset
   *   parseCookie    `Cookie::parse_encoded`
   */
  datatype Env = Env(
    toStr: HeaderValue -> Option<string>,
    parseMime: string -> Option<Mime>,
    charsetOfLabel: string -> Option<Charset>,
    fromUtf8: seq<byte> -> Option<string>,
    decodeStrict: (nat, seq<byte>) -> Option<string>,
    parseCookie: string -> Result<Cookie, CookieParseError>)

  /** Strict decoding with a resolved charset: UTF-8 takes the `from_utf8` path. */
  function Decode(env: Env, cs: Charset, bytes: seq<byte>): Option<string> {
    match cs
    case UTF8 => env.fromUtf8(bytes)
    case Other(id) => env.decodeStrict(id, bytes)
  }
}
