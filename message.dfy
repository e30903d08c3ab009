/**
 * The message side of `HttpMessage`: the header map, the payload that a body
 * consumer takes exactly once, and the per-message extension cache holding
 * the parsed cookies (`cookies`, `cookie`).
 */
module Message {
  import opened Wrappers
  import opened Text
  import opened Headers
  import opened Payload

  /** Two steps in order: the first failure wins, otherwise the lists are concatenated. */
  function Chain<T, E>(first: Result<seq<T>, E>, rest: Result<seq<T>, E>): Result<seq<T>, E> {
    match first
    case Failure(e) => Failure(e)
    case Success(a) =>
      match rest
      case Failure(e) => Failure(e)
      case Success(b) => Success(a + b)
  }

  /** A piece that is skipped (empty once trimmed) or parses. */
  ghost predicate SkippedOrParsed(env: Env, part: string) {
    Trim(part) == "" || env.parseCookie(Trim(part)).Success?
  }

  /** The piece at `k` is the first one that fails to parse, and fails with `e`. */
  ghost predicate FirstBadPiece(env: Env, parts: seq<string>, k: int, e: CookieParseError) {
    0 <= k < |parts| && (forall j :: 0 <= j < k ==> SkippedOrParsed(env, parts[j]))
    && env.parseCookie(Trim(parts[k])) == Failure(e)
  }

  /** A first bad piece after a good one is the first bad piece of the longer list. */
  lemma FirstBadPieceShift(env: Env, parts: seq<string>, e: CookieParseError)
    requires parts != [] && SkippedOrParsed(env, parts[0])
    requires exists k :: FirstBadPiece(env, parts[1..], k, e)
    ensures exists k :: FirstBadPiece(env, parts, k, e)
  {
    var k :| FirstBadPiece(env, parts[1..], k, e);
    assert forall j :: 1 <= j < |parts| ==> parts[j] == parts[1..][j - 1];
    assert FirstBadPiece(env, parts, k + 1, e);
  }

  /**
   * `Cookie::parse_encoded` on every non-empty trimmed piece, in order; like
   * `?`, a failure is the error of the first piece that does not parse.
   */
  function ParseSegments(env: Env, parts: seq<string>): (r: Result<seq<Cookie>, CookieParseError>)
    ensures r.Success? ==> |r.value| <= |parts|
    ensures r.Failure? ==> exists k :: FirstBadPiece(env, parts, k, r.error)
    decreases |parts|
  {
    if parts == [] then Success([])
    else
      var t := Trim(parts[0]);
      var rest := ParseSegments(env, parts[1..]);
      assert forall k :: 1 <= k < |parts| ==> parts[k] == parts[1..][k - 1];
      if t == "" then
        (if rest.Failure? then FirstBadPieceShift(env, parts, rest.error); rest else rest)
      else
        match env.parseCookie(t)
        case Failure(e) => assert FirstBadPiece(env, parts, 0, e); Failure(e)
        case Success(c) =>
          if rest.Failure? then FirstBadPieceShift(env, parts, rest.error); Failure(rest.error)
          else Chain(Success([c]), rest)
  }

  /** The cookies of one `Cookie` header value: UTF-8 text split on `;`. */
  function HeaderCookies(env: Env, v: HeaderValue): (r: Result<seq<Cookie>, CookieParseError>)
    ensures env.fromUtf8(v).None? ==> r == Failure(Utf8Error)
    ensures r.Success? ==> env.fromUtf8(v).Some? && |r.value| <= |Split(env.fromUtf8(v).value, ';')|
  {
    match env.fromUtf8(v)
    case None => Failure(Utf8Error)
    case Some(s) => ParseSegments(env, Split(s, ';'))
  }

  /** The cookies of all `Cookie` header values, header by header. */
  function CookiesOf(env: Env, vals: seq<HeaderValue>): (r: Result<seq<Cookie>, CookieParseError>)
    ensures r.Success? ==> forall i :: 0 <= i < |vals| ==> env.fromUtf8(vals[i]).Some?
    ensures vals != [] && env.fromUtf8(vals[0]).None? ==> r == Failure(Utf8Error)
    decreases |vals|
  {
    if vals == [] then Success([])
    else
      var rest := CookiesOf(env, vals[1..]);
      assert forall i :: 1 <= i < |vals| ==> vals[i] == vals[1..][i - 1];
      Chain(HeaderCookies(env, vals[0]), rest)
  }

  /** The non-empty trimmed pieces, in order: the cookie strings of one header. */
  function NonEmptyTrimmed(parts: seq<string>): (r: seq<string>)
    ensures forall k :: 0 <= k < |r| ==> r[k] != "" && !IsWhitespace(r[k][0])
  {
    if parts == [] then []
    else (if Trim(parts[0]) == "" then [] else [Trim(parts[0])]) + NonEmptyTrimmed(parts[1..])
  }

  /** The cookie strings of every header value that is UTF-8, header by header. */
  function CookieTexts(env: Env, vals: seq<HeaderValue>): seq<string> {
    if vals == [] then []
    else
      (match env.fromUtf8(vals[0])
       case None => []
       case Some(s) => NonEmptyTrimmed(Split(s, ';'))) + CookieTexts(env, vals[1..])
  }

  /** Every string in `ts` parses as a cookie. */
  ghost predicate AllParse(env: Env, ts: seq<string>) {
    forall k :: 0 <= k < |ts| ==> env.parseCookie(ts[k]).Success?
  }

  /** `cs` is `ts` parsed one by one. */
  ghost predicate ParsedAs(env: Env, ts: seq<string>, cs: seq<Cookie>) {
    |cs| == |ts| && forall k :: 0 <= k < |ts| ==> env.parseCookie(ts[k]) == Success(cs[k])
  }

  lemma ParsedAsAppend(env: Env, t1: seq<string>, c1: seq<Cookie>, t2: seq<string>, c2: seq<Cookie>)
    requires ParsedAs(env, t1, c1) && ParsedAs(env, t2, c2)
    ensures ParsedAs(env, t1 + t2, c1 + c2)
  {
    assert forall k :: |t1| <= k < |t1| + |t2| ==> (t1 + t2)[k] == t2[k - |t1|] && (c1 + c2)[k] == c2[k - |t1|];
  }

  lemma AllParseAppend(env: Env, t1: seq<string>, t2: seq<string>)
    ensures AllParse(env, t1 + t2) <==> AllParse(env, t1) && AllParse(env, t2)
  {
    if AllParse(env, t1) && AllParse(env, t2) {
      forall k | 0 <= k < |t1 + t2|
        ensures env.parseCookie((t1 + t2)[k]).Success?
      {
        if k < |t1| {
          assert (t1 + t2)[k] == t1[k];
        } else {
          assert (t1 + t2)[k] == t2[k - |t1|];
        }
      }
    }
    if AllParse(env, t1 + t2) {
      forall k | 0 <= k < |t1| ensures env.parseCookie(t1[k]).Success? {
        assert (t1 + t2)[k] == t1[k];
      }
      forall k | 0 <= k < |t2| ensures env.parseCookie(t2[k]).Success? {
        assert (t1 + t2)[|t1| + k] == t2[k];
      }
    }
  }

  /**
   * The cookies of one header are its non-empty trimmed pieces parsed in
   * order, and parsing fails exactly when one of those pieces does not parse.
   */
  lemma {:induction false} SegmentsParsed(env: Env, parts: seq<string>)
    ensures ParseSegments(env, parts).Success? <==> AllParse(env, NonEmptyTrimmed(parts))
    ensures ParseSegments(env, parts).Success? ==> ParsedAs(env, NonEmptyTrimmed(parts), ParseSegments(env, parts).value)
    decreases |parts|
  {
    if parts != [] {
      SegmentsParsed(env, parts[1..]);
      var t := Trim(parts[0]);
      var head := if t == "" then [] else [t];
      assert NonEmptyTrimmed(parts) == head + NonEmptyTrimmed(parts[1..]);
      AllParseAppend(env, head, NonEmptyTrimmed(parts[1..]));
      if t == "" {
        assert NonEmptyTrimmed(parts) == NonEmptyTrimmed(parts[1..]);
      } else if env.parseCookie(t).Failure? {
        assert head[0] == t;
        assert !AllParse(env, head);
      } else if ParseSegments(env, parts[1..]).Success? {
        ParsedAsAppend(env, head, [env.parseCookie(t).value], NonEmptyTrimmed(parts[1..]), ParseSegments(env, parts[1..]).value);
      }
    }
  }

  /** Every header value is UTF-8. */
  ghost predicate AllUtf8(env: Env, vals: seq<HeaderValue>) {
    forall i :: 0 <= i < |vals| ==> env.fromUtf8(vals[i]).Some?
  }

  lemma AllUtf8Cons(env: Env, vals: seq<HeaderValue>)
    requires vals != []
    ensures AllUtf8(env, vals) <==> env.fromUtf8(vals[0]).Some? && AllUtf8(env, vals[1..])
  {
    assert forall i :: 1 <= i < |vals| ==> vals[i] == vals[1..][i - 1];
  }

  /** The header at `i` is the first one whose cookies fail, and fails with `e`. */
  ghost predicate FirstBadHeader(env: Env, vals: seq<HeaderValue>, i: int, e: CookieParseError) {
    0 <= i < |vals| && CookiesOf(env, vals[..i]).Success? && HeaderCookies(env, vals[i]) == Failure(e)
  }

  /** A failure is located at the first header that fails, or after a header that succeeds. */
  lemma FirstBadHeaderShift(env: Env, vals: seq<HeaderValue>)
    requires vals != [] && CookiesOf(env, vals).Failure?
    requires CookiesOf(env, vals[1..]).Failure? ==> exists i :: FirstBadHeader(env, vals[1..], i, CookiesOf(env, vals[1..]).error)
    ensures exists i :: FirstBadHeader(env, vals, i, CookiesOf(env, vals).error)
  {
    var e := CookiesOf(env, vals).error;
    if HeaderCookies(env, vals[0]).Failure? {
      assert vals[..0] == [];
      assert FirstBadHeader(env, vals, 0, e);
    } else {
      var i :| FirstBadHeader(env, vals[1..], i, e);
      GoodPrefixGrows(env, vals, i);
      assert vals[i + 1] == vals[1..][i];
      assert FirstBadHeader(env, vals, i + 1, e);
    }
  }

  lemma GoodPrefixGrows(env: Env, vals: seq<HeaderValue>, i: nat)
    requires i < |vals| - 1 && HeaderCookies(env, vals[0]).Success? && CookiesOf(env, vals[1..][..i]).Success?
    ensures CookiesOf(env, vals[..i + 1]).Success?
  {
    var pre := vals[..i + 1];
    PrefixTail(vals, i);
    ConsGood(env, pre);
  }

  lemma PrefixTail<T>(xs: seq<T>, i: nat)
    requires i < |xs|
    ensures xs[..i + 1][0] == xs[0] && xs[..i + 1][1..] == xs[1..][..i]
  { }

  lemma ConsGood(env: Env, vals: seq<HeaderValue>)
    requires vals != [] && HeaderCookies(env, vals[0]).Success? && CookiesOf(env, vals[1..]).Success?
    ensures CookiesOf(env, vals).Success?
  { }

  /**
   * What `cookies` computes: on success, the non-empty trimmed `;`-pieces of
   * every `Cookie` header, header by header and in order within a header,
   * each parsed; and it succeeds exactly when every header is UTF-8 and every
   * piece parses. Like `?`, a failure is that of the first header that
   * fails, every header before it parsing.
   */
  lemma {:induction false} CookiesOfParsed(env: Env, vals: seq<HeaderValue>)
    ensures CookiesOf(env, vals).Success? <==> AllUtf8(env, vals) && AllParse(env, CookieTexts(env, vals))
    ensures CookiesOf(env, vals).Success? ==> ParsedAs(env, CookieTexts(env, vals), CookiesOf(env, vals).value)
    ensures CookiesOf(env, vals).Failure? ==> exists i :: FirstBadHeader(env, vals, i, CookiesOf(env, vals).error)
    decreases |vals|
  {
    if vals != [] {
      var rest := vals[1..];
      CookiesOfParsed(env, rest);
      if CookiesOf(env, vals).Failure? {
        FirstBadHeaderShift(env, vals);
      }
      AllUtf8Cons(env, vals);
      match env.fromUtf8(vals[0])
      case None =>
        assert CookiesOf(env, vals).Failure?;
      case Some(s) =>
        var ts := NonEmptyTrimmed(Split(s, ';'));
        assert CookieTexts(env, vals) == ts + CookieTexts(env, rest);
        assert CookiesOf(env, vals) == Chain(ParseSegments(env, Split(s, ';')), CookiesOf(env, rest));
        SegmentsParsed(env, Split(s, ';'));
        AllParseAppend(env, ts, CookieTexts(env, rest));
        if CookiesOf(env, vals).Success? {
          ParsedAsAppend(env, ts, ParseSegments(env, Split(s, ';')).value, CookieTexts(env, rest), CookiesOf(env, rest).value);
        }
    }
  }

  /** `cookie(name)`'s search: the first cookie called `name`. */
  function FindCookie(cs: seq<Cookie>, name: string): (r: Option<Cookie>)
    ensures r.None? <==> forall i :: 0 <= i < |cs| ==> cs[i].name != name
    ensures r.Some? ==> r.value.name == name && r.value in cs
    decreases |cs|
  {
    if cs == [] then None
    else if cs[0].name == name then Some(cs[0])
    else
      var r := FindCookie(cs[1..], name);
      assert forall i :: 1 <= i < |cs| ==> cs[i] == cs[1..][i - 1];
      r
  }

  /** When the cookie at `i` is the first one called `name`, it is the one found. */
  lemma {:induction false} FindCookieFirst(cs: seq<Cookie>, name: string, i: nat)
    requires i < |cs| && cs[i].name == name
    requires forall j :: 0 <= j < i ==> cs[j].name != name
    ensures FindCookie(cs, name) == Some(cs[i])
  {
    if i > 0 {
      FindCookieFirst(cs[1..], name, i - 1);
    }
  }

  /** The loop of `cookie(name)` over the cached list, returning at the first match. */
  method SearchCookies(cs: seq<Cookie>, name: string) returns (c: Option<Cookie>)
    ensures c == FindCookie(cs, name)
  {
    var i := 0;
    while i < |cs|
      invariant 0 <= i <= |cs|
      invariant forall j :: 0 <= j < i ==> cs[j].name != name
    {
      if cs[i].name == name {
        FindCookieFirst(cs, name, i);
        return Some(cs[i]);
      }
      i := i + 1;
    }
    return None;
  }

  /** One header of the outer loop: a non-UTF-8 value fails, a UTF-8 one hands its pieces on. */
  lemma CookiesOfAt(env: Env, cookies: seq<Cookie>, vals: seq<HeaderValue>, i: nat)
    requires i < |vals|
    ensures env.fromUtf8(vals[i]).None? ==> Chain(Success(cookies), CookiesOf(env, vals[i..])) == Failure(Utf8Error)
    ensures env.fromUtf8(vals[i]).Some? ==>
              Chain(Success(cookies), CookiesOf(env, vals[i..])) ==
              Chain(Success(cookies), Chain(ParseSegments(env, Split(env.fromUtf8(vals[i]).value, ';')), CookiesOf(env, vals[i + 1..])))
  {
    assert vals[i..][1..] == vals[i + 1..];
  }

  /** One piece of the inner loop: skipped when blank, else parsed and pushed, or the failure. */
  lemma SegmentsAt(env: Env, acc: seq<Cookie>, parts: seq<string>, j: nat)
    requires j < |parts|
    ensures Trim(parts[j]) == "" ==>
              Chain(Success(acc), ParseSegments(env, parts[j..])) == Chain(Success(acc), ParseSegments(env, parts[j + 1..]))
    ensures Trim(parts[j]) != "" && env.parseCookie(Trim(parts[j])).Failure? ==>
              Chain(Success(acc), ParseSegments(env, parts[j..])) == Failure(env.parseCookie(Trim(parts[j])).error)
    ensures Trim(parts[j]) != "" && env.parseCookie(Trim(parts[j])).Success? ==>
              Chain(Success(acc), ParseSegments(env, parts[j..])) ==
              Chain(Success(acc + [env.parseCookie(Trim(parts[j])).value]), ParseSegments(env, parts[j + 1..]))
  {
    assert parts[j..][1..] == parts[j + 1..];
    var t := Trim(parts[j]);
    if t != "" && env.parseCookie(t).Success? {
      var c := env.parseCookie(t).value;
      var tail := ParseSegments(env, parts[j + 1..]);
      if tail.Success? {
        assert acc + ([c] + tail.value) == (acc + [c]) + tail.value;
      }
    }
  }

  /** `Chain` is associative. */
  lemma ChainAssoc<T, E>(x: Result<seq<T>, E>, y: Result<seq<T>, E>, z: Result<seq<T>, E>)
    ensures Chain(Chain(x, y), z) == Chain(x, Chain(y, z))
  {
    if x.Success? && y.Success? && z.Success? {
      assert (x.value + y.value) + z.value == x.value + (y.value + z.value);
    }
  }

  lemma ChainEmpty<T, E>(x: Result<seq<T>, E>)
    ensures Chain(Success([]), x) == x
  {
    if x.Success? {
      assert [] + x.value == x.value;
    }
  }

  /**
   * The inner loop of `cookies`: push the cookie of every non-blank piece of
   * one header onto `cookies`, stopping at the first that does not parse.
   */
  method PushSegments(env: Env, cookies: seq<Cookie>, parts: seq<string>) returns (r: Result<seq<Cookie>, CookieParseError>)
    ensures r == Chain(Success(cookies), ParseSegments(env, parts))
  {
    var acc := cookies;
    var j := 0;
    assert parts[j..] == parts;
    while j < |parts|
      invariant 0 <= j <= |parts|
      invariant Chain(Success(cookies), ParseSegments(env, parts)) == Chain(Success(acc), ParseSegments(env, parts[j..]))
    {
      SegmentsAt(env, acc, parts, j);
      var t := Trim(parts[j]);
      if t != "" {
        var parsed := env.parseCookie(t);
        if parsed.Failure? {
          return Failure(parsed.error);
        }
        acc := acc + [parsed.value];
      }
      j := j + 1;
    }
    assert parts[j..] == [];
    assert acc + [] == acc;
    return Success(acc);
  }

  /** The outer loop of `cookies`: every `Cookie` header in turn, stopping at the first failure. */
  method ParseCookieHeaders(env: Env, vals: seq<HeaderValue>) returns (r: Result<seq<Cookie>, CookieParseError>)
    ensures r == CookiesOf(env, vals)
  {
    var cookies: seq<Cookie> := [];
    var i := 0;
    assert vals[i..] == vals;
    ChainEmpty(CookiesOf(env, vals));
    while i < |vals|
      invariant 0 <= i <= |vals|
      invariant CookiesOf(env, vals) == Chain(Success(cookies), CookiesOf(env, vals[i..]))
    {
      CookiesOfAt(env, cookies, vals, i);
      var text := env.fromUtf8(vals[i]);
      if text.None? {
        return Failure(Utf8Error);
      }
      var pushed := PushSegments(env, cookies, Split(text.value, ';'));
      ChainAssoc(Success(cookies), ParseSegments(env, Split(text.value, ';')), CookiesOf(env, vals[i + 1..]));
      if pushed.Failure? {
        return Failure(pushed.error);
      }
      cookies := pushed.value;
      i := i + 1;
    }
    assert vals[i..] == [];
    assert cookies + [] == cookies;
    return Success(cookies);
  }

  /** A message: read-only headers, a payload that can be taken once, and the cookie cache. */
  class Message {
    const headers: HeaderMap
    var payload: seq<Event>
    var cookieCache: Option<seq<Cookie>>

    constructor (headers: HeaderMap, payload: seq<Event>)
      ensures this.headers == headers && this.payload == payload && cookieCache == None
    {
      this.headers := headers;
      this.payload := payload;
      cookieCache := None;
    }

    /** `take_payload`: hand the payload over, leaving `Payload::None` behind. */
    method TakePayload() returns (p: seq<Event>)
      modifies this`payload
      ensures p == old(payload) && payload == []
    {
      p := payload;
      payload := [];
    }

    /**
     * `cookies`: parse every `Cookie` header once, caching the list on
     * success; a cached list is returned as it is, without parsing again.
     */
    method Cookies(env: Env) returns (r: Result<seq<Cookie>, CookieParseError>)
      modifies this`cookieCache
      ensures old(cookieCache).Some? ==> r == Success(old(cookieCache).value) && cookieCache == old(cookieCache)
      ensures old(cookieCache).None? ==>
                && r == CookiesOf(env, GetAll(headers, COOKIE))
                && cookieCache == (if r.Success? then Some(r.value) else None)
    {
      if cookieCache.Some? {
        return Success(cookieCache.value);
      }
      r := ParseCookieHeaders(env, GetAll(headers, COOKIE));
      if r.Success? {
        cookieCache := Some(r.value);
      }
    }

    /** `cookie(name)`: the first cookie called `name`, or `None` when parsing fails. */
    method CookieNamed(env: Env, name: string) returns (c: Option<Cookie>)
      modifies this`cookieCache
      ensures old(cookieCache).Some? ==> c == FindCookie(old(cookieCache).value, name) && cookieCache == old(cookieCache)
      ensures old(cookieCache).None? ==>
                var all := CookiesOf(env, GetAll(headers, COOKIE));
                && c == (if all.Success? then FindCookie(all.value, name) else None)
                && cookieCache == (if all.Success? then Some(all.value) else None)
    {
      var r := Cookies(env);
      c := None;
      if r.Success? {
        c := SearchCookies(r.value, name);
      }
    }
  }
}
