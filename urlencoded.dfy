/**
 * `UrlEncoded` (lines 545-664): the future that reads the whole body under a
 * byte limit and deserializes it as an `application/x-www-form-urlencoded`
 * form. Construction checks the media type, the charset and Content-Length,
 * in that order, and defers the first failure to the first poll.
 */
module Urlencoded {
  import opened Wrappers
  import opened Text
  import opened Headers
  import opened Negotiate
  import opened Payload
  import Body
  import Message

  /** `serde_urlencoded::from_bytes` and `from_str` for the target type `U`: partial, otherwise unknown. */
  datatype FormCodec<U> = FormCodec(fromBytes: seq<byte> -> Option<U>, fromStr: string -> Option<U>)

  /** The only media type accepted, compared after lower-casing. */
  const FORM_URLENCODED: string := "application/x-www-form-urlencoded"

  /** The fields of an `UrlEncoded`, as one value. */
  datatype FormState = FormState(limit: nat, length: Option<nat>, cs: Charset, err: Option<UrlencodedError>,
                                 stream: seq<Event>, fut: Body.Fut)

  ghost predicate FormValid(st: FormState) {
    st.fut.Folding? ==> |st.fut.body| <= st.fut.cap
  }

  /** The value `UrlEncoded::err(e)` builds: UTF-8, no stream, `e` deferred. */
  function Poisoned(e: UrlencodedError): FormState {
    FormState(DEFAULT_LIMIT, None, UTF8, Some(e), [], Body.Idle)
  }

  /**
   * `UrlEncoded::new`: the first failing check, in the order media type,
   * charset, Content-Length, is deferred; only a request passing all three
   * gives up its payload.
   */
  function NewForm(env: Env, h: HeaderMap, payload: seq<Event>): (st: FormState)
    ensures FormValid(st) && st.limit == DEFAULT_LIMIT && st.fut == Body.Idle
    ensures Lower(Negotiate.ContentType(env, h)) != FORM_URLENCODED ==> st == Poisoned(UrlencodedError.ContentType)
    ensures Lower(Negotiate.ContentType(env, h)) == FORM_URLENCODED && Encoding(env, h).Failure? ==>
              st == Poisoned(UrlencodedError.ContentType)
    ensures Lower(Negotiate.ContentType(env, h)) == FORM_URLENCODED && Encoding(env, h).Success? && DeclaredLength(env, h) == BadLength ==>
              st == Poisoned(UrlencodedError.UnknownLength)
    ensures st.err.None? <==>
              Lower(Negotiate.ContentType(env, h)) == FORM_URLENCODED && Encoding(env, h).Success? && DeclaredLength(env, h) != BadLength
    ensures st.err.None? ==>
              && st.stream == payload && st.cs == Encoding(env, h).value
              && st.length == (if DeclaredLength(env, h).Declared? then Some(DeclaredLength(env, h).n) else None)
  {
    if Lower(Negotiate.ContentType(env, h)) != FORM_URLENCODED then Poisoned(UrlencodedError.ContentType)
    else
      match Encoding(env, h)
      case Failure(_) => Poisoned(UrlencodedError.ContentType)
      case Success(cs) =>
        match DeclaredLength(env, h)
        case BadLength => Poisoned(UrlencodedError.UnknownLength)
        case NoLength => FormState(DEFAULT_LIMIT, None, cs, None, payload, Body.Idle)
        case Declared(n) => FormState(DEFAULT_LIMIT, Some(n), cs, None, payload, Body.Idle)
  }

  /**
   * The `and_then` stage: UTF-8 bodies go straight to the byte deserializer,
   * others are strictly decoded first; every failure is `Parse`.
   */
  function Finish<U>(env: Env, codec: FormCodec<U>, cs: Charset, body: seq<byte>): (r: Result<U, UrlencodedError>)
    ensures r.Failure? ==> r.error == UrlencodedError.Parse
    ensures cs == UTF8 ==> (r.Success? <==> codec.fromBytes(body).Some?)
    ensures cs.Other? ==> (r.Success? <==> Decode(env, cs, body).Some? && codec.fromStr(Decode(env, cs, body).value).Some?)
    ensures r.Success? ==> r.value == (if cs == UTF8 then codec.fromBytes(body).value else codec.fromStr(Decode(env, cs, body).value).value)
  {
    if cs == UTF8 then
      match codec.fromBytes(body)
      case None => Failure(UrlencodedError.Parse)
      case Some(v) => Success(v)
    else
      match Decode(env, cs, body)
      case None => Failure(UrlencodedError.Parse)
      case Some(s) =>
        match codec.fromStr(s)
        case None => Failure(UrlencodedError.Parse)
        case Some(v) => Success(v)
  }

  /** Poll the installed fold once, finishing the body when the stream ends. */
  function Resume<U>(env: Env, codec: FormCodec<U>, st: FormState): (r: (Poll<U, UrlencodedError>, FormState))
    requires st.fut.Folding? && FormValid(st)
    ensures FormValid(r.1)
    ensures r.0.Failed? || r.0.Ready? ==> r.1.fut.Spent?
    ensures r.0.Pending? ==> r.1.fut.Folding? && r.1.fut.cap == st.fut.cap
  {
    var (out, rest) := Drain(st.fut.body, st.fut.cap, st.stream);
    DrainBounded(st.fut.body, st.fut.cap, st.stream);
    match out
    case Suspended(b) => (Pending, st.(stream := rest, fut := Body.Folding(b, st.fut.cap)))
    case Complete(b) =>
      (match Finish(env, codec, st.cs, b)
       case Success(v) => Ready(v)
       case Failure(e) => Failed(e), st.(stream := rest, fut := Body.Spent))
    case TooLarge => (Failed(UrlencodedError.Overflow), st.(stream := rest, fut := Body.Spent))
    case SourceFailed(e) => (Failed(UrlencodedError.Payload(e)), st.(stream := rest, fut := Body.Spent))
  }

  /**
   * Across polls, with not-ready answers in between, the body grows by exactly
   * the chunks consumed, and a `Ready` value is what the body made of the old
   * body followed by those chunks deserializes to.
   */
  lemma ResumeGrowsForm<U>(env: Env, codec: FormCodec<U>, st: FormState)
    requires st.fut.Folding? && FormValid(st)
    ensures var (r, st') := Resume(env, codec, st);
            var k := |st.stream| - |st'.stream|;
            && 0 <= k <= |st.stream| && st'.stream == st.stream[k..]
            && (st'.fut.Folding? ==> st'.fut.body == st.fut.body + ChunkBytes(st.stream[..k]))
            && (r.Ready? ==> Finish(env, codec, st.cs, st.fut.body + ChunkBytes(st.stream[..k])) == Success(r.value))
  {
    DrainConsumesPrefix(st.fut.body, st.fut.cap, st.stream);
  }

  /** `UrlEncoded::poll`: the fold, else the deferred error, else the declared length, else install the fold. */
  function FormPoll<U>(env: Env, codec: FormCodec<U>, st: FormState): (r: (Poll<U, UrlencodedError>, FormState))
    requires !st.fut.Spent? && FormValid(st)
    ensures FormValid(r.1)
  {
    if st.fut.Folding? then Resume(env, codec, st)
    else if st.err.Some? then (Failed(st.err.value), st.(err := None))
    else if st.length.Some? && st.length.value > st.limit then (Failed(UrlencodedError.Overflow), st.(length := None))
    else Resume(env, codec, st.(length := None, fut := Body.Folding([], st.limit)))
  }

  /**
   * The errors of a fresh `UrlEncoded` whose limit was set to `m` come in
   * this order: media type, charset, Content-Length, declared length above
   * `m`; only then is the stream folded.
   */
  lemma FirstPollOrder<U>(env: Env, codec: FormCodec<U>, h: HeaderMap, payload: seq<Event>, m: nat)
    ensures var st := NewForm(env, h, payload).(limit := m);
            var r := FormPoll(env, codec, st).0;
            && (Lower(Negotiate.ContentType(env, h)) != FORM_URLENCODED ==> r == Failed(UrlencodedError.ContentType))
            && (Lower(Negotiate.ContentType(env, h)) == FORM_URLENCODED && Encoding(env, h).Failure? ==>
                  r == Failed(UrlencodedError.ContentType))
            && (Lower(Negotiate.ContentType(env, h)) == FORM_URLENCODED && Encoding(env, h).Success? && DeclaredLength(env, h) == BadLength ==>
                  r == Failed(UrlencodedError.UnknownLength))
            && (st.err.None? && DeclaredLength(env, h).Declared? && DeclaredLength(env, h).n > m ==>
                  r == Failed(UrlencodedError.Overflow) && FormPoll(env, codec, st).1.stream == payload)
            && (st.err.None? && (DeclaredLength(env, h) == NoLength || DeclaredLength(env, h).n <= m) ==>
                  FormPoll(env, codec, st) == Resume(env, codec, st.(length := None, fut := Body.Folding([], m))))
  {
  }

  /**
   * A request that passes the checks and whose payload is chunks that then
   * end resolves at the first poll to the deserialized body, `Overflow` when
   * the body exceeds `m`, or `Parse`.
   */
  lemma FirstPollReadsForm<U>(env: Env, codec: FormCodec<U>, h: HeaderMap, payload: seq<Event>, m: nat)
    requires NewForm(env, h, payload).err.None? && AllChunks(payload)
    requires DeclaredLength(env, h) == NoLength || DeclaredLength(env, h).n <= m
    ensures var r := FormPoll(env, codec, NewForm(env, h, payload).(limit := m)).0;
            var body := ChunkBytes(payload);
            && (|body| > m ==> r == Failed(UrlencodedError.Overflow))
            && (|body| <= m ==> r == (match Finish(env, codec, Encoding(env, h).value, body)
                                      case Success(v) => Ready(v)
                                      case Failure(e) => Failed(e)))
  {
    DrainWholeStream([], m, payload);
    assert [] + ChunkBytes(payload) == ChunkBytes(payload);
  }

  /** `FORM_URLENCODED` is already lower case. */
  lemma LowerFormUrlencoded()
    ensures Lower(FORM_URLENCODED) == FORM_URLENCODED
  {
    assert forall i :: 0 <= i < |FORM_URLENCODED| ==> !('A' <= FORM_URLENCODED[i] <= 'Z');
  }

  /**
   * The test at lines 794-824: with the form media type, Content-Length
   * `xxxx` gives `UnknownLength` and `1000000` gives `Overflow`; with
   * `text/plain` the media type check fails first.
   */
  lemma ErrorTests<U>(env: Env, codec: FormCodec<U>, h: HeaderMap, payload: seq<Event>)
    requires Get(h, CONTENT_LENGTH).Some?
    ensures Negotiate.ContentType(env, h) == FORM_URLENCODED && Encoding(env, h).Success? &&
            env.toStr(Get(h, CONTENT_LENGTH).value) == Some("xxxx") ==>
              FormPoll(env, codec, NewForm(env, h, payload)).0 == Failed(UrlencodedError.UnknownLength)
    ensures Negotiate.ContentType(env, h) == FORM_URLENCODED && Encoding(env, h).Success? &&
            env.toStr(Get(h, CONTENT_LENGTH).value) == Some("1000000") ==>
              FormPoll(env, codec, NewForm(env, h, payload)).0 == Failed(UrlencodedError.Overflow)
    ensures Negotiate.ContentType(env, h) == "text/plain" ==>
              FormPoll(env, codec, NewForm(env, h, payload)).0 == Failed(UrlencodedError.ContentType)
  {
    LowerFormUrlencoded();
    if env.toStr(Get(h, CONTENT_LENGTH).value) == Some("xxxx") {
      DeclaredLengthNotANumber(env, h);
    }
    if env.toStr(Get(h, CONTENT_LENGTH).value) == Some("1000000") {
      DeclaredLengthMillion(env, h);
    }
    if Negotiate.ContentType(env, h) == "text/plain" {
      assert |Lower(Negotiate.ContentType(env, h))| != |FORM_URLENCODED|;
    }
  }

  /** Content-Length `11` declares eleven bytes. */
  lemma DeclaredLengthEleven(env: Env, h: HeaderMap)
    requires Get(h, CONTENT_LENGTH).Some? && env.toStr(Get(h, CONTENT_LENGTH).value) == Some("11")
    ensures DeclaredLength(env, h) == Declared(11)
  {
    assert Decimal(11) == "11";
    ParseDecimal(11);
  }

  /** A UTF-8 form arriving as one chunk that fits the default limit resolves to what the deserializer makes of it. */
  lemma OneChunkForm<U>(env: Env, codec: FormCodec<U>, h: HeaderMap, body: seq<byte>, v: U)
    requires NewForm(env, h, [Chunk(body)]).err.None? && Encoding(env, h) == Success(UTF8)
    requires DeclaredLength(env, h) == NoLength || DeclaredLength(env, h).n <= DEFAULT_LIMIT
    requires |body| <= DEFAULT_LIMIT && codec.fromBytes(body) == Some(v)
    ensures FormPoll(env, codec, NewForm(env, h, [Chunk(body)])).0 == Ready(v)
  {
    var payload := [Chunk(body)];
    assert payload[1..] == [];
    assert ChunkBytes(payload) == body;
    assert NewForm(env, h, payload).(limit := DEFAULT_LIMIT) == NewForm(env, h, payload);
    FirstPollReadsForm(env, codec, h, payload, DEFAULT_LIMIT);
  }

  /**
   * The test at lines 827-859: `hello=world` with Content-Length 11 and a
   * UTF-8 form media type (with or without `charset=utf-8`) resolves to what
   * the deserializer makes of those bytes.
   */
  lemma HelloWorld<U>(env: Env, codec: FormCodec<U>, h: HeaderMap, v: U)
    requires Negotiate.ContentType(env, h) == FORM_URLENCODED && Encoding(env, h) == Success(UTF8)
    requires Get(h, CONTENT_LENGTH).Some? && env.toStr(Get(h, CONTENT_LENGTH).value) == Some("11")
    requires codec.fromBytes(Bytes("hello=world")) == Some(v)
    ensures FormPoll(env, codec, NewForm(env, h, [Chunk(Bytes("hello=world"))])).0 == Ready(v)
  {
    DeclaredLengthEleven(env, h);
    LowerFormUrlencoded();
    var body := Bytes("hello=world");
    assert |body| == 11;
    assert NewForm(env, h, [Chunk(body)]).err.None?;
    OneChunkForm(env, codec, h, body, v);
  }

  /** The future returned by `HttpMessage::urlencoded`. */
  class UrlEncoded<U> {
    const env: Env
    const codec: FormCodec<U>
    var limit: nat
    var length: Option<nat>
    var cs: Charset
    var err: Option<UrlencodedError>
    var stream: seq<Event>
    var fut: Body.Fut

    function State(): FormState
      reads this
    {
      FormState(limit, length, cs, err, stream, fut)
    }

    ghost predicate Valid()
      reads this
    {
      FormValid(State())
    }

    /** `UrlEncoded::new`: takes the payload only when every check passes. */
    constructor (env: Env, codec: FormCodec<U>, req: Message.Message)
      modifies req
      ensures this.env == env && this.codec == codec
      ensures Valid() && State() == NewForm(env, req.headers, old(req.payload))
      ensures req.payload == (if err.None? then [] else old(req.payload))
      ensures req.cookieCache == old(req.cookieCache)
    {
      this.env, this.codec := env, codec;
      limit, length, cs, err, stream, fut := DEFAULT_LIMIT, None, UTF8, None, [], Body.Idle;
      var enc := Encoding(env, req.headers);
      var decl := DeclaredLength(env, req.headers);
      if Lower(Negotiate.ContentType(env, req.headers)) != FORM_URLENCODED {
        err := Some(UrlencodedError.ContentType);
      } else if enc.Failure? {
        err := Some(UrlencodedError.ContentType);
      } else if decl.BadLength? {
        err := Some(UrlencodedError.UnknownLength);
      } else {
        var p := req.TakePayload();
        cs, stream := enc.value, p;
        length := if decl.Declared? then Some(decl.n) else None;
      }
    }

    /** `limit(n)`: replace the byte limit. */
    method Limit(n: nat)
      modifies this`limit
      ensures State() == old(State()).(limit := n)
    {
      limit := n;
    }

    /** `poll`, as `FormPoll` describes it. */
    method Poll() returns (r: Poll<U, UrlencodedError>)
      requires Valid() && !fut.Spent?
      modifies this
      ensures Valid() && (r, State()) == FormPoll(env, codec, old(State()))
      decreases if fut.Folding? then 0 else 1
    {
      if fut.Folding? {
        var out, rest := DrainLoop(fut.body, fut.cap, stream);
        DrainBounded(fut.body, fut.cap, stream);
        stream := rest;
        match out {
          case Suspended(b) =>
            fut := Body.Folding(b, fut.cap);
            return Pending;
          case Complete(b) =>
            fut := Body.Spent;
            var f := Finish(env, codec, cs, b);
            if f.Success? {
              return Ready(f.value);
            }
            return Failed(f.error);
          case TooLarge =>
            fut := Body.Spent;
            return Failed(UrlencodedError.Overflow);
          case SourceFailed(e) =>
            fut := Body.Spent;
            return Failed(UrlencodedError.Payload(e));
        }
      }
      if err.Some? {
        var e := err.value;
        err := None;
        return Failed(e);
      }
      var len := length;
      length := None;
      if len.Some? && len.value > limit {
        return Failed(UrlencodedError.Overflow);
      }
      fut := Body.Folding([], limit);
      r := Poll();
    }
  }
}
