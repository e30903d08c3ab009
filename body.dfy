/**
 * `MessageBody` (lines 447-542): the future that resolves to the whole body,
 * refusing more than `limit` bytes. Construction reads Content-Length and
 * defers any error to the first poll; the first poll checks the declared
 * length against the `limit` then in force, then installs the bounded fold.
 */
module Body {
  import opened Wrappers
  import opened Text
  import opened Headers
  import opened Negotiate
  import opened Payload
  import Message

  /** The `fut` field: none yet, the fold with the limit it captured, or finished. */
  datatype Fut = Idle | Folding(body: seq<byte>, cap: nat) | Spent

  /** The fields of a `MessageBody`, as one value. */
  datatype BodyState = BodyState(limit: nat, length: Option<nat>, err: Option<PayloadError>, stream: seq<Event>, fut: Fut)

  /** The fold never holds more than the limit it captured. */
  ghost predicate BodyValid(st: BodyState) {
    st.fut.Folding? ==> |st.fut.body| <= st.fut.cap
  }

  /** The cap the next completion is bounded by: the fold's, or the limit it would capture. */
  function CapOf(st: BodyState): nat {
    if st.fut.Folding? then st.fut.cap else st.limit
  }

  /** `MessageBody::new`: a bad Content-Length becomes a deferred `UnknownLength` and the payload is not taken. */
  function NewBody(env: Env, h: HeaderMap, payload: seq<Event>): (st: BodyState)
    ensures BodyValid(st) && st.limit == DEFAULT_LIMIT && st.fut == Idle
    ensures st.err.Some? <==> DeclaredLength(env, h) == BadLength
    ensures st.err.Some? ==> st.err == Some(PayloadError.UnknownLength) && st.length == None && st.stream == []
    ensures st.err.None? ==> st.stream == payload
    ensures st.length.Some? <==> DeclaredLength(env, h).Declared?
    ensures st.length.Some? ==> st.length.value == DeclaredLength(env, h).n
  {
    match DeclaredLength(env, h)
    case BadLength => BodyState(DEFAULT_LIMIT, None, Some(PayloadError.UnknownLength), [], Idle)
    case NoLength => BodyState(DEFAULT_LIMIT, None, None, payload, Idle)
    case Declared(n) => BodyState(DEFAULT_LIMIT, Some(n), None, payload, Idle)
  }

  /** Poll the installed fold once. */
  function Resume(st: BodyState): (r: (Poll<seq<byte>, PayloadError>, BodyState))
    requires st.fut.Folding? && BodyValid(st)
    ensures BodyValid(r.1)
    ensures r.0.Ready? ==> |r.0.value| <= st.fut.cap
  {
    var (out, rest) := Drain(st.fut.body, st.fut.cap, st.stream);
    DrainBounded(st.fut.body, st.fut.cap, st.stream);
    match out
    case Suspended(b) => (Pending, st.(stream := rest, fut := Folding(b, st.fut.cap)))
    case Complete(b) => (Ready(b), st.(stream := rest, fut := Spent))
    case TooLarge => (Failed(PayloadError.Overflow), st.(stream := rest, fut := Spent))
    case SourceFailed(e) => (Failed(e), st.(stream := rest, fut := Spent))
  }

  /**
   * `MessageBody::poll`: the fold if installed; else the deferred error;
   * else the declared length against `limit`; else install the fold with
   * the current `limit` and poll it. Polling a finished fold is excluded.
   */
  function BodyPoll(st: BodyState): (r: (Poll<seq<byte>, PayloadError>, BodyState))
    requires !st.fut.Spent? && BodyValid(st)
    ensures BodyValid(r.1)
    ensures r.0.Ready? ==> |r.0.value| <= CapOf(st)
  {
    if st.fut.Folding? then Resume(st)
    else if st.err.Some? then (Failed(st.err.value), st.(err := None))
    else if st.length.Some? && st.length.value > st.limit then (Failed(PayloadError.Overflow), st.(length := None))
    else Resume(st.(length := None, fut := Folding([], st.limit)))
  }

  /**
   * The first poll of a fresh body whose `limit` was set to `m` after `new`:
   * a bad Content-Length gives `UnknownLength`, a declared length above `m`
   * gives `Overflow`, in both cases without pulling from the stream;
   * otherwise the stream is folded under cap `m`.
   */
  lemma FirstPoll(env: Env, h: HeaderMap, payload: seq<Event>, m: nat)
    ensures var st := NewBody(env, h, payload).(limit := m);
            var (r, st') := BodyPoll(st);
            && (DeclaredLength(env, h) == BadLength ==> r == Failed(PayloadError.UnknownLength) && st'.stream == [])
            && (DeclaredLength(env, h).Declared? && DeclaredLength(env, h).n > m ==>
                  r == Failed(PayloadError.Overflow) && st'.stream == payload && st'.fut == Idle)
            && (DeclaredLength(env, h) == NoLength || (DeclaredLength(env, h).Declared? && DeclaredLength(env, h).n <= m) ==>
                  (r, st') == Resume(st.(length := None, fut := Folding([], m))))
  {
  }

  /**
   * A payload of chunks that then ends is read whole by the first poll: its
   * concatenation when that is at most `m` bytes (exactly `m` included),
   * `Overflow` otherwise, whatever length was declared, once the declared
   * length itself passed the check.
   */
  lemma FirstPollReadsWholeBody(env: Env, h: HeaderMap, payload: seq<Event>, m: nat)
    requires AllChunks(payload)
    requires DeclaredLength(env, h) == NoLength || (DeclaredLength(env, h).Declared? && DeclaredLength(env, h).n <= m)
    ensures BodyPoll(NewBody(env, h, payload).(limit := m)).0 ==
              if |ChunkBytes(payload)| <= m then Ready(ChunkBytes(payload)) else Failed(PayloadError.Overflow)
  {
    DrainWholeStream([], m, payload);
    assert [] + ChunkBytes(payload) == ChunkBytes(payload);
  }

  /**
   * Across polls, the fold's body grows by exactly the chunks it consumed:
   * the new body, or the body it resolves to, is the old one followed by
   * the chunks of the prefix of the stream it pulled.
   */
  lemma ResumeGrowsBody(st: BodyState)
    requires st.fut.Folding? && BodyValid(st)
    ensures var (r, st') := Resume(st);
            var k := |st.stream| - |st'.stream|;
            && 0 <= k <= |st.stream| && st'.stream == st.stream[k..]
            && (st'.fut.Folding? ==> st'.fut.body == st.fut.body + ChunkBytes(st.stream[..k]))
            && (r.Ready? ==> r.value == st.fut.body + ChunkBytes(st.stream[..k]))
  {
    DrainConsumesPrefix(st.fut.body, st.fut.cap, st.stream);
  }

  /** A not-ready answer leaves the fold as it was and reports `NotReady`. */
  lemma NotReadyChangesNothing(st: BodyState, rest: seq<Event>)
    requires st.fut.Folding? && BodyValid(st) && st.stream == [NotReady] + rest
    ensures BodyPoll(st) == (Pending, st.(stream := rest))
  {
    assert Pull(st.stream) == (NotReady, rest);
  }

  /** The state `MessageBody::err(UnknownLength)` builds. */
  function Poisoned(): (st: BodyState)
    ensures BodyValid(st)
  {
    BodyState(DEFAULT_LIMIT, None, Some(PayloadError.UnknownLength), [], Idle)
  }

  lemma BadLengthPoisons(env: Env, h: HeaderMap, payload: seq<Event>)
    requires DeclaredLength(env, h) == BadLength
    ensures NewBody(env, h, payload) == Poisoned()
  {
  }

  lemma PoisonedPolls()
    ensures var (r1, st1) := BodyPoll(Poisoned());
            r1 == Failed(PayloadError.UnknownLength) && BodyPoll(st1).0 == Ready([])
  {
    var st1 := Poisoned().(err := None);
    assert BodyPoll(Poisoned()) == (Failed(PayloadError.UnknownLength), st1);
    assert Drain([], DEFAULT_LIMIT, []) == (Complete([]), []);
  }

  /**
   * The deferred error is reported once: the next poll folds the empty stream
   * the error constructor left and resolves to an empty body.
   */
  lemma PollAfterDeferredError(env: Env, h: HeaderMap, payload: seq<Event>)
    requires DeclaredLength(env, h) == BadLength
    ensures var (r1, st1) := BodyPoll(NewBody(env, h, payload));
            r1 == Failed(PayloadError.UnknownLength) && BodyPoll(st1).0 == Ready([])
  {
    BadLengthPoisons(env, h, payload);
    PoisonedPolls();
  }

  /** The tests at lines 862-873: Content-Length `xxxx` is `UnknownLength`, `1000000` overflows the default limit. */
  lemma DeclaredLengthTests(env: Env, h: HeaderMap, payload: seq<Event>)
    requires Get(h, CONTENT_LENGTH).Some?
    ensures env.toStr(Get(h, CONTENT_LENGTH).value) == Some("xxxx") ==>
              BodyPoll(NewBody(env, h, payload)).0 == Failed(PayloadError.UnknownLength)
    ensures env.toStr(Get(h, CONTENT_LENGTH).value) == Some("1000000") ==>
              BodyPoll(NewBody(env, h, payload)).0 == Failed(PayloadError.Overflow)
  {
    if env.toStr(Get(h, CONTENT_LENGTH).value) == Some("xxxx") {
      DeclaredLengthNotANumber(env, h);
    }
    if env.toStr(Get(h, CONTENT_LENGTH).value) == Some("1000000") {
      DeclaredLengthMillion(env, h);
    }
  }

  /** The test at lines 875-881: the payload `test` comes back as it is. */
  lemma ReadsTest(env: Env, h: HeaderMap)
    requires Get(h, CONTENT_LENGTH).None?
    ensures BodyPoll(NewBody(env, h, [Chunk(Bytes("test"))])).0 == Ready(Bytes("test"))
  {
    var payload := [Chunk(Bytes("test"))];
    assert payload[1..] == [];
    assert ChunkBytes(payload) == Bytes("test");
    assert |Bytes("test")| == 4;
    assert NewBody(env, h, payload).(limit := DEFAULT_LIMIT) == NewBody(env, h, payload);
    FirstPollReadsWholeBody(env, h, payload, DEFAULT_LIMIT);
  }

  /** The test at lines 883-889: fourteen bytes under a limit of 5 overflow. */
  lemma FourteenBytesOverflowFive(env: Env, h: HeaderMap)
    requires Get(h, CONTENT_LENGTH).None?
    ensures BodyPoll(NewBody(env, h, [Chunk(Bytes("11111111111111"))]).(limit := 5)).0 == Failed(PayloadError.Overflow)
  {
    var payload := [Chunk(Bytes("11111111111111"))];
    assert payload[1..] == [];
    assert ChunkBytes(payload) == Bytes("11111111111111");
    FirstPollReadsWholeBody(env, h, payload, 5);
  }

  /** The future returned by `HttpMessage::body`. */
  class MessageBody {
    var limit: nat
    var length: Option<nat>
    var err: Option<PayloadError>
    var stream: seq<Event>
    var fut: Fut

    function State(): BodyState
      reads this
    {
      BodyState(limit, length, err, stream, fut)
    }

    ghost predicate Valid()
      reads this
    {
      BodyValid(State())
    }

    /** `MessageBody::new`: takes the payload only when Content-Length is acceptable. */
    constructor (env: Env, req: Message.Message)
      modifies req
      ensures Valid() && State() == NewBody(env, req.headers, old(req.payload))
      ensures req.payload == (if err.None? then [] else old(req.payload))
      ensures req.cookieCache == old(req.cookieCache)
    {
      var decl := DeclaredLength(env, req.headers);
      if decl.BadLength? {
        limit, length, err, stream, fut := DEFAULT_LIMIT, None, Some(PayloadError.UnknownLength), [], Idle;
      } else {
        var p := req.TakePayload();
        limit, err, stream, fut := DEFAULT_LIMIT, None, p, Idle;
        length := if decl.Declared? then Some(decl.n) else None;
      }
    }

    /** `limit(n)`: replace the byte limit. */
    method Limit(n: nat)
      modifies this`limit
      ensures State() == old(State()).(limit := n)
    {
      limit := n;
    }

    /** `poll`, as `BodyPoll` describes it. */
    method Poll() returns (r: Poll<seq<byte>, PayloadError>)
      requires Valid() && !fut.Spent?
      modifies this
      ensures Valid() && (r, State()) == BodyPoll(old(State()))
      decreases if fut.Folding? then 0 else 1
    {
      if fut.Folding? {
        var out, rest := DrainLoop(fut.body, fut.cap, stream);
        DrainBounded(fut.body, fut.cap, stream);
        stream := rest;
        match out {
          case Suspended(b) =>
            fut := Folding(b, fut.cap);
            return Pending;
          case Complete(b) =>
            fut := Spent;
            return Ready(b);
          case TooLarge =>
            fut := Spent;
            return Failed(PayloadError.Overflow);
          case SourceFailed(e) =>
            fut := Spent;
            return Failed(e);
        }
      }
      if err.Some? {
        var e := err.value;
        err := None;
        return Failed(e);
      }
      var len := length;
      length := None;
      if len.Some? && len.value > limit {
        return Failed(PayloadError.Overflow);
      }
      fut := Folding([], limit);
      r := Poll();
    }
  }
}
