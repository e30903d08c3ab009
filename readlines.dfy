/**
 * `Readlines` (lines 297-445): the stream that yields the body line by line.
 * It keeps the bytes after the last line it yielded in `buff`; `checked`
 * records that `buff` holds no newline, so the next poll pulls from the
 * payload instead of scanning again.
 *
 * The model follows the code as written: a line is cut from `buff` or from
 * the newly pulled chunk alone, never from the two together, and the limit
 * is checked against the scanned segment only.
 */
module Readlines {
  import opened Wrappers
  import opened Text
  import opened Headers
  import opened Negotiate
  import opened Payload
  import Message

  /** Offset of the first `\n` in `s`, if any. */
  function FirstNewline(s: seq<byte>): (r: Option<nat>)
    ensures r.None? <==> NEWLINE !in s
    ensures r.Some? ==> r.value < |s| && s[r.value] == NEWLINE && NEWLINE !in s[..r.value]
  {
    if s == [] then None
    else if s[0] == NEWLINE then Some(0)
    else
      match FirstNewline(s[1..])
      case None => None
      case Some(i) =>
        assert s[..i + 1] == [s[0]] + s[1..][..i];
        Some(i + 1)
  }

  /** The scan loop of `poll` (lines 361-367 and 391-397). */
  method FindNewline(s: seq<byte>) returns (found: Option<nat>)
    ensures found == FirstNewline(s)
  {
    var i := 0;
    while i < |s|
      invariant 0 <= i <= |s| && NEWLINE !in s[..i]
    {
      if s[i] == NEWLINE {
        return Some(i);
      }
      assert s[..i + 1] == s[..i] + [s[i]];
      i := i + 1;
    }
    assert s[..i] == s;
    return None;
  }

  /** The fields of a `Readlines`, as one value. */
  datatype LinesState = LinesState(buff: seq<byte>, limit: nat, checked: bool, cs: Charset,
                                   err: Option<ReadlinesError>, stream: seq<Event>)

  /** What `checked_buff` promises: no newline is waiting in `buff`. */
  predicate LinesInv(st: LinesState) {
    st.checked ==> NEWLINE !in st.buff
  }

  /** The value `Readlines::err(e)` builds: empty, UTF-8, no stream, `e` pending. */
  function PoisonedLines(e: ReadlinesError): LinesState {
    LinesState([], DEFAULT_LIMIT, true, UTF8, Some(e), [])
  }

  /** `Readlines::new`: a charset that cannot be determined poisons the stream and leaves the payload. */
  function NewLines(env: Env, h: HeaderMap, payload: seq<Event>): (st: LinesState)
    ensures LinesInv(st) && st.buff == [] && st.limit == DEFAULT_LIMIT && st.checked
    ensures Encoding(env, h).Failure? ==> st == PoisonedLines(ReadlinesError.ContentType(Encoding(env, h).error))
    ensures Encoding(env, h).Success? ==> st.err.None? && st.cs == Encoding(env, h).value && st.stream == payload
  {
    match Encoding(env, h)
    case Failure(e) => PoisonedLines(ReadlinesError.ContentType(e))
    case Success(cs) => LinesState([], DEFAULT_LIMIT, true, cs, None, payload)
  }

  /**
   * `Readlines::poll`: the pending error; else a line cut from `buff` when it
   * may hold one; else one answer of the payload: a chunk with a newline
   * yields its own first line and leaves its rest after `buff`, a chunk
   * without one is appended, the end yields what `buff` holds.
   */
  function LinesPoll(env: Env, st: LinesState): (r: (Poll<Option<string>, ReadlinesError>, LinesState))
    ensures LinesInv(st) ==> LinesInv(r.1)
    ensures r.1.limit == st.limit && r.1.cs == st.cs
    ensures r.1.err.None?
  {
    if st.err.Some? then (Failed(st.err.value), st.(err := None))
    else if !st.checked && FirstNewline(st.buff).Some? then
      var ind := FirstNewline(st.buff).value;
      if ind + 1 > st.limit then (Failed(LimitOverflow), st)
      else
        var st' := st.(buff := st.buff[ind + 1..]);
        match Decode(env, st.cs, st.buff[..ind + 1])
        case None => (Failed(EncodingError), st')
        case Some(line) => (Ready(Some(line)), st')
    else
      var (ev, rest) := Pull(st.stream);
      var st' := st.(checked := true, stream := rest);
      match ev
      case Chunk(bytes) =>
        (match FirstNewline(bytes)
         case Some(ind) =>
           if ind + 1 > st.limit then (Failed(LimitOverflow), st')
           else
             (match Decode(env, st.cs, bytes[..ind + 1])
              case None => (Failed(EncodingError), st')
              case Some(line) => (Ready(Some(line)), st'.(buff := st.buff + bytes[ind + 1..], checked := false)))
         case None => (Pending, st'.(buff := st.buff + bytes)))
      case NotReady => (Pending, st')
      case End =>
        if st.buff == [] then (Ready(None), st')
        else if |st.buff| > st.limit then (Failed(LimitOverflow), st')
        else
          (match Decode(env, st.cs, st.buff)
           case None => (Failed(EncodingError), st')
           case Some(line) => (Ready(Some(line)), st'.(buff := [])))
      case Error(e) => (Failed(ReadlinesError.Payload(e)), st')
  }

  /**
   * The raw bytes a yielded line was decoded from: a prefix of `buff`, a
   * prefix of the chunk just pulled, or at the end of the payload the whole
   * of `buff`.
   */
  ghost predicate CutFrom(st: LinesState, raw: seq<byte>) {
    || raw <= st.buff
    || (Pull(st.stream).0.Chunk? && raw <= Pull(st.stream).0.bytes)
    || (Pull(st.stream).0 == End && raw == st.buff)
  }

  /**
   * Every line yielded is the decoding of at most `limit` bytes, cut from
   * `buff` or from the chunk just pulled, holding no newline but a final
   * one; only at the end of the payload may that final newline be missing.
   */
  lemma YieldedLine(env: Env, st: LinesState)
    requires LinesInv(st)
    requires LinesPoll(env, st).0.Ready? && LinesPoll(env, st).0.value.Some?
    ensures exists raw :: && CutFrom(st, raw) && Decode(env, st.cs, raw) == LinesPoll(env, st).0.value
                          && 0 < |raw| <= st.limit && NEWLINE !in raw[..|raw| - 1]
                          && (raw[|raw| - 1] == NEWLINE || Pull(st.stream).0 == End)
  {
    if !st.checked && FirstNewline(st.buff).Some? {
      var ind := FirstNewline(st.buff).value;
      var raw := st.buff[..ind + 1];
      assert raw[..|raw| - 1] == st.buff[..ind];
      assert CutFrom(st, raw);
    } else {
      var (ev, rest) := Pull(st.stream);
      if ev.Chunk? {
        var ind := FirstNewline(ev.bytes).value;
        var raw := ev.bytes[..ind + 1];
        assert raw[..|raw| - 1] == ev.bytes[..ind];
        assert CutFrom(st, raw);
      } else {
        var raw := st.buff;
        assert raw[..|raw| - 1] <= raw;
        assert CutFrom(st, raw);
      }
    }
  }

  /**
   * At the end of the payload, with no newline waiting: nothing left gives
   * the end of the stream; more than `limit` bytes give `LimitOverflow`; a
   * decodable rest is yielded once and cleared, so the next poll ends the
   * stream; an undecodable one stays in `buff`.
   */
  lemma AtEnd(env: Env, st: LinesState)
    requires st.err.None? && NEWLINE !in st.buff && Pull(st.stream).0 == End
    ensures var (r, st') := LinesPoll(env, st);
            && (st.buff == [] ==> r == Ready(None))
            && (|st.buff| > st.limit ==> r == Failed(LimitOverflow) && st'.buff == st.buff)
            && (st.buff != [] && |st.buff| <= st.limit && Decode(env, st.cs, st.buff).None? ==>
                  r == Failed(EncodingError) && st'.buff == st.buff)
            && (st.buff != [] && |st.buff| <= st.limit && Decode(env, st.cs, st.buff).Some? ==>
                  && r == Ready(Some(Decode(env, st.cs, st.buff).value)) && st'.buff == []
                  && (Pull(st'.stream).0 == End ==> LinesPoll(env, st').0 == Ready(None)))
  {
  }

  /**
   * A too-long line waiting in `buff` is not cleared: `LimitOverflow` leaves
   * the state as it was, so every later poll reports it again.
   */
  lemma OverflowInBufferRepeats(env: Env, st: LinesState)
    requires st.err.None? && !st.checked && FirstNewline(st.buff).Some?
    requires FirstNewline(st.buff).value + 1 > st.limit
    ensures LinesPoll(env, st) == (Failed(LimitOverflow), st)
  {
  }

  /**
   * A pulled chunk whose first line is longer than `limit` gives
   * `LimitOverflow`: the chunk is dropped and `buff` is left as it was.
   */
  lemma ChunkSegmentOverflow(env: Env, st: LinesState)
    requires st.err.None? && (st.checked || FirstNewline(st.buff).None?)
    requires Pull(st.stream).0.Chunk? && FirstNewline(Pull(st.stream).0.bytes).Some?
    requires FirstNewline(Pull(st.stream).0.bytes).value + 1 > st.limit
    ensures LinesPoll(env, st) == (Failed(LimitOverflow), st.(checked := true, stream := Pull(st.stream).1))
  {
  }

  /**
   * A pulled chunk whose first line fits in `limit`: that segment alone is
   * decoded and yielded, whatever `buff` holds, and the rest of the chunk is
   * appended to `buff`; if the segment does not decode, the whole chunk is
   * dropped. Either way the bytes already in `buff` are not part of the line.
   */
  lemma ChunkLine(env: Env, st: LinesState)
    requires st.err.None? && (st.checked || FirstNewline(st.buff).None?)
    requires Pull(st.stream).0.Chunk? && FirstNewline(Pull(st.stream).0.bytes).Some?
    requires FirstNewline(Pull(st.stream).0.bytes).value + 1 <= st.limit
    ensures var (bytes, rest) := (Pull(st.stream).0.bytes, Pull(st.stream).1);
            var ind := FirstNewline(bytes).value;
            && (Decode(env, st.cs, bytes[..ind + 1]).Some? ==>
                  LinesPoll(env, st) == (Ready(Some(Decode(env, st.cs, bytes[..ind + 1]).value)),
                                         st.(buff := st.buff + bytes[ind + 1..], checked := false, stream := rest)))
            && (Decode(env, st.cs, bytes[..ind + 1]).None? ==>
                  LinesPoll(env, st) == (Failed(EncodingError), st.(checked := true, stream := rest)))
  {
  }

  /** A charset error at construction is reported by the first poll; the second ends the stream. */
  lemma ConstructionError(env: Env, h: HeaderMap, payload: seq<Event>)
    requires Encoding(env, h).Failure?
    ensures var (r1, st1) := LinesPoll(env, NewLines(env, h, payload));
            && r1 == Failed(ReadlinesError.ContentType(Encoding(env, h).error))
            && LinesPoll(env, st1).0 == Ready(None)
  {
  }

  /**
   * Lost prefix: with `ab` waiting and the chunk `c\nd` arriving, the line
   * yielded is `c\n` alone and `abd` is left, so the concatenation of the
   * lines yielded is not the payload.
   */
  lemma LostPrefix(env: Env, st: LinesState, line: string)
    requires st.err.None? && st.checked && st.limit >= 2
    requires st.buff == Bytes("ab") && Pull(st.stream).0 == Chunk(Bytes("c\nd"))
    requires Decode(env, st.cs, Bytes("c\n")) == Some(line)
    ensures LinesPoll(env, st).0 == Ready(Some(line))
    ensures LinesPoll(env, st).1.buff == Bytes("abd")
  {
    var c := Bytes("c\nd");
    assert c[0] != NEWLINE && c[1] == NEWLINE;
    assert FirstNewline(c[1..]) == Some(0);
    assert FirstNewline(c) == Some(1);
    assert c[..2] == Bytes("c\n");
    assert Bytes("ab") + c[2..] == Bytes("abd");
  }

  /**
   * Per-segment limit: with limit 3, `ab` waiting and the chunk `cd\nef`
   * arriving, the segment `cd\n` fits and is yielded although the line
   * `abcd\n` it ends is five bytes long.
   */
  lemma PerSegmentLimit(env: Env, st: LinesState, line: string)
    requires st.err.None? && st.checked && st.limit == 3
    requires st.buff == Bytes("ab") && Pull(st.stream).0 == Chunk(Bytes("cd\nef"))
    requires Decode(env, st.cs, Bytes("cd\n")) == Some(line)
    ensures |st.buff + Bytes("cd\n")| > st.limit
    ensures LinesPoll(env, st).0 == Ready(Some(line))
  {
    var c := Bytes("cd\nef");
    assert c[0] != NEWLINE && c[1] != NEWLINE && c[2] == NEWLINE;
    assert FirstNewline(c[2..]) == Some(0);
    assert FirstNewline(c[1..]) == Some(1) by {
      assert c[1..][1..] == c[2..];
    }
    assert FirstNewline(c) == Some(2);
    assert c[..3] == Bytes("cd\n");
  }

  /**
   * The test at lines 894-924, reduced: a one-chunk payload `a\nb\nc`
   * yields `a\n`, then `b\n` from the rest kept in `buff`, then `c` at the
   * end.
   */
  lemma ThreeLines(env: Env, cs: Charset, la: string, lb: string, lc: string)
    requires Decode(env, cs, Bytes("a\n")) == Some(la)
    requires Decode(env, cs, Bytes("b\n")) == Some(lb)
    requires Decode(env, cs, Bytes("c")) == Some(lc)
    ensures var st0 := LinesState([], DEFAULT_LIMIT, true, cs, None, [Chunk(Bytes("a\nb\nc"))]);
            var (r1, st1) := LinesPoll(env, st0);
            var (r2, st2) := LinesPoll(env, st1);
            var (r3, st3) := LinesPoll(env, st2);
            r1 == Ready(Some(la)) && r2 == Ready(Some(lb)) && r3 == Ready(Some(lc)) && LinesPoll(env, st3).0 == Ready(None)
  {
    var c := Bytes("a\nb\nc");
    assert c[1] == NEWLINE && c[0] != NEWLINE;
    assert FirstNewline(c[1..]) == Some(0);
    assert FirstNewline(c) == Some(1);
    assert c[..2] == Bytes("a\n");
    var b1 := [] + c[2..];
    assert b1 == Bytes("b\nc");
    assert b1[1] == NEWLINE && b1[0] != NEWLINE;
    assert FirstNewline(b1[1..]) == Some(0);
    assert FirstNewline(b1) == Some(1);
    assert b1[..2] == Bytes("b\n");
    var b2 := b1[2..];
    assert b2 == Bytes("c");
    assert FirstNewline(b2) == None;
  }

  /** The stream returned by `HttpMessage::readlines`. */
  class Readlines {
    const env: Env
    var buff: seq<byte>
    var limit: nat
    var checked: bool
    var cs: Charset
    var err: Option<ReadlinesError>
    var stream: seq<Event>

    function State(): LinesState
      reads this
    {
      LinesState(buff, limit, checked, cs, err, stream)
    }

    /** `Readlines::new`: takes the payload only when the charset is known. */
    constructor (env: Env, req: Message.Message)
      modifies req
      ensures this.env == env && State() == NewLines(env, req.headers, old(req.payload))
      ensures req.payload == (if Encoding(env, req.headers).Success? then [] else old(req.payload))
      ensures req.cookieCache == old(req.cookieCache)
    {
      this.env := env;
      buff, limit, checked := [], DEFAULT_LIMIT, true;
      var enc := Encoding(env, req.headers);
      if enc.Failure? {
        cs, err, stream := UTF8, Some(ReadlinesError.ContentType(enc.error)), [];
      } else {
        var p := req.TakePayload();
        cs, err, stream := enc.value, None, p;
      }
    }

    /** `limit(n)`: replace the line limit. */
    method Limit(n: nat)
      modifies this`limit
      ensures State() == old(State()).(limit := n)
    {
      limit := n;
    }

    /** `poll`, as `LinesPoll` describes it. */
    method Poll() returns (r: Poll<Option<string>, ReadlinesError>)
      modifies this
      ensures (r, State()) == LinesPoll(env, old(State()))
    {
      if err.Some? {
        r := Failed(err.value);
        err := None;
        return;
      }
      if !checked {
        var found := FindNewline(buff);
        if found.Some? {
          var ind := found.value;
          if ind + 1 > limit {
            return Failed(LimitOverflow);
          }
          var raw := buff[..ind + 1];
          buff := buff[ind + 1..];
          var line := Decode(env, cs, raw);
          if line.None? {
            return Failed(EncodingError);
          }
          return Ready(Some(line.value));
        }
        checked := true;
      }
      var ev, rest := Pull(stream).0, Pull(stream).1;
      stream := rest;
      match ev {
        case Chunk(bytes) =>
          var found := FindNewline(bytes);
          if found.Some? {
            var ind := found.value;
            if ind + 1 > limit {
              return Failed(LimitOverflow);
            }
            var line := Decode(env, cs, bytes[..ind + 1]);
            if line.None? {
              return Failed(EncodingError);
            }
            buff := buff + bytes[ind + 1..];
            checked := false;
            return Ready(Some(line.value));
          }
          buff := buff + bytes;
          return Pending;
        case NotReady =>
          return Pending;
        case End =>
          if buff == [] {
            return Ready(None);
          }
          if |buff| > limit {
            return Failed(LimitOverflow);
          }
          var line := Decode(env, cs, buff);
          if line.None? {
            return Failed(EncodingError);
          }
          buff := [];
          return Ready(Some(line.value));
        case Error(e) =>
          return Failed(ReadlinesError.Payload(e));
      }
    }
  }
}
