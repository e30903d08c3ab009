/**
 * The chunk source and the size-bounded fold shared by `MessageBody` and
 * `UrlEncoded` (the `fold` closures at lines 530-537 and 641-648).
 *
 * The payload stream is the sequence of answers it will give, in order, to
 * successive polls; an exhausted sequence answers `End`, as `Payload::None`
 * does.
 */
module Payload {
  import opened Text
  import opened Headers

  /** One answer of `Stream::poll` on the payload. */
  datatype Event = Chunk(bytes: seq<byte>) | NotReady | End | Error(cause: PayloadError)

  /** `Poll<T, E>` of futures 0.1: `Ok(Ready(v))`, `Ok(NotReady)` or `Err(e)`. */
  datatype Poll<+T, +E> = Ready(value: T) | Pending | Failed(error: E)

  /** The `limit` every consumer starts with (256 KiB). */
  const DEFAULT_LIMIT: nat := 262_144

  /** One poll of the stream: its answer and the stream left afterwards. */
  function Pull(s: seq<Event>): (r: (Event, seq<Event>))
    ensures s == [] ==> r == (End, [])
    ensures s != [] ==> r == (s[0], s[1..])
  {
    if s == [] then (End, []) else (s[0], s[1..])
  }

  /** The bytes of the `Chunk`s among `evs`, in order. */
  function ChunkBytes(evs: seq<Event>): seq<byte> {
    if evs == [] then []
    else (if evs[0].Chunk? then evs[0].bytes else []) + ChunkBytes(evs[1..])
  }

  lemma {:induction false} ChunkBytesAppend(a: seq<Event>, b: seq<Event>)
    ensures ChunkBytes(a + b) == ChunkBytes(a) + ChunkBytes(b)
  {
    if a != [] {
      assert (a + b)[1..] == a[1..] + b;
      ChunkBytesAppend(a[1..], b);
    } else {
      assert a + b == b;
    }
  }

  predicate AllChunks(evs: seq<Event>) {
    forall i :: 0 <= i < |evs| ==> evs[i].Chunk?
  }

  /** Where one poll of the fold leaves it. */
  datatype Drained = Suspended(body: seq<byte>) | Complete(body: seq<byte>) | TooLarge | SourceFailed(cause: PayloadError)

  /**
   * One poll of the fold: pull chunks, appending each to `body`, until the
   * stream is not ready, ends or fails, or a chunk would take the body past
   * `cap`. Returns the outcome and the stream left.
   */
  function Drain(body: seq<byte>, cap: nat, s: seq<Event>): (r: (Drained, seq<Event>))
    ensures s != [] ==> |r.1| < |s|
    ensures s == [] ==> r.1 == []
    ensures (r.0.Suspended? || r.0.Complete?) ==> body <= r.0.body
    decreases |s|
  {
    var (ev, rest) := Pull(s);
    match ev
    case Chunk(c) => if |body| + |c| > cap then (TooLarge, rest) else Drain(body + c, cap, rest)
    case NotReady => (Suspended(body), rest)
    case End => (Complete(body), rest)
    case Error(e) => (SourceFailed(e), rest)
  }

  /** The fold's loop, proved to compute `Drain`. */
  method DrainLoop(body: seq<byte>, cap: nat, s: seq<Event>) returns (out: Drained, rest: seq<Event>)
    ensures (out, rest) == Drain(body, cap, s)
  {
    var acc, src := body, s;
    while true
      invariant Drain(acc, cap, src) == Drain(body, cap, s)
      decreases |src|
    {
      var (ev, next) := Pull(src);
      match ev {
        case Chunk(c) =>
          if |acc| + |c| > cap {
            return TooLarge, next;
          }
          acc, src := acc + c, next;
        case NotReady =>
          return Suspended(acc), next;
        case End =>
          return Complete(acc), next;
        case Error(e) =>
          return SourceFailed(e), next;
      }
    }
  }

  /** The fold never holds more than `cap` bytes. */
  lemma {:induction false} DrainBounded(body: seq<byte>, cap: nat, s: seq<Event>)
    requires |body| <= cap
    ensures var (out, _) := Drain(body, cap, s);
            (out.Suspended? || out.Complete?) ==> |out.body| <= cap
    decreases |s|
  {
    var (ev, rest) := Pull(s);
    if ev.Chunk? && |body| + |ev.bytes| <= cap {
      DrainBounded(body + ev.bytes, cap, rest);
    }
  }

  /**
   * The fold consumes a prefix of the stream, and the body it holds is the
   * body it started with followed by the bytes of the chunks in that prefix.
   */
  lemma {:induction false} DrainConsumesPrefix(body: seq<byte>, cap: nat, s: seq<Event>)
    ensures var (out, rest) := Drain(body, cap, s);
            |rest| <= |s| && rest == s[|s| - |rest|..] &&
            ((out.Suspended? || out.Complete?) ==> out.body == body + ChunkBytes(s[..|s| - |rest|]))
    decreases |s|
  {
    var (out, rest) := Drain(body, cap, s);
    if s == [] {
      assert s[..0] == [];
    } else {
      var ev := s[0];
      if ev.Chunk? && |body| + |ev.bytes| <= cap {
        DrainConsumesPrefix(body + ev.bytes, cap, s[1..]);
        var k := |s| - |rest|;
        assert s[1..][..k - 1] == s[1..k];
        assert s[..k] == [s[0]] + s[1..k];
        ChunkBytesAppend([s[0]], s[1..k]);
      } else {
        assert s[..1] == [ev];
        if !ev.Chunk? {
          assert ChunkBytes([ev]) == [] + ChunkBytes([]);
        }
      }
    }
  }

  /**
   * A stream of chunks that then ends folds to the concatenation of the
   * chunks, or to `TooLarge` exactly when that concatenation exceeds `cap`: a
   * total equal to `cap` is accepted.
   */
  lemma {:induction false} DrainWholeStream(body: seq<byte>, cap: nat, s: seq<Event>)
    requires |body| <= cap && AllChunks(s)
    ensures Drain(body, cap, s).0 ==
              if |body + ChunkBytes(s)| <= cap then Complete(body + ChunkBytes(s)) else TooLarge
    decreases |s|
  {
    if s == [] {
      assert body + ChunkBytes(s) == body;
    } else {
      var c := s[0].bytes;
      assert ChunkBytes(s) == c + ChunkBytes(s[1..]);
      if |body| + |c| <= cap {
        DrainWholeStream(body + c, cap, s[1..]);
        assert body + c + ChunkBytes(s[1..]) == body + ChunkBytes(s);
      }
    }
  }
}
