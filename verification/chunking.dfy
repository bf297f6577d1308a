/**
  Chunk-boundary invariance of the frame decoder.

  `channelRead` appends every chunk to what is left of the cumulative
  buffer, and no step ever reads part of a header or part of a body. So a
  byte stream fed in any chunking produces the same frame events, the same
  final state and the same error as the stream fed in one piece.
*/
module Chunking {
  import opened Common
  import opened Bytes
  import opened Protocol
  import opened FrameDecoder

  /** The decoder with more bytes received. */
  function Append(d: Decoder, t: seq<byte>): (e: Decoder)
    ensures e.active == d.active && e.state == d.state && e.dataLength == d.dataLength
    ensures e.buffer == d.buffer + t
  {
    d.(buffer := d.buffer + t)
  }

  /** A run that did not fail, followed by another run. */
  function Then(first: Outcome, second: Outcome): (r: Outcome)
    requires first.fault.None?
    ensures r.events == first.events + second.events
    ensures r.decoder == second.decoder && r.fault == second.fault
  {
    Outcome(second.decoder, first.events + second.events, second.fault)
  }

  /** A header is read from its first 7 bytes only. */
  lemma ParseHeaderIgnoresTail(s: seq<byte>, t: seq<byte>)
    requires |s| >= HEAD_LENGTH
    ensures ParseHeader(s + t) == ParseHeader(s)
  {
    var st := s + t;
    assert st[0..2] == s[0..2];
    UnsignedBEWindow(st, s, 0, 2);
    assert st[3..7] == s[3..7];
    UnsignedBEWindow(st, s, 3, 4);
  }

  /** A step result with `t` more bytes left unread after it. */
  function AppendResult(r: StepResult, t: seq<byte>): (e: StepResult)
    ensures e.Starved? <==> r.Starved?
    ensures !r.Starved? ==> e.events == r.events && e.next.buffer == r.next.buffer + t
  {
    match r
    case Advanced(next, events) => Advanced(Append(next, t), events)
    case Starved => Starved
    case Raised(next, events, f) => Raised(Append(next, t), events, f)
  }

  /** A header step that reads does the same with more bytes after the header. */
  lemma HeaderStepIgnoresTail(codes: Codes, d: Decoder, t: seq<byte>)
    requires |d.buffer| >= HEAD_LENGTH
    ensures HeaderStep(codes, Append(d, t)) == AppendResult(HeaderStep(codes, d), t)
  {
    var s := d.buffer;
    ParseHeaderIgnoresTail(s, t);
    assert (s + t)[HEAD_LENGTH..] == s[HEAD_LENGTH..] + t;
  }

  /** A body step that reads does the same with more bytes after the body. */
  lemma BodyStepIgnoresTail(env: Env, d: Decoder, t: seq<byte>)
    requires d.state != PbHead && |d.buffer| >= d.dataLength
    ensures BodyStep(env, Append(d, t)) == AppendResult(BodyStep(env, d), t)
  {
    var s := d.buffer;
    if d.dataLength >= 0 {
      assert (s + t)[..d.dataLength] == s[..d.dataLength];
      assert (s + t)[d.dataLength..] == s[d.dataLength..] + t;
    }
  }

  /**
    A step that reads (whether it advances or throws) reads the same bytes
    and does the same thing when more bytes follow them.
  */
  lemma StepIgnoresTail(env: Env, d: Decoder, t: seq<byte>)
    requires !Step(env, d).Starved?
    ensures Step(env, d).Advanced? ==>
      Step(env, Append(d, t)) == Advanced(Append(Step(env, d).next, t), Step(env, d).events)
    ensures Step(env, d).Raised? ==>
      Step(env, Append(d, t)) == Raised(Append(Step(env, d).next, t), Step(env, d).events, Step(env, d).fault)
  {
    if d.state == PbHead {
      HeaderStepIgnoresTail(env.codes, d, t);
    } else {
      BodyStepIgnoresTail(env, d, t);
    }
  }

  /** One turn of the loop that advances: the rest of the run continues from the step's result. */
  lemma DrainAdvances(env: Env, d: Decoder, next: Decoder, events: seq<Event>)
    requires d.active && |d.buffer| > 0 && Step(env, d) == Advanced(next, events)
    ensures Drain(env, d) == Outcome(Drain(env, next).decoder, events + Drain(env, next).events, Drain(env, next).fault)
  {
  }

  /** One turn of the loop that throws: the run ends there. */
  lemma DrainRaises(env: Env, d: Decoder, next: Decoder, events: seq<Event>, f: Fault)
    requires d.active && |d.buffer| > 0 && Step(env, d) == Raised(next, events, f)
    ensures Drain(env, d) == Outcome(next, events, Some(f))
  {
  }

  /** Where the loop condition fails, the run is empty. */
  lemma DrainHalts(env: Env, d: Decoder)
    requires Halted(env, d)
    ensures Drain(env, d) == Outcome(d, [], None)
  {
  }

  /**
    What a run becomes when `t` more bytes were already buffered: a run
    that stopped without an error goes on with its leftover bytes and `t`;
    a run that threw throws the same way, with `t` unread.
  */
  function Extended(env: Env, r: Outcome, t: seq<byte>): (e: Outcome)
    ensures |r.events| <= |e.events| && e.events[..|r.events|] == r.events
    ensures r.fault.Some? ==> e.fault == r.fault && e.decoder.buffer == r.decoder.buffer + t
  {
    if r.fault.None? then Then(r, Drain(env, Append(r.decoder, t)))
    else r.(decoder := Append(r.decoder, t))
  }

  /** Appending bytes to the buffer before the loop runs extends the run it would have made. */
  lemma {:induction false} DrainAppend(env: Env, d: Decoder, t: seq<byte>)
    ensures Drain(env, Append(d, t)) == Extended(env, Drain(env, d), t)
    decreases |d.buffer|, if d.state == PbHead then 0 else 1
  {
    if Halted(env, d) {
      DrainHalts(env, d);
      var longer := Drain(env, Append(d, t));
      assert [] + longer.events == longer.events;
    } else {
      var step := Step(env, d);
      StepIgnoresTail(env, d, t);
      if step.Raised? {
        DrainRaises(env, d, step.next, step.events, step.fault);
        DrainRaises(env, Append(d, t), Append(step.next, t), step.events, step.fault);
      } else {
        DrainAppend(env, step.next, t);
        DrainAppendAdvances(env, d, t, step.next, step.events);
      }
    }
  }

  /** The inductive step of `DrainAppend`, for a first turn that advances. */
  lemma DrainAppendAdvances(env: Env, d: Decoder, t: seq<byte>, next: Decoder, events: seq<Event>)
    requires d.active && |d.buffer| > 0
    requires Step(env, d) == Advanced(next, events)
    requires Step(env, Append(d, t)) == Advanced(Append(next, t), events)
    requires Drain(env, Append(next, t)) == Extended(env, Drain(env, next), t)
    ensures Drain(env, Append(d, t)) == Extended(env, Drain(env, d), t)
  {
    var rest := Drain(env, next);
    var whole := Drain(env, d);
    var longer := Drain(env, Append(d, t));
    assert whole == Outcome(rest.decoder, events + rest.events, rest.fault) by {
      DrainAdvances(env, d, next, events);
    }
    var restT := Drain(env, Append(next, t));
    assert longer == Outcome(restT.decoder, events + restT.events, restT.fault) by {
      DrainAdvances(env, Append(d, t), Append(next, t), events);
    }
    if rest.fault.None? {
      var later := Drain(env, Append(rest.decoder, t));
      assert Extended(env, whole, t) == Then(whole, later);
      PrefixThen(events, rest, later);
    }
  }

  /** Prefixing events to a run, then continuing it, is continuing it, then prefixing. */
  lemma PrefixThen(events: seq<Event>, rest: Outcome, later: Outcome)
    requires rest.fault.None?
    ensures Outcome(later.decoder, events + Then(rest, later).events, later.fault)
            == Then(Outcome(rest.decoder, events + rest.events, None), later)
  {
    assert events + (rest.events + later.events) == (events + rest.events) + later.events;
  }

  /** Feeding `a + b` is feeding `a`, then feeding `b` to what is left, unless `a` already throws. */
  lemma FeedAppend(env: Env, d: Decoder, a: seq<byte>, b: seq<byte>)
    ensures Feed(env, d, a + b) == Extended(env, Feed(env, d, a), b)
  {
    var da := d.(buffer := d.buffer + a);
    assert d.(buffer := d.buffer + (a + b)) == Append(da, b);
    DrainAppend(env, da, b);
  }

  /**
    `channelRead` called once per chunk, in order; after an exception the
    connection is torn down and the remaining chunks are not fed.
  */
  function FeedAll(env: Env, d: Decoder, chunks: seq<seq<byte>>): (r: Outcome)
    decreases |chunks|
  {
    if |chunks| == 0 then
      Outcome(d, [], None)
    else
      var first := Feed(env, d, chunks[0]);
      if first.fault.Some? then first else Then(first, FeedAll(env, first.decoder, chunks[1..]))
  }

  /**
    Chunk-boundary invariance: from any state where the loop has stopped,
    feeding a stream in chunks yields the same events and the same error as
    feeding their concatenation at once, and the same decoder state; when
    no error occurs the two runs end identical, leftover bytes included.
  */
  lemma {:induction false} ChunkingInvariance(env: Env, d: Decoder, chunks: seq<seq<byte>>)
    requires Halted(env, d)
    ensures FeedAll(env, d, chunks).events == Feed(env, d, Flatten(chunks)).events
    ensures FeedAll(env, d, chunks).fault == Feed(env, d, Flatten(chunks)).fault
    ensures FeedAll(env, d, chunks).decoder.(buffer := []) == Feed(env, d, Flatten(chunks)).decoder.(buffer := [])
    ensures FeedAll(env, d, chunks).fault.None? ==> FeedAll(env, d, chunks) == Feed(env, d, Flatten(chunks))
    decreases |chunks|
  {
    if |chunks| == 0 {
      assert d.(buffer := d.buffer + []) == d;
    } else {
      var c, rest := chunks[0], chunks[1..];
      var first := Feed(env, d, c);
      var whole := Feed(env, d, Flatten(chunks));
      assert whole == Extended(env, first, Flatten(rest)) by {
        FlattenCons(c, rest);
        assert [c] + rest == chunks;
        FeedAppend(env, d, c, Flatten(rest));
      }
      if first.fault.None? {
        var later := FeedAll(env, first.decoder, rest);
        assert FeedAll(env, d, chunks) == Then(first, later);
        assert Feed(env, first.decoder, Flatten(rest)) == Drain(env, Append(first.decoder, Flatten(rest)));
        ChunkingInvariance(env, first.decoder, rest);
      }
    }
  }

  /**
    A DATA header followed by fewer bytes than its body length: the header
    is read, the decoder moves to RECORD and waits, the body bytes unread.
  */
  lemma HeaderThenPartialBody(env: Env, d: Decoder, h: Header, part: seq<byte>)
    requires d.active && d.state == PbHead && d.buffer == []
    requires Representable(h) && Acceptable(env.codes, h)
    requires env.codes.headerTypes[h.headerType] == DataClient
    requires |part| < h.length
    ensures Feed(env, d, EncodeHeader(h) + part)
            == Outcome(d.(state := Record, dataLength := h.length, buffer := part), [], None)
  {
    var first := EncodeHeader(h) + part;
    var waiting := d.(state := Record, dataLength := h.length, buffer := part);
    assert Step(env, d.(buffer := first)) == Advanced(waiting, []) by {
      HeaderRoundTrip(h, part);
      DropPrefix(EncodeHeader(h), part);
    }
    assert Drain(env, waiting) == Outcome(waiting, [], None) by {
      DrainHalts(env, waiting);
    }
    assert d.(buffer := d.buffer + first) == d.(buffer := first);
    DrainAdvances(env, d.(buffer := first), waiting, []);
  }

  /**
    A frame whose body arrives in two pieces: after the header and the
    first `k` body bytes the decoder waits in RECORD (`HeaderThenPartialBody`);
    the rest of the body then completes the frame exactly as if it had
    arrived whole.
  */
  lemma FrameSplitInsideBody(env: Env, d: Decoder, h: Header, body: seq<byte>, k: nat)
    requires d.active && d.state == PbHead && d.buffer == []
    requires Representable(h) && Acceptable(env.codes, h)
    requires env.codes.headerTypes[h.headerType] == DataClient
    requires |body| == h.length && k < |body|
    ensures Feed(env, Feed(env, d, EncodeHeader(h) + body[..k]).decoder, body[k..])
            == Feed(env, d, EncodeHeader(h) + body)
  {
    var first := EncodeHeader(h) + body[..k];
    var waiting := d.(state := Record, dataLength := h.length, buffer := body[..k]);
    HeaderThenPartialBody(env, d, h, body[..k]);
    PausedThenRest(env, d, first, body[k..], waiting);
    SplitRejoins(EncodeHeader(h), body, k);
  }

  /** Cutting `b` at `k` and gluing the pieces back after `a` gives `a + b`. */
  lemma SplitRejoins(a: seq<byte>, b: seq<byte>, k: nat)
    requires k <= |b|
    ensures a + b[..k] + b[k..] == a + b
  {
    assert b[..k] + b[k..] == b;
  }

  /** When feeding `a` only pauses at `w`, feeding `a + b` is feeding `b` to `w`. */
  lemma PausedThenRest(env: Env, d: Decoder, a: seq<byte>, b: seq<byte>, w: Decoder)
    requires Feed(env, d, a) == Outcome(w, [], None)
    ensures Feed(env, d, a + b) == Feed(env, w, b)
  {
    FeedAppend(env, d, a, b);
    var later := Feed(env, w, b);
    assert [] + later.events == later.events;
  }
}
