/**
  The handler's callbacks and the failure classification it applies
  (`channelActive`, `channelRead`, `channelInactive`, `exceptionCaught`,
  `resetState`).

  An exception thrown out of `channelRead` reaches `exceptionCaught` of the
  same handler. There a `LogProxyClientException` is reported to the stream,
  which is stopped when the exception asks for it; any other throwable, an
  idle event, or a closed channel asks the stream to reconnect. The stream
  itself is not part of this model: its calls become a `Reaction`, and
  `hasStream` says whether the handler has one.
*/
module Lifecycle {
  import opened Common
  import opened Bytes
  import opened Protocol
  import opened Handshake
  import opened Records
  import opened FrameDecoder
  import opened Chunking

  /** What Netty passes to `channelRead`. */
  datatype Inbound = Chunk(bytes: seq<byte>) | IdleEvent | OtherMessage

  /** What the handler asks of its stream. */
  datatype Reaction =
    | NoReaction
    | Reconnect                             // `triggerReconnect()`
    | Report(code: ErrorCode, thenStop: bool) // `triggerException(e)`, then `stop()` when `e.needStop()`

  /** The handler after a callback: its decoder, the frame events of the callback, and its request to the stream. */
  datatype Handled = Handled(decoder: Decoder, events: seq<Event>, reaction: Reaction)

  /** `resetState` on a v2 connection: back to PB_HEAD, nothing else touched. */
  function ResetState(d: Decoder): (e: Decoder)
    ensures e.state == PbHead
    ensures e.active == d.active && e.dataLength == d.dataLength && e.buffer == d.buffer
  {
    d.(state := PbHead)
  }

  /** How `exceptionCaught` answers a throwable. */
  function Classify(f: Fault, hasStream: bool): (r: Reaction)
    ensures r == Reconnect <==> hasStream && f.OtherThrowable?
    ensures r.Report? <==> hasStream && f.ClientException?
    ensures r.Report? ==> r.code == f.code && r.thenStop == f.stop
  {
    if !hasStream then NoReaction
    else match f
      case ClientException(code, stop) => Report(code, stop)
      case OtherThrowable(_) => Reconnect
  }

  /**
    `exceptionCaught`: clears `poolFlag`, resets the state and reports or
    reconnects; the buffer and the pending length are left as they were.
  */
  function ExceptionCaught(d: Decoder, events: seq<Event>, f: Fault, hasStream: bool): (h: Handled)
    ensures !h.decoder.active && h.decoder.state == PbHead
    ensures h.decoder.buffer == d.buffer && h.decoder.dataLength == d.dataLength
    ensures h.events == events && h.reaction == Classify(f, hasStream)
  {
    Handled(ResetState(d).(active := false), events, Classify(f, hasStream))
  }

  /** `channelInactive`: clears `poolFlag` and asks for a reconnect. */
  function ChannelInactive(d: Decoder, hasStream: bool): (h: Handled)
    ensures !h.decoder.active && h.decoder.state == d.state && h.decoder.buffer == d.buffer
    ensures h.events == []
    ensures h.reaction == (if hasStream then Reconnect else NoReaction)
  {
    Handled(d.(active := false), [], if hasStream then Reconnect else NoReaction)
  }

  /** `channelActive`: sets `poolFlag` and writes the handshake request for the connection's version. */
  function ChannelActive(codes: Codes, d: Decoder, version: int, body: seq<byte>): (r: (Decoder, ConnectRequest))
    ensures r.0.active && r.0.state == d.state && r.0.buffer == d.buffer
    ensures r.1 == GenerateConnectRequest(codes, version, body)
  {
    (d.(active := true), GenerateConnectRequest(codes, version, body))
  }

  /**
    `channelRead`, with an exception escaping it passed on to
    `exceptionCaught`: a byte chunk is fed to the decoder; an idle event
    asks for a reconnect without touching the decoder; any other message
    is ignored.

    So an idle event, or a throwable that is not a `LogProxyClientException`,
    asks for a reconnect; a `LogProxyClientException` is reported with its
    code; and once `poolFlag` is off (after `exceptionCaught` or
    `channelInactive`) later chunks are only buffered, with nothing decoded,
    delivered or reported.
  */
  function ChannelRead(env: Env, d: Decoder, msg: Inbound, hasStream: bool): (h: Handled)
    ensures h.reaction == Reconnect <==>
      hasStream && (msg.IdleEvent? || (msg.Chunk? && Feed(env, d, msg.bytes).fault.Some?
                                       && Feed(env, d, msg.bytes).fault.value.OtherThrowable?))
    ensures h.reaction.Report? <==>
      hasStream && msg.Chunk? && Feed(env, d, msg.bytes).fault.Some?
      && Feed(env, d, msg.bytes).fault.value.ClientException?
    ensures h.reaction.Report? ==> h.reaction.code == Feed(env, d, msg.bytes).fault.value.code
    ensures msg.Chunk? ==> h.events == Feed(env, d, msg.bytes).events
    ensures !msg.Chunk? ==> h.decoder == d && h.events == []
    ensures msg.Chunk? && !d.active ==> h == Handled(d.(buffer := d.buffer + msg.bytes), [], NoReaction)
  {
    match msg
    case Chunk(bytes) =>
      var r := Feed(env, d, bytes);
      if r.fault.None? then Handled(r.decoder, r.events, NoReaction)
      else ExceptionCaught(r.decoder, r.events, r.fault.value, hasStream)
    case IdleEvent => Handled(d, [], if hasStream then Reconnect else NoReaction)
    case OtherMessage => Handled(d, [], NoReaction)
  }

  /**
    A step throws a `LogProxyClientException` asking to stop exactly when
    it is the NO_AUTH refusal of an ERROR_RESPONSE frame.
  */
  lemma StepStopsOnlyOnRefusal(env: Env, d: Decoder)
    requires Step(env, d).Raised? && Step(env, d).fault.ClientException?
    ensures Step(env, d).fault.stop <==> Step(env, d).fault.code == NoAuth
  {
    if d.state == PbHead {
      var h := ParseHeader(d.buffer);
      assert CheckHeader(env.codes, h).Some?;
    } else if d.state == Record {
      var batch := ParseData(env.batch, d.buffer[..d.dataLength]);
      assert batch.fault.Some?;
    }
  }

  /**
    Of the exceptions the decoder throws, only the server's refusal
    (NO_AUTH) stops the stream; every other `LogProxyClientException`
    (bad header, E_LEN, E_PARSE) leaves it running.
  */
  lemma {:induction false} DrainStopsOnlyOnRefusal(env: Env, d: Decoder)
    requires Drain(env, d).fault.Some? && Drain(env, d).fault.value.ClientException?
    ensures Drain(env, d).fault.value.stop <==> Drain(env, d).fault.value.code == NoAuth
    decreases |d.buffer|, if d.state == PbHead then 0 else 1
  {
    var step := Step(env, d);
    if step.Raised? {
      StepStopsOnlyOnRefusal(env, d);
    } else if step.Advanced? {
      DrainStopsOnlyOnRefusal(env, step.next);
    }
  }

  /** The stream is told to stop after a chunk exactly when the chunk completed a refused handshake. */
  lemma StopOnlyOnRefusal(env: Env, d: Decoder, bytes: seq<byte>)
    ensures var h := ChannelRead(env, d, Chunk(bytes), true);
      h.reaction.Report? ==> (h.reaction.thenStop <==> h.reaction.code == NoAuth)
  {
    var r := Feed(env, d, bytes);
    if r.fault.Some? && r.fault.value.ClientException? {
      DrainStopsOnlyOnRefusal(env, d.(buffer := d.buffer + bytes));
    }
  }

  /**
    An ERROR_RESPONSE frame arriving whole on a fresh connection: the
    header is accepted, the body is read in full, the refusal is reported
    as NO_AUTH with the stop flag, no record is delivered, and the handler
    is left inactive in PB_HEAD with an empty buffer.
  */
  lemma RefusalFrameStopsStream(env: Env, h: Header, body: seq<byte>)
    requires Representable(h) && Acceptable(env.codes, h)
    requires env.codes.headerTypes[h.headerType] == HeaderType.ErrorResponse
    requires |body| == h.length && env.errorResponseParses(body)
    ensures ChannelRead(env, Initial(), Chunk(EncodeHeader(h) + body), true)
            == Handled(Decoder(false, PbHead, h.length, []), [], Report(NoAuth, true))
  {
    var d := Initial();
    var frame := EncodeHeader(h) + body;
    var waiting := Decoder(true, HandshakeState.ErrorResponse, h.length, body);
    var refused := ClientException(NoAuth, true);
    assert Step(env, d.(buffer := frame)) == Advanced(waiting, []) by {
      HeaderRoundTrip(h, body);
      DropPrefix(EncodeHeader(h), body);
    }
    assert Drain(env, waiting) == Outcome(waiting.(buffer := []), [], Some(refused)) by {
      assert body[..h.length] == body;
      assert body[h.length..] == [];
      DrainRaises(env, waiting, waiting.(buffer := []), [], refused);
    }
    assert d.(buffer := d.buffer + frame) == d.(buffer := frame);
    DrainAdvances(env, d.(buffer := frame), waiting, []);
  }
}
