/**
  The v2 frame decoder of `ClientHandler`: the five-state machine
  (`HandshakeState`), its per-state handlers and the `channelRead` loop over
  the cumulative buffer.

  The cumulative buffer is modelled as the sequence of its unread bytes: a
  read drops a prefix, and releasing a drained buffer or discarding read
  bytes changes nothing observable. A step either consumes a whole header
  or a whole body, or consumes nothing and reports that data is not enough.
*/
module FrameDecoder {
  import opened Common
  import opened Bytes
  import opened Protocol
  import opened Records

  /** `HandshakeState`: what the next bytes of the buffer are expected to be. */
  datatype HandshakeState = PbHead | ClientHandshakeResponse | Record | ErrorResponse | Status

  /**
    The decoding part of a handler: `active` is `poolFlag`, `state` and
    `dataLength` are the fields of the same name, `buffer` holds the bytes
    received and not yet read.
  */
  datatype Decoder = Decoder(active: bool, state: HandshakeState, dataLength: int, buffer: seq<byte>)

  /**
    Collaborators of the decoder: the code tables, the batch collaborators,
    and whether the `ClientHandshakeResponse`, `ErrorResponse` and
    `RuntimeStatus` protobuf parsers accept a body.
  */
  datatype Env = Env(
    codes: Codes,
    batch: BatchEnv,
    handshakeResponseParses: seq<byte> -> bool,
    errorResponseParses: seq<byte> -> bool,
    runtimeStatusParses: seq<byte> -> bool)

  /** What a frame does besides changing state: log the handshake, log a status, or enqueue a record. */
  datatype Event = Connected | StatusReceived | Delivered(entry: seq<byte>)

  /** One pass of the loop body: progress, `dataNotEnough`, or an exception thrown out of the handler. */
  datatype StepResult =
    | Advanced(next: Decoder, events: seq<Event>)
    | Starved
    | Raised(next: Decoder, events: seq<Event>, fault: Fault)

  /** What a run of the loop leaves: the decoder, the events in order, and the exception that ended it, if any. */
  datatype Outcome = Outcome(decoder: Decoder, events: seq<Event>, fault: Option<Fault>)

  /** A fresh handler: active, expecting a header, empty buffer. */
  function Initial(): (d: Decoder)
    ensures d.active && d.state == PbHead && d.buffer == []
  {
    Decoder(true, PbHead, 0, [])
  }

  /** The state `handleHeader` moves to for a known header type; types without a branch leave PB_HEAD. */
  function NextState(t: HeaderType): (s: HandshakeState)
    ensures s == PbHead <==> t == HandshakeRequestClient || t == OtherKnown
  {
    match t
    case HandshakeResponseClient => ClientHandshakeResponse
    case ErrorResponse => HandshakeState.ErrorResponse
    case DataClient => Record
    case Status => HandshakeState.Status
    case HandshakeRequestClient => PbHead
    case OtherKnown => PbHead
  }

  /** Records enqueued by a batch, as events. */
  function DeliveredEvents(entries: seq<seq<byte>>): (ev: seq<Event>)
    ensures |ev| == |entries|
    ensures forall i :: 0 <= i < |ev| ==> ev[i] == Delivered(entries[i])
  {
    seq(|entries|, i requires 0 <= i < |entries| => Delivered(entries[i]))
  }

  /**
    `handleHeader`: with 7 bytes buffered, reads the header, stores its
    length in `dataLength` and validates it; a valid header moves to the
    state of its type.
  */
  function HeaderStep(codes: Codes, d: Decoder): (r: StepResult)
    ensures r.Starved? <==> |d.buffer| < HEAD_LENGTH
    ensures r.Raised? <==> |d.buffer| >= HEAD_LENGTH && !Acceptable(codes, ParseHeader(d.buffer))
    ensures !r.Starved? ==> r.next.buffer == d.buffer[HEAD_LENGTH..] && r.next.dataLength == ParseHeader(d.buffer).length
    ensures !r.Starved? ==> r.next.active == d.active && IsSuffix(r.next.buffer, d.buffer)
    ensures r.Raised? ==> r.events == [] && r.next.state == d.state && Some(r.fault) == CheckHeader(codes, ParseHeader(d.buffer))
  {
    if |d.buffer| < HEAD_LENGTH then
      Starved
    else
      var h := ParseHeader(d.buffer);
      var read := d.(dataLength := h.length, buffer := d.buffer[HEAD_LENGTH..]);
      match CheckHeader(codes, h)
      case Some(f) => Raised(read, [], f)
      case None => Advanced(read.(state := NextState(codes.headerTypes[h.headerType])), [])
  }

  /**
    The four body handlers: with `dataLength` bytes buffered, read exactly
    that many and act on them. A negative `dataLength` fails allocating the
    body array.
  */
  function BodyStep(env: Env, d: Decoder): (r: StepResult)
    requires d.state != PbHead
    ensures r.Starved? <==> |d.buffer| < d.dataLength
    ensures !r.Starved? ==> r.next.active == d.active && IsSuffix(r.next.buffer, d.buffer)
    ensures r.Advanced? ==> 0 <= d.dataLength && r.next == d.(state := PbHead, buffer := d.buffer[d.dataLength..])
    ensures r.Advanced? ==> d.state != HandshakeState.ErrorResponse
    ensures d.state == HandshakeState.ErrorResponse && !r.Starved? ==> r.Raised?
  {
    if |d.buffer| < d.dataLength then
      Starved
    else if d.dataLength < 0 then
      Raised(d, [], OtherThrowable(JvmRuntime))
    else
      var body := d.buffer[..d.dataLength];
      var read := d.(buffer := d.buffer[d.dataLength..]);
      match d.state
      case ClientHandshakeResponse =>
        if env.handshakeResponseParses(body) then Advanced(read.(state := PbHead), [Connected])
        else Raised(read, [], OtherThrowable(InvalidProtobuf))
      case ErrorResponse =>
        if env.errorResponseParses(body) then Raised(read, [], ClientException(NoAuth, true))
        else Raised(read, [], OtherThrowable(InvalidProtobuf))
      case Status =>
        if env.runtimeStatusParses(body) then Advanced(read.(state := PbHead), [StatusReceived])
        else Raised(read, [], OtherThrowable(InvalidProtobuf))
      case Record =>
        var batch := ParseData(env.batch, body);
        match batch.fault
        case None => Advanced(read.(state := PbHead), DeliveredEvents(batch.delivered))
        case Some(f) => Raised(read, DeliveredEvents(batch.delivered), f)
  }

  /**
    The `switch (state)` of the loop. A step never touches `poolFlag`, only
    ever drops a prefix of the buffer, and either shortens the buffer or
    completes an empty body and returns to PB_HEAD.
  */
  function Step(env: Env, d: Decoder): (r: StepResult)
    ensures r.Advanced? || r.Raised? ==> r.next.active == d.active && IsSuffix(r.next.buffer, d.buffer)
    ensures r.Advanced? ==> |r.next.buffer| < |d.buffer| || (d.state != PbHead && r.next.state == PbHead)
    ensures r.Starved? <==> (if d.state == PbHead then |d.buffer| < HEAD_LENGTH else |d.buffer| < d.dataLength)
  {
    if d.state == PbHead then HeaderStep(env.codes, d) else BodyStep(env, d)
  }

  /** The loop condition fails: `poolFlag` is off, the buffer is drained, or the current step lacks bytes. */
  predicate Halted(env: Env, d: Decoder)
  {
    !d.active || |d.buffer| == 0 || Step(env, d).Starved?
  }

  /**
    The `while (poolFlag && buffer.isReadable() && !dataNotEnough)` loop.
    It stops only where the loop condition fails or a handler throws; the
    bytes it leaves are a suffix of the buffer it started with.
  */
  function Drain(env: Env, d: Decoder): (r: Outcome)
    ensures r.decoder.active == d.active
    ensures IsSuffix(r.decoder.buffer, d.buffer)
    ensures r.fault.None? ==> Halted(env, r.decoder)
    decreases |d.buffer|, if d.state == PbHead then 0 else 1
  {
    if !d.active || |d.buffer| == 0 then
      Outcome(d, [], None)
    else
      match Step(env, d)
      case Starved => Outcome(d, [], None)
      case Raised(next, events, f) => Outcome(next, events, Some(f))
      case Advanced(next, events) =>
        var rest := Drain(env, next);
        Outcome(rest.decoder, events + rest.events, rest.fault)
  }

  /**
    `channelRead` of a byte chunk: the chunk is appended to what is left of
    the buffer (`dataNotEnough` is cleared) and the loop runs.
  */
  function Feed(env: Env, d: Decoder, chunk: seq<byte>): (r: Outcome)
    ensures r.decoder.active == d.active
    ensures IsSuffix(r.decoder.buffer, d.buffer + chunk)
    ensures r.fault.None? ==> Halted(env, r.decoder)
  {
    Drain(env, d.(buffer := d.buffer + chunk))
  }

  /** The invariant of the handler's fields: outside PB_HEAD the pending body length is positive. */
  predicate Consistent(d: Decoder)
  {
    d.state != PbHead ==> d.dataLength > 0
  }

  /** A step keeps the invariant, whether it advances or throws. */
  lemma StepKeepsConsistent(env: Env, d: Decoder)
    requires Consistent(d)
    ensures Step(env, d).Advanced? || Step(env, d).Raised? ==> Consistent(Step(env, d).next)
  {
    if d.state == PbHead && |d.buffer| >= HEAD_LENGTH {
      var h := ParseHeader(d.buffer);
      if CheckHeader(env.codes, h).None? {
        assert h.length > 0;
      }
    }
  }

  /** The loop keeps the invariant. */
  lemma {:induction false} DrainKeepsConsistent(env: Env, d: Decoder)
    requires Consistent(d)
    ensures Consistent(Drain(env, d).decoder)
    decreases |d.buffer|, if d.state == PbHead then 0 else 1
  {
    if d.active && |d.buffer| > 0 {
      StepKeepsConsistent(env, d);
      match Step(env, d)
      case Starved =>
      case Raised(_, _, _) =>
      case Advanced(next, _) => DrainKeepsConsistent(env, next);
    }
  }

  /**
    With fewer than 7 bytes buffered in PB_HEAD, the loop sets
    `dataNotEnough`: nothing is read and the state stays PB_HEAD.
  */
  lemma ShortHeaderConsumesNothing(env: Env, d: Decoder)
    requires d.state == PbHead && |d.buffer| < HEAD_LENGTH
    ensures Drain(env, d) == Outcome(d, [], None)
  {
  }

  /**
    `handleHeader` on a full header: the 7 header bytes are read and
    `dataLength` is set whatever the outcome; an invalid header throws the
    error `checkHeader` chooses, a valid one moves to the state of its type
    without reading any body byte.
  */
  lemma HeaderStepReadsSevenBytes(env: Env, d: Decoder)
    requires d.state == PbHead && |d.buffer| >= HEAD_LENGTH
    ensures var h := ParseHeader(d.buffer);
      var read := d.(dataLength := h.length, buffer := d.buffer[HEAD_LENGTH..]);
      && (!Acceptable(env.codes, h) ==> Step(env, d) == Raised(read, [], CheckHeader(env.codes, h).value))
      && (Acceptable(env.codes, h) ==>
            Step(env, d) == Advanced(read.(state := NextState(env.codes.headerTypes[h.headerType])), []))
  {
  }

  /** The state a valid header leads to, by type; the other known types stay in PB_HEAD. */
  lemma NextStateByType(t: HeaderType)
    ensures t == HandshakeResponseClient <==> NextState(t) == ClientHandshakeResponse
    ensures t == HeaderType.ErrorResponse <==> NextState(t) == HandshakeState.ErrorResponse
    ensures t == DataClient <==> NextState(t) == Record
    ensures t == HeaderType.Status <==> NextState(t) == HandshakeState.Status
    ensures t in {HandshakeRequestClient, OtherKnown} <==> NextState(t) == PbHead
  {
  }

  /**
    A handshake-response, status or record body step either lacks bytes
    (and changes nothing) or reads exactly `dataLength` bytes; when it
    completes it is back in PB_HEAD.
  */
  lemma BodyStepAllOrNothing(env: Env, d: Decoder)
    requires d.state in {ClientHandshakeResponse, HandshakeState.Status, Record} && d.dataLength > 0
    ensures |d.buffer| < d.dataLength <==> Step(env, d).Starved?
    ensures Step(env, d).Advanced? ==>
      Step(env, d).next == d.(state := PbHead, buffer := d.buffer[d.dataLength..])
    ensures Step(env, d).Raised? ==>
      Step(env, d).next == d.(buffer := d.buffer[d.dataLength..])
  {
  }

  /**
    An ERROR_RESPONSE body, once fully buffered, never leads back to
    PB_HEAD: a parsable body throws NO_AUTH with the stop flag set, and an
    unparsable one throws the protobuf exception.
  */
  lemma ErrorBodyAlwaysThrows(env: Env, d: Decoder)
    requires d.state == HandshakeState.ErrorResponse && d.dataLength > 0 && |d.buffer| >= d.dataLength
    ensures Step(env, d).Raised?
    ensures Step(env, d).next == d.(buffer := d.buffer[d.dataLength..])
    ensures Step(env, d).events == []
    ensures env.errorResponseParses(d.buffer[..d.dataLength])
      <==> Step(env, d).fault == ClientException(NoAuth, true)
  {
  }

  /**
    A record body whose batch decodes is delivered in full and the decoder
    returns to PB_HEAD; a failing batch keeps the records enqueued before
    the failure.
  */
  lemma RecordBodyDelivers(env: Env, d: Decoder)
    requires d.state == Record && d.dataLength > 0 && |d.buffer| >= d.dataLength
    ensures var batch := ParseData(env.batch, d.buffer[..d.dataLength]);
      && Step(env, d).events == DeliveredEvents(batch.delivered)
      && (batch.fault.None? <==> Step(env, d).Advanced?)
      && (batch.fault.Some? ==> Step(env, d) == Raised(d.(buffer := d.buffer[d.dataLength..]),
                                                         DeliveredEvents(batch.delivered), batch.fault.value))
  {
  }
}
