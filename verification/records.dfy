/**
  Record batches (`ClientHandler.parseData`) and the record splitter
  (`ClientHandler.parseRecord`).

  A DATA frame's body is a `RecordData` protobuf: a compression type, the
  compressed and raw lengths and the record bytes. LZ4-compressed batches
  are decompressed first. The flat record stream is then cut into entries
  of `8 + len` bytes, where `len` is the little-endian int at offset 4 of
  the entry; each entry is copied out, handed to the log-record
  deserializer and, when that succeeds, put on the record queue.

  The protobuf parser, the LZ4 decompressor and the log-record
  deserializer are foreign; they enter as functions of a `BatchEnv`.
  Putting on the blocking queue becomes appending to `delivered`.
*/
module Records {
  import opened Common
  import opened Bytes
  import opened Protocol

  /** The `RecordData` protobuf message. */
  datatype RecordData = RecordData(compressType: int, compressedLen: int, rawLen: int, records: seq<byte>)

  /** What `LZ4FastDecompressor.decompress` returns: the count of source bytes it read, and the filled destination. */
  datatype Decompressed = Decompressed(compressedRead: int, output: seq<byte>)

  /**
    The collaborators of batch decoding: `lz4` is `CompressType.LZ4.code()`,
    `ignoreUnknownRecordType` the client setting, `parseRecordData` the
    protobuf parser (`None` when it throws), `decompress` the LZ4 call for a
    destination of `rawLen` bytes (`None` when it throws), and
    `logMessageParses` whether `LogMessage.parse` accepts an entry.
  */
  datatype BatchEnv = BatchEnv(
    lz4: int,
    ignoreUnknownRecordType: bool,
    parseRecordData: seq<byte> -> Option<RecordData>,
    decompress: (seq<byte>, nat) -> Option<Decompressed>,
    logMessageParses: seq<byte> -> bool)

  /** The entries put on the record queue, in order, and the exception that ended the batch, if any. */
  datatype Batch = Batch(delivered: seq<seq<byte>>, fault: Option<Fault>)

  /** Bytes before an entry's body: 4 reserved bytes and the 4-byte length. */
  const ENTRY_PREFIX: nat := 8

  /** An entry whose length field matches its size. */
  predicate WellFormedEntry(e: seq<byte>)
  {
    |e| >= ENTRY_PREFIX && ReadIntLE(e, 4) == |e| - ENTRY_PREFIX
  }

  /** The entry the server writes for a payload: 4 reserved bytes, the payload length least significant first, the payload. */
  function MakeEntry(reserved: seq<byte>, payload: seq<byte>): (e: seq<byte>)
    requires |reserved| == 4 && IsJavaInt(|payload|)
    ensures WellFormedEntry(e)
    ensures e[..4] == reserved && e[ENTRY_PREFIX..] == payload
  {
    var e := reserved + WriteIntLE(|payload|) + payload;
    IntLERoundTrip(|payload|, reserved, payload);
    e
  }

  /**
    `parseRecord`: splits `s` (the bytes from the current offset on) into
    entries. Reading a length past the end, a negative length, or an entry
    that runs past the end throws a JVM exception. Rejecting every negative
    length is a correction: the code as written lets -8 to -1 through
    (`SplitLoop`). An entry the
    deserializer rejects is skipped when `ignoreUnknownRecordType` is set and
    otherwise ends the batch with E_PARSE; entries delivered before it stay
    delivered. Every delivered entry is well formed and accepted by the
    deserializer.
  */
  function SplitRecords(env: BatchEnv, s: seq<byte>): (r: Batch)
    ensures forall i :: 0 <= i < |r.delivered| ==>
      WellFormedEntry(r.delivered[i]) && env.logMessageParses(r.delivered[i])
    ensures r.fault.None? || r.fault == Some(OtherThrowable(JvmRuntime))
      || (r.fault == Some(ClientException(EParse, false)) && !env.ignoreUnknownRecordType)
    decreases |s|
  {
    if |s| == 0 then
      Batch([], None)
    else if |s| < ENTRY_PREFIX then
      Batch([], Some(OtherThrowable(JvmRuntime)))
    else
      var len := ReadIntLE(s, 4);
      if len < 0 || ENTRY_PREFIX + len > |s| then
        Batch([], Some(OtherThrowable(JvmRuntime)))
      else
        var entry := s[..ENTRY_PREFIX + len];
        UnsignedLEWindow(entry, s, 4, 4);
        assert WellFormedEntry(entry);
        if env.logMessageParses(entry) then
          var rest := SplitRecords(env, s[ENTRY_PREFIX + len..]);
          Batch([entry] + rest.delivered, rest.fault)
        else if env.ignoreUnknownRecordType then
          SplitRecords(env, s[ENTRY_PREFIX + len..])
        else
          Batch([], Some(ClientException(EParse, false)))
  }

  /** Splitting a well-formed entry followed by more bytes cuts exactly that entry first. */
  lemma SplitFirstEntry(e: seq<byte>, rest: seq<byte>)
    requires WellFormedEntry(e)
    ensures var s := e + rest;
      |s| >= ENTRY_PREFIX && ReadIntLE(s, 4) == |e| - ENTRY_PREFIX
      && s[..|e|] == e && s[|e|..] == rest
  {
    var s := e + rest;
    assert s[..|e|] == e;
    UnsignedLEWindow(e, s, 4, 4);
  }

  /** Every entry of the list is well formed. */
  predicate AllWellFormed(es: seq<seq<byte>>)
  {
    forall i :: 0 <= i < |es| ==> WellFormedEntry(es[i])
  }

  /** The entries the deserializer accepts, in order. */
  function Accepted(env: BatchEnv, es: seq<seq<byte>>): (r: seq<seq<byte>>)
    ensures |r| <= |es|
  {
    if |es| == 0 then []
    else if env.logMessageParses(es[0]) then [es[0]] + Accepted(env, es[1..])
    else Accepted(env, es[1..])
  }

  /**
    K concatenated well-formed entries that the deserializer accepts are
    delivered as exactly those K entries, byte for byte, in input order.
  */
  lemma {:induction false} SplitDeliversEveryEntry(env: BatchEnv, es: seq<seq<byte>>)
    requires AllWellFormed(es)
    requires forall i :: 0 <= i < |es| ==> env.logMessageParses(es[i])
    ensures SplitRecords(env, Flatten(es)) == Batch(es, None)
    decreases |es|
  {
    if |es| > 0 {
      FlattenCons(es[0], es[1..]);
      assert [es[0]] + es[1..] == es;
      SplitFirstEntry(es[0], Flatten(es[1..]));
      SplitDeliversEveryEntry(env, es[1..]);
    }
  }

  /**
    With `ignoreUnknownRecordType` set, splitting well-formed entries never
    fails and delivers exactly the accepted ones, in order; the offset moves
    past a skipped entry just as past a delivered one.
  */
  lemma {:induction false} SplitSkipsRejected(env: BatchEnv, es: seq<seq<byte>>)
    requires AllWellFormed(es)
    requires env.ignoreUnknownRecordType
    ensures SplitRecords(env, Flatten(es)) == Batch(Accepted(env, es), None)
    decreases |es|
  {
    if |es| > 0 {
      FlattenCons(es[0], es[1..]);
      assert [es[0]] + es[1..] == es;
      SplitFirstEntry(es[0], Flatten(es[1..]));
      SplitSkipsRejected(env, es[1..]);
    }
  }

  /**
    Without `ignoreUnknownRecordType`, the first rejected entry `k` ends the
    batch with E_PARSE after entries `0..k-1` were already delivered.
  */
  lemma {:induction false} SplitStopsAtFirstRejected(env: BatchEnv, es: seq<seq<byte>>, k: nat)
    requires AllWellFormed(es)
    requires !env.ignoreUnknownRecordType
    requires k < |es| && !env.logMessageParses(es[k])
    requires forall i :: 0 <= i < k ==> env.logMessageParses(es[i])
    ensures SplitRecords(env, Flatten(es)) == Batch(es[..k], Some(ClientException(EParse, false)))
    decreases k
  {
    FlattenCons(es[0], es[1..]);
    assert [es[0]] + es[1..] == es;
    SplitFirstEntry(es[0], Flatten(es[1..]));
    if k > 0 {
      SplitStopsAtFirstRejected(env, es[1..], k - 1);
      assert [es[0]] + es[1..][..k - 1] == es[..k];
    }
  }

  /**
    The `parseRecord` loop turn by turn, for at most `fuel` turns (`None`
    when it has not ended by then). The entry size is `dataLength + 8` in
    Java `int` arithmetic: a negative size fails allocating the array, one
    past the end fails the copy, and the offset moves by the size.

    With `guarded` off this is the loop as written: a length field from -8
    to -1 gives a short entry of 0 to 7 bytes, and at -8 the offset does
    not move. With `guarded` on, a negative length field is rejected as a
    JVM runtime error before the copy, which is `SplitRecords`.
  */
  function SplitLoop(env: BatchEnv, s: seq<byte>, fuel: nat, guarded: bool): (r: Option<Batch>)
    ensures r.Some? ==> forall i :: 0 <= i < |r.value.delivered| ==> env.logMessageParses(r.value.delivered[i])
    ensures r.Some? ==>
      || r.value.fault.None?
      || r.value.fault == Some(OtherThrowable(JvmRuntime))
      || (r.value.fault == Some(ClientException(EParse, false)) && !env.ignoreUnknownRecordType)
    decreases fuel
  {
    if |s| == 0 then
      Some(Batch([], None))
    else if fuel == 0 then
      None
    else if |s| < ENTRY_PREFIX then
      Some(Batch([], Some(OtherThrowable(JvmRuntime))))
    else
      var len := ReadIntLE(s, 4);
      var size := IntWrap(len + ENTRY_PREFIX);
      if (guarded && len < 0) || size < 0 || size > |s| then
        Some(Batch([], Some(OtherThrowable(JvmRuntime))))
      else
        var entry := s[..size];
        if env.logMessageParses(entry) then
          match SplitLoop(env, s[size..], fuel - 1, guarded)
          case None => None
          case Some(rest) => Some(Batch([entry] + rest.delivered, rest.fault))
        else if env.ignoreUnknownRecordType then
          SplitLoop(env, s[size..], fuel - 1, guarded)
        else
          Some(Batch([], Some(ClientException(EParse, false))))
  }

  /**
    The loop as written never ends on an entry whose length field is -8
    when the empty entry is skipped or accepted: the size is 0, so the
    offset stays where it is and the same entry is read again.
  */
  lemma {:induction false} NegativeEightNeverEnds(env: BatchEnv, reserved: seq<byte>, rest: seq<byte>, fuel: nat)
    requires |reserved| == 4
    requires env.ignoreUnknownRecordType || env.logMessageParses([])
    ensures SplitLoop(env, reserved + WriteIntLE(-8) + rest, fuel, false).None?
    decreases fuel
  {
    var s := reserved + WriteIntLE(-8) + rest;
    IntLERoundTrip(-8, reserved, rest);
    if fuel > 0 {
      assert s[..0] == [];
      assert s[0..] == s;
      NegativeEightNeverEnds(env, reserved, rest, fuel - 1);
    }
  }

  /**
    With negative lengths rejected, every turn that goes on consumes at
    least 8 bytes, so for a Java array the loop ends within `|s| / 8 + 1`
    turns (`|s| < 8 * fuel`), with exactly the result of `SplitRecords`.
  */
  lemma {:induction false} GuardedLoopEnds(env: BatchEnv, s: seq<byte>, fuel: nat)
    requires IsJavaInt(|s|) && |s| < ENTRY_PREFIX * fuel
    ensures SplitLoop(env, s, fuel, true) == Some(SplitRecords(env, s))
    decreases |s|
  {
    if |s| >= ENTRY_PREFIX {
      var len := ReadIntLE(s, 4);
      var size := IntWrap(len + ENTRY_PREFIX);
      if len >= 0 && ENTRY_PREFIX + len <= |s| {
        assert size == ENTRY_PREFIX + len;
        GuardedLoopEnds(env, s[size..], fuel - 1);
      } else {
        assert len < 0 || size < 0 || size > |s|;
        assert SplitLoop(env, s, fuel, true) == Some(Batch([], Some(OtherThrowable(JvmRuntime))));
        assert SplitRecords(env, s) == Batch([], Some(OtherThrowable(JvmRuntime)));
      }
    }
  }

  /**
    On a stream of well-formed entries no length field is negative, so the
    loop as written and the guarded loop take the same turns. With
    `GuardedLoopEnds`, the splitting lemmas about `SplitRecords` carry over
    to the code as written.
  */
  lemma {:induction false} AsWrittenOnEntries(env: BatchEnv, es: seq<seq<byte>>, fuel: nat)
    requires AllWellFormed(es) && IsJavaInt(|Flatten(es)|)
    ensures SplitLoop(env, Flatten(es), fuel, false) == SplitLoop(env, Flatten(es), fuel, true)
    decreases |es|
  {
    if |es| > 0 && fuel > 0 {
      FlattenCons(es[0], es[1..]);
      assert [es[0]] + es[1..] == es;
      SplitFirstEntry(es[0], Flatten(es[1..]));
      AsWrittenOnEntries(env, es[1..], fuel - 1);
    }
  }

  /** The LZ4 branch is taken and the decompressor's count differs from `compressedLen`. */
  predicate Lz4CountMismatch(env: BatchEnv, body: seq<byte>)
  {
    && env.parseRecordData(body).Some?
    && var rd := env.parseRecordData(body).value;
    && rd.compressType == env.lz4
    && rd.rawLen >= 0
    && env.decompress(rd.records, rd.rawLen).Some?
    && env.decompress(rd.records, rd.rawLen).value.compressedRead != rd.compressedLen
  }

  /**
    `parseData`: decodes the `RecordData` message of a DATA body (E_PARSE
    when it is not a valid protobuf), decompresses an LZ4 batch into a
    `rawLen`-byte destination and checks the count the decompressor returns
    against `compressedLen` (E_LEN on a mismatch, with nothing delivered),
    then splits the records. E_LEN is raised exactly on that mismatch.
  */
  function ParseData(env: BatchEnv, body: seq<byte>): (r: Batch)
    ensures env.parseRecordData(body).None? ==> r == Batch([], Some(ClientException(EParse, false)))
    ensures r.fault == Some(ClientException(ELen, false)) <==> Lz4CountMismatch(env, body)
    ensures Lz4CountMismatch(env, body) ==> r.delivered == []
    ensures r.fault.Some? && r.fault.value.ClientException? ==> !r.fault.value.stop
    ensures forall i :: 0 <= i < |r.delivered| ==>
      WellFormedEntry(r.delivered[i]) && env.logMessageParses(r.delivered[i])
  {
    match env.parseRecordData(body)
    case None => Batch([], Some(ClientException(EParse, false)))
    case Some(rd) =>
      if rd.compressType == env.lz4 then
        if rd.rawLen < 0 then
          Batch([], Some(OtherThrowable(JvmRuntime)))
        else
          match env.decompress(rd.records, rd.rawLen)
          case None => Batch([], Some(OtherThrowable(JvmRuntime)))
          case Some(d) =>
            if d.compressedRead != rd.compressedLen then
              Batch([], Some(ClientException(ELen, false)))
            else
              SplitRecords(env, d.output)
      else
        SplitRecords(env, rd.records)
  }

  /** A batch that is not LZ4-compressed is split straight from its `records` bytes. */
  lemma UncompressedBatchIsSplitAsIs(env: BatchEnv, body: seq<byte>, es: seq<seq<byte>>)
    requires env.parseRecordData(body).Some?
    requires env.parseRecordData(body).value.compressType != env.lz4
    requires env.parseRecordData(body).value.records == Flatten(es)
    requires AllWellFormed(es)
    requires forall i :: 0 <= i < |es| ==> env.logMessageParses(es[i])
    ensures ParseData(env, body) == Batch(es, None)
  {
    SplitDeliversEveryEntry(env, es);
  }

  /** An LZ4 batch whose count matches is split from the decompressed bytes. */
  lemma Lz4BatchIsSplitAfterDecompression(env: BatchEnv, body: seq<byte>, es: seq<seq<byte>>)
    requires env.parseRecordData(body).Some?
    requires var rd := env.parseRecordData(body).value;
      && rd.compressType == env.lz4 && rd.rawLen >= 0
      && env.decompress(rd.records, rd.rawLen) == Some(Decompressed(rd.compressedLen, Flatten(es)))
    requires AllWellFormed(es)
    requires forall i :: 0 <= i < |es| ==> env.logMessageParses(es[i])
    ensures ParseData(env, body) == Batch(es, None)
  {
    SplitDeliversEveryEntry(env, es);
  }
}
