/**
  The v2 frame header of the log-proxy wire protocol and the client's
  validation of it (`ClientHandler.handleHeader` / `checkHeader`), plus the
  errors the decoding engine can raise.

  A frame header is 7 bytes: a signed 16-bit protocol version, a signed
  type byte and a signed 32-bit body length, all big-endian.

  The numeric tables `ProtocolVersion` and `HeaderType` are not part of
  this model; their codes enter as a `Codes` value, so every property below
  holds for whatever codes those tables assign. (The `CompressType.LZ4`
  code is the `lz4` field of `Records.BatchEnv`.)
*/
module Protocol {
  import opened Common
  import opened Bytes

  /** Length of a frame header: 2 (version) + 1 (type) + 4 (length). */
  const HEAD_LENGTH: nat := 7

  /** The `HeaderType` constants the client distinguishes; every other known code is `OtherKnown`. */
  datatype HeaderType =
    | HandshakeRequestClient
    | HandshakeResponseClient
    | ErrorResponse
    | DataClient
    | Status
    | OtherKnown

  /**
    The code tables: `versions` are the codes `ProtocolVersion.codeOf` knows,
    `v2` is `ProtocolVersion.V2.code()`, `headerTypes` is `HeaderType.codeOf`
    (a code absent from the map is unknown), and `handshakeRequest` is
    `HeaderType.HANDSHAKE_REQUEST_CLIENT.code()`.
  */
  datatype Codes = Codes(
    versions: set<int>,
    v2: int,
    headerTypes: map<int, HeaderType>,
    handshakeRequest: int)

  /** The client error codes raised by the engine (the `ErrorCode` values it uses). */
  datatype ErrorCode = NoAuth | EProtocol | EHeaderType | ELen | EParse

  /** Throwables that are not a `LogProxyClientException`. */
  datatype Cause =
    | InvalidProtobuf   // `InvalidProtocolBufferException` escaping a body handler
    | JvmRuntime        // an index, array-size or decompressor exception of the JVM
    | Transport         // an I/O or other exception Netty passes to `exceptionCaught` from outside the handler

  /**
    What a step of the engine can throw: a `LogProxyClientException` with its
    code and `needStop()` flag, or any other throwable.
  */
  datatype Fault =
    | ClientException(code: ErrorCode, stop: bool)
    | OtherThrowable(cause: Cause)

  /** A decoded frame header, with Java's signed field values. */
  datatype Header = Header(version: int, headerType: int, length: int)

  /** Field values a Java short, byte and int can hold. */
  predicate Representable(h: Header)
  {
    IsJavaShort(h.version) && IsJavaByte(h.headerType) && IsJavaInt(h.length)
  }

  /** `readShort`, `readByte`, `readInt` from the front of the buffer. */
  function ParseHeader(s: seq<byte>): (h: Header)
    requires |s| >= HEAD_LENGTH
    ensures Representable(h)
  {
    Header(ReadShort(s, 0), ReadByte(s, 2), ReadInt(s, 3))
  }

  /** The header as the server writes it: `writeShort`, `writeByte`, `writeInt`. */
  function EncodeHeader(h: Header): (s: seq<byte>)
    ensures |s| == HEAD_LENGTH
  {
    WriteShort(h.version) + WriteByte(h.headerType) + WriteInt(h.length)
  }

  /** Decoding an encoded header gives it back, whatever bytes follow it. */
  lemma HeaderRoundTrip(h: Header, rest: seq<byte>)
    requires Representable(h)
    ensures ParseHeader(EncodeHeader(h) + rest) == h
  {
    var s := EncodeHeader(h) + rest;
    ShortRoundTrip(h.version, s[2..]);
    assert s == WriteShort(h.version) + s[2..];
    ByteRoundTrip(h.headerType, s[3..]);
    assert s[2..] == WriteByte(h.headerType) + s[3..];
    assert ReadByte(s, 2) == ReadByte(s[2..], 0);
    IntRoundTrip(h.length, s[7..]);
    assert s[3..] == WriteInt(h.length) + s[7..];
    assert UnsignedBE(s, 3, 4) == UnsignedBE(s[3..], 0, 4) by {
      assert UnsignedBE(s, 3, 1) == UnsignedBE(s[3..], 0, 1);
      assert UnsignedBE(s, 3, 2) == UnsignedBE(s[3..], 0, 2);
      assert UnsignedBE(s, 3, 3) == UnsignedBE(s[3..], 0, 3);
    }
  }

  /** A version the client accepts: one `ProtocolVersion` knows, or V2. */
  predicate VersionSupported(codes: Codes, version: int)
  {
    version in codes.versions || version == codes.v2
  }

  /** A header that passes all three checks. */
  predicate Acceptable(codes: Codes, h: Header)
  {
    VersionSupported(codes, h.version) && h.headerType in codes.headerTypes && h.length > 0
  }

  /**
    `checkHeader`: the version is tested first, then the type, then the
    length; the first failing test decides the error, and none of these
    exceptions asks the stream to stop.
  */
  function CheckHeader(codes: Codes, h: Header): (r: Option<Fault>)
    ensures r.None? <==> Acceptable(codes, h)
    ensures r == Some(ClientException(EProtocol, false)) <==> !VersionSupported(codes, h.version)
    ensures r == Some(ClientException(EHeaderType, false))
            <==> VersionSupported(codes, h.version) && h.headerType !in codes.headerTypes
    ensures r == Some(ClientException(ELen, false))
            <==> VersionSupported(codes, h.version) && h.headerType in codes.headerTypes && h.length <= 0
  {
    if !(h.version in codes.versions) && h.version != codes.v2 then
      Some(ClientException(EProtocol, false))
    else if h.headerType !in codes.headerTypes then
      Some(ClientException(EHeaderType, false))
    else if h.length <= 0 then
      Some(ClientException(ELen, false))
    else
      None
  }
}
