/**
  The client's v2 handshake request (`ClientHandler.generateConnectRequest`):
  the magic string, then a frame header carrying V2, the
  HANDSHAKE_REQUEST_CLIENT type and the body length, then the serialized
  `ClientHandshakeRequest` protobuf. The protobuf encoding itself is foreign
  and enters as the `body` bytes.
*/
module Handshake {
  import opened Bytes
  import opened Protocol

  /** The characters of the magic string that opens a request to the log proxy. */
  const MAGIC_STRING: string := "xi53g]q"

  /** The magic string as the bytes written on the wire (ASCII codes). */
  function Magic(): (m: seq<byte>)
    ensures |m| == |MAGIC_STRING|
    ensures forall i :: 0 <= i < |m| ==> m[i] == MAGIC_STRING[i] as int
  {
    seq(|MAGIC_STRING|, i requires 0 <= i < |MAGIC_STRING| => MAGIC_STRING[i] as int)
  }

  /** The request the client sends once the channel is active. */
  datatype ConnectRequest =
    | LegacyRequest               // built by the legacy (pre-v2) handler, not part of this model
    | V2Request(bytes: seq<byte>)

  /**
    `generateConnectRequest(version)`: a version below V2 is delegated to the
    legacy handler; otherwise the request is MAGIC, then `writeShort(V2)`,
    `writeByte(HANDSHAKE_REQUEST_CLIENT)`, `writeInt(|body|)`, then the body.
  */
  function GenerateConnectRequest(codes: Codes, version: int, body: seq<byte>): (r: ConnectRequest)
    ensures r.LegacyRequest? <==> version < codes.v2
    ensures r.V2Request? ==> |r.bytes| == |MAGIC_STRING| + 2 + 1 + 4 + |body|
    ensures r.V2Request? ==> r.bytes[..|MAGIC_STRING|] == Magic()
    ensures r.V2Request? ==> r.bytes[|MAGIC_STRING| + HEAD_LENGTH..] == body
  {
    if version < codes.v2 then
      LegacyRequest
    else
      V2Request(Magic() + EncodeHeader(Header(codes.v2, codes.handshakeRequest, |body|)) + body)
  }

  /**
    After the magic string, a v2 request is a well-formed frame: its header
    decodes to V2, the handshake-request type and the body's length, and the
    body follows it unchanged.
  */
  lemma ConnectRequestIsFrame(codes: Codes, version: int, body: seq<byte>)
    requires version >= codes.v2
    requires IsJavaShort(codes.v2) && IsJavaByte(codes.handshakeRequest) && IsJavaInt(|body|)
    ensures GenerateConnectRequest(codes, version, body).V2Request?
    ensures var frame := GenerateConnectRequest(codes, version, body).bytes[|MAGIC_STRING|..];
      ParseHeader(frame) == Header(codes.v2, codes.handshakeRequest, |body|)
      && frame[HEAD_LENGTH..] == body
  {
    var h := Header(codes.v2, codes.handshakeRequest, |body|);
    var bytes := Magic() + EncodeHeader(h) + body;
    assert bytes[|MAGIC_STRING|..] == EncodeHeader(h) + body;
    HeaderRoundTrip(h, body);
  }
}
