/** Application metadata and decoder verdicts shared by the stream decoders (include/app_decoder.h). */
module AppMetadata {
  import opened Bytes

  const TEXT_SIZE := 256

  datatype Headers = Headers(host: seq<byte>, userAgent: seq<byte>, contentType: seq<byte>)

  /** What a successful decode reports; a text field holds the bytes copied before its terminator. */
  datatype AppInfo =
    | HttpRequest(requestMethod: seq<byte>, path: seq<byte>, version: seq<byte>, headers: Headers)
    | HttpResponse(version: seq<byte>, status: nat, reason: seq<byte>, headers: Headers)
    | Dns(id: uint16, isResponse: bool, opcode: nat, rcode: nat, questions: uint16,
          name: seq<byte>, queryType: uint16, queryClass: uint16)
    | Tls(recordVersion: uint16, clientVersion: uint16, sni: seq<byte>, alpn: seq<byte>)

  datatype Decoding = NoMatch | NeedMore | Malformed | Decoded(info: AppInfo)

  /** OK and MALFORMED: the verdicts that more bytes are meant not to change. */
  predicate Conclusive(d: Decoding) {
    d.Decoded? || d.Malformed?
  }

  /** The bytes a fixed text field of `size` bytes keeps, one byte being the terminator. */
  function Truncated(text: seq<byte>, size: nat): seq<byte>
    requires size > 0
  {
    text[..Min(|text|, size - 1)]
  }
}
