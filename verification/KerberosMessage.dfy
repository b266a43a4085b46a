/** kerberos_message.go: the framer for one Kerberos-protected SOAP message. */
module KerberosMessage {

  import opened Wrappers
  import opened Bytes
  import opened Multipart
  import opened KerberosGss

  const MAX_WRAP_OVERHEAD := 256
  const MAX_METADATA_SIZE := 4096
  const MULTIPART_ENCRYPTED: bytes := "multipart/encrypted"
  const SOAP_XML: bytes := "application/soap+xml"
  const UTF8: bytes := "UTF-8"

  datatype Framer = Framer(maxPlaintextSize: int)

  /** What mime.ParseMediaType returns: the media type and its parameters. */
  datatype Media = Media(kind: bytes, params: map<bytes, bytes>)
  type MimeParser = bytes -> Option<Media>

  /** Go's map lookup: a missing parameter reads as the empty string. */
  function Param(media: Media, name: bytes): bytes {
    if name in media.params then media.params[name] else []
  }

  /** The size limits are added up without leaving the machine's integers exactly when the framer is accepted. */
  function NewFramer(maxPlaintextSize: int, maxInt: int): (r: Result<Framer>)
    ensures r.Ok? <==> 0 < maxPlaintextSize && maxPlaintextSize + 256 + 4096 <= maxInt
    ensures r.Ok? ==> r.value.maxPlaintextSize == maxPlaintextSize
  {
    if maxPlaintextSize <= 0 then Err("not positive")
    else if maxPlaintextSize > maxInt - MAX_WRAP_OVERHEAD - MAX_METADATA_SIZE then Err("too large")
    else Ok(Framer(maxPlaintextSize))
  }

  // ----- boundary -----

  predicate ValidBoundary(boundary: bytes) {
    && 0 < |boundary| <= 70
    && boundary[|boundary| - 1] != ' '
    && forall i :: 0 <= i < |boundary| ==> 0x20 <= boundary[i] as int <= 0x7E
  }

  method CheckBoundary(boundary: bytes) returns (valid: bool)
    ensures valid <==> ValidBoundary(boundary)
    ensures valid <==> 1 <= |boundary| <= 70 && boundary[|boundary| - 1] != ' '
                       && forall i :: 0 <= i < |boundary| ==> ' ' <= boundary[i] <= '~'
  {
    if |boundary| == 0 || |boundary| > 70 || boundary[|boundary| - 1] == ' ' {
      return false;
    }
    for index := 0 to |boundary|
      invariant forall i :: 0 <= i < index ==> 0x20 <= boundary[i] as int <= 0x7E
    {
      if boundary[index] as int < 0x20 || boundary[index] as int > 0x7E {
        return false;
      }
    }
    return true;
  }

  // ----- printing -----

  /** The body that `seal` prints, over any boundary. */
  function SealedBody(boundary: bytes, length: nat, header: bytes, payload: bytes): bytes {
    Part(boundary, length, Stream(header, payload)) + Marker(boundary) + TERMINAL
  }

  function SealedContentType(): bytes {
    "multipart/encrypted;protocol=\"" + PROTOCOL + "\";boundary=\"" + BOUNDARY + "\""
  }

  method Seal(framer: Framer, message: bytes, adapter: Option<GssContext>) returns (r: Result<(bytes, bytes)>)
    ensures r.Ok? <==>
              && adapter.Some?
              && |message| <= framer.maxPlaintextSize
              && var token := Wrap(adapter.value, message);
                 token.Ok? && |token.value.0| + |token.value.1| <= |message| + 256
    ensures r.Ok? ==>
              && r.value.0 == SealedContentType()
              && var token := Wrap(adapter.value, message).value;
                 r.value.1 == SealedBody(BOUNDARY, |message|, token.0, token.1)
  {
    if adapter.None? {
      return Err("adapter");
    }
    if |message| > framer.maxPlaintextSize {
      return Err("plaintext length");
    }
    var token :- Wrap(adapter.value, message);
    var (header, payload) := token;
    if |header| + |payload| > |message| + MAX_WRAP_OVERHEAD {
      return Err("overhead");
    }
    var marker := Marker(BOUNDARY);
    var body: bytes := marker + CRLF;
    body := body + (TYPE_HEADER + PROTOCOL) + CRLF;
    body := body + (CONTENT_HEADER + OriginalContent(SOAP_TYPE, Decimal(|message|))) + CRLF;
    body := body + marker + CRLF;
    body := body + OCTET_LINE;
    body := body + Le32(|header|);
    body := body + header;
    body := body + payload;
    body := body + marker + TERMINAL;
    assert body == SealedBody(BOUNDARY, |message|, header, payload) by {
      var meta := Metadata(marker, PROTOCOL, SOAP_TYPE, Decimal(|message|)) + CRLF + marker + CRLF + OCTET_LINE;
      assert meta + (Le32(|header|) + header + payload) + marker + TERMINAL
          == meta + Le32(|header|) + header + payload + marker + TERMINAL;
    }
    return Ok((SealedContentType(), body));
  }

  // ----- parsing -----

  function CutHeader(line: bytes, prefix: bytes): (r: Option<bytes>)
    ensures r.Some? ==> line == prefix + r.value
    ensures r.None? ==> forall rest :: line != prefix + rest
  {
    if HasPrefix(line, prefix) then Some(line[|prefix|..])
    else
      assert forall rest :: (prefix + rest)[..|prefix|] == prefix;
      None
  }

  /** The media type the OriginalContent header must name. */
  predicate IsSoapMedia(media: Option<Media>) {
    && media.Some?
    && EqualFold(media.value.kind, SOAP_XML)
    && EqualFold(Param(media.value, "charset"), UTF8)
    && |media.value.params| == 1
  }

  /** Cuts `content` around the only occurrence of `tag`, after `prefix`. */
  function CutTagged(content: bytes, prefix: bytes, tag: bytes): Option<(bytes, bytes)>
    requires |tag| > 0
  {
    var separator := Index(content, tag);
    if !HasPrefix(content, prefix) || separator < |prefix| || Index(content[separator + 1..], tag) >= 0 then None
    else Some((content[|prefix|..separator], content[separator + |tag|..]))
  }

  function ParseOriginalContent(mime: MimeParser, content: bytes, maxPlaintextSize: int): Result<nat> {
    var cut := CutTagged(content, TYPE_PREFIX, LENGTH_TAG);
    if cut.None? then Err("OriginalContent")
    else if !IsSoapMedia(mime(cut.value.0)) then Err("media type")
    else
      var length := ParseUint63(cut.value.1);
      if length.None? || length.value > maxPlaintextSize then Err("length") else Ok(length.value)
  }

  function TrimLineBreak(text: bytes): bytes {
    if HasSuffix(text, CRLF) then text[..|text| - |CRLF|] else text
  }

  function ParseMetadata(mime: MimeParser, metadata: bytes, marker: bytes, maxPlaintextSize: int): Result<nat> {
    var lines := Split(TrimLineBreak(metadata), CRLF);
    if |lines| != 3 || lines[0] != marker then Err("metadata")
    else
      var protocol := CutHeader(lines[1], TYPE_HEADER);
      if protocol.None? || !EqualFold(protocol.value, PROTOCOL) then Err("protocol header")
      else
        var content := CutHeader(lines[2], CONTENT_HEADER);
        if content.None? then Err("OriginalContent")
        else ParseOriginalContent(mime, content.value, maxPlaintextSize)
  }

  datatype Envelope = Envelope(length: nat, header: bytes, payload: bytes)

  function SearchPattern(marker: bytes): bytes {
    marker + CRLF + OCTET_LINE
  }

  /** Cuts the body around the first `pattern` and before the final `terminal`, giving metadata and stream. */
  function CutBody(body: bytes, pattern: bytes, terminal: bytes): Result<(bytes, bytes)> {
    var metadataEnd := Index(body, pattern);
    if metadataEnd < 0 || metadataEnd > MAX_METADATA_SIZE then Err("metadata")
    else
      var payloadStart := metadataEnd + |pattern|;
      if !HasSuffix(body[payloadStart..], terminal) then Err("terminal boundary")
      else Ok((body[..metadataEnd], body[payloadStart..|body| - |terminal|]))
  }

  /** The header and payload of an encrypted stream whose header must have the RFC 4121 length. */
  function CutStream(stream: bytes): Result<(bytes, bytes)>
    requires |stream| >= 4
  {
    var headerLength := FromLe32(stream[..4]);
    if headerLength != HEADER_LENGTH then Err("header length")
    else if 4 + headerLength >= |stream| then Err("truncated")
    else Ok((stream[4..4 + headerLength], stream[4 + headerLength..]))
  }

  /** The part of `open` between the content-type checks and the call of unwrap. */
  function Extract(framer: Framer, mime: MimeParser, boundary: bytes, body: bytes): Result<Envelope> {
    if |body| > framer.maxPlaintextSize + MAX_WRAP_OVERHEAD + MAX_METADATA_SIZE then Err("body length")
    else
      var marker := Marker(boundary);
      var (metadata, stream) :- CutBody(body, SearchPattern(marker), marker + TERMINAL);
      if |stream| < 4 + HEADER_LENGTH + 1 then Err("truncated")
      else
        var length :- ParseMetadata(mime, metadata, marker, framer.maxPlaintextSize);
        var (header, payload) :- CutStream(stream);
        Ok(Envelope(length, header, payload))
  }

  /** The content type of a protected response, and the boundary it names. */
  predicate IsProtected(media: Media, boundary: bytes) {
    && EqualFold(media.kind, MULTIPART_ENCRYPTED)
    && EqualFold(Param(media, "protocol"), PROTOCOL)
    && Param(media, "boundary") == boundary
    && ValidBoundary(boundary)
  }

  function Open(framer: Framer, mime: MimeParser, contentType: bytes, body: bytes,
                adapter: Option<GssContext>): Result<bytes> {
    if adapter.None? then Err("adapter")
    else
      var media := mime(contentType);
      if media.None? then Err("content type")
      else if !EqualFold(media.value.kind, MULTIPART_ENCRYPTED) then Err("media type")
      else if !EqualFold(Param(media.value, "protocol"), PROTOCOL) then Err("protocol")
      else
        var boundary := Param(media.value, "boundary");
        if |boundary| == 0 then Err("boundary")
        else if !ValidBoundary(boundary) then Err("boundary")
        else
          var envelope :- Extract(framer, mime, boundary, body);
          var message :- Unwrap(adapter.value, envelope.header, envelope.payload);
          if |message| != envelope.length then Err("plaintext length") else Ok(message)
  }
}
