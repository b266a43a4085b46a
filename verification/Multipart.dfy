/** The multipart layout that kerberos_message.go and encryption.go both print. */
module Multipart {

  import opened Bytes

  const PROTOCOL: bytes := "application/HTTP-SPNEGO-session-encrypted"
  const BOUNDARY: bytes := "Encrypted Boundary"
  const SOAP_TYPE: bytes := "application/soap+xml;charset=UTF-8"
  const TYPE_HEADER: bytes := "\tContent-Type: "
  const CONTENT_HEADER: bytes := "\tOriginalContent: "
  const TYPE_PREFIX: bytes := "type="
  const LENGTH_TAG: bytes := ";Length="
  const OCTET_LINE: bytes := "\tContent-Type: application/octet-stream\r\n"
  const TERMINAL: bytes := "--\r\n"

  function Marker(boundary: bytes): bytes {
    "--" + boundary
  }

  /** The value of the OriginalContent header. */
  function OriginalContent(contentType: bytes, digits: bytes): bytes {
    TYPE_PREFIX + contentType + LENGTH_TAG + digits
  }

  function ThreeLines(first: bytes, second: bytes, third: bytes): bytes {
    first + CRLF + second + CRLF + third
  }

  /** The three metadata lines, without the final line break. */
  function Metadata(marker: bytes, protocol: bytes, contentType: bytes, digits: bytes): bytes {
    ThreeLines(marker, TYPE_HEADER + protocol, CONTENT_HEADER + OriginalContent(contentType, digits))
  }

  /** One sealed message: metadata, octet-stream line and length-prefixed stream. */
  function Part(boundary: bytes, length: nat, stream: bytes): bytes {
    Metadata(Marker(boundary), PROTOCOL, SOAP_TYPE, Decimal(length)) + CRLF
    + Marker(boundary) + CRLF + OCTET_LINE + stream
  }

  /** The encrypted stream: the header's length, the header, the payload. */
  function Stream(header: bytes, payload: bytes): bytes {
    Le32(|header|) + header + payload
  }
}
